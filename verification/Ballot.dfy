/** The signed ballot message and Schnorr signatures (crypto/ballot.py, crypto/schnorr.py). */
module BallotMessage {
  import opened Field
  import opened Group
  import opened Bytes
  import opened Transcripts

  const BALLOT_MESSAGE_LABEL := "SHUTTER-VOTE-BALLOT-v2"
  const PRE_V2_LABEL := "SHUTTER-VOTE-BALLOT-v1"
  const DST_SCHNORR := "SHUTTER-VOTE-SCHNORR-v1"

  datatype Attestation = Attestation(
    electionId: bytes, pseudonym: bytes, vk: bytes, weight: int, signature: bytes, nonce: int)

  type CipherBytes = (bytes, bytes)

  /** The inputs canonical_ballot_message accepts; it raises on all others. */
  predicate Signable(electionId: bytes, pseudonym: bytes, cts: seq<CipherBytes>, proof: bytes, att: Attestation)
  {
    && |electionId| == 32 && |pseudonym| == 32
    && (forall i :: 0 <= i < |cts| ==> |cts[i].0| == 96 && |cts[i].1| == 96)
    && |att.pseudonym| == 32 && |att.vk| == 48
    && 0 <= att.weight < Pow256(32) && 0 <= att.nonce < Pow256(32)
    && |cts| < 0x1_0000 && |proof| < 0x1_0000_0000 && |att.signature| < 0x1_0000
  }

  function CipherText(cts: seq<CipherBytes>): bytes
  {
    if cts == [] then [] else cts[0].0 + cts[0].1 + CipherText(cts[1..])
  }

  function CredentialBytes(att: Attestation): bytes
    requires att.weight >= 0 && att.nonce >= 0
  {
    att.pseudonym + att.vk + ToBE(att.weight, 32) + ToBE(att.nonce, 32) + U16(|att.signature|) + att.signature
  }

  /** canonical_ballot_message. */
  function Message(electionId: bytes, pseudonym: bytes, cts: seq<CipherBytes>, proof: bytes, att: Attestation): bytes
    requires Signable(electionId, pseudonym, cts, proof, att)
  {
    Ascii(BALLOT_MESSAGE_LABEL) + electionId + pseudonym
    + (U16(|cts|) + CipherText(cts) + (U32(|proof|) + proof + CredentialBytes(att)))
  }

  /** The superseded message, recognised only to name a stale client. */
  function PreV2Message(electionId: bytes, pseudonym: bytes, cts: seq<CipherBytes>, proof: bytes): bytes
  {
    Ascii(PRE_V2_LABEL) + electionId + pseudonym + U16(|cts|) + CipherText(cts) + U32(|proof|) + proof
  }

  lemma {:induction false} CipherLength(cts: seq<CipherBytes>)
    requires forall i :: 0 <= i < |cts| ==> |cts[i].0| == 96 && |cts[i].1| == 96
    ensures |CipherText(cts)| == 192 * |cts|
  {
    if cts != [] {
      CipherLength(cts[1..]);
    }
  }

  lemma {:induction false} CipherInjective(a: seq<CipherBytes>, b: seq<CipherBytes>)
    requires |a| == |b| && CipherText(a) == CipherText(b)
    requires forall i :: 0 <= i < |a| ==> |a[i].0| == 96 && |a[i].1| == 96
    requires forall i :: 0 <= i < |b| ==> |b[i].0| == 96 && |b[i].1| == 96
    ensures a == b
  {
    if a != [] {
      var x, y := CipherText(a[1..]), CipherText(b[1..]);
      assert a[0].0 + a[0].1 + x == a[0].0 + (a[0].1 + x) && b[0].0 + b[0].1 + y == b[0].0 + (b[0].1 + y);
      SplitEqual(a[0].0, a[0].1 + x, b[0].0, b[0].1 + y);
      SplitEqual(a[0].1, x, b[0].1, y);
      CipherInjective(a[1..], b[1..]);
      assert a == [a[0]] + a[1..] && b == [b[0]] + b[1..];
    }
  }

  /** The credential is covered in full, its signature bytes included; only the election id,
      which opens the message, is not repeated. */
  lemma CredentialInjective(a: Attestation, b: Attestation)
    requires 0 <= a.weight < Pow256(32) && 0 <= a.nonce < Pow256(32)
    requires 0 <= b.weight < Pow256(32) && 0 <= b.nonce < Pow256(32)
    requires |a.pseudonym| == |b.pseudonym| == 32 && |a.vk| == |b.vk| == 48
    requires |a.signature| < 0x1_0000 && |b.signature| < 0x1_0000
    requires CredentialBytes(a) == CredentialBytes(b)
    ensures a == b.(electionId := a.electionId)
  {
    hide Pow256, ToBE, U16;
    var wa, wb := ToBE(a.weight, 32), ToBE(b.weight, 32);
    var na, nb := ToBE(a.nonce, 32), ToBE(b.nonce, 32);
    var sa, sb := U16(|a.signature|) + a.signature, U16(|b.signature|) + b.signature;
    assert CredentialBytes(a) == a.pseudonym + (a.vk + (wa + (na + sa)));
    assert CredentialBytes(b) == b.pseudonym + (b.vk + (wb + (nb + sb)));
    SplitEqual(a.pseudonym, a.vk + (wa + (na + sa)), b.pseudonym, b.vk + (wb + (nb + sb)));
    SplitEqual(a.vk, wa + (na + sa), b.vk, wb + (nb + sb));
    SplitEqual(wa, na + sa, wb, nb + sb);
    SplitEqual(na, sa, nb, sb);
    SplitEqual(U16(|a.signature|), a.signature, U16(|b.signature|), b.signature);
    ToBEInjective(a.weight, b.weight, 32);
    ToBEInjective(a.nonce, b.nonce, 32);
  }

  /** The signed message determines every field it covers. */
  lemma MessageInjective(
    e1: bytes, p1: bytes, c1: seq<CipherBytes>, z1: bytes, a1: Attestation,
    e2: bytes, p2: bytes, c2: seq<CipherBytes>, z2: bytes, a2: Attestation)
    requires Signable(e1, p1, c1, z1, a1) && Signable(e2, p2, c2, z2, a2)
    requires Message(e1, p1, c1, z1, a1) == Message(e2, p2, c2, z2, a2)
    ensures e1 == e2 && p1 == p2 && c1 == c2 && z1 == z2 && a1 == a2.(electionId := a1.electionId)
  {
    hide Pow256, ToBE, U16, U32, CredentialBytes, CipherText;
    var l := Ascii(BALLOT_MESSAGE_LABEL);
    var t1, t2 := U32(|z1|) + z1 + CredentialBytes(a1), U32(|z2|) + z2 + CredentialBytes(a2);
    var r1, r2 := CipherText(c1) + t1, CipherText(c2) + t2;
    var m1, m2 := Message(e1, p1, c1, z1, a1), Message(e2, p2, c2, z2, a2);
    assert U16(|c1|) + CipherText(c1) + t1 == U16(|c1|) + r1;
    assert U16(|c2|) + CipherText(c2) + t2 == U16(|c2|) + r2;
    assert m1 == (l + e1) + (p1 + (U16(|c1|) + r1));
    assert m2 == (l + e2) + (p2 + (U16(|c2|) + r2));
    SplitEqual(l + e1, p1 + (U16(|c1|) + r1), l + e2, p2 + (U16(|c2|) + r2));
    SplitEqual(l, e1, l, e2);
    SplitEqual(p1, U16(|c1|) + r1, p2, U16(|c2|) + r2);
    SplitEqual(U16(|c1|), r1, U16(|c2|), r2);
    CountInjective(|c1|, |c2|);
    CipherLength(c1);
    CipherLength(c2);
    SplitEqual(CipherText(c1), t1, CipherText(c2), t2);
    CipherInjective(c1, c2);
    LengthFits(z1, z2);
    PrefixedEqual(z1, CredentialBytes(a1), z2, CredentialBytes(a2));
    CredentialInjective(a1, a2);
  }

  lemma CountInjective(m: nat, n: nat)
    requires m < 0x1_0000 && n < 0x1_0000 && U16(m) == U16(n)
    ensures m == n
  {
    Pow256Values();
    ToBEInjective(m, n, 2);
  }

  lemma LengthFits(a: bytes, b: bytes)
    requires |a| < 0x1_0000_0000 && |b| < 0x1_0000_0000
    ensures |a| < Pow256(4) && |b| < Pow256(4)
  {
    Pow256Values();
  }

  // ----- Schnorr over G1 -----

  function SchnorrPreimage(s: Suite, r: Point, vk: Point, msg: bytes): bytes
  {
    Ascii(DST_SCHNORR) + s.encode1(r) + s.encode1(vk) + msg
  }

  function SchnorrChallenge(s: Suite, r: Point, vk: Point, msg: bytes): (e: int)
    requires s.q > 0
    ensures 0 <= e < s.q
  {
    s.hash(SchnorrPreimage(s, r, vk, msg)) % s.q
  }

  /** keygen; nothing for a zero key. */
  function Keygen(sk: int, q: int): (r: Option<Point>)
    requires q > 1
    ensures r.Some? ==> IsPoint(r.value, q) && r.value != 0
  {
    if sk % q == 0 then None
    else
      ModUnique(sk % q, 0, sk % q, q);
      Some(Mul(G2, sk % q, q))
  }

  function Sign(s: Suite, sk: int, vk: Point, msg: bytes, k: int): (sig: (Point, int))
    requires s.q > 1
    ensures IsPoint(sig.0, s.q) && 0 <= sig.1 < s.q
  {
    var r := Mul(G2, k % s.q, s.q);
    (r, Rem(k % s.q + SchnorrChallenge(s, r, vk, msg) * (sk % s.q), s.q))
  }

  predicate SchnorrVerifies(s: Suite, vk: Point, msg: bytes, r: Point, x: int)
    requires s.q > 0
  {
    vk != 0 && Mul(G2, x, s.q) == Add(r, Mul(vk, SchnorrChallenge(s, r, vk, msg), s.q), s.q)
  }

  /** Every signature under a matching key pair verifies. */
  lemma SignVerifies(s: Suite, sk: int, vk: Point, msg: bytes, k: int)
    requires s.q > 1 && Keygen(sk, s.q) == Some(vk)
    ensures SchnorrVerifies(s, vk, msg, Sign(s, sk, vk, msg, k).0, Sign(s, sk, vk, msg, k).1)
  {
    hide SchnorrChallenge;
    var q := s.q;
    var r, x := Sign(s, sk, vk, msg, k).0, Sign(s, sk, vk, msg, k).1;
    var e, a, b := SchnorrChallenge(s, r, vk, msg), k % q, sk % q;
    SignAlgebra(a, b, e, q);
  }

  lemma SignAlgebra(a: int, b: int, e: int, q: int)
    requires q > 1
    ensures Mul(G2, Rem(a + e * b, q), q) == Add(Mul(G2, a, q), Mul(Mul(G2, b, q), e, q), q)
  {
    hide Mul, Add;
    var x, r, vk := Rem(a + e * b, q), Mul(G2, a, q), Mul(G2, b, q);
    CongMod(a + e * b, q);
    MulCong(G2, x, q);
    MulCong(G2, a, q);
    MulCong(G2, b, q);
    AddMulCong(r, vk, e, q);
    CongScale(vk, b, e, q);
    CongAdd(r, a, vk * e, b * e, q);
    assert e * b == b * e;
    CongSmall(Mul(G2, x, q), Add(r, Mul(vk, e, q), q), q);
  }

  function EncodeSignature(s: Suite, r: Point, x: int): bytes
    requires s.q > 0
  {
    s.encode1(r) + ScalarToBytes(x, s.q)
  }

  function DecodeSignature(s: Suite, b: bytes): Option<(Point, int)>
    requires s.q > 0
  {
    if |b| != 80 then None
    else
      var r, x := s.decode1(b[..48]), ScalarFromBytes(b[48..], s.q);
      if r.None? || x.None? then None else Some((r.value, x.value))
  }

  /** The 80-byte wire form is a bijection on reduced signatures. */
  lemma SignatureIff(s: Suite, b: bytes, r: Point, x: int)
    requires s.Valid()
    ensures DecodeSignature(s, b) == Some((r, x)) <==>
              IsPoint(r, s.q) && 0 <= x < s.q && b == EncodeSignature(s, r, x)
  {
    hide ToBE, FromBE;
    if DecodeSignature(s, b) == Some((r, x)) {
      ScalarCanonical(b[48..], s.q);
      assert b == b[..48] + b[48..];
    }
    if IsPoint(r, s.q) && 0 <= x < s.q && b == EncodeSignature(s, r, x) {
      assert b[..48] == s.encode1(r) && b[48..] == ScalarToBytes(x, s.q);
      ScalarRoundTrip(x, s.q);
      ModUnique(x, 0, x, s.q);
    }
  }
}

/** Building and verifying ballots (crypto/ballot.py). */
module Ballot {
  import opened Field
  import opened Group
  import opened Bytes
  import opened Transcripts
  import opened Proofs
  import opened BallotCodec
  import opened BallotMessage

  const PROOF_LABEL := "SHUTTER-VOTE-BALLOT-PROOF-v1"

  type Cipher = (Point, Point)

  datatype Verdict = Accept | Malformed | InvalidProof | InvalidSignature | InvalidSignaturePreV2 | Raises

  // ----- the shared transcript -----

  function SeedCiphers(s: Suite, p: Parts, cts: seq<Cipher>, k: nat): Parts
    requires k <= |cts|
  {
    if k == 0 then p
    else
      var a := AppendPointTo(s, SeedCiphers(s, p, cts, k - 1), "ct.c1[" + Decimal(k - 1) + "]", cts[k - 1].0);
      AppendPointTo(s, a, "ct.c2[" + Decimal(k - 1) + "]", cts[k - 1].1)
  }

  function SeedHeader(s: Suite, electionId: bytes, mpk: Point, vk: Point, count: nat, numCandidates: nat,
                      budget: nat): Parts
  {
    var p1 := AppendTo(Start(PROOF_LABEL), "electionId", electionId);
    var p2 := AppendPointTo(s, p1, "mpk", mpk);
    var p3 := AppendTo(p2, "vk", s.encode1(vk));
    var p4 := AppendTo(p3, "variant", [0x41]);
    var p5 := AppendTo(p4, "mode", [0]);
    var p6 := AppendTo(p5, "numCandidates", U16(numCandidates));
    var p7 := AppendTo(p6, "budget", U16(budget));
    AppendTo(p7, "|cts|", U16(count))
  }

  /** seed_ballot_transcript. */
  function Seed(s: Suite, electionId: bytes, mpk: Point, vk: Point, cts: seq<Cipher>, numCandidates: nat,
                budget: nat): Parts
  {
    SeedCiphers(s, SeedHeader(s, electionId, mpk, vk, |cts|, numCandidates, budget), cts, |cts|)
  }

  method SeedBallotTranscript(s: Suite, electionId: bytes, mpk: Point, vk: Point, cts: seq<Cipher>,
                              numCandidates: nat, budget: nat) returns (t: Transcript)
    ensures fresh(t) && t.Valid() && t.parts == Seed(s, electionId, mpk, vk, cts, numCandidates, budget)
  {
    t := new Transcript(PROOF_LABEL);
    t.Append("electionId", electionId);
    t.AppendPoint(s, "mpk", mpk);
    t.Append("vk", s.encode1(vk));
    t.Append("variant", [0x41]);
    t.Append("mode", [0]);
    t.Append("numCandidates", U16(numCandidates));
    t.Append("budget", U16(budget));
    t.Append("|cts|", U16(|cts|));
    ghost var p := t.parts;
    for i := 0 to |cts|
      invariant fresh(t) && t.Valid() && t.parts == SeedCiphers(s, p, cts, i)
    {
      t.AppendPoint(s, "ct.c1[" + Decimal(i) + "]", cts[i].0);
      t.AppendPoint(s, "ct.c2[" + Decimal(i) + "]", cts[i].1);
    }
  }

  /** The candidate plaintexts 0..budget. */
  function Levels(budget: nat): (c: seq<int>)
    ensures |c| == budget + 1 && forall i :: 0 <= i <= budget ==> c[i] == i
  {
    seq(budget + 1, i => i)
  }

  function RangeTag(p: Parts, j: nat): Parts
  {
    AppendTo(p, "ballot:range", U16(j))
  }

  /** The transcript after the first k range proofs. */
  function AfterRanges(s: Suite, p: Parts, mpk: Point, cts: seq<Cipher>, levels: seq<int>,
                       ranges: seq<seq<ORBranch>>, k: nat): Parts
    requires s.q > 0 && k <= |cts| && k <= |ranges|
  {
    if k == 0 then p
    else OrFolded(s, RangeTag(AfterRanges(s, p, mpk, cts, levels, ranges, k - 1), k - 1),
                  cts[k - 1].0, cts[k - 1].1, mpk, levels, ranges[k - 1])
  }

  /** Every one of the first k range proofs is accepted where the previous one left off. */
  predicate RangesAccept(s: Suite, p: Parts, mpk: Point, cts: seq<Cipher>, levels: seq<int>,
                         ranges: seq<seq<ORBranch>>, k: nat)
    requires s.q > 0 && k <= |cts| && k <= |ranges|
  {
    k == 0 ||
    (&& RangesAccept(s, p, mpk, cts, levels, ranges, k - 1)
     && OrAccepts(s, RangeTag(AfterRanges(s, p, mpk, cts, levels, ranges, k - 1), k - 1),
                  cts[k - 1].0, cts[k - 1].1, mpk, levels, ranges[k - 1]))
  }

  lemma {:induction false} RangesSnocSame(s: Suite, p: Parts, mpk: Point, cts: seq<Cipher>, levels: seq<int>,
                                          a: seq<seq<ORBranch>>, x: seq<ORBranch>, k: nat)
    requires s.q > 0 && k <= |cts| && k <= |a|
    ensures AfterRanges(s, p, mpk, cts, levels, a + [x], k) == AfterRanges(s, p, mpk, cts, levels, a, k)
    ensures RangesAccept(s, p, mpk, cts, levels, a + [x], k) == RangesAccept(s, p, mpk, cts, levels, a, k)
  {
    hide OrAccepts, OrFolded, RangeTag;
    if k > 0 {
      RangesSnocSame(s, p, mpk, cts, levels, a, x, k - 1);
    }
  }

  /** Running sums of the ciphertext components. */
  function SumC1(cts: seq<Cipher>, q: int): (p: Point)
    requires q > 0
    ensures IsPoint(p, q)
  {
    if cts == [] then Z2 else Add(SumC1(cts[..|cts| - 1], q), cts[|cts| - 1].0, q)
  }

  function SumC2(cts: seq<Cipher>, q: int): (p: Point)
    requires q > 0
    ensures IsPoint(p, q)
  {
    if cts == [] then Z2 else Add(SumC2(cts[..|cts| - 1], q), cts[|cts| - 1].1, q)
  }

  method SumCiphers(cts: seq<Cipher>, q: int) returns (c1: Point, c2: Point)
    requires q > 1
    ensures c1 == SumC1(cts, q) && c2 == SumC2(cts, q)
  {
    c1, c2 := Z2, Z2;
    for i := 0 to |cts|
      invariant c1 == SumC1(cts[..i], q) && c2 == SumC2(cts[..i], q)
    {
      assert cts[..i + 1][..i] == cts[..i];
      c1 := Add(c1, cts[i].0, q);
      c2 := Add(c2, cts[i].1, q);
    }
    assert cts[..|cts|] == cts;
  }

  function BudgetStart(p: Parts): Parts
  {
    AppendTo(p, "ballot:budget", [0])
  }

  /** The proof part of the verdict. */
  ghost predicate ProofsAccept(s: Suite, p: Parts, mpk: Point, cts: seq<Cipher>, budget: nat, proof: ValidityProof)
    requires s.q > 0
  {
    && |proof.ranges| == |cts|
    && RangesAccept(s, p, mpk, cts, Levels(budget), proof.ranges, |cts|)
    && BudgetExactAccepts(s, BudgetStart(AfterRanges(s, p, mpk, cts, Levels(budget), proof.ranges, |cts|)),
                          SumC1(cts, s.q), SumC2(cts, s.q), mpk, budget, proof.e, proof.z)
  }

  function DecodeCiphers(s: Suite, cts: seq<CipherBytes>): (r: Option<seq<Cipher>>)
    ensures r.Some? ==> |r.value| == |cts|
  {
    if cts == [] then Some([])
    else
      var n := |cts| - 1;
      var front := DecodeCiphers(s, cts[..n]);
      var a, b := s.decode2(cts[n].0), s.decode2(cts[n].1);
      if front.None? || a.None? || b.None? then None else Some(front.value + [(a.value, b.value)])
  }

  datatype WireBallot = WireBallot(
    electionId: bytes, pseudonym: bytes, vk: bytes, cts: seq<CipherBytes>, proof: bytes, signature: bytes)

  /** The structural gates before any proof is looked at. */
  predicate Structured(s: Suite, mpk: Point, b: WireBallot, numCandidates: int, budget: int)
    requires s.q > 0
  {
    && 1 <= numCandidates <= 0xFFFF && 1 <= budget <= 0xFFFE
    && |b.electionId| == 32 && |b.pseudonym| == 32 && mpk != Z2
    && s.decode1(b.vk).Some? && s.decode1(b.vk) != Some(0)
    && |b.cts| == numCandidates
    && DecodeCiphers(s, b.cts).Some?
    && Decode(s, b.proof, numCandidates, budget).Some?
  }

  /** verify_ballot_crypto as a function. */
  ghost function BallotVerdict(s: Suite, mpk: Point, b: WireBallot, att: Attestation, numCandidates: int,
                               budget: int): Verdict
    requires s.q > 1
  {
    if !Structured(s, mpk, b, numCandidates, budget) then Malformed
    else
      var vk, cts := s.decode1(b.vk).value, DecodeCiphers(s, b.cts).value;
      var proof := Decode(s, b.proof, numCandidates, budget).value;
      var p := Seed(s, b.electionId, mpk, vk, cts, numCandidates, budget);
      if !ProofsAccept(s, p, mpk, cts, budget, proof) then InvalidProof
      else if DecodeSignature(s, b.signature).None? then Malformed
      else
        var sig := DecodeSignature(s, b.signature).value;
        SignatureVerdict(s, vk, b, att, sig)
  }

  function SignatureVerdict(s: Suite, vk: Point, b: WireBallot, att: Attestation, sig: (Point, int)): Verdict
    requires s.q > 1
  {
    if !Signable(b.electionId, b.pseudonym, b.cts, b.proof, att) then Raises
    else if SchnorrVerifies(s, vk, s.keccak(Message(b.electionId, b.pseudonym, b.cts, b.proof, att)), sig.0,
                            sig.1) then Accept
    else if SchnorrVerifies(s, vk, s.keccak(PreV2Message(b.electionId, b.pseudonym, b.cts, b.proof)), sig.0, sig.1)
      then InvalidSignaturePreV2
    else InvalidSignature
  }

  method DecodeCipherBytes(s: Suite, cts: seq<CipherBytes>) returns (r: Option<seq<Cipher>>)
    ensures r == DecodeCiphers(s, cts)
  {
    var out: seq<Cipher> := [];
    for i := 0 to |cts|
      invariant DecodeCiphers(s, cts[..i]) == Some(out)
    {
      assert cts[..i + 1][..i] == cts[..i];
      var a, b := s.decode2(cts[i].0), s.decode2(cts[i].1);
      if a.None? || b.None? {
        CiphersNeverRecover(s, cts, i + 1);
        return None;
      }
      out := out + [(a.value, b.value)];
    }
    assert cts[..|cts|] == cts;
    return Some(out);
  }

  lemma {:induction false} CiphersNeverRecover(s: Suite, cts: seq<CipherBytes>, k: nat)
    requires k <= |cts| && DecodeCiphers(s, cts[..k]).None?
    ensures DecodeCiphers(s, cts).None?
    decreases |cts|
  {
    var n := |cts| - 1;
    if k <= n {
      assert cts[..n][..k] == cts[..k];
      CiphersNeverRecover(s, cts[..n], k);
    } else {
      assert cts[..k] == cts;
    }
  }

  /** The range-proof loop of the verifier. */
  method VerifyRanges(s: Suite, mpk: Point, cts: seq<Cipher>, budget: nat, ranges: seq<seq<ORBranch>>, t: Transcript)
    returns (ok: bool)
    requires s.q > 1 && |ranges| == |cts|
    requires t.Valid()
    modifies t
    ensures t.Valid()
    ensures ok <==> RangesAccept(s, old(t.parts), mpk, cts, Levels(budget), ranges, |cts|)
    ensures ok ==> t.parts == AfterRanges(s, old(t.parts), mpk, cts, Levels(budget), ranges, |cts|)
  {
    hide OrAccepts, OrFolded, RangeTag;
    var levels := Levels(budget);
    ghost var p := t.parts;
    for j := 0 to |cts|
      invariant RangesAccept(s, p, mpk, cts, levels, ranges, j)
      invariant t.Valid() && t.parts == AfterRanges(s, p, mpk, cts, levels, ranges, j)
    {
      AppendRangeTag(j, t);
      ok := VerifyOr(s, cts[j].0, cts[j].1, mpk, levels, ranges[j], t);
      if !ok {
        RejectionSticks(s, p, mpk, cts, levels, ranges, j + 1);
        return false;
      }
    }
    ok := true;
  }

  method AppendRangeTag(j: nat, t: Transcript)
    requires t.Valid()
    modifies t
    ensures t.Valid()
    ensures t.parts == RangeTag(old(t.parts), j)
  {
    t.Append("ballot:range", U16(j));
  }

  lemma {:induction false} RejectionSticks(s: Suite, p: Parts, mpk: Point, cts: seq<Cipher>, levels: seq<int>,
                                           ranges: seq<seq<ORBranch>>, k: nat)
    requires s.q > 0 && k <= |cts| == |ranges| && !RangesAccept(s, p, mpk, cts, levels, ranges, k)
    ensures !RangesAccept(s, p, mpk, cts, levels, ranges, |cts|)
    decreases |cts| - k
  {
    hide OrAccepts, OrFolded, RangeTag, AfterRanges;
    if k < |cts| {
      RejectionSticks(s, p, mpk, cts, levels, ranges, k + 1);
    }
  }

  method VerifyProofs(s: Suite, mpk: Point, cts: seq<Cipher>, budget: nat, proof: ValidityProof, t: Transcript)
    returns (ok: bool)
    requires s.q > 1 && |proof.ranges| == |cts|
    requires t.Valid()
    modifies t
    ensures t.Valid()
    ensures ok <==> ProofsAccept(s, old(t.parts), mpk, cts, budget, proof)
  {
    hide BudgetExactAccepts, RangesAccept, AfterRanges, SumC1, SumC2;
    ok := VerifyRanges(s, mpk, cts, budget, proof.ranges, t);
    if ok {
      var c1, c2 := SumCiphers(cts, s.q);
      t.Append("ballot:budget", [0]);
      ok := VerifyBudgetExact(s, c1, c2, mpk, budget, proof.e, proof.z, t);
    }
  }

  method VerifyBallotCrypto(s: Suite, mpk: Point, b: WireBallot, att: Attestation, numCandidates: int, budget: int)
    returns (v: Verdict)
    requires s.q > 1
    ensures v == BallotVerdict(s, mpk, b, att, numCandidates, budget)
  {
    hide Decode, DecodeCiphers, ProofsAccept, Seed, DecodeSignature, SignatureVerdict;
    if !(1 <= numCandidates <= 0xFFFF) {
      return Malformed;
    }
    if !(1 <= budget <= 0xFFFE) {
      return Malformed;
    }
    if |b.electionId| != 32 || |b.pseudonym| != 32 {
      return Malformed;
    }
    if mpk == Z2 {
      return Malformed;
    }
    var vk := s.decode1(b.vk);
    if vk.None? || vk.value == 0 {
      return Malformed;
    }
    if |b.cts| != numCandidates {
      return Malformed;
    }
    var cts := DecodeCipherBytes(s, b.cts);
    if cts.None? {
      return Malformed;
    }
    var proof := DecodeProof(s, b.proof, numCandidates, budget);
    if proof.None? {
      return Malformed;
    }
    DecodedCount(s, b.proof, numCandidates, budget);
    var t := SeedBallotTranscript(s, b.electionId, mpk, vk.value, cts.value, numCandidates, budget);
    var ok := VerifyProofs(s, mpk, cts.value, budget, proof.value, t);
    if !ok {
      return InvalidProof;
    }
    var sig := DecodeSignature(s, b.signature);
    if sig.None? {
      return Malformed;
    }
    return SignatureVerdict(s, vk.value, b, att, sig.value);
  }

  lemma DecodedCount(s: Suite, buf: bytes, m: nat, budget: nat)
    requires s.q > 0 && Decode(s, buf, m, budget).Some?
    ensures |Decode(s, buf, m, budget).value.ranges| == m
  {
    hide CountsRead, FromBE, ScalarFromBytes, ParseRanges, Span;
    RangesCounted(s, buf, 4 + 2 * m, m, budget + 1);
  }

  lemma {:induction false} RangesCounted(s: Suite, buf: bytes, o: nat, m: nat, n: nat)
    requires s.q > 0
    ensures ParseRanges(s, buf, o, m, n).Some? ==> |ParseRanges(s, buf, o, m, n).value| == m
  {
    hide ParseBranches;
    if m > 0 {
      RangesCounted(s, buf, o, m - 1, n);
    }
  }

  // ----- building -----

  function SumVotes(votes: seq<int>): int
  {
    if votes == [] then 0 else SumVotes(votes[..|votes| - 1]) + votes[|votes| - 1]
  }

  /** Each pair is the encryption of its vote with its randomness. */
  ghost predicate EncryptsAll(cts: seq<Cipher>, mpk: Point, votes: seq<int>, rs: seq<int>, q: int)
    requires q > 0
  {
    && |cts| == |votes| == |rs|
    && forall j :: 0 <= j < |cts| ==> Encrypts(cts[j].0, cts[j].1, mpk, votes[j], rs[j], q)
  }

  ghost predicate AllPoints(cts: seq<Cipher>, q: int)
  {
    forall j :: 0 <= j < |cts| ==> IsPoint(cts[j].0, q) && IsPoint(cts[j].1, q)
  }

  method EncryptVotes(s: Suite, mpk: Point, votes: seq<int>, rs: seq<int>) returns (cts: seq<Cipher>)
    requires s.q > 1 && |rs| == |votes|
    ensures EncryptsAll(cts, mpk, votes, rs, s.q) && AllPoints(cts, s.q)
  {
    hide Encrypts;
    cts := [];
    for j := 0 to |votes|
      invariant |cts| == j
      invariant forall k :: 0 <= k < j ==> Encrypts(cts[k].0, cts[k].1, mpk, votes[k], rs[k], s.q)
      invariant forall k :: 0 <= k < j ==> IsPoint(cts[k].0, s.q) && IsPoint(cts[k].1, s.q)
    {
      var r := rs[j] % s.q;
      EncryptionHolds(mpk, votes[j], rs[j], s.q);
      cts := cts + [(Mul(G2, r, s.q), Add(Mul(mpk, r, s.q), Mul(G2, votes[j], s.q), s.q))];
    }
  }

  lemma EncryptionHolds(mpk: Point, v: int, r: int, q: int)
    requires q > 1
    ensures Encrypts(Mul(G2, r % q, q), Add(Mul(mpk, r % q, q), Mul(G2, v, q), q), mpk, v, r, q)
  {
    CongMod(r, q);
    MulCong(G2, r % q, q);
    MulCong(mpk, r % q, q);
    CongScale(r % q, r, mpk, q);
    AddMulCong(Mul(mpk, r % q, q), G2, v, q);
    CongAdd(Mul(mpk, r % q, q), mpk * r, v, v, q);
  }

  /** The homomorphic sum of encryptions encrypts the sum of the votes. */
  lemma {:induction false} SumEncrypts(cts: seq<Cipher>, mpk: Point, votes: seq<int>, rs: seq<int>, q: int)
    requires q > 1 && EncryptsAll(cts, mpk, votes, rs, q)
    ensures Encrypts(SumC1(cts, q), SumC2(cts, q), mpk, SumVotes(votes), SumVotes(rs), q)
  {
    if cts != [] {
      var n := |cts| - 1;
      SumEncrypts(cts[..n], mpk, votes[..n], rs[..n], q);
      AddEncrypts(SumC1(cts[..n], q), SumC2(cts[..n], q), SumVotes(votes[..n]), SumVotes(rs[..n]),
                  cts[n], votes[n], rs[n], mpk, q);
    }
  }

  lemma AddEncrypts(c1: Point, c2: Point, m: int, r: int, ct: Cipher, v: int, x: int, mpk: Point, q: int)
    requires q > 1 && Encrypts(c1, c2, mpk, m, r, q) && Encrypts(ct.0, ct.1, mpk, v, x, q)
    ensures Encrypts(Add(c1, ct.0, q), Add(c2, ct.1, q), mpk, m + v, r + x, q)
  {
    AddCong(c1, ct.0, q);
    AddCong(c2, ct.1, q);
    CongAdd(c1, r, ct.0, x, q);
    CongAdd(c2, mpk * r + m, ct.1, mpk * x + v, q);
    assert mpk * (r + x) == mpk * r + mpk * x;
  }

  /** The randomness a build draws: encryption, per-candidate OR nonces and simulations, the
      budget nonce and the signature nonce. */
  datatype Coins = Coins(rs: seq<int>, ws: seq<int>, sims: seq<seq<(int, int)>>, budgetW: int, k: int)

  ghost predicate CoinsFor(c: Coins, n: nat, budget: int)
  {
    |c.rs| == |c.ws| == |c.sims| == n && forall j :: 0 <= j < n ==> |c.sims[j]| == budget + 1
  }

  /** The range-proof loop of the prover: its transcript and the verifier's stay equal. */
  method ProveRanges(s: Suite, mpk: Point, cts: seq<Cipher>, votes: seq<int>, budget: nat, c: Coins, t: Transcript)
    returns (ranges: seq<seq<ORBranch>>)
    requires s.q > 1 && EncryptsAll(cts, mpk, votes, c.rs, s.q) && CoinsFor(c, |votes|, budget)
    requires forall j :: 0 <= j < |votes| ==> 0 <= votes[j] <= budget
    requires t.Valid()
    modifies t
    ensures t.Valid()
    ensures RangesShaped(ranges, |cts|, budget + 1, s.q)
    ensures RangesAccept(s, old(t.parts), mpk, cts, Levels(budget), ranges, |cts|)
    ensures t.parts == AfterRanges(s, old(t.parts), mpk, cts, Levels(budget), ranges, |cts|)
  {
    hide OrAccepts, OrFolded, RangeTag, Encrypts, Reduced;
    var levels := Levels(budget);
    ghost var p := t.parts;
    ranges := [];
    for j := 0 to |cts|
      invariant RangesShaped(ranges, j, budget + 1, s.q)
      invariant RangesAccept(s, p, mpk, cts, levels, ranges, j)
      invariant t.Valid() && t.parts == AfterRanges(s, p, mpk, cts, levels, ranges, j)
    {
      AppendRangeTag(j, t);
      var proof := ProveOr(s, cts[j].0, cts[j].1, mpk, levels, c.rs[j], votes[j], c.ws[j], c.sims[j], t);
      RangesSnocSame(s, p, mpk, cts, levels, ranges, proof.value, j);
      RangesShapedSnoc(ranges, proof.value, j, budget + 1, s.q);
      ranges := ranges + [proof.value];
    }
  }

  function EncodeCiphers(s: Suite, cts: seq<Cipher>): (b: seq<CipherBytes>)
    ensures |b| == |cts|
  {
    seq(|cts|, i requires 0 <= i < |cts| => (s.encode2(cts[i].0), s.encode2(cts[i].1)))
  }

  lemma {:induction false} CipherRoundTrip(s: Suite, cts: seq<Cipher>)
    requires s.Valid() && AllPoints(cts, s.q)
    ensures DecodeCiphers(s, EncodeCiphers(s, cts)) == Some(cts)
    ensures forall i :: 0 <= i < |cts| ==> |EncodeCiphers(s, cts)[i].0| == 96 && |EncodeCiphers(s, cts)[i].1| == 96
  {
    if cts != [] {
      var n := |cts| - 1;
      CipherRoundTrip(s, cts[..n]);
      assert EncodeCiphers(s, cts)[..n] == EncodeCiphers(s, cts[..n]);
      assert cts == cts[..n] + [cts[n]];
    }
  }

  /** The vote vectors and inputs build_ballot goes on to prove and sign. */
  ghost predicate Votable(s: Suite, sk: int, vk: Point, votes: seq<int>, numCandidates: int, budget: int)
    requires s.q > 1
  {
    && |votes| == numCandidates
    && (forall j :: 0 <= j < |votes| ==> 0 <= votes[j] <= budget)
    && SumVotes(votes) == budget
    && Keygen(sk, s.q) == Some(vk)
  }

  method CheckVotes(votes: seq<int>, budget: int) returns (ok: bool)
    ensures ok <==> (forall j :: 0 <= j < |votes| ==> 0 <= votes[j] <= budget) && SumVotes(votes) == budget
  {
    var sum := 0;
    for j := 0 to |votes|
      invariant sum == SumVotes(votes[..j])
      invariant forall k :: 0 <= k < j ==> 0 <= votes[k] <= budget
    {
      if votes[j] < 0 || votes[j] > budget {
        return false;
      }
      assert votes[..j + 1][..j] == votes[..j];
      sum := sum + votes[j];
    }
    assert votes[..|votes|] == votes;
    ok := sum == budget;
  }

  /** The proving half of build_ballot. */
  method ProveBallot(s: Suite, mpk: Point, electionId: bytes, vk: Point, votes: seq<int>, budget: nat, c: Coins)
    returns (cts: seq<Cipher>, proof: ValidityProof)
    requires s.q > 1 && CoinsFor(c, |votes|, budget) && SumVotes(votes) == budget
    requires forall j :: 0 <= j < |votes| ==> 0 <= votes[j] <= budget
    ensures EncryptsAll(cts, mpk, votes, c.rs, s.q) && AllPoints(cts, s.q)
    ensures Expected(proof, |votes|, budget + 1, s.q)
    ensures ProofsAccept(s, Seed(s, electionId, mpk, vk, cts, |votes|, budget), mpk, cts, budget, proof)
  {
    hide BudgetExactAccepts, RangesAccept, AfterRanges, SumC1, SumC2, Seed, Encrypts, RangesShaped;
    cts := EncryptVotes(s, mpk, votes, c.rs);
    var t := SeedBallotTranscript(s, electionId, mpk, vk, cts, |votes|, budget);
    var ranges := ProveRanges(s, mpk, cts, votes, budget, c, t);
    RangesCount(ranges, |cts|, budget + 1, s.q);
    var c1, c2 := SumCiphers(cts, s.q);
    SumEncrypts(cts, mpk, votes, c.rs, s.q);
    t.Append("ballot:budget", [0]);
    var e, z := ProveBudgetExact(s, c1, c2, mpk, budget, SumVotes(c.rs), c.budgetW, t);
    proof := ValidityProof(ranges, e, z);
  }

  /** What the wire formats can carry: fixed-width identifiers, weights and nonces of 32 bytes,
      two-byte counts and a four-byte proof length. */
  ghost predicate Carriable(electionId: bytes, pseudonym: bytes, att: Attestation, m: int, budget: int)
  {
    && |electionId| == 32 && |pseudonym| == 32 && |att.pseudonym| == 32 && |att.vk| == 48
    && 0 <= att.weight < Pow256(32) && 0 <= att.nonce < Pow256(32) && |att.signature| < 0x1_0000
    && 0 < m < 0x1_0000 && 0 <= budget < 0xFFFF
    && 69 + 2 * m + Span(m, budget + 1) < 0x1_0000_0000
  }

  /** build_ballot. Completeness through the wire: exactly the admissible vote vectors that the
      formats can carry get a ballot; it encrypts those votes; and whatever the randomness it
      verifies, except under the identity key or a zero budget, which the verifier calls
      malformed. */
  method BuildBallot(s: Suite, mpk: Point, electionId: bytes, pseudonym: bytes, sk: int, vk: Point,
                     att: Attestation, votes: seq<int>, numCandidates: int, budget: int, c: Coins)
    returns (r: Option<WireBallot>)
    requires s.Valid() && IsPoint(mpk, s.q) && CoinsFor(c, |votes|, budget)
    ensures r.Some? <==> Votable(s, sk, vk, votes, numCandidates, budget)
                         && Carriable(electionId, pseudonym, att, numCandidates, budget)
    ensures r.Some? ==> r.value.electionId == electionId && r.value.pseudonym == pseudonym
    ensures r.Some? ==> r.value.vk == s.encode1(vk)
    ensures r.Some? ==> Carries(s, r.value.cts, mpk, votes, c.rs)
    ensures r.Some? ==> BallotVerdict(s, mpk, r.value, att, numCandidates, budget)
                        == if mpk == Z2 || budget == 0 then Malformed else Accept
  {
    hide Decode, DecodeCiphers, ProofsAccept, Seed, SchnorrVerifies, Signable, Message, Expected, EncodeCiphers,
         BallotVerdict, EncryptsAll, AllPoints, ProofBytes, Sign, Span, Pow256, SumVotes, Carriable;
    OrderPositive(s);
    if |votes| != numCandidates {
      return None;
    }
    var ok := CheckVotes(votes, budget);
    if !ok || Keygen(sk, s.q) != Some(vk) {
      return None;
    }
    VotesNonNegative(votes, budget);
    var cts, proof := ProveBallot(s, mpk, electionId, vk, votes, budget, c);
    var zk := Encode(s, proof);
    ExpectedUniform(proof, |votes|, budget + 1, s.q);
    if zk.None? {
      NotCarriable(electionId, pseudonym, att, |votes|, budget);
      return None;
    }
    var ctBytes := EncodeCiphers(s, cts);
    EncryptedCount(cts, mpk, votes, c.rs, s.q);
    SignableIff(s, electionId, pseudonym, cts, proof, att, budget);
    if !Signable(electionId, pseudonym, ctBytes, zk.value, att) {
      return None;
    }
    var preimage := Message(electionId, pseudonym, ctBytes, zk.value, att);
    var sig := Sign(s, sk, vk, s.keccak(preimage), c.k);
    var b := WireBallot(electionId, pseudonym, s.encode1(vk), ctBytes, zk.value, EncodeSignature(s, sig.0, sig.1));
    CodecRoundTrip(s, proof, |votes|, budget + 1);
    CipherRoundTrip(s, cts);
    SignVerifies(s, sk, vk, s.keccak(preimage), c.k);
    WireAccepts(s, mpk, b, att, vk, cts, proof, sig, budget);
    r := Some(b);
  }

  /** Both exceptions are real: these inputs are built whatever the key, the identity included,
      and the first of them with a zero budget. */
  lemma MalformedBallotsAreBuilt(s: Suite) returns (id: bytes, att: Attestation)
    requires s.Valid()
    ensures Votable(s, 1, 1, [0], 1, 0) && Carriable(id, id, att, 1, 0)
    ensures Votable(s, 1, 1, [1], 1, 1) && Carriable(id, id, att, 1, 1)
  {
    hide ToBE, Pow256;
    id := ToBE(0, 32);
    att := Attestation(id, id, ToBE(0, 48), 0, [], 0);
    ModUnique(1, 0, 1, s.q);
    assert SumVotes([0]) == SumVotes([]) + 0 && SumVotes([1]) == SumVotes([]) + 1;
    assert Span(1, 1) == Span(0, 1) + 256 && Span(1, 2) == Span(0, 2) + 512;
  }

  /** The ciphertext bytes decode to encryptions of the votes. */
  ghost predicate Carries(s: Suite, cts: seq<CipherBytes>, mpk: Point, votes: seq<int>, rs: seq<int>)
    requires s.q > 0
  {
    DecodeCiphers(s, cts).Some? && EncryptsAll(DecodeCiphers(s, cts).value, mpk, votes, rs, s.q)
  }

  lemma EncryptedCount(cts: seq<Cipher>, mpk: Point, votes: seq<int>, rs: seq<int>, q: int)
    requires q > 0 && EncryptsAll(cts, mpk, votes, rs, q)
    ensures |cts| == |votes|
  {
  }

  lemma NotCarriable(electionId: bytes, pseudonym: bytes, att: Attestation, m: int, budget: int)
    ensures m <= 0 || m >= 0x1_0000 || budget >= 0xFFFF ==> !Carriable(electionId, pseudonym, att, m, budget)
  {
  }

  /** An encoded proof of the expected shape can be signed exactly when everything fits. */
  lemma SignableIff(s: Suite, electionId: bytes, pseudonym: bytes, cts: seq<Cipher>, proof: ValidityProof,
                    att: Attestation, budget: nat)
    requires s.Valid() && AllPoints(cts, s.q) && Expected(proof, |cts|, budget + 1, s.q)
    requires 0 < |cts| < 0x1_0000 && budget + 1 < 0x1_0000
    ensures Signable(electionId, pseudonym, EncodeCiphers(s, cts), ProofBytes(s, proof, budget + 1), att)
       <==> Carriable(electionId, pseudonym, att, |cts|, budget)
  {
    hide EncodeRanges, RangesShaped, Span, Pow256, ScalarToBytes;
    CipherRoundTrip(s, cts);
    RangesLength(s, proof.ranges, |cts|, budget + 1);
  }

  /** Parts that decode and verify make a ballot the verifier accepts. */
  lemma WireAccepts(s: Suite, mpk: Point, b: WireBallot, att: Attestation, vk: Point, cts: seq<Cipher>,
                    proof: ValidityProof, sig: (Point, int), budget: nat)
    requires s.Valid() && 0 < |cts| < 0x1_0000 && budget < 0xFFFF
    requires b.vk == s.encode1(vk) && IsPoint(vk, s.q) && vk != 0
    requires |b.cts| == |cts| && DecodeCiphers(s, b.cts) == Some(cts)
    requires Decode(s, b.proof, |cts|, budget) == Some(proof)
    requires b.signature == EncodeSignature(s, sig.0, sig.1) && IsPoint(sig.0, s.q) && 0 <= sig.1 < s.q
    requires ProofsAccept(s, Seed(s, b.electionId, mpk, vk, cts, |cts|, budget), mpk, cts, budget, proof)
    requires Signable(b.electionId, b.pseudonym, b.cts, b.proof, att)
    requires SchnorrVerifies(s, vk, s.keccak(Message(b.electionId, b.pseudonym, b.cts, b.proof, att)), sig.0, sig.1)
    ensures BallotVerdict(s, mpk, b, att, |cts|, budget) == if mpk == Z2 || budget == 0 then Malformed else Accept
  {
    hide Decode, DecodeCiphers, ProofsAccept, Seed, DecodeSignature, SchnorrVerifies, Signable, Message,
         EncodeSignature;
    OrderPositive(s);
    SignatureIff(s, b.signature, sig.0, sig.1);
    KeyDecodes(s, vk);
    SignableLengths(b.electionId, b.pseudonym, b.cts, b.proof, att);
  }

  lemma SignableLengths(electionId: bytes, pseudonym: bytes, cts: seq<CipherBytes>, proof: bytes, att: Attestation)
    requires Signable(electionId, pseudonym, cts, proof, att)
    ensures |electionId| == 32 && |pseudonym| == 32
  {
  }

  lemma KeyDecodes(s: Suite, vk: Point)
    requires s.Valid() && IsPoint(vk, s.q)
    ensures s.decode1(s.encode1(vk)) == Some(vk)
  {
  }

  lemma {:induction false} VotesNonNegative(votes: seq<int>, budget: int)
    requires forall j :: 0 <= j < |votes| ==> 0 <= votes[j] <= budget
    ensures SumVotes(votes) >= 0
    ensures SumVotes(votes) <= |votes| * budget
  {
    if votes != [] {
      VotesNonNegative(votes[..|votes| - 1], budget);
      assert |votes| * budget == (|votes| - 1) * budget + budget;
    }
  }

  lemma ExpectedUniform(p: ValidityProof, m: nat, n: nat, q: int)
    requires Expected(p, m, n, q)
    ensures Uniform(p.ranges) <==> 0 < m < 0x1_0000 && n < 0x1_0000
    ensures Uniform(p.ranges) ==> |p.ranges[0]| == n
  {
  }

  // ----- whole-ballot special soundness -----

  /** Two accepted proofs for one ballot that fork at every range proof and at the budget
      proof: same commitments, different challenges. */
  ghost predicate BallotFork(mpk: Point, cts: seq<Cipher>, budget: nat, a: ValidityProof, b: ValidityProof, q: int)
    requires q > 1
  {
    && |a.ranges| == |b.ranges| == |cts|
    && (forall j :: 0 <= j < |cts| ==> OrFork(cts[j].0, cts[j].1, mpk, Levels(budget), a.ranges[j], b.ranges[j], q))
    && (a.e - b.e) % q != 0
    && var c1, d := SumC1(cts, q), Residue(SumC2(cts, q), budget, q);
       && DleqCommitment(G2, c1, a.e, a.z, q) == DleqCommitment(G2, c1, b.e, b.z, q)
       && DleqCommitment(mpk, d, a.e, a.z, q) == DleqCommitment(mpk, d, b.e, b.z, q)
  }

  lemma {:induction false} ExtractVotes(mpk: Point, cts: seq<Cipher>, budget: nat,
                                        a: seq<seq<ORBranch>>, b: seq<seq<ORBranch>>, q: int)
    returns (votes: seq<int>, rs: seq<int>)
    requires IsPrime(q) && |a| == |b| == |cts|
    requires forall j :: 0 <= j < |cts| ==> OrFork(cts[j].0, cts[j].1, mpk, Levels(budget), a[j], b[j], q)
    ensures EncryptsAll(cts, mpk, votes, rs, q)
    ensures forall j :: 0 <= j < |votes| ==> 0 <= votes[j] <= budget
    decreases |cts|
  {
    hide OrFork, Encrypts;
    if cts == [] {
      votes, rs := [], [];
    } else {
      var n := |cts| - 1;
      votes, rs := ExtractVotes(mpk, cts[..n], budget, a[..n], b[..n], q);
      var r, i := OrSpecialSound(cts[n].0, cts[n].1, mpk, Levels(budget), a[n], b[n], q);
      votes, rs := votes + [i], rs + [r];
    }
  }

  /** Special soundness of a whole ballot: a fork determines votes in [0, B] that the
      ciphertexts encrypt and that sum to exactly B. The limit on proof branches keeps the
      sum below the group order, so nothing wraps around. */
  lemma BallotSpecialSound(mpk: Point, cts: seq<Cipher>, budget: nat, a: ValidityProof, b: ValidityProof, q: int)
    returns (votes: seq<int>, rs: seq<int>)
    requires IsPrime(q) && |cts| * (budget + 1) <= 2500 < q && budget < q
    requires BallotFork(mpk, cts, budget, a, b, q)
    ensures EncryptsAll(cts, mpk, votes, rs, q)
    ensures forall j :: 0 <= j < |votes| ==> 0 <= votes[j] <= budget
    ensures SumVotes(votes) == budget
  {
    hide OrFork, Encrypts, DleqCommitment, SumC1, SumC2, Residue;
    votes, rs := ExtractVotes(mpk, cts, budget, a.ranges, b.ranges, q);
    SumEncrypts(cts, mpk, votes, rs, q);
    var c1, c2 := SumC1(cts, q), SumC2(cts, q);
    var r := BudgetSpecialSound(c1, c2, mpk, budget, a.e, a.z, b.e, b.z, q);
    VotesNonNegative(votes, budget);
    assert |votes| * budget <= |cts| * (budget + 1) by {
      assert |cts| * (budget + 1) == |cts| * budget + |cts|;
    }
    SameCipherSamePlaintext(c1, c2, mpk, SumVotes(votes), SumVotes(rs), budget, r, q);
    CongSmall(SumVotes(votes), budget, q);
  }

  /** A ciphertext has one plaintext mod q. */
  lemma SameCipherSamePlaintext(c1: Point, c2: Point, mpk: Point, m: int, r: int, m': int, r': int, q: int)
    requires q > 1 && Encrypts(c1, c2, mpk, m, r, q) && Encrypts(c1, c2, mpk, m', r', q)
    ensures Cong(m, m', q)
  {
    CongScale(r, r', mpk, q);
    CongAdd(mpk * r + m, mpk * r' + m', mpk * r, mpk * r', q);
  }

  /** The challenge of range proof `j` of a proof whose transcript starts from `p`. */
  ghost function RangeChallenge(s: Suite, p: Parts, mpk: Point, cts: seq<Cipher>, budget: nat, proof: ValidityProof,
                                j: nat): int
    requires s.q > 1 && j < |cts| == |proof.ranges|
  {
    var levels := Levels(budget);
    var start := RangeTag(AfterRanges(s, p, mpk, cts, levels, proof.ranges, j), j);
    ChallengeOf(s, OrTranscript(s, start, cts[j].0, cts[j].1, mpk, levels, proof.ranges[j]), "or:e")
  }

  /** The challenge of its budget proof. */
  ghost function BudgetChallenge(s: Suite, p: Parts, mpk: Point, cts: seq<Cipher>, budget: nat,
                                 proof: ValidityProof): int
    requires s.q > 1 && |cts| == |proof.ranges|
  {
    var start := BudgetStart(AfterRanges(s, p, mpk, cts, Levels(budget), proof.ranges, |cts|));
    ChallengeOf(s, DleqFinal(s, BindBudgetTo(s, start, budget, true), G2, SumC1(cts, s.q), mpk,
                             Residue(SumC2(cts, s.q), budget, s.q), proof.e, proof.z), "dleq:e")
  }

  /** One prover answering twice: the same commitments throughout, and two hash functions that
      give different challenges at every range proof and at the budget proof. */
  ghost predicate Rewound(s: Suite, s': Suite, p: Parts, p': Parts, mpk: Point, cts: seq<Cipher>, budget: nat,
                          a: ValidityProof, b: ValidityProof)
    requires s.q == s'.q > 1
  {
    && |a.ranges| == |b.ranges| == |cts|
    && (forall j :: 0 <= j < |cts| ==>
          && SameCommitments(a.ranges[j], b.ranges[j])
          && RangeChallenge(s, p, mpk, cts, budget, a, j) != RangeChallenge(s', p', mpk, cts, budget, b, j))
    && BudgetChallenge(s, p, mpk, cts, budget, a) != BudgetChallenge(s', p', mpk, cts, budget, b)
    && var c1, d := SumC1(cts, s.q), Residue(SumC2(cts, s.q), budget, s.q);
       && DleqCommitment(G2, c1, a.e, a.z, s.q) == DleqCommitment(G2, c1, b.e, b.z, s.q)
       && DleqCommitment(mpk, d, a.e, a.z, s.q) == DleqCommitment(mpk, d, b.e, b.z, s.q)
  }

  /** Every range proof of an accepted ballot is accepted where its turn comes. */
  lemma {:induction false} RangeAccepted(s: Suite, p: Parts, mpk: Point, cts: seq<Cipher>, levels: seq<int>,
                                         ranges: seq<seq<ORBranch>>, k: nat, j: nat)
    requires s.q > 0 && j < k <= |cts| == |ranges| && RangesAccept(s, p, mpk, cts, levels, ranges, k)
    ensures OrAccepts(s, RangeTag(AfterRanges(s, p, mpk, cts, levels, ranges, j), j), cts[j].0, cts[j].1, mpk, levels,
                      ranges[j])
    decreases k
  {
    hide OrAccepts, AfterRanges, RangeTag;
    if j < k - 1 {
      RangeAccepted(s, p, mpk, cts, levels, ranges, k - 1, j);
    }
  }

  lemma RangeForks(s: Suite, s': Suite, p: Parts, p': Parts, mpk: Point, cts: seq<Cipher>, budget: nat,
                   a: ValidityProof, b: ValidityProof, j: nat)
    requires s.q == s'.q > 1 && j < |cts| && Rewound(s, s', p, p', mpk, cts, budget, a, b)
    requires ProofsAccept(s, p, mpk, cts, budget, a) && ProofsAccept(s', p', mpk, cts, budget, b)
    ensures OrFork(cts[j].0, cts[j].1, mpk, Levels(budget), a.ranges[j], b.ranges[j], s.q)
  {
    hide OrAccepts, OrFork, OrTranscript, ChallengeOf, BudgetExactAccepts, BudgetChallenge, DleqCommitment, AfterRanges,
         RangeTag, RangesAccept, SumC1, SumC2, Residue, SameCommitments;
    var levels := Levels(budget);
    RangeAccepted(s, p, mpk, cts, levels, a.ranges, |cts|, j);
    RangeAccepted(s', p', mpk, cts, levels, b.ranges, |cts|, j);
    ReplayForks(s, s', RangeTag(AfterRanges(s, p, mpk, cts, levels, a.ranges, j), j),
                RangeTag(AfterRanges(s', p', mpk, cts, levels, b.ranges, j), j),
                cts[j].0, cts[j].1, mpk, levels, a.ranges[j], b.ranges[j]);
  }

  lemma DistinctChallenges(x: int, y: int, q: int)
    requires q > 1 && 0 <= x < q && 0 <= y < q && x != y
    ensures (x - y) % q != 0
  {
    CongZero(x, y, q);
    if Cong(x, y, q) {
      CongSmall(x, y, q);
    }
  }

  lemma AcceptedProofsFork(s: Suite, s': Suite, p: Parts, p': Parts, mpk: Point, cts: seq<Cipher>, budget: nat,
                           a: ValidityProof, b: ValidityProof)
    requires s.q == s'.q > 1 && Rewound(s, s', p, p', mpk, cts, budget, a, b)
    requires ProofsAccept(s, p, mpk, cts, budget, a) && ProofsAccept(s', p', mpk, cts, budget, b)
    ensures BallotFork(mpk, cts, budget, a, b, s.q)
  {
    hide OrFork, ChallengeOf, DleqFinal, DleqCommitment, AfterRanges, RangesAccept, SumC1, SumC2, Residue,
         SameCommitments,
         RangeChallenge, BindBudgetTo;
    forall j | 0 <= j < |cts| ensures OrFork(cts[j].0, cts[j].1, mpk, Levels(budget), a.ranges[j], b.ranges[j], s.q) {
      RangeForks(s, s', p, p', mpk, cts, budget, a, b, j);
    }
    DistinctChallenges(a.e, b.e, s.q);
  }

  lemma {:induction false} DecodeIgnoresHash(s: Suite, s': Suite, cts: seq<CipherBytes>)
    requires s' == s.(hash := s'.hash)
    ensures DecodeCiphers(s', cts) == DecodeCiphers(s, cts)
  {
    if cts != [] {
      DecodeIgnoresHash(s, s', cts[..|cts| - 1]);
    }
  }

  /** The decoded parts of a structured ballot. */
  ghost function SeedOf(s: Suite, mpk: Point, x: WireBallot, m: nat, budget: nat): Parts
    requires s.q > 1 && Structured(s, mpk, x, m, budget)
  {
    Seed(s, x.electionId, mpk, s.decode1(x.vk).value, DecodeCiphers(s, x.cts).value, m, budget)
  }

  ghost predicate RewoundBallots(s: Suite, s': Suite, mpk: Point, x: WireBallot, y: WireBallot, m: nat, budget: nat)
    requires s.q == s'.q > 1
  {
    && Structured(s, mpk, x, m, budget) && Structured(s', mpk, y, m, budget) && x.cts == y.cts
    && Rewound(s, s', SeedOf(s, mpk, x, m, budget), SeedOf(s', mpk, y, m, budget), mpk, DecodeCiphers(s, x.cts).value,
               budget, Decode(s, x.proof, m, budget).value, Decode(s', y.proof, m, budget).value)
  }

  /** What the verifier's acceptance is worth: a voter that gets ballots with one list of
      ciphertexts accepted under two hash functions, its proofs rewound, has encrypted votes in
      [0, B] that sum to exactly B. */
  lemma AcceptedBallotSound(s: Suite, s': Suite, mpk: Point, x: WireBallot, y: WireBallot, ax: Attestation,
                            ay: Attestation,
                            m: nat, budget: nat)
    returns (votes: seq<int>, rs: seq<int>)
    requires IsPrime(s.q) && s' == s.(hash := s'.hash) && m * (budget + 1) <= 2500 < s.q && budget < s.q
    requires BallotVerdict(s, mpk, x, ax, m, budget) == Accept && BallotVerdict(s', mpk, y, ay, m, budget) == Accept
    requires RewoundBallots(s, s', mpk, x, y, m, budget)
    ensures Carries(s, x.cts, mpk, votes, rs)
    ensures |votes| == m && SumVotes(votes) == budget
    ensures forall j :: 0 <= j < |votes| ==> 0 <= votes[j] <= budget
  {
    hide Decode, DecodeCiphers, ProofsAccept, Seed, DecodeSignature, SignatureVerdict, Rewound, BallotFork, EncryptsAll,
         SumVotes, IsPrime;
    var cts := DecodeCiphers(s, x.cts).value;
    var a, b := Decode(s, x.proof, m, budget).value, Decode(s', y.proof, m, budget).value;
    DecodeIgnoresHash(s, s', x.cts);
    AcceptedProofsFork(s, s', SeedOf(s, mpk, x, m, budget), SeedOf(s', mpk, y, m, budget), mpk, cts, budget, a, b);
    votes, rs := BallotSpecialSound(mpk, cts, budget, a, b, s.q);
    EncryptedCount(cts, mpk, votes, rs, s.q);
  }
}
