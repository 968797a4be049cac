/** What an accepted ballot signature is worth (crypto/schnorr.py and the last step of
    verify_ballot_crypto): which answers verify, what the challenge covers, and what follows for
    a whole ballot. */
module BallotSignatures {
  import opened Field
  import opened Group
  import opened Bytes
  import opened Transcripts
  import opened Proofs
  import opened BallotCodec
  import opened BallotMessage
  import opened Ballot

  // ----- one equation -----

  lemma VerifiesCong(s: Suite, vk: Point, msg: bytes, r: Point, x: int)
    requires s.q > 1
    ensures SchnorrVerifies(s, vk, msg, r, x)
       <==> vk != 0 && Cong(x, r + vk * SchnorrChallenge(s, r, vk, msg), s.q)
  {
    hide SchnorrChallenge, Add, Mul;
    var e := SchnorrChallenge(s, r, vk, msg);
    var lhs, rhs := Mul(G2, x, s.q), Add(r, Mul(vk, e, s.q), s.q);
    MulCong(G2, x, s.q);
    AddMulCong(r, vk, e, s.q);
    PointEq(lhs, rhs, s.q);
  }

  /** Exactly one reduced answer to every nonce point, and none under the identity key. */
  lemma OneAnswer(s: Suite, vk: Point, msg: bytes, r: Point) returns (x: int)
    requires s.q > 1
    ensures 0 <= x < s.q
    ensures forall y :: 0 <= y < s.q ==> (SchnorrVerifies(s, vk, msg, r, y) <==> vk != 0 && y == x)
  {
    hide SchnorrChallenge, SchnorrVerifies;
    var goal := r + vk * SchnorrChallenge(s, r, vk, msg);
    x := Rem(goal, s.q);
    CongMod(goal, s.q);
    forall y | 0 <= y < s.q ensures SchnorrVerifies(s, vk, msg, r, y) <==> vk != 0 && y == x {
      VerifiesCong(s, vk, msg, r, y);
      PointEq(x, y, s.q);
    }
  }

  /** Special soundness: whoever answers one nonce point under two different challenges knows
      the secret key. */
  lemma SchnorrSpecialSound(s: Suite, s': Suite, vk: Point, msg: bytes, msg': bytes, r: Point, x: int, x': int)
    requires IsPrime(s.q) && s'.q == s.q && IsPoint(vk, s.q)
    requires SchnorrVerifies(s, vk, msg, r, x) && SchnorrVerifies(s', vk, msg', r, x')
    requires SchnorrChallenge(s, r, vk, msg) != SchnorrChallenge(s', r, vk, msg')
    ensures var d := SchnorrChallenge(s, r, vk, msg) - SchnorrChallenge(s', r, vk, msg');
            Keygen(FieldQuotient(d, x - x', s.q), s.q) == Some(vk)
  {
    hide SchnorrChallenge, SchnorrVerifies, FieldQuotient, IsPrime, Keygen;
    var e, e' := SchnorrChallenge(s, r, vk, msg), SchnorrChallenge(s', r, vk, msg');
    VerifiesCong(s, vk, msg, r, x);
    VerifiesCong(s', vk, msg', r, x');
    CongAdd(x, r + vk * e, vk * e, vk * e, s.q);
    CongAdd(x', r + vk * e', vk * e', vk * e', s.q);
    DistinctChallenges(e, e', s.q);
    var sk := FieldQuotient(e - e', x - x', s.q);
    FieldQuotientSolves(e - e', x - x', s.q);
    ExtractFrom(1, vk, r, e, x, e', x', sk, s.q);
    KeygenOf(sk, vk, s.q);
  }

  lemma KeygenOf(sk: int, vk: Point, q: int)
    requires q > 1 && IsPoint(vk, q) && vk != 0 && Cong(vk, 1 * sk, q)
    ensures Keygen(sk, q) == Some(vk)
  {
    ModUnique(vk, 0, vk, q);
    MulCong(G2, sk % q, q);
    CongMod(sk, q);
    CongSmall(Mul(G2, sk % q, q), vk, q);
  }

  // ----- what the challenge covers -----

  /** The hashed bytes determine the nonce point, the key and the message. */
  lemma SchnorrPreimageInjective(s: Suite, r: Point, vk: Point, msg: bytes, r': Point, vk': Point, msg': bytes)
    requires s.Valid() && IsPoint(r, s.q) && IsPoint(vk, s.q) && IsPoint(r', s.q) && IsPoint(vk', s.q)
    requires SchnorrPreimage(s, r, vk, msg) == SchnorrPreimage(s, r', vk', msg')
    ensures r == r' && vk == vk' && msg == msg'
  {
    var l := Ascii(DST_SCHNORR);
    var k, k' := s.encode1(vk) + msg, s.encode1(vk') + msg';
    assert SchnorrPreimage(s, r, vk, msg) == l + (s.encode1(r) + k);
    assert SchnorrPreimage(s, r', vk', msg') == l + (s.encode1(r') + k');
    SplitEqual(l, s.encode1(r) + k, l, s.encode1(r') + k');
    SplitEqual(s.encode1(r), k, s.encode1(r'), k');
    SplitEqual(s.encode1(vk), msg, s.encode1(vk'), msg');
    KeyDecodes(s, r);
    KeyDecodes(s, r');
    KeyDecodes(s, vk);
    KeyDecodes(s, vk');
  }

  /** Two statements that differ anywhere are told apart by some hash function: the challenge
      depends on the nonce point, the key and every byte of the message. */
  lemma ChallengeCovers(s: Suite, r: Point, vk: Point, msg: bytes, r': Point, vk': Point, msg': bytes)
    returns (h: bytes -> nat)
    requires s.Valid() && IsPoint(r, s.q) && IsPoint(vk, s.q) && IsPoint(r', s.q) && IsPoint(vk', s.q)
    requires !(r == r' && vk == vk' && msg == msg')
    ensures SchnorrChallenge(s.(hash := h), r, vk, msg) != SchnorrChallenge(s.(hash := h), r', vk', msg')
  {
    hide SchnorrPreimage;
    var a, b := SchnorrPreimage(s, r, vk, msg), SchnorrPreimage(s, r', vk', msg');
    if a == b {
      SchnorrPreimageInjective(s, r, vk, msg, r', vk', msg');
    }
    h := (x: bytes) => if x == a then 1 else 0;
    PreimageIgnoresHash(s, h, r, vk, msg);
    PreimageIgnoresHash(s, h, r', vk', msg');
    ModUnique(1, 0, 1, s.q);
    ModUnique(0, 0, 0, s.q);
  }

  lemma PreimageIgnoresHash(s: Suite, h: bytes -> nat, r: Point, vk: Point, msg: bytes)
    ensures SchnorrPreimage(s.(hash := h), r, vk, msg) == SchnorrPreimage(s, r, vk, msg)
  {
  }

  /** The superseded message determines what it covers too, and is never a current one: a
      stale signature is only ever diagnosed, not accepted for the other format. */
  lemma PreV2Injective(e1: bytes, p1: bytes, c1: seq<CipherBytes>, z1: bytes,
                       e2: bytes, p2: bytes, c2: seq<CipherBytes>, z2: bytes, a1: Attestation, a2: Attestation)
    requires Signable(e1, p1, c1, z1, a1) && Signable(e2, p2, c2, z2, a2)
    ensures PreV2Message(e1, p1, c1, z1) == PreV2Message(e2, p2, c2, z2) ==>
              e1 == e2 && p1 == p2 && c1 == c2 && z1 == z2
    ensures PreV2Message(e1, p1, c1, z1) != Message(e2, p2, c2, z2, a2)
  {
    hide Pow256, ToBE, U16, U32, CredentialBytes, CipherText;
    var l, n := Ascii(PRE_V2_LABEL), Ascii(BALLOT_MESSAGE_LABEL);
    var t1, t2 := U32(|z1|) + z1, U32(|z2|) + z2;
    var r1, r2 := U16(|c1|) + (CipherText(c1) + t1), U16(|c2|) + (CipherText(c2) + t2);
    var m1, m2 := PreV2Message(e1, p1, c1, z1), PreV2Message(e2, p2, c2, z2);
    assert m1 == (l + e1) + (p1 + r1) && m2 == (l + e2) + (p2 + r2);
    assert l[21] == 49 && n[21] == 50 && m1[21] == l[21] && Message(e2, p2, c2, z2, a2)[21] == n[21];
    if m1 == m2 {
      SplitEqual(l + e1, p1 + r1, l + e2, p2 + r2);
      SplitEqual(l, e1, l, e2);
      SplitEqual(p1, r1, p2, r2);
      SplitEqual(U16(|c1|), CipherText(c1) + t1, U16(|c2|), CipherText(c2) + t2);
      CountInjective(|c1|, |c2|);
      CipherLength(c1);
      CipherLength(c2);
      SplitEqual(CipherText(c1), t1, CipherText(c2), t2);
      CipherInjective(c1, c2);
      SplitEqual(U32(|z1|), z1, U32(|z2|), z2);
    }
  }

  // ----- whole ballots -----

  /** The parts a ballot carries on the wire, each of them what its format promises. */
  ghost predicate Formed(s: Suite, mpk: Point, b: WireBallot, m: int, budget: int,
                         vk: Point, cts: seq<Cipher>, proof: ValidityProof)
    requires s.q > 1
  {
    && 1 <= m <= 0xFFFF && 1 <= budget <= 0xFFFE && mpk != Z2
    && |b.electionId| == 32 && |b.pseudonym| == 32
    && IsPoint(vk, s.q) && vk != 0 && b.vk == s.encode1(vk)
    && |cts| == m && AllPoints(cts, s.q) && b.cts == EncodeCiphers(s, cts)
    && Expected(proof, m, budget + 1, s.q) && b.proof == ProofBytes(s, proof, budget + 1)
  }

  ghost predicate Proven(s: Suite, mpk: Point, electionId: bytes, m: nat, budget: nat,
                         vk: Point, cts: seq<Cipher>, proof: ValidityProof)
    requires s.q > 1
  {
    ProofsAccept(s, Seed(s, electionId, mpk, vk, cts, m, budget), mpk, cts, budget, proof)
  }

  /** The signature bytes carry a nonce point and a scalar. */
  ghost predicate Bears(s: Suite, b: WireBallot, r: Point, x: int)
    requires s.q > 1
  {
    IsPoint(r, s.q) && 0 <= x < s.q && b.signature == EncodeSignature(s, r, x)
  }

  /** The scalar is the one answer to the nonce point under the voter's key. */
  ghost predicate Answers(s: Suite, vk: Point, msg: bytes, r: Point, x: int)
    requires s.q > 1
  {
    Cong(x, r + vk * SchnorrChallenge(s, r, vk, msg), s.q)
  }

  lemma {:induction false} CiphersCanonical(s: Suite, b: seq<CipherBytes>)
    requires s.Valid() && DecodeCiphers(s, b).Some?
    ensures AllPoints(DecodeCiphers(s, b).value, s.q) && b == EncodeCiphers(s, DecodeCiphers(s, b).value)
  {
    if b != [] {
      var n := |b| - 1;
      CiphersCanonical(s, b[..n]);
      var cts := DecodeCiphers(s, b).value;
      assert cts[..n] == DecodeCiphers(s, b[..n]).value;
      assert forall i :: 0 <= i < n ==> cts[i] == cts[..n][i];
      assert b == b[..n] + [b[n]];
      assert EncodeCiphers(s, cts)[..n] == EncodeCiphers(s, cts[..n]);
      assert EncodeCiphers(s, cts) == EncodeCiphers(s, cts)[..n] + [EncodeCiphers(s, cts)[n]];
    }
  }

  /** The structural gates pass exactly for ballots made of such parts. */
  lemma StructuredIff(s: Suite, mpk: Point, b: WireBallot, m: int, budget: int)
    requires s.Valid()
    ensures Structured(s, mpk, b, m, budget) <==> exists vk, cts, proof :: Formed(s, mpk, b, m, budget, vk, cts, proof)
  {
    hide Decode, DecodeCiphers, EncodeCiphers, AllPoints, Expected, ProofBytes;
    OrderPositive(s);
    if Structured(s, mpk, b, m, budget) {
      var vk, cts := s.decode1(b.vk).value, DecodeCiphers(s, b.cts).value;
      var proof := Decode(s, b.proof, m, budget).value;
      CiphersCanonical(s, b.cts);
      DecodeIff(s, b.proof, m, budget + 1, proof);
      assert Formed(s, mpk, b, m, budget, vk, cts, proof);
    }
    if vk, cts, proof :| Formed(s, mpk, b, m, budget, vk, cts, proof) {
      FormedDecodes(s, mpk, b, m, budget, vk, cts, proof);
    }
  }

  lemma FormedDecodes(s: Suite, mpk: Point, b: WireBallot, m: int, budget: int,
                      vk: Point, cts: seq<Cipher>, proof: ValidityProof)
    requires s.Valid() && Formed(s, mpk, b, m, budget, vk, cts, proof)
    ensures Structured(s, mpk, b, m, budget)
    ensures s.decode1(b.vk) == Some(vk) && DecodeCiphers(s, b.cts) == Some(cts)
    ensures Decode(s, b.proof, m, budget) == Some(proof)
  {
    hide Decode, DecodeCiphers, EncodeCiphers, AllPoints, Expected, ProofBytes;
    OrderPositive(s);
    KeyDecodes(s, vk);
    CipherRoundTrip(s, cts);
    DecodeIff(s, b.proof, m, budget + 1, proof);
  }

  /** Each verdict on a well-formed ballot whose signature bytes decode. */
  lemma VerdictMeans(s: Suite, mpk: Point, b: WireBallot, att: Attestation, m: int, budget: int,
                     vk: Point, cts: seq<Cipher>, proof: ValidityProof, r: Point, x: int)
    requires s.Valid() && Formed(s, mpk, b, m, budget, vk, cts, proof) && Bears(s, b, r, x)
    ensures var v := BallotVerdict(s, mpk, b, att, m, budget);
            var proven := Proven(s, mpk, b.electionId, m, budget, vk, cts, proof);
            var signable := Signable(b.electionId, b.pseudonym, b.cts, b.proof, att);
            var current := signable && Answers(s, vk, Signed(s, b, att), r, x);
            var stale := Answers(s, vk, s.keccak(PreV2Message(b.electionId, b.pseudonym, b.cts, b.proof)), r, x);
            && (v == InvalidProof <==> !proven)
            && (v == Raises <==> proven && !signable)
            && (v == Accept <==> proven && current)
            && (v == InvalidSignaturePreV2 <==> proven && signable && !current && stale)
            && (v == InvalidSignature <==> proven && signable && !current && !stale)
  {
    hide Decode, DecodeCiphers, ProofsAccept, Seed, DecodeSignature, SchnorrVerifies, Signable, Message, Bears, Answers,
         PreV2Message, Structured;
    OrderPositive(s);
    FormedDecodes(s, mpk, b, m, budget, vk, cts, proof);
    BearsDecodes(s, b, r, x);
    NonZeroKey(s, mpk, b, m, budget, vk, cts, proof);
    if Signable(b.electionId, b.pseudonym, b.cts, b.proof, att) {
      AnswersIff(s, vk, Signed(s, b, att), r, x);
    }
    AnswersIff(s, vk, s.keccak(PreV2Message(b.electionId, b.pseudonym, b.cts, b.proof)), r, x);
  }

  lemma NonZeroKey(s: Suite, mpk: Point, b: WireBallot, m: int, budget: int,
                   vk: Point, cts: seq<Cipher>, proof: ValidityProof)
    requires s.q > 1 && Formed(s, mpk, b, m, budget, vk, cts, proof)
    ensures vk != 0
  {
  }

  lemma AnswersIff(s: Suite, vk: Point, msg: bytes, r: Point, x: int)
    requires s.q > 1 && vk != 0
    ensures SchnorrVerifies(s, vk, msg, r, x) <==> Answers(s, vk, msg, r, x)
  {
    VerifiesCong(s, vk, msg, r, x);
  }

  lemma BearsDecodes(s: Suite, b: WireBallot, r: Point, x: int)
    requires s.Valid()
    ensures Bears(s, b, r, x) <==> DecodeSignature(s, b.signature) == Some((r, x))
  {
    SignatureIff(s, b.signature, r, x);
  }

  /** The message digest a ballot's signature answers. */
  function Signed(s: Suite, b: WireBallot, att: Attestation): bytes
    requires Signable(b.electionId, b.pseudonym, b.cts, b.proof, att)
  {
    s.keccak(Message(b.electionId, b.pseudonym, b.cts, b.proof, att))
  }

  /** The remaining verdict: a ballot not made of such parts, or a proven one whose signature
      bytes are no encoding. */
  lemma MalformedIff(s: Suite, mpk: Point, b: WireBallot, att: Attestation, m: int, budget: int)
    requires s.Valid()
    ensures BallotVerdict(s, mpk, b, att, m, budget) == Malformed <==>
              || (forall vk, cts, proof :: !Formed(s, mpk, b, m, budget, vk, cts, proof))
              || ((forall r, x :: !Bears(s, b, r, x))
                  && exists vk, cts, proof :: Formed(s, mpk, b, m, budget, vk, cts, proof)
                                              && Proven(s, mpk, b.electionId, m, budget, vk, cts, proof))
  {
    hide Decode, DecodeCiphers, ProofsAccept, Seed, DecodeSignature, Structured, Formed, SignatureVerdict, Bears;
    OrderPositive(s);
    StructuredIff(s, mpk, b, m, budget);
    if DecodeSignature(s, b.signature).Some? {
      var sig := DecodeSignature(s, b.signature).value;
      BearsDecodes(s, b, sig.0, sig.1);
    }
    if r, x :| Bears(s, b, r, x) {
      BearsDecodes(s, b, r, x);
    }
    forall vk, cts, proof | Formed(s, mpk, b, m, budget, vk, cts, proof)
      ensures s.decode1(b.vk) == Some(vk) && DecodeCiphers(s, b.cts) == Some(cts)
      ensures Decode(s, b.proof, m, budget) == Some(proof)
    {
      FormedDecodes(s, mpk, b, m, budget, vk, cts, proof);
    }
    SignatureVerdicts(s, b, att);
  }

  lemma SignatureVerdicts(s: Suite, b: WireBallot, att: Attestation)
    requires s.q > 1
    ensures forall vk, sig :: SignatureVerdict(s, vk, b, att, sig) != Malformed
  {
  }

  /** The verdict turned on the signature alone. */
  ghost predicate SignatureDecides(s: Suite, mpk: Point, b: WireBallot, att: Attestation, m: int, budget: int)
    requires s.q > 1
  {
    var v := BallotVerdict(s, mpk, b, att, m, budget);
    v == Accept || v == InvalidSignature || v == InvalidSignaturePreV2
  }

  /** Such a ballot is made of well-formed and proven parts and bears some signature. */
  lemma DecidedParts(s: Suite, mpk: Point, b: WireBallot, att: Attestation, m: int, budget: int)
    returns (vk: Point, cts: seq<Cipher>, proof: ValidityProof, r: Point, x: int)
    requires s.Valid() && SignatureDecides(s, mpk, b, att, m, budget)
    ensures Formed(s, mpk, b, m, budget, vk, cts, proof) && Bears(s, b, r, x)
    ensures Proven(s, mpk, b.electionId, m, budget, vk, cts, proof)
    ensures Signable(b.electionId, b.pseudonym, b.cts, b.proof, att)
    ensures BallotVerdict(s, mpk, b, att, m, budget) == Accept <==> Answers(s, vk, Signed(s, b, att), r, x)
  {
    hide Decode, DecodeCiphers, ProofsAccept, Seed, DecodeSignature, Structured, Formed, SignatureVerdict, Bears,
         Signable, Answers, Message;
    OrderPositive(s);
    StructuredIff(s, mpk, b, m, budget);
    vk, cts, proof :| Formed(s, mpk, b, m, budget, vk, cts, proof);
    var sig := DecodeSignature(s, b.signature).value;
    r, x := sig.0, sig.1;
    BearsDecodes(s, b, r, x);
    VerdictMeans(s, mpk, b, att, m, budget, vk, cts, proof, r, x);
  }

  /** With every other field fixed, each nonce point leaves exactly one signature that is accepted. */
  lemma OneSignaturePerNonce(s: Suite, mpk: Point, b: WireBallot, att: Attestation, m: int, budget: int, r: Point)
    returns (sig: bytes)
    requires s.Valid() && IsPoint(r, s.q) && SignatureDecides(s, mpk, b, att, m, budget)
    ensures |sig| == 80 && sig[..48] == s.encode1(r)
    ensures forall y: bytes :: |y| >= 48 && y[..48] == s.encode1(r) ==>
              (BallotVerdict(s, mpk, b.(signature := y), att, m, budget) == Accept <==> y == sig)
  {
    hide BallotVerdict, Formed, Proven, Signable, Message, SchnorrChallenge, ScalarToBytes;
    OrderPositive(s);
    var vk, cts, proof, r0, x0 := DecidedParts(s, mpk, b, att, m, budget);
    var goal := r + vk * SchnorrChallenge(s, r, vk, Signed(s, b, att));
    var x := Rem(goal, s.q);
    CongMod(goal, s.q);
    sig := EncodeSignature(s, r, x);
    forall y: bytes | |y| >= 48 && y[..48] == s.encode1(r)
      ensures BallotVerdict(s, mpk, b.(signature := y), att, m, budget) == Accept <==> y == sig
    {
      OtherSignature(s, mpk, b, att, m, budget, vk, cts, proof, r, x, y);
    }
  }

  lemma OtherSignature(s: Suite, mpk: Point, b: WireBallot, att: Attestation, m: int, budget: int,
                       vk: Point, cts: seq<Cipher>, proof: ValidityProof, r: Point, x: int, y: bytes)
    requires s.Valid() && Formed(s, mpk, b, m, budget, vk, cts, proof) && IsPoint(r, s.q) && 0 <= x < s.q
    requires Proven(s, mpk, b.electionId, m, budget, vk, cts, proof)
    requires Signable(b.electionId, b.pseudonym, b.cts, b.proof, att) && Answers(s, vk, Signed(s, b, att), r, x)
    requires |y| >= 48 && y[..48] == s.encode1(r)
    ensures BallotVerdict(s, mpk, b.(signature := y), att, m, budget) == Accept <==> y == EncodeSignature(s, r, x)
  {
    hide BallotVerdict, Formed, Proven, Signable, Message, SchnorrChallenge, ScalarToBytes, Bears, Answers, Signed,
         EncodeSignature;
    var c := b.(signature := y);
    FormedIgnoresSignature(s, mpk, b, m, budget, vk, cts, proof, y);
    SignedIgnoresSignature(s, b, att, y);
    if y == EncodeSignature(s, r, x) {
      BearsThis(s, c, r, x);
      VerdictMeans(s, mpk, c, att, m, budget, vk, cts, proof, r, x);
    }
    if BallotVerdict(s, mpk, c, att, m, budget) == Accept {
      var vk', cts', proof', r', x' := DecidedParts(s, mpk, c, att, m, budget);
      SameKey(s, mpk, c, m, budget, vk, cts, proof, vk', cts', proof');
      SameNonce(s, c, r, r', x');
      OnlyAnswer(s, vk, Signed(s, b, att), r, x, x');
      BearsThis(s, c, r, x');
    }
  }

  lemma FormedIgnoresSignature(s: Suite, mpk: Point, b: WireBallot, m: int, budget: int,
                               vk: Point, cts: seq<Cipher>, proof: ValidityProof, y: bytes)
    requires s.q > 1 && Formed(s, mpk, b, m, budget, vk, cts, proof)
    ensures Formed(s, mpk, b.(signature := y), m, budget, vk, cts, proof)
  {
  }

  lemma SignedIgnoresSignature(s: Suite, b: WireBallot, att: Attestation, y: bytes)
    requires Signable(b.electionId, b.pseudonym, b.cts, b.proof, att)
    ensures Signed(s, b.(signature := y), att) == Signed(s, b, att)
  {
  }

  lemma BearsThis(s: Suite, b: WireBallot, r: Point, x: int)
    requires s.q > 1 && IsPoint(r, s.q) && 0 <= x < s.q
    ensures Bears(s, b, r, x) <==> b.signature == EncodeSignature(s, r, x)
  {
  }

  lemma SameKey(s: Suite, mpk: Point, b: WireBallot, m: int, budget: int, vk: Point, cts: seq<Cipher>,
                proof: ValidityProof, vk': Point, cts': seq<Cipher>, proof': ValidityProof)
    requires s.Valid() && Formed(s, mpk, b, m, budget, vk, cts, proof)
    requires Formed(s, mpk, b, m, budget, vk', cts', proof')
    ensures vk == vk' && cts == cts' && proof == proof'
  {
    FormedDecodes(s, mpk, b, m, budget, vk, cts, proof);
    FormedDecodes(s, mpk, b, m, budget, vk', cts', proof');
  }

  lemma SameNonce(s: Suite, b: WireBallot, r: Point, r': Point, x: int)
    requires s.Valid() && IsPoint(r, s.q) && Bears(s, b, r', x)
    requires |b.signature| >= 48 && b.signature[..48] == s.encode1(r)
    ensures r == r' && 0 <= x < s.q
  {
    assert b.signature[..48] == s.encode1(r');
    KeyDecodes(s, r);
    KeyDecodes(s, r');
  }

  lemma OnlyAnswer(s: Suite, vk: Point, msg: bytes, r: Point, x: int, x': int)
    requires s.q > 1 && 0 <= x < s.q && 0 <= x' < s.q && Answers(s, vk, msg, r, x) && Answers(s, vk, msg, r, x')
    ensures x == x'
  {
    hide SchnorrChallenge;
    CongSmall(x, x', s.q);
  }

  /** Everything the two signed messages cover agrees. */
  ghost predicate SameCover(b: WireBallot, att: Attestation, c: WireBallot, att': Attestation)
  {
    && b.electionId == c.electionId && b.pseudonym == c.pseudonym && b.cts == c.cts && b.proof == c.proof
    && att == att'.(electionId := att.electionId)
  }

  /** An accepted signature does not carry over: if one signature under one key makes two ballots
      acceptable then either nothing it covers differs, the attestation included, or the two
      different messages collide in the challenge. */
  lemma SignatureCoversBallot(s: Suite, mpk: Point, b: WireBallot, att: Attestation, c: WireBallot, att': Attestation,
                              m: int, budget: int)
    returns (vk: Point, r: Point)
    requires s.Valid() && IsPrime(s.q) && b.signature == c.signature && b.vk == c.vk
    requires BallotVerdict(s, mpk, b, att, m, budget) == Accept
    requires BallotVerdict(s, mpk, c, att', m, budget) == Accept
    ensures Signable(b.electionId, b.pseudonym, b.cts, b.proof, att)
    ensures Signable(c.electionId, c.pseudonym, c.cts, c.proof, att')
    ensures SchnorrChallenge(s, r, vk, Signed(s, b, att)) == SchnorrChallenge(s, r, vk, Signed(s, c, att'))
    ensures SameCover(b, att, c, att') <==>
              Message(b.electionId, b.pseudonym, b.cts, b.proof, att)
              == Message(c.electionId, c.pseudonym, c.cts, c.proof, att')
  {
    hide BallotVerdict, Proven, Formed, Signable, Message, SchnorrChallenge, ScalarToBytes, Bears, Answers, Signed,
         EncodeSignature, IsPrime, SameCover;
    var cts, proof, x;
    vk, cts, proof, r, x := DecidedParts(s, mpk, b, att, m, budget);
    var vk', cts', proof', r', x' := DecidedParts(s, mpk, c, att', m, budget);
    BearsDecodes(s, b, r, x);
    BearsDecodes(s, c, r', x');
    VoterKey(s, mpk, b, m, budget, vk, cts, proof);
    VoterKey(s, mpk, c, m, budget, vk', cts', proof');
    OneChallenge(s, vk, Signed(s, b, att), Signed(s, c, att'), r, x);
    CoverIff(b, att, c, att');
  }

  lemma VoterKey(s: Suite, mpk: Point, b: WireBallot, m: int, budget: int, vk: Point, cts: seq<Cipher>,
              proof: ValidityProof)
    requires s.Valid() && Formed(s, mpk, b, m, budget, vk, cts, proof)
    ensures s.decode1(b.vk) == Some(vk) && IsPoint(vk, s.q) && vk != 0
  {
    KeyDecodes(s, vk);
  }

  lemma OneChallenge(s: Suite, vk: Point, msg: bytes, msg': bytes, r: Point, x: int)
    requires IsPrime(s.q) && IsPoint(vk, s.q) && vk != 0
    requires Answers(s, vk, msg, r, x) && Answers(s, vk, msg', r, x)
    ensures SchnorrChallenge(s, r, vk, msg) == SchnorrChallenge(s, r, vk, msg')
  {
    hide IsPrime, SchnorrChallenge;
    var e, e' := SchnorrChallenge(s, r, vk, msg), SchnorrChallenge(s, r, vk, msg');
    CongAdd(r + vk * e, r + vk * e', r, r, s.q);
    ModUnique(vk, 0, vk, s.q);
    CancelFactor(vk, e, e', s.q);
    CongSmall(e, e', s.q);
  }

  lemma CoverIff(b: WireBallot, att: Attestation, c: WireBallot, att': Attestation)
    requires Signable(b.electionId, b.pseudonym, b.cts, b.proof, att)
    requires Signable(c.electionId, c.pseudonym, c.cts, c.proof, att')
    ensures SameCover(b, att, c, att') <==>
              Message(b.electionId, b.pseudonym, b.cts, b.proof, att)
              == Message(c.electionId, c.pseudonym, c.cts, c.proof, att')
  {
    hide CipherText, ToBE, Signable;
    if Message(b.electionId, b.pseudonym, b.cts, b.proof, att)
       == Message(c.electionId, c.pseudonym, c.cts, c.proof, att') {
      MessageInjective(b.electionId, b.pseudonym, b.cts, b.proof, att,
                       c.electionId, c.pseudonym, c.cts, c.proof, att');
    }
  }
}
