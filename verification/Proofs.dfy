/** Sigma proofs over the shared transcript (crypto/proofs.py). */
module Proofs {
  import opened Field
  import opened Group
  import opened Bytes
  import opened Transcripts

  // ----- DLEQ (Chaum-Pedersen) -----

  function BindDleq(s: Suite, p: Parts, base1: Point, point1: Point, base2: Point, point2: Point): Parts
  {
    var p1 := AppendPointTo(s, p, "dleq:base1", base1);
    var p2 := AppendPointTo(s, p1, "dleq:base2", base2);
    var p3 := AppendPointTo(s, p2, "dleq:point1", point1);
    AppendPointTo(s, p3, "dleq:point2", point2)
  }

  /** The transcript a DLEQ challenge is drawn from. */
  function DleqTranscript(s: Suite, p: Parts, base1: Point, point1: Point, base2: Point, point2: Point,
                          a1: Point, a2: Point): Parts
  {
    var bound := BindDleq(s, p, base1, point1, base2, point2);
    AppendPointTo(s, AppendPointTo(s, bound, "dleq:a1", a1), "dleq:a2", a2)
  }

  /** The commitment a verifier recomputes: z*base - e*point. */
  function DleqCommitment(base: Point, point: Point, e: int, z: int, q: int): Point
    requires q > 0
  {
    Add(Mul(base, z, q), Mul(point, (-e) % q, q), q)
  }

  ghost function DleqFinal(s: Suite, p: Parts, base1: Point, point1: Point, base2: Point, point2: Point,
                           e: int, z: int): Parts
    requires s.q > 0
  {
    DleqTranscript(s, p, base1, point1, base2, point2,
                   DleqCommitment(base1, point1, e, z, s.q), DleqCommitment(base2, point2, e, z, s.q))
  }

  ghost predicate DleqAccepts(s: Suite, p: Parts, base1: Point, point1: Point, base2: Point, point2: Point,
                              e: int, z: int)
    requires s.q > 0
  {
    e == ChallengeOf(s, DleqFinal(s, p, base1, point1, base2, point2, e, z), "dleq:e")
  }

  /** One exponent relates both pairs. */
  ghost predicate EqualLogs(base1: Point, point1: Point, base2: Point, point2: Point, x: int, q: int)
    requires q > 0
  {
    Cong(point1, base1 * x, q) && Cong(point2, base2 * x, q)
  }

  /** Completeness: a proof for a true statement is accepted from the same starting
      transcript and leaves prover and verifier with the same transcript. */
  method ProveDleq(s: Suite, base1: Point, point1: Point, base2: Point, point2: Point, x: int, w: int, t: Transcript)
    returns (e: int, z: int)
    requires s.q > 1
    requires t.Valid()
    modifies t
    ensures t.Valid()
    ensures 0 <= e < s.q && 0 <= z < s.q
    ensures EqualLogs(base1, point1, base2, point2, x, s.q) ==>
              && DleqAccepts(s, old(t.parts), base1, point1, base2, point2, e, z)
              && t.parts == Folded(s, DleqFinal(s, old(t.parts), base1, point1, base2, point2, e, z), "dleq:e")
  {
    hide BindDleq, ChallengeOf, AppendPointTo, Add, Mul;
    ghost var p := t.parts;
    var a1, a2 := Mul(base1, w, s.q), Mul(base2, w, s.q);
    BindDleqStatement(s, base1, point1, base2, point2, t);
    t.AppendPoint(s, "dleq:a1", a1);
    t.AppendPoint(s, "dleq:a2", a2);
    ghost var final := t.parts;
    e := t.Challenge(s, "dleq:e");
    z := (w + x * e) % s.q;
    if EqualLogs(base1, point1, base2, point2, x, s.q) {
      CommitmentRecovered(base1, point1, x, w, e, s.q);
      CommitmentRecovered(base2, point2, x, w, e, s.q);
      assert final == DleqFinal(s, p, base1, point1, base2, point2, e, z);
    }
  }

  method BindDleqStatement(s: Suite, base1: Point, point1: Point, base2: Point, point2: Point, t: Transcript)
    requires t.Valid()
    modifies t
    ensures t.Valid()
    ensures t.parts == BindDleq(s, old(t.parts), base1, point1, base2, point2)
  {
    t.AppendPoint(s, "dleq:base1", base1);
    t.AppendPoint(s, "dleq:base2", base2);
    t.AppendPoint(s, "dleq:point1", point1);
    t.AppendPoint(s, "dleq:point2", point2);
  }

  method VerifyDleq(s: Suite, base1: Point, point1: Point, base2: Point, point2: Point, e: int, z: int, t: Transcript)
    returns (ok: bool)
    requires s.q > 1
    requires t.Valid()
    modifies t
    ensures t.Valid()
    ensures ok <==> DleqAccepts(s, old(t.parts), base1, point1, base2, point2, e, z)
    ensures t.parts == Folded(s, DleqFinal(s, old(t.parts), base1, point1, base2, point2, e, z), "dleq:e")
  {
    hide BindDleq, ChallengeOf, AppendPointTo, Add, Mul;
    var a1 := Add(Mul(base1, z, s.q), Mul(point1, (-e) % s.q, s.q), s.q);
    var a2 := Add(Mul(base2, z, s.q), Mul(point2, (-e) % s.q, s.q), s.q);
    BindDleqStatement(s, base1, point1, base2, point2, t);
    t.AppendPoint(s, "dleq:a1", a1);
    t.AppendPoint(s, "dleq:a2", a2);
    var c := t.Challenge(s, "dleq:e");
    ok := e == c;
  }

  lemma CommitmentCong(base: Point, point: Point, e: int, z: int, q: int)
    requires q > 1
    ensures Cong(DleqCommitment(base, point, e, z, q), base * z - point * e, q)
  {
    MulCong(base, z, q);
    CongMod(-e, q);
    CongScale((-e) % q, -e, point, q);
    AddMulCong(Mul(base, z, q), point, (-e) % q, q);
    CongAdd(Mul(base, z, q), base * z, point * ((-e) % q), point * (-e), q);
    assert point * (-e) == -(point * e);
  }

  lemma CommitmentRecovered(base: Point, point: Point, x: int, w: int, e: int, q: int)
    requires q > 1 && Cong(point, base * x, q)
    ensures DleqCommitment(base, point, e, (w + x * e) % q, q) == Mul(base, w, q)
  {
    var z := (w + x * e) % q;
    CommitmentCong(base, point, e, z, q);
    CongMod(w + x * e, q);
    CongScale(z, w + x * e, base, q);
    CongScale(point, base * x, e, q);
    CongAdd(base * z, base * (w + x * e), point * e, (base * x) * e, q);
    DleqAlgebra(base, w, x, e);
    MulCong(base, w, q);
    CongSmall(DleqCommitment(base, point, e, z, q), Mul(base, w, q), q);
  }

  lemma DleqAlgebra(b: int, w: int, x: int, e: int)
    ensures b * (w + x * e) - (b * x) * e == b * w
  {
    assert b * (w + x * e) == b * w + b * (x * e);
    assert b * (x * e) == (b * x) * e;
  }

  /** Two answers to one commitment determine the exponent. */
  lemma ExtractExponent(base: Point, point: Point, e: int, z: int, e': int, z': int, x: int, q: int)
    requires IsPrime(q) && (e - e') % q != 0
    requires DleqCommitment(base, point, e, z, q) == DleqCommitment(base, point, e', z', q)
    requires Cong((e - e') * x, z - z', q)
    ensures Cong(point, base * x, q)
  {
    CommitmentCong(base, point, e, z, q);
    CommitmentCong(base, point, e', z', q);
    ExtractFrom(base, point, base * z - point * e, e, z, e', z', x, q);
  }

  lemma ExtractFrom(base: int, point: int, a: int, e: int, z: int, e': int, z': int, x: int, q: int)
    requires IsPrime(q) && (e - e') % q != 0
    requires Cong(base * z - point * e, base * z' - point * e', q)
    requires Cong((e - e') * x, z - z', q)
    ensures Cong(point, base * x, q)
  {
    var d := e - e';
    // d * point == base * (z - z') == base * (d * x) == d * (base * x)
    CongAdd(base * z - point * e, base * z' - point * e', point * e - base * z', point * e - base * z', q);
    assert base * z - point * e + (point * e - base * z') == base * (z - z');
    assert base * z' - point * e' + (point * e - base * z') == d * point;
    CongScale(d * x, z - z', base, q);
    assert base * (d * x) == d * (base * x);
    CancelFactor(d, point, base * x, q);
  }

  ghost function FieldQuotient(d: int, n: int, q: int): int
    requires q > 1
  {
    match ModInverse(d, q)
    case Some(i) => i * n
    case None => 0
  }

  lemma FieldQuotientSolves(d: int, n: int, q: int)
    requires IsPrime(q) && d % q != 0
    ensures Cong(d * FieldQuotient(d, n, q), n, q)
  {
    PrimeInverse(d, q);
    var i := ModInverse(d, q).value;
    CongScale(d * i, 1, n, q);
    assert d * (i * n) == (d * i) * n;
  }

  /** Special soundness of DLEQ: two accepting answers to the same commitments under
      different challenges give one exponent for both pairs. */
  lemma DleqSpecialSound(base1: Point, point1: Point, base2: Point, point2: Point,
                         e: int, z: int, e': int, z': int, q: int)
    requires IsPrime(q) && (e - e') % q != 0
    requires DleqCommitment(base1, point1, e, z, q) == DleqCommitment(base1, point1, e', z', q)
    requires DleqCommitment(base2, point2, e, z, q) == DleqCommitment(base2, point2, e', z', q)
    ensures EqualLogs(base1, point1, base2, point2, FieldQuotient(e - e', z - z', q), q)
  {
    var x := FieldQuotient(e - e', z - z', q);
    FieldQuotientSolves(e - e', z - z', q);
    ExtractExponent(base1, point1, e, z, e', z', x, q);
    ExtractExponent(base2, point2, e, z, e', z', x, q);
  }

  // ----- decryption shares -----

  const DECRYPT_LABEL := "SHUTTER-VOTE-DECRYPT-v1"

  function DecryptTranscript(electionId: bytes, candidate: nat): Parts
  {
    AppendTo(AppendTo(Start(DECRYPT_LABEL), "electionId", electionId), "candidate", U16(candidate))
  }

  function BindShare(s: Suite, p: Parts, c1: Point, c2: Point, mpk: Point, index: nat): Parts
  {
    var p1 := AppendPointTo(s, p, "dec:C1", c1);
    var p2 := AppendPointTo(s, p1, "dec:C2", c2);
    var p3 := AppendPointTo(s, p2, "dec:mpk_k", mpk);
    AppendTo(p3, "dec:keyperIndex", U16(index))
  }

  /** What verify_decryption_share accepts from the transcript `p`. */
  ghost predicate ShareAcceptsOn(s: Suite, p: Parts, c1: Point, c2: Point, mpk: Point, sigma: Point, e: int, z: int,
                                 index: nat)
    requires s.q > 0
  {
    DleqAccepts(s, BindShare(s, p, c1, c2, mpk, index), G2, mpk, c1, sigma, e, z)
  }

  /** The same on a freshly seeded transcript. */
  ghost predicate ShareAccepts(s: Suite, electionId: bytes, candidate: nat, c1: Point, c2: Point,
                               mpk: Point, sigma: Point, e: int, z: int, index: nat)
    requires s.q > 0
  {
    ShareAcceptsOn(s, DecryptTranscript(electionId, candidate), c1, c2, mpk, sigma, e, z, index)
  }

  /** The challenge an accepted share proof answers. */
  ghost function ShareChallenge(s: Suite, electionId: bytes, candidate: nat, c1: Point, c2: Point,
                                mpk: Point, sigma: Point, e: int, z: int, index: nat): int
    requires s.q > 0
  {
    var p := BindShare(s, DecryptTranscript(electionId, candidate), c1, c2, mpk, index);
    ChallengeOf(s, DleqFinal(s, p, G2, mpk, c1, sigma, e, z), "dleq:e")
  }

  /** The inputs the decryption transcript can be seeded with. */
  predicate Seedable(electionId: bytes, candidate: nat)
  {
    |electionId| == 32 && candidate < 0x1_0000
  }

  /** make_decrypt_transcript; null where it raises. */
  method MakeDecryptTranscript(electionId: bytes, candidate: nat) returns (t: Transcript?)
    ensures t != null <==> |electionId| == 32 && candidate < 0x1_0000
    ensures t != null <==> Seedable(electionId, candidate)
    ensures t != null ==> fresh(t) && t.Valid() && t.parts == DecryptTranscript(electionId, candidate)
  {
    if |electionId| != 32 || candidate >= 0x1_0000 {
      return null;
    }
    t := new Transcript(DECRYPT_LABEL);
    t.Append("electionId", electionId);
    t.Append("candidate", U16(candidate));
  }

  /** False where the keyper index does not fit two bytes and the encoder raises. */
  method BindDecryptionShare(s: Suite, c1: Point, c2: Point, mpk: Point, index: nat, t: Transcript) returns (ok: bool)
    requires t.Valid()
    modifies t
    ensures t.Valid()
    ensures ok <==> index < 0x1_0000
    ensures ok ==> t.parts == BindShare(s, old(t.parts), c1, c2, mpk, index)
  {
    t.AppendPoint(s, "dec:C1", c1);
    t.AppendPoint(s, "dec:C2", c2);
    t.AppendPoint(s, "dec:mpk_k", mpk);
    if index >= 0x1_0000 {
      return false;
    }
    t.Append("dec:keyperIndex", U16(index));
    return true;
  }

  /** prove_decryption_share: raises exactly for an index that does not fit, and for a true
      statement the proof is accepted from the same transcript. */
  method ProveDecryptionShare(s: Suite, t: Transcript, c1: Point, c2: Point, mpk: Point, sigma: Point, msk: int,
                              index: nat, w: int)
    returns (r: Option<(int, int)>)
    requires s.q > 1 && t.Valid()
    modifies t
    ensures t.Valid()
    ensures r.Some? <==> index < 0x1_0000
    ensures r.Some? ==> 0 <= r.value.0 < s.q && 0 <= r.value.1 < s.q
    ensures r.Some? && EqualLogs(G2, mpk, c1, sigma, msk, s.q) ==>
              ShareAcceptsOn(s, old(t.parts), c1, c2, mpk, sigma, r.value.0, r.value.1, index)
  {
    hide Cong, EqualLogs, DleqAccepts, DleqFinal, BindShare;
    var fits := BindDecryptionShare(s, c1, c2, mpk, index, t);
    if !fits {
      return None;
    }
    var e, z := ProveDleq(s, G2, mpk, c1, sigma, msk, w, t);
    r := Some((e, z));
  }

  /** A keyper's share point and public key share have its exponent as common logarithm. */
  lemma ShareLogs(c1: Point, msk: int, q: int)
    requires q > 1
    ensures EqualLogs(G2, Mul(G2, msk, q), c1, Mul(c1, msk, q), msk, q)
    ensures IsPoint(Mul(c1, msk, q), q) && Cong(Mul(c1, msk, q), msk * c1, q)
  {
    MulCong(c1, msk, q);
    MulCong(G2, msk, q);
    assert c1 * msk == msk * c1;
  }

  /** verify_decryption_share; nothing where it raises. */
  method VerifyDecryptionShare(s: Suite, t: Transcript, c1: Point, c2: Point, mpk: Point, sigma: Point, e: int, z: int,
                               index: nat)
    returns (r: Option<bool>)
    requires s.q > 1 && t.Valid()
    modifies t
    ensures t.Valid()
    ensures r.Some? <==> index < 0x1_0000
    ensures r.Some? ==> (r.value <==> ShareAcceptsOn(s, old(t.parts), c1, c2, mpk, sigma, e, z, index))
  {
    var fits := BindDecryptionShare(s, c1, c2, mpk, index, t);
    if !fits {
      return None;
    }
    var ok := VerifyDleq(s, G2, mpk, c1, sigma, e, z, t);
    r := Some(ok);
  }

  /** What the DLEQ establishes about a share: sigma is the committee exponent times C1. */
  lemma ShareStatement(mpk: Point, c1: Point, sigma: Point, x: int, q: int)
    requires q > 1 && EqualLogs(G2, mpk, c1, sigma, x, q)
    ensures Cong(sigma, mpk * c1, q)
  {
    CongScale(mpk, x, c1, q);
  }

  // ----- (B+1)-branch OR proof -----

  datatype ORBranch = ORBranch(a1: Point, a2: Point, e: int, z: int)

  function BindScalars(s: Suite, p: Parts, candidates: seq<int>, k: nat): Parts
    requires s.q > 0 && k <= |candidates|
  {
    if k == 0 then p
    else AppendScalarTo(s, BindScalars(s, p, candidates, k - 1),
                        "or:m[" + Decimal(k - 1) + "]", candidates[k - 1] % s.q)
  }

  function BindOr(s: Suite, p: Parts, c1: Point, c2: Point, mpk: Point, candidates: seq<int>): Parts
    requires s.q > 0
  {
    var p1 := AppendPointTo(s, p, "or:P2", G2);
    var p2 := AppendPointTo(s, p1, "or:mpk", mpk);
    var p3 := AppendPointTo(s, p2, "or:C1", c1);
    var p4 := AppendPointTo(s, p3, "or:C2", c2);
    var p5 := AppendTo(p4, "or:|M|", U32(|candidates|));
    BindScalars(s, p5, candidates, |candidates|)
  }

  function CommitBranches(s: Suite, p: Parts, branches: seq<ORBranch>, k: nat): Parts
    requires k <= |branches|
  {
    if k == 0 then p
    else
      var before := CommitBranches(s, p, branches, k - 1);
      var mid := AppendPointTo(s, before, "or:a1[" + Decimal(k - 1) + "]", branches[k - 1].a1);
      AppendPointTo(s, mid, "or:a2[" + Decimal(k - 1) + "]", branches[k - 1].a2)
  }

  /** The transcript an OR challenge is drawn from. */
  function OrTranscript(s: Suite, p: Parts, c1: Point, c2: Point, mpk: Point, candidates: seq<int>,
                        branches: seq<ORBranch>): Parts
    requires s.q > 0
  {
    CommitBranches(s, BindOr(s, p, c1, c2, mpk, candidates), branches, |branches|)
  }

  /** c2 - m*P2: what the ciphertext leaves of the key if it encrypts m. */
  function Residue(c2: Point, m: int, q: int): Point
    requires q > 0
  {
    Add(c2, Mul(G2, (-(m % q)) % q, q), q)
  }

  predicate BranchOk(c1: Point, c2: Point, mpk: Point, m: int, br: ORBranch, q: int)
    requires q > 0
  {
    && Mul(G2, br.z, q) == Add(br.a1, Mul(c1, br.e, q), q)
    && Mul(mpk, br.z, q) == Add(br.a2, Mul(Residue(c2, m, q), br.e, q), q)
  }

  predicate BranchesOk(c1: Point, c2: Point, mpk: Point, candidates: seq<int>, branches: seq<ORBranch>, q: int)
    requires q > 0 && |branches| == |candidates|
  {
    forall i :: 0 <= i < |branches| ==> BranchOk(c1, c2, mpk, candidates[i], branches[i], q)
  }

  function SumE(branches: seq<ORBranch>): int
  {
    if branches == [] then 0 else SumE(branches[..|branches| - 1]) + branches[|branches| - 1].e
  }

  predicate OrAccepts(s: Suite, p: Parts, c1: Point, c2: Point, mpk: Point, candidates: seq<int>,
                      branches: seq<ORBranch>)
    requires s.q > 0
  {
    && |branches| == |candidates|
    && BranchesOk(c1, c2, mpk, candidates, branches, s.q)
    && SumE(branches) % s.q == ChallengeOf(s, OrTranscript(s, p, c1, c2, mpk, candidates, branches), "or:e")
  }

  /** The transcript after an OR proof. */
  function OrFolded(s: Suite, p: Parts, c1: Point, c2: Point, mpk: Point, candidates: seq<int>,
                    branches: seq<ORBranch>): Parts
    requires s.q > 0
  {
    Folded(s, OrTranscript(s, p, c1, c2, mpk, candidates, branches), "or:e")
  }

  method BindOrStatement(s: Suite, c1: Point, c2: Point, mpk: Point, candidates: seq<int>, t: Transcript)
    requires s.q > 1
    requires t.Valid()
    modifies t
    ensures t.Valid()
    ensures t.parts == BindOr(s, old(t.parts), c1, c2, mpk, candidates)
  {
    t.AppendPoint(s, "or:P2", G2);
    t.AppendPoint(s, "or:mpk", mpk);
    t.AppendPoint(s, "or:C1", c1);
    t.AppendPoint(s, "or:C2", c2);
    t.Append("or:|M|", U32(|candidates|));
    ghost var p := t.parts;
    for i := 0 to |candidates|
      invariant t.Valid() && t.parts == BindScalars(s, p, candidates, i)
    {
      t.AppendScalar(s, "or:m[" + Decimal(i) + "]", candidates[i] % s.q);
    }
  }

  method AppendBranches(s: Suite, branches: seq<ORBranch>, t: Transcript)
    requires t.Valid()
    modifies t
    ensures t.Valid()
    ensures t.parts == CommitBranches(s, old(t.parts), branches, |branches|)
  {
    ghost var p := t.parts;
    for i := 0 to |branches|
      invariant t.Valid() && t.parts == CommitBranches(s, p, branches, i)
    {
      t.AppendPoint(s, "or:a1[" + Decimal(i) + "]", branches[i].a1);
      t.AppendPoint(s, "or:a2[" + Decimal(i) + "]", branches[i].a2);
    }
  }

  method VerifyOr(s: Suite, c1: Point, c2: Point, mpk: Point, candidates: seq<int>, branches: seq<ORBranch>,
                  t: Transcript) returns (ok: bool)
    requires s.q > 1
    requires t.Valid()
    modifies t
    ensures t.Valid()
    ensures ok <==> OrAccepts(s, old(t.parts), c1, c2, mpk, candidates, branches)
    ensures ok ==> t.parts == OrFolded(s, old(t.parts), c1, c2, mpk, candidates, branches)
  {
    ghost var p := t.parts;
    if |branches| != |candidates| {
      return false;
    }
    var sum := 0;
    for i := 0 to |branches|
      invariant forall k :: 0 <= k < i ==> BranchOk(c1, c2, mpk, candidates[k], branches[k], s.q)
      invariant sum == SumE(branches[..i])
      invariant t.Valid() && t.parts == p
    {
      var br := branches[i];
      var valid := BranchOk(c1, c2, mpk, candidates[i], br, s.q);
      if !valid {
        return false;
      }
      assert branches[..i + 1][..i] == branches[..i];
      sum := sum + br.e;
    }
    assert branches[..|branches|] == branches;
    BindOrStatement(s, c1, c2, mpk, candidates, t);
    AppendBranches(s, branches, t);
    var e := t.Challenge(s, "or:e");
    ok := sum % s.q == e;
  }

  /** (c1, c2) is the encryption of m under mpk with randomness r. */
  ghost predicate Encrypts(c1: Point, c2: Point, mpk: Point, m: int, r: int, q: int)
    requires q > 0
  {
    Cong(c1, r, q) && Cong(c2, mpk * r + m, q)
  }

  lemma ResidueCong(c2: Point, m: int, q: int)
    requires q > 1
    ensures Cong(Residue(c2, m, q), c2 - m, q)
  {
    CongMod(m, q);
    CongMod(-(m % q), q);
    CongAdd(0, 0, m % q, m, q);
    AddMulCong(c2, G2, (-(m % q)) % q, q);
    CongAdd(c2, c2, (-(m % q)) % q, -m, q);
  }

  /** BranchOk as congruences over the integers. */
  lemma BranchCong(c1: Point, c2: Point, mpk: Point, m: int, br: ORBranch, q: int)
    requires q > 1
    ensures BranchOk(c1, c2, mpk, m, br, q) <==>
              Cong(br.z, br.a1 + c1 * br.e, q) && Cong(mpk * br.z, br.a2 + (c2 - m) * br.e, q)
  {
    hide Residue;
    MulCong(G2, br.z, q);
    AddMulCong(br.a1, c1, br.e, q);
    PointEq(Mul(G2, br.z, q), Add(br.a1, Mul(c1, br.e, q), q), q);
    var d := Residue(c2, m, q);
    ResidueCong(c2, m, q);
    CongScale(d, c2 - m, br.e, q);
    CongAdd(br.a2, br.a2, d * br.e, (c2 - m) * br.e, q);
    MulCong(mpk, br.z, q);
    AddMulCong(br.a2, d, br.e, q);
    PointEq(Mul(mpk, br.z, q), Add(br.a2, Mul(d, br.e, q), q), q);
  }

  /** A simulated branch satisfies its equations whatever the ciphertext encrypts. */
  function Simulate(c1: Point, c2: Point, mpk: Point, m: int, e: int, z: int, q: int): (br: ORBranch)
    requires q > 1
    ensures br.e == e && br.z == z
  {
    var d := Residue(c2, m, q);
    ORBranch(Add(Mul(G2, z, q), Mul(c1, (-e) % q, q), q), Add(Mul(mpk, z, q), Mul(d, (-e) % q, q), q), e, z)
  }

  lemma SimulatedOk(c1: Point, c2: Point, mpk: Point, m: int, e: int, z: int, q: int)
    requires q > 1
    ensures BranchOk(c1, c2, mpk, m, Simulate(c1, c2, mpk, m, e, z, q), q)
  {
    hide BranchOk, Residue;
    var br := Simulate(c1, c2, mpk, m, e, z, q);
    var d := Residue(c2, m, q);
    ResidueCong(c2, m, q);
    CommitmentCong(G2, c1, e, z, q);
    CommitmentCong(mpk, d, e, z, q);
    CongAdd(br.a1, z - c1 * e, c1 * e, c1 * e, q);
    CongScale(d, c2 - m, e, q);
    CongAdd(br.a2, mpk * z - d * e, (c2 - m) * e, d * e, q);
    BranchCong(c1, c2, mpk, m, br, q);
  }

  /** The real branch answers any challenge share. */
  lemma RealOk(c1: Point, c2: Point, mpk: Point, m: int, r: int, w: int, e: int, q: int)
    requires q > 1 && Encrypts(c1, c2, mpk, m, r, q)
    ensures BranchOk(c1, c2, mpk, m, ORBranch(Mul(G2, w, q), Mul(mpk, w, q), e, Rem(w + r * e, q)), q)
  {
    hide BranchOk, Mul;
    var z := (w + r * e) % q;
    var br := ORBranch(Mul(G2, w, q), Mul(mpk, w, q), e, z);
    CongMod(w + r * e, q);
    MulCong(G2, w, q);
    CongScale(c1, r, e, q);
    CongAdd(br.a1, w, c1 * e, r * e, q);
    MulCong(mpk, w, q);
    CongAdd(c2, mpk * r + m, m, m, q);
    CongScale(c2 - m, mpk * r, e, q);
    CongAdd(br.a2, mpk * w, (c2 - m) * e, (mpk * r) * e, q);
    CongScale(z, w + r * e, mpk, q);
    DleqAlgebra(mpk, w, r, e);
    BranchCong(c1, c2, mpk, m, br, q);
  }

  /** Changing only answers does not change the committed transcript. */
  lemma {:induction false} CommitSame(s: Suite, p: Parts, a: seq<ORBranch>, b: seq<ORBranch>, k: nat)
    requires |a| == |b| && k <= |a|
    requires forall i :: 0 <= i < |a| ==> a[i].a1 == b[i].a1 && a[i].a2 == b[i].a2
    ensures CommitBranches(s, p, a, k) == CommitBranches(s, p, b, k)
  {
    if k > 0 {
      CommitSame(s, p, a, b, k - 1);
    }
  }

  lemma {:induction false} SumEUpdate(branches: seq<ORBranch>, i: nat, br: ORBranch)
    requires i < |branches|
    ensures SumE(branches[i := br]) == SumE(branches) - branches[i].e + br.e
  {
    var n := |branches| - 1;
    var b := branches[i := br];
    if i == n {
      assert b[..n] == branches[..n];
    } else {
      SumEUpdate(branches[..n], i, br);
      assert b[..n] == branches[..n][i := br];
    }
  }

  /** A well-formed wire branch: reduced scalars, genuine points. */
  ghost predicate Reduced(br: ORBranch, q: int)
  {
    IsPoint(br.a1, q) && IsPoint(br.a2, q) && 0 <= br.e < q && 0 <= br.z < q
  }

  /** prove_or. `sims` holds the (e, z) pair drawn or pinned for every simulated branch.
      Completeness: if the ciphertext encrypts the chosen candidate the branches are accepted
      from the same transcript, and the verifier ends with the prover's transcript. */
  method ProveOr(s: Suite, c1: Point, c2: Point, mpk: Point, candidates: seq<int>, r: int, trueIndex: int,
                 w: int, sims: seq<(int, int)>, t: Transcript) returns (out: Option<seq<ORBranch>>)
    requires s.q > 1
    requires t.Valid()
    modifies t
    ensures t.Valid()
    ensures out.Some? <==> 0 <= trueIndex < |candidates| && |sims| == |candidates|
    ensures out.None? ==> t.parts == old(t.parts)
    ensures out.Some? ==> |out.value| == |candidates|
    ensures out.Some? ==> forall i :: 0 <= i < |out.value| ==> Reduced(out.value[i], s.q)
    ensures out.Some? ==> t.parts == OrFolded(s, old(t.parts), c1, c2, mpk, candidates, out.value)
    ensures out.Some? && Encrypts(c1, c2, mpk, candidates[trueIndex], r, s.q) ==>
              OrAccepts(s, old(t.parts), c1, c2, mpk, candidates, out.value)
  {
    hide *;
    var n := |candidates|;
    if n == 0 || !(0 <= trueIndex < n) || |sims| != n {
      return None;
    }
    var branches := StartBranches(s.q, c1, c2, mpk, candidates, trueIndex, w, sims);
    BindOrStatement(s, c1, c2, mpk, candidates, t);
    AppendBranches(s, branches, t);
    ghost var committed := t.parts;
    var eTotal := t.Challenge(s, "or:e");
    var simSum := SumOfE(branches);
    var eReal := Rem(eTotal - simSum, s.q);
    var zReal := Rem(w + r * eReal, s.q);
    var done := branches[trueIndex := branches[trueIndex].(e := eReal, z := zReal)];
    OrProven(s, old(t.parts), committed, c1, c2, mpk, candidates, branches, trueIndex, r, w, eTotal, done);
    out := Some(done);
  }

  /** What the filled-in branches amount to. */
  lemma OrProven(s: Suite, p: Parts, committed: Parts, c1: Point, c2: Point, mpk: Point, candidates: seq<int>,
                 branches: seq<ORBranch>, k: nat, r: int, w: int, eTotal: int, done: seq<ORBranch>)
    requires s.q > 1 && k < |branches| == |candidates|
    requires forall i :: 0 <= i < |branches| ==> Reduced(branches[i], s.q)
    requires branches[k] == ORBranch(Mul(G2, w, s.q), Mul(mpk, w, s.q), 0, 0)
    requires forall i :: 0 <= i < |branches| && i != k ==> BranchOk(c1, c2, mpk, candidates[i], branches[i], s.q)
    requires committed == CommitBranches(s, BindOr(s, p, c1, c2, mpk, candidates), branches, |branches|)
    requires eTotal == ChallengeOf(s, committed, "or:e")
    requires var e := Rem(eTotal - SumE(branches), s.q);
             done == branches[k := branches[k].(e := e, z := Rem(w + r * e, s.q))]
    ensures |done| == |candidates| && forall i :: 0 <= i < |done| ==> Reduced(done[i], s.q)
    ensures Folded(s, committed, "or:e") == OrFolded(s, p, c1, c2, mpk, candidates, done)
    ensures Encrypts(c1, c2, mpk, candidates[k], r, s.q) ==> OrAccepts(s, p, c1, c2, mpk, candidates, done)
  {
    hide BranchOk, BindOr, CommitBranches, ChallengeOf, Encrypts, Mul, SumE, OrTranscript, OrAccepts, Folded, Rem;
    var answer := done[k];
    OrAnswered(s, p, c1, c2, mpk, candidates, branches, k, answer, eTotal);
    if Encrypts(c1, c2, mpk, candidates[k], r, s.q) {
      RealOk(c1, c2, mpk, candidates[k], r, w, answer.e, s.q);
      OrCompletes(s, p, c1, c2, mpk, candidates, branches, k, answer, eTotal);
    }
  }

  /** Filling in the real answer keeps the committed transcript and makes the shares sum to
      its challenge. */
  lemma OrAnswered(s: Suite, p: Parts, c1: Point, c2: Point, mpk: Point, candidates: seq<int>,
                   branches: seq<ORBranch>, k: nat, answer: ORBranch, eTotal: int)
    requires s.q > 1 && k < |branches| == |candidates| && 0 <= eTotal < s.q
    requires branches[k].e == 0 && answer.a1 == branches[k].a1 && answer.a2 == branches[k].a2
    requires answer.e == Rem(eTotal - SumE(branches), s.q)
    ensures CommitBranches(s, BindOr(s, p, c1, c2, mpk, candidates), branches, |branches|)
         == OrTranscript(s, p, c1, c2, mpk, candidates, branches[k := answer])
    ensures SumE(branches[k := answer]) % s.q == eTotal
  {
    hide BindOr;
    var done := branches[k := answer];
    CommitSame(s, BindOr(s, p, c1, c2, mpk, candidates), branches, done, |branches|);
    SumEUpdate(branches, k, answer);
    SumsToChallenge(eTotal, SumE(branches), s.q);
  }

  lemma OrCompletes(s: Suite, p: Parts, c1: Point, c2: Point, mpk: Point, candidates: seq<int>,
                    branches: seq<ORBranch>, k: nat, answer: ORBranch, eTotal: int)
    requires s.q > 1 && k < |branches| == |candidates|
    requires forall i :: 0 <= i < |branches| && i != k ==> BranchOk(c1, c2, mpk, candidates[i], branches[i], s.q)
    requires BranchOk(c1, c2, mpk, candidates[k], answer, s.q)
    requires var done := branches[k := answer];
             SumE(done) % s.q == eTotal
             && eTotal == ChallengeOf(s, OrTranscript(s, p, c1, c2, mpk, candidates, done), "or:e")
    ensures OrAccepts(s, p, c1, c2, mpk, candidates, branches[k := answer])
  {
    hide BranchOk, OrTranscript, ChallengeOf, SumE;
    var done := branches[k := answer];
    forall i | 0 <= i < |done| ensures BranchOk(c1, c2, mpk, candidates[i], done[i], s.q) {
      if i != k {
        assert done[i] == branches[i];
      }
    }
  }

  lemma SumsToChallenge(eTotal: int, simSum: int, q: int)
    requires q > 1 && 0 <= eTotal < q
    ensures (simSum + (eTotal - simSum) % q) % q == eTotal
  {
    CongMod(eTotal - simSum, q);
    CongAdd(simSum, simSum, (eTotal - simSum) % q, eTotal - simSum, q);
    ModUnique(eTotal, 0, eTotal, q);
  }

  method SumOfE(branches: seq<ORBranch>) returns (sum: int)
    ensures sum == SumE(branches)
  {
    sum := 0;
    for i := 0 to |branches|
      invariant sum == SumE(branches[..i])
    {
      assert branches[..i + 1][..i] == branches[..i];
      sum := sum + branches[i].e;
    }
    assert branches[..|branches|] == branches;
  }

  /** The first loop of prove_or: commit on the real branch, simulate the others. */
  method StartBranches(q: int, c1: Point, c2: Point, mpk: Point, candidates: seq<int>, trueIndex: nat,
                       w: int, sims: seq<(int, int)>) returns (branches: seq<ORBranch>)
    requires q > 1 && trueIndex < |candidates| == |sims|
    ensures |branches| == |candidates|
    ensures forall i :: 0 <= i < |branches| ==> Reduced(branches[i], q)
    ensures branches[trueIndex] == ORBranch(Mul(G2, w, q), Mul(mpk, w, q), 0, 0)
    ensures forall i :: 0 <= i < |branches| && i != trueIndex ==> BranchOk(c1, c2, mpk, candidates[i], branches[i], q)
  {
    hide BranchOk, Residue;
    branches := [];
    for i := 0 to |candidates|
      invariant |branches| == i
      invariant forall k :: 0 <= k < i ==> Reduced(branches[k], q)
      invariant trueIndex < i ==> branches[trueIndex] == ORBranch(Mul(G2, w, q), Mul(mpk, w, q), 0, 0)
      invariant forall k :: 0 <= k < i && k != trueIndex ==> BranchOk(c1, c2, mpk, candidates[k], branches[k], q)
    {
      if i == trueIndex {
        branches := branches + [ORBranch(Mul(G2, w, q), Mul(mpk, w, q), 0, 0)];
      } else {
        var e, z := sims[i].0 % q, sims[i].1 % q;
        SimulatedOk(c1, c2, mpk, candidates[i], e, z, q);
        branches := branches + [Simulate(c1, c2, mpk, candidates[i], e, z, q)];
      }
    }
  }

  // ----- special soundness -----

  lemma {:induction false} SomeBranchDiffers(a: seq<ORBranch>, b: seq<ORBranch>, q: int) returns (i: nat)
    requires q > 1 && |a| == |b| && SumE(a) % q != SumE(b) % q
    ensures i < |a| && (a[i].e - b[i].e) % q != 0
    decreases |a|
  {
    var n := |a| - 1;
    if (a[n].e - b[n].e) % q != 0 {
      i := n;
    } else {
      CongZero(a[n].e, b[n].e, q);
      if SumE(a[..n]) % q == SumE(b[..n]) % q {
        CongAdd(SumE(a[..n]), SumE(b[..n]), a[n].e, b[n].e, q);
      }
      i := SomeBranchDiffers(a[..n], b[..n], q);
    }
  }

  /** Two answers to one branch commitment decrypt the ciphertext to that branch's candidate. */
  lemma ExtractBranch(c1: Point, c2: Point, mpk: Point, m: int, a: ORBranch, b: ORBranch, q: int)
    requires IsPrime(q) && (a.e - b.e) % q != 0
    requires a.a1 == b.a1 && a.a2 == b.a2
    requires BranchOk(c1, c2, mpk, m, a, q) && BranchOk(c1, c2, mpk, m, b, q)
    ensures Encrypts(c1, c2, mpk, m, FieldQuotient(a.e - b.e, a.z - b.z, q), q)
  {
    hide BranchOk, FieldQuotient;
    var r := FieldQuotient(a.e - b.e, a.z - b.z, q);
    FieldQuotientSolves(a.e - b.e, a.z - b.z, q);
    BranchCong(c1, c2, mpk, m, a, q);
    BranchCong(c1, c2, mpk, m, b, q);
    CongAdd(a.z, a.a1 + c1 * a.e, c1 * a.e, c1 * a.e, q);
    CongAdd(b.z, b.a1 + c1 * b.e, c1 * b.e, c1 * b.e, q);
    ExtractFrom(1, c1, a.a1, a.e, a.z, b.e, b.z, r, q);
    CongAdd(mpk * a.z, a.a2 + (c2 - m) * a.e, (c2 - m) * a.e, (c2 - m) * a.e, q);
    CongAdd(mpk * b.z, b.a2 + (c2 - m) * b.e, (c2 - m) * b.e, (c2 - m) * b.e, q);
    ExtractFrom(mpk, c2 - m, a.a2, a.e, a.z, b.e, b.z, r, q);
    CongAdd(c2 - m, mpk * r, m, m, q);
  }

  /** Two accepting OR proofs that share their commitments but answer different challenges. */
  ghost predicate OrFork(c1: Point, c2: Point, mpk: Point, candidates: seq<int>,
                         a: seq<ORBranch>, b: seq<ORBranch>, q: int)
    requires q > 1
  {
    && |a| == |b| == |candidates|
    && (forall i :: 0 <= i < |a| ==> a[i].a1 == b[i].a1 && a[i].a2 == b[i].a2)
    && BranchesOk(c1, c2, mpk, candidates, a, q) && BranchesOk(c1, c2, mpk, candidates, b, q)
    && SumE(a) % q != SumE(b) % q
  }

  /** Special soundness of the OR proof: a fork yields randomness and an index at which the
      ciphertext really encrypts the listed candidate. */
  lemma OrSpecialSound(c1: Point, c2: Point, mpk: Point, candidates: seq<int>,
                       a: seq<ORBranch>, b: seq<ORBranch>, q: int) returns (r: int, i: nat)
    requires IsPrime(q) && OrFork(c1, c2, mpk, candidates, a, b, q)
    ensures i < |candidates| && Encrypts(c1, c2, mpk, candidates[i], r, q)
  {
    i := SomeBranchDiffers(a, b, q);
    ExtractBranch(c1, c2, mpk, candidates[i], a[i], b[i], q);
    r := FieldQuotient(a[i].e - b[i].e, a[i].z - b[i].z, q);
  }

  /** The two runs answer the same commitments. */
  ghost predicate SameCommitments(a: seq<ORBranch>, b: seq<ORBranch>)
  {
    |a| == |b| && forall i :: 0 <= i < |a| ==> a[i].a1 == b[i].a1 && a[i].a2 == b[i].a2
  }

  /** A fork arises whenever one prover is accepted under two hash functions, from whatever
      transcripts, that answer its commitments with different challenges. */
  lemma ReplayForks(s: Suite, s': Suite, p: Parts, p': Parts, c1: Point, c2: Point, mpk: Point, candidates: seq<int>,
                    a: seq<ORBranch>, b: seq<ORBranch>)
    requires s.q == s'.q > 1
    requires OrAccepts(s, p, c1, c2, mpk, candidates, a) && OrAccepts(s', p', c1, c2, mpk, candidates, b)
    requires SameCommitments(a, b)
    requires ChallengeOf(s, OrTranscript(s, p, c1, c2, mpk, candidates, a), "or:e")
          != ChallengeOf(s', OrTranscript(s', p', c1, c2, mpk, candidates, b), "or:e")
    ensures OrFork(c1, c2, mpk, candidates, a, b, s.q)
  {
    hide BranchesOk, OrTranscript, ChallengeOf, SumE;
  }

  // ----- budget proofs -----

  function BindBudgetTo(s: Suite, p: Parts, budget: int, exact: bool): Parts
    requires s.q > 0
  {
    AppendScalarTo(s, AppendTo(p, "budget:mode", if exact then [0] else [1]), "budget:B", budget % s.q)
  }

  ghost predicate BudgetExactAccepts(s: Suite, p: Parts, c1: Point, c2: Point, mpk: Point, budget: int, e: int, z: int)
    requires s.q > 0
  {
    DleqAccepts(s, BindBudgetTo(s, p, budget, true), G2, c1, mpk, Residue(c2, budget, s.q), e, z)
  }

  /** The transcript after a budget proof. */
  ghost function BudgetFolded(s: Suite, p: Parts, c1: Point, c2: Point, mpk: Point, budget: int, e: int, z: int): Parts
    requires s.q > 0
  {
    var start := BindBudgetTo(s, p, budget, true);
    Folded(s, DleqFinal(s, start, G2, c1, mpk, Residue(c2, budget, s.q), e, z), "dleq:e")
  }

  method BindBudget(s: Suite, budget: int, exact: bool, t: Transcript)
    requires s.q > 1
    requires t.Valid()
    modifies t
    ensures t.Valid()
    ensures t.parts == BindBudgetTo(s, old(t.parts), budget, exact)
  {
    t.Append("budget:mode", if exact then [0] else [1]);
    t.AppendScalar(s, "budget:B", budget % s.q);
  }

  method ProveBudgetExact(s: Suite, c1: Point, c2: Point, mpk: Point, budget: int, rSum: int, w: int, t: Transcript)
    returns (e: int, z: int)
    requires s.q > 1
    requires t.Valid()
    modifies t
    ensures t.Valid()
    ensures 0 <= e < s.q && 0 <= z < s.q
    ensures Encrypts(c1, c2, mpk, budget, rSum, s.q) ==>
              && BudgetExactAccepts(s, old(t.parts), c1, c2, mpk, budget, e, z)
              && t.parts == BudgetFolded(s, old(t.parts), c1, c2, mpk, budget, e, z)
  {
    BindBudget(s, budget, true, t);
    var d := Residue(c2, budget, s.q);
    e, z := ProveDleq(s, G2, c1, mpk, d, rSum, w, t);
    if Encrypts(c1, c2, mpk, budget, rSum, s.q) {
      ResidueCong(c2, budget, s.q);
      CongAdd(c2, mpk * rSum + budget, budget, budget, s.q);
      assert EqualLogs(G2, c1, mpk, d, rSum, s.q);
    }
  }

  method VerifyBudgetExact(s: Suite, c1: Point, c2: Point, mpk: Point, budget: int, e: int, z: int, t: Transcript)
    returns (ok: bool)
    requires s.q > 1
    requires t.Valid()
    modifies t
    ensures t.Valid()
    ensures ok <==> BudgetExactAccepts(s, old(t.parts), c1, c2, mpk, budget, e, z)
    ensures t.parts == BudgetFolded(s, old(t.parts), c1, c2, mpk, budget, e, z)
  {
    BindBudget(s, budget, true, t);
    ok := VerifyDleq(s, G2, c1, mpk, Residue(c2, budget, s.q), e, z, t);
  }

  /** Two accepting answers for one budget commitment: the summed ciphertext encrypts B. */
  lemma BudgetSpecialSound(c1: Point, c2: Point, mpk: Point, budget: int,
                           e: int, z: int, e': int, z': int, q: int) returns (r: int)
    requires IsPrime(q) && (e - e') % q != 0
    requires DleqCommitment(G2, c1, e, z, q) == DleqCommitment(G2, c1, e', z', q)
    requires var d := Residue(c2, budget, q); DleqCommitment(mpk, d, e, z, q) == DleqCommitment(mpk, d, e', z', q)
    ensures Encrypts(c1, c2, mpk, budget, r, q)
  {
    var d := Residue(c2, budget, q);
    DleqSpecialSound(G2, c1, mpk, d, e, z, e', z', q);
    r := FieldQuotient(e - e', z - z', q);
    ResidueCong(c2, budget, q);
    CongAdd(d, mpk * r, budget, budget, q);
    CongAdd(d, c2 - budget, budget, budget, q);
  }
}
