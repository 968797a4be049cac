/** Weighted homomorphic aggregation of admitted ballots (core/aggregation.py, crypto/elgamal.py). */
module Aggregation {
  import opened Field
  import opened Group
  import opened Transcripts
  import opened Proofs
  import BallotCodec
  import opened BallotMessage
  import opened Ballot
  import opened Election
  import opened Admission

  /** One attested weight in the units the election counts in: nearest, ties upwards. */
  function ScaledWeight(weight: int, scale: int): (w: int)
    requires scale >= 1
    ensures -scale <= 2 * (weight - w * scale) < scale
    ensures weight >= 0 ==> w >= 0
    ensures scale == 1 ==> w == weight
  {
    (weight + scale / 2) / scale
  }

  function Weight(sb: StoredBallot): int
  {
    sb.envelope.att.weight
  }

  function BsgsBound(config: Config, totalScaledWeight: int): int
  {
    config.budget * totalScaledWeight
  }

  // ----- the sums an aggregate stands for -----

  /** Component of ciphertext `j` of a ballot, zero where there is none. */
  ghost function C1At(s: Suite, sb: StoredBallot, j: nat): Point
  {
    var cts := sb.envelope.ballot.cts;
    if j < |cts| && s.decode2(cts[j].0).Some? then s.decode2(cts[j].0).value else 0
  }

  ghost function C2At(s: Suite, sb: StoredBallot, j: nat): Point
  {
    var cts := sb.envelope.ballot.cts;
    if j < |cts| && s.decode2(cts[j].1).Some? then s.decode2(cts[j].1).value else 0
  }

  ghost function WeightedC1(s: Suite, admitted: seq<StoredBallot>, scale: int, j: nat): int
    requires scale >= 1
  {
    if admitted == [] then 0
    else
      var n := |admitted| - 1;
      WeightedC1(s, admitted[..n], scale, j) + C1At(s, admitted[n], j) * ScaledWeight(Weight(admitted[n]), scale)
  }

  ghost function WeightedC2(s: Suite, admitted: seq<StoredBallot>, scale: int, j: nat): int
    requires scale >= 1
  {
    if admitted == [] then 0
    else
      var n := |admitted| - 1;
      WeightedC2(s, admitted[..n], scale, j) + C2At(s, admitted[n], j) * ScaledWeight(Weight(admitted[n]), scale)
  }

  function ScaledTotal(admitted: seq<StoredBallot>, scale: int): int
    requires scale >= 1
  {
    if admitted == [] then 0
    else ScaledTotal(admitted[..|admitted| - 1], scale) + ScaledWeight(Weight(admitted[|admitted| - 1]), scale)
  }

  /** The first `m` ciphertexts are present and decode. */
  ghost predicate Usable(s: Suite, sb: StoredBallot, m: nat)
  {
    var cts := sb.envelope.ballot.cts;
    m <= |cts| && forall j :: 0 <= j < m ==> s.decode2(cts[j].0).Some? && s.decode2(cts[j].1).Some?
  }

  /** Every ballot with a nonzero scaled weight is usable; only those are read. */
  ghost predicate Aggregable(s: Suite, admitted: seq<StoredBallot>, m: nat, scale: int)
    requires scale >= 1
  {
    forall i :: 0 <= i < |admitted| && ScaledWeight(Weight(admitted[i]), scale) != 0 ==> Usable(s, admitted[i], m)
  }

  // ----- ElGamal -----

  /** add_ct(a, scalar_mul_ct(k, b)). */
  function AddScaled(a: Cipher, k: int, b: Cipher, q: int): Cipher
    requires q > 0
  {
    (Add(a.0, Mul(b.0, k, q), q), Add(a.1, Mul(b.1, k, q), q))
  }

  /** Scaling an encryption scales its plaintext; adding adds. */
  lemma AddScaledEncrypts(a: Cipher, k: int, b: Cipher, mpk: Point, m: int, r: int, v: int, x: int, q: int)
    requires q > 1 && Encrypts(a.0, a.1, mpk, m, r, q) && Encrypts(b.0, b.1, mpk, v, x, q)
    ensures Encrypts(AddScaled(a, k, b, q).0, AddScaled(a, k, b, q).1, mpk, m + v * k, r + x * k, q)
  {
    hide Add, Mul;
    AddMulCong(a.0, b.0, k, q);
    AddMulCong(a.1, b.1, k, q);
    CongScale(b.0, x, k, q);
    CongScale(b.1, mpk * x + v, k, q);
    CongAdd(a.0, r, b.0 * k, x * k, q);
    CongAdd(a.1, mpk * r + m, b.1 * k, (mpk * x + v) * k, q);
    ScaleAlgebra(mpk, r, x, m, v, k);
  }

  lemma ScaleAlgebra(p: int, r: int, x: int, m: int, v: int, k: int)
    ensures p * r + m + (p * x + v) * k == p * (r + x * k) + (m + v * k)
  {
    assert (p * x + v) * k == p * x * k + v * k;
    assert p * (x * k) == p * x * k;
  }

  lemma AddScaledRem(acc: int, c: Point, k: int, q: int)
    requires q > 1
    ensures Add(Rem(acc, q), Mul(c, k, q), q) == Rem(acc + c * k, q)
  {
    AddMulCong(Rem(acc, q), c, k, q);
    CongMod(acc, q);
    CongAdd(Rem(acc, q), acc, c * k, c * k, q);
    CongMod(acc + c * k, q);
    CongSmall(Add(Rem(acc, q), Mul(c, k, q), q), Rem(acc + c * k, q), q);
  }

  // ----- aggregation -----

  ghost predicate Accumulated(s: Suite, acc: seq<Cipher>, admitted: seq<StoredBallot>, m: nat, scale: int)
    requires s.q > 1 && scale >= 1
  {
    && |acc| == m
    && forall j :: 0 <= j < m ==>
         acc[j] == (Rem(WeightedC1(s, admitted, scale, j), s.q), Rem(WeightedC2(s, admitted, scale, j), s.q))
  }

  /** aggregate_points; nothing where a ciphertext of a counted ballot is missing or does not decode. */
  method AggregatePoints(s: Suite, admitted: seq<StoredBallot>, m: nat, scale: int) returns (r: Option<seq<Cipher>>)
    requires s.q > 1 && scale >= 1
    ensures r.Some? <==> Aggregable(s, admitted, m, scale)
    ensures r.Some? ==> Accumulated(s, r.value, admitted, m, scale)
  {
    hide Usable, Rem, ScaledWeight;
    var acc := seq(m, _ => (Z2, Z2));
    StartsEmpty(s, acc, m, scale);
    for i := 0 to |admitted|
      invariant Accumulated(s, acc, admitted[..i], m, scale)
      invariant Aggregable(s, admitted[..i], m, scale)
    {
      var w := ScaledWeight(Weight(admitted[i]), scale);
      assert admitted[..i + 1][..i] == admitted[..i];
      if w == 0 {
        SkipsZero(s, acc, admitted[..i], admitted[i], m, scale);
        assert admitted[..i + 1] == admitted[..i] + [admitted[i]];
        continue;
      }
      var next := AddBallot(s, acc, admitted[..i], admitted[i], m, scale);
      if next.None? {
        return None;
      }
      acc := next.value;
      assert admitted[..i + 1] == admitted[..i] + [admitted[i]];
    }
    assert admitted[..|admitted|] == admitted;
    r := Some(acc);
  }

  lemma StartsEmpty(s: Suite, acc: seq<Cipher>, m: nat, scale: int)
    requires s.q > 1 && scale >= 1 && acc == seq(m, _ => (Z2, Z2))
    ensures Accumulated(s, acc, [], m, scale)
  {
    ModUnique(0, 0, 0, s.q);
  }

  lemma SkipsZero(s: Suite, acc: seq<Cipher>, front: seq<StoredBallot>, last: StoredBallot, m: nat, scale: int)
    requires s.q > 1 && scale >= 1 && Accumulated(s, acc, front, m, scale)
    requires ScaledWeight(Weight(last), scale) == 0
    ensures Accumulated(s, acc, front + [last], m, scale)
  {
    hide Rem, ScaledWeight, C1At, C2At;
    assert (front + [last])[..|front|] == front;
  }

  /** The inner loop: add one weighted ballot to every candidate's sum. */
  method AddBallot(s: Suite, acc: seq<Cipher>, ghost front: seq<StoredBallot>, sb: StoredBallot, m: nat, scale: int)
    returns (r: Option<seq<Cipher>>)
    requires s.q > 1 && scale >= 1 && Accumulated(s, acc, front, m, scale)
    ensures r.Some? <==> Usable(s, sb, m)
    ensures r.Some? ==> Accumulated(s, r.value, front + [sb], m, scale)
  {
    hide Rem, ScaledWeight, Add, Mul;
    var w := ScaledWeight(Weight(sb), scale);
    var cts := sb.envelope.ballot.cts;
    var out := acc;
    assert (front + [sb])[..|front|] == front;
    for j := 0 to m
      invariant |out| == m && Usable(s, sb, j)
      invariant forall k :: j <= k < m ==> out[k] == acc[k]
      invariant forall k :: 0 <= k < j ==> out[k] == AddScaled(acc[k], w, (C1At(s, sb, k), C2At(s, sb, k)), s.q)
    {
      if j >= |cts| || s.decode2(cts[j].0).None? || s.decode2(cts[j].1).None? {
        return None;
      }
      out := out[j := AddScaled(out[j], w, (s.decode2(cts[j].0).value, s.decode2(cts[j].1).value), s.q)];
    }
    forall k | 0 <= k < m
      ensures out[k].0 == Rem(WeightedC1(s, front + [sb], scale, k), s.q)
      ensures out[k].1 == Rem(WeightedC2(s, front + [sb], scale, k), s.q)
    {
      AddScaledRem(WeightedC1(s, front, scale, k), C1At(s, sb, k), w, s.q);
      AddScaledRem(WeightedC2(s, front, scale, k), C2At(s, sb, k), w, s.q);
    }
    r := Some(out);
  }

  /** The digest-covered content of the artifact an admission result determines. */
  ghost function TallyOf(s: Suite, config: Config, a: AdmissionResult): Tally
    requires s.q > 1 && config.scale >= 1 && config.numCandidates >= 0
  {
    Tally(AggregateBytes(s, a.admitted, config.numCandidates, config.scale), Numbers(a.admitted), a.exclusions,
          a.totalWeight, ScaledTotal(a.admitted, config.scale))
  }

  ghost function AggregateBytes(s: Suite, admitted: seq<StoredBallot>, m: nat, scale: int): (b: seq<CipherBytes>)
    requires s.q > 1 && scale >= 1
    ensures |b| == m
  {
    seq(m, j requires 0 <= j < m => (s.encode2(Rem(WeightedC1(s, admitted, scale, j), s.q)),
                                     s.encode2(Rem(WeightedC2(s, admitted, scale, j), s.q))))
  }

  function Numbers(admitted: seq<StoredBallot>): (r: seq<int>)
    ensures |r| == |admitted| && forall i :: 0 <= i < |r| ==> r[i] == admitted[i].seqNo
  {
    seq(|admitted|, i requires 0 <= i < |admitted| => admitted[i].seqNo)
  }

  method BuildAggregateArtifact(s: Suite, config: Config, a: AdmissionResult) returns (r: Option<Artifact>)
    requires s.q > 1 && config.Valid()
    ensures r.Some? <==> Aggregable(s, a.admitted, config.numCandidates, config.scale)
    ensures r.Some? ==> r.value == Artifact(config.electionId, TallyOf(s, config, a))
    ensures r.Some? ==> |r.value.tally.admitted| == |a.admitted|
    ensures r.Some? ==> forall i :: 0 <= i < |a.admitted| ==> r.value.tally.admitted[i] == a.admitted[i].seqNo
    ensures r.Some? ==> r.value.tally.exclusions == a.exclusions
    ensures r.Some? ==> r.value.tally.totalAdmittedWeight == a.totalWeight
    ensures r.Some? ==> r.value.tally.totalScaledWeight == ScaledTotal(a.admitted, config.scale)
  {
    hide Rem, ScaledWeight, Usable;
    var pts := AggregatePoints(s, a.admitted, config.numCandidates, config.scale);
    if pts.None? {
      return None;
    }
    var total := 0;
    for i := 0 to |a.admitted|
      invariant total == ScaledTotal(a.admitted[..i], config.scale)
    {
      assert a.admitted[..i + 1][..i] == a.admitted[..i];
      total := total + ScaledWeight(Weight(a.admitted[i]), config.scale);
    }
    assert a.admitted[..|a.admitted|] == a.admitted;
    var agg := EncodeCiphers(s, pts.value);
    assert agg == AggregateBytes(s, a.admitted, config.numCandidates, config.scale);
    r := Some(Artifact(config.electionId, Tally(agg, Numbers(a.admitted), a.exclusions, a.totalWeight, total)));
  }

  /** Whatever is admitted can be aggregated: it decodes, has one ciphertext per candidate and
      a non-negative weight, so building never raises after admission. */
  lemma AdmittedAggregates(s: Suite, verify: VerifyAttestation, config: Config, mpk: Point, ballots: seq<StoredBallot>)
    requires s.q > 1 && config.Valid()
    ensures var a := Admit(ballots, JudgeOf(s, verify, config, mpk), config.policy);
            && Aggregable(s, a.admitted, config.numCandidates, config.scale)
            && forall i :: 0 <= i < |a.admitted| ==> Weight(a.admitted[i]) >= 0
  {
    hide Admit, Judge, Usable;
    var judge := JudgeOf(s, verify, config, mpk);
    var a := Admit(ballots, judge, config.policy);
    AdmittedAreValid(ballots, judge, config.policy);
    forall i | 0 <= i < |a.admitted| ensures Usable(s, a.admitted[i],
                                                    config.numCandidates) && Weight(a.admitted[i]) >= 0 {
      assert a.admitted[i] in a.admitted && judge(a.admitted[i]) == Valid;
      ValidIsUsable(s, verify, config, mpk, a.admitted[i]);
    }
  }

  lemma ValidIsUsable(s: Suite, verify: VerifyAttestation, config: Config, mpk: Point, sb: StoredBallot)
    requires s.q > 1 && config.Valid() && Judge(s, verify, config, mpk, sb) == Valid
    ensures Usable(s, sb, config.numCandidates) && Weight(sb) >= 0
  {
    hide BallotVerdict, DecodeCiphers;
    AcceptedParts(s, mpk, sb.envelope.ballot, sb.envelope.att, config.numCandidates, config.budget);
    CiphersDecode(s, sb.envelope.ballot.cts);
  }

  lemma AcceptedParts(s: Suite, mpk: Point, b: WireBallot, att: Attestation, m: int, budget: int)
    requires s.q > 1 && BallotVerdict(s, mpk, b, att, m, budget) == Accept
    ensures |b.cts| == m && DecodeCiphers(s, b.cts).Some? && att.weight >= 0
  {
    hide ProofsAccept, SchnorrVerifies, BallotCodec.Decode, DecodeCiphers;
  }

  lemma {:induction false} CiphersDecode(s: Suite, cts: seq<CipherBytes>)
    requires DecodeCiphers(s, cts).Some?
    ensures forall j :: 0 <= j < |cts| ==> s.decode2(cts[j].0).Some? && s.decode2(cts[j].1).Some?
    ensures forall j :: 0 <= j < |cts| ==>
              DecodeCiphers(s, cts).value[j] == (s.decode2(cts[j].0).value, s.decode2(cts[j].1).value)
  {
    if cts != [] {
      CiphersDecode(s, cts[..|cts| - 1]);
    }
  }

  // ----- what an aggregate decrypts to -----

  /** The votes and randomness inside one ballot. */
  datatype Opening = Opening(votes: seq<int>, rs: seq<int>)

  ghost predicate Opens(s: Suite, mpk: Point, sb: StoredBallot, o: Opening, m: nat)
    requires s.q > 1
  {
    && |o.votes| == |o.rs| == m
    && forall j :: 0 <= j < m ==> Encrypts(C1At(s, sb, j), C2At(s, sb, j), mpk, o.votes[j], o.rs[j], s.q)
  }

  ghost predicate AllOpen(s: Suite, mpk: Point, admitted: seq<StoredBallot>, os: seq<Opening>, m: nat)
    requires s.q > 1
  {
    |os| == |admitted| && forall i :: 0 <= i < |os| ==> Opens(s, mpk, admitted[i], os[i], m)
  }

  /** A ballot whose ciphertexts carry votes opens to them: so do honestly built ballots
      (Ballot.BuildBallot) and ballots whose accepted proofs can be rewound
      (Ballot.AcceptedBallotSound). */
  lemma CarriedOpens(s: Suite, mpk: Point, sb: StoredBallot, votes: seq<int>, rs: seq<int>)
    requires s.q > 1 && Carries(s, sb.envelope.ballot.cts, mpk, votes, rs)
    ensures Opens(s, mpk, sb, Opening(votes, rs), |votes|)
  {
    hide DecodeCiphers, Encrypts;
    CiphersDecode(s, sb.envelope.ballot.cts);
  }

  /** Weighted sum of the entries at `j`. */
  function WeightedSum(admitted: seq<StoredBallot>, columns: seq<seq<int>>, scale: int, j: nat): int
    requires scale >= 1 && |columns| == |admitted| && forall i :: 0 <= i < |columns| ==> j < |columns[i]|
  {
    if admitted == [] then 0
    else
      var n := |admitted| - 1;
      WeightedSum(admitted[..n], columns[..n], scale, j) + columns[n][j] * ScaledWeight(Weight(admitted[n]), scale)
  }

  function Votes(os: seq<Opening>): (r: seq<seq<int>>)
    ensures |r| == |os| && forall i :: 0 <= i < |r| ==> r[i] == os[i].votes
  {
    seq(|os|, i requires 0 <= i < |os| => os[i].votes)
  }

  function Nonces(os: seq<Opening>): (r: seq<seq<int>>)
    ensures |r| == |os| && forall i :: 0 <= i < |r| ==> r[i] == os[i].rs
  {
    seq(|os|, i requires 0 <= i < |os| => os[i].rs)
  }

  /** The aggregate of a candidate is an encryption of its weighted vote total. */
  lemma {:induction false} AggregateEncrypts(s: Suite, mpk: Point, admitted: seq<StoredBallot>, os: seq<Opening>,
                                             m: nat, scale: int, j: nat)
    requires s.q > 1 && scale >= 1 && j < m && AllOpen(s, mpk, admitted, os, m)
    ensures Encrypts(Rem(WeightedC1(s, admitted, scale, j), s.q), Rem(WeightedC2(s, admitted, scale, j), s.q), mpk,
                     WeightedSum(admitted, Votes(os), scale, j), WeightedSum(admitted, Nonces(os), scale, j), s.q)
    decreases |admitted|
  {
    hide Encrypts, Rem, ScaledWeight, C1At, C2At;
    if admitted == [] {
      EmptyEncrypts(mpk, s.q);
    } else {
      var n := |admitted| - 1;
      AggregateEncrypts(s, mpk, admitted[..n], os[..n], m, scale, j);
      assert Votes(os)[..n] == Votes(os[..n]) && Nonces(os)[..n] == Nonces(os[..n]);
      assert Opens(s, mpk, admitted[n], os[n], m);
      WeightedStep(WeightedC1(s, admitted[..n], scale, j), WeightedC2(s, admitted[..n], scale, j),
                    C1At(s, admitted[n], j), C2At(s, admitted[n], j), ScaledWeight(Weight(admitted[n]), scale), mpk,
                    WeightedSum(admitted[..n], Votes(os)[..n], scale, j),
                    WeightedSum(admitted[..n], Nonces(os)[..n], scale, j), os[n].votes[j], os[n].rs[j], s.q);
    }
  }

  lemma WeightedStep(a1: int, a2: int, b1: Point, b2: Point, w: int, mpk: Point, v: int, r: int, v': int, r': int,
                     q: int)
    requires q > 1 && Encrypts(Rem(a1, q), Rem(a2, q), mpk, v, r, q) && Encrypts(b1, b2, mpk, v', r', q)
    ensures Encrypts(Rem(a1 + b1 * w, q), Rem(a2 + b2 * w, q), mpk, v + v' * w, r + r' * w, q)
  {
    hide Encrypts, Rem, Add, Mul;
    AddScaledEncrypts((Rem(a1, q), Rem(a2, q)), w, (b1, b2), mpk, v, r, v', r', q);
    AddScaledRem(a1, b1, w, q);
    AddScaledRem(a2, b2, w, q);
  }

  lemma EmptyEncrypts(mpk: Point, q: int)
    requires q > 1
    ensures Encrypts(Rem(0, q), Rem(0, q), mpk, 0, 0, q)
  {
    ModUnique(0, 0, 0, q);
  }

  /** The weighted totals of all candidates. */
  function Totals(admitted: seq<StoredBallot>, os: seq<Opening>, scale: int, m: nat): (t: seq<int>)
    requires scale >= 1 && |os| == |admitted| && forall i :: 0 <= i < |os| ==> |os[i].votes| == m
    ensures |t| == m
  {
    seq(m, j requires 0 <= j < m => WeightedSum(admitted, Votes(os), scale, j))
  }

  /** Every admitted ballot splits the budget exactly. */
  ghost predicate SpendExactly(os: seq<Opening>, budget: int, m: nat)
  {
    forall i :: 0 <= i < |os| ==>
      |os[i].votes| == m && SumVotes(os[i].votes) == budget
      && forall j :: 0 <= j < m ==> 0 <= os[i].votes[j] <= budget
  }

  /** Conservation: with every ballot spending exactly the budget, the totals together are
      budget times the scaled weight. */
  lemma {:induction false} TotalsConserve(admitted: seq<StoredBallot>, os: seq<Opening>, scale: int, m: nat,
                                          budget: int)
    requires scale >= 1 && |os| == |admitted| && SpendExactly(os, budget, m)
    ensures SumVotes(Totals(admitted, os, scale, m)) == budget * ScaledTotal(admitted, scale)
    decreases |admitted|
  {
    hide ScaledWeight, Totals;
    if admitted == [] {
      NoTotals(admitted, os, scale, m);
      SumZeros(Totals(admitted, os, scale, m));
    } else {
      var n := |admitted| - 1;
      TotalsConserve(admitted[..n], os[..n], scale, m, budget);
      TotalsStep(admitted, os, scale, m);
      SumLinear(Totals(admitted[..n], os[..n], scale, m), os[n].votes, ScaledWeight(Weight(admitted[n]), scale),
                Totals(admitted, os, scale, m));
      Distribute(budget, ScaledTotal(admitted[..n], scale), ScaledWeight(Weight(admitted[n]), scale));
    }
  }

  lemma NoTotals(admitted: seq<StoredBallot>, os: seq<Opening>, scale: int, m: nat)
    requires scale >= 1 && os == [] && admitted == []
    ensures forall j :: 0 <= j < m ==> Totals(admitted, os, scale, m)[j] == 0
  {
  }

  lemma Distribute(a: int, b: int, c: int)
    ensures a * (b + c) == a * b + a * c
  {
  }

  lemma TotalsStep(admitted: seq<StoredBallot>, os: seq<Opening>, scale: int, m: nat)
    requires scale >= 1 && |os| == |admitted| && admitted != [] && forall i :: 0 <= i < |os| ==> |os[i].votes| == m
    ensures var n := |admitted| - 1;
            var w := ScaledWeight(Weight(admitted[n]), scale);
            forall j :: 0 <= j < m ==>
              Totals(admitted, os, scale, m)[j] == Totals(admitted[..n], os[..n], scale, m)[j] + os[n].votes[j] * w
  {
    hide ScaledWeight;
    var n := |admitted| - 1;
    assert Votes(os)[..n] == Votes(os[..n]);
  }

  lemma {:induction false} SumZeros(a: seq<int>)
    requires forall j :: 0 <= j < |a| ==> a[j] == 0
    ensures SumVotes(a) == 0
  {
    if a != [] {
      SumZeros(a[..|a| - 1]);
    }
  }

  lemma {:induction false} SumLinear(a: seq<int>, b: seq<int>, w: int, c: seq<int>)
    requires |a| == |b| == |c| && forall j :: 0 <= j < |a| ==> c[j] == a[j] + b[j] * w
    ensures SumVotes(c) == SumVotes(a) + SumVotes(b) * w
  {
    if a != [] {
      var n := |a| - 1;
      SumLinear(a[..n], b[..n], w, c[..n]);
      assert (SumVotes(b[..n]) + b[n]) * w == SumVotes(b[..n]) * w + b[n] * w;
    }
  }

  /** Each total lies within the derived bound. */
  lemma {:induction false} TotalWithinBound(admitted: seq<StoredBallot>, os: seq<Opening>, scale: int, m: nat,
                                            budget: int, j: nat)
    requires scale >= 1 && |os| == |admitted| && SpendExactly(os, budget, m) && j < m
    requires forall i :: 0 <= i < |admitted| ==> Weight(admitted[i]) >= 0
    ensures 0 <= WeightedSum(admitted, Votes(os), scale, j) <= budget * ScaledTotal(admitted, scale)
    decreases |admitted|
  {
    if admitted != [] {
      var n := |admitted| - 1;
      TotalWithinBound(admitted[..n], os[..n], scale, m, budget, j);
      assert Votes(os)[..n] == Votes(os[..n]);
      ScaleBetween(os[n].votes[j], budget, ScaledWeight(Weight(admitted[n]), scale), ScaledTotal(admitted[..n], scale));
    }
  }

  lemma ScaleBetween(v: int, budget: int, w: int, total: int)
    requires 0 <= v <= budget && w >= 0
    ensures 0 <= v * w && v * w + budget * total <= budget * (total + w)
  {
    assert budget * (total + w) == budget * total + budget * w;
    assert (budget - v) * w >= 0;
    assert (budget - v) * w == budget * w - v * w;
  }
}
