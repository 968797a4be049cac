/** From key generation to the published totals: any quorum of verified shares of an honest
    aggregate recovers exactly the weighted vote totals. */
module EndToEnd {
  import opened Field
  import opened Group
  import opened Polynomial
  import opened Lagrange
  import opened Bytes
  import opened Transcripts
  import opened Proofs
  import opened Ballot
  import opened Election
  import opened Admission
  import opened Aggregation
  import opened Recovery
  import opened Decryption
  import opened Sums
  import opened Dkg

  // ----- the decrypting side -----

  /** The finalized committee bytes are those of the key. */
  ghost predicate CommitteeOf(s: Suite, committee: seq<bytes>, key: KeyResult)
  {
    && |committee| == |key.committee|
    && forall i :: 0 <= i < |committee| ==> s.decode2(committee[i]) == Some(key.committee[i])
  }

  /** What an accepted proof establishes about a share: its point is the committee exponent
      times C1. CountedSharesSound derives it from two accepted answers. */
  ghost predicate ShareSound(s: Suite, inp: Inputs, key: KeyResult, j: nat, c1: Point, c2: Point, share: ShareEnvelope)
    requires s.q > 1 && |inp.committee| == |key.committee|
  {
    Counts(s, inp, j, c1, c2, share) ==>
      Cong(s.decode2(share.entries[j].sigma).value, key.committee[share.keyperIndex - 1] * c1, s.q)
  }

  /** The keyper answers twice with one share point: equal DLEQ commitments, different challenges. */
  ghost predicate RewoundShares(s: Suite, s': Suite, inp: Inputs, inp': Inputs, j: nat, c1: Point, c2: Point,
                                share: ShareEnvelope, share': ShareEnvelope)
    requires s.q == s'.q > 1
  {
    && inp'.committee == inp.committee && share'.keyperIndex == share.keyperIndex
    && Presentable(s, inp, j, share) && Presentable(s', inp', j, share')
    && share'.entries[j].sigma == share.entries[j].sigma
    && var mpk, sigma := s.decode2(inp.committee[share.keyperIndex - 1]).value, s.decode2(share.entries[j].sigma).value;
       var a, b := DecodeDleq(share.entries[j].proof, s.q).value, DecodeDleq(share'.entries[j].proof, s.q).value;
       && DleqCommitment(G2, mpk, a.0, a.1, s.q) == DleqCommitment(G2, mpk, b.0, b.1, s.q)
       && DleqCommitment(c1, sigma, a.0, a.1, s.q) == DleqCommitment(c1, sigma, b.0, b.1, s.q)
       && ShareChallenge(s, inp.electionId, j, c1, c2, mpk, sigma, a.0, a.1, share.keyperIndex)
          != ShareChallenge(s', inp'.electionId, j, c1, c2, mpk, sigma, b.0, b.1, share.keyperIndex)
  }

  /** What counting is worth: a keyper whose share counts under two hash functions, its proof
      rewound, has sent the committee exponent times C1. */
  lemma CountedSharesSound(s: Suite, s': Suite, inp: Inputs, inp': Inputs, key: KeyResult, j: nat, c1: Point, c2: Point,
                           share: ShareEnvelope, share': ShareEnvelope)
    requires IsPrime(s.q) && s' == s.(hash := s'.hash) && CommitteeOf(s, inp.committee, key)
    requires Counts(s, inp, j, c1, c2, share) && Counts(s', inp', j, c1, c2, share')
    requires RewoundShares(s, s', inp, inp', j, c1, c2, share, share')
    ensures Cong(s.decode2(share.entries[j].sigma).value, key.committee[share.keyperIndex - 1] * c1, s.q)
    ensures ShareSound(s, inp, key, j, c1, c2, share)
  {
    hide DleqCommitment, DleqFinal, ChallengeOf, BindShare, DecryptTranscript, DecodeDleq, IsPrime, Seedable, Cong,
         EqualLogs;
    var mpk, sigma := s.decode2(inp.committee[share.keyperIndex - 1]).value, s.decode2(share.entries[j].sigma).value;
    var a, b := DecodeDleq(share.entries[j].proof, s.q).value, DecodeDleq(share'.entries[j].proof, s.q).value;
    PrimeAboveOne(s.q);
    DistinctChallenges(a.0, b.0, s.q);
    DleqSpecialSound(G2, mpk, c1, sigma, a.0, a.1, b.0, b.1, s.q);
    ShareStatement(mpk, c1, sigma, FieldQuotient(a.0 - b.0, a.1 - b.1, s.q), s.q);
  }

  lemma PrimeAboveOne(q: int)
    requires IsPrime(q)
    ensures q > 1
  {
  }

  ghost predicate Named(shares: seq<ShareEnvelope>, id: int)
  {
    exists k :: 0 <= k < |shares| && shares[k].keyperIndex == id
  }

  lemma {:induction false} CountedPartials(s: Suite, inp: Inputs, key: KeyResult, f: seq<int>, n: nat, j: nat,
                                           c1: Point, c2: Point, shares: seq<ShareEnvelope>)
    requires s.q > 1 && OnPolynomial(key, f, n, s.q) && |inp.committee| == n && DistinctKeypers(shares)
    requires forall i :: 0 <= i < |shares| ==> ShareSound(s, inp, key, j, c1, c2, shares[i])
    ensures var ps := Counted(s, inp, j, c1, c2, shares);
            && SharesOf(ps, f, c1, s.q)
            && (forall i :: 0 <= i < |ps| ==> 1 <= ps[i].id <= n && Named(shares, ps[i].id))
            && (forall i, k :: 0 <= i < k < |ps| ==> ps[i].id != ps[k].id)
    decreases |shares|
  {
    hide Cong, Counts;
    if shares != [] {
      var m := |shares| - 1;
      var last := shares[m];
      assert forall k :: 0 <= k < m ==> shares[..m][k] == shares[k];
      CountedPartials(s, inp, key, f, n, j, c1, c2, shares[..m]);
      if Counts(s, inp, j, c1, c2, last) {
        CountedOne(s, inp, key, f, n, j, c1, c2, last);
      }
    }
  }

  lemma CountedOne(s: Suite, inp: Inputs, key: KeyResult, f: seq<int>, n: nat, j: nat, c1: Point, c2: Point,
                   share: ShareEnvelope)
    requires s.q > 1 && OnPolynomial(key, f, n, s.q) && |inp.committee| == n
    requires ShareSound(s, inp, key, j, c1, c2, share) && Counts(s, inp, j, c1, c2, share)
    ensures 1 <= share.keyperIndex <= n
    ensures Cong(s.decode2(share.entries[j].sigma).value, Eval(f, share.keyperIndex) * c1, s.q)
  {
    hide ShareAccepts;
    CongScale(key.committee[share.keyperIndex - 1], Eval(f, share.keyperIndex), c1, s.q);
  }

  lemma SmallDistinct(ids: seq<int>, n: nat, q: int)
    requires 0 < n < q && forall i :: 0 <= i < |ids| ==> 1 <= ids[i] <= n
    requires forall i, k :: 0 <= i < k < |ids| ==> ids[i] != ids[k]
    ensures DistinctMod(ids, q)
  {
    forall i, k | 0 <= i < k < |ids| ensures !Cong(ids[i], ids[k], q) {
      if Cong(ids[i], ids[k], q) {
        CongSmall(ids[i], ids[k], q);
      }
    }
  }

  /** Combining any quorum of sound shares decrypts a ciphertext to its plaintext. */
  lemma TauIsPlaintext(s: Suite, inp: Inputs, key: KeyResult, f: seq<int>, n: nat, j: nat, c1: Point, c2: Point,
                       m: int, r: int)
    requires IsPrime(s.q) && 0 < n < s.q && OnPolynomial(key, f, n, s.q) && |inp.committee| == n
    requires |f| <= inp.quorum && DistinctKeypers(inp.shares) && j < |inp.aggregates|
    requires s.decode2(inp.aggregates[j].0) == Some(c1) && s.decode2(inp.aggregates[j].1) == Some(c2)
    requires SoundAt(s, inp, key, j, c1, c2)
    requires |Counted(s, inp, j, c1, c2, inp.shares)| >= inp.quorum
    requires forall i :: 0 <= i < |inp.shares| ==> !Stumbles(s, inp, j, inp.shares[i])
    requires Encrypts(c1, c2, key.pk, m, r, s.q) && 0 <= m < s.q
    ensures TauOf(s, inp, j).Tau? && TauOf(s, inp, j).tau == m
  {
    hide ShareSound, Encrypts, Cong, Coefficient, Combined, Counted, Neg, Add, Rem, Stumbles;
    var valid := Counted(s, inp, j, c1, c2, inp.shares);
    CountedPartials(s, inp, key, f, n, j, c1, c2, inp.shares);
    var chosen := valid[..inp.quorum];
    SmallDistinct(Ids(chosen), n, s.q);
    QuorumIndependent(chosen, f, c1, s.q);
    DecryptAlgebra(c1, c2, key.pk, m, r, AtZero(f), Combined(chosen, Ids(chosen), s.q), s.q);
  }

  lemma DecryptAlgebra(c1: Point, c2: Point, pk: Point, m: int, r: int, msk: int, sigma: int, q: int)
    requires q > 1 && Encrypts(c1, c2, pk, m, r, q) && 0 <= m < q && Cong(pk, msk, q) && Cong(sigma, msk * c1, q)
    ensures Add(c2, Neg(Rem(sigma, q), q), q) == m
  {
    hide Cong, Rem, Neg, Add;
    DecryptCong(c1, c2, pk, m, r, msk, sigma, q);
    SubtractCong(c2, sigma, q);
    CongTrans(Add(c2, Neg(Rem(sigma, q), q), q), c2 - sigma, m, q);
    CongSmall(Add(c2, Neg(Rem(sigma, q), q), q), m, q);
  }

  lemma DecryptCong(c1: Point, c2: Point, pk: Point, m: int, r: int, msk: int, sigma: int, q: int)
    requires q > 1 && Encrypts(c1, c2, pk, m, r, q) && Cong(pk, msk, q) && Cong(sigma, msk * c1, q)
    ensures Cong(c2 - sigma, m, q)
  {
    CongMul(msk, pk, c1, r, q);
    CongAdd(c2, pk * r + m, sigma, pk * r, q);
  }

  lemma SubtractCong(c2: Point, sigma: int, q: int)
    requires q > 1
    ensures Cong(Add(c2, Neg(Rem(sigma, q), q), q), c2 - sigma, q)
  {
    CongMod(sigma, q);
    CongMod(-Rem(sigma, q), q);
    CongAdd(0, 0, Rem(sigma, q), sigma, q);
    CongAdd(c2, c2, Neg(Rem(sigma, q), q), -sigma, q);
    CongMod(c2 + Neg(Rem(sigma, q), q), q);
  }

  // ----- the whole pipeline -----

  /** Every candidate of the aggregate has a quorum of counted shares, all of them sound, and none
      on which verification raises. */
  ghost predicate Decryptable(s: Suite, inp: Inputs, key: KeyResult)
    requires s.q > 1
  {
    && |inp.committee| == |key.committee| && DistinctKeypers(inp.shares)
    && forall j :: 0 <= j < |inp.aggregates| ==> DecryptableAt(s, inp, key, j)
  }

  ghost predicate DecryptableAt(s: Suite, inp: Inputs, key: KeyResult, j: nat)
    requires s.q > 1 && |inp.committee| == |key.committee| && j < |inp.aggregates|
  {
    var c1, c2 := s.decode2(inp.aggregates[j].0), s.decode2(inp.aggregates[j].1);
    c1.Some? && c2.Some? ==>
      && |Counted(s, inp, j, c1.value, c2.value, inp.shares)| >= inp.quorum
      && (forall i :: 0 <= i < |inp.shares| ==> !Stumbles(s, inp, j, inp.shares[i]))
      && SoundAt(s, inp, key, j, c1.value, c2.value)
  }

  ghost predicate SoundAt(s: Suite, inp: Inputs, key: KeyResult, j: nat, c1: Point, c2: Point)
    requires s.q > 1 && |inp.committee| == |key.committee|
  {
    forall i :: 0 <= i < |inp.shares| ==> ShareSound(s, inp, key, j, c1, c2, inp.shares[i])
  }

  ghost predicate AllSound(s: Suite, inp: Inputs, key: KeyResult)
    requires s.q > 1 && |inp.committee| == |key.committee|
  {
    forall j :: 0 <= j < |inp.aggregates| ==>
      var c1, c2 := s.decode2(inp.aggregates[j].0), s.decode2(inp.aggregates[j].1);
      c1.Some? && c2.Some? ==> SoundAt(s, inp, key, j, c1.value, c2.value)
  }

  /** A key on a polynomial of t coefficients, admitted ballots that encrypt votes spending
      exactly the budget, the aggregate built from them, a quorum of sound shares per
      candidate, and a bound below the group order. */
  ghost predicate HonestElection(s: Suite, config: Config, key: KeyResult, f: seq<int>, a: AdmissionResult,
                                 os: seq<Opening>, inp: Inputs)
  {
    && s.Valid() && IsPrime(s.q) && config.Valid() && config.threshold.n < s.q
    && OnPolynomial(key, f, config.threshold.n, s.q) && |f| <= config.threshold.t == inp.quorum
    && AllOpen(s, key.pk, a.admitted, os, config.numCandidates)
    && SpendExactly(os, config.budget, config.numCandidates)
    && (forall i :: 0 <= i < |a.admitted| ==> Weight(a.admitted[i]) >= 0)
    && inp.aggregates == TallyOf(s, config, a).aggregates && Decryptable(s, inp, key)
    && BsgsBound(config, TallyOf(s, config, a).totalScaledWeight) < s.q
  }

  /** End-to-end tally: the solver's only possible answer is the vector of weighted totals, the
      totals together are budget times the scaled weight, and the checker accepts them and
      nothing else. */
  lemma EndToEndTally(s: Suite, config: Config, key: KeyResult, f: seq<int>, a: AdmissionResult, os: seq<Opening>,
                      inp: Inputs)
    requires HonestElection(s, config, key, f, a, os, inp)
    ensures var totals := Totals(a.admitted, os, config.scale, config.numCandidates);
            var bound := BsgsBound(config, TallyOf(s, config, a).totalScaledWeight);
            && bound == SumVotes(totals) == config.budget * ScaledTotal(a.admitted, config.scale) >= 0
            && (forall t :: RecoversTo(s, inp, bound, t) <==> t == totals)
            && (forall t :: CheckAccepts(s, inp, Exact, bound, t) <==> t == totals)
  {
    hide RecoversTo, CheckAccepts, Totals, ScaledTotal, HonestElection, TallyOf;
    Conserved(s, config, key, f, a, os, inp);
    TotalsRecovered(s, config, key, f, a, os, inp);
    var totals := Totals(a.admitted, os, config.scale, config.numCandidates);
    forall t ensures RecoversTo(s, inp, SumVotes(totals), t) <==> t == totals
             ensures CheckAccepts(s, inp, Exact, SumVotes(totals), t) <==> t == totals
    {
      OneRecovery(s, inp, SumVotes(totals), t, totals);
    }
  }

  lemma Conserved(s: Suite, config: Config, key: KeyResult, f: seq<int>, a: AdmissionResult, os: seq<Opening>,
                  inp: Inputs)
    requires HonestElection(s, config, key, f, a, os, inp)
    ensures s.q > 1 && config.Valid() && |os| == |a.admitted|
    ensures forall i :: 0 <= i < |os| ==> |os[i].votes| == config.numCandidates
    ensures var totals := Totals(a.admitted, os, config.scale, config.numCandidates);
            var bound := BsgsBound(config, TallyOf(s, config, a).totalScaledWeight);
            0 <= bound == SumVotes(totals) == config.budget * ScaledTotal(a.admitted, config.scale) < s.q
  {
    hide Totals, ScaledTotal, OnPolynomial, Decryptable, IsPrime;
    TotalsConserve(a.admitted, os, config.scale, config.numCandidates, config.budget);
    TotalWithinBound(a.admitted, os, config.scale, config.numCandidates, config.budget, 0);
  }

  lemma OneRecovery(s: Suite, inp: Inputs, bound: int, a: seq<int>, b: seq<int>)
    requires s.q > 1 && bound < s.q && RecoversTo(s, inp, bound, b) && SumVotes(b) == bound
    ensures RecoversTo(s, inp, bound, a) <==> a == b
    ensures CheckAccepts(s, inp, Exact, bound, a) <==> a == b
  {
    hide DerivedUpTo, SolvesAll, CheckAccepts;
    AcceptedIsRecovered(s, inp, Exact, bound, a);
    if RecoversTo(s, inp, bound, a) {
      SolvesAllUnique(DerivedUpTo(s, inp, |inp.aggregates|).taus, a, b, bound, s.q);
    }
  }

  lemma TotalsRecovered(s: Suite, config: Config, key: KeyResult, f: seq<int>, a: AdmissionResult, os: seq<Opening>,
                        inp: Inputs)
    requires HonestElection(s, config, key, f, a, os, inp)
    ensures var totals := Totals(a.admitted, os, config.scale, config.numCandidates);
            SumVotes(totals) >= 0 && RecoversTo(s, inp, SumVotes(totals), totals)
  {
    hide ScaledWeight, Encrypts, ShareSound, TauOf, Counted, OnPolynomial, Rem, Mul, IsPrime, DerivedUpTo;
    var m: nat := config.numCandidates;
    var totals := Totals(a.admitted, os, config.scale, m);
    var bound := SumVotes(totals);
    Conserved(s, config, key, f, a, os, inp);
    forall j | 0 <= j < m
      ensures TauOf(s, inp, j).Tau? && TauOf(s, inp, j).tau == totals[j]
      ensures 0 <= totals[j] <= bound && Mul(G2, totals[j], s.q) == totals[j]
    {
      TotalWithinBound(a.admitted, os, config.scale, m, config.budget, j);
      CandidateRecovered(s, config, key, f, a, os, inp, j);
      SmallPoint(totals[j], s.q);
    }
    DerivedIff(s, inp, m);
  }

  lemma SmallPoint(t: int, q: int)
    requires q > 1 && 0 <= t < q
    ensures Mul(G2, t, q) == t
  {
    ModUnique(t, 0, t, q);
  }

  lemma CandidateRecovered(s: Suite, config: Config, key: KeyResult, f: seq<int>, a: AdmissionResult, os: seq<Opening>,
                           inp: Inputs, j: nat)
    requires s.Valid() && IsPrime(s.q) && config.Valid() && config.threshold.n < s.q && j < config.numCandidates
    requires OnPolynomial(key, f, config.threshold.n, s.q) && |f| <= config.threshold.t == inp.quorum
    requires AllOpen(s, key.pk, a.admitted, os, config.numCandidates)
    requires inp.aggregates == TallyOf(s, config, a).aggregates && Decryptable(s, inp, key)
    requires 0 <= WeightedSum(a.admitted, Votes(os), config.scale, j) < s.q
    ensures TauOf(s, inp, j).Tau? && TauOf(s, inp, j).tau == WeightedSum(a.admitted, Votes(os), config.scale, j)
  {
    hide ScaledWeight, Encrypts, ShareSound, TauOf, Counted, Cong, IsPrime, WeightedC1, WeightedC2, WeightedSum;
    var c1 := Rem(WeightedC1(s, a.admitted, config.scale, j), s.q);
    var c2 := Rem(WeightedC2(s, a.admitted, config.scale, j), s.q);
    AggregateEncrypts(s, key.pk, a.admitted, os, config.numCandidates, config.scale, j);
    EncodedPair(s, c1, c2);
    assert DecryptableAt(s, inp, key, j);
    TauIsPlaintext(s, inp, key, f, config.threshold.n, j, c1, c2, WeightedSum(a.admitted, Votes(os), config.scale, j),
                   WeightedSum(a.admitted, Nonces(os), config.scale, j));
  }

  lemma EncodedPair(s: Suite, c1: Point, c2: Point)
    requires s.Valid() && IsPoint(c1, s.q) && IsPoint(c2, s.q)
    ensures s.decode2(s.encode2(c1)) == Some(c1) && s.decode2(s.encode2(c2)) == Some(c2)
  {
  }

  // ----- from key generation -----

  /** A keyper that passed round 2 holds the exponent of its own committee key whenever it
      publishes the key that finalized, so its decryption share counts for every candidate. */
  lemma CommitteeShareCounts(s: Suite, all: Commitments, received: map<int, int>, me: nat, n: nat, t: nat,
                             key: KeyResult, inp: Inputs, share: ShareEnvelope, j: nat)
    requires s.q > 1 && t > 0 && 1 <= me <= n && Publishes(all, n, t, s.q, key)
    requires received.Keys == all.Keys && Round2Accepts(all, received, me, t, s.q)
    requires CommitteeOf(s, inp.committee, key) && share.keyperIndex == me && j < |inp.aggregates|
    requires ShareOk(s, inp.electionId, inp.aggregates, Rem(SumMap(received), s.q), share)
    ensures s.decode2(inp.aggregates[j].0).Some? && s.decode2(inp.aggregates[j].1).Some?
    ensures Counts(s, inp, j, s.decode2(inp.aggregates[j].0).value, s.decode2(inp.aggregates[j].1).value, share)
  {
    hide Counts, ShareOk, Round2Accepts, Mul, Rem, Publishes, SumMap;
    OwnCommitteeKey(all, received, me, n, t, s.q, key);
    HonestShareCounts(s, inp, share, Rem(SumMap(received), s.q), j);
  }

  lemma OwnCommitteeKey(all: Commitments, received: map<int, int>, me: nat, n: nat, t: nat, q: int, key: KeyResult)
    requires q > 1 && t > 0 && 1 <= me <= n && Publishes(all, n, t, q, key)
    requires received.Keys == all.Keys && Round2Accepts(all, received, me, t, q)
    ensures |key.committee| == n && Mul(G2, Rem(SumMap(received), q), q) == key.committee[me - 1]
  {
    hide Round2Accepts, Mul, OnPolynomial;
    PublishersShareOnePolynomial(all, all, received, me, n, t, q, key);
  }

  /** What a keyper that passed round 2 contributes to the tally. */
  datatype Keyper = Keyper(commitments: Commitments, received: map<int, int>)

  /** The share at position `i` was made by a keyper that passed round 2 and published `key`. */
  ghost predicate FromKeyper(s: Suite, inp: Inputs, n: nat, key: KeyResult, share: ShareEnvelope, k: Keyper)
    requires s.q > 1
  {
    && 1 <= share.keyperIndex <= n && Publishes(k.commitments, n, inp.quorum, s.q, key)
    && k.received.Keys == k.commitments.Keys
    && Round2Accepts(k.commitments, k.received, share.keyperIndex, inp.quorum, s.q)
    && ShareOk(s, inp.electionId, inp.aggregates, Rem(SumMap(k.received), s.q), share)
  }

  /** Election id, candidates and committee fit the decryption transcript. */
  ghost predicate Encodable(inp: Inputs)
  {
    |inp.electionId| == 32 && |inp.aggregates| <= 0x1_0000 && |inp.committee| < 0x1_0000
  }

  lemma EncodableNeverStumbles(s: Suite, inp: Inputs, j: nat)
    requires s.q > 1 && Encodable(inp) && j < |inp.aggregates|
    ensures forall i :: 0 <= i < |inp.shares| ==> !Stumbles(s, inp, j, inp.shares[i])
  {
  }

  /** With a quorum of keypers that passed round 2 and published one key, every election whose
      admitted ballots are well formed is an honest election in the sense above: the published
      key lies on one polynomial of t coefficients and every candidate has enough shares. */
  lemma DkgQuorumDecrypts(s: Suite, inp: Inputs, n: nat, key: KeyResult, keypers: map<int, Keyper>)
    requires s.q > 1 && inp.quorum > 0 && CommitteeOf(s, inp.committee, key) && DistinctKeypers(inp.shares)
    requires Encodable(inp) && |keypers.Keys| >= inp.quorum
    requires forall i :: i in keypers ==> 0 <= i < |inp.shares| && FromKeyper(s, inp, n, key, inp.shares[i], keypers[i])
    requires AllSound(s, inp, key)
    ensures Decryptable(s, inp, key)
    ensures exists f :: |f| == inp.quorum && OnPolynomial(key, f, n, s.q)
  {
    hide SoundAt, Counts, FromKeyper, OnPolynomial, Stumbles;
    HasKey(keypers);
    var k :| k in keypers;
    KeyFromKeyper(s, inp, n, key, inp.shares[k], keypers[k]);
    forall j | 0 <= j < |inp.aggregates| ensures DecryptableAt(s, inp, key, j) {
      var c1, c2 := s.decode2(inp.aggregates[j].0), s.decode2(inp.aggregates[j].1);
      EncodableNeverStumbles(s, inp, j);
      if c1.Some? && c2.Some? {
        forall i | i in keypers ensures Counts(s, inp, j, c1.value, c2.value, inp.shares[i]) {
          KeyperCounts(s, inp, n, key, inp.shares[i], keypers[i], j);
        }
        CountedAtLeast(s, inp, j, c1.value, c2.value, inp.shares, keypers.Keys);
      }
    }
  }

  lemma KeyperCounts(s: Suite, inp: Inputs, n: nat, key: KeyResult, share: ShareEnvelope, k: Keyper, j: nat)
    requires s.q > 1 && inp.quorum > 0 && CommitteeOf(s, inp.committee, key) && j < |inp.aggregates|
    requires FromKeyper(s, inp, n, key, share, k)
    ensures s.decode2(inp.aggregates[j].0).Some? && s.decode2(inp.aggregates[j].1).Some?
    ensures Counts(s, inp, j, s.decode2(inp.aggregates[j].0).value, s.decode2(inp.aggregates[j].1).value, share)
  {
    hide Counts, ShareOk, Round2Accepts, Publishes;
    CommitteeShareCounts(s, k.commitments, k.received, share.keyperIndex, n, inp.quorum, key, inp, share, j);
  }

  lemma KeyFromKeyper(s: Suite, inp: Inputs, n: nat, key: KeyResult, share: ShareEnvelope, k: Keyper)
    requires s.q > 1 && inp.quorum > 0 && FromKeyper(s, inp, n, key, share, k)
    ensures exists f :: |f| == inp.quorum && OnPolynomial(key, f, n, s.q)
  {
    hide Round2Accepts, ShareOk, OnPolynomial;
    PublishedOnJoint(k.commitments, n, inp.quorum, s.q, key);
  }

  lemma PipelineEncodable(s: Suite, config: Config, a: AdmissionResult, key: KeyResult, inp: Inputs,
                          keypers: map<int, Keyper>)
    requires s.q > 1 && config.Valid() && config.threshold.n < 0x1_0000 && |inp.electionId| == 32
    requires CommitteeOf(s, inp.committee, key) && 1 <= inp.quorum <= |keypers.Keys|
    requires forall i :: i in keypers ==>
               0 <= i < |inp.shares| && FromKeyper(s, inp, config.threshold.n, key, inp.shares[i], keypers[i])
    requires inp.aggregates == TallyOf(s, config, a).aggregates
    ensures Encodable(inp)
  {
    hide Round2Accepts, ShareOk, AggregateBytes;
    HasKey(keypers);
    var i :| i in keypers;
    assert Publishes(keypers[i].commitments, config.threshold.n, inp.quorum, s.q, key);
  }

  /** The whole pipeline: a quorum of keypers that passed round 2 and published one key, ballots
      admitted by the deterministic rules whose proofs hold what they claim, and the aggregate
      built from them. The result is fixed: the weighted totals of the admitted votes. */
  lemma TallyPipeline(s: Suite, verify: VerifyAttestation, config: Config, ballots: seq<StoredBallot>, os: seq<Opening>,
                      key: KeyResult, inp: Inputs, keypers: map<int, Keyper>)
    requires s.Valid() && IsPrime(s.q) && config.Valid() && config.threshold.n < s.q && config.threshold.n < 0x1_0000
    requires DistinctSeq(ballots) && |inp.electionId| == 32
    requires CommitteeOf(s, inp.committee, key) && DistinctKeypers(inp.shares) && AllSound(s, inp, key)
    requires inp.quorum == config.threshold.t <= |keypers.Keys|
    requires forall i :: i in keypers ==>
               0 <= i < |inp.shares| && FromKeyper(s, inp, config.threshold.n, key, inp.shares[i], keypers[i])
    requires var a := Admit(ballots, JudgeOf(s, verify, config, key.pk), config.policy);
             && AllOpen(s, key.pk, a.admitted, os, config.numCandidates)
             && SpendExactly(os, config.budget, config.numCandidates)
             && inp.aggregates == TallyOf(s, config, a).aggregates
             && BsgsBound(config, TallyOf(s, config, a).totalScaledWeight) < s.q
    ensures var a := Admit(ballots, JudgeOf(s, verify, config, key.pk), config.policy);
            var totals := Totals(a.admitted, os, config.scale, config.numCandidates);
            var bound := BsgsBound(config, TallyOf(s, config, a).totalScaledWeight);
            && bound == SumVotes(totals) == config.budget * ScaledTotal(a.admitted, config.scale) >= 0
            && (forall t :: RecoversTo(s, inp, bound, t) <==> t == totals)
            && (forall t :: CheckAccepts(s, inp, Exact, bound, t) <==> t == totals)
  {
    hide RecoversTo, CheckAccepts, Totals, ScaledTotal, TallyOf, FromKeyper, Admit, AllOpen, SpendExactly, OnPolynomial,
         IsPrime, Decryptable, Aggregable, AllSound, CommitteeOf, DistinctKeypers, JudgeOf, Encodable;
    var a := Admit(ballots, JudgeOf(s, verify, config, key.pk), config.policy);
    PipelineEncodable(s, config, a, key, inp, keypers);
    AdmittedAggregates(s, verify, config, key.pk, ballots);
    DkgQuorumDecrypts(s, inp, config.threshold.n, key, keypers);
    var f :| |f| == inp.quorum && OnPolynomial(key, f, config.threshold.n, s.q);
    EndToEndTally(s, config, key, f, a, os, inp);
  }
}
