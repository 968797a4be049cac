/** Establishing a result from decryption shares (core/aggregation.py): share verification and
    combination, the solver and the checker. */
module Recovery {
  import opened Field
  import opened Group
  import opened Bytes
  import opened Transcripts
  import opened Proofs
  import opened Lagrange
  import opened BabySteps
  import opened BallotMessage
  import opened Ballot
  import opened Election
  import opened Aggregation

  // ----- DLEQ codec -----

  function EncodeDleq(e: int, z: int, q: int): bytes
    requires q > 0
  {
    ScalarToBytes(e, q) + ScalarToBytes(z, q)
  }

  function DecodeDleq(b: bytes, q: int): Option<(int, int)>
    requires q > 0
  {
    if |b| != 64 then None
    else
      var e, z := ScalarFromBytes(b[..32], q), ScalarFromBytes(b[32..], q);
      if e.None? || z.None? then None else Some((e.value, z.value))
  }

  /** The 64-byte wire form is a bijection on reduced pairs. */
  lemma DleqIff(b: bytes, e: int, z: int, q: int)
    requires 0 < q <= Pow256(32)
    ensures DecodeDleq(b, q) == Some((e, z)) <==> 0 <= e < q && 0 <= z < q && b == EncodeDleq(e, z, q)
  {
    hide ToBE, FromBE;
    if DecodeDleq(b, q) == Some((e, z)) {
      ScalarCanonical(b[..32], q);
      ScalarCanonical(b[32..], q);
      assert b == b[..32] + b[32..];
    }
    if 0 <= e < q && 0 <= z < q && b == EncodeDleq(e, z, q) {
      assert b[..32] == ScalarToBytes(e, q) && b[32..] == ScalarToBytes(z, q);
      ScalarRoundTrip(e, q);
      ScalarRoundTrip(z, q);
      ModUnique(e, 0, e, q);
      ModUnique(z, 0, z, q);
    }
  }

  // ----- shares that count -----

  /** The public facts a tally is computed from. */
  datatype Inputs = Inputs(electionId: bytes, aggregates: seq<CipherBytes>, shares: seq<ShareEnvelope>,
                           committee: seq<bytes>, quorum: nat)

  /** A share has an entry for candidate `j`, a committee index and decodable parts; the others
      are skipped. */
  ghost predicate Presentable(s: Suite, inp: Inputs, j: nat, share: ShareEnvelope)
    requires s.q > 1
  {
    && j < |share.entries| && 1 <= share.keyperIndex <= |inp.committee|
    && s.decode2(share.entries[j].sigma).Some? && DecodeDleq(share.entries[j].proof, s.q).Some?
    && s.decode2(inp.committee[share.keyperIndex - 1]).Some?
  }

  /** Verifying it raises: the transcript cannot be seeded or the index does not fit. */
  ghost predicate Stumbles(s: Suite, inp: Inputs, j: nat, share: ShareEnvelope)
    requires s.q > 1
  {
    Presentable(s, inp, j, share) && (!Seedable(inp.electionId, j) || share.keyperIndex >= 0x1_0000)
  }

  /** A share counts for candidate `j` when it is presentable and its DLEQ proof is accepted. */
  ghost predicate Counts(s: Suite, inp: Inputs, j: nat, c1: Point, c2: Point, share: ShareEnvelope)
    requires s.q > 1
  {
    && Presentable(s, inp, j, share) && !Stumbles(s, inp, j, share)
    && var sigma, proof := s.decode2(share.entries[j].sigma).value, DecodeDleq(share.entries[j].proof, s.q).value;
       ShareAccepts(s, inp.electionId, j, c1, c2, s.decode2(inp.committee[share.keyperIndex - 1]).value, sigma,
                    proof.0, proof.1, share.keyperIndex)
  }

  ghost function Counted(s: Suite, inp: Inputs, j: nat, c1: Point, c2: Point, shares: seq<ShareEnvelope>): seq<Partial>
    requires s.q > 1
  {
    if shares == [] then []
    else
      var front, last := Counted(s, inp, j, c1, c2, shares[..|shares| - 1]), shares[|shares| - 1];
      if Counts(s, inp, j, c1, c2, last)
      then front + [Partial(last.keyperIndex, s.decode2(last.entries[j].sigma).value)] else front
  }

  /** What becomes of one candidate. */
  datatype CandidateTau = BadCandidate | TooFew | Tau(tau: Point, ids: seq<int>)

  ghost function TauOf(s: Suite, inp: Inputs, j: nat): CandidateTau
    requires s.q > 1 && j < |inp.aggregates|
  {
    var c1, c2 := s.decode2(inp.aggregates[j].0), s.decode2(inp.aggregates[j].1);
    if c1.None? || c2.None? then BadCandidate
    else if exists i :: 0 <= i < |inp.shares| && Stumbles(s, inp, j, inp.shares[i]) then BadCandidate
    else
      var valid := Counted(s, inp, j, c1.value, c2.value, inp.shares);
      if |valid| < inp.quorum then TooFew
      else
        var chosen := valid[..inp.quorum];
        var ids := Ids(chosen);
        if exists i :: 0 <= i < |chosen| && Coefficient(chosen[i].id, ids, s.q).None? then BadCandidate
        else Tau(Add(c2.value, Neg(Rem(Combined(chosen, ids, s.q), s.q), s.q), s.q), ids)
  }

  datatype Derived = BadShares | NotEnough | Taus(taus: seq<Point>, indices: seq<int>)

  /** _derive_taus over the first `k` candidates. */
  ghost function DerivedUpTo(s: Suite, inp: Inputs, k: nat): (d: Derived)
    requires s.q > 1 && k <= |inp.aggregates|
    ensures d.Taus? ==> |d.taus| == k
  {
    if k == 0 then Taus([], [])
    else
      match DerivedUpTo(s, inp, k - 1)
      case BadShares => BadShares
      case NotEnough => NotEnough
      case Taus(taus, indices) =>
        match TauOf(s, inp, k - 1)
        case BadCandidate => BadShares
        case TooFew => NotEnough
        case Tau(tau, ids) => Taus(taus + [tau], if k == 1 then ids else indices)
  }

  /** All candidates must succeed for there to be any taus. */
  lemma {:induction false} DerivedIff(s: Suite, inp: Inputs, k: nat)
    requires s.q > 1 && k <= |inp.aggregates|
    ensures DerivedUpTo(s, inp, k).Taus? <==> forall j :: 0 <= j < k ==> TauOf(s, inp, j).Tau?
    ensures DerivedUpTo(s, inp, k).Taus? ==>
              forall j :: 0 <= j < k ==> DerivedUpTo(s, inp, k).taus[j] == TauOf(s, inp, j).tau
  {
    hide TauOf;
    if k > 0 {
      DerivedIff(s, inp, k - 1);
    }
  }

  lemma {:induction false} FailureSticks(s: Suite, inp: Inputs, k: nat, n: nat)
    requires s.q > 1 && k <= n <= |inp.aggregates| && !DerivedUpTo(s, inp, k).Taus?
    ensures DerivedUpTo(s, inp, n) == DerivedUpTo(s, inp, k)
    decreases n
  {
    hide TauOf;
    if n > k {
      FailureSticks(s, inp, k, n - 1);
    }
  }

  // ----- which shares are used -----

  /** The places of the shares that count for candidate `j`, in list order and none left out. */
  ghost predicate CountingPlaces(s: Suite, inp: Inputs, j: nat, c1: Point, c2: Point, shares: seq<ShareEnvelope>,
                                 places: seq<nat>)
    requires s.q > 1
  {
    && (forall i :: 0 <= i < |places| ==> places[i] < |shares| && Counts(s, inp, j, c1, c2, shares[places[i]]))
    && (forall i, k :: 0 <= i < k < |places| ==> places[i] < places[k])
    && (forall p :: 0 <= p < |shares| && Counts(s, inp, j, c1, c2, shares[p]) ==> p in places)
  }

  /** The collected partial decryptions come from exactly those places. */
  lemma {:induction false} CountedPlaces(s: Suite, inp: Inputs, j: nat, c1: Point, c2: Point,
                                         shares: seq<ShareEnvelope>)
    returns (places: seq<nat>)
    requires s.q > 1
    ensures CountingPlaces(s, inp, j, c1, c2, shares, places)
    ensures var valid := Counted(s, inp, j, c1, c2, shares);
            |valid| == |places| && forall i :: 0 <= i < |places| ==> valid[i].id == shares[places[i]].keyperIndex
  {
    hide Counts;
    places := [];
    if shares != [] {
      var n := |shares| - 1;
      places := CountedPlaces(s, inp, j, c1, c2, shares[..n]);
      ghost var before := places;
      if Counts(s, inp, j, c1, c2, shares[n]) {
        places := places + [n];
      }
      forall p | 0 <= p < |shares| && Counts(s, inp, j, c1, c2, shares[p]) ensures p in places {
        if p < n {
          assert shares[..n][p] == shares[p] && p in before;
        }
      }
    }
  }

  /** `indices` names the first `quorum` shares in list order that count for the first candidate. */
  ghost predicate NamesFirstQuorum(s: Suite, inp: Inputs, indices: seq<int>, places: seq<nat>)
    requires s.q > 1
  {
    && |inp.aggregates| > 0
    && s.decode2(inp.aggregates[0].0).Some? && s.decode2(inp.aggregates[0].1).Some?
    && CountingPlaces(s, inp, 0, s.decode2(inp.aggregates[0].0).value, s.decode2(inp.aggregates[0].1).value,
                      inp.shares, places)
    && |indices| == inp.quorum <= |places|
    && forall i :: 0 <= i < inp.quorum ==> indices[i] == inp.shares[places[i]].keyperIndex
  }

  lemma {:induction false} IndicesOfFirst(s: Suite, inp: Inputs, k: nat)
    requires s.q > 1 && k <= |inp.aggregates| && DerivedUpTo(s, inp, k).Taus?
    ensures k == 0 ==> DerivedUpTo(s, inp, k).indices == []
    ensures k > 0 ==> TauOf(s, inp, 0).Tau? && DerivedUpTo(s, inp, k).indices == TauOf(s, inp, 0).ids
  {
    hide TauOf;
    if k > 1 {
      IndicesOfFirst(s, inp, k - 1);
    }
  }

  /** The published indices: none without candidates, otherwise those of the first counting quorum. */
  lemma PublishedIndices(s: Suite, inp: Inputs)
    requires s.q > 1 && DerivedUpTo(s, inp, |inp.aggregates|).Taus?
    ensures var indices := DerivedUpTo(s, inp, |inp.aggregates|).indices;
            if inp.aggregates == [] then indices == [] else exists places :: NamesFirstQuorum(s, inp, indices, places)
  {
    hide DerivedUpTo, Counts, Counted, Coefficient, Combined, CountingPlaces, Stumbles;
    var indices := DerivedUpTo(s, inp, |inp.aggregates|).indices;
    IndicesOfFirst(s, inp, |inp.aggregates|);
    if inp.aggregates != [] {
      var c1, c2 := s.decode2(inp.aggregates[0].0), s.decode2(inp.aggregates[0].1);
      var places := CountedPlaces(s, inp, 0, c1.value, c2.value, inp.shares);
      assert NamesFirstQuorum(s, inp, indices, places);
    }
  }

  /** Named keypers are committee members, and different ones where no keyper has two shares. */
  lemma NamedKeypers(s: Suite, inp: Inputs, indices: seq<int>, places: seq<nat>)
    requires s.q > 1 && NamesFirstQuorum(s, inp, indices, places)
    ensures forall i :: 0 <= i < |indices| ==> 1 <= indices[i] <= |inp.committee|
    ensures DistinctKeypers(inp.shares) ==> forall i, k :: 0 <= i < k < |indices| ==> indices[i] != indices[k]
  {
    hide ShareAccepts;
  }

  ghost predicate DistinctKeypers(shares: seq<ShareEnvelope>)
  {
    forall i, k :: 0 <= i < k < |shares| ==> shares[i].keyperIndex != shares[k].keyperIndex
  }

  /** Why a candidate has no tau for want of shares: both points decode, nothing stumbles, and
      fewer shares count than the quorum asks for. */
  lemma TooFewIff(s: Suite, inp: Inputs, j: nat, c1: Point, c2: Point, places: seq<nat>)
    requires s.q > 1 && j < |inp.aggregates|
    requires s.decode2(inp.aggregates[j].0) == Some(c1) && s.decode2(inp.aggregates[j].1) == Some(c2)
    requires CountingPlaces(s, inp, j, c1, c2, inp.shares, places)
    ensures TauOf(s, inp, j).TooFew? <==>
              && |places| < inp.quorum
              && forall i :: 0 <= i < |inp.shares| ==> !Stumbles(s, inp, j, inp.shares[i])
  {
    hide Counted, Coefficient, Combined, Stumbles, CountingPlaces;
    var mine := CountedPlaces(s, inp, j, c1, c2, inp.shares);
    SamePlaces(s, inp, j, c1, c2, inp.shares, mine, places);
  }

  /** There is one such list of places. */
  lemma SamePlaces(s: Suite, inp: Inputs, j: nat, c1: Point, c2: Point, shares: seq<ShareEnvelope>,
                   a: seq<nat>, b: seq<nat>)
    requires s.q > 1
    requires CountingPlaces(s, inp, j, c1, c2, shares, a) && CountingPlaces(s, inp, j, c1, c2, shares, b)
    ensures |a| == |b|
  {
    hide Counts;
    assert forall p :: p in a <==> p in b;
    IncreasingSize(a);
    IncreasingSize(b);
    assert Elements(a) == Elements(b);
  }

  ghost function Elements(a: seq<nat>): set<nat>
  {
    set p | p in a
  }

  lemma {:induction false} IncreasingSize(a: seq<nat>)
    requires forall i, k :: 0 <= i < k < |a| ==> a[i] < a[k]
    ensures |Elements(a)| == |a|
  {
    if a != [] {
      var n := |a| - 1;
      IncreasingSize(a[..n]);
      assert a == a[..n] + [a[n]];
      assert Elements(a) == Elements(a[..n]) + {a[n]};
      assert a[n] !in a[..n];
    }
  }

  /** The first candidate without a tau decides how the derivation fails. */
  lemma {:induction false} FirstFailureDecides(s: Suite, inp: Inputs, k: nat, j: nat)
    requires s.q > 1 && j < k <= |inp.aggregates| && !TauOf(s, inp, j).Tau?
    requires forall i :: 0 <= i < j ==> TauOf(s, inp, i).Tau?
    ensures DerivedUpTo(s, inp, k) == if TauOf(s, inp, j).TooFew? then NotEnough else BadShares
  {
    hide TauOf;
    DerivedIff(s, inp, j);
    FailureSticks(s, inp, j + 1, k);
  }

  datatype ShareCheck = Skipped | RaisedError | Good(part: Partial)

  method VerifyShareFor(s: Suite, inp: Inputs, j: nat, c1: Point, c2: Point, share: ShareEnvelope)
    returns (r: ShareCheck)
    requires s.q > 1
    ensures r.RaisedError? <==> Stumbles(s, inp, j, share)
    ensures r.Good? <==> Counts(s, inp, j, c1, c2, share)
    ensures r.Good? ==> r.part == Partial(share.keyperIndex, s.decode2(share.entries[j].sigma).value)
  {
    hide ShareAcceptsOn, DecodeDleq, DecryptTranscript;
    if j >= |share.entries| || !(1 <= share.keyperIndex <= |inp.committee|) {
      return Skipped;
    }
    var entry := share.entries[j];
    var sigma := s.decode2(entry.sigma);
    var proof := DecodeDleq(entry.proof, s.q);
    var mpk := s.decode2(inp.committee[share.keyperIndex - 1]);
    if sigma.None? || proof.None? || mpk.None? {
      return Skipped;
    }
    var t := MakeDecryptTranscript(inp.electionId, j);
    if t == null {
      return RaisedError;
    }
    var ok := VerifyDecryptionShare(s, t, c1, c2, mpk.value, sigma.value, proof.value.0, proof.value.1,
                                    share.keyperIndex);
    if ok.None? {
      return RaisedError;
    }
    r := if ok.value then Good(Partial(share.keyperIndex, sigma.value)) else Skipped;
  }

  /** The loop over the shares of one candidate; nothing where it raises. */
  method CollectShares(s: Suite, inp: Inputs, j: nat, c1: Point, c2: Point) returns (r: Option<seq<Partial>>)
    requires s.q > 1
    ensures r.None? <==> exists i :: 0 <= i < |inp.shares| && Stumbles(s, inp, j, inp.shares[i])
    ensures r.Some? ==> r.value == Counted(s, inp, j, c1, c2, inp.shares)
  {
    hide Counts, Stumbles;
    var valid: seq<Partial> := [];
    for i := 0 to |inp.shares|
      invariant valid == Counted(s, inp, j, c1, c2, inp.shares[..i])
      invariant forall k :: 0 <= k < i ==> !Stumbles(s, inp, j, inp.shares[k])
    {
      assert inp.shares[..i + 1][..i] == inp.shares[..i];
      var c := VerifyShareFor(s, inp, j, c1, c2, inp.shares[i]);
      match c {
        case RaisedError => return None;
        case Skipped =>
        case Good(part) => valid := valid + [part];
      }
    }
    assert inp.shares[..|inp.shares|] == inp.shares;
    r := Some(valid);
  }

  method DeriveTau(s: Suite, inp: Inputs, j: nat) returns (r: CandidateTau)
    requires s.q > 1 && j < |inp.aggregates|
    ensures r == TauOf(s, inp, j)
  {
    hide Counted, Coefficient, Combined, Stumbles;
    var c1 := s.decode2(inp.aggregates[j].0);
    var c2 := s.decode2(inp.aggregates[j].1);
    if c1.None? || c2.None? {
      return BadCandidate;
    }
    var valid := CollectShares(s, inp, j, c1.value, c2.value);
    if valid.None? {
      return BadCandidate;
    }
    if |valid.value| < inp.quorum {
      return TooFew;
    }
    var chosen := valid.value[..inp.quorum];
    var sigma := CombineShares(chosen, s.q);
    if sigma.None? {
      return BadCandidate;
    }
    r := Tau(Add(c2.value, Neg(sigma.value, s.q), s.q), Ids(chosen));
  }

  method DeriveTaus(s: Suite, inp: Inputs) returns (d: Derived)
    requires s.q > 1
    ensures d == DerivedUpTo(s, inp, |inp.aggregates|)
  {
    hide TauOf;
    var taus: seq<Point> := [];
    var indices: seq<int> := [];
    for j := 0 to |inp.aggregates|
      invariant DerivedUpTo(s, inp, j) == Taus(taus, indices)
    {
      var c := DeriveTau(s, inp, j);
      if !c.Tau? {
        FailureSticks(s, inp, j + 1, |inp.aggregates|);
        return if c.TooFew? then NotEnough else BadShares;
      }
      taus := taus + [c.tau];
      if j == 0 {
        indices := c.ids;
      }
    }
    d := Taus(taus, indices);
  }

  // ----- solving and checking -----

  datatype Recovered = Infeasible | RecoveryRaises | NoResult | Found(result: ResultArtifact)

  /** `totals` are exponents of every candidate's tau that a search up to the bound may return. */
  ghost predicate SolvesAll(taus: seq<Point>, totals: seq<int>, bound: int, q: int)
    requires q > 1
  {
    |totals| == |taus| && forall j :: 0 <= j < |totals| ==> totals[j] >= 0 && Solves(totals[j], taus[j], bound, q)
  }

  /** What a caller hands to the solver and the checker. */
  function InputsOf(config: Config, agg: Artifact, shares: seq<ShareEnvelope>, committee: seq<bytes>,
                    quorum: nat): Inputs
  {
    Inputs(config.electionId, agg.tally.aggregates, shares, committee, quorum)
  }

  /** recover_result: the ceiling first, then the shares, then one table for all candidates. For
      every bound it finds totals exactly where there are some. */
  method RecoverResult(s: Suite, config: Config, agg: Artifact, shares: seq<ShareEnvelope>, committee: seq<bytes>,
                       quorum: nat, ceiling: Option<int>)
    returns (r: Recovered)
    requires s.q > 1
    ensures var inp := InputsOf(config, agg, shares, committee, quorum);
            var bound := BsgsBound(config, agg.tally.totalScaledWeight);
            && (r.Infeasible? <==> ceiling.Some? && bound > ceiling.value)
            && (!r.Infeasible? ==> (r.RecoveryRaises? <==> DerivedUpTo(s, inp, |inp.aggregates|).BadShares?))
            && (r.Found? <==> !r.Infeasible? && Recoverable(s, inp, bound))
            && (r.Found? ==> RecoversTo(s, inp, bound, r.result.totals))
            && (r.Found? ==> r.result == ResultArtifact(config.electionId, r.result.totals,
                                           DerivedUpTo(s, inp, |inp.aggregates|).indices, bound))
            && (r.Found? && inp.aggregates != [] ==>
                  exists places :: NamesFirstQuorum(s, inp, r.result.keyperIndices, places))
  {
    hide TauOf, DerivedUpTo, Solves, NamesFirstQuorum;
    var bound := BsgsBound(config, agg.tally.totalScaledWeight);
    var inp := InputsOf(config, agg, shares, committee, quorum);
    if ceiling.Some? && bound > ceiling.value {
      return Infeasible;
    }
    var d := DeriveTaus(s, inp);
    if d.BadShares? {
      return RecoveryRaises;
    }
    if d.NotEnough? {
      return NoResult;
    }
    TausArePoints(s, inp, |inp.aggregates|);
    var table := BuildBabyStepTable(bound, s.q);
    var totals: seq<int> := [];
    for j := 0 to |d.taus|
      invariant |totals| == j
      invariant forall k :: 0 <= k < j ==> totals[k] >= 0 && Solves(totals[k], d.taus[k], bound, s.q)
    {
      var m := WalkTable(d.taus[j], table, s.q);
      if m.None? {
        Unsolvable(s, inp, bound, d, j);
        return NoResult;
      }
      totals := totals + [m.value];
    }
    assert RecoversTo(s, inp, bound, totals);
    PublishedIndices(s, inp);
    r := Found(ResultArtifact(inp.electionId, totals, d.indices, bound));
  }

  /** The totals recover_result may return on these inputs. */
  ghost predicate RecoversTo(s: Suite, inp: Inputs, bound: int, totals: seq<int>)
    requires s.q > 1
  {
    var d := DerivedUpTo(s, inp, |inp.aggregates|);
    d.Taus? && SolvesAll(d.taus, totals, bound, s.q)
  }

  ghost predicate Recoverable(s: Suite, inp: Inputs, bound: int)
    requires s.q > 1
  {
    exists totals :: RecoversTo(s, inp, bound, totals)
  }

  lemma Unsolvable(s: Suite, inp: Inputs, bound: int, d: Derived, j: nat)
    requires s.q > 1 && d == DerivedUpTo(s, inp, |inp.aggregates|) && d.Taus? && j < |d.taus|
    requires forall m: nat :: !Solves(m, d.taus[j], bound, s.q)
    ensures !Recoverable(s, inp, bound)
  {
    hide DerivedUpTo;
    forall totals: seq<int> | RecoversTo(s, inp, bound, totals) ensures false {
      SolvedAt(d.taus, totals, bound, s.q, j);
    }
  }

  lemma SolvedAt(taus: seq<Point>, totals: seq<int>, bound: int, q: int, j: nat)
    requires q > 1 && SolvesAll(taus, totals, bound, q) && j < |taus|
    ensures exists m: nat :: Solves(m, taus[j], bound, q)
  {
    assert Solves(totals[j], taus[j], bound, q);
  }

  lemma {:induction false} TausArePoints(s: Suite, inp: Inputs, k: nat)
    requires s.q > 1 && k <= |inp.aggregates| && DerivedUpTo(s, inp, k).Taus?
    ensures forall j :: 0 <= j < k ==> IsPoint(DerivedUpTo(s, inp, k).taus[j], s.q)
  {
    hide Counted, Coefficient, Combined, Stumbles;
    if k > 0 {
      TausArePoints(s, inp, k - 1);
    }
  }

  datatype Objection = WrongCount | TooFewShares | OutOfRange(j: nat) | DoesNotDecrypt(j: nat) | WrongSum | SumOverBound

  datatype CheckOutcome = CheckPasses | Objects(why: Objection) | CheckRaises

  predicate SumFits(mode: Mode, totals: seq<int>, bound: int)
  {
    match mode
    case Exact => SumVotes(totals) == bound
    case AtMost => SumVotes(totals) <= bound
  }

  /** One claimed total is in range and is an exponent of its tau. */
  ghost predicate FitsAt(taus: seq<Point>, claimed: seq<int>, bound: int, q: int, j: nat)
    requires q > 1 && j < |taus| == |claimed|
  {
    0 <= claimed[j] <= bound && Mul(G2, claimed[j], q) == taus[j]
  }

  ghost predicate AllFit(taus: seq<Point>, claimed: seq<int>, bound: int, q: int, k: nat)
    requires q > 1 && k <= |taus| == |claimed|
  {
    forall j :: 0 <= j < k ==> FitsAt(taus, claimed, bound, q, j)
  }

  /** The first claimed total that does not fit. */
  ghost predicate FirstMisfit(taus: seq<Point>, claimed: seq<int>, bound: int, q: int, j: nat)
    requires q > 1 && |taus| == |claimed|
  {
    j < |claimed| && AllFit(taus, claimed, bound, q, j) && !FitsAt(taus, claimed, bound, q, j)
  }

  lemma OneFirstMisfit(taus: seq<Point>, claimed: seq<int>, bound: int, q: int)
    requires q > 1 && |taus| == |claimed|
    ensures forall i, j :: FirstMisfit(taus, claimed, bound, q, i) && FirstMisfit(taus, claimed, bound, q, j) ==> i == j
    ensures forall j :: FirstMisfit(taus, claimed, bound, q, j) ==> !AllFit(taus, claimed, bound, q, |claimed|)
  {
    hide FitsAt;
  }

  ghost predicate CheckAccepts(s: Suite, inp: Inputs, mode: Mode, bound: int, claimed: seq<int>)
    requires s.q > 1
  {
    var d := DerivedUpTo(s, inp, |inp.aggregates|);
    d.Taus? && |claimed| == |d.taus| && AllFit(d.taus, claimed, bound, s.q, |claimed|) && SumFits(mode, claimed, bound)
  }

  /** What each outcome of the check means. */
  ghost predicate CheckSays(s: Suite, inp: Inputs, mode: Mode, bound: int, claimed: seq<int>, r: CheckOutcome)
    requires s.q > 1
  {
    var d := DerivedUpTo(s, inp, |inp.aggregates|);
    var counted := |claimed| == |inp.aggregates|;
    match r
    case CheckPasses => CheckAccepts(s, inp, mode, bound, claimed)
    case CheckRaises => counted && d.BadShares?
    case Objects(why) =>
      match why
      case WrongCount => !counted
      case TooFewShares => counted && d.NotEnough?
      case OutOfRange(j) =>
        counted && d.Taus? && FirstMisfit(d.taus, claimed, bound, s.q, j) && !(0 <= claimed[j] <= bound)
      case DoesNotDecrypt(j) =>
        counted && d.Taus? && FirstMisfit(d.taus, claimed, bound, s.q, j) && 0 <= claimed[j] <= bound
      case WrongSum =>
        && counted && d.Taus? && AllFit(d.taus, claimed, bound, s.q, |claimed|)
        && mode == Exact && !SumFits(mode, claimed, bound)
      case SumOverBound =>
        && counted && d.Taus? && AllFit(d.taus, claimed, bound, s.q, |claimed|)
        && mode == AtMost && !SumFits(mode, claimed, bound)
  }

  /** check_result: no search, one multiplication per claimed total, and the first thing wrong. */
  method CheckResult(s: Suite, config: Config, agg: Artifact, shares: seq<ShareEnvelope>, committee: seq<bytes>,
                     quorum: nat, claimed: seq<int>)
    returns (r: CheckOutcome)
    requires s.q > 1
    ensures CheckSays(s, InputsOf(config, agg, shares, committee, quorum), config.mode,
                      BsgsBound(config, agg.tally.totalScaledWeight), claimed, r)
  {
    hide TauOf, DerivedUpTo;
    var bound := BsgsBound(config, agg.tally.totalScaledWeight);
    var inp := InputsOf(config, agg, shares, committee, quorum);
    if |claimed| != |inp.aggregates| {
      return Objects(WrongCount);
    }
    var d := DeriveTaus(s, inp);
    if d.BadShares? {
      return CheckRaises;
    }
    if d.NotEnough? {
      return Objects(TooFewShares);
    }
    for j := 0 to |claimed|
      invariant AllFit(d.taus, claimed, bound, s.q, j)
    {
      if !(0 <= claimed[j] <= bound) {
        return Objects(OutOfRange(j));
      }
      if Mul(G2, claimed[j], s.q) != d.taus[j] {
        return Objects(DoesNotDecrypt(j));
      }
    }
    var summed := SumOf(claimed);
    match config.mode {
      case Exact => if summed != bound { return Objects(WrongSum); }
      case AtMost => if summed > bound { return Objects(SumOverBound); }
    }
    return CheckPasses;
  }

  method SumOf(claimed: seq<int>) returns (summed: int)
    ensures summed == SumVotes(claimed)
  {
    summed := 0;
    for j := 0 to |claimed|
      invariant summed == SumVotes(claimed[..j])
    {
      assert claimed[..j + 1][..j] == claimed[..j];
      summed := summed + claimed[j];
    }
    assert claimed[..|claimed|] == claimed;
  }

  /** The meanings exclude each other: every call has one outcome, and it passes exactly on what
      CheckAccepts describes. */
  lemma CheckDetermined(s: Suite, inp: Inputs, mode: Mode, bound: int, claimed: seq<int>, r: CheckOutcome,
                        r': CheckOutcome)
    requires s.q > 1 && CheckSays(s, inp, mode, bound, claimed, r) && CheckSays(s, inp, mode, bound, claimed, r')
    ensures r == r'
    ensures r.CheckPasses? <==> CheckAccepts(s, inp, mode, bound, claimed)
  {
    hide DerivedUpTo, SumFits, AllFit, FirstMisfit;
    var d := DerivedUpTo(s, inp, |inp.aggregates|);
    if d.Taus? && |claimed| == |d.taus| {
      OneFirstMisfit(d.taus, claimed, bound, s.q);
    }
  }

  /** Below the group order a vector of taus has one vector of totals at most. */
  lemma SolvesAllUnique(taus: seq<Point>, a: seq<int>, b: seq<int>, bound: int, q: int)
    requires q > 1 && bound < q && SolvesAll(taus, a, bound, q) && SolvesAll(taus, b, bound, q)
    ensures a == b
  {
    forall j | 0 <= j < |a| ensures a[j] == b[j] {
      SolvesUnique(a[j], taus[j], bound, q);
      SolvesUnique(b[j], taus[j], bound, q);
    }
  }

  lemma FitsIsSolves(taus: seq<Point>, claimed: seq<int>, bound: nat, q: int)
    requires q > 1 && |taus| == |claimed|
    ensures AllFit(taus, claimed, bound, q, |claimed|) <==> SolvesAll(taus, claimed, bound, q)
  {
    hide Mul;
    forall j | 0 <= j < |claimed|
      ensures FitsAt(taus, claimed, bound, q, j) <==> claimed[j] >= 0 && Solves(claimed[j], taus[j], bound, q)
    {
    }
  }

  /** Accepting is recovering within the bound with a fitting sum. */
  lemma AcceptedIsRecovered(s: Suite, inp: Inputs, mode: Mode, bound: int, claimed: seq<int>)
    requires s.q > 1
    ensures CheckAccepts(s, inp, mode, bound, claimed) <==>
              RecoversTo(s, inp, bound, claimed) && SumFits(mode, claimed, bound)
  {
    hide DerivedUpTo, Mul;
    var d := DerivedUpTo(s, inp, |inp.aggregates|);
    if d.Taus? && |claimed| == |d.taus| {
      if bound >= 0 {
        FitsIsSolves(d.taus, claimed, bound, s.q);
      } else if RecoversTo(s, inp, bound, claimed) {
        SumZeros(claimed);
      } else if claimed != [] {
        assert !FitsAt(d.taus, claimed, bound, s.q, 0);
      }
    }
  }

  /** Checker and solver agree. Whatever the checker accepts is the one vector the solver can
      return, so it accepts one vector at most; and what the solver returns is accepted exactly
      when its sum meets the mode's condition. */
  lemma CheckerAgreesWithSolver(s: Suite, inp: Inputs, mode: Mode, bound: int, claimed: seq<int>, totals: seq<int>)
    requires s.q > 1 && bound < s.q
    ensures CheckAccepts(s, inp, mode, bound, claimed) && RecoversTo(s, inp, bound, totals) ==> claimed == totals
    ensures CheckAccepts(s, inp, mode, bound, claimed) ==> Recoverable(s, inp, bound)
    ensures RecoversTo(s, inp, bound, totals) ==>
              (CheckAccepts(s, inp, mode, bound, totals) <==>
                 if mode.Exact? then SumVotes(totals) == bound else SumVotes(totals) <= bound)
  {
    hide DerivedUpTo, SolvesAll, CheckAccepts;
    AcceptedIsRecovered(s, inp, mode, bound, claimed);
    AcceptedIsRecovered(s, inp, mode, bound, totals);
    if RecoversTo(s, inp, bound, claimed) && RecoversTo(s, inp, bound, totals) {
      SolvesAllUnique(DerivedUpTo(s, inp, |inp.aggregates|).taus, claimed, totals, bound, s.q);
    }
  }
}
