/** InMemoryDataLayer (adapters/memory.py): the reference adapter, as a class whose writes are
    the Board transitions. The clock reading is passed to every call. */
module DataLayer {
  import opened Field
  import opened Bytes
  import opened Sums
  import opened Quorum
  import opened Election
  import opened Board

  const REQUEST_FRESHNESS := 300

  /** What a signature is taken over: the fields each digest covers. */
  datatype Digest =
    | RegisterDigest(config: Config)
    | DkgDigest(electionId: bytes, vote: KeyVote)
    | BallotDigest(electionId: bytes, envelope: Envelope)
    | AggregateDigest(electionId: bytes, tally: Tally)
    | ShareDigest(electionId: bytes, sigmas: seq<bytes>, proofs: seq<(nat, nat)>)
    | RequestDigest(op: string, electionId: bytes, payload: bytes)
    | ResultDigest(electionId: bytes, result: ResultArtifact)

  /** Signature recovery: some function from digest and signature bytes to an identity. */
  type Recover = (Digest, bytes) -> Option<bytes>

  function NextId(n: nat): bytes
  {
    ToBE(n + 1, 32)
  }

  function ShareDigestOf(electionId: bytes, share: ShareEnvelope): Digest
  {
    var n := |share.entries|;
    ShareDigest(electionId,
                seq(n, i requires 0 <= i < n => share.entries[i].sigma),
                seq(n, i requires 0 <= i < n => (FromBE(Slice(share.entries[i].proof, 0, 32)),
                                                FromBE(Tail(share.entries[i].proof)))))
  }

  function Tail(proof: bytes): bytes
  {
    if |proof| < 32 then [] else proof[32..]
  }

  /** What a keyper signs for a share determines the election and every entry of well-formed
      length. The index is not covered: the data layer compares it with the signer. */
  lemma ShareDigestCovers(id: bytes, share: ShareEnvelope, id': bytes, share': ShareEnvelope)
    requires forall i :: 0 <= i < |share.entries| ==> |share.entries[i].proof| == 64
    requires forall i :: 0 <= i < |share'.entries| ==> |share'.entries[i].proof| == 64
    requires ShareDigestOf(id, share) == ShareDigestOf(id', share')
    ensures id == id' && share.entries == share'.entries
  {
    var d, d' := ShareDigestOf(id, share), ShareDigestOf(id', share');
    assert |d.sigmas| == |share.entries| && |d'.sigmas| == |share'.entries|;
    forall i | 0 <= i < |share.entries| ensures share.entries[i] == share'.entries[i] {
      assert d.sigmas[i] == d'.sigmas[i] && d.proofs[i] == d'.proofs[i];
      SameProof(share.entries[i].proof, share'.entries[i].proof);
    }
  }

  lemma SameProof(a: bytes, b: bytes)
    requires |a| == |b| == 64
    requires FromBE(Slice(a, 0, 32)) == FromBE(Slice(b, 0, 32)) && FromBE(Tail(a)) == FromBE(Tail(b))
    ensures a == b
  {
    hide FromBE;
    ToFrom(Slice(a, 0, 32));
    ToFrom(Slice(b, 0, 32));
    ToFrom(Tail(a));
    ToFrom(Tail(b));
    assert a == Slice(a, 0, 32) + Tail(a) && b == Slice(b, 0, 32) + Tail(b);
  }

  /** The effect of one write on one election, and on nothing else. */
  ghost predicate Wrote(before: map<bytes, Stored>, after: map<bytes, Stored>, id: bytes, op: Op, now: int,
                        r: Result<()>)
  {
    if id !in before then r == Fail(UnknownElection) && after == before
    else
      match Apply(before[id], op, now)
      case Fail(e) => r == Fail(e) && after == before
      case Ok(st) => r == Ok(()) && after == before[id := st]
  }

  /** Election ids count registrations from one. */
  lemma NextIdCounts(n: nat)
    requires n + 1 < Pow256(32)
    ensures FromBE(NextId(n)) == n + 1
  {
    hide ToBE, FromBE, Pow256;
    FromTo(n + 1, 32);
  }

  lemma NextIsNew(k: nat, n: nat)
    requires k < n && n + 1 < Pow256(32)
    ensures NextId(k) != NextId(n)
  {
    hide ToBE, Pow256;
    if NextId(k) == NextId(n) {
      ToBEInjective(k + 1, n + 1, 32);
    }
  }

  class InMemoryDataLayer {
    var elections: map<bytes, Stored>
    var nextId: nat
    var usedNonces: set<(bytes, bool, int)>
    const recover: Recover

    ghost predicate Valid()
      reads this
    {
      forall id :: id in elections ==>
        Inv(elections[id]) && elections[id].config.electionId == id && exists k: nat :: k < nextId && id == NextId(k)
    }

    constructor (r: Recover)
      ensures Valid() && elections == map[] && nextId == 0 && recover == r
    {
      elections, nextId, usedNonces, recover := map[], 0, {}, r;
    }

    method RegisterElection(config: Config, sig: bytes) returns (r: Result<bytes>)
      requires Valid() && config.Valid() && nextId + 1 < Pow256(32)
      modifies this
      ensures Valid()
      ensures r.Ok? <==> recover(RegisterDigest(config), sig) == Some(config.adminKey)
                         && config.electionId == NextId(old(nextId))
      ensures r.Ok? ==> r.value == config.electionId && nextId == old(nextId) + 1
                        && config.electionId !in old(elections)
                        && elections == old(elections)[config.electionId := Fresh(config)]
      ensures r.Fail? ==> unchanged(this)
    {
      hide Inv, ToBE, Pow256;
      if recover(RegisterDigest(config), sig) != Some(config.adminKey) {
        return Fail(WriteAuthorization);
      }
      var id := NextId(nextId);
      if config.electionId != id {
        return Fail(Immutability);
      }
      FreshInv(config);
      forall k: nat | k < nextId ensures NextId(k) != id {
        NextIsNew(k, nextId);
      }
      nextId := nextId + 1;
      elections := elections[id := Fresh(config)];
      return Ok(id);
    }

    method CancelElection(id: bytes, sig: bytes, now: int) returns (r: Result<()>)
      requires Valid()
      modifies this
      ensures Valid() && nextId == old(nextId)
      ensures Wrote(old(elections), elections, id, Cancel(recover(RequestDigest("cancel", id, []), sig)), now, r)
    {
      hide Inv, Wins, KeyFinalized, AggregateFinalized, KeyperIndex, NextId;
      if id !in elections {
        return Fail(UnknownElection);
      }
      var st := elections[id];
      var who := recover(RequestDigest("cancel", id, []), sig);
      ghost var op := Cancel(who);
      if now >= st.config.votingStart {
        return Fail(Immutability);
      }
      if who != Some(st.config.adminKey) {
        return Fail(WriteAuthorization);
      }
      StepKeepsInv(st, op, now);
      elections := elections[id := st.(cancelled := true)];
      return Ok(());
    }

    method SubmitDkgResult(id: bytes, vote: KeyVote, sig: bytes, now: int) returns (r: Result<()>)
      requires Valid()
      modifies this
      ensures Valid() && nextId == old(nextId)
      ensures Wrote(old(elections), elections, id, SubmitDkg(vote, recover(DkgDigest(id, vote), sig)), now, r)
    {
      hide Inv, Wins, KeyFinalized, AggregateFinalized, KeyperIndex, NextId;
      if id !in elections {
        return Fail(UnknownElection);
      }
      var st := elections[id];
      var who := recover(DkgDigest(id, vote), sig);
      ghost var op := SubmitDkg(vote, who);
      var i := KeyperIndex(st.config.keypers, who);
      if i == 0 {
        return Fail(WriteAuthorization);
      }
      if i in st.dkg {
        if st.dkg[i] != vote {
          return Fail(Immutability);
        }
        return Ok(());
      }
      StepKeepsInv(st, op, now);
      elections := elections[id := st.(dkg := st.dkg[i := vote])];
      return Ok(());
    }

    /** get_finalized_key: the one key the quorum agreed on. A conflict cannot arise. */
    method GetFinalizedKey(id: bytes) returns (r: Result<Option<KeyVote>>)
      requires Valid()
      ensures r.Fail? <==> id !in elections
      ensures r.Ok? && r.value.Some? ==> KeyIs(elections[id], r.value.value)
      ensures r.Ok? && r.value.None? ==> !KeyFinalized(elections[id])
    {
      if id !in elections {
        return Fail(UnknownElection);
      }
      var k := FinalizedKeyOf(elections[id]);
      return Ok(k);
    }

    method SubmitBallotEnvelope(id: bytes, envelope: Envelope, sig: bytes, now: int) returns (r: Result<()>, seqNo: int)
      requires Valid()
      modifies this
      ensures Valid() && nextId == old(nextId)
      ensures Wrote(old(elections), elections, id, SubmitBallot(envelope, GatewaySigner(recover, id, envelope, sig)),
                    now, r)
      ensures r.Ok? ==> seqNo == |old(elections)[id].ballots|
    {
      hide Inv, Wins, KeyFinalized, AggregateFinalized, KeyperIndex, NextId;
      seqNo := -1;
      if id !in elections {
        return Fail(UnknownElection), seqNo;
      }
      var st := elections[id];
      var who := recover(BallotDigest(id, envelope), sig);
      ghost var op := SubmitBallot(envelope, who);
      if st.config.gatewayKeys != [] {
        if who.None? || who.value !in st.config.gatewayKeys {
          return Fail(WriteAuthorization), seqNo;
        }
      }
      var key := FinalizedKeyOf(st);
      if DeriveState(st.config, Facts(st.cancelled, key.Some?, st.result.Some?, false), now) != Voting {
        return Fail(VotingWindow), seqNo;
      }
      seqNo := |st.ballots|;
      StepKeepsInv(st, op, now);
      elections := elections[id := st.(ballots := st.ballots + [StoredBallot(seqNo, envelope, Some(now))])];
      return Ok(()), seqNo;
    }

    method ListBallots(id: bytes, start: nat, count: nat) returns (r: Result<seq<StoredBallot>>)
      requires Valid()
      ensures r.Fail? <==> id !in elections
      ensures r.Ok? ==> RowsOf(elections[id].ballots, start, count, r.value)
      ensures r.Ok? ==> forall i :: 0 <= i < |r.value| ==> r.value[i].seqNo == start + i
    {
      if id !in elections {
        return Fail(UnknownElection);
      }
      hide Inv, NextId;
      RowsNumbered(elections[id]);
      var rows := RowsFrom(elections[id].ballots, start, count);
      return Ok(rows);
    }

    method SubmitAggregateArtifact(id: bytes, artifact: Artifact, sig: bytes, now: int) returns (r: Result<()>)
      requires Valid()
      modifies this
      ensures Valid() && nextId == old(nextId)
      ensures Wrote(old(elections), elections, id,
                    SubmitAggregate(artifact, recover(AggregateDigest(id, artifact.tally), sig)), now, r)
    {
      hide Inv, Wins, KeyFinalized, AggregateFinalized, KeyperIndex, NextId;
      if id !in elections {
        return Fail(UnknownElection);
      }
      var st := elections[id];
      var who := recover(AggregateDigest(id, artifact.tally), sig);
      ghost var op := SubmitAggregate(artifact, who);
      if now < st.config.votingEnd {
        return Fail(VotingWindow);
      }
      var i := KeyperIndex(st.config.keypers, who);
      if i == 0 {
        return Fail(WriteAuthorization);
      }
      if i in st.aggregates && st.aggregates[i] == artifact {
        return Ok(());
      }
      var canonical := CanonicalAggregateOf(st);
      if canonical.Some? {
        return Fail(Immutability);
      }
      StepKeepsInv(st, op, now);
      var arrivals := if i in st.aggregates then st.arrivals else st.arrivals + [i];
      elections := elections[id := st.(aggregates := st.aggregates[i := artifact], arrivals := arrivals)];
      return Ok(());
    }

    /** get_aggregate: of the group that reached the quorum, the artifact submitted first. */
    method GetAggregate(id: bytes) returns (r: Result<Option<Artifact>>)
      requires Valid()
      ensures r.Fail? <==> id !in elections
      ensures r.Ok? && r.value.Some? ==> AggregateIs(elections[id], r.value.value.tally)
      ensures r.Ok? && r.value.Some? ==> FirstArrival(elections[id], r.value.value)
      ensures r.Ok? && r.value.None? ==> !AggregateFinalized(elections[id])
    {
      if id !in elections {
        return Fail(UnknownElection);
      }
      var a := CanonicalAggregateOf(elections[id]);
      return Ok(a);
    }

    method SubmitDecryptionShare(id: bytes, share: ShareEnvelope, sig: bytes, now: int) returns (r: Result<()>)
      requires Valid()
      modifies this
      ensures Valid() && nextId == old(nextId)
      ensures Wrote(old(elections), elections, id, SubmitShare(share, recover(ShareDigestOf(id, share), sig)), now, r)
    {
      hide Inv, Wins, KeyFinalized, AggregateFinalized, KeyperIndex, NextId;
      if id !in elections {
        return Fail(UnknownElection);
      }
      var st := elections[id];
      var who := recover(ShareDigestOf(id, share), sig);
      ghost var op := SubmitShare(share, who);
      if now < st.config.votingEnd {
        return Fail(VotingWindow);
      }
      var canonical := CanonicalAggregateOf(st);
      if canonical.None? {
        return Fail(VotingWindow);
      }
      var i := KeyperIndex(st.config.keypers, who);
      if i == 0 || i != share.keyperIndex {
        return Fail(WriteAuthorization);
      }
      if i in st.shares {
        if st.shares[i] != share {
          return Fail(Immutability);
        }
        return Ok(());
      }
      StepKeepsInv(st, op, now);
      elections := elections[id := st.(shares := st.shares[i := share])];
      return Ok(());
    }

    method PublishResultArtifact(id: bytes, result: ResultArtifact, sig: bytes, now: int) returns (r: Result<()>)
      requires Valid()
      modifies this
      ensures Valid() && nextId == old(nextId)
      ensures Wrote(old(elections), elections, id, PublishResult(result, recover(ResultDigest(id, result), sig)), now,
                    r)
    {
      hide Inv, Wins, KeyFinalized, AggregateFinalized, KeyperIndex, NextId;
      if id !in elections {
        return Fail(UnknownElection);
      }
      var st := elections[id];
      var who := recover(ResultDigest(id, result), sig);
      ghost var op := PublishResult(result, who);
      if who != Some(st.config.resultPublisherKey) {
        return Fail(WriteAuthorization);
      }
      if st.result.Some? {
        if st.result.value != result {
          return Fail(Immutability);
        }
        return Ok(());
      }
      StepKeepsInv(st, op, now);
      elections := elections[id := st.(result := Some(result))];
      return Ok(());
    }

    /** set_tally_stalled: each issued_at is accepted once per election and direction. */
    method SetTallyStalled(id: bytes, stalled: bool, sig: bytes, issuedAt: nat, now: int) returns (r: Result<()>)
      requires Valid()
      modifies this
      ensures Valid() && nextId == old(nextId)
      ensures var usable := -REQUEST_FRESHNESS <= now - issuedAt <= REQUEST_FRESHNESS
                            && (id, stalled, issuedAt) !in old(usedNonces);
              Wrote(old(elections), elections, id,
                    SetStalled(stalled, usable, recover(StallDigest(id, stalled, issuedAt), sig)), now, r)
      ensures usedNonces == if r.Ok? then old(usedNonces) + {(id, stalled, issuedAt)} else old(usedNonces)
      ensures r.Ok? ==> (id, stalled, issuedAt) !in old(usedNonces)
    {
      hide Inv, Wins, KeyFinalized, AggregateFinalized, KeyperIndex, NextId;
      if id !in elections {
        return Fail(UnknownElection);
      }
      var st := elections[id];
      if !(-REQUEST_FRESHNESS <= now - issuedAt <= REQUEST_FRESHNESS) {
        return Fail(WriteAuthorization);
      }
      if (id, stalled, issuedAt) in usedNonces {
        return Fail(WriteAuthorization);
      }
      var who := recover(StallDigest(id, stalled, issuedAt), sig);
      ghost var op := SetStalled(stalled, true, who);
      if stalled {
        if now < st.config.votingEnd {
          return Fail(VotingWindow);
        }
        if st.result.Some? {
          return Fail(Immutability);
        }
        if who != Some(st.config.resultPublisherKey) {
          return Fail(WriteAuthorization);
        }
      } else {
        if who != Some(st.config.adminKey) {
          return Fail(WriteAuthorization);
        }
      }
      StepKeepsInv(st, op, now);
      usedNonces := usedNonces + {(id, stalled, issuedAt)};
      elections := elections[id := st.(tallyStalled := stalled)];
      return Ok(());
    }
  }

  function StallDigest(id: bytes, stalled: bool, issuedAt: nat): Digest
  {
    RequestDigest(if stalled then "tally_stall" else "tally_resume", id, ToBE(issuedAt, 8))
  }

  /** A stall request is signed for one election, one direction and one time of issue. */
  lemma StallDigestCovers(id: bytes, stalled: bool, issuedAt: nat, id': bytes, stalled': bool, issuedAt': nat)
    requires issuedAt < Pow256(8) && issuedAt' < Pow256(8)
    requires StallDigest(id, stalled, issuedAt) == StallDigest(id', stalled', issuedAt')
    ensures id == id' && stalled == stalled' && issuedAt == issuedAt'
  {
    hide ToBE, Pow256;
    ToBEInjective(issuedAt, issuedAt', 8);
    assert |"tally_stall"| != |"tally_resume"|;
  }

  function GatewaySigner(recover: Recover, id: bytes, envelope: Envelope, sig: bytes): Option<bytes>
  {
    recover(BallotDigest(id, envelope), sig)
  }

  /** As many rows as requested and stored from `start` on, in order. */
  ghost predicate RowsOf(ballots: seq<StoredBallot>, start: nat, count: nat, rows: seq<StoredBallot>)
  {
    && |rows| == Least(count, if start < |ballots| then |ballots| - start else 0)
    && forall i :: 0 <= i < |rows| ==> rows[i] == ballots[start + i]
  }

  /** ballots[start : start + count]. */
  method RowsFrom(ballots: seq<StoredBallot>, start: nat, count: nat) returns (rows: seq<StoredBallot>)
    ensures RowsOf(ballots, start, count, rows)
  {
    var from, to := Least(start, |ballots|), Least(start + count, |ballots|);
    rows := ballots[from..to];
  }

  lemma RowsNumbered(st: Stored)
    requires Inv(st)
    ensures forall i :: 0 <= i < |st.ballots| ==> st.ballots[i].seqNo == i
  {
    hide AggregateFinalized;
  }

  function Least(a: nat, b: nat): (m: nat)
    ensures m <= a && m <= b && (m == a || m == b)
  {
    if a < b then a else b
  }

  /** _finalized_key_of. */
  method FinalizedKeyOf(st: Stored) returns (k: Option<KeyVote>)
    requires Inv(st)
    ensures k.Some? ==> KeyIs(st, k.value)
    ensures k.None? ==> !KeyFinalized(st)
    ensures k.Some? <==> KeyFinalized(st)
  {
    hide Wins;
    var groups := GroupSlots(st.dkg);
    var r := ResolveUnique(groups, st.config.threshold.t, st.dkg);
    NeverConflicts(st.dkg, st.config.threshold.n, st.config.threshold.t, r);
    if r.Decided? {
      assert KeyIs(st, r.value);
      return Some(r.value);
    }
    return None;
  }

  function TalliesOf(aggregates: map<int, Artifact>): (m: map<int, Tally>)
    ensures m == Tallies(aggregates)
  {
    map i | i in aggregates :: aggregates[i].tally
  }

  /** `a` is the earliest artifact with its tally. */
  ghost predicate FirstArrival(st: Stored, a: Artifact)
  {
    exists k :: FirstAt(st, a, k)
  }

  ghost predicate ArrivalsFiled(st: Stored)
  {
    forall k :: 0 <= k < |st.arrivals| ==> st.arrivals[k] in st.aggregates
  }

  ghost predicate FirstAt(st: Stored, a: Artifact, k: int)
  {
    && 0 <= k < |st.arrivals| && ArrivalsFiled(st)
    && st.aggregates[st.arrivals[k]] == a
    && forall j :: 0 <= j < k ==> st.aggregates[st.arrivals[j]].tally != a.tally
  }

  method CanonicalAggregateOf(st: Stored) returns (a: Option<Artifact>)
    requires Inv(st)
    ensures a.Some? ==> AggregateIs(st, a.value.tally) && FirstArrival(st, a.value)
    ensures a.Some? <==> AggregateFinalized(st)
  {
    hide Wins, Resolves, GroupsOf, AggregateFinalized, FirstArrival, AggregateIs;
    var slots := TalliesOf(st.aggregates);
    var groups := GroupSlots(slots);
    var r := ResolveUnique(groups, st.config.threshold.t, slots);
    NeverConflicts(slots, st.config.threshold.n, st.config.threshold.t, r);
    ResolvedMeans(st, r);
    if r.Undecided? {
      return None;
    }
    ghost var k := SomeSupporter(st, r.value);
    var first := FirstWith(st, r.value, k);
    return Some(first);
  }

  /** The first artifact in order of arrival with tally `t`; there is one at position `known`. */
  method FirstWith(st: Stored, t: Tally, ghost known: nat) returns (a: Artifact)
    requires ArrivalsFiled(st) && known < |st.arrivals| && st.aggregates[st.arrivals[known]].tally == t
    ensures a.tally == t && FirstArrival(st, a)
  {
    var k := 0;
    while st.aggregates[st.arrivals[k]].tally != t
      invariant 0 <= k <= known
      invariant forall j :: 0 <= j < k ==> st.aggregates[st.arrivals[j]].tally != t
      decreases known - k
    {
      k := k + 1;
    }
    a := st.aggregates[st.arrivals[k]];
    assert FirstAt(st, a, k);
  }

  lemma ResolvedMeans(st: Stored, r: Resolution<Tally>)
    requires Resolves(Tallies(st.aggregates), st.config.threshold.t, r)
    ensures r.Decided? ==> AggregateIs(st, r.value) && AggregateFinalized(st)
    ensures r.Undecided? ==> !AggregateFinalized(st)
  {
    hide Wins;
    if r.Decided? {
      assert AggregateIs(st, r.value);
    }
  }

  /** A canonical tally is in some keyper's slot. */
  lemma SomeSupporter(st: Stored, t: Tally) returns (k: nat)
    requires Inv(st) && AggregateIs(st, t)
    ensures ArrivalsFiled(st) && k < |st.arrivals| && st.aggregates[st.arrivals[k]].tally == t
  {
    hide Inv, Wins;
    InvArrivals(st);
    k := SupporterAt(st.aggregates, st.arrivals, st.config.threshold.t, t);
    assert forall j :: 0 <= j < |st.arrivals| ==> st.arrivals[j] in st.arrivals;
  }

  lemma InvArrivals(st: Stored)
    requires Inv(st)
    ensures st.config.threshold.t >= 1 && forall i :: i in st.arrivals <==> i in st.aggregates
  {
    hide AggregateFinalized, BallotsOrdered;
  }

  lemma SupporterAt(aggregates: map<int, Artifact>, arrivals: seq<int>, needed: int, t: Tally) returns (k: nat)
    requires needed >= 1 && Wins(Tallies(aggregates), needed, t)
    requires forall i :: i in arrivals <==> i in aggregates
    ensures k < |arrivals| && arrivals[k] in aggregates && aggregates[arrivals[k]].tally == t
  {
    var i: int := Pick(Voters(Tallies(aggregates), t));
    assert i in arrivals;
    k :| 0 <= k < |arrivals| && arrivals[k] == i;
  }
}
