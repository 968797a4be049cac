/** Who may change what on the bulletin board (adapters/memory.py): the signature, the time and
    the stage behind every change of every field, the converse that every such write goes
    through, and where each record of a whole run came from. */
module BoardAuthority {
  import opened Field
  import opened Bytes
  import opened Quorum
  import opened Election
  import opened Board

  /** A registered keyper signs under its own index. */
  lemma OwnIndex(config: Config, i: int)
    requires config.Valid() && 1 <= i <= |config.keypers|
    ensures KeyperIndex(config.keypers, Some(config.keypers[i - 1])) == i
  {
    hide KeyperIndex;
    var k := KeyperIndex(config.keypers, Some(config.keypers[i - 1]));
    assert k != 0;
  }

  ghost predicate IsKeyper(config: Config, i: int, who: Option<bytes>)
  {
    1 <= i <= |config.keypers| && who == Some(config.keypers[i - 1])
  }

  ghost predicate IsWriter(config: Config, who: Option<bytes>)
  {
    config.gatewayKeys != [] ==> who.Some? && who.value in config.gatewayKeys
  }

  ghost predicate Changed<V>(before: map<int, V>, after: map<int, V>, i: int)
  {
    if i in before && i in after then before[i] != after[i] else i in before || i in after
  }

  // ----- one write -----

  /** The election's own record changes only on these signatures and at these times. */
  lemma LifecycleAuthority(st: Stored, op: Op, now: int)
    ensures var st', config := After(st, op, now), st.config;
            && st'.config == config
            && (st'.result != st.result ==>
                  && st.result.None? && st'.result.Some?
                  && op == PublishResult(st'.result.value, Some(config.resultPublisherKey)))
            && (st'.cancelled != st.cancelled ==>
                  st'.cancelled && now < config.votingStart && op == Cancel(Some(config.adminKey)))
            && (st'.tallyStalled != st.tallyStalled ==>
                  if st'.tallyStalled then
                    && op == SetStalled(true, true, Some(config.resultPublisherKey))
                    && now >= config.votingEnd && st.result.None?
                  else op == SetStalled(false, true, Some(config.adminKey)))
  {
    hide Wins, AggregateFinalized, VotingOpen, KeyperIndex, MayWriteBallots;
  }

  /** The ballot list grows by one ballot at a time, from a writer and inside the window. */
  lemma BallotAuthority(st: Stored, op: Op, now: int)
    ensures var st', config := After(st, op, now), st.config;
            st'.ballots != st.ballots ==>
              && op.SubmitBallot? && IsWriter(config, op.signer)
              && config.votingStart <= now < config.votingEnd
              && KeyFinalized(st) && !st.cancelled && st.result.None?
              && st'.ballots == st.ballots + [StoredBallot(|st.ballots|, op.envelope, Some(now))]
  {
    hide Wins, AggregateFinalized, KeyFinalized, KeyperIndex;
  }

  /** A keyper's slot changes only on that keyper's signature: a key vote once, a tally while
      none is canonical, a share once and behind a canonical tally. */
  lemma SlotAuthority(st: Stored, op: Op, now: int, i: int)
    ensures var st', config := After(st, op, now), st.config;
            && (Changed(st.dkg, st'.dkg, i) ==>
                  && i !in st.dkg && i in st'.dkg && op.SubmitDkg? && op.vote == st'.dkg[i]
                  && IsKeyper(config, i, op.signer))
            && (Changed(st.aggregates, st'.aggregates, i) ==>
                  && i in st'.aggregates && op.SubmitAggregate? && op.artifact == st'.aggregates[i]
                  && IsKeyper(config, i, op.signer) && now >= config.votingEnd && !AggregateFinalized(st))
            && (Changed(st.shares, st'.shares, i) ==>
                  && i !in st.shares && i in st'.shares && op.SubmitShare? && op.share == st'.shares[i]
                  && op.share.keyperIndex == i && IsKeyper(config, i, op.signer)
                  && now >= config.votingEnd && AggregateFinalized(st))
  {
    hide Wins, AggregateFinalized, VotingOpen, KeyperIndex, MayWriteBallots;
  }

  // ----- which writes succeed -----

  /** The signer, the time and the stage a write needs. */
  ghost predicate Permitted(st: Stored, op: Op, now: int)
  {
    match op
    case Cancel(who) => now < st.config.votingStart && who == Some(st.config.adminKey)
    case SubmitDkg(vote, who) => exists i :: IsKeyper(st.config, i, who) && (i in st.dkg ==> st.dkg[i] == vote)
    case SubmitBallot(_, who) =>
      && IsWriter(st.config, who) && IsVotingOpen(st.config, now)
      && KeyFinalized(st) && !st.cancelled && st.result.None?
    case SubmitAggregate(artifact, who) =>
      && now >= st.config.votingEnd
      && exists i :: IsKeyper(st.config, i, who)
                     && (AggregateFinalized(st) ==> i in st.aggregates && st.aggregates[i] == artifact)
    case SubmitShare(share, who) =>
      && now >= st.config.votingEnd && AggregateFinalized(st) && IsKeyper(st.config, share.keyperIndex, who)
      && (share.keyperIndex in st.shares ==> st.shares[share.keyperIndex] == share)
    case PublishResult(result, who) =>
      who == Some(st.config.resultPublisherKey) && (st.result.Some? ==> st.result.value == result)
    case SetStalled(stalled, usable, who) =>
      && usable
      && if stalled then now >= st.config.votingEnd && st.result.None? && who == Some(st.config.resultPublisherKey)
         else who == Some(st.config.adminKey)
  }

  /** A write succeeds exactly when it is permitted. */
  lemma WriteIff(st: Stored, op: Op, now: int)
    requires st.config.Valid()
    ensures Apply(st, op, now).Ok? <==> Permitted(st, op, now)
  {
    hide Wins, AggregateFinalized, KeyFinalized, KeyperIndex;
    var i := KeyperIndex(st.config.keypers, op.signer);
    assert i > 0 ==> IsKeyper(st.config, i, op.signer);
    forall k | IsKeyper(st.config, k, op.signer) ensures k == i {
      OwnIndex(st.config, k);
    }
  }

  /** The whole effect of every permitted write: one field, or one slot of it, takes the
      submitted value, and a first tally also takes its place in the order of arrival. */
  lemma WriteEffect(st: Stored, op: Op, now: int)
    requires st.config.Valid() && Permitted(st, op, now)
    ensures var st' := After(st, op, now);
            match op
            case Cancel(_) => st' == st.(cancelled := true)
            case SubmitDkg(vote, who) =>
              exists i :: IsKeyper(st.config, i, who) && st' == st.(dkg := st.dkg[i := vote])
            case SubmitBallot(envelope, _) =>
              st' == st.(ballots := st.ballots + [StoredBallot(|st.ballots|, envelope, Some(now))])
            case SubmitAggregate(artifact, who) =>
              exists i :: IsKeyper(st.config, i, who)
                && st' == st.(aggregates := st.aggregates[i := artifact],
                              arrivals := if i in st.aggregates then st.arrivals else st.arrivals + [i])
            case SubmitShare(share, _) => st' == st.(shares := st.shares[share.keyperIndex := share])
            case PublishResult(result, _) => st' == st.(result := Some(result))
            case SetStalled(stalled, _, _) => st' == st.(tallyStalled := stalled)
  {
    hide Wins, AggregateFinalized, KeyFinalized, KeyperIndex;
    WriteIff(st, op, now);
    var i := KeyperIndex(st.config.keypers, op.signer);
    assert i > 0 ==> IsKeyper(st.config, i, op.signer);
    SameValue(st, i);
  }

  /** Writing what is there changes nothing. */
  lemma SameValue(st: Stored, i: int)
    ensures i in st.dkg ==> st.dkg[i := st.dkg[i]] == st.dkg
    ensures i in st.aggregates ==> st.aggregates[i := st.aggregates[i]] == st.aggregates
    ensures i in st.shares ==> st.shares[i := st.shares[i]] == st.shares
  {
  }

  /** What each refusal says. */
  lemma RefusalMeans(st: Stored, op: Op, now: int)
    requires st.config.Valid() && Apply(st, op, now).Fail?
    ensures var e := Apply(st, op, now).error;
            && e in {WriteAuthorization, Immutability, VotingWindow}
            && (e == WriteAuthorization ==>
                  match op
                  case Cancel(who) => who != Some(st.config.adminKey)
                  case SubmitBallot(_, who) => !IsWriter(st.config, who)
                  case SubmitShare(share, who) => !IsKeyper(st.config, share.keyperIndex, who)
                  case PublishResult(_, who) => who != Some(st.config.resultPublisherKey)
                  case SetStalled(stalled, usable, who) =>
                    !usable || who != Some(if stalled then st.config.resultPublisherKey else st.config.adminKey)
                  case _ => forall i :: !IsKeyper(st.config, i, op.signer))
            && (e == VotingWindow ==>
                  match op
                  case SubmitBallot(_, _) => !VotingOpen(st, now)
                  case SubmitShare(_, _) => now < st.config.votingEnd || !AggregateFinalized(st)
                  case _ => now < st.config.votingEnd)
            && (e == Immutability ==>
                  match op
                  case Cancel(_) => now >= st.config.votingStart
                  case SubmitAggregate(_, _) => AggregateFinalized(st)
                  case SubmitDkg(vote, who) =>
                    exists i :: IsKeyper(st.config, i, who) && i in st.dkg && st.dkg[i] != vote
                  case SubmitShare(share, _) => share.keyperIndex in st.shares && st.shares[share.keyperIndex] != share
                  case _ => st.result.Some?)
  {
    hide Wins, AggregateFinalized, VotingOpen, KeyperIndex;
    var i := KeyperIndex(st.config.keypers, op.signer);
    assert i > 0 ==> IsKeyper(st.config, i, op.signer);
    forall k | IsKeyper(st.config, k, op.signer) ensures k == i {
      OwnIndex(st.config, k);
    }
  }

  // ----- whole runs -----

  /** Whatever a run brings about, one of its writes brought about. */
  lemma {:induction false} SomeWriteDid(st: Stored, run: seq<Event>, p: Stored -> bool) returns (k: nat)
    requires !p(st) && p(Run(st, run))
    ensures k < |run| && !p(Run(st, run[..k])) && p(After(Run(st, run[..k]), run[k].op, run[k].now))
    decreases |run|
  {
    hide After;
    var mid := After(st, run[0].op, run[0].now);
    if p(mid) {
      k := 0;
    } else {
      k := SomeWriteDid(mid, run[1..], p);
      k := k + 1;
      assert run[..k][1..] == run[1..][..k - 1];
    }
  }

  lemma {:induction false} RunSplit(st: Stored, run: seq<Event>, k: nat)
    requires k <= |run|
    ensures Run(st, run) == Run(Run(st, run[..k]), run[k..])
    decreases |run|
  {
    hide After;
    if k > 0 {
      RunSplit(After(st, run[0].op, run[0].now), run[1..], k - 1);
      assert run[..k][1..] == run[1..][..k - 1] && run[1..][k - 1..] == run[k..];
    } else {
      assert run[k..] == run;
    }
  }

  /** A published result was signed by the publisher; a cancellation by the admin, before voting. */
  lemma LifecycleProvenance(config: Config, run: seq<Event>)
    ensures var st := Run(Fresh(config), run);
            && (st.result.Some? ==>
                  exists k :: 0 <= k < |run|
                    && run[k].op == PublishResult(st.result.value, Some(config.resultPublisherKey)))
            && (st.cancelled ==>
                  exists k :: 0 <= k < |run|
                    && run[k].op == Cancel(Some(config.adminKey)) && run[k].now < config.votingStart)
  {
    hide After, AggregateFinalized;
    var start := Fresh(config);
    var st := Run(start, run);
    if st.result.Some? {
      var k := SomeWriteDid(start, run, (x: Stored) => x.result == st.result);
      RunIsLater(start, run[..k]);
      LifecycleAuthority(Run(start, run[..k]), run[k].op, run[k].now);
      assert run[k].op == PublishResult(st.result.value, Some(config.resultPublisherKey));
    }
    if st.cancelled {
      var k := SomeWriteDid(start, run, (x: Stored) => x.cancelled);
      RunIsLater(start, run[..k]);
      LifecycleAuthority(Run(start, run[..k]), run[k].op, run[k].now);
      assert run[k].op == Cancel(Some(config.adminKey));
    }
  }

  /** Every stored ballot was written, as it stands and at the time it carries, by somebody
      allowed to write ballots. */
  lemma BallotProvenance(config: Config, run: seq<Event>, n: nat) returns (k: nat)
    requires n < |Run(Fresh(config), run).ballots|
    ensures k < |run| && run[k].op.SubmitBallot? && IsWriter(config, run[k].op.signer)
    ensures Run(Fresh(config), run).ballots[n] == StoredBallot(n, run[k].op.envelope, Some(run[k].now))
    ensures config.votingStart <= run[k].now < config.votingEnd
  {
    hide After, AggregateFinalized, KeyFinalized;
    var start := Fresh(config);
    k := SomeWriteDid(start, run, (x: Stored) => |x.ballots| > n);
    var before := Run(start, run[..k]);
    var next := After(before, run[k].op, run[k].now);
    RunIsLater(start, run[..k]);
    BallotAuthority(before, run[k].op, run[k].now);
    RunSplit(start, run, k);
    assert Run(before, run[k..]) == Run(next, run[k..][1..]);
    RunIsLater(next, run[k..][1..]);
  }

  /** Every key vote, tally and share on the board was signed by the keyper whose slot it is in;
      tallies and shares after voting. */
  lemma SlotProvenance(config: Config, run: seq<Event>, i: int)
    ensures var st := Run(Fresh(config), run);
            && (i in st.dkg ==>
                  exists k :: 0 <= k < |run| && run[k].op.SubmitDkg?
                    && run[k].op.vote == st.dkg[i] && IsKeyper(config, i, run[k].op.signer))
            && (i in st.aggregates ==>
                  exists k :: 0 <= k < |run| && run[k].op.SubmitAggregate? && run[k].now >= config.votingEnd
                    && run[k].op.artifact == st.aggregates[i] && IsKeyper(config, i, run[k].op.signer))
            && (i in st.shares ==>
                  exists k :: 0 <= k < |run| && run[k].op.SubmitShare? && run[k].now >= config.votingEnd
                    && run[k].op.share == st.shares[i] && IsKeyper(config, i, run[k].op.signer))
  {
    hide After, AggregateFinalized, IsKeyper;
    var start := Fresh(config);
    var st := Run(start, run);
    if i in st.dkg {
      var k := SomeWriteDid(start, run, (x: Stored) => i in x.dkg && x.dkg[i] == st.dkg[i]);
      RunIsLater(start, run[..k]);
      SlotAuthority(Run(start, run[..k]), run[k].op, run[k].now, i);
      assert run[k].op.SubmitDkg?;
    }
    if i in st.aggregates {
      var k := SomeWriteDid(start, run, (x: Stored) => i in x.aggregates && x.aggregates[i] == st.aggregates[i]);
      RunIsLater(start, run[..k]);
      SlotAuthority(Run(start, run[..k]), run[k].op, run[k].now, i);
      assert run[k].op.SubmitAggregate?;
    }
    if i in st.shares {
      var k := SomeWriteDid(start, run, (x: Stored) => i in x.shares && x.shares[i] == st.shares[i]);
      RunIsLater(start, run[..k]);
      SlotAuthority(Run(start, run[..k]), run[k].op, run[k].now, i);
      assert run[k].op.SubmitShare?;
    }
  }
}
