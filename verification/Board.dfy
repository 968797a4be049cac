/** The bulletin board's per-election transitions (adapters/memory.py), what each keeps, and
    what therefore holds over every run. A signature enters as the identity it recovers to. */
module Board {
  import opened Field
  import opened Bytes
  import opened Sums
  import opened Quorum
  import opened Election

  datatype Error = UnknownElection | WriteAuthorization | Immutability | VotingWindow | QuorumConflict | BadRequest

  datatype Result<+T> = Ok(value: T) | Fail(error: Error)

  /** One election. `arrivals` lists the keypers with an aggregate in the order of their first
      submission, which is the order a dictionary iterates in. */
  datatype Stored = Stored(
    config: Config,
    cancelled: bool,
    dkg: map<int, KeyVote>,
    ballots: seq<StoredBallot>,
    aggregates: map<int, Artifact>,
    arrivals: seq<int>,
    shares: map<int, ShareEnvelope>,
    result: Option<ResultArtifact>,
    tallyStalled: bool)

  function Fresh(config: Config): Stored
  {
    Stored(config, false, map[], [], map[], [], map[], None, false)
  }

  /** Writes to one election; `signer` is the identity its signature recovers to, if any. */
  datatype Op =
    | Cancel(signer: Option<bytes>)
    | SubmitDkg(vote: KeyVote, signer: Option<bytes>)
    | SubmitBallot(envelope: Envelope, signer: Option<bytes>)
    | SubmitAggregate(artifact: Artifact, signer: Option<bytes>)
    | SubmitShare(share: ShareEnvelope, signer: Option<bytes>)
    | PublishResult(result: ResultArtifact, signer: Option<bytes>)
    | SetStalled(stalled: bool, usable: bool, signer: Option<bytes>)

  /** The 1-based index of a registered keyper, 0 for anyone else. */
  function KeyperIndex(keypers: seq<bytes>, who: Option<bytes>): (i: int)
    ensures 0 <= i <= |keypers|
    ensures i > 0 ==> who == Some(keypers[i - 1])
    ensures i == 0 ==> who.None? || who.value !in keypers
  {
    if keypers == [] || who.None? then 0
    else if keypers[0] == who.value then 1
    else
      var r := KeyperIndex(keypers[1..], who);
      if r == 0 then 0 else r + 1
  }

  ghost function Tallies(aggregates: map<int, Artifact>): map<int, Tally>
  {
    map i | i in aggregates :: aggregates[i].tally
  }

  /** The finalized key, as the quorum rule resolves it. */
  ghost predicate KeyIs(st: Stored, k: KeyVote)
  {
    Wins(st.dkg, st.config.threshold.t, k)
  }

  ghost predicate KeyFinalized(st: Stored)
  {
    exists k :: KeyIs(st, k)
  }

  ghost predicate AggregateIs(st: Stored, t: Tally)
  {
    Wins(Tallies(st.aggregates), st.config.threshold.t, t)
  }

  ghost predicate AggregateFinalized(st: Stored)
  {
    exists t :: AggregateIs(st, t)
  }

  ghost predicate VotingOpen(st: Stored, now: int)
  {
    DeriveState(st.config, Facts(st.cancelled, KeyFinalized(st), st.result.Some?, false), now) == Voting
  }

  ghost predicate MayWriteBallots(config: Config, who: Option<bytes>)
  {
    config.gatewayKeys == [] || (who.Some? && who.value in config.gatewayKeys)
  }

  /** One write, on a board where the quorum never conflicts. */
  ghost function Apply(st: Stored, op: Op, now: int): Result<Stored>
  {
    match op
    case Cancel(who) =>
      if now >= st.config.votingStart then Fail(Immutability)
      else if who != Some(st.config.adminKey) then Fail(WriteAuthorization)
      else Ok(st.(cancelled := true))
    case SubmitDkg(vote, who) =>
      var i := KeyperIndex(st.config.keypers, who);
      if i == 0 then Fail(WriteAuthorization)
      else if i in st.dkg then (if st.dkg[i] != vote then Fail(Immutability) else Ok(st))
      else Ok(st.(dkg := st.dkg[i := vote]))
    case SubmitBallot(envelope, who) =>
      if !MayWriteBallots(st.config, who) then Fail(WriteAuthorization)
      else if !VotingOpen(st, now) then Fail(VotingWindow)
      else Ok(st.(ballots := st.ballots + [StoredBallot(|st.ballots|, envelope, Some(now))]))
    case SubmitAggregate(artifact, who) =>
      if now < st.config.votingEnd then Fail(VotingWindow)
      else
        var i := KeyperIndex(st.config.keypers, who);
        if i == 0 then Fail(WriteAuthorization)
        else if i in st.aggregates && st.aggregates[i] == artifact then Ok(st)
        else if AggregateFinalized(st) then Fail(Immutability)
        else Ok(st.(aggregates := st.aggregates[i := artifact],
                    arrivals := if i in st.aggregates then st.arrivals else st.arrivals + [i]))
    case SubmitShare(share, who) =>
      if now < st.config.votingEnd || !AggregateFinalized(st) then Fail(VotingWindow)
      else
        var i := KeyperIndex(st.config.keypers, who);
        if i == 0 || i != share.keyperIndex then Fail(WriteAuthorization)
        else if i in st.shares then (if st.shares[i] != share then Fail(Immutability) else Ok(st))
        else Ok(st.(shares := st.shares[i := share]))
    case PublishResult(result, who) =>
      if who != Some(st.config.resultPublisherKey) then Fail(WriteAuthorization)
      else if st.result.Some? then (if st.result.value != result then Fail(Immutability) else Ok(st))
      else Ok(st.(result := Some(result)))
    case SetStalled(stalled, usable, who) =>
      if !usable then Fail(WriteAuthorization)
      else if stalled then
        if now < st.config.votingEnd then Fail(VotingWindow)
        else if st.result.Some? then Fail(Immutability)
        else if who != Some(st.config.resultPublisherKey) then Fail(WriteAuthorization)
        else Ok(st.(tallyStalled := true))
      else if who != Some(st.config.adminKey) then Fail(WriteAuthorization)
      else Ok(st.(tallyStalled := false))
  }

  /** A failed write leaves the election as it was. */
  ghost function After(st: Stored, op: Op, now: int): Stored
  {
    match Apply(st, op, now)
    case Ok(st') => st'
    case Fail(_) => st
  }

  // ----- invariant -----

  ghost predicate BallotsOrdered(st: Stored)
  {
    forall i :: 0 <= i < |st.ballots| ==>
      st.ballots[i].seqNo == i && st.ballots[i].submittedAt.Some?
      && IsVotingOpen(st.config, st.ballots[i].submittedAt.value)
  }

  ghost predicate Inv(st: Stored)
  {
    && st.config.Valid()
    && st.dkg.Keys <= Range(st.config.threshold.n)
    && st.aggregates.Keys <= Range(st.config.threshold.n)
    && (forall i :: i in st.arrivals <==> i in st.aggregates)
    && st.shares.Keys <= Range(st.config.threshold.n)
    && BallotsOrdered(st)
    && (forall i :: i in st.shares ==> st.shares[i].keyperIndex == i)
    && (|st.shares| > 0 ==> AggregateFinalized(st))
  }

  lemma FreshInv(config: Config)
    requires config.Valid()
    ensures Inv(Fresh(config))
  {
  }

  /** Every write keeps the invariant. */
  lemma StepKeepsInv(st: Stored, op: Op, now: int)
    requires Inv(st)
    ensures Inv(After(st, op, now))
  {
    hide Wins, Apply, AggregateFinalized, BallotsOrdered;
    BallotStep(st, op, now);
    SharesStep(st, op, now);
    SlotsStep(st, op, now);
    if AggregateFinalized(st) {
      AggregateStep(st, op, now);
    }
  }

  /** Only registered indices are ever written, and the committee never changes. */
  lemma SlotsStep(st: Stored, op: Op, now: int)
    requires |st.config.keypers| == st.config.threshold.n
    ensures var st', n := After(st, op, now), st.config.threshold.n;
            && st'.config == st.config
            && (forall i :: i in st'.dkg ==> i in st.dkg || 1 <= i <= n)
            && (forall i :: i in st'.aggregates ==> i in st.aggregates || 1 <= i <= n)
            && ((forall i :: i in st.arrivals <==> i in st.aggregates) ==>
                  forall i :: i in st'.arrivals <==> i in st'.aggregates)
            && (forall i :: i in st'.shares ==> (i in st.shares && st'.shares[i] == st.shares[i])
                                                || (1 <= i <= n && st'.shares[i].keyperIndex == i))
  {
    hide Wins, AggregateFinalized, VotingOpen, KeyperIndex, MayWriteBallots;
  }

  lemma BallotStep(st: Stored, op: Op, now: int)
    requires BallotsOrdered(st)
    ensures BallotsOrdered(After(st, op, now))
  {
    hide Wins, AggregateFinalized, KeyFinalized, KeyperIndex;
    VotingIff(st.config, Facts(st.cancelled, KeyFinalized(st), st.result.Some?, false), now);
  }

  lemma SharesStep(st: Stored, op: Op, now: int)
    ensures |After(st, op, now).shares| > 0 ==> |st.shares| > 0 || AggregateFinalized(st)
  {
    hide Wins, AggregateFinalized, VotingOpen, KeyperIndex;
  }

  // ----- what one write can change -----

  /** Once the quorum has a tally, no write changes any keyper's slot. */
  lemma AggregateStep(st: Stored, op: Op, now: int)
    requires AggregateFinalized(st)
    ensures After(st, op, now).aggregates == st.aggregates && After(st, op, now).arrivals == st.arrivals
    ensures After(st, op, now).config == st.config
    ensures AggregateFinalized(After(st, op, now))
  {
    hide Wins;
    var t :| AggregateIs(st, t);
    assert AggregateIs(After(st, op, now), t);
  }

  lemma KeyStep(st: Stored, op: Op, now: int, k: KeyVote)
    requires KeyIs(st, k)
    ensures KeyIs(After(st, op, now), k)
  {
    match op
    case SubmitDkg(vote, who) =>
      var i := KeyperIndex(st.config.keypers, who);
      if i > 0 && i !in st.dkg {
        WinsGrows(st.dkg, i, vote, st.config.threshold.t, k);
      }
    case _ =>
  }

  /** What holds between any state and any later state of the same election. */
  ghost predicate Later(st: Stored, st': Stored)
  {
    && st'.config == st.config
    && (st.cancelled ==> st'.cancelled)
    && st.ballots <= st'.ballots
    && st.dkg.Keys <= st'.dkg.Keys && (forall i :: i in st.dkg ==> st'.dkg[i] == st.dkg[i])
    && st.shares.Keys <= st'.shares.Keys && (forall i :: i in st.shares ==> st'.shares[i] == st.shares[i])
    && (st.result.Some? ==> st'.result == st.result)
    && (AggregateFinalized(st) ==> st'.aggregates == st.aggregates && st'.arrivals == st.arrivals)
  }

  lemma StepIsLater(st: Stored, op: Op, now: int)
    ensures Later(st, After(st, op, now))
  {
    hide Wins;
    if AggregateFinalized(st) {
      AggregateStep(st, op, now);
    }
  }

  // ----- runs -----

  datatype Event = Event(op: Op, now: int)

  ghost predicate Clocked(run: seq<Event>)
  {
    forall i, k :: 0 <= i < k < |run| ==> run[i].now <= run[k].now
  }

  ghost function Run(st: Stored, run: seq<Event>): Stored
    decreases |run|
  {
    if run == [] then st else Run(After(st, run[0].op, run[0].now), run[1..])
  }

  lemma {:induction false} RunKeepsInv(st: Stored, run: seq<Event>)
    requires Inv(st)
    ensures Inv(Run(st, run))
    decreases |run|
  {
    if run != [] {
      StepKeepsInv(st, run[0].op, run[0].now);
      RunKeepsInv(After(st, run[0].op, run[0].now), run[1..]);
    }
  }

  lemma LaterTrans(a: Stored, b: Stored, c: Stored)
    requires Later(a, b) && Later(b, c)
    ensures Later(a, c)
  {
    hide Wins;
    if AggregateFinalized(a) {
      var t :| AggregateIs(a, t);
      assert AggregateIs(b, t);
    }
  }

  /** Nothing recorded is ever taken back: ballots only append, key votes, shares and the
      result never change, and a decided aggregate freezes every slot. */
  lemma {:induction false} RunIsLater(st: Stored, run: seq<Event>)
    ensures Later(st, Run(st, run))
    decreases |run|
  {
    hide AggregateFinalized;
    if run != [] {
      var mid := After(st, run[0].op, run[0].now);
      StepIsLater(st, run[0].op, run[0].now);
      RunIsLater(mid, run[1..]);
      LaterTrans(st, mid, Run(mid, run[1..]));
    }
  }

  /** Quorum safety over every run: at most one key and one tally ever reach the quorum, so
      resolve_unique never reports a conflict. */
  lemma QuorumSafety(config: Config, run: seq<Event>,
                     key: Resolution<KeyVote>, agg: Resolution<Tally>)
    requires config.Valid()
    requires var st := Run(Fresh(config), run);
             && Resolves(st.dkg, config.threshold.t, key)
             && Resolves(Tallies(st.aggregates), config.threshold.t, agg)
    ensures key != Conflict && agg != Conflict
  {
    hide Wins, Resolves;
    var st := Run(Fresh(config), run);
    FreshInv(config);
    RunKeepsInv(Fresh(config), run);
    RunIsLater(Fresh(config), run);
    NeverConflicts(st.dkg, config.threshold.n, config.threshold.t, key);
    NeverConflicts(Tallies(st.aggregates), config.threshold.n, config.threshold.t, agg);
  }

  /** A finalized key is final: no continuation changes it or produces another. */
  lemma {:induction false} KeyFrozen(st: Stored, run: seq<Event>, k: KeyVote)
    requires Inv(st) && KeyIs(st, k)
    ensures KeyIs(Run(st, run), k)
    ensures forall k' :: KeyIs(Run(st, run), k') ==> k' == k
  {
    hide Wins;
    var st' := Run(st, run);
    KeyPersists(st, run, k);
    RunKeepsInv(st, run);
    forall k' | KeyIs(st', k') ensures k' == k {
      OneWinner(st'.dkg, st'.config.threshold.n, st'.config.threshold.t, k, k');
    }
  }

  lemma {:induction false} KeyPersists(st: Stored, run: seq<Event>, k: KeyVote)
    requires KeyIs(st, k)
    ensures KeyIs(Run(st, run), k)
    decreases |run|
  {
    hide KeyIs;
    if run != [] {
      KeyStep(st, run[0].op, run[0].now, k);
      KeyPersists(After(st, run[0].op, run[0].now), run[1..], k);
    }
  }

  /** A canonical aggregate is final: every slot is frozen, so its tally stays the only
      canonical one in every continuation. */
  lemma AggregateFrozen(st: Stored, run: seq<Event>, t: Tally)
    requires Inv(st) && AggregateIs(st, t)
    ensures Run(st, run).aggregates == st.aggregates && Run(st, run).arrivals == st.arrivals
    ensures AggregateIs(Run(st, run), t)
    ensures forall t' :: AggregateIs(Run(st, run), t') ==> t' == t
  {
    hide Wins;
    RunIsLater(st, run);
    RunKeepsInv(st, run);
    var st' := Run(st, run);
    forall t' | AggregateIs(st', t') ensures t' == t {
      OneWinner(Tallies(st'.aggregates), st'.config.threshold.n, st'.config.threshold.t, t, t');
    }
  }

  /** No ballot can be written any more. */
  ghost predicate Closed(st: Stored, now: int)
  {
    now >= st.config.votingEnd || st.result.Some?
  }

  lemma ClosedStep(st: Stored, op: Op, now: int, since: int)
    requires Closed(st, since) && since <= now
    ensures After(st, op, now).ballots == st.ballots
    ensures Closed(After(st, op, now), now)
  {
    hide Wins;
    StepIsLater(st, op, now);
    VotingIff(st.config, Facts(st.cancelled, KeyFinalized(st), st.result.Some?, false), now);
  }

  /** Once closed, the ballot list is the final one whatever happens later. */
  lemma {:induction false} BallotsFrozen(st: Stored, run: seq<Event>, since: int)
    requires Closed(st, since) && Clocked(run) && (run != [] ==> since <= run[0].now)
    ensures Run(st, run).ballots == st.ballots
    decreases |run|
  {
    hide Closed;
    if run != [] {
      ClosedStep(st, run[0].op, run[0].now, since);
      BallotsFrozen(After(st, run[0].op, run[0].now), run[1..], run[0].now);
    }
  }

  /** On every run the stored ballots carry sequence numbers 0..len-1 and lie inside the
      voting window, so admission can never call one of them out of window. */
  lemma StoredBallotsInWindow(config: Config, run: seq<Event>, i: nat)
    requires config.Valid() && i < |Run(Fresh(config), run).ballots|
    ensures Run(Fresh(config), run).ballots[i].seqNo == i
    ensures Run(Fresh(config), run).ballots[i].submittedAt.Some?
    ensures IsVotingOpen(config, Run(Fresh(config), run).ballots[i].submittedAt.value)
  {
    FreshInv(config);
    RunKeepsInv(Fresh(config), run);
    RunIsLater(Fresh(config), run);
  }

  /** Every decryption share was stored while the tally that is canonical now was canonical. */
  lemma ShareSawCurrentAggregate(config: Config, before: seq<Event>, e: Event, rest: seq<Event>, i: int, t: Tally)
    requires config.Valid()
    requires var st := Run(Fresh(config), before);
             i !in st.shares && i in After(st, e.op, e.now).shares
    requires AggregateIs(Run(After(Run(Fresh(config), before), e.op, e.now), rest), t)
    ensures AggregateIs(Run(Fresh(config), before), t)
    ensures e.now >= config.votingEnd
  {
    hide Wins;
    var st := Run(Fresh(config), before);
    FreshInv(config);
    RunKeepsInv(Fresh(config), before);
    RunIsLater(Fresh(config), before);
    StepKeepsInv(st, e.op, e.now);
    ShareNeedsAggregate(st, e.op, e.now, i);
    var t0 :| AggregateIs(st, t0);
    AggregateStep(st, e.op, e.now);
    AggregateFrozen(After(st, e.op, e.now), rest, t0);
  }

  lemma ShareNeedsAggregate(st: Stored, op: Op, now: int, i: int)
    requires i !in st.shares && i in After(st, op, now).shares
    ensures AggregateFinalized(st) && now >= st.config.votingEnd
  {
    hide Wins, AggregateFinalized, VotingOpen, KeyperIndex;
  }

  ghost function StateOf(st: Stored, now: int): State
  {
    DeriveState(st.config, Facts(st.cancelled, KeyFinalized(st), st.result.Some?, st.tallyStalled), now)
  }

  /** Cancelled is absorbing from the start; Complete is absorbing once voting has started. */
  lemma TerminalStates(st: Stored, run: seq<Event>, now: int, later: int)
    requires Clocked(run) && (run != [] ==> now <= run[0].now) && now <= later
    ensures StateOf(st, now) == Cancelled ==> StateOf(Run(st, run), later) == Cancelled
    ensures StateOf(st, now) == Complete && now >= st.config.votingStart ==> StateOf(Run(st, run), later) == Complete
  {
    hide Wins;
    RunIsLater(st, run);
    if StateOf(st, now) == Complete && now >= st.config.votingStart {
      StaysUncancelled(st, run, now);
    }
  }

  lemma {:induction false} StaysUncancelled(st: Stored, run: seq<Event>, now: int)
    requires !st.cancelled && now >= st.config.votingStart
    requires Clocked(run) && (run != [] ==> now <= run[0].now)
    ensures !Run(st, run).cancelled
    decreases |run|
  {
    hide AggregateFinalized, VotingOpen;
    if run != [] {
      StepIsLater(st, run[0].op, run[0].now);
      StaysUncancelled(After(st, run[0].op, run[0].now), run[1..], run[0].now);
    }
  }

  /** Complete is not absorbing before voting starts: from every state that is Complete then, the
      admin may still cancel, which takes precedence. */
  lemma EarlyCompleteCanBeCancelled(st: Stored, now: int)
    requires StateOf(st, now) == Complete && now < st.config.votingStart
    ensures StateOf(After(st, Cancel(Some(st.config.adminKey)), now), now) == Cancelled
  {
  }

  /** There are such states: a result may be published before voting starts. */
  lemma EarlyCompleteExists(config: Config, result: ResultArtifact, now: int)
    requires config.Valid() && now < config.votingStart
    ensures StateOf(After(Fresh(config), PublishResult(result, Some(config.resultPublisherKey)), now), now) == Complete
  {
  }

  /** The runs that may follow (st, now). */
  ghost predicate Follows(run: seq<Event>, now: int, later: int)
  {
    Clocked(run) && (run != [] ==> now <= run[0].now) && now <= later
  }

  /** The exact condition: a Complete state is absorbing if and only if voting has started. */
  lemma CompleteAbsorbingIff(st: Stored, now: int)
    requires StateOf(st, now) == Complete
    ensures now >= st.config.votingStart <==>
              forall run, later :: Follows(run, now, later) ==> StateOf(Run(st, run), later) == Complete
  {
    hide KeyFinalized, AggregateFinalized, Apply;
    if now >= st.config.votingStart {
      forall run, later | Follows(run, now, later) ensures StateOf(Run(st, run), later) == Complete {
        TerminalStates(st, run, now, later);
      }
    } else {
      var cancel := Event(Cancel(Some(st.config.adminKey)), now);
      EarlyCompleteCanBeCancelled(st, now);
      RunOne(st, cancel);
      assert Follows([cancel], now, now);
      assert StateOf(Run(st, [cancel]), now) == Cancelled;
    }
  }

  lemma RunOne(st: Stored, e: Event)
    ensures Run(st, [e]) == After(st, e.op, e.now)
  {
    hide After;
    assert [e][1..] == [];
    assert Run(After(st, e.op, e.now), []) == After(st, e.op, e.now);
  }
}
