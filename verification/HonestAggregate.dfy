/** Keypers deriving the aggregate concurrently with everything else (services/keyper/keyper.py
    over adapters/memory.py): a state machine that interleaves the board's writes, the clock and
    the separate reads of every keyper's produce_aggregate. */
module HonestAggregate {
  import opened Field
  import opened Group
  import opened Bytes
  import opened Transcripts
  import opened Quorum
  import opened Election
  import opened Ballot
  import opened Admission
  import opened Aggregation
  import opened Board
  import Dkg
  import KeyperInbox

  /** What produce_aggregate computes from a key and a ballot list: admission, then the weighted
      aggregate. Nothing where admission raises. */
  ghost function DeriveTally(s: Suite, verify: VerifyAttestation, config: Config, pk: bytes,
                             ballots: seq<StoredBallot>): Option<Tally>
    requires s.q > 1 && config.Valid()
  {
    if s.decode2(pk).None? || !NoneRaises(s, verify, config, s.decode2(pk).value, ballots) then None
    else Some(TallyOf(s, config, Admit(ballots, JudgeOf(s, verify, config, s.decode2(pk).value), config.policy)))
  }

  method DeriveArtifact(s: Suite, verify: VerifyAttestation, config: Config, pk: bytes, ballots: seq<StoredBallot>)
    returns (r: Option<Artifact>)
    requires s.q > 1 && config.Valid()
    ensures r.Some? <==> DeriveTally(s, verify, config, pk, ballots).Some?
    ensures r.Some? ==> r.value == Artifact(config.electionId, DeriveTally(s, verify, config, pk, ballots).value)
  {
    hide Judge, Admit, Aggregable;
    var admission := AdmitBallots(s, verify, config, pk, ballots);
    if admission.None? {
      return None;
    }
    AdmittedAggregates(s, verify, config, s.decode2(pk).value, ballots);
    r := BuildAggregateArtifact(s, config, admission.value);
  }

  /** The board keeps ballots inside the voting window, so on every run admission excludes none of
      them as out of window. */
  lemma NeverOutOfWindow(s: Suite, verify: VerifyAttestation, config: Config, mpk: Point, run: seq<Event>, x: Exclusion)
    requires s.q > 1 && config.Valid()
    requires x in Admit(Run(Fresh(config), run).ballots, JudgeOf(s, verify, config, mpk), config.policy).exclusions
    ensures x.reason != ReasonOutOfWindow
  {
    hide Admit, Admissible, Run, BallotVerdict;
    var ballots := Run(Fresh(config), run).ballots;
    var judge := JudgeOf(s, verify, config, mpk);
    forall i | 0 <= i < |ballots|
      ensures ballots[i].seqNo == i && ballots[i].submittedAt.Some?
      ensures IsVotingOpen(config, ballots[i].submittedAt.value)
    {
      StoredBallotsInWindow(config, run, i);
    }
    ExclusionsIff(ballots, judge, config.policy);
    var sb :| ExcludedAs(SetOf(ballots), judge, config.policy, sb, x);
  }

  /** check_can_aggregate: the state is Tallying or Complete and the key is final. */
  predicate MayAggregate(config: Config, cancelled: bool, key: bool, result: bool, now: int)
  {
    DeriveState(config, Facts(cancelled, key, result, false), now) in {Tallying, Complete} && key
  }

  /** The guard passes exactly when the key is final, nothing is cancelled, and voting is over
      or a result is out. */
  lemma GuardIff(config: Config, cancelled: bool, key: bool, result: bool, now: int)
    requires config.Valid()
    ensures MayAggregate(config, cancelled, key, result, now) <==>
              key && !cancelled && (result || now >= config.votingEnd)
  {
  }

  // ----- the concurrent system -----

  /** How far one produce_aggregate call has come. Each arrow is one read of the data layer, one
      clock reading, or the final signature. */
  datatype Session =
    | Idle
    | GotRecord(cancelled: bool, key: Option<KeyVote>)
    | GotResult(cancelled: bool, key: Option<KeyVote>, result: bool)
    | Agreed(vote: KeyVote)
    | Reading(vote: KeyVote, total: nat, got: seq<StoredBallot>)

  datatype KeyperStep = ReadRecord | ReadResult | ReadClock | CountBallots | ReadPage(rows: nat) | SignTally | Abandon

  datatype Action =
    | Tick(to: int)
    | Write(op: Op)
    | ByKeyper(i: int, step: KeyperStep)

  /** Keypers outside `bad` follow produce_aggregate. */
  datatype World = World(s: Suite, verify: VerifyAttestation, bad: set<int>)

  datatype Sys = Sys(st: Stored, now: int, sessions: map<int, Session>, signed: set<(int, Tally)>)

  ghost function FinalKey(st: Stored): (k: Option<KeyVote>)
    ensures k.Some? <==> KeyFinalized(st)
    ensures k.Some? ==> KeyIs(st, k.value)
  {
    if KeyFinalized(st) then
      var k :| KeyIs(st, k);
      Some(k)
    else None
  }

  function SessionOf(sys: Sys, i: int): Session
  {
    if i in sys.sessions then sys.sessions[i] else Idle
  }

  function SeatOf(config: Config, i: int): KeyperInbox.Seat
  {
    KeyperInbox.Seat(i, config.threshold.t, config.keypers)
  }

  /** The vote is what keyper `i` publishes after some run of ceremony attempts. */
  ghost predicate VoteDerived(w: World, config: Config, i: int, vote: KeyVote)
    requires w.s.q > 1
  {
    exists h, out :: VoteFrom(w, config, i, vote, h, out)
  }

  ghost predicate VoteFrom(w: World, config: Config, i: int, vote: KeyVote, h: KeyperInbox.Held, out: Dkg.KeyResult)
    requires w.s.q > 1
  {
    && KeyperInbox.Attained(w.s, SeatOf(config, i), h) && KeyperInbox.PublicationOf(w.s, SeatOf(config, i), h.box, out)
    && vote.pk == w.s.encode2(out.pk) && vote.committee == KeyperInbox.EncodePoints(w.s, out.committee)
  }

  /** A derived vote may list fewer keys than the committee has members. */
  lemma ShortVoteIsDerived(w: World, config: Config, i: int, own: seq<Point>, share: int) returns (vote: KeyVote)
    requires w.s.q > 1 && config.Valid() && 1 <= i <= config.threshold.n && config.threshold.n >= 2
    requires KeyperInbox.DealtTo(w.s, SeatOf(config, i), own, share)
    ensures VoteDerived(w, config, i, vote) && |vote.committee| == 1 < config.threshold.n
  {
    hide KeyperInbox.Attained, KeyperInbox.PublicationOf, KeyperInbox.DealtTo;
    var seat := SeatOf(config, i);
    var h := KeyperInbox.LoneAttained(w.s, seat, own, share);
    var out := KeyperInbox.LonePublication(w.s, seat, own, share, h.box.combined);
    vote := KeyVote(w.s.encode2(out.pk), KeyperInbox.EncodePoints(w.s, out.committee));
    assert VoteFrom(w, config, i, vote, h, out);
  }

  /** Signatures cannot be forged: what recovers to a keyper following the protocol is a key vote
      its inbox determines or a tally it has signed. Either may be relayed or replayed by anyone. */
  ghost predicate Authentic(w: World, sys: Sys, op: Op)
    requires w.s.q > 1
  {
    match op
    case SubmitAggregate(artifact, signer) =>
      var i := KeyperIndex(sys.st.config.keypers, signer);
      i == 0 || i in w.bad || (i, artifact.tally) in sys.signed
    case SubmitDkg(vote, signer) =>
      var i := KeyperIndex(sys.st.config.keypers, signer);
      i == 0 || i in w.bad || VoteDerived(w, sys.st.config, i, vote)
    case _ => true
  }

  /** The next session of a keyper; where the step does not apply nothing changes. */
  ghost function Advance(sys: Sys, session: Session, step: KeyperStep): Session
  {
    var st := sys.st;
    match step
    case ReadRecord => if session.Idle? then GotRecord(st.cancelled, FinalKey(st)) else session
    case ReadResult =>
      if session.GotRecord? then GotResult(session.cancelled, session.key, st.result.Some?) else session
    case ReadClock =>
      if session.GotResult? then
        (if MayAggregate(st.config, session.cancelled, session.key.Some?, session.result, sys.now)
         then Agreed(session.key.value) else Idle)
      else session
    case CountBallots => if session.Agreed? then Reading(session.vote, |st.ballots|, []) else session
    case ReadPage(rows) =>
      if session.Reading? && |session.got| < session.total <= |st.ballots| then
        var n := |session.got|;
        var m := if n + rows <= session.total then n + rows else session.total;
        Reading(session.vote, session.total, session.got + st.ballots[n..m])
      else session
    case SignTally => if session.Reading? && |session.got| == session.total then Idle else session
    case Abandon => Idle
  }

  ghost predicate Signs(w: World, sys: Sys, session: Session, step: KeyperStep, t: Tally)
    requires w.s.q > 1 && sys.st.config.Valid()
  {
    && step.SignTally? && session.Reading? && |session.got| == session.total
    && DeriveTally(w.s, w.verify, sys.st.config, session.vote.pk, session.got) == Some(t)
  }

  ghost function Next(w: World, sys: Sys, a: Action): Sys
    requires w.s.q > 1 && sys.st.config.Valid()
  {
    match a
    case Tick(to) => if to >= sys.now then sys.(now := to) else sys
    case Write(op) => if Authentic(w, sys, op) then sys.(st := After(sys.st, op, sys.now)) else sys
    case ByKeyper(i, step) =>
      var session := SessionOf(sys, i);
      var sys' := sys.(sessions := sys.sessions[i := Advance(sys, session, step)]);
      if t :| Signs(w, sys, session, step, t) then sys'.(signed := sys.signed + {(i, t)}) else sys'
  }

  // ----- invariant -----

  /** A keyper that has agreed to aggregate sees a closed ballot list and the final key. */
  ghost predicate SessionOk(st: Stored, now: int, session: Session)
  {
    match session
    case Idle => true
    case GotRecord(_, key) => key.Some? ==> KeyIs(st, key.value)
    case GotResult(_, key, result) => (key.Some? ==> KeyIs(st, key.value)) && (result ==> st.result.Some?)
    case Agreed(vote) => KeyIs(st, vote) && Closed(st, now)
    case Reading(vote, total, got) =>
      && KeyIs(st, vote) && Closed(st, now)
      && total == |st.ballots| && got <= st.ballots
  }

  /** `t` is the tally the final key and the closed ballot list determine. */
  ghost predicate IsHonestTally(w: World, st: Stored, now: int, t: Tally)
    requires w.s.q > 1 && st.config.Valid()
  {
    && Closed(st, now)
    && exists k :: KeyIs(st, k) && DeriveTally(w.s, w.verify, st.config, k.pk, st.ballots) == Some(t)
  }

  ghost predicate SysInv(w: World, sys: Sys)
    requires w.s.q > 1
  {
    && Inv(sys.st)
    && (forall i :: i in sys.sessions ==> SessionOk(sys.st, sys.now, sys.sessions[i]))
    && (forall p :: p in sys.signed ==> IsHonestTally(w, sys.st, sys.now, p.1))
    && (forall i :: i in sys.st.aggregates && i !in w.bad ==> (i, sys.st.aggregates[i].tally) in sys.signed)
    && (forall i :: i in sys.st.dkg && i !in w.bad ==> VoteDerived(w, sys.st.config, i, sys.st.dkg[i]))
  }

  /** Facts about the board that survive time and writes. */
  lemma FactsPersist(st: Stored, op: Op, now: int, k: KeyVote)
    requires KeyIs(st, k)
    ensures KeyIs(After(st, op, now), k)
    ensures st.result.Some? ==> After(st, op, now).result.Some?
    ensures Closed(st, now) ==> Closed(After(st, op, now), now) && After(st, op, now).ballots == st.ballots
    ensures After(st, op, now).config == st.config
  {
    hide Apply, KeyIs;
    KeyStep(st, op, now, k);
    StepIsLater(st, op, now);
    if Closed(st, now) {
      ClosedStep(st, op, now, now);
    }
  }

  lemma SessionSurvivesWrite(st: Stored, op: Op, now: int, session: Session)
    requires SessionOk(st, now, session)
    ensures SessionOk(After(st, op, now), now, session)
  {
    hide KeyIs, After, Closed;
    StepIsLater(st, op, now);
    match session
    case Idle =>
    case GotRecord(_, key) => if key.Some? { FactsPersist(st, op, now, key.value); }
    case GotResult(_, key, _) => if key.Some? { FactsPersist(st, op, now, key.value); }
    case Agreed(vote) => FactsPersist(st, op, now, vote);
    case Reading(vote, _, _) => FactsPersist(st, op, now, vote);
  }

  lemma HonestSurvivesWrite(w: World, st: Stored, op: Op, now: int, t: Tally)
    requires w.s.q > 1 && st.config.Valid() && IsHonestTally(w, st, now, t)
    ensures After(st, op, now).config == st.config && IsHonestTally(w, After(st, op, now), now, t)
  {
    hide KeyIs, After, Closed, DeriveTally;
    var k :| KeyIs(st, k) && DeriveTally(w.s, w.verify, st.config, k.pk, st.ballots) == Some(t);
    FactsPersist(st, op, now, k);
  }

  /** A write fills a slot of a keyper only with what is submitted under its signature. */
  lemma SlotSource(st: Stored, op: Op, now: int, i: int)
    requires i in After(st, op, now).aggregates
    ensures (i in st.aggregates && After(st, op, now).aggregates[i] == st.aggregates[i])
         || (op.SubmitAggregate? && i == KeyperIndex(st.config.keypers, op.signer) && i > 0
             && After(st, op, now).aggregates[i] == op.artifact)
  {
    hide AggregateFinalized, VotingOpen, KeyperIndex, Wins;
  }

  lemma VoteSource(st: Stored, op: Op, now: int, i: int)
    requires i in After(st, op, now).dkg
    ensures (i in st.dkg && After(st, op, now).dkg[i] == st.dkg[i])
         || (op.SubmitDkg? && i == KeyperIndex(st.config.keypers, op.signer) && i > 0
             && After(st, op, now).dkg[i] == op.vote)
  {
    hide AggregateFinalized, VotingOpen, KeyperIndex, Wins;
  }

  lemma WriteKeepsInv(w: World, sys: Sys, op: Op)
    requires w.s.q > 1 && SysInv(w, sys)
    ensures SysInv(w, Next(w, sys, Write(op)))
  {
    hide Inv, SessionOk, IsHonestTally, After, KeyIs, VoteDerived;
    if Authentic(w, sys, op) {
      var st' := After(sys.st, op, sys.now);
      StepKeepsInv(sys.st, op, sys.now);
      StepIsLater(sys.st, op, sys.now);
      forall i | i in sys.sessions ensures SessionOk(st', sys.now, sys.sessions[i]) {
        SessionSurvivesWrite(sys.st, op, sys.now, sys.sessions[i]);
      }
      InvHasConfig(sys.st);
      InvHasConfig(st');
      forall p | p in sys.signed ensures IsHonestTally(w, st', sys.now, p.1) {
        HonestSurvivesWrite(w, sys.st, op, sys.now, p.1);
      }
      forall i | i in st'.aggregates && i !in w.bad ensures (i, st'.aggregates[i].tally) in sys.signed {
        SlotSource(sys.st, op, sys.now, i);
      }
      forall i | i in st'.dkg && i !in w.bad ensures VoteDerived(w, st'.config, i, st'.dkg[i]) {
        VoteSource(sys.st, op, sys.now, i);
      }
    }
  }

  lemma InvHasConfig(st: Stored)
    requires Inv(st)
    ensures st.config.Valid() && BallotsOrdered(st)
  {
  }

  lemma TickKeepsInv(w: World, sys: Sys, to: int)
    requires w.s.q > 1 && SysInv(w, sys)
    ensures SysInv(w, Next(w, sys, Tick(to)))
  {
    hide Inv, KeyIs, DeriveTally, VoteDerived;
    InvHasConfig(sys.st);
    if to >= sys.now {
      forall i | i in sys.sessions ensures SessionOk(sys.st, to, sys.sessions[i]) {
        assert SessionOk(sys.st, sys.now, sys.sessions[i]);
      }
      forall p | p in sys.signed ensures IsHonestTally(w, sys.st, to, p.1) {
        assert IsHonestTally(w, sys.st, sys.now, p.1);
      }
    }
  }

  /** The guard is enough: whoever passes it reads a list that can no longer grow. */
  lemma GuardImpliesClosed(st: Stored, cancelled: bool, key: bool, result: bool, now: int)
    requires MayAggregate(st.config, cancelled, key, result, now) && (result ==> st.result.Some?)
    ensures key && Closed(st, now)
  {
  }

  lemma AdvanceOk(sys: Sys, session: Session, step: KeyperStep)
    requires SessionOk(sys.st, sys.now, session)
    ensures SessionOk(sys.st, sys.now, Advance(sys, session, step))
  {
    hide KeyIs, KeyFinalized, Closed, MayAggregate;
    match step
    case ReadClock =>
      if session.GotResult? && MayAggregate(sys.st.config, session.cancelled, session.key.Some?, session.result,
                                            sys.now) {
        GuardImpliesClosed(sys.st, session.cancelled, session.key.Some?, session.result, sys.now);
      }
    case _ =>
  }

  lemma KeyperKeepsInv(w: World, sys: Sys, i: int, step: KeyperStep)
    requires w.s.q > 1 && SysInv(w, sys)
    ensures SysInv(w, Next(w, sys, ByKeyper(i, step)))
  {
    hide Inv, KeyIs, DeriveTally, Advance, Closed, VoteDerived;
    InvHasConfig(sys.st);
    var session := SessionOf(sys, i);
    assert SessionOk(sys.st, sys.now, session);
    AdvanceOk(sys, session, step);
    forall t | Signs(w, sys, session, step, t) ensures IsHonestTally(w, sys.st, sys.now, t) {
      assert session.got == sys.st.ballots;
    }
  }

  lemma NextKeepsInv(w: World, sys: Sys, a: Action)
    requires w.s.q > 1 && SysInv(w, sys)
    ensures SysInv(w, Next(w, sys, a))
  {
    hide SysInv, Next;
    match a
    case Tick(to) => TickKeepsInv(w, sys, to);
    case Write(op) => WriteKeepsInv(w, sys, op);
    case ByKeyper(i, step) => KeyperKeepsInv(w, sys, i, step);
  }

  // ----- runs -----

  function InitialSys(config: Config, now: int): Sys
  {
    Sys(Fresh(config), now, map[], {})
  }

  ghost predicate Reaches(w: World, a: Sys, run: seq<Action>, b: Sys)
    requires w.s.q > 1
    decreases |run|
  {
    if run == [] then a == b
    else a.st.config.Valid() && Reaches(w, Next(w, a, run[0]), run[1..], b)
  }

  lemma {:induction false} RunKeepsSysInv(w: World, a: Sys, run: seq<Action>, b: Sys)
    requires w.s.q > 1 && SysInv(w, a) && Reaches(w, a, run, b)
    ensures SysInv(w, b)
    decreases |run|
  {
    hide SysInv, Next;
    if run != [] {
      NextKeepsInv(w, a, run[0]);
      RunKeepsSysInv(w, Next(w, a, run[0]), run[1..], b);
    }
  }

  /** What wins has a supporter outside any set smaller than the quorum. */
  lemma HonestVoter<K>(slots: map<int, K>, needed: int, bad: set<int>, k: K) returns (i: int)
    requires Wins(slots, needed, k) && |bad| < needed
    ensures i in slots && i !in bad && slots[i] == k
  {
    SomeOutside(Voters(slots, k), bad);
    i :| i in Voters(slots, k) && i !in bad;
  }

  lemma HonestSupporter(st: Stored, bad: set<int>, t: Tally) returns (i: int)
    requires st.config.Valid() && AggregateIs(st, t) && |bad| < st.config.threshold.t
    ensures i in st.aggregates && i !in bad && st.aggregates[i].tally == t
  {
    i := HonestVoter(Tallies(st.aggregates), st.config.threshold.t, bad, t);
  }

  /** On every run with fewer than a quorum of deviating keypers, the finalized key is one that
      some keyper following the protocol derived from its inbox. */
  lemma FinalKeyIsDerived(w: World, config: Config, start: int, run: seq<Action>, sys: Sys, k: KeyVote) returns (i: int)
    requires w.s.q > 1 && config.Valid() && |w.bad| < config.threshold.t
    requires Reaches(w, InitialSys(config, start), run, sys) && KeyIs(sys.st, k)
    ensures 1 <= i <= config.threshold.n && VoteDerived(w, config, i, k)
  {
    hide Wins, VoteDerived, Reaches, AggregateFinalized;
    FreshInv(config);
    RunKeepsSysInv(w, InitialSys(config, start), run, sys);
    ReachesLater(w, InitialSys(config, start), run, sys);
    i := HonestVoter(sys.st.dkg, config.threshold.t, w.bad, k);
    assert i in sys.st.dkg.Keys;
  }

  lemma SomeOutside(a: set<int>, b: set<int>)
    requires |a| > |b|
    ensures exists x :: x in a && x !in b
  {
    if forall x :: x in a ==> x in b {
      SubsetSize(a, b);
    }
  }

  lemma NextIsLater(w: World, sys: Sys, a: Action)
    requires w.s.q > 1 && sys.st.config.Valid()
    ensures Later(sys.st, Next(w, sys, a).st)
  {
    hide AggregateFinalized, After;
    if a.Write? {
      StepIsLater(sys.st, a.op, sys.now);
    }
  }

  /** Honest aggregate: with fewer than a quorum of deviating keypers, on every run, whatever
      tally is canonical is the one that admission and aggregation give for the final key and
      the ballot list, and that list can no longer change. */
  lemma CanonicalIsHonest(w: World, config: Config, start: int, run: seq<Action>, sys: Sys, t: Tally)
    requires w.s.q > 1 && config.Valid() && |w.bad| < config.threshold.t
    requires Reaches(w, InitialSys(config, start), run, sys) && AggregateIs(sys.st, t)
    ensures sys.st.config == config && IsHonestTally(w, sys.st, sys.now, t)
    ensures forall k :: KeyIs(sys.st, k) ==> DeriveTally(w.s, w.verify, sys.st.config, k.pk, sys.st.ballots) == Some(t)
  {
    hide AggregateIs, DeriveTally, KeyIs;
    FreshInv(config);
    RunKeepsSysInv(w, InitialSys(config, start), run, sys);
    ReachesLater(w, InitialSys(config, start), run, sys);
    var i := HonestSupporter(sys.st, w.bad, t);
    assert (i, t) in sys.signed;
    var k0 :| KeyIs(sys.st, k0) && DeriveTally(w.s, w.verify, sys.st.config, k0.pk, sys.st.ballots) == Some(t);
    forall k | KeyIs(sys.st, k) ensures k == k0 {
      OneKey(sys.st, k, k0);
    }
  }

  lemma OneKey(st: Stored, k: KeyVote, k': KeyVote)
    requires Inv(st) && KeyIs(st, k) && KeyIs(st, k')
    ensures k == k'
  {
    OneWinner(st.dkg, st.config.threshold.n, st.config.threshold.t, k, k');
  }

  lemma {:induction false} ReachesLater(w: World, a: Sys, run: seq<Action>, b: Sys)
    requires w.s.q > 1 && Reaches(w, a, run, b)
    ensures Later(a.st, b.st)
    decreases |run|
  {
    hide AggregateFinalized, Next;
    if run != [] {
      NextIsLater(w, a, run[0]);
      ReachesLater(w, Next(w, a, run[0]), run[1..], b);
      LaterTrans(a.st, Next(w, a, run[0]).st, b.st);
    }
  }

  /** The same seen from the end: a tally that was canonical at any moment of a run is the one
      computed from the ballot list as it stands at the end of the run. */
  lemma EverCanonicalIsFinal(w: World, config: Config, start: int, before: seq<Action>, mid: Sys, rest: seq<Action>,
                             end: Sys, t: Tally)
    requires w.s.q > 1 && config.Valid() && |w.bad| < config.threshold.t
    requires Reaches(w, InitialSys(config, start), before, mid) && Reaches(w, mid, rest, end) && AggregateIs(mid.st, t)
    ensures AggregateIs(end.st, t) && end.st.ballots == mid.st.ballots && end.st.config == config
    ensures forall k :: KeyIs(end.st, k) ==> DeriveTally(w.s, w.verify, config, k.pk, end.st.ballots) == Some(t)
  {
    hide Wins, DeriveTally, Next, IsHonestTally;
    ReachesLater(w, InitialSys(config, start), before, mid);
    ReachesLater(w, mid, rest, end);
    ReachesAppend(w, InitialSys(config, start), before, mid, rest, end);
    CanonicalIsHonest(w, config, start, before, mid, t);
    CanonicalIsHonest(w, config, start, before + rest, end, t);
    HonestIsClosed(w, mid.st, mid.now, t);
    ClosedRun(w, mid, rest, end);
  }

  lemma HonestIsClosed(w: World, st: Stored, now: int, t: Tally)
    requires w.s.q > 1 && st.config.Valid() && IsHonestTally(w, st, now, t)
    ensures Closed(st, now)
  {
  }

  lemma {:induction false} ClosedRun(w: World, a: Sys, run: seq<Action>, b: Sys)
    requires w.s.q > 1 && Reaches(w, a, run, b) && Closed(a.st, a.now)
    ensures b.st.ballots == a.st.ballots
    decreases |run|
  {
    if run != [] {
      ClosedNext(w, a, run[0]);
      ClosedRun(w, Next(w, a, run[0]), run[1..], b);
    }
  }

  lemma ClosedNext(w: World, a: Sys, act: Action)
    requires w.s.q > 1 && a.st.config.Valid() && Closed(a.st, a.now)
    ensures var b := Next(w, a, act); b.st.ballots == a.st.ballots && Closed(b.st, b.now)
  {
    hide After, Advance, Signs;
    if act.Write? {
      ClosedStep(a.st, act.op, a.now, a.now);
    }
  }

  lemma {:induction false} ReachesAppend(w: World, a: Sys, run: seq<Action>, b: Sys, rest: seq<Action>, c: Sys)
    requires w.s.q > 1 && Reaches(w, a, run, b) && Reaches(w, b, rest, c)
    ensures Reaches(w, a, run + rest, c)
    decreases |run|
  {
    hide Next;
    if run == [] {
      assert run + rest == rest;
    } else {
      ReachesAppend(w, Next(w, a, run[0]), run[1..], b, rest, c);
      assert (run + rest)[1..] == run[1..] + rest && (run + rest)[0] == run[0];
    }
  }
}
