/** The other half of the honest-aggregate argument (services/keyper/keyper.py over
    adapters/memory.py): a committee with a quorum of keypers that follow the protocol can always
    bring its tally about, whatever happened before. */
module TallyLiveness {
  import opened Field
  import opened Sums
  import opened Quorum
  import opened Election
  import opened Board
  import opened BoardAuthority
  import opened HonestAggregate

  /** Voting is over in an uncancelled election whose final key and ballots determine `t`. */
  ghost predicate Due(w: World, sys: Sys, k: KeyVote, t: Tally)
    requires w.s.q > 1
  {
    && SysInv(w, sys) && KeyIs(sys.st, k) && !sys.st.cancelled && sys.now >= sys.st.config.votingEnd
    && sys.st.config.Valid()
    && DeriveTally(w.s, w.verify, sys.st.config, k.pk, sys.st.ballots) == Some(t)
  }

  function With(sys: Sys, i: int, session: Session): Sys
  {
    sys.(sessions := sys.sessions[i := session])
  }

  /** A step that signs nothing only moves the keyper's own session. */
  lemma Moves(w: World, sys: Sys, i: int, session: Session, step: KeyperStep)
    requires w.s.q > 1 && sys.st.config.Valid() && !step.SignTally?
    ensures Next(w, With(sys, i, session), ByKeyper(i, step)) == With(sys, i, Advance(sys, session, step))
  {
    hide DeriveTally, FinalKey, MayAggregate;
    var x := Advance(sys, session, step);
    assert Advance(With(sys, i, session), session, step) == x;
    assert sys.sessions[i := session][i := x] == sys.sessions[i := x];
  }

  lemma FinalKeyIs(st: Stored, k: KeyVote)
    requires Inv(st) && KeyIs(st, k)
    ensures FinalKey(st) == Some(k)
  {
    hide KeyIs;
    OneKey(st, FinalKey(st).value, k);
  }

  /** The sessions that call passes through. */
  lemma Sessions(w: World, sys: Sys, k: KeyVote, t: Tally, n: nat)
    requires w.s.q > 1 && Due(w, sys, k, t) && n == |sys.st.ballots|
    ensures forall session :: Advance(sys, session, Abandon) == Idle
    ensures Advance(sys, Idle, ReadRecord) == GotRecord(false, Some(k))
    ensures Advance(sys, GotRecord(false, Some(k)), ReadResult) == GotResult(false, Some(k), sys.st.result.Some?)
    ensures Advance(sys, GotResult(false, Some(k), sys.st.result.Some?), ReadClock) == Agreed(k)
    ensures Advance(sys, Agreed(k), CountBallots) == Reading(k, n, [])
    ensures Advance(sys, Reading(k, n, []), ReadPage(n)) == Reading(k, n, sys.st.ballots)
  {
    hide KeyIs, DeriveTally, MayAggregate, FinalKey, Inv;
    FinalKeyIs(sys.st, k);
    GuardIff(sys.st.config, false, true, sys.st.result.Some?, sys.now);
    assert [] + sys.st.ballots[0..n] == sys.st.ballots;
  }

  lemma Signing(w: World, sys: Sys, k: KeyVote, t: Tally, i: int)
    requires w.s.q > 1 && Due(w, sys, k, t)
    ensures Next(w, With(sys, i, Reading(k, |sys.st.ballots|, sys.st.ballots)), ByKeyper(i, SignTally))
         == With(sys, i, Idle).(signed := sys.signed + {(i, t)})
  {
    hide DeriveTally, KeyIs, Inv, FinalKey;
    var session := Reading(k, |sys.st.ballots|, sys.st.ballots);
    var from := With(sys, i, session);
    assert Signs(w, from, session, SignTally, t);
    assert sys.sessions[i := session][i := Idle] == sys.sessions[i := Idle];
  }

  /** One undisturbed produce_aggregate call, from whatever the keyper was doing: it ends with the
      keyper's signature under the tally and touches nothing else. */
  lemma ProducesTally(w: World, sys: Sys, k: KeyVote, t: Tally, i: int) returns (run: seq<Action>, end: Sys)
    requires w.s.q > 1 && Due(w, sys, k, t)
    ensures Reaches(w, sys, run, end)
    ensures end == With(sys, i, Idle).(signed := sys.signed + {(i, t)})
  {
    hide Next, Advance, Due, Reaches;
    var n := |sys.st.ballots|;
    var s1, s2 := GotRecord(false, Some(k)), GotResult(false, Some(k), sys.st.result.Some?);
    var first := SessionOf(sys, i);
    DueConfig(w, sys, k, t);
    Sessions(w, sys, k, t, n);
    Abandons(w, sys, i);
    Moves(w, sys, i, Idle, ReadRecord);
    Moves(w, sys, i, s1, ReadResult);
    Moves(w, sys, i, s2, ReadClock);
    Moves(w, sys, i, Agreed(k), CountBallots);
    Moves(w, sys, i, Reading(k, n, []), ReadPage(n));
    Signing(w, sys, k, t, i);
    end := With(sys, i, Idle).(signed := sys.signed + {(i, t)});
    run := Extend(w, With(sys, i, Reading(k, n, sys.st.ballots)), ByKeyper(i, SignTally), [], end);
    run := Extend(w, With(sys, i, Reading(k, n, [])), ByKeyper(i, ReadPage(n)), run, end);
    run := Extend(w, With(sys, i, Agreed(k)), ByKeyper(i, CountBallots), run, end);
    run := Extend(w, With(sys, i, s2), ByKeyper(i, ReadClock), run, end);
    run := Extend(w, With(sys, i, s1), ByKeyper(i, ReadResult), run, end);
    run := Extend(w, With(sys, i, Idle), ByKeyper(i, ReadRecord), run, end);
    run := Extend(w, sys, ByKeyper(i, Abandon), run, end);
  }

  lemma DueConfig(w: World, sys: Sys, k: KeyVote, t: Tally)
    requires w.s.q > 1 && Due(w, sys, k, t)
    ensures sys.st.config.Valid() && Inv(sys.st)
  {
  }

  lemma Abandons(w: World, sys: Sys, i: int)
    requires w.s.q > 1 && sys.st.config.Valid()
    ensures Next(w, sys, ByKeyper(i, Abandon)) == With(sys, i, Idle)
  {
    hide DeriveTally;
  }

  /** A run may be preceded by any step that leads to its start. */
  lemma Extend(w: World, a: Sys, act: Action, rest: seq<Action>, end: Sys) returns (run: seq<Action>)
    requires w.s.q > 1 && a.st.config.Valid()
    requires if rest == [] then Next(w, a, act) == end else Reaches(w, Next(w, a, act), rest, end)
    ensures run == [act] + rest && Reaches(w, a, run, end)
  {
    hide Next;
    run := [act] + rest;
    assert run[1..] == rest;
    assert Reaches(w, Next(w, a, act), rest, end);
  }

  /** The data layer takes the signed tally, unless one is canonical already. */
  lemma SubmitsTally(w: World, sys: Sys, k: KeyVote, t: Tally, i: int)
    requires w.s.q > 1 && Due(w, sys, k, t) && (i, t) in sys.signed
    requires 1 <= i <= sys.st.config.threshold.n && !AggregateFinalized(sys.st)
    ensures var artifact := Artifact(sys.st.config.electionId, t);
            var sys' := Next(w, sys, Write(SubmitAggregate(artifact, Some(sys.st.config.keypers[i - 1]))));
            && sys' == sys.(st := sys'.st) && sys'.st.aggregates == sys.st.aggregates[i := artifact]
            && Due(w, sys', k, t)
  {
    hide DeriveTally, SysInv, AggregateFinalized, KeyIs, KeyperIndex, FinalKey;
    DueConfig(w, sys, k, t);
    var st := sys.st;
    var artifact := Artifact(st.config.electionId, t);
    var who := Some(st.config.keypers[i - 1]);
    var op := SubmitAggregate(artifact, who);
    OwnIndex(st.config, i);
    assert Authentic(w, sys, op);
    assert IsKeyper(st.config, i, who);
    NextKeepsInv(w, sys, Write(op));
    KeyStep(st, op, sys.now, k);
    SameValue(st, i);
  }

  lemma ProducingKeepsDue(w: World, sys: Sys, k: KeyVote, t: Tally, i: int, run: seq<Action>, end: Sys)
    requires w.s.q > 1 && Due(w, sys, k, t) && Reaches(w, sys, run, end)
    requires end.st == sys.st && end.now == sys.now
    ensures Due(w, end, k, t)
  {
    hide DeriveTally, SysInv, KeyIs, Next;
    RunKeepsSysInv(w, sys, run, end);
  }

  /** The slots of these keypers already hold the tally. */
  ghost predicate Hold(st: Stored, keypers: set<int>, t: Tally)
  {
    forall i :: i in keypers ==> i in st.aggregates && st.aggregates[i].tally == t
  }

  /** A quorum of protocol-following keypers. */
  ghost predicate Quorate(w: World, config: Config, good: set<int>)
  {
    good <= Range(|config.keypers|) && good !! w.bad && |good| >= config.threshold.t
  }

  lemma HeldWins(st: Stored, good: set<int>, t: Tally)
    requires |good| >= st.config.threshold.t && Hold(st, good, t)
    ensures AggregateIs(st, t)
  {
    var slots := Tallies(st.aggregates);
    assert forall i :: i in good ==> i in slots && slots[i] == t;
    SubsetSize(good, Voters(slots, t));
  }

  /** Two sets of at least a majority quorum of 1..n share a member. */
  lemma QuorumsMeet(a: set<int>, b: set<int>, n: nat, needed: int) returns (i: int)
    requires a <= Range(n) && b <= Range(n) && |a| >= needed && |b| >= needed && needed * 2 > n
    ensures i in a && i in b
  {
    SubsetSize(a + b, Range(n));
    assert |a + b| == |a| + |b| - |a * b|;
    i := Pick(a * b);
  }

  /** What is canonical while the tally is due is that tally. */
  lemma CanonicalIsDue(w: World, sys: Sys, k: KeyVote, t: Tally, good: set<int>)
    requires w.s.q > 1 && Due(w, sys, k, t) && Quorate(w, sys.st.config, good) && AggregateFinalized(sys.st)
    ensures AggregateIs(sys.st, t)
  {
    hide DeriveTally, KeyIs, VoteDerived, SessionOk;
    var st := sys.st;
    var t' :| AggregateIs(st, t');
    var voters := Voters(Tallies(st.aggregates), t');
    assert voters <= st.aggregates.Keys;
    var i := QuorumsMeet(voters, good, st.config.threshold.n, st.config.threshold.t);
    assert (i, t') in sys.signed;
    var k' :| KeyIs(st, k') && DeriveTally(w.s, w.verify, st.config, k'.pk, st.ballots) == Some(t');
    OneKey(st, k, k');
  }

  /** The keypers of `todo`, one after the other, complete the quorum. */
  lemma {:induction false} Converges(w: World, sys: Sys, k: KeyVote, t: Tally, good: set<int>, todo: set<int>)
    returns (run: seq<Action>, end: Sys)
    requires w.s.q > 1 && Due(w, sys, k, t) && Quorate(w, sys.st.config, good)
    requires todo <= good && Hold(sys.st, good - todo, t)
    ensures Reaches(w, sys, run, end) && AggregateIs(end.st, t) && Due(w, end, k, t)
    decreases |todo|
  {
    hide Due, Next, Reaches, AggregateIs, AggregateFinalized, Hold, Quorate;
    run, end := [], sys;
    ReachesSelf(w, sys);
    QuorateSize(w, sys.st.config, good);
    if AggregateFinalized(sys.st) {
      CanonicalIsDue(w, sys, k, t, good);
    } else if todo == {} {
      assert good - todo == good;
      HeldWins(sys.st, good, t);
    } else {
      var i := Pick(todo);
      run, end := Contributes(w, sys, k, t, good, i);
      HoldGrows(sys.st, end.st, good, todo, i, t);
      var rest, last := Converges(w, end, k, t, good, todo - {i});
      ReachesAppend(w, sys, run, end, rest, last);
      run, end := run + rest, last;
    }
  }

  lemma QuorateSize(w: World, config: Config, good: set<int>)
    requires Quorate(w, config, good)
    ensures |good| >= config.threshold.t
  {
  }

  lemma HoldGrows(st: Stored, st': Stored, good: set<int>, todo: set<int>, i: int, t: Tally)
    requires Hold(st, good - todo, t) && i in st'.aggregates && st'.aggregates[i].tally == t
    requires st'.aggregates == st.aggregates[i := st'.aggregates[i]]
    ensures Hold(st', good - (todo - {i}), t)
  {
  }

  lemma ReachesSelf(w: World, sys: Sys)
    requires w.s.q > 1
    ensures Reaches(w, sys, [], sys)
  {
  }

  /** One keyper computes, signs and submits. */
  lemma Contributes(w: World, sys: Sys, k: KeyVote, t: Tally, good: set<int>, i: int)
    returns (run: seq<Action>, end: Sys)
    requires w.s.q > 1 && Due(w, sys, k, t) && !AggregateFinalized(sys.st)
    requires i in good && Quorate(w, sys.st.config, good)
    ensures Reaches(w, sys, run, end) && Due(w, end, k, t) && end.st.config == sys.st.config
    ensures end.st.aggregates == sys.st.aggregates[i := Artifact(sys.st.config.electionId, t)]
  {
    hide Due, Next, Reaches, AggregateFinalized, Later;
    var mid;
    run, mid := ProducesTally(w, sys, k, t, i);
    ProducingKeepsDue(w, sys, k, t, i, run, mid);
    DueConfig(w, mid, k, t);
    SubmitsTally(w, mid, k, t, i);
    var act := Write(SubmitAggregate(Artifact(sys.st.config.electionId, t), Some(sys.st.config.keypers[i - 1])));
    end := Next(w, mid, act);
    NextIsLater(w, mid, act);
    SameConfig(mid.st, end.st);
    var rest := Extend(w, mid, act, [], end);
    ReachesAppend(w, sys, run, mid, rest, end);
    run := run + rest;
  }

  lemma SameConfig(a: Stored, b: Stored)
    requires Later(a, b)
    ensures b.config == a.config
  {
  }

  /** Liveness: after every run, once voting is over in an uncancelled election with a final key
      and admission raises nothing, any quorum of protocol-following keypers can make the
      derived tally canonical, whatever the others have done or go on to hold. */
  lemma TallyCanBecomeCanonical(w: World, config: Config, start: int, before: seq<Action>, sys: Sys, k: KeyVote,
                                t: Tally, good: set<int>)
    returns (run: seq<Action>, end: Sys)
    requires w.s.q > 1 && config.Valid() && Reaches(w, InitialSys(config, start), before, sys)
    requires KeyIs(sys.st, k) && !sys.st.cancelled && sys.now >= config.votingEnd
    requires DeriveTally(w.s, w.verify, config, k.pk, sys.st.ballots) == Some(t)
    requires Quorate(w, config, good)
    ensures Reaches(w, sys, run, end) && AggregateIs(end.st, t)
  {
    hide DeriveTally, KeyIs, AggregateIs, AggregateFinalized, Next;
    FreshInv(config);
    RunKeepsSysInv(w, InitialSys(config, start), before, sys);
    ReachesLater(w, InitialSys(config, start), before, sys);
    run, end := Converges(w, sys, k, t, good, good);
  }
}
