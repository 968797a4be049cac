/** The coordinator's poll loop for one election (services/coordinator/coordinator.py): which phase
    it drives, the key-generation back-off, the tally's attempt budgets and its triggers. Every
    reply and every reading of the data layer is arbitrary. */
module TallyDriver {
  import opened Election
  import opened Board

  /** A keyper's answer to an aggregate trigger. */
  datatype Status = Submitted | Started | InProgress | OtherStatus

  datatype Phase = AggregatePhase | DecryptPhase

  datatype Why = Deadline | Divergent | Unreachable

  /** What a poll does to the outside world, in order. */
  datatype Effect =
    | TriggerAggregate(recompute: bool)
    | TriggerDecrypt
    | PublishAttempt
    | MarkStalled(phase: Phase, why: Why)
    | StartCeremony(at: int)

  datatype PollOutcome = IsComplete | AlreadyFailed | DkgHasFailed | NotReady | Stalled | NoUrls | Errored
                   | BackingOff | KeyFinal | ComplaintHalted | RetryLater
                   | CollectingAggregate | CollectingShares | Abandoned | Tallied

  datatype Ceremony = CeremonyFinalizes | CeremonyComplains | CeremonyIncomplete

  datatype FinalizeReply = FinalizeRaises | NotYet | ResultPublished

  datatype Limits = Limits(maxAttempts: nat, backoffBase: nat, backoffCap: nat)

  /** The budget a limit amounts to: a limit of zero still lets one attempt be counted. */
  function Cap(lim: Limits): (c: nat)
    ensures c >= 1
  {
    if lim.maxAttempts == 0 then 1 else lim.maxAttempts
  }

  /** Everything one poll observes. */
  datatype Observed = Observed(
    now: int, state: State, urls: bool, tokens: bool,
    ceremony: Ceremony,
    canonicalFirst: bool, statuses: map<int, Status>, canonicalAfter: bool,
    pastDeadline: bool, finalize: FinalizeReply, pastDeadlineLate: bool)

  datatype Driver = Driver(done: bool, failed: bool, attempts: nat, nextAt: int, agg: nat, dec: nat)

  const INITIAL := Driver(false, false, 0, 0, 0, 0)

  function Pow2(k: nat): (r: nat)
    ensures r >= 1
  {
    if k == 0 then 1 else 2 * Pow2(k - 1)
  }

  /** Seconds to wait after the given number of failed ceremonies. */
  function Backoff(lim: Limits, attempts: nat): (r: nat)
    requires attempts >= 1
    ensures r <= lim.backoffCap
  {
    var d := lim.backoffBase * Pow2(attempts - 1);
    if lim.backoffCap < d then lim.backoffCap else d
  }

  predicate Computing(statuses: map<int, Status>)
  {
    exists i :: i in statuses && statuses[i] in {Started, InProgress}
  }

  predicate AllSubmitted(statuses: map<int, Status>)
  {
    |statuses| != 0 && forall i :: i in statuses ==> statuses[i] == Submitted
  }

  /** The budget a tally poll starts from: fresh once one of the counters is exhausted. */
  function Budget(lim: Limits, d: Driver): (b: (nat, nat))
    ensures b.0 < Cap(lim) && b.1 < Cap(lim)
  {
    if d.agg >= lim.maxAttempts || d.dec >= lim.maxAttempts then (0, 0) else (d.agg, d.dec)
  }

  // ----- the poll as a function -----

  function DriveDkg(lim: Limits, d: Driver, o: Observed): (Driver, PollOutcome, seq<Effect>)
  {
    if o.now < d.nextAt then (d, BackingOff, [])
    else if !o.urls then (d, NoUrls, [])
    else
      match o.ceremony
      case CeremonyFinalizes => (d, KeyFinal, [StartCeremony(o.now)])
      case CeremonyComplains => (d.(failed := true), ComplaintHalted, [StartCeremony(o.now)])
      case CeremonyIncomplete =>
        (d.(attempts := d.attempts + 1, nextAt := o.now + Backoff(lim, d.attempts + 1)), RetryLater,
         [StartCeremony(o.now)])
  }

  function DriveAggregate(lim: Limits, d: Driver, o: Observed): (Driver, PollOutcome, seq<Effect>)
  {
    var asked := [TriggerAggregate(false)];
    var spent := d.(agg := d.agg + 1);
    if o.pastDeadline then (d, Abandoned, asked + [MarkStalled(AggregatePhase, Deadline)])
    else if Computing(o.statuses) then (d, CollectingAggregate, asked)
    else if AllSubmitted(o.statuses) then
      if spent.agg >= lim.maxAttempts then (spent, Abandoned, asked + [MarkStalled(AggregatePhase, Divergent)])
      else (spent, CollectingAggregate, asked + [TriggerAggregate(true)])
    else if spent.agg >= lim.maxAttempts then (spent, Abandoned, asked + [MarkStalled(AggregatePhase, Unreachable)])
    else (spent, CollectingAggregate, asked)
  }

  function DriveDecrypt(lim: Limits, d: Driver, o: Observed, before: seq<Effect>): (Driver, PollOutcome, seq<Effect>)
  {
    var asked := before + [TriggerDecrypt, PublishAttempt];
    var spent := d.(dec := d.dec + 1);
    match o.finalize
    case FinalizeRaises => (d, Errored, asked)
    case ResultPublished => (d.(done := true), Tallied, asked)
    case NotYet =>
      if o.pastDeadlineLate then (d, Abandoned, asked + [MarkStalled(DecryptPhase, Deadline)])
      else if spent.dec >= lim.maxAttempts then (spent, Abandoned, asked + [MarkStalled(DecryptPhase, Unreachable)])
      else (spent, CollectingShares, asked)
  }

  /** The driver with the budget a tally poll starts from. */
  function Renewed(lim: Limits, d: Driver): Driver
  {
    d.(agg := Budget(lim, d).0, dec := Budget(lim, d).1)
  }

  function DriveTally(lim: Limits, d: Driver, o: Observed): (Driver, PollOutcome, seq<Effect>)
  {
    if !o.urls then (d, NoUrls, [])
    else if !o.tokens then (d, Errored, [])
    else
      var renewed := Renewed(lim, d);
      if !o.canonicalFirst && !o.canonicalAfter then DriveAggregate(lim, renewed, o)
      else DriveDecrypt(lim, renewed, o, if o.canonicalFirst then [] else [TriggerAggregate(false)])
  }

  /** scan_once for one election. */
  function Poll(lim: Limits, d: Driver, o: Observed): (Driver, PollOutcome, seq<Effect>)
  {
    if d.done then (d, IsComplete, [])
    else if d.failed then (d, AlreadyFailed, [])
    else
      match o.state
      case Complete => (d.(done := true), IsComplete, [])
      case DkgFailed => (d.(failed := true), DkgHasFailed, [])
      case Registered => DriveDkg(lim, d, o)
      case Tallying => DriveTally(lim, d, o)
      case TallyStalled => (d, Stalled, [])
      case _ => (d, NotReady, [])
  }

  // ----- the watcher itself -----

  /** AutoDKG's fields for one election. */
  class AutoDkg {
    const lim: Limits
    var done: bool
    var failed: bool
    var attempts: nat
    var nextAt: int
    var agg: nat
    var dec: nat

    ghost function Current(): Driver
      reads this
    {
      Driver(done, failed, attempts, nextAt, agg, dec)
    }

    constructor (limits: Limits)
      ensures lim == limits && Current() == INITIAL
    {
      lim := limits;
      done, failed, attempts, nextAt, agg, dec := false, false, 0, 0, 0, 0;
    }

    method ScanOnce(o: Observed) returns (out: PollOutcome, effects: seq<Effect>)
      modifies this
      ensures (Current(), out, effects) == Poll(lim, old(Current()), o)
    {
      effects := [];
      if done {
        return IsComplete, effects;
      }
      if failed {
        return AlreadyFailed, effects;
      }
      match o.state
      case Complete =>
        done := true;
        out := IsComplete;
      case DkgFailed =>
        failed := true;
        out := DkgHasFailed;
      case Registered =>
        out, effects := DkgPoll(o);
      case Tallying =>
        out, effects := TallyPoll(o);
      case TallyStalled =>
        out := Stalled;
      case _ =>
        out := NotReady;
    }

    method DkgPoll(o: Observed) returns (out: PollOutcome, effects: seq<Effect>)
      modifies this
      ensures (Current(), out, effects) == DriveDkg(lim, old(Current()), o)
    {
      effects := [];
      if o.now < nextAt {
        return BackingOff, effects;
      }
      if !o.urls {
        return NoUrls, effects;
      }
      effects := [StartCeremony(o.now)];
      match o.ceremony
      case CeremonyFinalizes =>
        out := KeyFinal;
      case CeremonyComplains =>
        failed := true;
        out := ComplaintHalted;
      case CeremonyIncomplete =>
        attempts := attempts + 1;
        nextAt := o.now + Backoff(lim, attempts);
        out := RetryLater;
    }

    method TallyPoll(o: Observed) returns (out: PollOutcome, effects: seq<Effect>)
      modifies this
      ensures (Current(), out, effects) == DriveTally(lim, old(Current()), o)
    {
      effects := [];
      if !o.urls {
        return NoUrls, effects;
      }
      if !o.tokens {
        return Errored, effects;
      }
      if agg >= lim.maxAttempts || dec >= lim.maxAttempts {
        agg, dec := 0, 0;
      }
      if !o.canonicalFirst {
        effects := [TriggerAggregate(false)];
        if !o.canonicalAfter {
          if o.pastDeadline {
            return Abandoned, effects + [MarkStalled(AggregatePhase, Deadline)];
          }
          if Computing(o.statuses) {
            return CollectingAggregate, effects;
          }
          agg := agg + 1;
          if AllSubmitted(o.statuses) {
            if agg >= lim.maxAttempts {
              return Abandoned, effects + [MarkStalled(AggregatePhase, Divergent)];
            }
            return CollectingAggregate, effects + [TriggerAggregate(true)];
          }
          if agg >= lim.maxAttempts {
            return Abandoned, effects + [MarkStalled(AggregatePhase, Unreachable)];
          }
          return CollectingAggregate, effects;
        }
      }
      effects := effects + [TriggerDecrypt, PublishAttempt];
      match o.finalize
      case FinalizeRaises =>
        return Errored, effects;
      case ResultPublished =>
        done := true;
        return Tallied, effects;
      case NotYet =>
        if o.pastDeadlineLate {
          return Abandoned, effects + [MarkStalled(DecryptPhase, Deadline)];
        }
        dec := dec + 1;
        if dec >= lim.maxAttempts {
          return Abandoned, effects + [MarkStalled(DecryptPhase, Unreachable)];
        }
        return CollectingShares, effects;
    }
  }

  // ----- one poll -----

  ghost predicate InBudget(lim: Limits, d: Driver)
  {
    d.agg <= Cap(lim) && d.dec <= Cap(lim)
  }

  /** A poll that gets as far as driving the tally. */
  predicate Drives(d: Driver, o: Observed)
  {
    !d.done && !d.failed && o.state == Tallying && o.urls && o.tokens
  }

  /** A poll that spends one of the two budgets. */
  predicate Spends(lim: Limits, d: Driver, o: Observed)
  {
    var d' := Poll(lim, d, o).0;
    Drives(d, o) && d'.agg + d'.dec > Budget(lim, d).0 + Budget(lim, d).1
  }

  /** The aggregate phase: it never decrypts, spends one attempt unless it waits or is past the
      deadline, and abandons exactly when it marks the election stalled. */
  lemma AggregatePollFacts(lim: Limits, d: Driver, o: Observed)
    requires d.agg < Cap(lim)
    ensures var (d', out, effects) := DriveAggregate(lim, d, o);
            && d' == d.(agg := d'.agg) && d.agg <= d'.agg <= d.agg + 1
            && TriggerDecrypt !in effects
            && (out == Abandoned <==> exists phase, why :: MarkStalled(phase, why) in effects)
            && (Computing(o.statuses) ==> d' == d)
            && (d'.agg == Cap(lim) ==> out == Abandoned)
  {
    hide Computing, AllSubmitted;
    StalledIn(DriveAggregate(lim, d, o).2);
  }

  /** The decrypt phase likewise. */
  lemma DecryptPollFacts(lim: Limits, d: Driver, o: Observed, before: seq<Effect>)
    requires d.dec < Cap(lim) && before <= [TriggerAggregate(false)]
    ensures var (d', out, effects) := DriveDecrypt(lim, d, o, before);
            && d' == d.(done := d'.done, dec := d'.dec) && d.dec <= d'.dec <= d.dec + 1
            && (out == Abandoned <==> exists phase, why :: MarkStalled(phase, why) in effects)
            && (d'.dec == Cap(lim) ==> out == Abandoned)
  {
    StalledIn(DriveDecrypt(lim, d, o, before).2);
  }

  lemma StalledIn(effects: seq<Effect>)
    ensures (exists phase, why :: MarkStalled(phase, why) in effects) <==>
              exists k :: 0 <= k < |effects| && effects[k].MarkStalled?
  {
    if k :| 0 <= k < |effects| && effects[k].MarkStalled? {
      assert MarkStalled(effects[k].phase, effects[k].why) in effects;
    }
  }

  /** The decrypt phase is entered only on a canonical aggregate, a poll in which some keyper is
      still computing spends nothing, and the election is marked stalled exactly when the poll
      abandons it. */
  lemma PollFacts(lim: Limits, d: Driver, o: Observed)
    requires InBudget(lim, d)
    ensures var (d', out, effects) := Poll(lim, d, o);
            && InBudget(lim, d')
            && (TriggerDecrypt in effects ==> o.state == Tallying && (o.canonicalFirst || o.canonicalAfter))
            && (out == Abandoned <==> exists phase, why :: MarkStalled(phase, why) in effects)
            && (!o.canonicalFirst && !o.canonicalAfter && Computing(o.statuses) ==> !Spends(lim, d, o))
            && (!Drives(d, o) ==> d'.agg == d.agg && d'.dec == d.dec)
            && (Drives(d, o) && (d'.agg == Cap(lim) || d'.dec == Cap(lim)) ==> out == Abandoned)
  {
    hide Computing, Backoff, DriveAggregate, DriveDecrypt;
    TallyPollFacts(lim, d, o);
  }

  lemma TallyPollFacts(lim: Limits, d: Driver, o: Observed)
    requires InBudget(lim, d)
    ensures Drives(d, o) && !o.canonicalFirst && !o.canonicalAfter ==>
              Poll(lim, d, o) == DriveAggregate(lim, Renewed(lim, d), o)
    ensures Drives(d, o) && (o.canonicalFirst || o.canonicalAfter) ==>
              Poll(lim, d, o) == DriveDecrypt(lim, Renewed(lim, d), o,
                                              if o.canonicalFirst then [] else [TriggerAggregate(false)])
    ensures var (d', out, effects) := DriveAggregate(lim, Renewed(lim, d), o);
            && TriggerDecrypt !in effects && d'.dec == Budget(lim, d).1
            && Budget(lim, d).0 <= d'.agg <= Budget(lim, d).0 + 1
            && (out == Abandoned <==> exists phase, why :: MarkStalled(phase, why) in effects)
            && (Computing(o.statuses) ==> d'.agg == Budget(lim, d).0)
            && (d'.agg == Cap(lim) ==> out == Abandoned)
    ensures var (d', out, effects) := DriveDecrypt(lim, Renewed(lim, d), o,
                                                   if o.canonicalFirst then [] else [TriggerAggregate(false)]);
            && d'.agg == Budget(lim, d).0 && Budget(lim, d).1 <= d'.dec <= Budget(lim, d).1 + 1
            && (out == Abandoned <==> exists phase, why :: MarkStalled(phase, why) in effects)
            && (d'.dec == Cap(lim) ==> out == Abandoned)
  {
    hide DriveAggregate, DriveDecrypt, Computing;
    AggregatePollFacts(lim, Renewed(lim, d), o);
    DecryptPollFacts(lim, Renewed(lim, d), o, if o.canonicalFirst then [] else [TriggerAggregate(false)]);
  }

  /** The poll drives the tally and still finds no canonical aggregate after triggering one. */
  predicate Stuck(d: Driver, o: Observed)
  {
    Drives(d, o) && !o.canonicalFirst && !o.canonicalAfter
  }

  /** The poll drives the tally of an election with a canonical aggregate. */
  predicate Decrypts(d: Driver, o: Observed)
  {
    Drives(d, o) && (o.canonicalFirst || o.canonicalAfter)
  }

  /** The committee disagrees: somebody was asked and everybody answers to have submitted. */
  ghost predicate Disagrees(o: Observed)
  {
    o.statuses != map[] && forall i :: i in o.statuses ==> o.statuses[i] == Submitted
  }

  /** A divergent committee is asked to derive its tallies again, at the price of one attempt,
      until the attempts are used up; then the election is marked stalled. */
  lemma DivergentRecomputes(lim: Limits, d: Driver, o: Observed)
    requires Stuck(d, o) && Disagrees(o) && !o.pastDeadline
    ensures var (d', out, effects) := Poll(lim, d, o);
            && d'.agg == Budget(lim, d).0 + 1
            && if d'.agg < lim.maxAttempts then
                 out == CollectingAggregate && effects == [TriggerAggregate(false), TriggerAggregate(true)]
               else
                 out == Abandoned && effects == [TriggerAggregate(false), MarkStalled(AggregatePhase, Divergent)]
  {
  }

  /** Which poll triggers what: every kind of effect, exactly when it happens. */
  lemma TriggersIff(lim: Limits, d: Driver, o: Observed)
    ensures var effects := Poll(lim, d, o).2;
            && (forall at :: StartCeremony(at) in effects <==>
                  at == o.now >= d.nextAt && !d.done && !d.failed && o.state == Registered && o.urls)
            && (TriggerAggregate(false) in effects <==> Drives(d, o) && !o.canonicalFirst)
            && (TriggerAggregate(true) in effects <==>
                  Stuck(d, o) && !o.pastDeadline && Disagrees(o) && Budget(lim, d).0 + 1 < lim.maxAttempts)
            && (TriggerDecrypt in effects <==> Decrypts(d, o))
            && (PublishAttempt in effects <==> Decrypts(d, o))
  {
    hide Backoff, Computing, AllSubmitted;
    AllAnswered(o);
  }

  /** When an election is marked stalled, and with which reason. */
  lemma StalledIff(lim: Limits, d: Driver, o: Observed, phase: Phase, why: Why)
    ensures MarkStalled(phase, why) in Poll(lim, d, o).2 <==>
              match phase
              case AggregatePhase =>
                && Stuck(d, o)
                && (match why
                    case Deadline => o.pastDeadline
                    case Divergent => !o.pastDeadline && Disagrees(o) && Budget(lim, d).0 + 1 >= lim.maxAttempts
                    case Unreachable =>
                      && !o.pastDeadline && !Busy(o) && !Disagrees(o)
                      && Budget(lim, d).0 + 1 >= lim.maxAttempts)
              case DecryptPhase =>
                && Decrypts(d, o) && o.finalize == NotYet
                && (match why
                    case Deadline => o.pastDeadlineLate
                    case Divergent => false
                    case Unreachable => !o.pastDeadlineLate && Budget(lim, d).1 + 1 >= lim.maxAttempts)
  {
    hide Backoff, Computing, AllSubmitted;
    AllAnswered(o);
  }

  /** Waiting costs nothing: while a keyper reports to have started or to be at it, a poll before the
      deadline only asks again. */
  lemma BusyCommitteeIsAwaited(lim: Limits, d: Driver, o: Observed)
    requires Stuck(d, o) && Busy(o) && !o.pastDeadline
    ensures Poll(lim, d, o)
         == (d.(agg := Budget(lim, d).0, dec := Budget(lim, d).1), CollectingAggregate, [TriggerAggregate(false)])
  {
    AllAnswered(o);
  }

  /** Some keyper reports to have started or to be at it. */
  ghost predicate Busy(o: Observed)
  {
    exists i :: i in o.statuses && (o.statuses[i] == Started || o.statuses[i] == InProgress)
  }

  lemma AllAnswered(o: Observed)
    ensures Busy(o) <==> Computing(o.statuses)
    ensures Disagrees(o) <==> AllSubmitted(o.statuses)
    ensures Disagrees(o) ==> !Computing(o.statuses)
  {
  }

  /** When an election becomes terminal for the watcher: finished with a published result, or
      failed in key generation. */
  lemma TerminalIff(lim: Limits, d: Driver, o: Observed)
    ensures var (d', out, _) := Poll(lim, d, o);
            && (d'.done <==> d.done || (!d.failed && o.state == Complete)
                             || (Decrypts(d, o) && o.finalize == ResultPublished))
            && (d'.failed <==> d.failed
                               || (!d.done && (o.state == DkgFailed
                                               || (o.state == Registered && o.now >= d.nextAt && o.urls
                                                   && o.ceremony == CeremonyComplains))))
            && (out == Tallied <==> Decrypts(d, o) && o.finalize == ResultPublished)
  {
    hide Backoff, Computing, AllSubmitted;
  }

  /** What the poll reports in every other case. */
  lemma OutcomeIff(lim: Limits, d: Driver, o: Observed)
    ensures var out, active := Poll(lim, d, o).1, !d.done && !d.failed;
            var key, tally := active && o.state == Registered, active && o.state == Tallying;
            && (out == IsComplete <==> d.done || (active && o.state == Complete))
            && (out == AlreadyFailed <==> d.failed && !d.done)
            && (out == DkgHasFailed <==> active && o.state == DkgFailed)
            && (out == Stalled <==> active && o.state == TallyStalled)
            && (out == NotReady <==> active && o.state in {KeyReady, Voting, Cancelled})
            && (out == BackingOff <==> key && o.now < d.nextAt)
            && (out == NoUrls <==> !o.urls && (tally || (key && o.now >= d.nextAt)))
            && (out == Errored <==>
                  (tally && o.urls && !o.tokens) || (Decrypts(d, o) && o.finalize == FinalizeRaises))
            && (out == KeyFinal <==> key && o.now >= d.nextAt && o.urls && o.ceremony == CeremonyFinalizes)
            && (out == ComplaintHalted <==> key && o.now >= d.nextAt && o.urls && o.ceremony == CeremonyComplains)
            && (out == RetryLater <==> key && o.now >= d.nextAt && o.urls && o.ceremony == CeremonyIncomplete)
            && (out == CollectingAggregate ==> Stuck(d, o))
            && (out == CollectingShares ==> Decrypts(d, o) && o.finalize == NotYet)
  {
    hide Backoff, Computing, AllSubmitted;
  }

  /** A published result ends the driving: on every continuation the watcher triggers nothing and
      changes nothing. */
  lemma PublishedResultEndsDriving(lim: Limits, d: Driver, o: Observed, run: seq<Observed>, next: Observed)
    requires (Decrypts(d, o) && o.finalize == ResultPublished) || (!d.failed && o.state == Complete)
    ensures var d' := Polls(lim, Poll(lim, d, o).0, run);
            d' == Poll(lim, d, o).0 && d'.done && Poll(lim, d', next) == (d', IsComplete, [])
  {
    TerminalIff(lim, d, o);
    TerminalStays(lim, Poll(lim, d, o).0, run);
  }

  /** A reading of a canonical aggregate stays true: the decrypt trigger finds the aggregate
      still canonical, however the board moved between the readings. */
  lemma DecryptSeesAggregate(lim: Limits, d: Driver, o: Observed, first: Stored, second: Stored, third: Stored)
    requires InBudget(lim, d)
    requires Later(first, second) && Later(second, third)
    requires o.canonicalFirst <==> AggregateFinalized(first)
    requires o.canonicalAfter <==> AggregateFinalized(second)
    ensures TriggerDecrypt in Poll(lim, d, o).2 ==> AggregateFinalized(third)
  {
    hide AggregateFinalized, Poll;
    PollFacts(lim, d, o);
    if AggregateFinalized(first) {
      StaysFinal(first, second);
    }
    if AggregateFinalized(second) {
      StaysFinal(second, third);
    }
  }

  lemma StaysFinal(a: Stored, b: Stored)
    requires Later(a, b) && AggregateFinalized(a)
    ensures AggregateFinalized(b)
  {
    var t :| AggregateIs(a, t);
    assert AggregateIs(b, t);
  }

  // ----- runs of polls -----

  function Polls(lim: Limits, d: Driver, run: seq<Observed>): (r: Driver)
    decreases |run|
  {
    if run == [] then d else Polls(lim, Poll(lim, d, run[0]).0, run[1..])
  }

  /** Counters stay within the budget on every run. */
  lemma {:induction false} CountersBounded(lim: Limits, d: Driver, run: seq<Observed>)
    requires InBudget(lim, d)
    ensures InBudget(lim, Polls(lim, d, run))
    decreases |run|
  {
    hide Poll;
    if run != [] {
      PollFacts(lim, d, run[0]);
      CountersBounded(lim, Poll(lim, d, run[0]).0, run[1..]);
    }
  }

  /** A tally poll without a canonical aggregate whose one keyper does not answer. */
  const UNREACHABLE :=
    Observed(0, Tallying, true, true, CeremonyFinalizes, false, map[1 := OtherStatus], false, false, NotYet, false)

  ghost predicate WithinLimit(lim: Limits, d: Driver)
  {
    d.agg <= lim.maxAttempts && d.dec <= lim.maxAttempts
  }

  /** The exact condition: counters stay in 0..max on every run if and only if the configured
      limit is at least one. */
  lemma LimitHeldIff(lim: Limits)
    ensures lim.maxAttempts >= 1 <==>
              forall run :: WithinLimit(lim, Polls(lim, INITIAL, run))
  {
    hide Poll;
    if lim.maxAttempts >= 1 {
      forall run ensures WithinLimit(lim, Polls(lim, INITIAL, run)) {
        CountersBounded(lim, INITIAL, run);
      }
    } else {
      var o := UNREACHABLE;
      ZeroLimitSpends(lim);
      assert [o][1..] == [];
      assert Polls(lim, INITIAL, [o]) == Polls(lim, Poll(lim, INITIAL, o).0, []);
      assert !WithinLimit(lim, Polls(lim, INITIAL, [o]));
    }
  }

  lemma ZeroLimitSpends(lim: Limits)
    requires lim.maxAttempts == 0
    ensures Poll(lim, INITIAL, UNREACHABLE).0.agg == 1
  {
    assert !Computing(UNREACHABLE.statuses) && UNREACHABLE.statuses[1] == OtherStatus;
  }

  /** Terminal elections are left alone for good. */
  lemma {:induction false} TerminalStays(lim: Limits, d: Driver, run: seq<Observed>)
    requires (d.done || d.failed)
    ensures Polls(lim, d, run) == d
    decreases |run|
  {
    if run != [] {
      TerminalStays(lim, d, run[1..]);
    }
  }

  function Spent(lim: Limits, d: Driver, run: seq<Observed>): (n: nat)
    decreases |run|
  {
    if run == [] then 0
    else (if Spends(lim, d, run[0]) then 1 else 0) + Spent(lim, Poll(lim, d, run[0]).0, run[1..])
  }

  ghost predicate NeverAbandons(lim: Limits, d: Driver, run: seq<Observed>)
    decreases |run|
  {
    run != [] ==> Poll(lim, d, run[0]).1 != Abandoned && NeverAbandons(lim, Poll(lim, d, run[0]).0, run[1..])
  }

  ghost predicate Unspent(lim: Limits, d: Driver)
  {
    d.agg < Cap(lim) && d.dec < Cap(lim)
  }

  lemma PollSpends(lim: Limits, d: Driver, o: Observed)
    requires Unspent(lim, d) && Poll(lim, d, o).1 != Abandoned
    ensures var d' := Poll(lim, d, o).0;
            Unspent(lim, d') && d'.agg + d'.dec == d.agg + d.dec + (if Spends(lim, d, o) then 1 else 0)
  {
    hide DriveAggregate, DriveDecrypt, Backoff, Computing;
    TallyPollFacts(lim, d, o);
  }

  /** No tally is retriggered forever: as long as it is not marked stalled, the polls that
      counted against it are fewer than the two budgets together, however long the run. */
  lemma {:induction false} AttemptsBounded(lim: Limits, d: Driver, run: seq<Observed>)
    requires Unspent(lim, d) && NeverAbandons(lim, d, run)
    ensures d.agg + d.dec + Spent(lim, d, run) <= 2 * (Cap(lim) - 1)
    decreases |run|
  {
    hide Poll, Spends;
    if run != [] {
      PollSpends(lim, d, run[0]);
      AttemptsBounded(lim, Poll(lim, d, run[0]).0, run[1..]);
    }
  }

  // ----- key-generation back-off -----

  /** Waiting times never shrink and never exceed the cap. */
  lemma BackoffGrows(lim: Limits, j: nat, k: nat)
    requires 1 <= j <= k
    ensures Backoff(lim, j) <= Backoff(lim, k) <= lim.backoffCap
    decreases k
  {
    if j < k {
      BackoffGrows(lim, j, k - 1);
      assert Pow2(k - 1) == 2 * Pow2(k - 2);
      DoubleAtLeast(lim.backoffBase, Pow2(k - 2));
    }
  }

  /** The first wait is the base, every further one the double of the one before, up to the cap. */
  lemma BackoffDoubles(lim: Limits, k: nat)
    requires k >= 1
    ensures Backoff(lim, 1) == if lim.backoffBase <= lim.backoffCap then lim.backoffBase else lim.backoffCap
    ensures var twice := 2 * Backoff(lim, k);
            Backoff(lim, k + 1) == if twice <= lim.backoffCap then twice else lim.backoffCap
  {
    assert Pow2(k) == 2 * Pow2(k - 1) && Pow2(0) == 1;
    assert lim.backoffBase * (2 * Pow2(k - 1)) == 2 * (lim.backoffBase * Pow2(k - 1));
  }

  lemma DoubleAtLeast(a: nat, b: nat)
    ensures a * b <= a * (2 * b)
  {
    assert a * (2 * b) == a * b + a * b;
  }

  ghost predicate Starts(lim: Limits, d: Driver, o: Observed)
  {
    StartCeremony(o.now) in Poll(lim, d, o).2
  }

  lemma StartFacts(lim: Limits, d: Driver, o: Observed)
    ensures Starts(lim, d, o) ==> o.now >= d.nextAt
    ensures var d' := Poll(lim, d, o).0;
            && (Starts(lim, d, o) && Poll(lim, d, o).1 == RetryLater ==>
                  d'.attempts == d.attempts + 1 && d'.nextAt == o.now + Backoff(lim, d.attempts + 1))
            && (Poll(lim, d, o).1 != RetryLater ==> d'.attempts == d.attempts && d'.nextAt == d.nextAt)
            && (Poll(lim, d, o).1 == RetryLater ==> Starts(lim, d, o))
  {
    hide Computing, AllSubmitted, Backoff;
  }

  /** Ceremonies are spaced out: after the k-th failed one, no later poll of any run starts
      another before the k-th back-off has elapsed. */
  lemma {:induction false} CeremoniesSpaced(lim: Limits, d: Driver, o: Observed, between: seq<Observed>, next: Observed)
    requires Poll(lim, d, o).1 == RetryLater
    requires Starts(lim, Polls(lim, Poll(lim, d, o).0, between), next)
    ensures next.now >= o.now + Backoff(lim, d.attempts + 1)
  {
    hide Poll, Starts, Backoff;
    var d' := Poll(lim, d, o).0;
    StartFacts(lim, d, o);
    StartFacts(lim, Polls(lim, d', between), next);
    NextAtGrows(lim, d', between);
  }

  lemma {:induction false} NextAtGrows(lim: Limits, d: Driver, run: seq<Observed>)
    ensures Polls(lim, d, run).nextAt >= d.nextAt
    decreases |run|
  {
    hide Poll, Starts, Backoff;
    if run != [] {
      StartFacts(lim, d, run[0]);
      NextAtGrows(lim, Poll(lim, d, run[0]).0, run[1..]);
    }
  }
}

/** The asynchronous aggregate workers of one election at one keyper
    (services/keyper/keyper_server.py). */
module AggregateWorkers {

  datatype Mark = NotStarted | Running | Submitted

  /** The mark in the dictionary, workers whose thread is about to start, and workers that have
      not yet reported back. */
  datatype Work = Work(mark: Mark, pending: nat, alive: nat)

  datatype Step = Trigger(recompute: bool) | ThreadStarts | WorkerEnds(succeeded: bool)

  datatype TriggerAnswer = RepliesSubmitted | RepliesInProgress | RepliesStarted

  function TriggerReply(mark: Mark, recompute: bool): TriggerAnswer
  {
    if mark.Submitted? && !recompute then RepliesSubmitted
    else if mark.Running? then RepliesInProgress
    else RepliesStarted
  }

  /** Steps that cannot happen (no thread to start, no worker to end) change nothing. */
  function NextWork(w: Work, step: Step): Work
  {
    match step
    case Trigger(recompute) =>
      if TriggerReply(w.mark, recompute).RepliesStarted? then Work(Running, w.pending + 1, w.alive) else w
    case ThreadStarts => if w.pending > 0 then Work(w.mark, w.pending - 1, w.alive + 1) else w
    case WorkerEnds(succeeded) =>
      if w.alive > 0 then Work(if succeeded then Submitted else NotStarted, w.pending, w.alive - 1) else w
  }

  /** Marked running exactly when one worker exists, and never more than one. */
  ghost predicate OneWorker(w: Work)
  {
    if w.mark.Running? then w.pending + w.alive == 1 else w.pending == 0 && w.alive == 0
  }

  /** A worker is started only when there is none. */
  lemma StepKeepsOne(w: Work, step: Step)
    requires OneWorker(w)
    ensures OneWorker(NextWork(w, step))
    ensures NextWork(w, step).pending > w.pending ==> w.pending == 0 && w.alive == 0
  {
    match step
    case Trigger(_) =>
    case ThreadStarts =>
    case WorkerEnds(_) =>
  }

  /** A trigger starts a worker exactly when none is at work and there is something to derive: no
      tally submitted yet, or a recomputation asked for. */
  lemma TriggerStartsIff(w: Work, recompute: bool)
    requires OneWorker(w)
    ensures TriggerReply(w.mark, recompute).RepliesStarted? <==>
              w.pending + w.alive == 0 && (recompute || !w.mark.Submitted?)
    ensures TriggerReply(w.mark, recompute).RepliesInProgress? <==> w.pending + w.alive == 1
    ensures var w' := NextWork(w, Trigger(recompute));
            if TriggerReply(w.mark, recompute).RepliesStarted? then w' == Work(Running, 1, 0) else w' == w
  {
  }

  /** A worker that was started and ends leaves nobody at work, and the election marked submitted
      exactly if it succeeded; a failed one makes room for the next trigger. */
  lemma WorkerRuns(w: Work, recompute: bool, succeeded: bool)
    requires OneWorker(w) && TriggerReply(w.mark, recompute).RepliesStarted?
    ensures Interleave(w, [Trigger(recompute), ThreadStarts, WorkerEnds(succeeded)])
         == Work(if succeeded then Submitted else NotStarted, 0, 0)
    ensures !succeeded ==> TriggerReply(NotStarted, recompute).RepliesStarted?
  {
    var run := [Trigger(recompute), ThreadStarts, WorkerEnds(succeeded)];
    assert run[1..][1..] == [WorkerEnds(succeeded)] && run[1..][0] == ThreadStarts && run[1..][1..][1..] == [];
    TriggerStartsIff(w, recompute);
    var w1 := NextWork(w, run[0]);
    var w2 := NextWork(w1, ThreadStarts);
    assert Interleave(w2, [WorkerEnds(succeeded)]) == Interleave(NextWork(w2, WorkerEnds(succeeded)), []);
  }

  function Interleave(w: Work, run: seq<Step>): Work
    decreases |run|
  {
    if run == [] then w else Interleave(NextWork(w, run[0]), run[1..])
  }

  /** In every interleaving of triggers, thread starts and worker exits, the election is marked
      running exactly while one worker is at work on it. */
  lemma {:induction false} AtMostOneWorker(w: Work, run: seq<Step>)
    requires OneWorker(w)
    ensures OneWorker(Interleave(w, run))
    decreases |run|
  {
    if run != [] {
      StepKeepsOne(w, run[0]);
      AtMostOneWorker(NextWork(w, run[0]), run[1..]);
    }
  }

  /** The dictionary entry and the handlers that touch it under the lock. */
  class AggregateState {
    var mark: Mark
    ghost var pending: nat
    ghost var alive: nat

    ghost function Contents(): Work
      reads this
    {
      Work(mark, pending, alive)
    }

    ghost predicate Valid()
      reads this
    {
      OneWorker(Contents())
    }

    constructor ()
      ensures Valid() && Contents() == Work(NotStarted, 0, 0)
    {
      mark, pending, alive := NotStarted, 0, 0;
    }

    /** POST /aggregate once its guards have passed. */
    method HandleTrigger(recompute: bool) returns (r: TriggerAnswer)
      requires Valid()
      modifies this
      ensures Valid() && r == TriggerReply(old(Contents()).mark, recompute)
      ensures Contents() == NextWork(old(Contents()), Trigger(recompute))
    {
      StepKeepsOne(Contents(), Trigger(recompute));
      if mark.Submitted? && !recompute {
        r := RepliesSubmitted;
      } else if mark.Running? {
        r := RepliesInProgress;
      } else {
        mark := Running;
        pending := pending + 1;
        r := RepliesStarted;
      }
    }

    /** The thread of an accepted trigger begins to run. */
    method HandleThreadStart()
      requires Valid() && pending > 0
      modifies this
      ensures Valid() && Contents() == NextWork(old(Contents()), ThreadStarts)
      ensures alive > 0
    {
      pending, alive := pending - 1, alive + 1;
    }

    /** The end of a worker: submitted, or dropped back so that a later trigger retries. */
    method HandleWorkerEnd(succeeded: bool)
      requires Valid() && alive > 0
      modifies this
      ensures Valid()
      ensures Contents() == NextWork(old(Contents()), WorkerEnds(succeeded))
      ensures pending == 0 && alive == 0
    {
      mark := if succeeded then Submitted else NotStarted;
      alive := alive - 1;
    }
  }
}
