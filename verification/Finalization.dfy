/** Publishing the result (services/tally_aggregator/tally_aggregator.py), and what a published
    result means on every run of the whole system. */
module Finalization {
  import opened Field
  import opened Group
  import KeyperInbox
  import opened Bytes
  import opened Transcripts
  import opened Sums
  import opened Quorum
  import opened Election
  import opened Ballot
  import opened Admission
  import opened Aggregation
  import opened Recovery
  import opened Dkg
  import opened EndToEnd
  import opened Board
  import opened DataLayer
  import opened HonestAggregate

  datatype FinalizeOutcome =
    | AlreadyPublished(result: ResultArtifact)
    | CannotFinalize
    | SharesRaise
    | NotEnoughYet
    | PublishRefused
    | PublishedNow(result: ResultArtifact)

  /** list_decryption_shares: the shares of keypers 1..k in index order. */
  function ShareList(shares: map<int, ShareEnvelope>, k: nat): seq<ShareEnvelope>
  {
    if k == 0 then []
    else if k in shares then ShareList(shares, k - 1) + [shares[k]]
    else ShareList(shares, k - 1)
  }

  method ListShares(shares: map<int, ShareEnvelope>, n: nat) returns (r: seq<ShareEnvelope>)
    ensures r == ShareList(shares, n)
  {
    r := [];
    for i := 1 to n + 1
      invariant r == ShareList(shares, i - 1)
    {
      if i in shares {
        r := r + [shares[i]];
      }
    }
  }

  /** What the board hands to recovery for the finalized key and the canonical tally. */
  ghost function TallyInputs(config: Config, st: Stored, k: KeyVote, t: Tally): Inputs
    requires config.Valid()
  {
    Inputs(config.electionId, t.aggregates, ShareList(st.shares, config.threshold.n), k.committee, config.threshold.t)
  }

  /** The result that recovery yields for this key and tally. */
  ghost predicate RecoversAs(s: Suite, st: Stored, k: KeyVote, t: Tally, result: ResultArtifact)
    requires s.q > 1 && st.config.Valid()
  {
    var inp, bound := TallyInputs(st.config, st, k, t), BsgsBound(st.config, t.totalScaledWeight);
    && RecoversTo(s, inp, bound, result.totals)
    && result == ResultArtifact(st.config.electionId, result.totals, DerivedUpTo(s, inp, |inp.aggregates|).indices,
                                bound)
  }

  /** A result the board's finalized key, canonical tally and shares give. */
  ghost predicate BoardRecovers(s: Suite, st: Stored, result: ResultArtifact)
    requires s.q > 1 && st.config.Valid()
  {
    exists k, t :: KeyIs(st, k) && AggregateIs(st, t) && RecoversAs(s, st, k, t, result)
  }

  /** When `who` may publish `result` at `now`. */
  ghost predicate MayPublish(s: Suite, st: Stored, who: bytes, now: int, result: ResultArtifact)
    requires s.q > 1 && st.config.Valid()
  {
    && StateOf(st, now) in {Tallying, TallyStalled} && who == st.config.resultPublisherKey
    && BoardRecovers(s, st, result)
  }

  /** finalize: it publishes exactly when the state is Tallying, marked stalled or not, the caller
      is the publisher and recovery yields totals; and it publishes only such a result. */
  method Finalize(s: Suite, st: Stored, who: bytes, now: int) returns (r: FinalizeOutcome, after: Stored)
    requires s.q > 1 && Inv(st)
    ensures st.config.Valid()
    ensures after == if r.PublishedNow? then After(st, PublishResult(r.result, Some(who)), now) else st
    ensures r.AlreadyPublished? ==> st.result == Some(r.result)
    ensures r.PublishedNow? ==> MayPublish(s, st, who, now, r.result) && after.result == Some(r.result)
    ensures (exists result :: MayPublish(s, st, who, now, result)) ==> r.PublishedNow?
    ensures r.AlreadyPublished? <==> StateOf(st, now) == Complete
    ensures r.CannotFinalize? <==>
              StateOf(st, now) != Complete && !(StateOf(st, now) in {Tallying, TallyStalled} && AggregateFinalized(st))
    ensures r.PublishRefused? ==> who != st.config.resultPublisherKey && exists result :: BoardRecovers(s, st, result)
  {
    hide Wins, Inv, RecoversTo, DerivedUpTo, Recoverable, KeyIs, AggregateIs;
    after := st;
    InvHasConfig(st);
    var key := FinalizedKeyOf(st);
    var state := DeriveState(st.config, Facts(st.cancelled, key.Some?, st.result.Some?, false), now);
    if state == Complete {
      return AlreadyPublished(st.result.value), after;
    }
    if state != Tallying {
      return CannotFinalize, after;
    }
    var agg := CanonicalAggregateOf(st);
    if agg.None? || key.None? {
      NothingToRecover(s, st);
      return CannotFinalize, after;
    }
    var shares := ListShares(st.shares, st.config.threshold.n);
    var found := RecoverResult(s, st.config, agg.value, shares, key.value.committee, st.config.threshold.t, None);
    OnlyThisRecovery(s, st, key.value, agg.value.tally);
    if found.RecoveryRaises? {
      return SharesRaise, after;
    }
    if !found.Found? {
      return NotEnoughYet, after;
    }
    assert RecoversAs(s, st, key.value, agg.value.tally, found.result);
    assert BoardRecovers(s, st, found.result);
    if who != st.config.resultPublisherKey {
      return PublishRefused, after;
    }
    after := st.(result := Some(found.result));
    return PublishedNow(found.result), after;
  }

  /** What finalize publishes names a quorum of different committee members: those of the first
      shares, in keyper order, whose proof for the first candidate is accepted. */
  lemma PublishedNamesQuorum(s: Suite, st: Stored, who: bytes, now: int, result: ResultArtifact, k: KeyVote, t: Tally)
    returns (places: seq<nat>)
    requires s.q > 1 && Inv(st) && KeyIs(st, k) && AggregateIs(st, t) && t.aggregates != []
    requires st.config.Valid() && MayPublish(s, st, who, now, result)
    ensures NamesFirstQuorum(s, TallyInputs(st.config, st, k, t), result.keyperIndices, places)
    ensures |result.keyperIndices| == st.config.threshold.t
    ensures forall i :: 0 <= i < |result.keyperIndices| ==> 1 <= result.keyperIndices[i] <= |k.committee|
    ensures var ids := result.keyperIndices; forall i, j :: 0 <= i < j < |ids| ==> ids[i] != ids[j]
  {
    hide KeyIs, AggregateIs, DerivedUpTo, NamesFirstQuorum, ShareList, StateOf, AggregateFinalized;
    InvHasConfig(st);
    var inp := TallyInputs(st.config, st, k, t);
    var k', t' :| KeyIs(st, k') && AggregateIs(st, t') && RecoversAs(s, st, k', t', result);
    OneKey(st, k, k');
    OneTally(st, t, t');
    PublishedIndices(s, inp);
    places :| NamesFirstQuorum(s, inp, result.keyperIndices, places);
    ShareListDistinct(st.shares, st.config.threshold.n);
    NamedKeypers(s, inp, result.keyperIndices, places);
    NamedCount(s, inp, result.keyperIndices, places);
  }

  lemma NamedCount(s: Suite, inp: Inputs, indices: seq<int>, places: seq<nat>)
    requires s.q > 1 && NamesFirstQuorum(s, inp, indices, places)
    ensures |indices| == inp.quorum
  {
  }

  lemma NothingToRecover(s: Suite, st: Stored)
    requires s.q > 1 && st.config.Valid() && (!KeyFinalized(st) || !AggregateFinalized(st))
    ensures forall result :: !BoardRecovers(s, st, result)
  {
    hide Wins, RecoversAs;
  }

  /** Key and tally are unique, so whatever the board recovers it recovers from these. */
  lemma OnlyThisRecovery(s: Suite, st: Stored, k: KeyVote, t: Tally)
    requires s.q > 1 && Inv(st) && KeyIs(st, k) && AggregateIs(st, t)
    ensures st.config.Valid()
    ensures var inp, bound := TallyInputs(st.config, st, k, t), BsgsBound(st.config, t.totalScaledWeight);
            forall result :: BoardRecovers(s, st, result) ==> Recoverable(s, inp, bound)
  {
    hide Wins, RecoversTo, TallyInputs;
    InvHasConfig(st);
    forall result | BoardRecovers(s, st, result)
      ensures Recoverable(s, TallyInputs(st.config, st, k, t), BsgsBound(st.config, t.totalScaledWeight))
    {
      var k', t' :| KeyIs(st, k') && AggregateIs(st, t') && RecoversAs(s, st, k', t', result);
      OneKey(st, k, k');
      OneTally(st, t, t');
    }
  }

  lemma OneTally(st: Stored, t: Tally, t': Tally)
    requires Inv(st) && AggregateIs(st, t) && AggregateIs(st, t')
    ensures t == t'
  {
    OneWinner(Tallies(st.aggregates), st.config.threshold.n, st.config.threshold.t, t, t');
  }

  // ----- a recovered result is the true one -----

  /** The list holds exactly the stored shares of keypers 1..k, in the order of their indices. */
  lemma {:induction false} ShareListOrdered(shares: map<int, ShareEnvelope>, k: nat)
    requires forall i :: i in shares ==> shares[i].keyperIndex == i
    ensures var list := ShareList(shares, k);
            && (forall share :: share in list <==>
                  share.keyperIndex in shares && shares[share.keyperIndex] == share && 1 <= share.keyperIndex <= k)
            && forall i, j :: 0 <= i < j < |list| ==> list[i].keyperIndex < list[j].keyperIndex
  {
    if k > 0 {
      ShareListOrdered(shares, k - 1);
    }
  }

  lemma {:induction false} ShareListDistinct(shares: map<int, ShareEnvelope>, k: nat)
    requires forall i :: i in shares ==> shares[i].keyperIndex == i
    ensures DistinctKeypers(ShareList(shares, k))
    ensures forall i :: 0 <= i < |ShareList(shares, k)| ==> 1 <= ShareList(shares, k)[i].keyperIndex <= k
  {
    if k > 0 {
      ShareListDistinct(shares, k - 1);
    }
  }

  /** Having recovered anything, every candidate had its quorum of counted shares. */
  lemma RecoveredHadQuorum(s: Suite, inp: Inputs, key: KeyResult, bound: int, totals: seq<int>)
    requires s.q > 1 && RecoversTo(s, inp, bound, totals)
    requires |inp.committee| == |key.committee| && DistinctKeypers(inp.shares) && AllSound(s, inp, key)
    ensures Decryptable(s, inp, key)
  {
    hide Counted, SoundAt, DerivedUpTo, SolvesAll, Stumbles;
    DerivedIff(s, inp, |inp.aggregates|);
    forall j | 0 <= j < |inp.aggregates| ensures DecryptableAt(s, inp, key, j) {
      assert TauOf(s, inp, j).Tau?;
    }
  }

  /** Whole-system tally integrity. On every run with fewer than a quorum of deviating keypers:
      if the finalized key lies on a polynomial of t coefficients, the ballots admitted from the
      final list hold the votes their proofs claim and accepted shares are sound, then totals
      recovered from the board are exactly the weighted totals of those votes, and they add up
      to the budget times the scaled weight. */
  lemma RecoveredIsTrueTally(w: World, config: Config, start: int, run: seq<Action>, sys: Sys, k: KeyVote, t: Tally,
                             key: KeyResult, f: seq<int>, os: seq<Opening>, totals: seq<int>)
    requires w.s.Valid() && IsPrime(w.s.q) && config.Valid() && config.threshold.n < w.s.q
    requires |w.bad| < config.threshold.t
    requires Reaches(w, InitialSys(config, start), run, sys) && KeyIs(sys.st, k) && AggregateIs(sys.st, t)
    requires w.s.decode2(k.pk) == Some(key.pk) && CommitteeOf(w.s, k.committee, key)
    requires OnPolynomial(key, f, config.threshold.n, w.s.q) && |f| <= config.threshold.t
    requires var admitted := Admit(sys.st.ballots, JudgeOf(w.s, w.verify, config, key.pk), config.policy).admitted;
             && AllOpen(w.s, key.pk, admitted, os, config.numCandidates)
             && SpendExactly(os, config.budget, config.numCandidates)
    requires BsgsBound(config, t.totalScaledWeight) < w.s.q
    requires |k.committee| == |key.committee| && AllSound(w.s, TallyInputs(config, sys.st, k, t), key)
    requires RecoversTo(w.s, TallyInputs(config, sys.st, k, t), BsgsBound(config, t.totalScaledWeight), totals)
    ensures var admitted := Admit(sys.st.ballots, JudgeOf(w.s, w.verify, config, key.pk), config.policy).admitted;
            && totals == Totals(admitted, os, config.scale, config.numCandidates)
            && SumVotes(totals) == config.budget * ScaledTotal(admitted, config.scale)
  {
    hide RecoversTo, CheckAccepts, Totals, ScaledTotal, TallyOf, Admit, AllOpen, SpendExactly, OnPolynomial, IsPrime,
         Decryptable, Aggregable, AllSound, CommitteeOf, DistinctKeypers, JudgeOf, ShareList, Reaches, AggregateIs,
         KeyIs, Inv, IsHonestTally;
    var a := Admit(sys.st.ballots, JudgeOf(w.s, w.verify, config, key.pk), config.policy);
    var inp := TallyInputs(config, sys.st, k, t);
    CanonicalIsHonest(w, config, start, run, sys, t);
    HonestTallyIs(w.s, w.verify, config, k.pk, sys.st.ballots, t);
    BoardReady(w, config, start, run, sys);
    AdmittedAggregates(w.s, w.verify, config, key.pk, sys.st.ballots);
    RecoveredHadQuorum(w.s, inp, key, BsgsBound(config, t.totalScaledWeight), totals);
    EndToEndTally(w.s, config, key, f, a, os, inp);
  }

  lemma HonestTallyIs(s: Suite, verify: VerifyAttestation, config: Config, pk: bytes, ballots: seq<StoredBallot>,
                      t: Tally)
    requires s.q > 1 && config.Valid() && DeriveTally(s, verify, config, pk, ballots) == Some(t)
    ensures s.decode2(pk).Some?
    ensures t == TallyOf(s, config, Admit(ballots, JudgeOf(s, verify, config, s.decode2(pk).value), config.policy))
  {
    hide Judge, Admit, TallyOf;
  }

  /** The points behind a key vote. */
  ghost function KeyOf(s: Suite, k: KeyVote): KeyResult
  {
    KeyResult(PointOr(s, k.pk), seq(|k.committee|, i requires 0 <= i < |k.committee| => PointOr(s, k.committee[i])))
  }

  ghost function PointOr(s: Suite, b: bytes): Point
  {
    if s.decode2(b).Some? then s.decode2(b).value else 0
  }

  /** A vote derived from an inbox, with one key per member, lies on a polynomial of t
      coefficients. A keyper that lacks a dealer's commitments publishes a shorter list. */
  lemma VoteOnPolynomial(w: World, config: Config, i: int, k: KeyVote) returns (f: seq<int>)
    requires w.s.Valid() && config.Valid() && 1 <= i <= config.threshold.n
    requires VoteDerived(w, config, i, k) && |k.committee| == config.threshold.n
    ensures |f| == config.threshold.t && OnPolynomial(KeyOf(w.s, k), f, config.threshold.n, w.s.q)
    ensures w.s.decode2(k.pk) == Some(KeyOf(w.s, k).pk) && CommitteeOf(w.s, k.committee, KeyOf(w.s, k))
    ensures |KeyOf(w.s, k).committee| == |k.committee|
  {
    hide OnPolynomial, KeyperInbox.PublicationOf, KeyperInbox.BoxInv, KeyperInbox.Attained, Joint;
    var h, out :| VoteFrom(w, config, i, k, h, out);
    var box := h.box;
    KeyperInbox.AttainedInv(w.s, SeatOf(config, i), h);
    KeyperInbox.FullPublication(w.s, SeatOf(config, i), box, out);
    PublishedOnJoint(box.commitments, config.threshold.n, config.threshold.t, w.s.q, out);
    PublishedPoints(w.s, box.commitments, config.threshold.n, config.threshold.t, out, k);
    f := Joint(box.commitments, config.threshold.t);
  }

  lemma PublishedPoints(s: Suite, all: Commitments, n: nat, t: nat, out: KeyResult, k: KeyVote)
    requires s.Valid() && Publishes(all, n, t, s.q, out)
    requires k.pk == s.encode2(out.pk) && k.committee == KeyperInbox.EncodePoints(s, out.committee)
    ensures KeyOf(s, k) == out && s.decode2(k.pk) == Some(out.pk) && CommitteeOf(s, k.committee, out)
  {
    hide Cong, SumMap, ValuesAt, LengthsOk;
    forall i | 0 <= i < |out.committee| ensures s.decode2(k.committee[i]) == Some(out.committee[i]) {
      assert IsPublicShare(out.committee[i], all, i + 1, s.q);
    }
  }

  lemma PublishedRecovers(s: Suite, st: Stored, k: KeyVote, t: Tally, who: bytes, now: int, result: ResultArtifact)
    requires s.q > 1 && Inv(st) && st.config.Valid() && KeyIs(st, k) && AggregateIs(st, t)
    requires MayPublish(s, st, who, now, result)
    ensures RecoversTo(s, TallyInputs(st.config, st, k, t), BsgsBound(st.config, t.totalScaledWeight), result.totals)
  {
    hide Inv, KeyIs, AggregateIs, RecoversTo, DerivedUpTo, StateOf, TallyInputs;
    var k', t' :| KeyIs(st, k') && AggregateIs(st, t') && RecoversAs(s, st, k', t', result);
    OneKey(st, k, k');
    OneTally(st, t, t');
  }

  /** Whole-system integrity of a published result. On every run with fewer than a quorum of
      deviating keypers, where the finalized key lists one public key per member: if the ballots
      admitted from the final list hold the votes their proofs claim, counted shares are sound
      and the bound is below the group order, then whatever finalize may publish is exactly the
      weighted totals of those votes. */
  lemma PublishedResultIsTrue(w: World, config: Config, start: int, run: seq<Action>, sys: Sys, k: KeyVote, t: Tally,
                              os: seq<Opening>, who: bytes, now: int, result: ResultArtifact)
    requires w.s.Valid() && IsPrime(w.s.q) && config.Valid() && config.threshold.n < w.s.q
    requires |w.bad| < config.threshold.t
    requires Reaches(w, InitialSys(config, start), run, sys) && KeyIs(sys.st, k) && AggregateIs(sys.st, t)
    requires sys.st.config.Valid() && MayPublish(w.s, sys.st, who, now, result)
    requires |k.committee| == config.threshold.n && BsgsBound(config, t.totalScaledWeight) < w.s.q
    requires var admitted := Admit(sys.st.ballots, JudgeOf(w.s, w.verify, config, KeyOf(w.s, k).pk),
                                   config.policy).admitted;
             && AllOpen(w.s, KeyOf(w.s, k).pk, admitted, os, config.numCandidates)
             && SpendExactly(os, config.budget, config.numCandidates)
    requires AllSound(w.s, TallyInputs(config, sys.st, k, t), KeyOf(w.s, k))
    ensures var admitted := Admit(sys.st.ballots, JudgeOf(w.s, w.verify, config, KeyOf(w.s, k).pk),
                                  config.policy).admitted;
            && result.totals == Totals(admitted, os, config.scale, config.numCandidates)
            && SumVotes(result.totals) == config.budget * ScaledTotal(admitted, config.scale)
  {
    hide RecoversTo, Totals, ScaledTotal, Admit, AllOpen, SpendExactly, OnPolynomial, IsPrime, AllSound, CommitteeOf,
         JudgeOf, TallyInputs, Reaches, AggregateIs, KeyIs, Inv, VoteDerived, KeyOf, MayPublish;
    BoardReady(w, config, start, run, sys);
    var i := FinalKeyIsDerived(w, config, start, run, sys, k);
    var f := VoteOnPolynomial(w, config, i, k);
    PublishedRecovers(w.s, sys.st, k, t, who, now, result);
    RecoveredIsTrueTally(w, config, start, run, sys, k, t, KeyOf(w.s, k), f, os, result.totals);
  }

  /** On every run the stored shares name distinct keypers and the ballots distinct numbers. */
  lemma BoardReady(w: World, config: Config, start: int, run: seq<Action>, sys: Sys)
    requires w.s.q > 1 && config.Valid() && Reaches(w, InitialSys(config, start), run, sys)
    ensures Inv(sys.st) && sys.st.config == config
    ensures DistinctKeypers(ShareList(sys.st.shares, config.threshold.n)) && DistinctSeq(sys.st.ballots)
  {
    hide Reaches, ShareList, KeyIs, AggregateFinalized, DistinctKeypers;
    FreshInv(config);
    RunKeepsSysInv(w, InitialSys(config, start), run, sys);
    ReachesLater(w, InitialSys(config, start), run, sys);
    ShareListDistinct(sys.st.shares, config.threshold.n);
  }
}
