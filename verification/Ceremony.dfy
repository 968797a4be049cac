/** The coordinator's key-generation ceremony (services/coordinator/dkg_coordinator.py): phase
    calls, the bounded accuse, reveal and re-verify loop, and publication onto the board. Every
    reply of every keyper is arbitrary. */
module Ceremony {
  import opened Field
  import opened Sums
  import opened Quorum
  import opened Election
  import opened Board
  import opened BoardAuthority
  import opened DataLayer

  const MAX_REPAIR_ROUNDS: nat := 2

  datatype Round2Reply = NoAnswer | Verified | Unverified(accused: seq<int>)

  /** What a publish call does: the write it causes on the board, if any, and whether it answers. */
  datatype PublishReply = PublishReply(vote: Option<KeyVote>, answers: bool)

  /** All replies of one ceremony: phase calls by phase and keyper, round 2 by repair attempt and
      keyper, publish calls by keyper. Each is asked for once. */
  datatype Replies = Replies(phase: (nat, int) -> bool, round2: (nat, int) -> Round2Reply, publish: int -> PublishReply)

  datatype CeremonyOutcome =
    | CallFailed
    | UnresolvedComplaint(accusations: map<int, seq<int>>)
    | Finished(finalized: bool)

  // ----- complaints -----

  /** Who still complains after `k` repair attempts: of the committee at first, later only of
      those who complained before. */
  ghost function Complaining(replies: Replies, n: nat, k: nat): set<int>
  {
    if k == 0 then set i | i in Range(n) && replies.round2(0, i).Unverified?
    else set i | i in Complaining(replies, n, k - 1) && replies.round2(k, i).Unverified?
  }

  /** The complaining set only shrinks. */
  lemma {:induction false} ComplaintsShrink(replies: Replies, n: nat, j: nat, k: nat)
    requires j <= k
    ensures Complaining(replies, n, k) <= Complaining(replies, n, j) <= Range(n)
    decreases k
  {
    if j < k {
      ComplaintsShrink(replies, n, j, k - 1);
    } else if k > 0 {
      ComplaintsShrink(replies, n, k - 1, k - 1);
    }
  }

  /** round2_complaints over the given targets; nothing if some call fails. */
  method Round2Complaints(replies: Replies, attempt: nat, n: nat,
                          targets: set<int>) returns (r: Option<map<int, seq<int>>>)
    requires targets <= Range(n)
    ensures r.None? <==> exists i :: i in targets && replies.round2(attempt, i).NoAnswer?
    ensures r.Some? ==> r.value.Keys == set i | i in targets && replies.round2(attempt, i).Unverified?
    ensures r.Some? ==> forall i :: i in r.value ==> replies.round2(attempt, i) == Unverified(r.value[i])
  {
    var out: map<int, seq<int>> := map[];
    for i := 1 to n + 1
      invariant forall k :: k in out <==> 1 <= k < i && k in targets && replies.round2(attempt, k).Unverified?
      invariant forall k :: k in out ==> replies.round2(attempt, k) == Unverified(out[k])
      invariant forall k :: 1 <= k < i && k in targets ==> !replies.round2(attempt, k).NoAnswer?
    {
      if i in targets {
        var reply := replies.round2(attempt, i);
        if reply.NoAnswer? {
          return None;
        }
        if reply.Unverified? {
          out := out[i := reply.accused];
        }
      }
    }
    r := Some(out);
  }

  /** Re-deals the coordinator asks for in one repair round: accuser and accused dealer. */
  method RequestReveals(complaints: map<int, seq<int>>, n: nat) returns (asked: seq<(int, int)>)
    requires complaints.Keys <= Range(n)
    ensures forall p :: p in asked <==> p.0 in complaints && p.1 in complaints[p.0] && 1 <= p.1 <= n
  {
    asked := [];
    for i := 1 to n + 1
      invariant forall p :: p in asked <==> p.0 in complaints && p.0 < i && p.1 in complaints[p.0] && 1 <= p.1 <= n
    {
      if i in complaints {
        var before := asked;
        for k := 0 to |complaints[i]|
          invariant forall p :: p in asked <==>
                      (p in before || (p.0 == i && p.1 in complaints[i][..k] && 1 <= p.1 <= n))
        {
          assert complaints[i][..k + 1] == complaints[i][..k] + [complaints[i][k]];
          if 1 <= complaints[i][k] <= n {
            asked := asked + [(i, complaints[i][k])];
          }
        }
        assert complaints[i][..|complaints[i]|] == complaints[i];
      }
    }
  }

  /** One repair attempt's requests concern current complaints against committee members. */
  ghost predicate RedealsOk(replies: Replies, n: nat, k: nat, asked: seq<(int, int)>)
  {
    forall p :: p in asked ==> p.0 in Complaining(replies, n, k) && 1 <= p.1 <= n
  }

  /** Some round 2 call of attempt `k` does not answer. */
  ghost predicate Silent(replies: Replies, n: nat, k: nat)
  {
    exists i :: 1 <= i <= n && replies.round2(k, i).NoAnswer?
  }

  lemma ComplainingStep(replies: Replies, n: nat, k: nat)
    ensures Complaining(replies, n, k + 1)
         == set i | i in Complaining(replies, n, k) && replies.round2(k + 1, i).Unverified?
    ensures Complaining(replies, n, k) <= Range(n)
  {
    ComplaintsShrink(replies, n, k, k);
  }

  /** The repair loop. It ends after at most MAX_REPAIR_ROUNDS attempts, and after fewer only
      because nobody complains any more. */
  method Repair(replies: Replies, n: nat, first: map<int, seq<int>>)
    returns (r: Option<map<int, seq<int>>>, attempts: nat, redeals: seq<seq<(int, int)>>)
    requires first.Keys == Complaining(replies, n, 0)
    ensures attempts <= MAX_REPAIR_ROUNDS && |redeals| == attempts
    ensures r.Some? ==> r.value.Keys == Complaining(replies, n, attempts)
    ensures r.Some? ==> r.value == map[] || attempts == MAX_REPAIR_ROUNDS
    ensures r.None? ==> Silent(replies, n, attempts)
    ensures forall k :: 0 <= k < |redeals| ==> RedealsOk(replies, n, k, redeals[k])
  {
    hide Complaining, RedealsOk;
    var complaints := first;
    attempts, redeals := 0, [];
    while |complaints| != 0 && attempts < MAX_REPAIR_ROUNDS
      invariant attempts <= MAX_REPAIR_ROUNDS && |redeals| == attempts
      invariant complaints.Keys == Complaining(replies, n, attempts)
      invariant forall k :: 0 <= k < |redeals| ==> RedealsOk(replies, n, k, redeals[k])
      decreases MAX_REPAIR_ROUNDS - attempts
    {
      var next, asked := RepairRound(replies, n, attempts, complaints);
      redeals := redeals + [asked];
      attempts := attempts + 1;
      if next.None? {
        return None, attempts, redeals;
      }
      complaints := next.value;
    }
    r := Some(complaints);
  }

  method RepairRound(replies: Replies, n: nat, k: nat, complaints: map<int, seq<int>>)
    returns (r: Option<map<int, seq<int>>>, asked: seq<(int, int)>)
    requires complaints.Keys == Complaining(replies, n, k)
    ensures RedealsOk(replies, n, k, asked)
    ensures r.None? ==> Silent(replies, n, k + 1)
    ensures r.Some? ==> r.value.Keys == Complaining(replies, n, k + 1)
  {
    hide Complaining;
    ComplainingStep(replies, n, k);
    asked := RequestReveals(complaints, n);
    r := Round2Complaints(replies, k + 1, n, complaints.Keys);
  }

  // ----- publication -----

  ghost function WriteOf(config: Config, i: int, vote: KeyVote): Op
    requires 1 <= i <= |config.keypers|
  {
    SubmitDkg(vote, Some(config.keypers[i - 1]))
  }

  /** The board after the first `k` keypers have been asked, complaining ones left out. */
  ghost function PublishedTo(st: Stored, replies: Replies, complaining: set<int>, k: nat, now: int): (r: Stored)
    requires k <= |st.config.keypers|
    ensures r.config == st.config
  {
    if k == 0 then st
    else
      var before := PublishedTo(st, replies, complaining, k - 1, now);
      if k in complaining || replies.publish(k).vote.None? then before
      else
        StepIsLater(before, WriteOf(st.config, k, replies.publish(k).vote.value), now);
        After(before, WriteOf(st.config, k, replies.publish(k).vote.value), now)
  }

  /** submit_dkg_result as the board's transition. */
  method WriteVote(st: Stored, i: int, vote: KeyVote, now: int) returns (r: Stored)
    requires Inv(st) && 1 <= i <= |st.config.keypers|
    ensures r == After(st, WriteOf(st.config, i, vote), now)
    ensures Inv(r)
  {
    hide Inv;
    StepKeepsInv(st, WriteOf(st.config, i, vote), now);
    var k := KeyperIndex(st.config.keypers, Some(st.config.keypers[i - 1]));
    r := if k in st.dkg then st else st.(dkg := st.dkg[k := vote]);
  }

  lemma PublishedStep(st: Stored, replies: Replies, complaining: set<int>, i: nat, now: int)
    requires 1 <= i <= |st.config.keypers|
    ensures var before, vote := PublishedTo(st, replies, complaining, i - 1, now), replies.publish(i).vote;
            PublishedTo(st, replies, complaining, i, now)
            == if i in complaining || vote.None? then before else After(before, WriteOf(st.config, i, vote.value), now)
  {
    hide After;
  }

  /** The publish loop: keypers still complaining are never asked. */
  method PublishAll(st: Stored, replies: Replies, complaining: set<int>, now: int)
    returns (final: Stored, asked: set<int>, publishers: seq<int>)
    requires Inv(st)
    ensures Inv(final) && final == PublishedTo(st, replies, complaining, |st.config.keypers|, now)
    ensures forall i :: i in asked <==> 1 <= i <= |st.config.keypers| && i !in complaining
    ensures forall i :: i in publishers <==> i in asked && replies.publish(i).answers
  {
    hide Inv, After, PublishedTo;
    assert st == PublishedTo(st, replies, complaining, 0, now) by {
      PublishedNone(st, replies, complaining, now);
    }
    final, asked, publishers := st, {}, [];
    for i := 1 to |st.config.keypers| + 1
      invariant Inv(final) && final == PublishedTo(st, replies, complaining, i - 1, now)
      invariant forall k :: k in asked <==> 1 <= k < i && k !in complaining
      invariant forall k :: k in publishers <==> k in asked && replies.publish(k).answers
    {
      PublishedStep(st, replies, complaining, i, now);
      if i in complaining {
        continue;
      }
      asked := asked + {i};
      var reply := replies.publish(i);
      if reply.vote.Some? {
        final := WriteVote(final, i, reply.vote.value, now);
      }
      if reply.answers {
        publishers := publishers + [i];
      }
    }
  }

  lemma PublishedNone(st: Stored, replies: Replies, complaining: set<int>, now: int)
    ensures PublishedTo(st, replies, complaining, 0, now) == st
  {
  }

  // ----- the ceremony -----

  /** run_dkg_http. */
  method RunDkgHttp(st: Stored, replies: Replies, now: int)
    returns (r: CeremonyOutcome, final: Stored, attempts: nat, asked: set<int>)
    requires Inv(st)
    ensures attempts <= MAX_REPAIR_ROUNDS
    ensures r.CallFailed? ==> final == st && asked == {} && SomeCallFails(replies, |st.config.keypers|, attempts)
    ensures !r.CallFailed? ==> PhasesAnswer(replies, |st.config.keypers|)
    ensures !r.CallFailed? ==> forall i :: i in asked <==>
              1 <= i <= |st.config.keypers| && i !in Complaining(replies, |st.config.keypers|, attempts)
    ensures !r.CallFailed? ==>
              final == PublishedTo(st, replies, Complaining(replies, |st.config.keypers|, attempts),
                                   |st.config.keypers|, now)
    ensures r.Finished? ==> (r.finalized <==> KeyFinalized(final))
    ensures r.Finished? && !r.finalized ==> Complaining(replies, |st.config.keypers|, attempts) == {}
    ensures r.UnresolvedComplaint? ==> !KeyFinalized(final) && attempts == MAX_REPAIR_ROUNDS
    ensures r.UnresolvedComplaint? ==> r.accusations.Keys == Complaining(replies, |st.config.keypers|, attempts) != {}
  {
    hide Inv, KeyFinalized, Complaining, PublishedTo;
    final, attempts, asked := st, 0, {};
    var n := |st.config.keypers|;
    for p := 0 to 3
      invariant forall q, i :: 0 <= q < p && 1 <= i <= n ==> replies.phase(q, i)
    {
      for i := 1 to n + 1
        invariant forall k :: 1 <= k < i ==> replies.phase(p, k)
      {
        if !replies.phase(p, i) {
          return CallFailed, final, attempts, asked;
        }
      }
    }
    var first := Round2Complaints(replies, 0, n, Range(n));
    if first.None? {
      assert Silent(replies, n, 0);
      return CallFailed, final, attempts, asked;
    }
    InitialComplaints(replies, n);
    var complaints, rounds, _ := Repair(replies, n, first.value);
    attempts := rounds;
    if complaints.None? {
      return CallFailed, final, attempts, asked;
    }
    var publishers;
    final, asked, publishers := PublishAll(st, replies, complaints.value.Keys, now);
    var key := FinalizedKeyOf(final);
    if key.None? && complaints.value != map[] {
      return UnresolvedComplaint(complaints.value), final, attempts, asked;
    }
    return Finished(key.Some?), final, attempts, asked;
  }

  lemma InitialComplaints(replies: Replies, n: nat)
    ensures Complaining(replies, n, 0) == set i | i in Range(n) && replies.round2(0, i).Unverified?
  {
  }

  ghost predicate PhasesAnswer(replies: Replies, n: nat)
  {
    forall p, i :: 0 <= p < 3 && 1 <= i <= n ==> replies.phase(p, i)
  }

  /** Some phase call, or a round 2 call of an attempt that was made, does not answer. */
  ghost predicate SomeCallFails(replies: Replies, n: nat, attempts: nat)
  {
    || (exists p, i :: 0 <= p < 3 && 1 <= i <= n && !replies.phase(p, i))
    || (exists k :: 0 <= k <= attempts && Silent(replies, n, k))
  }

  // ----- the ceremony finalizes despite complaints -----

  /** The key slots after asking one more keyper. */
  lemma PublishedSlots(st: Stored, replies: Replies, complaining: set<int>, k: nat, now: int)
    requires st.config.Valid() && 1 <= k <= |st.config.keypers|
    ensures var before, vote := PublishedTo(st, replies, complaining, k - 1, now).dkg, replies.publish(k).vote;
            PublishedTo(st, replies, complaining, k, now).dkg
            == if k in complaining || vote.None? || k in before then before else before[k := vote.value]
  {
    hide After, PublishedTo, WriteOf;
    PublishedStep(st, replies, complaining, k, now);
    if replies.publish(k).vote.Some? {
      VoteStep(PublishedTo(st, replies, complaining, k - 1, now), k, replies.publish(k).vote.value, now);
    }
  }

  /** Keyper `i` is asked and its vote for `k` is what the board then holds in its slot. */
  lemma {:induction false} SlotsFill(st: Stored, replies: Replies, complaining: set<int>, k: nat, now: int, i: int,
                                     vote: KeyVote)
    requires st.config.Valid() && 1 <= i <= k <= |st.config.keypers| && i !in complaining
    requires replies.publish(i).vote == Some(vote) && (i in st.dkg ==> st.dkg[i] == vote)
    ensures i in PublishedTo(st, replies, complaining, k, now).dkg
    ensures PublishedTo(st, replies, complaining, k, now).dkg[i] == vote
    decreases k
  {
    hide PublishedTo;
    PublishedSlots(st, replies, complaining, k, now);
    if i < k {
      SlotsFill(st, replies, complaining, k - 1, now, i, vote);
    } else {
      SlotKept(st, replies, complaining, k - 1, now, i);
    }
  }

  /** Asking keypers below `i` leaves slot `i` as it was. */
  lemma {:induction false} SlotKept(st: Stored, replies: Replies, complaining: set<int>, k: nat, now: int, i: int)
    requires st.config.Valid() && 0 <= k < i <= |st.config.keypers|
    ensures var after := PublishedTo(st, replies, complaining, k, now);
            (i in after.dkg <==> i in st.dkg) && (i in st.dkg ==> after.dkg[i] == st.dkg[i])
    decreases k
  {
    hide PublishedTo;
    if k == 0 {
      PublishedNone(st, replies, complaining, now);
    } else {
      SlotKept(st, replies, complaining, k - 1, now, i);
      PublishedSlots(st, replies, complaining, k, now);
    }
  }

  /** The key slots after the publish calls: what was there stays, and exactly the keypers that were
      asked and sent a vote have filled a free slot with it. */
  lemma {:induction false} PublishedSlotsIff(st: Stored, replies: Replies, complaining: set<int>, k: nat, now: int,
                                             i: int)
    requires st.config.Valid() && k <= |st.config.keypers|
    ensures var after, vote := PublishedTo(st, replies, complaining, k, now).dkg, replies.publish(i).vote;
            && (i in after <==> i in st.dkg || (1 <= i <= k && i !in complaining && vote.Some?))
            && (i in after ==> after[i] == if i in st.dkg then st.dkg[i] else vote.value)
    decreases k
  {
    hide PublishedTo;
    if k == 0 {
      PublishedNone(st, replies, complaining, now);
    } else {
      PublishedSlotsIff(st, replies, complaining, k - 1, now, i);
      PublishedSlots(st, replies, complaining, k, now);
    }
  }

  /** A vote fills its keyper's slot if it is free and changes no other. */
  lemma VoteStep(st: Stored, i: int, vote: KeyVote, now: int)
    requires st.config.Valid() && 1 <= i <= |st.config.keypers|
    ensures After(st, WriteOf(st.config, i, vote), now).dkg == if i in st.dkg then st.dkg else st.dkg[i := vote]
  {
    hide KeyperIndex;
    OwnIndex(st.config, i);
  }

  /** One member cannot veto: if a quorum of keypers that no longer complain publish the same
      result into free slots, the key finalizes whatever the others reply. */
  lemma QuorumFinalizes(st: Stored, replies: Replies, complaining: set<int>, now: int, good: set<int>, vote: KeyVote)
    requires Inv(st) && good <= Range(|st.config.keypers|) - complaining && |good| >= st.config.threshold.t
    requires forall i :: i in good ==> replies.publish(i).vote == Some(vote) && (i in st.dkg ==> st.dkg[i] == vote)
    ensures KeyIs(PublishedTo(st, replies, complaining, |st.config.keypers|, now), vote)
  {
    hide PublishedTo;
    var final := PublishedTo(st, replies, complaining, |st.config.keypers|, now);
    forall i | i in good ensures i in Voters(final.dkg, vote) {
      SlotsFill(st, replies, complaining, |st.config.keypers|, now, i, vote);
    }
    SubsetSize(good, Voters(final.dkg, vote));
  }
}
