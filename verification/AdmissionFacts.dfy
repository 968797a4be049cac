/** What admission means in terms of the ballots themselves (core/admission.py): which facts
    every judgement, every admitted ballot and every published exclusion stands for, and the
    admitted totals as sums over the set of admitted ballots. */
module AdmissionFacts {
  import opened Field
  import opened Group
  import opened Sums
  import opened Transcripts
  import opened Ballot
  import opened Election
  import opened Admission
  import opened Aggregation

  // ----- judgements -----

  /** The ballot names this election. */
  ghost predicate Addressed(config: Config, sb: StoredBallot)
  {
    sb.envelope.ballot.electionId == config.electionId
  }

  /** The ballot carries no time, or one inside the voting window. */
  ghost predicate Timely(config: Config, sb: StoredBallot)
  {
    sb.submittedAt.Some? ==> config.votingStart <= sb.submittedAt.value < config.votingEnd
  }

  /** The issuer's credential is genuine and made out to this ballot's voter, key and election. */
  ghost predicate Attested(verify: VerifyAttestation, config: Config, sb: StoredBallot)
  {
    var b, att := sb.envelope.ballot, sb.envelope.att;
    && att.electionId == config.electionId && att.pseudonym == b.pseudonym && att.vk == b.vk
    && verify(config.eligibilityKey, att, config.electionId)
  }

  ghost function VerdictOn(s: Suite, config: Config, mpk: Point, sb: StoredBallot): Verdict
    requires s.q > 1
  {
    BallotVerdict(s, mpk, sb.envelope.ballot, sb.envelope.att, config.numCandidates, config.budget)
  }

  /** What a ballot needs in order to count. */
  ghost predicate Eligible(s: Suite, verify: VerifyAttestation, config: Config, mpk: Point, sb: StoredBallot)
    requires s.q > 1
  {
    && Addressed(config, sb) && Timely(config, sb) && Attested(verify, config, sb)
    && VerdictOn(s, config, mpk, sb) == Accept
  }

  /** The facts under which validation gives a reason. */
  ghost predicate GivenFor(s: Suite, verify: VerifyAttestation, config: Config, mpk: Point, sb: StoredBallot,
                           reason: Reason)
    requires s.q > 1
  {
    var v := VerdictOn(s, config, mpk, sb);
    var checked := Addressed(config, sb) && Timely(config, sb) && Attested(verify, config, sb);
    match reason
    case ReasonOutOfWindow => Addressed(config, sb) && !Timely(config, sb)
    case ReasonInvalidAttestation => Addressed(config, sb) && Timely(config, sb) && !Attested(verify, config, sb)
    case ReasonMalformed => !Addressed(config, sb) || (checked && v == Malformed)
    case ReasonInvalidProof => checked && v == InvalidProof
    case ReasonInvalidSignature => checked && (v == InvalidSignature || v == InvalidSignaturePreV2)
    case ReasonDuplicate => false
  }

  /** Every judgement, by the facts it stands for. */
  lemma JudgementIff(s: Suite, verify: VerifyAttestation, config: Config, mpk: Point, sb: StoredBallot)
    requires s.q > 1
    ensures Judge(s, verify, config, mpk, sb) == Valid <==> Eligible(s, verify, config, mpk, sb)
    ensures forall reason ::
              Judge(s, verify, config, mpk, sb) == Excluded(reason) <==> GivenFor(s, verify, config, mpk, sb, reason)
    ensures Judge(s, verify, config, mpk, sb) == Raised <==>
              && Addressed(config, sb) && Timely(config, sb) && Attested(verify, config, sb)
              && VerdictOn(s, config, mpk, sb) == Raises
  {
    hide BallotVerdict;
  }

  // ----- whole lists -----

  /** Whatever the numbering, every admitted ballot is on the list and eligible. */
  lemma AdmittedAreEligible(s: Suite, verify: VerifyAttestation, config: Config, mpk: Point,
                            ballots: seq<StoredBallot>, policy: DuplicatePolicy)
    requires s.q > 1
    ensures forall sb :: sb in Admit(ballots, JudgeOf(s, verify, config, mpk), policy).admitted ==>
              sb in ballots && Eligible(s, verify, config, mpk, sb)
  {
    hide Admit, Eligible, Judge;
    var judge := JudgeOf(s, verify, config, mpk);
    AdmittedAreValid(ballots, judge, policy);
    forall sb | sb in Admit(ballots, judge, policy).admitted ensures Eligible(s, verify, config, mpk, sb) {
      assert judge(sb) == Judge(s, verify, config, mpk, sb);
      JudgementIff(s, verify, config, mpk, sb);
    }
  }

  function Nonce(sb: StoredBallot): int
  {
    sb.envelope.att.nonce
  }

  /** `o` is another eligible ballot of the same voter that the policy prefers: a higher nonce
      under last-wins and a lower one under first-wins, the later respectively earlier
      submission where the nonces agree. */
  ghost predicate Supersedes(s: Suite, verify: VerifyAttestation, config: Config, mpk: Point,
                             o: StoredBallot, sb: StoredBallot)
    requires s.q > 1
  {
    && Eligible(s, verify, config, mpk, o) && Pseudonym(o) == Pseudonym(sb)
    && if config.policy.LastWins? then Nonce(o) > Nonce(sb) || (Nonce(o) == Nonce(sb) && o.seqNo > sb.seqNo)
       else Nonce(o) < Nonce(sb) || (Nonce(o) == Nonce(sb) && o.seqNo < sb.seqNo)
  }

  ghost predicate Superseded(s: Suite, verify: VerifyAttestation, config: Config, mpk: Point,
                             ballots: seq<StoredBallot>, sb: StoredBallot)
    requires s.q > 1
  {
    exists o :: o in ballots && Supersedes(s, verify, config, mpk, o, sb)
  }

  /** Admitted are exactly the eligible ballots that no eligible ballot of the same voter supersedes. */
  lemma AdmittedExactly(s: Suite, verify: VerifyAttestation, config: Config, mpk: Point,
                        ballots: seq<StoredBallot>, sb: StoredBallot)
    requires s.q > 1 && DistinctSeq(ballots)
    ensures sb in Admit(ballots, JudgeOf(s, verify, config, mpk), config.policy).admitted <==>
              && sb in ballots && Eligible(s, verify, config, mpk, sb)
              && !Superseded(s, verify, config, mpk, ballots, sb)
  {
    hide Admit, Eligible, Judge;
    var judge := JudgeOf(s, verify, config, mpk);
    AdmittedIff(ballots, judge, config.policy, sb);
    forall o ensures judge(o) == Valid <==> Eligible(s, verify, config, mpk, o) {
      assert judge(o) == Judge(s, verify, config, mpk, o);
      JudgementIff(s, verify, config, mpk, o);
    }
    forall o ensures Supersedes(s, verify, config, mpk, o, sb) <==>
                       judge(o) == Valid && Pseudonym(o) == Pseudonym(sb) && Beats(config.policy, o, sb) {
    }
  }

  /** A published exclusion names a stored ballot and a reason whose facts hold of it, and every
      ballot some reason applies to is listed under it. */
  lemma ExclusionsExplained(s: Suite, verify: VerifyAttestation, config: Config, mpk: Point,
                            ballots: seq<StoredBallot>, n: int, reason: Reason)
    requires s.q > 1 && DistinctSeq(ballots)
    ensures Exclusion(n, reason) in Admit(ballots, JudgeOf(s, verify, config, mpk), config.policy).exclusions <==>
              exists sb :: sb in ballots && sb.seqNo == n && Explains(s, verify, config, mpk, ballots, sb, reason)
  {
    hide Admit, Eligible, Judge, GivenFor, Admissible, Superseded;
    var judge := JudgeOf(s, verify, config, mpk);
    var x := Exclusion(n, reason);
    ExclusionsIff(ballots, judge, config.policy);
    forall sb | sb in ballots && sb.seqNo == n
      ensures ExcludedAs(SetOf(ballots), judge, config.policy, sb, x)
         <==> Explains(s, verify, config, mpk, ballots, sb, reason)
    {
      assert judge(sb) == Judge(s, verify, config, mpk, sb);
      JudgementIff(s, verify, config, mpk, sb);
      AdmittedIff(ballots, judge, config.policy, sb);
      AdmittedExactly(s, verify, config, mpk, ballots, sb);
      NeverDuplicate(s, verify, config, mpk, sb);
    }
  }

  ghost predicate Explains(s: Suite, verify: VerifyAttestation, config: Config, mpk: Point,
                           ballots: seq<StoredBallot>, sb: StoredBallot, reason: Reason)
    requires s.q > 1
  {
    if reason == ReasonDuplicate then
      Eligible(s, verify, config, mpk, sb) && Superseded(s, verify, config, mpk, ballots, sb)
    else GivenFor(s, verify, config, mpk, sb, reason)
  }

  lemma NeverDuplicate(s: Suite, verify: VerifyAttestation, config: Config, mpk: Point, sb: StoredBallot)
    requires s.q > 1
    ensures !GivenFor(s, verify, config, mpk, sb, ReasonDuplicate)
  {
  }

  // ----- order -----

  /** `sub` lists the elements of `all` at increasing places. */
  ghost predicate InOrder(sub: seq<StoredBallot>, all: seq<StoredBallot>, places: seq<int>)
  {
    && |places| == |sub|
    && (forall i :: 0 <= i < |sub| ==> 0 <= places[i] < |all| && all[places[i]] == sub[i])
    && forall i, k :: 0 <= i < k < |sub| ==> places[i] < places[k]
  }

  /** Admitted ballots keep the data layer's order. */
  lemma AdmittedInOrder(ballots: seq<StoredBallot>, judge: StoredBallot -> Judgement, policy: DuplicatePolicy)
    returns (places: seq<int>)
    ensures InOrder(Admit(ballots, judge, policy).admitted, ballots, places)
  {
    var valid := Valids(ballots, judge);
    var a := ValidsInOrder(ballots, judge);
    var b := WinnersInOrder(policy, valid, valid);
    places := OrderComposes(Winners(policy, valid, valid), valid, ballots, b, a);
  }

  lemma OrderComposes(a: seq<StoredBallot>, b: seq<StoredBallot>, c: seq<StoredBallot>, f: seq<int>, g: seq<int>)
    returns (h: seq<int>)
    requires InOrder(a, b, f) && InOrder(b, c, g)
    ensures InOrder(a, c, h)
  {
    h := seq(|f|, i requires 0 <= i < |f| => g[f[i]]);
  }

  lemma NoneInOrder(all: seq<StoredBallot>)
    ensures InOrder([], all, [])
  {
  }

  lemma InOrderLonger(sub: seq<StoredBallot>, all: seq<StoredBallot>, places: seq<int>)
    requires all != [] && InOrder(sub, all[..|all| - 1], places)
    ensures InOrder(sub, all, places)
    ensures InOrder(sub + [all[|all| - 1]], all, places + [|all| - 1])
  {
  }

  lemma {:induction false} ValidsInOrder(ballots: seq<StoredBallot>, judge: StoredBallot -> Judgement)
    returns (places: seq<int>)
    ensures InOrder(Valids(ballots, judge), ballots, places)
  {
    hide InOrder;
    places := [];
    NoneInOrder(ballots);
    if ballots != [] {
      var n := |ballots| - 1;
      places := ValidsInOrder(ballots[..n], judge);
      InOrderLonger(Valids(ballots[..n], judge), ballots, places);
      if judge(ballots[n]) == Valid {
        places := places + [n];
      }
    }
  }

  lemma {:induction false} WinnersInOrder(policy: DuplicatePolicy, all: seq<StoredBallot>, valid: seq<StoredBallot>)
    returns (places: seq<int>)
    ensures InOrder(Winners(policy, all, valid), valid, places)
  {
    hide Keeps, InOrder;
    places := [];
    NoneInOrder(valid);
    if valid != [] {
      var n := |valid| - 1;
      places := WinnersInOrder(policy, all, valid[..n]);
      InOrderLonger(Winners(policy, all, valid[..n]), valid, places);
      if Keeps(policy, all, valid[n]) {
        places := places + [n];
      }
    }
  }

  // ----- totals -----

  /** The sum of `f` over a set of ballots. */
  ghost function SetTotal(ballots: set<StoredBallot>, f: StoredBallot -> int): int
  {
    if ballots == {} then 0
    else
      var sb := Pick(ballots);
      f(sb) + SetTotal(ballots - {sb}, f)
  }

  /** Any ballot may be taken first. */
  lemma {:induction false} SetTotalPick(ballots: set<StoredBallot>, f: StoredBallot -> int, sb: StoredBallot)
    requires sb in ballots
    ensures SetTotal(ballots, f) == f(sb) + SetTotal(ballots - {sb}, f)
    decreases |ballots|
  {
    var o := Pick(ballots);
    if o != sb {
      SetTotalPick(ballots - {o}, f, sb);
      SetTotalPick(ballots - {sb}, f, o);
      assert ballots - {o} - {sb} == ballots - {sb} - {o};
    }
  }

  lemma SetOfSnoc(front: seq<StoredBallot>, last: StoredBallot)
    requires DistinctSeq(front + [last])
    ensures DistinctSeq(front) && SetOf(front + [last]) - {last} == SetOf(front) && last in SetOf(front + [last])
  {
    var all := front + [last];
    assert forall i :: 0 <= i < |front| ==> all[i] == front[i];
    assert all[|front|] == last;
    assert forall i :: 0 <= i < |front| ==> front[i].seqNo != last.seqNo;
  }

  /** The sum of `f` along a list. */
  ghost function ListTotal(ballots: seq<StoredBallot>, f: StoredBallot -> int): int
  {
    if ballots == [] then 0 else ListTotal(ballots[..|ballots| - 1], f) + f(ballots[|ballots| - 1])
  }

  /** Along a list without repetitions that is the sum over its set. */
  lemma {:induction false} ListTotalIsSetTotal(ballots: seq<StoredBallot>, f: StoredBallot -> int)
    requires DistinctSeq(ballots)
    ensures ListTotal(ballots, f) == SetTotal(SetOf(ballots), f)
  {
    if ballots == [] {
      assert SetOf(ballots) == {};
    } else {
      var n := |ballots| - 1;
      assert ballots == ballots[..n] + [ballots[n]];
      SetOfSnoc(ballots[..n], ballots[n]);
      ListTotalIsSetTotal(ballots[..n], f);
      SetTotalPick(SetOf(ballots), f, ballots[n]);
    }
  }

  ghost function ScaledBy(scale: int): StoredBallot -> int
    requires scale >= 1
  {
    (sb: StoredBallot) => ScaledWeight(Weight(sb), scale)
  }

  ghost function First(s: Suite, scale: int, j: nat): StoredBallot -> int
    requires scale >= 1
  {
    (sb: StoredBallot) => C1At(s, sb, j) * ScaledWeight(Weight(sb), scale)
  }

  ghost function Second(s: Suite, scale: int, j: nat): StoredBallot -> int
    requires scale >= 1
  {
    (sb: StoredBallot) => C2At(s, sb, j) * ScaledWeight(Weight(sb), scale)
  }

  lemma {:induction false} RunningTotals(s: Suite, admitted: seq<StoredBallot>, scale: int, j: nat)
    requires scale >= 1
    ensures TotalWeight(admitted) == ListTotal(admitted, Weight)
    ensures ScaledTotal(admitted, scale) == ListTotal(admitted, ScaledBy(scale))
    ensures WeightedC1(s, admitted, scale, j) == ListTotal(admitted, First(s, scale, j))
    ensures WeightedC2(s, admitted, scale, j) == ListTotal(admitted, Second(s, scale, j))
  {
    hide ScaledWeight, C1At, C2At;
    if admitted != [] {
      RunningTotals(s, admitted[..|admitted| - 1], scale, j);
    }
  }

  /** The published weights and the aggregate's exponents are sums over the set of admitted
      ballots: the attested weights, and the scaled weights times each ballot's points. */
  lemma TotalsAreSetTotals(s: Suite, admitted: seq<StoredBallot>, scale: int, j: nat)
    requires scale >= 1 && DistinctSeq(admitted)
    ensures TotalWeight(admitted) == SetTotal(SetOf(admitted), Weight)
    ensures ScaledTotal(admitted, scale) == SetTotal(SetOf(admitted), ScaledBy(scale))
    ensures WeightedC1(s, admitted, scale, j) == SetTotal(SetOf(admitted), First(s, scale, j))
    ensures WeightedC2(s, admitted, scale, j) == SetTotal(SetOf(admitted), Second(s, scale, j))
  {
    RunningTotals(s, admitted, scale, j);
    ListTotalIsSetTotal(admitted, Weight);
    ListTotalIsSetTotal(admitted, ScaledBy(scale));
    ListTotalIsSetTotal(admitted, First(s, scale, j));
    ListTotalIsSetTotal(admitted, Second(s, scale, j));
  }

  /** At scale 1 both published totals agree. */
  lemma {:induction false} TotalsAgreeAtScaleOne(admitted: seq<StoredBallot>)
    ensures ScaledTotal(admitted, 1) == TotalWeight(admitted)
  {
    if admitted != [] {
      TotalsAgreeAtScaleOne(admitted[..|admitted| - 1]);
    }
  }

  lemma AdmittedDistinct(ballots: seq<StoredBallot>, judge: StoredBallot -> Judgement, policy: DuplicatePolicy)
    requires DistinctSeq(ballots)
    ensures DistinctSeq(Admit(ballots, judge, policy).admitted)
  {
    ValidsSubset(ballots, judge);
    WinnersSubset(policy, Valids(ballots, judge), Valids(ballots, judge));
  }

  /** Presenting the same ballots in another order changes neither published weight nor any
      aggregate point. */
  lemma TotalsOrderIrrelevant(s: Suite, a: seq<StoredBallot>, b: seq<StoredBallot>, judge: StoredBallot -> Judgement,
                              policy: DuplicatePolicy, scale: int, j: nat)
    requires DistinctSeq(a) && DistinctSeq(b) && SetOf(a) == SetOf(b) && scale >= 1
    ensures var x, y := Admit(a, judge, policy), Admit(b, judge, policy);
            && x.totalWeight == y.totalWeight
            && ScaledTotal(x.admitted, scale) == ScaledTotal(y.admitted, scale)
            && WeightedC1(s, x.admitted, scale, j) == WeightedC1(s, y.admitted, scale, j)
            && WeightedC2(s, x.admitted, scale, j) == WeightedC2(s, y.admitted, scale, j)
  {
    hide Admit, ScaledTotal, WeightedC1, WeightedC2, TotalWeight;
    var x, y := Admit(a, judge, policy), Admit(b, judge, policy);
    OrderIrrelevant(a, b, judge, policy);
    AdmittedDistinct(a, judge, policy);
    AdmittedDistinct(b, judge, policy);
    TotalsAreSetTotals(s, x.admitted, scale, j);
    TotalsAreSetTotals(s, y.admitted, scale, j);
    PublishedWeight(a, judge, policy);
    PublishedWeight(b, judge, policy);
  }

  lemma PublishedWeight(ballots: seq<StoredBallot>, judge: StoredBallot -> Judgement, policy: DuplicatePolicy)
    ensures Admit(ballots, judge, policy).totalWeight == TotalWeight(Admit(ballots, judge, policy).admitted)
  {
  }
}
