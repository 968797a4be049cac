/** Ballot admission (core/admission.py): independent validity, then nonce-ranked resolution
    of repeated ballots. */
module Admission {
  import opened Field
  import opened Group
  import opened Bytes
  import opened Transcripts
  import opened BallotMessage
  import opened Ballot
  import opened Election

  datatype Judgement = Valid | Excluded(reason: Reason) | Raised

  /** Verification of an eligibility credential: key, credential, election id. */
  type VerifyAttestation = (bytes, Attestation, bytes) -> bool

  /** validate_ballot as a function. */
  ghost function Judge(s: Suite, verify: VerifyAttestation, config: Config, mpk: Point, sb: StoredBallot): Judgement
    requires s.q > 1
  {
    var b, att := sb.envelope.ballot, sb.envelope.att;
    if b.electionId != config.electionId then Excluded(ReasonMalformed)
    else if sb.submittedAt.Some? && !IsVotingOpen(config, sb.submittedAt.value) then Excluded(ReasonOutOfWindow)
    else if att.electionId != config.electionId || att.pseudonym != b.pseudonym || att.vk != b.vk
            || !verify(config.eligibilityKey, att, config.electionId) then Excluded(ReasonInvalidAttestation)
    else
      match BallotVerdict(s, mpk, b, att, config.numCandidates, config.budget)
      case Accept => Valid
      case Malformed => Excluded(ReasonMalformed)
      case InvalidProof => Excluded(ReasonInvalidProof)
      case InvalidSignature => Excluded(ReasonInvalidSignature)
      case InvalidSignaturePreV2 => Excluded(ReasonInvalidSignature)
      case Raises => Raised
  }

  method ValidateBallot(s: Suite, verify: VerifyAttestation, config: Config, mpk: Point, sb: StoredBallot)
    returns (j: Judgement)
    requires s.q > 1
    ensures j == Judge(s, verify, config, mpk, sb)
  {
    hide BallotVerdict;
    var b, att := sb.envelope.ballot, sb.envelope.att;
    if b.electionId != config.electionId {
      return Excluded(ReasonMalformed);
    }
    if sb.submittedAt.Some? && !IsVotingOpen(config, sb.submittedAt.value) {
      return Excluded(ReasonOutOfWindow);
    }
    if att.electionId != config.electionId || att.pseudonym != b.pseudonym || att.vk != b.vk {
      return Excluded(ReasonInvalidAttestation);
    }
    if !verify(config.eligibilityKey, att, config.electionId) {
      return Excluded(ReasonInvalidAttestation);
    }
    var v := VerifyBallotCrypto(s, mpk, b, att, config.numCandidates, config.budget);
    match v
    case Accept => return Valid;
    case Malformed => return Excluded(ReasonMalformed);
    case InvalidProof => return Excluded(ReasonInvalidProof);
    case InvalidSignature => return Excluded(ReasonInvalidSignature);
    case InvalidSignaturePreV2 => return Excluded(ReasonInvalidSignature);
    case Raises => return Raised;
  }

  // ----- duplicates -----

  function Pseudonym(sb: StoredBallot): bytes
  {
    sb.envelope.ballot.pseudonym
  }

  /** Tuple order on (nonce, sequence number). */
  predicate RankLess(a: StoredBallot, b: StoredBallot)
  {
    a.envelope.att.nonce < b.envelope.att.nonce
    || (a.envelope.att.nonce == b.envelope.att.nonce && a.seqNo < b.seqNo)
  }

  /** `a` takes the place of `b` under the policy. */
  predicate Beats(policy: DuplicatePolicy, a: StoredBallot, b: StoredBallot)
  {
    match policy
    case LastWins => RankLess(b, a)
    case FirstWins => RankLess(a, b)
  }

  ghost predicate DistinctSeq(ballots: seq<StoredBallot>)
  {
    forall i, k :: 0 <= i < k < |ballots| ==> ballots[i].seqNo != ballots[k].seqNo
  }

  /** No other ballot of the same pseudonym beats this one. */
  ghost predicate Best(policy: DuplicatePolicy, valid: seq<StoredBallot>, sb: StoredBallot)
  {
    sb in valid && forall o :: o in valid && Pseudonym(o) == Pseudonym(sb) ==> !Beats(policy, o, sb)
  }

  /** One pass that keeps the best ballot seen per pseudonym. */
  method BestPerPseudonym(valid: seq<StoredBallot>, policy: DuplicatePolicy) returns (winner: map<bytes, StoredBallot>)
    ensures forall p :: p in winner ==> Best(policy, valid, winner[p]) && Pseudonym(winner[p]) == p
    ensures forall k :: 0 <= k < |valid| ==> Pseudonym(valid[k]) in winner
  {
    winner := map[];
    for i := 0 to |valid|
      invariant forall p :: p in winner ==> Best(policy, valid[..i], winner[p]) && Pseudonym(winner[p]) == p
      invariant forall k :: 0 <= k < i ==> Pseudonym(valid[k]) in winner
    {
      var sb := valid[i];
      var p := Pseudonym(sb);
      assert valid[..i + 1] == valid[..i] + [sb];
      if p !in winner || Beats(policy, sb, winner[p]) {
        forall o | o in valid[..i] && Pseudonym(o) == p ensures !Beats(policy, o, sb) {
          assert p in winner;
        }
        winner := winner[p := sb];
      }
    }
    assert valid[..|valid|] == valid;
  }

  /** Losing is decided by number: some best ballot carries it. */
  ghost predicate KeptNumber(policy: DuplicatePolicy, valid: seq<StoredBallot>, n: int)
  {
    exists o :: o in valid && o.seqNo == n && Best(policy, valid, o)
  }

  /** The sequence numbers among the valid ballots that no voter's best ballot carries. */
  method DuplicateLosers(valid: seq<StoredBallot>, policy: DuplicatePolicy) returns (losers: set<int>)
    ensures forall n :: n in losers <==>
              (exists i :: 0 <= i < |valid| && valid[i].seqNo == n) && !KeptNumber(policy, valid, n)
  {
    hide Best;
    var winner := BestPerPseudonym(valid, policy);
    var winners := set p | p in winner :: winner[p].seqNo;
    forall n ensures n in winners <==> KeptNumber(policy, valid, n) {
      WinnersAreKept(policy, valid, winner, n);
    }
    losers := set i | 0 <= i < |valid| && valid[i].seqNo !in winners :: valid[i].seqNo;
  }

  lemma WinnersAreKept(policy: DuplicatePolicy, valid: seq<StoredBallot>, winner: map<bytes, StoredBallot>, n: int)
    requires forall p :: p in winner ==> Best(policy, valid, winner[p]) && Pseudonym(winner[p]) == p
    requires forall k :: 0 <= k < |valid| ==> Pseudonym(valid[k]) in winner
    ensures (exists p :: p in winner && winner[p].seqNo == n) <==> KeptNumber(policy, valid, n)
  {
    if p :| p in winner && winner[p].seqNo == n {
      assert winner[p] in valid;
    }
    if o :| o in valid && o.seqNo == n && Best(policy, valid, o) {
      var k :| 0 <= k < |valid| && valid[k] == o;
      Comparable(policy, winner[Pseudonym(o)], o);
    }
  }

  /** A valid ballot survives when its number is kept. */
  ghost predicate Keeps(policy: DuplicatePolicy, valid: seq<StoredBallot>, sb: StoredBallot)
  {
    KeptNumber(policy, valid, sb.seqNo)
  }

  /** With distinct sequence numbers exactly the best ballots survive. */
  lemma KeptAreBest(policy: DuplicatePolicy, valid: seq<StoredBallot>)
    requires DistinctSeq(valid)
    ensures forall sb :: sb in valid ==> (Keeps(policy, valid, sb) <==> Best(policy, valid, sb))
  {
    hide Best;
    forall sb | sb in valid ensures Keeps(policy, valid, sb) <==> Best(policy, valid, sb) {
      if o :| o in valid && o.seqNo == sb.seqNo && Best(policy, valid, o) {
        SameSeqSameBallot(valid, o, sb);
      }
    }
  }

  /** With distinct sequence numbers a pseudonym has one best ballot. */
  lemma OnlyWinnerIsBest(policy: DuplicatePolicy, valid: seq<StoredBallot>, w: StoredBallot, sb: StoredBallot)
    requires DistinctSeq(valid) && Best(policy, valid, w) && sb in valid && Pseudonym(sb) == Pseudonym(w)
    ensures Best(policy, valid, sb) <==> sb == w
    ensures sb.seqNo == w.seqNo <==> sb == w
  {
    if sb.seqNo == w.seqNo {
      SameSeqSameBallot(valid, sb, w);
    }
  }

  lemma SameSeqSameBallot(ballots: seq<StoredBallot>, a: StoredBallot, b: StoredBallot)
    requires DistinctSeq(ballots) && a in ballots && b in ballots && a.seqNo == b.seqNo
    ensures a == b
  {
    var i :| 0 <= i < |ballots| && ballots[i] == a;
    var k :| 0 <= k < |ballots| && ballots[k] == b;
  }

  // ----- admission -----

  datatype AdmissionResult = AdmissionResult(admitted: seq<StoredBallot>, exclusions: seq<Exclusion>, totalWeight: int)

  ghost function Valids(ballots: seq<StoredBallot>, judge: StoredBallot -> Judgement): seq<StoredBallot>
  {
    if ballots == [] then []
    else
      var front, last := Valids(ballots[..|ballots| - 1], judge), ballots[|ballots| - 1];
      if judge(last) == Valid then front + [last] else front
  }

  ghost function Rejections(ballots: seq<StoredBallot>, judge: StoredBallot -> Judgement): seq<Exclusion>
  {
    if ballots == [] then []
    else
      var front, last := Rejections(ballots[..|ballots| - 1], judge), ballots[|ballots| - 1];
      match judge(last)
      case Excluded(reason) => front + [Exclusion(last.seqNo, reason)]
      case _ => front
  }

  ghost function Winners(policy: DuplicatePolicy, all: seq<StoredBallot>, valid: seq<StoredBallot>): seq<StoredBallot>
  {
    if valid == [] then []
    else
      var front, last := Winners(policy, all, valid[..|valid| - 1]), valid[|valid| - 1];
      if Keeps(policy, all, last) then front + [last] else front
  }

  ghost function Duplicates(policy: DuplicatePolicy, all: seq<StoredBallot>, valid: seq<StoredBallot>): seq<Exclusion>
  {
    if valid == [] then []
    else
      var front, last := Duplicates(policy, all, valid[..|valid| - 1]), valid[|valid| - 1];
      if Keeps(policy, all, last) then front else front + [Exclusion(last.seqNo, ReasonDuplicate)]
  }

  function TotalWeight(admitted: seq<StoredBallot>): int
  {
    if admitted == [] then 0
    else TotalWeight(admitted[..|admitted| - 1]) + admitted[|admitted| - 1].envelope.att.weight
  }

  /** list.sort(key=sequence_number), by insertion. */
  function InsertExclusion(x: Exclusion, xs: seq<Exclusion>): seq<Exclusion>
  {
    if xs == [] || xs[|xs| - 1].seqNo <= x.seqNo then xs + [x]
    else InsertExclusion(x, xs[..|xs| - 1]) + [xs[|xs| - 1]]
  }

  function SortExclusions(xs: seq<Exclusion>): seq<Exclusion>
  {
    if xs == [] then [] else InsertExclusion(xs[|xs| - 1], SortExclusions(xs[..|xs| - 1]))
  }

  /** admit as a function of the ballots' judgements. */
  ghost function Admit(ballots: seq<StoredBallot>, judge: StoredBallot -> Judgement,
                       policy: DuplicatePolicy): AdmissionResult
  {
    var valid := Valids(ballots, judge);
    var admitted := Winners(policy, valid, valid);
    AdmissionResult(admitted, SortExclusions(Rejections(ballots, judge) + Duplicates(policy, valid, valid)),
                    TotalWeight(admitted))
  }

  ghost function JudgeOf(s: Suite, verify: VerifyAttestation, config: Config, mpk: Point): StoredBallot -> Judgement
    requires s.q > 1
  {
    (sb: StoredBallot) => Judge(s, verify, config, mpk, sb)
  }

  ghost predicate NoneRaises(s: Suite, verify: VerifyAttestation, config: Config, mpk: Point,
                             ballots: seq<StoredBallot>)
    requires s.q > 1
  {
    forall i :: 0 <= i < |ballots| ==> Judge(s, verify, config, mpk, ballots[i]) != Raised
  }

  /** admit. Nothing where some ballot's check raises or the key does not decode. */
  method AdmitBallots(s: Suite, verify: VerifyAttestation, config: Config, mpkBytes: bytes, ballots: seq<StoredBallot>)
    returns (r: Option<AdmissionResult>)
    requires s.q > 1
    ensures r.Some? <==> s.decode2(mpkBytes).Some? && NoneRaises(s, verify, config, s.decode2(mpkBytes).value, ballots)
    ensures r.Some? ==> r.value == Admit(ballots, JudgeOf(s, verify, config, s.decode2(mpkBytes).value), config.policy)
  {
    hide Judge, Keeps;
    if s.decode2(mpkBytes).None? {
      return None;
    }
    var mpk := s.decode2(mpkBytes).value;
    var split := ValidateAll(s, verify, config, mpk, ballots);
    if split.None? {
      return None;
    }
    var admitted, dups := ResolveDuplicates(split.value.0, config.policy);
    var total := WeightOf(admitted);
    r := Some(AdmissionResult(admitted, SortExclusions(split.value.1 + dups), total));
  }

  method WeightOf(admitted: seq<StoredBallot>) returns (total: int)
    ensures total == TotalWeight(admitted)
  {
    total := 0;
    for i := 0 to |admitted|
      invariant total == TotalWeight(admitted[..i])
    {
      assert admitted[..i + 1][..i] == admitted[..i];
      total := total + admitted[i].envelope.att.weight;
    }
    assert admitted[..|admitted|] == admitted;
  }

  /** The first pass of admit: the valid ballots and the exclusions of the others. */
  method ValidateAll(s: Suite, verify: VerifyAttestation, config: Config, mpk: Point, ballots: seq<StoredBallot>)
    returns (r: Option<(seq<StoredBallot>, seq<Exclusion>)>)
    requires s.q > 1
    ensures r.Some? <==> forall i :: 0 <= i < |ballots| ==> Judge(s, verify, config, mpk, ballots[i]) != Raised
    ensures r.Some? ==> r.value.0 == Valids(ballots, JudgeOf(s, verify, config, mpk))
    ensures r.Some? ==> r.value.1 == Rejections(ballots, JudgeOf(s, verify, config, mpk))
  {
    hide Judge;
    ghost var judge := JudgeOf(s, verify, config, mpk);
    var exclusions: seq<Exclusion> := [];
    var valid: seq<StoredBallot> := [];
    for i := 0 to |ballots|
      invariant valid == Valids(ballots[..i], judge)
      invariant exclusions == Rejections(ballots[..i], judge)
      invariant forall k :: 0 <= k < i ==> Judge(s, verify, config, mpk, ballots[k]) != Raised
    {
      assert ballots[..i + 1][..i] == ballots[..i];
      var j := ValidateBallot(s, verify, config, mpk, ballots[i]);
      match j {
        case Valid => valid := valid + [ballots[i]];
        case Excluded(reason) => exclusions := exclusions + [Exclusion(ballots[i].seqNo, reason)];
        case Raised => return None;
      }
    }
    assert ballots[..|ballots|] == ballots;
    r := Some((valid, exclusions));
  }

  method ResolveDuplicates(valid: seq<StoredBallot>, policy: DuplicatePolicy)
    returns (admitted: seq<StoredBallot>, dups: seq<Exclusion>)
    ensures admitted == Winners(policy, valid, valid) && dups == Duplicates(policy, valid, valid)
  {
    hide KeptNumber;
    var losers := DuplicateLosers(valid, policy);
    admitted, dups := [], [];
    for i := 0 to |valid|
      invariant admitted == Winners(policy, valid, valid[..i])
      invariant dups == Duplicates(policy, valid, valid[..i])
    {
      assert valid[..i + 1][..i] == valid[..i];
      if valid[i].seqNo in losers {
        dups := dups + [Exclusion(valid[i].seqNo, ReasonDuplicate)];
      } else {
        admitted := admitted + [valid[i]];
      }
    }
    assert valid[..|valid|] == valid;
  }

  // ----- what admission guarantees -----

  /** Whatever the numbering, only valid ballots are admitted. */
  lemma AdmittedAreValid(ballots: seq<StoredBallot>, judge: StoredBallot -> Judgement, policy: DuplicatePolicy)
    ensures forall sb :: sb in Admit(ballots, judge, policy).admitted ==> sb in ballots && judge(sb) == Valid
  {
    var valid := Valids(ballots, judge);
    ValidsAreValid(ballots, judge);
    WinnersAmong(policy, valid, valid);
  }

  lemma {:induction false} ValidsAreValid(ballots: seq<StoredBallot>, judge: StoredBallot -> Judgement)
    ensures forall sb :: sb in Valids(ballots, judge) ==> sb in ballots && judge(sb) == Valid
  {
    if ballots != [] {
      ValidsAreValid(ballots[..|ballots| - 1], judge);
    }
  }

  lemma {:induction false} WinnersAmong(policy: DuplicatePolicy, all: seq<StoredBallot>, valid: seq<StoredBallot>)
    ensures forall sb :: sb in Winners(policy, all, valid) ==> sb in valid
  {
    hide Keeps;
    if valid != [] {
      WinnersAmong(policy, all, valid[..|valid| - 1]);
    }
  }

  /** Valids keeps exactly the valid ballots, in order and with distinct numbers. */
  lemma {:induction false} ValidsSubset(ballots: seq<StoredBallot>, judge: StoredBallot -> Judgement)
    requires DistinctSeq(ballots)
    ensures DistinctSeq(Valids(ballots, judge))
    ensures forall sb :: sb in Valids(ballots, judge) <==> sb in ballots && judge(sb) == Valid
  {
    if ballots != [] {
      var n := |ballots| - 1;
      ValidsSubset(ballots[..n], judge);
      assert ballots == ballots[..n] + [ballots[n]];
      var front := Valids(ballots[..n], judge);
      forall i | 0 <= i < |front| ensures front[i].seqNo != ballots[n].seqNo {
        assert front[i] in ballots[..n];
        var k :| 0 <= k < n && ballots[k] == front[i];
      }
    }
  }

  lemma {:induction false} WinnersSubset(policy: DuplicatePolicy, all: seq<StoredBallot>, valid: seq<StoredBallot>)
    requires DistinctSeq(valid)
    ensures DistinctSeq(Winners(policy, all, valid))
    ensures forall sb :: sb in Winners(policy, all, valid) <==> sb in valid && Keeps(policy, all, sb)
  {
    hide Keeps;
    if valid != [] {
      var n := |valid| - 1;
      WinnersSubset(policy, all, valid[..n]);
      assert valid == valid[..n] + [valid[n]];
      var front := Winners(policy, all, valid[..n]);
      forall i | 0 <= i < |front| ensures front[i].seqNo != valid[n].seqNo {
        assert front[i] in valid[..n];
        var k :| 0 <= k < n && valid[k] == front[i];
      }
    }
  }

  /** Who is admitted: exactly the valid ballots that nobody valid of the same pseudonym beats. */
  ghost predicate Admissible(ballots: set<StoredBallot>, judge: StoredBallot -> Judgement, policy: DuplicatePolicy,
                             sb: StoredBallot)
  {
    && sb in ballots && judge(sb) == Valid
    && forall o :: o in ballots && judge(o) == Valid && Pseudonym(o) == Pseudonym(sb) ==> !Beats(policy, o, sb)
  }

  function SetOf<T>(s: seq<T>): set<T>
  {
    set x | x in s
  }

  lemma AdmittedIff(ballots: seq<StoredBallot>, judge: StoredBallot -> Judgement, policy: DuplicatePolicy,
                    sb: StoredBallot)
    requires DistinctSeq(ballots)
    ensures sb in Admit(ballots, judge, policy).admitted <==> Admissible(SetOf(ballots), judge, policy, sb)
  {
    hide Beats, Keeps;
    ValidsSubset(ballots, judge);
    WinnersSubset(policy, Valids(ballots, judge), Valids(ballots, judge));
    KeptAreBest(policy, Valids(ballots, judge));
  }

  /** Each pseudonym with a valid ballot has exactly one admitted ballot, of extreme rank. */
  lemma OneBallotPerVoter(ballots: seq<StoredBallot>, judge: StoredBallot -> Judgement, policy: DuplicatePolicy,
                          sb: StoredBallot)
    returns (w: StoredBallot)
    requires DistinctSeq(ballots) && sb in ballots && judge(sb) == Valid
    ensures w in Admit(ballots, judge, policy).admitted && Pseudonym(w) == Pseudonym(sb)
    ensures w == sb || Beats(policy, w, sb)
    ensures forall o :: o in Admit(ballots, judge, policy).admitted && Pseudonym(o) == Pseudonym(sb) ==> o == w
  {
    var valid := Valids(ballots, judge);
    ValidsSubset(ballots, judge);
    WinnersSubset(policy, valid, valid);
    KeptAreBest(policy, valid);
    w := BestExists(policy, valid, sb);
    forall o | o in Admit(ballots, judge, policy).admitted && Pseudonym(o) == Pseudonym(sb) ensures o == w {
      OnlyWinnerIsBest(policy, valid, w, o);
    }
    OnlyWinnerIsBest(policy, valid, w, sb);
    Comparable(policy, w, sb);
  }

  lemma Comparable(policy: DuplicatePolicy, a: StoredBallot, b: StoredBallot)
    ensures a.seqNo == b.seqNo || Beats(policy, a, b) || Beats(policy, b, a)
  {
  }

  lemma {:induction false} BestExists(policy: DuplicatePolicy, valid: seq<StoredBallot>,
                                      sb: StoredBallot) returns (w: StoredBallot)
    requires sb in valid
    ensures Best(policy, valid, w) && Pseudonym(w) == Pseudonym(sb)
    decreases |valid|
  {
    var n := |valid| - 1;
    var front, last := valid[..n], valid[n];
    assert valid == front + [last];
    if (exists o :: o in front && Pseudonym(o) == Pseudonym(sb)) {
      var o :| o in front && Pseudonym(o) == Pseudonym(sb);
      w := BestExists(policy, front, o);
      if Pseudonym(last) == Pseudonym(sb) && Beats(policy, last, w) {
        w := last;
      }
    } else {
      w := last;
    }
  }

  // ----- exclusions -----

  ghost predicate Sorted(xs: seq<Exclusion>)
  {
    forall i, k :: 0 <= i < k < |xs| ==> xs[i].seqNo < xs[k].seqNo
  }

  lemma {:induction false} InsertContents(x: Exclusion, xs: seq<Exclusion>)
    ensures multiset(InsertExclusion(x, xs)) == multiset(xs) + multiset{x}
  {
    if !(xs == [] || xs[|xs| - 1].seqNo <= x.seqNo) {
      var n := |xs| - 1;
      InsertContents(x, xs[..n]);
      assert xs == xs[..n] + [xs[n]];
    }
  }

  lemma {:induction false} InsertSorted(x: Exclusion, xs: seq<Exclusion>)
    requires Sorted(xs) && forall i :: 0 <= i < |xs| ==> xs[i].seqNo != x.seqNo
    ensures Sorted(InsertExclusion(x, xs))
  {
    if !(xs == [] || xs[|xs| - 1].seqNo <= x.seqNo) {
      var n := |xs| - 1;
      InsertSorted(x, xs[..n]);
      InsertContents(x, xs[..n]);
      var r := InsertExclusion(x, xs[..n]);
      forall i | 0 <= i < |r| ensures r[i].seqNo < xs[n].seqNo {
        assert r[i] in multiset(r);
        assert r[i] == x || r[i] in xs[..n];
      }
    }
  }

  ghost predicate DistinctExclusions(xs: seq<Exclusion>)
  {
    forall i, k :: 0 <= i < k < |xs| ==> xs[i].seqNo != xs[k].seqNo
  }

  lemma {:induction false} SortContents(xs: seq<Exclusion>)
    ensures multiset(SortExclusions(xs)) == multiset(xs)
  {
    if xs != [] {
      var n := |xs| - 1;
      SortContents(xs[..n]);
      InsertContents(xs[n], SortExclusions(xs[..n]));
      assert xs == xs[..n] + [xs[n]];
    }
  }

  lemma {:induction false} SortSorts(xs: seq<Exclusion>)
    requires DistinctExclusions(xs)
    ensures Sorted(SortExclusions(xs))
  {
    if xs != [] {
      var n := |xs| - 1;
      SortSorts(xs[..n]);
      SortContents(xs[..n]);
      var r := SortExclusions(xs[..n]);
      forall i | 0 <= i < |r| ensures r[i].seqNo != xs[n].seqNo {
        assert r[i] in multiset(r);
        assert r[i] in xs[..n];
      }
      InsertSorted(xs[n], r);
    }
  }

  /** A strictly sorted list is determined by its contents. */
  lemma {:induction false} SortedUnique(a: seq<Exclusion>, b: seq<Exclusion>)
    requires Sorted(a) && Sorted(b) && forall x :: x in a <==> x in b
    ensures a == b
    decreases |a|
  {
    if a == [] {
      EmptyContents(b);
    } else {
      assert a[0] in b;
      var m, n := |a| - 1, |b| - 1;
      assert a[m] in b && b[n] in a;
      LastsAgree(a, b);
      FrontContents(a);
      FrontContents(b);
      assert Sorted(a[..m]) && Sorted(b[..n]);
      forall x ensures x in a[..m] <==> x in b[..n] {
        assert x in a[..m] <==> x in a && x != a[m];
        assert x in b[..n] <==> x in b && x != b[n];
      }
      SortedUnique(a[..m], b[..n]);
      assert a == a[..m] + [a[m]] && b == b[..n] + [b[n]];
    }
  }

  lemma EmptyContents(b: seq<Exclusion>)
    ensures b == [] || exists x :: x in b
  {
    if b != [] {
      assert b[0] in b;
    }
  }

  lemma FrontContents(a: seq<Exclusion>)
    requires Sorted(a) && a != []
    ensures forall x :: x in a[..|a| - 1] <==> x in a && x != a[|a| - 1]
  {
    var m := |a| - 1;
    assert a == a[..m] + [a[m]];
  }

  lemma LastsAgree(a: seq<Exclusion>, b: seq<Exclusion>)
    requires a != [] && b != [] && Sorted(a) && Sorted(b)
    requires a[|a| - 1] in b && b[|b| - 1] in a
    ensures a[|a| - 1] == b[|b| - 1]
  {
    var i :| 0 <= i < |b| && b[i] == a[|a| - 1];
    var k :| 0 <= k < |a| && a[k] == b[|b| - 1];
  }

  lemma {:induction false} RejectionsIff(ballots: seq<StoredBallot>, judge: StoredBallot -> Judgement)
    requires DistinctSeq(ballots)
    ensures forall x :: x in Rejections(ballots, judge) <==> exists sb :: sb in ballots && RejectedAs(judge, sb, x)
    ensures DistinctExclusions(Rejections(ballots, judge))
  {
    if ballots != [] {
      var n := |ballots| - 1;
      var front, last := ballots[..n], ballots[n];
      RejectionsIff(front, judge);
      assert ballots == front + [last];
      forall x ensures x in Rejections(ballots, judge) <==> exists sb :: sb in ballots && RejectedAs(judge, sb, x) {
        RejectionCases(front, last, judge, x);
      }
      RejectionsApart(front, last, judge);
    }
  }

  lemma RejectionCases(front: seq<StoredBallot>, last: StoredBallot, judge: StoredBallot -> Judgement, x: Exclusion)
    ensures (exists sb :: sb in front + [last] && RejectedAs(judge, sb, x)) <==>
              (exists sb :: sb in front && RejectedAs(judge, sb, x)) || RejectedAs(judge, last, x)
  {
    hide RejectedAs;
    assert last in front + [last];
    if sb :| sb in front && RejectedAs(judge, sb, x) {
      assert sb in front + [last];
    }
  }

  lemma RejectionsApart(front: seq<StoredBallot>, last: StoredBallot, judge: StoredBallot -> Judgement)
    requires DistinctSeq(front + [last])
    requires forall x :: x in Rejections(front, judge) <==> exists sb :: sb in front && RejectedAs(judge, sb, x)
    ensures forall i :: 0 <= i < |Rejections(front, judge)| ==> Rejections(front, judge)[i].seqNo != last.seqNo
  {
    var r := Rejections(front, judge);
    forall i | 0 <= i < |r| ensures r[i].seqNo != last.seqNo {
      assert r[i] in r;
      var sb :| sb in front && RejectedAs(judge, sb, r[i]);
      var k :| 0 <= k < |front| && front[k] == sb;
      assert (front + [last])[k] == sb && (front + [last])[|front|] == last;
    }
  }

  ghost predicate RejectedAs(judge: StoredBallot -> Judgement, sb: StoredBallot, x: Exclusion)
  {
    judge(sb) == Excluded(x.reason) && x.seqNo == sb.seqNo
  }

  ghost predicate DuplicateAs(policy: DuplicatePolicy, all: seq<StoredBallot>, sb: StoredBallot, x: Exclusion)
  {
    !Keeps(policy, all, sb) && x == Exclusion(sb.seqNo, ReasonDuplicate)
  }

  lemma {:induction false} DuplicatesIff(policy: DuplicatePolicy, all: seq<StoredBallot>, valid: seq<StoredBallot>)
    requires DistinctSeq(valid)
    ensures forall x :: x in Duplicates(policy, all, valid) <==>
              exists sb :: sb in valid && DuplicateAs(policy, all, sb, x)
    ensures DistinctExclusions(Duplicates(policy, all, valid))
  {
    hide Keeps;
    if valid != [] {
      var n := |valid| - 1;
      var front, last := valid[..n], valid[n];
      DuplicatesIff(policy, all, front);
      assert valid == front + [last];
      forall x
        ensures x in Duplicates(policy, all, valid) <==> exists sb :: sb in valid && DuplicateAs(policy, all, sb, x)
      {
        if x in Duplicates(policy, all, front) {
          var sb :| sb in front && DuplicateAs(policy, all, sb, x);
          assert sb in valid;
        }
        if !Keeps(policy, all, last) {
          assert DuplicateAs(policy, all, last, Exclusion(last.seqNo, ReasonDuplicate));
        }
      }
      var r := Duplicates(policy, all, front);
      forall i | 0 <= i < |r| ensures r[i].seqNo != last.seqNo {
        assert r[i] in r;
        var sb :| sb in front && DuplicateAs(policy, all, sb, r[i]);
        var k :| 0 <= k < n && valid[k] == sb;
      }
    }
  }

  /** Why a ballot is excluded, from the set of ballots alone. */
  ghost predicate ExcludedAs(ballots: set<StoredBallot>, judge: StoredBallot -> Judgement, policy: DuplicatePolicy,
                             sb: StoredBallot, x: Exclusion)
  {
    && sb in ballots && x.seqNo == sb.seqNo
    && (judge(sb) == Excluded(x.reason)
        || (judge(sb) == Valid && !Admissible(ballots, judge, policy, sb) && x.reason == ReasonDuplicate))
  }

  /** The published exclusions are strictly sorted and list exactly the excluded ballots. */
  lemma ExclusionsIff(ballots: seq<StoredBallot>, judge: StoredBallot -> Judgement, policy: DuplicatePolicy)
    requires DistinctSeq(ballots)
    ensures Sorted(Admit(ballots, judge, policy).exclusions)
    ensures forall x :: x in Admit(ballots, judge, policy).exclusions <==>
              exists sb :: ExcludedAs(SetOf(ballots), judge, policy, sb, x)
  {
    var valid := Valids(ballots, judge);
    var a, b := Rejections(ballots, judge), Duplicates(policy, valid, valid);
    ValidsSubset(ballots, judge);
    RejectionsIff(ballots, judge);
    DuplicatesIff(policy, valid, valid);
    assert DistinctExclusions(a + b) by {
      NoOverlap(ballots, judge, policy);
    }
    SortContents(a + b);
    SortSorts(a + b);
    var out := SortExclusions(a + b);
    forall x ensures x in out <==> exists sb :: ExcludedAs(SetOf(ballots), judge, policy, sb, x) {
      assert x in out <==> x in multiset(out);
      assert x in a + b <==> x in multiset(a + b);
      ExclusionCases(ballots, judge, policy, x);
    }
  }

  lemma NoOverlap(ballots: seq<StoredBallot>, judge: StoredBallot -> Judgement, policy: DuplicatePolicy)
    requires DistinctSeq(ballots)
    ensures var valid := Valids(ballots, judge);
            DistinctExclusions(Rejections(ballots, judge) + Duplicates(policy, valid, valid))
  {
    hide Keeps;
    var valid := Valids(ballots, judge);
    var a, b := Rejections(ballots, judge), Duplicates(policy, valid, valid);
    ValidsSubset(ballots, judge);
    RejectionsIff(ballots, judge);
    DuplicatesIff(policy, valid, valid);
    forall i, k | 0 <= i < |a| && 0 <= k < |b| ensures a[i].seqNo != b[k].seqNo {
      assert a[i] in a && b[k] in b;
      var x :| x in ballots && RejectedAs(judge, x, a[i]);
      var y :| y in valid && DuplicateAs(policy, valid, y, b[k]);
      if x.seqNo == y.seqNo {
        SameSeqSameBallot(ballots, x, y);
      }
    }
  }

  lemma ExclusionCases(ballots: seq<StoredBallot>, judge: StoredBallot -> Judgement, policy: DuplicatePolicy,
                       x: Exclusion)
    requires DistinctSeq(ballots)
    ensures var valid := Valids(ballots, judge);
            x in Rejections(ballots, judge) || x in Duplicates(policy, valid, valid)
            <==> exists sb :: ExcludedAs(SetOf(ballots), judge, policy, sb, x)
  {
    hide Beats, Keeps;
    var valid := Valids(ballots, judge);
    ValidsSubset(ballots, judge);
    RejectionsIff(ballots, judge);
    DuplicatesIff(policy, valid, valid);
    KeptAreBest(policy, valid);
    if x in Rejections(ballots, judge) {
      var sb :| sb in ballots && RejectedAs(judge, sb, x);
      assert ExcludedAs(SetOf(ballots), judge, policy, sb, x);
    }
    if x in Duplicates(policy, valid, valid) {
      var sb :| sb in valid && DuplicateAs(policy, valid, sb, x);
      assert ExcludedAs(SetOf(ballots), judge, policy, sb, x);
    }
    if sb :| ExcludedAs(SetOf(ballots), judge, policy, sb, x) {
      if judge(sb) == Excluded(x.reason) {
        assert RejectedAs(judge, sb, x);
      } else {
        assert DuplicateAs(policy, valid, sb, x);
      }
    }
  }

  /** Admission partitions the ballots: when no check raises, every ballot is either admitted
      or listed in exactly one exclusion, never both. */
  lemma AdmissionPartitions(ballots: seq<StoredBallot>, judge: StoredBallot -> Judgement, policy: DuplicatePolicy,
                            sb: StoredBallot)
    requires DistinctSeq(ballots) && sb in ballots && judge(sb) != Raised
    ensures var r := Admit(ballots, judge, policy);
            sb in r.admitted <==> !(exists x :: x in r.exclusions && x.seqNo == sb.seqNo)
    ensures var xs := Admit(ballots, judge, policy).exclusions;
            forall x, y :: x in xs && y in xs && x.seqNo == y.seqNo ==> x == y
  {
    hide Admit;
    var r := Admit(ballots, judge, policy);
    AdmittedIff(ballots, judge, policy, sb);
    ExclusionsIff(ballots, judge, policy);
    if x :| x in r.exclusions && x.seqNo == sb.seqNo {
      var o :| ExcludedAs(SetOf(ballots), judge, policy, o, x);
      SameSeqSameBallot(ballots, o, sb);
    }
    if !Admissible(SetOf(ballots), judge, policy, sb) {
      var x := Exclusion(sb.seqNo, if judge(sb) == Valid then ReasonDuplicate else judge(sb).reason);
      assert ExcludedAs(SetOf(ballots), judge, policy, sb, x);
      assert x in r.exclusions;
    }
    forall x, y | x in r.exclusions && y in r.exclusions && x.seqNo == y.seqNo ensures x == y {
      var i :| 0 <= i < |r.exclusions| && r.exclusions[i] == x;
      var k :| 0 <= k < |r.exclusions| && r.exclusions[k] == y;
    }
  }

  /** The outcome does not depend on the order the ballots are presented in. */
  lemma OrderIrrelevant(a: seq<StoredBallot>, b: seq<StoredBallot>, judge: StoredBallot -> Judgement,
                        policy: DuplicatePolicy)
    requires DistinctSeq(a) && DistinctSeq(b) && SetOf(a) == SetOf(b)
    ensures SetOf(Admit(a, judge, policy).admitted) == SetOf(Admit(b, judge, policy).admitted)
    ensures Admit(a, judge, policy).exclusions == Admit(b, judge, policy).exclusions
  {
    hide Admit, Admissible, ExcludedAs;
    var x, y := Admit(a, judge, policy), Admit(b, judge, policy);
    forall sb ensures sb in x.admitted <==> sb in y.admitted {
      AdmittedIff(a, judge, policy, sb);
      AdmittedIff(b, judge, policy, sb);
    }
    ExclusionsIff(a, judge, policy);
    ExclusionsIff(b, judge, policy);
    SortedUnique(x.exclusions, y.exclusions);
  }

  /** `extra` is a replay: some valid ballot of the same voter carries a higher nonce. */
  ghost predicate Stale(ballots: set<StoredBallot>, judge: StoredBallot -> Judgement, extra: StoredBallot)
  {
    exists o :: o in ballots && judge(o) == Valid && Pseudonym(o) == Pseudonym(extra)
                && extra.envelope.att.nonce < o.envelope.att.nonce
  }

  /** Replay protection: under last-wins, adding any ballots with lower nonces for voters who
      already hold a valid ballot changes nobody's admission, wherever they are inserted. */
  lemma ReplaysChangeNothing(before: seq<StoredBallot>, after: seq<StoredBallot>, judge: StoredBallot -> Judgement)
    requires DistinctSeq(before) && DistinctSeq(after) && SetOf(before) <= SetOf(after)
    requires forall sb :: sb in after && sb !in before ==> Stale(SetOf(before), judge, sb)
    ensures SetOf(Admit(before, judge, LastWins).admitted) == SetOf(Admit(after, judge, LastWins).admitted)
  {
    hide Admit;
    forall sb ensures sb in Admit(before, judge, LastWins).admitted <==> sb in Admit(after, judge, LastWins).admitted {
      AdmittedIff(before, judge, LastWins, sb);
      AdmittedIff(after, judge, LastWins, sb);
      SameWinners(SetOf(before), SetOf(after), judge, sb);
    }
  }

  lemma SameWinners(before: set<StoredBallot>, after: set<StoredBallot>, judge: StoredBallot -> Judgement,
                    sb: StoredBallot)
    requires before <= after && forall x :: x in after && x !in before ==> Stale(before, judge, x)
    ensures Admissible(before, judge, LastWins, sb) <==> Admissible(after, judge, LastWins, sb)
  {
    if Admissible(before, judge, LastWins, sb) {
      forall o | o in after && judge(o) == Valid && Pseudonym(o) == Pseudonym(sb) ensures !RankLess(sb, o) {
        if o !in before {
          var w :| w in before && judge(w) == Valid && Pseudonym(w) == Pseudonym(o)
                   && o.envelope.att.nonce < w.envelope.att.nonce;
          assert !Beats(LastWins, w, sb);
        } else {
          assert !Beats(LastWins, o, sb);
        }
      }
    }
    if w :| w in after && judge(w) == Valid && Pseudonym(w) == Pseudonym(sb)
            && sb.envelope.att.nonce < w.envelope.att.nonce {
      assert Beats(LastWins, w, sb);
    }
  }
}
