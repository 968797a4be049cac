/** Election configuration, envelopes and derived lifecycle state
    (core/config.py, core/state.py, envelopes/types.py). */
module Election {
  import opened Field
  import opened Bytes
  import opened BallotMessage
  import opened Ballot

  datatype Mode = Exact | AtMost
  datatype DuplicatePolicy = FirstWins | LastWins

  const MAX_NUM_CANDIDATES := 0xFFFF
  const MAX_BUDGET := 0xFFFE
  const MAX_PROOF_BRANCHES := 2500

  /** (t, n): any t of n keypers act together; t is the quorum. */
  datatype Threshold = Threshold(t: int, n: int)
  {
    predicate Valid()
    {
      n >= 1 && 1 <= t <= n && t * 2 > n
    }
  }

  datatype Config = Config(
    electionId: bytes, numCandidates: int, budget: int, mode: Mode, scale: int, policy: DuplicatePolicy,
    votingStart: int, votingEnd: int, threshold: Threshold, keypers: seq<bytes>,
    eligibilityKey: bytes, resultPublisherKey: bytes, gatewayKeys: seq<bytes>, adminKey: bytes)
  {
    /** What constructing an ElectionConfig enforces. */
    predicate Valid()
    {
      && threshold.Valid()
      && 1 <= numCandidates <= MAX_NUM_CANDIDATES && 1 <= budget <= MAX_BUDGET && scale >= 1
      && numCandidates * (budget + 1) <= MAX_PROOF_BRANCHES
      && votingEnd > votingStart
      && |keypers| == threshold.n
      && forall i, k :: 0 <= i < k < |keypers| ==> keypers[i] != keypers[k]
    }
  }

  datatype Envelope = Envelope(ballot: WireBallot, att: Attestation)

  datatype StoredBallot = StoredBallot(seqNo: int, envelope: Envelope, submittedAt: Option<int>)

  datatype Reason = ReasonInvalidProof | ReasonInvalidSignature | ReasonInvalidAttestation
                  | ReasonDuplicate | ReasonMalformed | ReasonOutOfWindow

  datatype Exclusion = Exclusion(seqNo: int, reason: Reason)

  /** A keyper's vote on the joint key. */
  datatype KeyVote = KeyVote(pk: bytes, committee: seq<bytes>)

  /** The fields of an aggregate that its digest covers. */
  datatype Tally = Tally(
    aggregates: seq<CipherBytes>, admitted: seq<int>, exclusions: seq<Exclusion>,
    totalAdmittedWeight: int, totalScaledWeight: int)

  datatype Artifact = Artifact(electionId: bytes, tally: Tally)

  datatype ShareEntry = ShareEntry(sigma: bytes, proof: bytes)
  datatype ShareEnvelope = ShareEnvelope(electionId: bytes, keyperIndex: int, entries: seq<ShareEntry>)

  datatype ResultArtifact = ResultArtifact(electionId: bytes, totals: seq<int>, keyperIndices: seq<int>, bound: int)

  datatype State = Cancelled | Complete | DkgFailed | Registered | KeyReady | Voting | Tallying | TallyStalled

  datatype Facts = Facts(cancelled: bool, keyFinalized: bool, resultPublished: bool, tallyStalled: bool)

  function DeriveState(config: Config, facts: Facts, now: int): State
  {
    if facts.cancelled then Cancelled
    else if facts.resultPublished then Complete
    else if now >= config.votingStart && !facts.keyFinalized then DkgFailed
    else if !facts.keyFinalized then Registered
    else if now < config.votingStart then KeyReady
    else if now < config.votingEnd then Voting
    else if facts.tallyStalled then TallyStalled
    else Tallying
  }

  predicate IsVotingOpen(config: Config, now: int)
  {
    config.votingStart <= now < config.votingEnd
  }

  /** The state is Voting exactly in the open window of a keyed, live, unfinished election. */
  lemma VotingIff(config: Config, facts: Facts, now: int)
    ensures DeriveState(config, facts, now) == Voting <==>
              !facts.cancelled && !facts.resultPublished && facts.keyFinalized && IsVotingOpen(config, now)
  {
  }

  /** What each state stands for. */
  lemma StateIff(config: Config, facts: Facts, now: int)
    requires config.votingStart < config.votingEnd
    ensures var state, live := DeriveState(config, facts, now), !facts.cancelled && !facts.resultPublished;
            && (state == Cancelled <==> facts.cancelled)
            && (state == Complete <==> facts.resultPublished && !facts.cancelled)
            && (state == Registered <==> live && !facts.keyFinalized && now < config.votingStart)
            && (state == DkgFailed <==> live && !facts.keyFinalized && now >= config.votingStart)
            && (state == KeyReady <==> live && facts.keyFinalized && now < config.votingStart)
            && (state == Voting <==> live && facts.keyFinalized && config.votingStart <= now < config.votingEnd)
            && (state == Tallying <==>
                  live && facts.keyFinalized && now >= config.votingEnd && !facts.tallyStalled)
            && (state == TallyStalled <==>
                  live && facts.keyFinalized && now >= config.votingEnd && facts.tallyStalled)
  {
  }
}
