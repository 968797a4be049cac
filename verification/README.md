# Shutter governance protocol: a verified model

This project models a private voting protocol and proves what it promises. Voters encrypt a
budget of votes over the candidates and prove their ballots well formed; a committee of keypers
generates a key, each member re-derives the weighted aggregate of the admitted ballots, and any
quorum of them decrypts only the totals. A bulletin board stores everything, and nobody is
trusted to run it, the ceremony or the tally honestly beyond a quorum of keypers.

`dafny verify dfyconfig.toml` checks all of it.

## How it is organised

| files | content |
|---|---|
| `Field`, `Group`, `Polynomial`, `Sums`, `Bytes` | arithmetic mod q with proved inverses, points, byte encodings |
| `Lagrange`, `BabySteps`, `Dkg` | threshold combination, discrete-log recovery, Feldman key generation |
| `Transcripts`, `Proofs`, `BallotCodec`, `Ballot` | Fiat-Shamir transcript, sigma proofs, wire codec, ballots |
| `TranscriptBinding`, `BallotSignatures` | what challenges cover, what an accepted ballot and its signature are worth |
| `Election`, `Admission`, `AdmissionFacts`, `Aggregation`, `Recovery`, `Decryption`, `EndToEnd` | configuration and state, which ballots count, the tally and its checker |
| `Quorum`, `Board`, `BoardAuthority`, `DataLayer` | quorum resolution, the bulletin board over all runs, who may change what, the in-memory adapter |
| `HonestAggregate`, `TallyLiveness`, `Finalization` | all keypers, the clock and the board interleaved; that a tally can come about; what a published result means |
| `KeyperInbox`, `Ceremony`, `TallyDriver`, `Paging` | key-generation inbox and repair, the coordinator, aggregate workers, paged readers |

## Reading guide

The main results, each over every input or every run:

- `EndToEnd.TallyPipeline` and `Finalization.PublishedResultIsTrue`: from key generation and
  arbitrary interleavings to the published totals, the result is exactly the weighted sum of the
  admitted votes. The second needs the finalized key to list one public key per member, which
  anyone can check. A keyper that lacks a dealer's commitments publishes a shorter, unaligned
  list (`KeyperInbox.AlignedIff`, with `LoneKeyperPublishes` and
  `HonestAggregate.ShortVoteIsDerived` as witnesses), and the board stores any vote
  (`Ceremony.VoteStep`).
- `HonestAggregate.CanonicalIsHonest`: fewer than t deviating keypers cannot make any other
  aggregate canonical. It rests on `GuardImpliesClosed` and `Board.BallotsFrozen`: whoever agrees
  to aggregate reads a list that can no longer grow. Complete may be reached before `voting_end`,
  because publishing a result has no clock guard; a published result closes the list as well.
- `TallyLiveness.TallyCanBecomeCanonical`: the other half. Whatever happened before, once voting is
  over any quorum of protocol-following keypers can make the derived tally canonical.
- `BoardAuthority.WriteIff` and its neighbours: who may change what, when, and that every such
  write goes through; on whole runs every record goes back to the right signature.
- `BallotSignatures.OneSignaturePerNonce`, `SignatureCoversBallot` and
  `AdmissionFacts.AdmittedExactly`: what acceptance and admission of a ballot stand for.
- `Lagrange.InterpolatesAtZero`, `Dkg.DkgConsistency`, `BabySteps.WalkTable`,
  `Recovery.CheckerAgreesWithSolver`: the algebra, with inverses proved rather than assumed.
- `Ballot.BuildBallot`, `Ballot.BallotSpecialSound`, `BallotCodec.DecodeIff`: completeness through
  the wire, soundness of forked proofs, and a codec that is a bijection onto accepted buffers.
- `Board.QuorumSafety`, `KeyFrozen`, `AggregateFrozen`: the committee cannot split, and what is
  final stays final. `Board.CompleteAbsorbingIff`, `TallyDriver.LimitHeldIff` and
  `Paging.CapSufficesIff` give the exact conditions of promises that hold only under one.
- `Admission.AdmissionPartitions`, `OrderIrrelevant`, `ReplaysChangeNothing`;
  `KeyperInbox.Round2Repeatable`; `Ceremony.QuorumFinalizes`; `TallyDriver.AttemptsBounded`.

Modelling choices. The group order q is a parameter; lemmas that divide require it to be prime. A
point is its exponent mod q and the code touches points only through addition, negation, scalar
multiplication and equality. Hash functions, signature recovery, point encodings, attestation
verification, clock readings, randomness and network replies are parameters. Digests are the
tuples of the fields they cover; the aggregate digest does not cover the artifact's own election
id (`src/shutter_governance_protocol/core/write_auth.py:279-293`), so equality of aggregates is
equality of `Tally`. Loops and objects of the source are methods and classes, each proved equal to
a specification function about which the lemmas are stated.

Hypotheses the code really needs appear as `requires` of the theorems: the tally bound is below q;
the share list names distinct keypers (`Finalization.BoardReady` shows that the board supplies
this); round 2 covers the same dealers as the commitments. Stability of commitments and shares
holds within one ceremony attempt; `completed` survives a new round 1, so a keyper may publish a
key it has not completed round 2 for (`KeyperInbox.StaleKeyIsPublished`), and `MatchesSecretIff`
and `StaleMatchIff` say exactly when what it publishes still matches the secret it holds. What
cannot be proved without computational assumptions is stated as a hypothesis on accepted shares
(`EndToEnd.AllSound`) and on admitted ballots (`Aggregation.AllOpen`, `SpendExactly`); special
soundness (`EndToEnd.CountedSharesSound`, `Ballot.AcceptedBallotSound`) is what justifies them.

Where the source disagrees with its own comments, the code is followed. Module comments speak of
t+1 keypers while the code requires `threshold.t`; a comment in `_drive_dkg` says a complaint halts
before publishing, while `run_dkg_http` publishes with whoever is able and raises only if no key
results.

## Model

| member | source | states |
|---|---|---|
| `Lagrange.LagrangeCoefficient` | src/shutter_governance_protocol/crypto/recovery.py:18-26 | the running num and den are the two products mod q, and the result num times the inverse of den satisfies lambda * den = num mod q; for prime q it has no value exactly when another listed id coincides mod q |
| `Lagrange.CombineShares` | src/shutter_governance_protocol/crypto/recovery.py:29-36 | the combined point is the sum of the shares scaled by their coefficients; it raises exactly when some coefficient does not exist |
| `Lagrange.DenominatorZero` | src/shutter_governance_protocol/crypto/recovery.py:18-26 | the denominator vanishes mod a prime iff another listed id is congruent to j |
| `Lagrange.CoefficientsSumToOne` | src/shutter_governance_protocol/crypto/recovery.py:18-26 | the coefficients of any nonempty list of distinct ids sum to 1 mod q |
| `Lagrange.InterpolatesAtZero` | src/shutter_governance_protocol/crypto/recovery.py:18-36 | for prime q and any distinct ids at least as many as the coefficients, the sum of lambda_j f(j) is f(0) mod q |
| `Lagrange.QuorumIndependent` | src/shutter_governance_protocol/crypto/recovery.py:29-36 | any distinct shares f(id)*C1, at least as many as f has coefficients, combine to f(0)*C1, whichever quorum was chosen |
| `BabySteps.BuildBabyStepTable` | src/shutter_governance_protocol/crypto/recovery.py:58-73 | for every bound the table maps each multiple of the generator below the step count to an index of it, its own index when the steps do not exceed the group order, and holds the negated giant step |
| `BabySteps.WalkTable` | src/shutter_governance_protocol/crypto/recovery.py:76-96 | sound and complete for every bound and order: what it returns is an exponent of the target within the bound, it returns nothing only where there is none, and below the group order the exponent is unique |
| `BabySteps.BabyStepGiantStep` | src/shutter_governance_protocol/crypto/recovery.py:99-110 | the same for the form that builds its own table |
| `BabySteps.StepsFit` | src/shutter_governance_protocol/crypto/recovery.py:67 | for every order q above 2 and every bound below q the step count does not exceed q |
| `BabySteps.SolvesUnique` | src/shutter_governance_protocol/crypto/recovery.py:76-96 | below the group order a point has at most one small exponent |
| `Dkg.KeyperDkgState.Round1` | src/shutter_governance_protocol/crypto/dkg.py:36-52 | commitments are the coefficients times P2, and the share dealt to each i is f(i) mod q and satisfies the Feldman equation |
| `Dkg.KeyperDkgState.Round2` | src/shutter_governance_protocol/crypto/dkg.py:54-96 | accepts iff every received share has a commitment vector of the quorum length and satisfies the Feldman equation; the rejected set is exactly the other dealers; the combined share is the sum mod q |
| `Dkg.KeyperDkgState.ZeroizeDealing` | src/shutter_governance_protocol/crypto/dkg.py:98-107 | drops the dealing material and leaves the combined share |
| `Dkg.KeyperDkgState.PartialDecrypt` | src/shutter_governance_protocol/crypto/dkg.py:109-113 | the combined share times C1, nothing before round 2 completed |
| `Dkg.VerifyShare` | src/shutter_governance_protocol/crypto/dkg.py:116-127 | accepts iff the share is congruent to the committed polynomial at the recipient |
| `Dkg.DealShare` | src/shutter_governance_protocol/crypto/dkg.py:46-51 | the power loop computes the polynomial value mod q |
| `Dkg.DealtShareMatches` | src/shutter_governance_protocol/crypto/dkg.py:36-52 | an honestly dealt share always verifies against its commitments |
| `Dkg.HonestDealingAccepted` | src/shutter_governance_protocol/crypto/dkg.py:36-96 | round 2 accepts the shares of honest dealers, whatever they drew |
| `Dkg.CheckCommitmentLengths` | src/shutter_governance_protocol/crypto/dkg.py:130-150 | reports exactly the dealers whose vectors have the wrong length |
| `Dkg.DeriveJointMpk` | src/shutter_governance_protocol/crypto/dkg.py:153-163 | rejects iff some length is wrong; otherwise the sum of all committed polynomials at zero |
| `Dkg.DeriveMpkShare` | src/shutter_governance_protocol/crypto/dkg.py:166-180 | rejects iff some length is wrong; otherwise the sum of all committed polynomials at the target |
| `Dkg.JointEvaluates` | src/shutter_governance_protocol/crypto/dkg.py:153-180 | one polynomial of quorum length evaluates everywhere to the sum of the dealers' polynomials |
| `Dkg.DkgConsistency` | src/shutter_governance_protocol/crypto/dkg.py:54-180 | with arbitrary dealers: if round 2 accepts over exactly the committed dealers, all vectors have length t and one polynomial of t coefficients gives the combined share at the keyper, the joint key at zero and every public share |
| `Dkg.PublishersShareOnePolynomial` | src/shutter_governance_protocol/services/keyper/keyper_server.py:580-600 | keypers that publish the same result from possibly different commitment vectors hold secret shares on one polynomial, each the exponent of its own published committee key |
| `Bytes.ScalarRoundTrip` | src/shutter_governance_protocol/crypto/params.py:78-100 | decoding inverts encoding up to reduction mod q |
| `Bytes.ScalarCanonical` | src/shutter_governance_protocol/crypto/params.py:83-100 | every accepted 32-byte scalar re-encodes to the same bytes |
| `Transcripts.SuitesExist` | src/shutter_governance_protocol/crypto/points.py:58-93 | the assumptions made about point encodings are satisfiable for every group order that fits 32 bytes and every hash |
| `Transcripts.Transcript.Append` | src/shutter_governance_protocol/crypto/transcript.py:35-40 | appends tag and value with four-byte length prefixes and records the entry in the log the parts are tied to |
| `Transcripts.Transcript.Challenge` | src/shutter_governance_protocol/crypto/transcript.py:49-57 | the challenge is the reduced hash of the tag and preimage, folded back and recorded under its tag |
| `Transcripts.PreimageIsLog` | src/shutter_governance_protocol/crypto/transcript.py:59-65 | the preimage is the label followed by the length-prefixed log of appended entries |
| `Transcripts.PreimageInjective` | src/shutter_governance_protocol/crypto/transcript.py:32-65 | under one label equal preimages come from equal lists of entries |
| `Transcripts.TranscriptInjective` | src/shutter_governance_protocol/crypto/transcript.py:32-65 | two transcripts under one label with equal preimages recorded the same tags and values in the same order |
| `Proofs.ProveDleq` | src/shutter_governance_protocol/crypto/proofs.py:76-87 | for equal logarithms the answer is accepted by the verifier from the same transcript, for every nonce, and both end with one transcript |
| `Proofs.VerifyDleq` | src/shutter_governance_protocol/crypto/proofs.py:90-96 | accepts iff the challenge is the one of the recomputed commitments |
| `Proofs.DleqSpecialSound` | src/shutter_governance_protocol/crypto/proofs.py:90-96 | two answers to one pair of commitments with different challenges give one exponent for both bases |
| `Proofs.MakeDecryptTranscript` | src/shutter_governance_protocol/crypto/proofs.py:34-48 | raises iff the election id is not 32 bytes or the candidate does not fit two; otherwise the seeded transcript |
| `Proofs.ProveDecryptionShare` | src/shutter_governance_protocol/crypto/proofs.py:110-113 | raises iff the keyper index does not fit two bytes; for a true statement the proof is accepted from the same transcript, for every nonce |
| `Proofs.VerifyDecryptionShare` | src/shutter_governance_protocol/crypto/proofs.py:116-118 | raises iff the keyper index does not fit; otherwise accepts iff the DLEQ on the bound transcript is valid |
| `Proofs.ShareStatement` | src/shutter_governance_protocol/crypto/proofs.py:110-118 | equal logarithms make the share the committee exponent times C1 |
| `Proofs.ProveOr` | src/shutter_governance_protocol/crypto/proofs.py:143-184 | raises iff the index is out of range or the pinned simulations do not match in number; otherwise reduced branches, the verifier's final transcript, and acceptance whenever the ciphertext encrypts the chosen candidate |
| `Proofs.VerifyOr` | src/shutter_governance_protocol/crypto/proofs.py:187-201 | accepts iff counts match, every branch satisfies both equations and the branch challenges sum to the transcript challenge |
| `Proofs.SimulatedOk` | src/shutter_governance_protocol/crypto/proofs.py:166-171 | a simulated branch satisfies both equations for any challenge and response |
| `Proofs.OrSpecialSound` | src/shutter_governance_protocol/crypto/proofs.py:187-201 | two accepted proofs with the same commitments and different challenges yield an index i and an r with c1 = r*P2 and c2 = r*mpk + m_i*P2 |
| `Proofs.ProveBudgetExact` | src/shutter_governance_protocol/crypto/proofs.py:221-224 | whenever the sum ciphertext encrypts exactly the budget the proof is accepted and prover and verifier end with one transcript |
| `Proofs.VerifyBudgetExact` | src/shutter_governance_protocol/crypto/proofs.py:227-230 | accepts iff the DLEQ of the budget instance is valid, and the transcript it ends with |
| `Proofs.BudgetSpecialSound` | src/shutter_governance_protocol/crypto/proofs.py:215-230 | two answers to one commitment show that the sum ciphertext encrypts the budget |
| `TranscriptBinding.ChallengeTellsApart` | src/shutter_governance_protocol/crypto/transcript.py:49-57 | transcripts with different bytes get different challenges under some hash function |
| `TranscriptBinding.ChallengeTagged` | src/shutter_governance_protocol/crypto/transcript.py:49-57 | so do challenges drawn under different tags, whatever the transcripts |
| `TranscriptBinding.DleqBinds` | src/shutter_governance_protocol/crypto/proofs.py:69-96 | equal DLEQ transcripts have equal starts, bases, points and commitments |
| `TranscriptBinding.ShareChallengeCovers` | src/shutter_governance_protocol/crypto/proofs.py:34-118 | share proofs that differ in election, candidate, ciphertext, committee key, keyper index, share point or commitment get different challenges under some hash function |
| `TranscriptBinding.SeedBinds` | src/shutter_governance_protocol/crypto/ballot.py:207-227 | equal ballot transcripts have equal election, joint key, voter key, ciphertexts, candidate count and budget |
| `TranscriptBinding.RangeProofBinds` | src/shutter_governance_protocol/crypto/proofs.py:133-201 | equal range-proof transcripts have equal starts, positions, ciphertexts, keys, candidate lists mod q and commitments |
| `TranscriptBinding.BudgetProofBinds` | src/shutter_governance_protocol/crypto/proofs.py:208-218 | equal budget transcripts have equal starts, modes, budgets mod q, statements and commitments |
| `TranscriptBinding.LabelsSeparate` | src/shutter_governance_protocol/crypto/transcript.py:32-57 | hash inputs of ballot proofs, decryption shares and signatures never coincide |
| `BallotCodec.Encode` | src/shutter_governance_protocol/crypto/ballot.py:52-76 | encodes exactly the nonempty uniform proofs whose counts fit two bytes |
| `BallotCodec.DecodeProof` | src/shutter_governance_protocol/crypto/ballot.py:79-120 | the cursor parser returns what the format specification reads, and raises on everything else |
| `BallotCodec.DecodeIff` | src/shutter_governance_protocol/crypto/ballot.py:52-120 | decode accepts a buffer as p iff p has the expected shape with reduced scalars and the buffer is its encoding, so the codec is a bijection onto accepted buffers |
| `BallotCodec.CodecRoundTrip` | src/shutter_governance_protocol/crypto/ballot.py:52-120 | decode after encode is the identity on proofs of the expected shape |
| `BallotMessage.MessageInjective` | src/shutter_governance_protocol/crypto/ballot.py:128-180 | equal canonical messages have equal election, pseudonym, ciphertexts, proof and credential |
| `BallotMessage.CredentialInjective` | src/shutter_governance_protocol/crypto/ballot.py:128-180 | the fixed-width credential section determines every credential field |
| `BallotMessage.SignVerifies` | src/shutter_governance_protocol/crypto/schnorr.py:33-58 | a signature by a generated key verifies for every nonce |
| `BallotMessage.SignatureIff` | src/shutter_governance_protocol/crypto/schnorr.py:62-70 | the 80-byte form is a bijection on reduced signatures |
| `BallotSignatures.OneAnswer` | src/shutter_governance_protocol/crypto/schnorr.py:52-58 | for every key, message and nonce point exactly one reduced scalar verifies, and none under the identity key |
| `BallotSignatures.SchnorrSpecialSound` | src/shutter_governance_protocol/crypto/schnorr.py:40-58 | two verifying answers to one nonce point under different challenges give the secret key of vk |
| `BallotSignatures.SchnorrPreimageInjective` | src/shutter_governance_protocol/crypto/schnorr.py:29-30 | the hashed bytes determine nonce point, key and message |
| `BallotSignatures.ChallengeCovers` | src/shutter_governance_protocol/crypto/schnorr.py:29-30 | statements that differ in nonce point, key or message are told apart by some hash function |
| `BallotSignatures.PreV2Injective` | src/shutter_governance_protocol/crypto/ballot.py:183-204 | the superseded message determines its fields and is never a current message |
| `BallotSignatures.StructuredIff` | src/shutter_governance_protocol/crypto/ballot.py:326-358 | the structural gates pass iff the wire fields are the encodings of a nonzero voter key, as many ciphertexts as candidates and a proof of the expected shape, with lengths, limits and a joint key that is not the identity |
| `BallotSignatures.VerdictMeans` | src/shutter_governance_protocol/crypto/ballot.py:360-392 | on a well-formed ballot bearing a signature: each verdict exactly by accepted proofs, signable fields and whether the scalar answers the nonce for the current or the superseded message |
| `BallotSignatures.MalformedIff` | src/shutter_governance_protocol/crypto/ballot.py:326-379 | malformed iff not made of such parts, or proven but with signature bytes that are no encoding |
| `BallotSignatures.OneSignaturePerNonce` | src/shutter_governance_protocol/crypto/ballot.py:376-392 | with all other fields fixed, each nonce point leaves exactly one 80-byte signature under which the ballot is accepted |
| `BallotSignatures.SignatureCoversBallot` | src/shutter_governance_protocol/crypto/ballot.py:380-391 | one signature under one key makes two ballots acceptable only if everything it covers agrees, the attestation included, or two different messages collide in the challenge |
| `Ballot.SeedBallotTranscript` | src/shutter_governance_protocol/crypto/ballot.py:207-227 | binds label, parameters, keys and every ciphertext in order |
| `Ballot.VerifyBallotCrypto` | src/shutter_governance_protocol/crypto/ballot.py:316-392 | computes the verdict that BallotSignatures characterises: the verdict of the structural gates, range proofs, budget proof and signature in the order of the source, including the pre-v2 diagnosis and the cases that raise |
| `Ballot.SumEncrypts` | src/shutter_governance_protocol/crypto/elgamal.py:41-47 | the sum of encryptions encrypts the sum of the votes |
| `Ballot.EncryptVotes` | src/shutter_governance_protocol/crypto/elgamal.py:18-28 | every pair encrypts its vote under its randomness |
| `Ballot.ProveBallot` | src/shutter_governance_protocol/crypto/ballot.py:261-292 | for all randomness the range and budget proofs of an exact vote vector are accepted on the threaded transcript |
| `Ballot.BuildBallot` | src/shutter_governance_protocol/crypto/ballot.py:240-308 | a ballot is built iff the votes are in range, sum to the budget, match the keypair and everything fits the formats; it encrypts those votes, and the verifier accepts it through the wire unless the key is the identity or the budget zero |
| `Ballot.MalformedBallotsAreBuilt` | src/shutter_governance_protocol/crypto/ballot.py:240-308 | both exceptions are real: concrete inputs that are built under every key, the identity included, and with a zero budget |
| `Ballot.BallotSpecialSound` | src/shutter_governance_protocol/crypto/ballot.py:360-375 | over a whole ballot, forked proofs yield votes in [0, B] whose integer sum is exactly B, the branch limit of the configuration excluding wrap-around |
| `Ballot.AcceptedBallotSound` | src/shutter_governance_protocol/crypto/ballot.py:316-392 | ballots over one list of ciphertexts accepted under two hashes that answer the same commitments with different challenges carry votes in [0, B] that sum to exactly B |
| `Admission.ValidateBallot` | src/shutter_governance_protocol/core/admission.py:53-99 | the first failing check decides, in the order malformed, out of window, attestation, ballot cryptography |
| `Admission.BestPerPseudonym` | src/shutter_governance_protocol/core/admission.py:112-123 | one pass keeps for every pseudonym a ballot that none of its others beats |
| `Admission.DuplicateLosers` | src/shutter_governance_protocol/core/admission.py:102-126 | exactly the sequence numbers among the valid ballots that no pseudonym's unbeaten ballot carries, whatever the numbering |
| `Admission.KeptAreBest` | src/shutter_governance_protocol/core/admission.py:125-126 | with distinct sequence numbers the ballots whose number survives are exactly the unbeaten ones |
| `Admission.AdmitBallots` | src/shutter_governance_protocol/core/admission.py:129-169 | computes the admission specification on every list, and raises iff the key does not decode or some check raises |
| `Admission.AdmittedIff` | src/shutter_governance_protocol/core/admission.py:129-169 | admitted iff valid and not beaten by a valid ballot of the same pseudonym, from the set of ballots alone |
| `Admission.OneBallotPerVoter` | src/shutter_governance_protocol/core/admission.py:102-126 | every pseudonym with a valid ballot has exactly one admitted ballot, of extreme (nonce, sequence) |
| `Admission.ExclusionsIff` | src/shutter_governance_protocol/core/admission.py:137-163 | the exclusions are strictly sorted and list exactly the excluded ballots with their reasons |
| `Admission.AdmissionPartitions` | src/shutter_governance_protocol/core/admission.py:129-169 | every ballot is admitted or listed in exactly one exclusion, never both |
| `Admission.OrderIrrelevant` | src/shutter_governance_protocol/core/admission.py:129-169 | permuting the input keeps the admitted set and the exclusion list |
| `Admission.ReplaysChangeNothing` | src/shutter_governance_protocol/core/admission.py:102-126 | under last-wins, adding lower-nonce ballots for pseudonyms that hold a valid ballot changes nobody's admission, wherever they are inserted |
| `AdmissionFacts.JudgementIff` | src/shutter_governance_protocol/core/admission.py:53-99 | valid iff the ballot names this election, is timely, carries a credential the issuer verifies for its own election, pseudonym and key, and its cryptography is accepted; every other reason and the raising case exactly by the facts it stands for |
| `AdmissionFacts.AdmittedAreEligible` | src/shutter_governance_protocol/core/admission.py:129-169 | on every list every admitted ballot is one of the list and has all of that, the verified credential included |
| `AdmissionFacts.AdmittedExactly` | src/shutter_governance_protocol/core/admission.py:102-169 | admitted iff eligible and no eligible ballot of the same pseudonym has the higher, under first-wins the lower, nonce or on a tie the later, respectively earlier, number |
| `AdmissionFacts.ExclusionsExplained` | src/shutter_governance_protocol/core/admission.py:137-163 | a number is listed with a reason iff a ballot of that number has the facts the reason stands for |
| `AdmissionFacts.AdmittedInOrder` | src/shutter_governance_protocol/core/admission.py:146-161 | admitted ballots keep the order of the data layer |
| `AdmissionFacts.TotalsAreSetTotals` | src/shutter_governance_protocol/core/admission.py:164 | the admitted weight, the scaled total and the exponents of the aggregate are sums over the set of admitted ballots |
| `AdmissionFacts.TotalsAgreeAtScaleOne` | src/shutter_governance_protocol/core/aggregation.py:105-109 | at scale 1 both published weights agree |
| `AdmissionFacts.TotalsOrderIrrelevant` | src/shutter_governance_protocol/core/aggregation.py:80-117 | permuting the ballots changes neither published weight nor any aggregate point |
| `Aggregation.ScaledWeight` | src/shutter_governance_protocol/core/aggregation.py:54-66 | nearest multiple with ties upwards, non-negative for non-negative weights, the weight itself at scale 1 |
| `Aggregation.AddScaledEncrypts` | src/shutter_governance_protocol/crypto/elgamal.py:31-38 | adding a scaled encryption adds the scaled plaintext and randomness |
| `Aggregation.AggregatePoints` | src/shutter_governance_protocol/core/aggregation.py:80-96 | per candidate the weighted sum of ciphertexts; raises iff a ballot of nonzero scaled weight lacks or cannot decode a ciphertext |
| `Aggregation.BuildAggregateArtifact` | src/shutter_governance_protocol/core/aggregation.py:99-117 | the artifact of the aggregate, admitted numbers, exclusions and both weight totals |
| `Aggregation.AdmittedAggregates` | src/shutter_governance_protocol/core/aggregation.py:99-117 | whatever admission admits can be aggregated without raising and has non-negative weight |
| `Aggregation.AggregateEncrypts` | src/shutter_governance_protocol/core/aggregation.py:80-96 | a candidate's aggregate encrypts its weighted vote total |
| `Aggregation.CarriedOpens` | src/shutter_governance_protocol/core/aggregation.py:92-95 | a ballot whose bytes carry encrypted votes, honestly built or extracted from rewound proofs, contributes exactly those votes |
| `Aggregation.TotalsConserve` | src/shutter_governance_protocol/core/aggregation.py:272-275 | if every ballot spends exactly the budget, all totals together are budget times scaled weight |
| `Aggregation.TotalWithinBound` | src/shutter_governance_protocol/core/aggregation.py:69-77 | every total lies in [0, bound] |
| `Recovery.DleqIff` | src/shutter_governance_protocol/crypto/proofs.py:55-62 | the 64-byte proof form is a bijection on reduced pairs |
| `Recovery.VerifyShareFor` | src/shutter_governance_protocol/core/aggregation.py:149-164 | a share is skipped, raises or counts: raising iff it is presentable but its transcript or index cannot be encoded, counting iff presentable with a valid proof |
| `Recovery.DeriveTau` | src/shutter_governance_protocol/core/aggregation.py:145-171 | the first quorum of counted shares combined and subtracted from C2; too few and raising cases apart |
| `Recovery.DeriveTaus` | src/shutter_governance_protocol/core/aggregation.py:120-173 | all candidates or the first failure; the indices of the first candidate |
| `Recovery.PublishedIndices` | src/shutter_governance_protocol/core/aggregation.py:143-173 | without candidates no indices; otherwise exactly quorum many, those of the first shares in list order that count for the first candidate, none skipped |
| `Recovery.NamedKeypers` | src/shutter_governance_protocol/core/aggregation.py:152-173 | the named indices lie in the committee and are distinct whenever no keyper has two shares |
| `Recovery.TooFewIff` | src/shutter_governance_protocol/core/aggregation.py:166-167 | a candidate lacks shares iff fewer count than the quorum and none raises |
| `Recovery.FirstFailureDecides` | src/shutter_governance_protocol/core/aggregation.py:145-173 | the first candidate without a tau decides between too few shares and raising |
| `Recovery.RecoverResult` | src/shutter_governance_protocol/core/aggregation.py:176-238 | for every bound: infeasible iff over the ceiling, before anything else; otherwise found iff every tau has an exponent within the bound, and then such exponents with the first candidate's indices |
| `Recovery.CheckResult` | src/shutter_governance_protocol/core/aggregation.py:241-306 | what each outcome means: passing, raising, too few shares, or the first thing wrong with its position |
| `Recovery.CheckDetermined` | src/shutter_governance_protocol/core/aggregation.py:241-306 | these meanings exclude each other, so the outcome is determined, and it passes iff every claimed total is in range, decrypts and the sum fits the mode |
| `Recovery.CheckerAgreesWithSolver` | src/shutter_governance_protocol/core/aggregation.py:176-306 | whatever the checker accepts is the one vector the solver can return; what the solver returns is accepted iff its sum fits |
| `Decryption.ProduceDecryptionShare` | src/shutter_governance_protocol/services/keyper/keyper.py:146-200 | refuses exactly outside Tallying or Complete or without key or canonical aggregate; produces exactly when every candidate can be decrypted and proven, and then every entry is the exponent applied to C1 with a verifying proof |
| `Decryption.HonestShareCounts` | src/shutter_governance_protocol/services/keyper/keyper.py:185-196 | a share so produced counts for every candidate once the committee key is its exponent |
| `EndToEnd.TauIsPlaintext` | src/shutter_governance_protocol/core/aggregation.py:145-171 | a quorum of sound shares decrypts a candidate's ciphertext to its plaintext |
| `EndToEnd.CountedSharesSound` | src/shutter_governance_protocol/core/aggregation.py:149-164 | a keyper whose share counts under two hashes, its proof rewound, has sent the committee exponent times C1 |
| `EndToEnd.CommitteeShareCounts` | src/shutter_governance_protocol/services/keyper/keyper_server.py:693-713 | a keyper that passed round 2 and published the key contributes a share that counts everywhere |
| `EndToEnd.DkgQuorumDecrypts` | src/shutter_governance_protocol/crypto/dkg.py:54-180 | t such keypers put the key on one polynomial of t coefficients and make every candidate decryptable |
| `EndToEnd.EndToEndTally` | src/shutter_governance_protocol/core/aggregation.py:80-306 | the solver's only answer is the vector of weighted totals, their sum is budget times scaled weight, and the checker accepts them and nothing else |
| `EndToEnd.TallyPipeline` | src/shutter_governance_protocol/core/aggregation.py:80-306 | the same from key generation: t keypers past round 2 with one published key, ballots admitted by the rules, bound below q |
| `Quorum.GroupSlots` | src/shutter_governance_protocol/adapters/memory.py:250-256 | every slot is filed once, in one group per distinct value |
| `Quorum.ResolveUnique` | src/shutter_governance_protocol/core/quorum.py:17-38 | the one value with enough supporters, none, or a conflict |
| `Quorum.OneWinner` | src/shutter_governance_protocol/core/config.py:75-87 | two majorities share a keyper and a keyper has one slot, so two values cannot both win |
| `Quorum.NeverConflicts` | src/shutter_governance_protocol/core/quorum.py:30-37 | with a majority quorum the conflict outcome never occurs |
| `Board.StepKeepsInv` | src/shutter_governance_protocol/adapters/memory.py:86-343 | every write keeps slots within the committee, ballots numbered and in window, shares under their own index and behind a canonical aggregate |
| `Board.StepIsLater` | src/shutter_governance_protocol/adapters/memory.py:86-343 | no write takes back a ballot, key vote, share, result or cancellation, nor a slot once an aggregate is canonical |
| `Board.RunIsLater` | src/shutter_governance_protocol/adapters/memory.py:86-343 | the same between any two states of any run |
| `Board.QuorumSafety` | src/shutter_governance_protocol/adapters/memory.py:129-169 | on every run neither the key nor the aggregate resolution conflicts |
| `Board.KeyFrozen` | src/shutter_governance_protocol/adapters/memory.py:156-171 | a finalized key is the only finalized key in every continuation |
| `Board.AggregateFrozen` | src/shutter_governance_protocol/adapters/memory.py:229-266 | a canonical tally stays the only canonical one, and no slot changes any more |
| `Board.BallotsFrozen` | src/shutter_governance_protocol/adapters/memory.py:173-218 | once voting has ended or a result exists, no later write changes the ballot list |
| `Board.StoredBallotsInWindow` | src/shutter_governance_protocol/adapters/memory.py:173-218 | on every run ballots carry numbers 0..len-1 and times inside the voting window |
| `Board.ShareSawCurrentAggregate` | src/shutter_governance_protocol/adapters/memory.py:268-293 | every share was stored while the tally canonical now was canonical |
| `Board.TerminalStates` | src/shutter_governance_protocol/core/state.py:44-77 | Cancelled is absorbing, and Complete is once voting_start has passed |
| `Board.EarlyCompleteCanBeCancelled` | src/shutter_governance_protocol/adapters/memory.py:104-110 | from every state that is Complete before voting_start the admin can still reach Cancelled |
| `Board.EarlyCompleteExists` | src/shutter_governance_protocol/adapters/memory.py:299-310 | there are such states: a result published before voting_start |
| `Board.CompleteAbsorbingIff` | src/shutter_governance_protocol/core/state.py:44-77 | a Complete state is absorbing over all later runs if and only if voting_start has passed |
| `Election.StateIff` | src/shutter_governance_protocol/core/state.py:44-77 | each of the eight states exactly by cancellation, result, key, time and stall flag |
| `BoardAuthority.LifecycleAuthority` | src/shutter_governance_protocol/adapters/memory.py:104-343 | over every state and write: the result changes only from nothing to what the publisher signed, cancellation only on the admin's signature before voting_start, the stall flag only on a usable request of the publisher after voting without a result, or back of the admin |
| `BoardAuthority.BallotAuthority` | src/shutter_governance_protocol/adapters/memory.py:173-218 | the list grows by one ballot, written by a gateway key where any is configured, in the open window of a keyed, uncancelled, unfinished election |
| `BoardAuthority.SlotAuthority` | src/shutter_governance_protocol/adapters/memory.py:129-293 | a key vote, tally or share slot changes only on the signature of the keyper it belongs to, at its stage and time |
| `BoardAuthority.WriteIff` | src/shutter_governance_protocol/adapters/memory.py:104-343 | every write succeeds iff signer, time and stage permit it |
| `BoardAuthority.WriteEffect` | src/shutter_governance_protocol/adapters/memory.py:104-343 | the whole effect of every permitted write |
| `BoardAuthority.RefusalMeans` | src/shutter_governance_protocol/adapters/memory.py:104-343 | what each error of each operation says |
| `BoardAuthority.LifecycleProvenance` | src/shutter_governance_protocol/adapters/memory.py:104-310 | on every run a result was published under the publisher's signature and a cancellation under the admin's before voting_start |
| `BoardAuthority.BallotProvenance` | src/shutter_governance_protocol/adapters/memory.py:173-218 | on every run each stored ballot was written as it stands, at the time it carries, by somebody allowed to |
| `BoardAuthority.SlotProvenance` | src/shutter_governance_protocol/adapters/memory.py:129-293 | on every run each vote, tally and share was signed by the keyper whose slot it is in, tallies and shares after voting |
| `DataLayer.InMemoryDataLayer.constructor` | src/shutter_governance_protocol/adapters/memory.py:58-63 | an empty store |
| `DataLayer.InMemoryDataLayer.RegisterElection` | src/shutter_governance_protocol/adapters/memory.py:86-102 | succeeds iff the admin signed this configuration and it names the next id, which was unused; adds one fresh election and nothing else |
| `DataLayer.InMemoryDataLayer.CancelElection` | src/shutter_governance_protocol/adapters/memory.py:104-110 | is the board's Cancel write on that election alone |
| `DataLayer.InMemoryDataLayer.SubmitDkgResult` | src/shutter_governance_protocol/adapters/memory.py:129-150 | is the board's SubmitDkg write by the recovered keyper |
| `DataLayer.InMemoryDataLayer.GetFinalizedKey` | src/shutter_governance_protocol/adapters/memory.py:156-171 | the winning key vote, if any; never a conflict |
| `DataLayer.InMemoryDataLayer.SubmitBallotEnvelope` | src/shutter_governance_protocol/adapters/memory.py:173-218 | is the board's SubmitBallot write, returning the next sequence number |
| `DataLayer.InMemoryDataLayer.ListBallots` | src/shutter_governance_protocol/adapters/memory.py:220-222 | as many rows as requested and stored from the offset; row i is the ballot at start + i and carries that sequence number |
| `DataLayer.InMemoryDataLayer.SubmitAggregateArtifact` | src/shutter_governance_protocol/adapters/memory.py:229-248 | is the board's SubmitAggregate write by the recovered keyper |
| `DataLayer.InMemoryDataLayer.GetAggregate` | src/shutter_governance_protocol/adapters/memory.py:250-266 | of the winning tally, the artifact that arrived first; nothing iff no tally wins |
| `DataLayer.InMemoryDataLayer.SubmitDecryptionShare` | src/shutter_governance_protocol/adapters/memory.py:268-293 | is the board's SubmitShare write by the recovered keyper |
| `DataLayer.InMemoryDataLayer.PublishResultArtifact` | src/shutter_governance_protocol/adapters/memory.py:299-310 | is the board's PublishResult write |
| `DataLayer.InMemoryDataLayer.SetTallyStalled` | src/shutter_governance_protocol/adapters/memory.py:315-343 | is the board's SetStalled write, usable once per fresh timestamp |
| `DataLayer.NextIdCounts` | src/shutter_governance_protocol/adapters/memory.py:93 | the next id is the number of registrations so far plus one |
| `DataLayer.ShareDigestCovers` | src/shutter_governance_protocol/adapters/memory.py:280-282 | the signed digest determines the election and every entry with a 64-byte proof |
| `DataLayer.StallDigestCovers` | src/shutter_governance_protocol/adapters/memory.py:317-332 | a stall request is signed for one election, direction and time of issue |
| `HonestAggregate.DeriveArtifact` | src/shutter_governance_protocol/services/keyper/keyper.py:121-123 | admission followed by aggregation: the tally determined by key and ballots, or raises iff admission does |
| `HonestAggregate.NeverOutOfWindow` | src/shutter_governance_protocol/core/admission.py:66-68 | on every run admission marks no stored ballot out of window |
| `HonestAggregate.GuardImpliesClosed` | src/shutter_governance_protocol/services/keyper/keyper.py:70-89 | whoever passes the aggregation guard reads a ballot list that can no longer grow |
| `HonestAggregate.GuardIff` | src/shutter_governance_protocol/services/keyper/keyper.py:70-89 | the guard passes iff the key is final, nothing is cancelled, and voting is over or a result is out |
| `HonestAggregate.NextKeepsInv` | src/shutter_governance_protocol/services/keyper/keyper.py:91-125 | every interleaved step keeps: agreed sessions see the closed list and final key, signed tallies are the derived one, honest slots hold signed tallies |
| `HonestAggregate.CanonicalIsHonest` | src/shutter_governance_protocol/services/keyper/keyper.py:70-125 | with fewer than t deviating keypers, on every run any canonical tally is admission plus aggregation of the final key and the closed ballot list |
| `HonestAggregate.FinalKeyIsDerived` | src/shutter_governance_protocol/services/keyper/keyper_server.py:580-600 | with fewer than t deviating keypers, on every run the finalized key is what some non-deviating keyper publishes after some run of ceremony attempts |
| `HonestAggregate.ShortVoteIsDerived` | src/shutter_governance_protocol/services/keyper/keyper_server.py:593-598 | a vote derived by following the protocol may list fewer keys than there are members |
| `HonestAggregate.EverCanonicalIsFinal` | src/shutter_governance_protocol/services/keyper/keyper.py:70-125 | a tally canonical at any moment is the one computed from the ballot list at the end of the run |
| `TallyLiveness.ProducesTally` | src/shutter_governance_protocol/services/keyper/keyper.py:91-125 | after voting, from whatever it was doing, a keyper's undisturbed call ends in its signature under the derived tally and touches nothing else |
| `TallyLiveness.SubmitsTally` | src/shutter_governance_protocol/adapters/memory.py:229-248 | the board then stores that tally in its slot unless one is canonical |
| `TallyLiveness.CanonicalIsDue` | src/shutter_governance_protocol/services/keyper/keyper.py:91-125 | with a quorum of protocol-following keypers whatever is canonical is the derived tally |
| `TallyLiveness.TallyCanBecomeCanonical` | src/shutter_governance_protocol/services/keyper/keyper.py:70-125 | after every run, once voting is over in an uncancelled election with a final key and admission raises nothing, every quorum of protocol-following keypers has a continuation that makes the derived tally canonical |
| `Finalization.Finalize` | src/shutter_governance_protocol/services/tally_aggregator/tally_aggregator.py:69-96 | publishes exactly when the state is Tallying, marked stalled or not, the caller is the publisher and recovery yields totals for the finalized key, canonical aggregate and stored shares, and publishes only those |
| `Finalization.ShareListOrdered` | src/shutter_governance_protocol/adapters/memory.py:295-297 | the shares handed to recovery are exactly the stored ones in index order |
| `Finalization.PublishedNamesQuorum` | src/shutter_governance_protocol/services/tally_aggregator/tally_aggregator.py:69-96 | a published result names exactly t different committee members, the first whose proof for the first candidate is accepted |
| `Finalization.VoteOnPolynomial` | src/shutter_governance_protocol/services/keyper/keyper_server.py:580-600 | a derived key with one public key per member lies on one polynomial of t coefficients |
| `Finalization.RecoveredIsTrueTally` | src/shutter_governance_protocol/services/tally_aggregator/tally_aggregator.py:69-96 | with a key on such a polynomial, on every run with fewer than t deviating keypers, totals recovered from the board are the weighted totals of the votes in the admitted final ballots |
| `Finalization.PublishedResultIsTrue` | src/shutter_governance_protocol/services/tally_aggregator/tally_aggregator.py:69-96 | on every run with fewer than t deviating keypers and a finalized key listing every member, whatever finalize publishes is the weighted totals of the votes in the admitted final ballots, summing to budget times scaled weight |
| `KeyperInbox.Inbox.HandleCommitments` | src/shutter_governance_protocol/services/keyper/keyper_server.py:300-340 | signature, length, equivocation and decoding outcomes, and the entry stored |
| `KeyperInbox.Inbox.HandleShare` | src/shutter_governance_protocol/services/keyper/keyper_server.py:386-444 | a differing share is taken only from a complained-about dealer and only if it verifies |
| `KeyperInbox.Inbox.HandleRound2` | src/shutter_governance_protocol/services/keyper/keyper_server.py:446-490 | the combined share, or complaints against exactly the bad dealers |
| `KeyperInbox.Inbox.HandleRound1` | src/shutter_governance_protocol/services/keyper/keyper_server.py:265-279 | the inbox starts over with the own dealing, the completed secret stays |
| `KeyperInbox.DeliverKeepsInv` | src/shutter_governance_protocol/services/keyper/keyper_server.py:300-490 | over every run of one attempt only committee members are filed and every commitment vector has the quorum length |
| `KeyperInbox.ShareReplacedOnlyByRepair` | src/shutter_governance_protocol/services/keyper/keyper_server.py:300-444 | no message changes stored commitments, and a stored share changes only after a complaint into one that verifies |
| `KeyperInbox.CommitmentsNeverChange` | src/shutter_governance_protocol/services/keyper/keyper_server.py:333-340 | over every run of one attempt a dealer's commitments stay |
| `KeyperInbox.VerifiedShareStable` | src/shutter_governance_protocol/services/keyper/keyper_server.py:429-444 | once a stored share verifies it stays verified and equal mod q |
| `KeyperInbox.Round2Repeatable` | src/shutter_governance_protocol/services/keyper/keyper_server.py:446-490 | running round 2 again over the same dealers accepts again with the same combined share |
| `KeyperInbox.InboxAuthority` | src/shutter_governance_protocol/services/keyper/keyper_server.py:300-490 | commitments and shares of a dealer are filed only under that dealer's own signature, of the right length and addressed here; complaints and the combined share come from round 2 alone |
| `KeyperInbox.GenuineCommitmentsFiled` | src/shutter_governance_protocol/services/keyper/keyper_server.py:300-340 | a dealer's own vector is filed if it is the first, accepted if it repeats, refused if it differs |
| `KeyperInbox.GenuineShareFiled` | src/shutter_governance_protocol/services/keyper/keyper_server.py:386-444 | a dealer's own first share addressed here is filed |
| `KeyperInbox.CommitmentReplies` | src/shutter_governance_protocol/services/keyper/keyper_server.py:300-340 | what each reply to a commitment vector says: wrong signer, wrong length, equivocation or undecodable points |
| `KeyperInbox.ShareReplies` | src/shutter_governance_protocol/services/keyper/keyper_server.py:386-444 | what each reply to a share says: unusable or misaddressed, wrong signer, or differing without being a verified repair |
| `KeyperInbox.Round2Outcome` | src/shutter_governance_protocol/services/keyper/keyper_server.py:446-490 | complains about exactly the dealers whose share is not on a committed polynomial of quorum length, otherwise combines all shares mod q |
| `KeyperInbox.RedealtShareRepairs` | src/shutter_governance_protocol/services/keyper/keyper_server.py:492-528 | a re-dealt share that matches the commitments clears the complaint |
| `KeyperInbox.Publish` | src/shutter_governance_protocol/services/keyper/keyper_server.py:580-600 | refused iff round 2 has not completed; otherwise the joint key and one public share per dealer held, in index order, and derivation never fails |
| `KeyperInbox.PublishedOnPolynomial` | src/shutter_governance_protocol/services/keyper/keyper_server.py:593-598 | whatever is published lies on the joint polynomial of the dealers held |
| `KeyperInbox.AlignedIff` | src/shutter_governance_protocol/services/keyper/keyper_server.py:596 | position i-1 holds the share of keyper i exactly when the list has one entry per member, which is exactly when the dealers held are all members |
| `KeyperInbox.FullPublication` | src/shutter_governance_protocol/services/keyper/keyper_server.py:593-598 | a published list with one entry per member is the joint key of dealers 1..n by position |
| `KeyperInbox.LoneKeyperPublishes` | src/shutter_governance_protocol/services/keyper/keyper_server.py:446-600 | the short list is real: a keyper that heard from no other dealer passes round 2 and publishes a list with one entry |
| `KeyperInbox.PublishedMatchesSecret` | src/shutter_governance_protocol/services/keyper/keyper_server.py:580-600 | a round 2 over exactly the committed dealers makes the combined share the exponent published at the own index |
| `KeyperInbox.MatchesSecretIff` | src/shutter_governance_protocol/services/keyper/keyper_server.py:265-279 | over all runs of all attempts what is published at the own index matches the held secret iff the vectors held and those the last accepted round 2 combined agree in sum there, so whenever they are the same vectors |
| `KeyperInbox.StaleMatchIff` | src/shutter_governance_protocol/services/keyper/keyper_server.py:265-279 | after a new round 1 publishing is still allowed, and it matches the held secret iff the fresh own share equals it mod q |
| `KeyperInbox.StaleKeyIsPublished` | src/shutter_governance_protocol/services/keyper/keyper_server.py:580-600 | every seat has a run of two attempts that ends in publishing a key whose own share it does not hold |
| `Ceremony.ComplaintsShrink` | src/shutter_governance_protocol/services/coordinator/dkg_coordinator.py:315-337 | for every reply pattern the complaining set only shrinks |
| `Ceremony.Round2Complaints` | src/shutter_governance_protocol/services/coordinator/dkg_coordinator.py:301-308 | exactly the targets that answer unverified, or a failed call |
| `Ceremony.Repair` | src/shutter_governance_protocol/services/coordinator/dkg_coordinator.py:314-337 | ends within the repair limit, earlier only if nobody complains; re-deals are asked only of committee members for current complaints |
| `Ceremony.PublishAll` | src/shutter_governance_protocol/services/coordinator/dkg_coordinator.py:347-359 | asks exactly the keypers that do not complain and applies their writes to the board in order |
| `Ceremony.PublishedSlotsIff` | src/shutter_governance_protocol/services/coordinator/dkg_coordinator.py:347-359 | afterwards a slot is filled iff it was before or its keyper was asked and sent a vote, and then holds the older value or that vote |
| `Ceremony.VoteStep` | src/shutter_governance_protocol/adapters/memory.py:129-150 | the board stores any vote in the free slot of its keyper, whatever the vote lists, and touches no other slot |
| `Ceremony.RunDkgHttp` | src/shutter_governance_protocol/services/coordinator/dkg_coordinator.py:267-375 | failed calls leave the board alone; otherwise the outcome reports whether the key finalized, and a complaint is raised exactly without a key while somebody complains |
| `Ceremony.QuorumFinalizes` | src/shutter_governance_protocol/services/coordinator/dkg_coordinator.py:339-361 | t keypers that no longer complain and publish one result into free slots finalize the key whatever the others reply |
| `TallyDriver.AutoDkg.ScanOnce` | src/shutter_governance_protocol/services/coordinator/coordinator.py:147-172 | the dispatch on terminal flags and derived state |
| `TallyDriver.AutoDkg.DkgPoll` | src/shutter_governance_protocol/services/coordinator/coordinator.py:219-253 | the back-off gate, the ceremony and the doubling delay |
| `TallyDriver.AutoDkg.TallyPoll` | src/shutter_governance_protocol/services/coordinator/coordinator.py:255-347 | budget renewal, the three aggregate detectors and the decrypt phase |
| `TallyDriver.PollFacts` | src/shutter_governance_protocol/services/coordinator/coordinator.py:278-347 | counters stay within the budget, decryption needs a canonical aggregate, a computing keyper costs nothing, and exhausting a budget is abandoning |
| `TallyDriver.DivergentRecomputes` | src/shutter_governance_protocol/services/coordinator/coordinator.py:311-330 | a committee that all submitted without a quorum is asked to derive again for one attempt each, and marked stalled once the attempts are used up |
| `TallyDriver.BusyCommitteeIsAwaited` | src/shutter_governance_protocol/services/coordinator/coordinator.py:308-310 | while some keyper has started or is in progress a poll before the deadline spends nothing and only asks again |
| `TallyDriver.TriggersIff` | src/shutter_governance_protocol/services/coordinator/coordinator.py:295-337 | each trigger exactly when it is sent: ceremony, aggregate, recomputation, decryption and publication |
| `TallyDriver.StalledIff` | src/shutter_governance_protocol/services/coordinator/coordinator.py:286-347 | an election is marked stalled exactly in the phase and for the reason given |
| `TallyDriver.TerminalIff` | src/shutter_governance_protocol/services/coordinator/coordinator.py:147-347 | finished iff Complete or a result was just published, failed iff key generation failed or halted on a complaint |
| `TallyDriver.OutcomeIff` | src/shutter_governance_protocol/services/coordinator/coordinator.py:147-347 | what the poll reports, case by case |
| `TallyDriver.PublishedResultEndsDriving` | src/shutter_governance_protocol/services/coordinator/coordinator.py:338-343 | after a published result, on every continuation nothing is triggered and nothing changes |
| `TallyDriver.DecryptSeesAggregate` | src/shutter_governance_protocol/services/coordinator/coordinator.py:298-337 | the aggregate is still canonical on the board when decryption is triggered |
| `TallyDriver.CountersBounded` | src/shutter_governance_protocol/services/coordinator/coordinator.py:278-347 | over every run of polls the counters stay within the limit, or 1 for a limit of zero |
| `TallyDriver.LimitHeldIff` | src/shutter_governance_protocol/services/coordinator/coordinator.py:282-284 | counters stay in 0..max on every run if and only if the configured limit is at least 1 |
| `TallyDriver.AttemptsBounded` | src/shutter_governance_protocol/services/coordinator/coordinator.py:286-347 | in any run without abandonment fewer polls are spent than the two budgets together |
| `TallyDriver.TerminalStays` | src/shutter_governance_protocol/services/coordinator/coordinator.py:362-367 | a done or failed election is never driven again |
| `TallyDriver.BackoffGrows` | src/shutter_governance_protocol/services/coordinator/coordinator.py:251-252 | delays never shrink and never exceed the cap |
| `TallyDriver.BackoffDoubles` | src/shutter_governance_protocol/services/coordinator/coordinator.py:251-252 | the first delay is the base and each further one twice the last, both up to the cap |
| `TallyDriver.CeremoniesSpaced` | src/shutter_governance_protocol/services/coordinator/coordinator.py:219-253 | after the k-th failed ceremony none starts before the k-th delay has elapsed |
| `AggregateWorkers.AtMostOneWorker` | src/shutter_governance_protocol/services/keyper/keyper_server.py:612-689 | in every interleaving the election is marked running iff exactly one worker is pending or alive |
| `AggregateWorkers.TriggerStartsIff` | src/shutter_governance_protocol/services/keyper/keyper_server.py:675-689 | a trigger starts a worker iff none is at work and nothing is submitted or a recomputation is asked for |
| `AggregateWorkers.WorkerRuns` | src/shutter_governance_protocol/services/keyper/keyper_server.py:612-689 | a started worker that ends leaves nobody at work and submitted iff it succeeded; after a failure the next trigger starts again |
| `AggregateWorkers.AggregateState.HandleTrigger` | src/shutter_governance_protocol/services/keyper/keyper_server.py:675-689 | the reply by mark, and a worker only when there is none |
| `AggregateWorkers.AggregateState.HandleThreadStart` | src/shutter_governance_protocol/services/keyper/keyper_server.py:687 | the pending worker becomes the one alive |
| `AggregateWorkers.AggregateState.HandleWorkerEnd` | src/shutter_governance_protocol/services/keyper/keyper_server.py:626-634 | a finished worker leaves submitted or not started, and nobody at work |
| `Paging.ReadAllBallots` | src/shutter_governance_protocol/services/common/reads.py:29-62 | whatever the server replies, a result is numbered 0..total-1; a server that holds the ballots gets them returned whole for any positive page cap |
| `Paging.MaxStoredNonce` | src/shutter_governance_protocol/services/gateway/gateway.py:39-67 | the largest of zero and the pseudonym's nonces among the rows the server shows at exactly the offsets of the backward scan, whatever it shows |
| `Paging.FullPagesGiveMaximum` | src/shutter_governance_protocol/services/gateway/gateway.py:39-67 | from a server that serves full pages that is the maximum over exactly the last min(total, 1000) ballots |
| `Paging.CapSufficesIff` | src/shutter_governance_protocol/services/gateway/gateway.py:59-66 | that holds on every list if and only if the server's page cap is at least the scan's page size |
| `Paging.ComputeBallotDedup` | frontend/shared/src/vd/VotingDashboard.tsx:191-205 | supersedes exactly the last-wins losers, lists exactly the pseudonyms that voted twice and counts the voters |
| `Paging.DashboardMatchesAdmission` | frontend/shared/src/vd/VotingDashboard.tsx:191-205 | on an all-valid list superseded means excluded as duplicate by admission |

## Left out

- Curve arithmetic, compressed point encoding and subgroup checks: a foreign library, represented by any bijection between points and fixed-length strings.
- keccak, EIP-191 recovery, ABI encoding, sealing and token stores: foreign cryptography, represented by arbitrary functions.
- Discrete-log hardness, Fiat-Shamir soundness and secrecy: computational claims; special soundness is proved instead.
- PostgreSQL store, HTTP clients, Flask routes and the chain adapter: transport and storage around the same port.
- Attestation issuing and the internals of its verification: an arbitrary predicate here.
- Envelope and configuration codecs, authorization helpers, identity bootstrap, auditor, benchmarks and the rest of the frontend: field-by-field encodings or plumbing.
- Variant B and at-most ballots: not implemented on the ballot path of the source; `prove_budget_at_most` is `ProveOr` over 0..B.
- The overflow error of four-byte transcript lengths: `Transcripts.Sized` states the limit where it matters.
- Floating-point delays of the watcher: whole seconds here.
- Lock-free reads inside one request: `/dkg/round2` reads its inbox and `finalize` its records as one step.
- Ceremony.RunDkgHttp: re-authentication after a 401 is part of the arbitrary reply; re-deal requests have no effect on the coordinator beyond later replies.
- TallyDriver.AutoDkg.ScanOnce: one election at a time; the order in which several elections are scanned is not modelled.
- DataLayer.ShareDigestCovers: entries whose proof has the format's 64 bytes; the source signs a proof of another length as two integers, which do not determine it.
- TranscriptBinding.RangeProofBinds: candidate lists below 65536 entries, the limit of the wire format.
- KeyperInbox.Publish: takes the dealer indices already sorted.
- Paging.ReadAllBallots: replies are a function of the requested page, which loses nothing because one read never asks for the same offset twice.
