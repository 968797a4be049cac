/** A keyper's guarded partial decryption (services/keyper/keyper.py). */
module Decryption {
  import opened Field
  import opened Group
  import opened Bytes
  import opened Transcripts
  import opened Proofs
  import opened BallotMessage
  import opened Election
  import opened Recovery
  import opened Quorum

  datatype ShareAttempt = Refused | AlreadyDone | Failed | Produced(share: ShareEnvelope)

  /** One entry is the keyper's exponent applied to C1, with a proof that verifies. */
  ghost predicate EntryOk(s: Suite, electionId: bytes, j: nat, ct: CipherBytes, msk: int, index: nat, entry: ShareEntry)
    requires s.q > 1
  {
    var c1, c2 := s.decode2(ct.0), s.decode2(ct.1);
    var sigma, proof := s.decode2(entry.sigma), DecodeDleq(entry.proof, s.q);
    && c1.Some? && c2.Some? && sigma.Some? && proof.Some? && Seedable(electionId, j) && index < 0x1_0000
    && Cong(sigma.value, msk * c1.value, s.q)
    && ShareAccepts(s, electionId, j, c1.value, c2.value, Mul(G2, msk, s.q), sigma.value, proof.value.0,
                    proof.value.1, index)
  }

  ghost predicate ShareOk(s: Suite, electionId: bytes, aggregates: seq<CipherBytes>, msk: int, share: ShareEnvelope)
    requires s.q > 1
  {
    && share.electionId == electionId && share.keyperIndex >= 0 && |share.entries| == |aggregates|
    && forall j :: 0 <= j < |aggregates| ==>
         EntryOk(s, electionId, j, aggregates[j], msk, share.keyperIndex, share.entries[j])
  }

  /** Candidate `j` can be decrypted and proven: its ciphertext decodes, the transcript can be
      seeded and the keyper index fits. */
  predicate Provable(s: Suite, electionId: bytes, aggregates: seq<CipherBytes>, index: nat, j: nat)
    requires j < |aggregates|
  {
    && s.decode2(aggregates[j].0).Some? && s.decode2(aggregates[j].1).Some?
    && Seedable(electionId, j) && index < 0x1_0000
  }

  ghost predicate AllProvable(s: Suite, electionId: bytes, aggregates: seq<CipherBytes>, index: nat)
  {
    forall j :: 0 <= j < |aggregates| ==> Provable(s, electionId, aggregates, index, j)
  }

  /** produce_decryption_share: the state, key and aggregate guards, then one proven entry per
      candidate. `msk` is the combined share, `nonces` the drawn proof nonces, `mine` whether a
      share of this keyper is already listed. */
  method ProduceDecryptionShare(s: Suite, config: Config, facts: Facts, now: int, aggregate: Option<Tally>, mine: bool,
                                msk: int, index: nat, nonces: seq<int>)
    returns (r: ShareAttempt)
    requires s.Valid() && (aggregate.Some? ==> |nonces| == |aggregate.value.aggregates|)
    ensures r.Refused? <==> !(DeriveState(config, facts.(tallyStalled := false), now) in {Tallying, Complete}
                              && facts.keyFinalized && aggregate.Some?)
    ensures r.AlreadyDone? <==> !r.Refused? && mine
    ensures !r.Refused? && !mine ==>
              (r.Produced? <==> AllProvable(s, config.electionId, aggregate.value.aggregates, index))
    ensures r.Produced? ==> r.share.keyperIndex == index
    ensures r.Produced? ==> ShareOk(s, config.electionId, aggregate.value.aggregates, msk, r.share)
  {
    var state := DeriveState(config, facts.(tallyStalled := false), now);
    if state != Tallying && state != Complete {
      return Refused;
    }
    if !facts.keyFinalized || aggregate.None? {
      return Refused;
    }
    if mine {
      return AlreadyDone;
    }
    var share := ProduceEntries(s, config.electionId, aggregate.value.aggregates, msk, index, nonces);
    r := if share.None? then Failed else Produced(share.value);
  }

  /** The loop over the candidates; nothing where it raises. */
  method ProduceEntries(s: Suite, electionId: bytes, agg: seq<CipherBytes>, msk: int, index: nat, nonces: seq<int>)
    returns (r: Option<ShareEnvelope>)
    requires s.Valid() && |nonces| == |agg|
    ensures r.Some? <==> AllProvable(s, electionId, agg, index)
    ensures r.Some? ==> r.value.keyperIndex == index && ShareOk(s, electionId, agg, msk, r.value)
  {
    hide EntryOk, Provable;
    var entries: seq<ShareEntry> := [];
    for j := 0 to |agg|
      invariant |entries| == j
      invariant forall k :: 0 <= k < j ==> Provable(s, electionId, agg, index, k)
      invariant forall k :: 0 <= k < j ==> EntryOk(s, electionId, k, agg[k], msk, index, entries[k])
    {
      var entry := ProduceEntry(s, electionId, j, agg, msk, index, nonces[j]);
      if entry.None? {
        return None;
      }
      entries := entries + [entry.value];
    }
    r := Some(ShareEnvelope(electionId, index, entries));
  }

  method ProduceEntry(s: Suite, electionId: bytes, j: nat, agg: seq<CipherBytes>, msk: int, index: nat, w: int)
    returns (r: Option<ShareEntry>)
    requires s.Valid() && j < |agg|
    ensures r.Some? <==> Provable(s, electionId, agg, index, j)
    ensures r.Some? ==> EntryOk(s, electionId, j, agg[j], msk, index, r.value)
  {
    hide ShareAcceptsOn, Cong, DecodeDleq, EncodeDleq, Mul, EqualLogs, DecryptTranscript;
    var c1, c2 := s.decode2(agg[j].0), s.decode2(agg[j].1);
    if c1.None? || c2.None? {
      return None;
    }
    var sigma := Mul(c1.value, msk, s.q);
    var t := MakeDecryptTranscript(electionId, j);
    if t == null {
      return None;
    }
    ShareLogs(c1.value, msk, s.q);
    var proof := ProveDecryptionShare(s, t, c1.value, c2.value, Mul(G2, msk, s.q), sigma, msk, index, w);
    if proof.None? {
      return None;
    }
    var entry := ShareEntry(s.encode2(sigma), EncodeDleq(proof.value.0, proof.value.1, s.q));
    DleqIff(entry.proof, proof.value.0, proof.value.1, s.q);
    r := Some(entry);
  }

  /** A keyper's own share counts for every candidate once its committee key is its exponent. */
  lemma HonestShareCounts(s: Suite, inp: Inputs, share: ShareEnvelope, msk: int, j: nat)
    requires s.q > 1 && ShareOk(s, inp.electionId, inp.aggregates, msk, share) && j < |inp.aggregates|
    requires 1 <= share.keyperIndex <= |inp.committee|
    requires s.decode2(inp.committee[share.keyperIndex - 1]) == Some(Mul(G2, msk, s.q))
    ensures s.decode2(inp.aggregates[j].0).Some? && s.decode2(inp.aggregates[j].1).Some?
    ensures Counts(s, inp, j, s.decode2(inp.aggregates[j].0).value, s.decode2(inp.aggregates[j].1).value, share)
  {
    hide ShareAccepts, Cong, DecodeDleq, Mul, Seedable;
    assert EntryOk(s, inp.electionId, j, inp.aggregates[j], msk, share.keyperIndex, share.entries[j]);
  }

  /** As many partials are counted as there are counting shares. */
  lemma {:induction false} CountedAtLeast(s: Suite, inp: Inputs, j: nat, c1: Point, c2: Point,
                                          shares: seq<ShareEnvelope>, good: set<int>)
    requires s.q > 1
    requires forall i :: i in good ==> 0 <= i < |shares| && Counts(s, inp, j, c1, c2, shares[i])
    ensures |Counted(s, inp, j, c1, c2, shares)| >= |good|
    decreases |shares|
  {
    hide Counts;
    if shares == [] {
      NothingGood(good);
    } else {
      var n := |shares| - 1;
      assert forall i :: i in good - {n} ==> shares[..n][i] == shares[i];
      CountedAtLeast(s, inp, j, c1, c2, shares[..n], good - {n});
      assert n !in good ==> good - {n} == good;
    }
  }

  lemma NothingGood(good: set<int>)
    requires forall i :: i in good ==> 0 <= i < 0
    ensures good == {}
  {
    if good != {} {
      HasElement(good);
    }
  }
}
