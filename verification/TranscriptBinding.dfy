/** What the challenges of the sigma proofs cover (crypto/transcript.py, crypto/proofs.py,
    crypto/ballot.py): equal hash inputs come from equal statements, commitments and contexts. */
module TranscriptBinding {
  import opened Field
  import opened Group
  import opened Bytes
  import opened Transcripts
  import opened Proofs
  import opened BallotMessage
  import opened Ballot

  // ----- the hash input -----

  lemma ChallengeInput(s: Suite, h: bytes -> nat, p: Parts, tag: string)
    requires s.q > 1
    ensures ChallengeOf(s.(hash := h), p, tag)
         == h(Ascii(DST_FIAT_SHAMIR) + U32(|tag|) + Ascii(tag) + Flatten(p)) % s.q
  {
  }

  /** Different transcripts are told apart by some hash function: the challenge depends on every
      byte of the transcript. */
  lemma ChallengeTellsApart(s: Suite, p: Parts, p': Parts, tag: string) returns (h: bytes -> nat)
    requires s.q > 1 && Flatten(p) != Flatten(p')
    ensures ChallengeOf(s.(hash := h), p, tag) != ChallengeOf(s.(hash := h), p', tag)
  {
    hide ChallengeOf, Flatten;
    var head := Ascii(DST_FIAT_SHAMIR) + U32(|tag|) + Ascii(tag);
    if head + Flatten(p) == head + Flatten(p') {
      SplitEqual(head, Flatten(p), head, Flatten(p'));
    }
    h := (x: bytes) => if x == head + Flatten(p) then 1 else 0;
    ChallengeInput(s, h, p, tag);
    ChallengeInput(s, h, p', tag);
    ModUnique(1, 0, 1, s.q);
    ModUnique(0, 0, 0, s.q);
  }

  /** The challenge tag is part of the hash input too, and is delimited from what follows. */
  lemma ChallengeTagged(s: Suite, p: Parts, tag: string, p': Parts, tag': string) returns (h: bytes -> nat)
    requires s.q > 1 && |tag| < Pow256(4) && |tag'| < Pow256(4) && Ascii(tag) != Ascii(tag')
    ensures ChallengeOf(s.(hash := h), p, tag) != ChallengeOf(s.(hash := h), p', tag')
  {
    hide ChallengeOf, Flatten, Pow256, ToBE;
    var d := Ascii(DST_FIAT_SHAMIR);
    var x, x' := d + U32(|tag|) + Ascii(tag) + Flatten(p), d + U32(|tag'|) + Ascii(tag') + Flatten(p');
    if x == x' {
      assert x == d + (U32(|tag|) + Ascii(tag) + Flatten(p));
      assert x' == d + (U32(|tag'|) + Ascii(tag') + Flatten(p'));
      SplitEqual(d, U32(|tag|) + Ascii(tag) + Flatten(p), d, U32(|tag'|) + Ascii(tag') + Flatten(p'));
      PrefixedEqual(Ascii(tag), Flatten(p), Ascii(tag'), Flatten(p'));
    }
    h := (y: bytes) => if y == x then 1 else 0;
    ChallengeInput(s, h, p, tag);
    ChallengeInput(s, h, p', tag');
    ModUnique(1, 0, 1, s.q);
    ModUnique(0, 0, 0, s.q);
  }

  // ----- logs -----

  function Tagged(tag: string, value: bytes): Entry
  {
    Entry(Ascii(tag), value)
  }

  /** Entries short enough for the length prefixes. */
  ghost predicate Short(entries: seq<Entry>)
  {
    forall i :: 0 <= i < |entries| ==> |entries[i].tag| < 0x1_0000_0000 && |entries[i].value| < 0x1_0000_0000
  }

  lemma ShortIsSized(entries: seq<Entry>)
    requires Short(entries)
    ensures Sized(entries)
  {
    Pow256Values();
  }

  /** Logs with the same bytes are equal, part by part where the first parts have one length. */
  lemma LogsEqual(d: bytes, a: seq<Entry>, x: seq<Entry>, b: seq<Entry>, y: seq<Entry>)
    requires Short(a) && Short(b) && Short(x) && Short(y) && |a| == |b|
    requires Flatten(PartsOf(d, a + x)) == Flatten(PartsOf(d, b + y))
    ensures a == b && x == y
  {
    hide Flatten, PartsOf;
    ShortIsSized(a + x);
    ShortIsSized(b + y);
    PreimageInjective(d, a + x, b + y);
    assert a == (a + x)[..|a|] && b == (b + y)[..|b|];
    assert x == (a + x)[|a|..] && y == (b + y)[|b|..];
  }

  lemma Appended(d: bytes, log: seq<Entry>, more: seq<Entry>, tag: string, value: bytes)
    ensures AppendTo(PartsOf(d, log + more), tag, value) == PartsOf(d, log + (more + [Tagged(tag, value)]))
  {
    hide AppendTo, PartsOf;
    AppendRecords(d, log + more, tag, value);
    assert log + more + [Tagged(tag, value)] == log + (more + [Tagged(tag, value)]);
  }

  lemma PointBytes(s: Suite, p: Point)
    requires s.Valid() && IsPoint(p, s.q)
    ensures |s.encode2(p)| == 96 && s.decode2(s.encode2(p)) == Some(p)
  {
  }

  lemma SamePoint(s: Suite, p: Point, p': Point)
    requires s.Valid() && IsPoint(p, s.q) && IsPoint(p', s.q) && s.encode2(p) == s.encode2(p')
    ensures p == p'
  {
    PointBytes(s, p);
    PointBytes(s, p');
  }

  // ----- DLEQ -----

  /** A DLEQ statement with its commitments. */
  datatype DleqRun = DleqRun(base1: Point, point1: Point, base2: Point, point2: Point, a1: Point, a2: Point)
  {
    ghost predicate Points(q: int)
    {
      && IsPoint(base1, q) && IsPoint(point1, q) && IsPoint(base2, q) && IsPoint(point2, q)
      && IsPoint(a1, q) && IsPoint(a2, q)
    }
  }

  function DleqParts(s: Suite, p: Parts, r: DleqRun): Parts
  {
    DleqTranscript(s, p, r.base1, r.point1, r.base2, r.point2, r.a1, r.a2)
  }

  function DleqEntries(s: Suite, r: DleqRun): (e: seq<Entry>)
    ensures |e| == 6
  {
    [Tagged("dleq:base1", s.encode2(r.base1)), Tagged("dleq:base2", s.encode2(r.base2)),
     Tagged("dleq:point1", s.encode2(r.point1)), Tagged("dleq:point2", s.encode2(r.point2)),
     Tagged("dleq:a1", s.encode2(r.a1)), Tagged("dleq:a2", s.encode2(r.a2))]
  }

  lemma DleqLogged(s: Suite, d: bytes, log: seq<Entry>, r: DleqRun)
    ensures DleqParts(s, PartsOf(d, log), r) == PartsOf(d, log + DleqEntries(s, r))
  {
    hide AppendTo, PartsOf, Tagged;
    var e := DleqEntries(s, r);
    assert log + [] == log;
    Appended(d, log, [], "dleq:base1", s.encode2(r.base1));
    Appended(d, log, e[..1], "dleq:base2", s.encode2(r.base2));
    Appended(d, log, e[..2], "dleq:point1", s.encode2(r.point1));
    Appended(d, log, e[..3], "dleq:point2", s.encode2(r.point2));
    Appended(d, log, e[..4], "dleq:a1", s.encode2(r.a1));
    Appended(d, log, e[..5], "dleq:a2", s.encode2(r.a2));
    assert [] + [e[0]] == e[..1] && e[..1] + [e[1]] == e[..2] && e[..2] + [e[2]] == e[..3];
    assert e[..3] + [e[3]] == e[..4] && e[..4] + [e[4]] == e[..5] && e[..5] + [e[5]] == e;
  }

  lemma DleqEntriesShort(s: Suite, r: DleqRun)
    requires s.Valid() && r.Points(s.q)
    ensures Short(DleqEntries(s, r))
  {
  }

  lemma DleqEntriesEqual(s: Suite, r: DleqRun, r': DleqRun)
    requires s.Valid() && r.Points(s.q) && r'.Points(s.q) && DleqEntries(s, r) == DleqEntries(s, r')
    ensures r == r'
  {
    hide Ascii;
    var e, e' := DleqEntries(s, r), DleqEntries(s, r');
    assert forall i :: 0 <= i < 6 ==> e[i].value == e'[i].value;
    assert e[0].value == e'[0].value && e[1].value == e'[1].value && e[2].value == e'[2].value;
    assert e[3].value == e'[3].value && e[4].value == e'[4].value && e[5].value == e'[5].value;
    SamePoint(s, r.base1, r'.base1);
    SamePoint(s, r.base2, r'.base2);
    SamePoint(s, r.point1, r'.point1);
    SamePoint(s, r.point2, r'.point2);
    SamePoint(s, r.a1, r'.a1);
    SamePoint(s, r.a2, r'.a2);
  }

  /** From recorded starts of one length, equal DLEQ transcripts have equal starts, statements and
      commitments. */
  lemma DleqBinds(s: Suite, d: bytes, log: seq<Entry>, log': seq<Entry>, r: DleqRun, r': DleqRun)
    requires s.Valid() && r.Points(s.q) && r'.Points(s.q) && Short(log) && Short(log') && |log| == |log'|
    requires Flatten(DleqParts(s, PartsOf(d, log), r)) == Flatten(DleqParts(s, PartsOf(d, log'), r'))
    ensures log == log' && r == r'
  {
    hide DleqParts, DleqEntries, PartsOf, Flatten, Short;
    DleqLogged(s, d, log, r);
    DleqLogged(s, d, log', r');
    DleqEntriesShort(s, r);
    DleqEntriesShort(s, r');
    LogsEqual(d, log, DleqEntries(s, r), log', DleqEntries(s, r'));
    DleqEntriesEqual(s, r, r');
  }

  // ----- decryption shares -----

  /** What a decryption share's proof is about. */
  datatype ShareContext = ShareContext(electionId: bytes, candidate: nat, c1: Point, c2: Point, mpk: Point, index: nat)
  {
    ghost predicate Fits(q: int)
    {
      && Seedable(electionId, candidate) && index < 0x1_0000
      && IsPoint(c1, q) && IsPoint(c2, q) && IsPoint(mpk, q)
    }
  }

  function ShareParts(s: Suite, c: ShareContext): Parts
  {
    BindShare(s, DecryptTranscript(c.electionId, c.candidate), c.c1, c.c2, c.mpk, c.index)
  }

  function ShareEntries(s: Suite, c: ShareContext): (e: seq<Entry>)
    ensures |e| == 6
  {
    [Tagged("electionId", c.electionId), Tagged("candidate", U16(c.candidate)), Tagged("dec:C1", s.encode2(c.c1)),
     Tagged("dec:C2", s.encode2(c.c2)), Tagged("dec:mpk_k", s.encode2(c.mpk)), Tagged("dec:keyperIndex", U16(c.index))]
  }

  lemma StartIs(domain: string)
    ensures Start(domain) == PartsOf(Ascii(domain), [])
  {
  }

  lemma ShareLogged(s: Suite, c: ShareContext)
    ensures ShareParts(s, c) == PartsOf(Ascii(DECRYPT_LABEL), ShareEntries(s, c))
  {
    hide AppendTo, PartsOf, Tagged, U16, Ascii, Start;
    var d, e := Ascii(DECRYPT_LABEL), ShareEntries(s, c);
    StartIs(DECRYPT_LABEL);
    var none: seq<Entry> := [];
    assert none + e == e && none + none == none;
    Appended(d, [], [], "electionId", c.electionId);
    Appended(d, [], e[..1], "candidate", U16(c.candidate));
    Appended(d, [], e[..2], "dec:C1", s.encode2(c.c1));
    Appended(d, [], e[..3], "dec:C2", s.encode2(c.c2));
    Appended(d, [], e[..4], "dec:mpk_k", s.encode2(c.mpk));
    Appended(d, [], e[..5], "dec:keyperIndex", U16(c.index));
    assert [] + [e[0]] == e[..1] && e[..1] + [e[1]] == e[..2] && e[..2] + [e[2]] == e[..3];
    assert e[..3] + [e[3]] == e[..4] && e[..4] + [e[4]] == e[..5] && e[..5] + [e[5]] == e;
  }

  lemma ShareEntriesShort(s: Suite, c: ShareContext)
    requires s.Valid() && c.Fits(s.q)
    ensures Short(ShareEntries(s, c))
  {
    hide ToBE;
  }

  lemma ShareEntriesEqual(s: Suite, c: ShareContext, c': ShareContext)
    requires s.Valid() && c.Fits(s.q) && c'.Fits(s.q) && ShareEntries(s, c) == ShareEntries(s, c')
    ensures c == c'
  {
    hide Ascii, U16;
    var e, e' := ShareEntries(s, c), ShareEntries(s, c');
    assert e[0].value == e'[0].value && e[1].value == e'[1].value && e[2].value == e'[2].value;
    assert e[3].value == e'[3].value && e[4].value == e'[4].value && e[5].value == e'[5].value;
    CountInjective(c.candidate, c'.candidate);
    CountInjective(c.index, c'.index);
    SamePoint(s, c.c1, c'.c1);
    SamePoint(s, c.c2, c'.c2);
    SamePoint(s, c.mpk, c'.mpk);
  }

  /** A decryption share's challenge covers the election, the candidate, the ciphertext, the
      committee key, the keyper's index, the share point and the commitments: runs that differ
      in any of them are told apart by some hash function. */
  lemma ShareChallengeCovers(s: Suite, c: ShareContext, r: DleqRun, c': ShareContext, r': DleqRun)
    returns (h: bytes -> nat)
    requires s.Valid() && c.Fits(s.q) && c'.Fits(s.q) && r.Points(s.q) && r'.Points(s.q)
    requires !(c == c' && r == r')
    ensures ChallengeOf(s.(hash := h), DleqParts(s, ShareParts(s, c), r), "dleq:e")
         != ChallengeOf(s.(hash := h), DleqParts(s, ShareParts(s, c'), r'), "dleq:e")
  {
    hide ChallengeOf, DleqParts, ShareParts, Flatten, Short, PartsOf, ShareEntries;
    var p, p' := DleqParts(s, ShareParts(s, c), r), DleqParts(s, ShareParts(s, c'), r');
    if Flatten(p) == Flatten(p') {
      ShareRunsEqual(s, c, r, c', r');
    }
    h := ChallengeTellsApart(s, p, p', "dleq:e");
  }

  lemma ShareRunsEqual(s: Suite, c: ShareContext, r: DleqRun, c': ShareContext, r': DleqRun)
    requires s.Valid() && c.Fits(s.q) && c'.Fits(s.q) && r.Points(s.q) && r'.Points(s.q)
    requires Flatten(DleqParts(s, ShareParts(s, c), r)) == Flatten(DleqParts(s, ShareParts(s, c'), r'))
    ensures c == c' && r == r'
  {
    hide DleqParts, ShareParts, Flatten, Short, PartsOf, ShareEntries;
    ShareLogged(s, c);
    ShareLogged(s, c');
    ShareEntriesShort(s, c);
    ShareEntriesShort(s, c');
    DleqBinds(s, Ascii(DECRYPT_LABEL), ShareEntries(s, c), ShareEntries(s, c'), r, r');
    ShareEntriesEqual(s, c, c');
  }

  // ----- ballots -----

  /** What a ballot's proofs are about. */
  datatype BallotContext = BallotContext(electionId: bytes, mpk: Point, vk: Point, cts: seq<Cipher>, numCandidates: nat,
                                         budget: nat)
  {
    ghost predicate Fits(q: int)
    {
      && |electionId| == 32 && IsPoint(mpk, q) && IsPoint(vk, q) && AllPoints(cts, q)
      && |cts| < 0x1_0000 && numCandidates < 0x1_0000 && budget < 0x1_0000
    }
  }

  function SeedParts(s: Suite, c: BallotContext): Parts
  {
    Seed(s, c.electionId, c.mpk, c.vk, c.cts, c.numCandidates, c.budget)
  }

  function HeaderEntries(s: Suite, c: BallotContext): (e: seq<Entry>)
    ensures |e| == 8
  {
    [Tagged("electionId", c.electionId), Tagged("mpk", s.encode2(c.mpk)), Tagged("vk", s.encode1(c.vk)),
     Tagged("variant", [0x41]), Tagged("mode", [0]), Tagged("numCandidates", U16(c.numCandidates)),
     Tagged("budget", U16(c.budget)), Tagged("|cts|", U16(|c.cts|))]
  }

  /** Two points appended under numbered tags. */
  function PointPair(s: Suite, first: string, second: string, n: nat, p: Point, r: Point): (e: seq<Entry>)
    ensures |e| == 2
  {
    [Tagged(first + Decimal(n) + "]", s.encode2(p)), Tagged(second + Decimal(n) + "]", s.encode2(r))]
  }

  lemma PointPairEqual(s: Suite, first: string, second: string, n: nat, p: Point, r: Point, p': Point, r': Point)
    requires s.Valid() && IsPoint(p, s.q) && IsPoint(r, s.q) && IsPoint(p', s.q) && IsPoint(r', s.q)
    requires PointPair(s, first, second, n, p, r) == PointPair(s, first, second, n, p', r')
    ensures p == p' && r == r'
  {
    hide Decimal, Ascii;
    var e, e' := PointPair(s, first, second, n, p, r), PointPair(s, first, second, n, p', r');
    assert e[0].value == e'[0].value && e[1].value == e'[1].value;
    SamePoint(s, p, p');
    SamePoint(s, r, r');
  }

  lemma PointPairLogged(s: Suite, d: bytes, log: seq<Entry>, more: seq<Entry>, first: string, second: string, n: nat,
                       p: Point, r: Point)
    ensures AppendPointTo(s, AppendPointTo(s, PartsOf(d, log + more), first + Decimal(n) + "]", p),
                          second + Decimal(n) + "]", r)
         == PartsOf(d, log + (more + PointPair(s, first, second, n, p, r)))
  {
    hide AppendTo, PartsOf, Tagged, Decimal;
    var e := PointPair(s, first, second, n, p, r);
    Appended(d, log, more, first + Decimal(n) + "]", s.encode2(p));
    Appended(d, log, more + [e[0]], second + Decimal(n) + "]", s.encode2(r));
    assert more + [e[0]] + [e[1]] == more + e;
  }

  lemma PointPairShort(s: Suite, first: string, second: string, n: nat, p: Point, r: Point)
    requires s.Valid() && IsPoint(p, s.q) && IsPoint(r, s.q)
    requires n < 0x1_0000 && |first| < 0x1_0000 && |second| < 0x1_0000
    ensures Short(PointPair(s, first, second, n, p, r))
  {
    hide Decimal;
    DecimalLength(n);
  }

  function CipherEntries(s: Suite, cts: seq<Cipher>): (e: seq<Entry>)
    ensures |e| == 2 * |cts|
  {
    if cts == [] then []
    else
      var n := |cts| - 1;
      CipherEntries(s, cts[..n]) + PointPair(s, "ct.c1[", "ct.c2[", n, cts[n].0, cts[n].1)
  }

  lemma HeaderLogged(s: Suite, c: BallotContext)
    ensures SeedHeader(s, c.electionId, c.mpk, c.vk, |c.cts|, c.numCandidates, c.budget)
         == PartsOf(Ascii(PROOF_LABEL), HeaderEntries(s, c))
  {
    hide AppendTo, PartsOf, Tagged, U16, Ascii, Start;
    var d, e := Ascii(PROOF_LABEL), HeaderEntries(s, c);
    StartIs(PROOF_LABEL);
    var none: seq<Entry> := [];
    assert none + e == e && none + none == none;
    Appended(d, [], [], "electionId", c.electionId);
    Appended(d, [], e[..1], "mpk", s.encode2(c.mpk));
    Appended(d, [], e[..2], "vk", s.encode1(c.vk));
    Appended(d, [], e[..3], "variant", [0x41]);
    Appended(d, [], e[..4], "mode", [0]);
    Appended(d, [], e[..5], "numCandidates", U16(c.numCandidates));
    Appended(d, [], e[..6], "budget", U16(c.budget));
    Appended(d, [], e[..7], "|cts|", U16(|c.cts|));
    assert [] + [e[0]] == e[..1] && e[..1] + [e[1]] == e[..2] && e[..2] + [e[2]] == e[..3];
    assert e[..3] + [e[3]] == e[..4] && e[..4] + [e[4]] == e[..5] && e[..5] + [e[5]] == e[..6];
    assert e[..6] + [e[6]] == e[..7] && e[..7] + [e[7]] == e;
  }

  lemma {:induction false} CiphersLogged(s: Suite, d: bytes, log: seq<Entry>, cts: seq<Cipher>, k: nat)
    requires k <= |cts|
    ensures SeedCiphers(s, PartsOf(d, log), cts, k) == PartsOf(d, log + CipherEntries(s, cts[..k]))
  {
    hide AppendTo, PartsOf, PointPair, Decimal, AppendPointTo;
    if k == 0 {
      assert log + CipherEntries(s, cts[..0]) == log;
    } else {
      CiphersLogged(s, d, log, cts, k - 1);
      assert cts[..k][..k - 1] == cts[..k - 1];
      PointPairLogged(s, d, log, CipherEntries(s, cts[..k - 1]), "ct.c1[", "ct.c2[", k - 1, cts[k - 1].0, cts[k - 1].1);
    }
  }

  lemma SeedLogged(s: Suite, c: BallotContext)
    ensures SeedParts(s, c) == PartsOf(Ascii(PROOF_LABEL), HeaderEntries(s, c) + CipherEntries(s, c.cts))
  {
    hide SeedHeader, SeedCiphers, PartsOf, HeaderEntries, CipherEntries;
    HeaderLogged(s, c);
    CiphersLogged(s, Ascii(PROOF_LABEL), HeaderEntries(s, c), c.cts, |c.cts|);
    assert c.cts[..|c.cts|] == c.cts;
  }

  lemma {:induction false} DecimalLength(n: nat)
    ensures |Decimal(n)| <= n + 1
  {
    if n >= 10 {
      DecimalLength(n / 10);
    }
  }

  lemma HeaderShort(s: Suite, c: BallotContext)
    requires s.Valid() && c.Fits(s.q)
    ensures Short(HeaderEntries(s, c))
  {
    hide ToBE, AllPoints;
  }

  lemma {:induction false} CiphersShort(s: Suite, cts: seq<Cipher>)
    requires s.Valid() && AllPoints(cts, s.q) && |cts| < 0x1_0000
    ensures Short(CipherEntries(s, cts))
  {
    hide PointPair;
    if cts != [] {
      var n := |cts| - 1;
      CiphersShort(s, cts[..n]);
      PointPairShort(s, "ct.c1[", "ct.c2[", n, cts[n].0, cts[n].1);
    }
  }

  lemma HeaderEqual(s: Suite, c: BallotContext, c': BallotContext)
    requires s.Valid() && c.Fits(s.q) && c'.Fits(s.q) && HeaderEntries(s, c) == HeaderEntries(s, c')
    ensures c'.cts == c.cts ==> c == c'
    ensures |c.cts| == |c'.cts|
  {
    hide Ascii, U16, AllPoints;
    var e, e' := HeaderEntries(s, c), HeaderEntries(s, c');
    assert e[0].value == e'[0].value && e[1].value == e'[1].value && e[2].value == e'[2].value;
    assert e[5].value == e'[5].value && e[6].value == e'[6].value && e[7].value == e'[7].value;
    CountInjective(c.numCandidates, c'.numCandidates);
    CountInjective(c.budget, c'.budget);
    CountInjective(|c.cts|, |c'.cts|);
    SamePoint(s, c.mpk, c'.mpk);
    KeyDecodes(s, c.vk);
    KeyDecodes(s, c'.vk);
  }

  lemma {:induction false} CipherEntriesEqual(s: Suite, a: seq<Cipher>, b: seq<Cipher>)
    requires s.Valid() && AllPoints(a, s.q) && AllPoints(b, s.q) && |a| == |b|
    requires CipherEntries(s, a) == CipherEntries(s, b)
    ensures a == b
  {
    hide PointPair;
    if a != [] {
      var n := |a| - 1;
      EntriesSplit(CipherEntries(s, a[..n]), PointPair(s, "ct.c1[", "ct.c2[", n, a[n].0, a[n].1),
                   CipherEntries(s, b[..n]), PointPair(s, "ct.c1[", "ct.c2[", n, b[n].0, b[n].1));
      CipherEntriesEqual(s, a[..n], b[..n]);
      PointPairEqual(s, "ct.c1[", "ct.c2[", n, a[n].0, a[n].1, b[n].0, b[n].1);
      assert a == a[..n] + [a[n]] && b == b[..n] + [b[n]];
    }
  }

  /** The transcript every proof of a ballot starts from determines the election, the joint key,
      the voter's key, every ciphertext, the number of candidates and the budget. */
  lemma SeedBinds(s: Suite, c: BallotContext, c': BallotContext)
    requires s.Valid() && c.Fits(s.q) && c'.Fits(s.q)
    requires Flatten(SeedParts(s, c)) == Flatten(SeedParts(s, c'))
    ensures c == c'
  {
    hide SeedParts, PartsOf, HeaderEntries, CipherEntries, Flatten, Short;
    SeedLogged(s, c);
    SeedLogged(s, c');
    HeaderShort(s, c);
    HeaderShort(s, c');
    CiphersShort(s, c.cts);
    CiphersShort(s, c'.cts);
    LogsEqual(Ascii(PROOF_LABEL), HeaderEntries(s, c), CipherEntries(s, c.cts),
              HeaderEntries(s, c'), CipherEntries(s, c'.cts));
    HeaderEqual(s, c, c');
    CipherEntriesEqual(s, c.cts, c'.cts);
  }

  // ----- OR proofs -----

  /** An OR statement with its commitments. */
  datatype OrRun = OrRun(c1: Point, c2: Point, mpk: Point, candidates: seq<int>, branches: seq<ORBranch>)
  {
    ghost predicate Fits(q: int)
    {
      && IsPoint(c1, q) && IsPoint(c2, q) && IsPoint(mpk, q) && 1 < q
      && |candidates| == |branches| < 0x1_0000
      && forall i :: 0 <= i < |branches| ==> IsPoint(branches[i].a1, q) && IsPoint(branches[i].a2, q)
    }
  }

  /** The same statement, with candidates up to reduction, and the same commitments. */
  ghost predicate SameOr(r: OrRun, r': OrRun, q: int)
    requires q > 0
  {
    && r.c1 == r'.c1 && r.c2 == r'.c2 && r.mpk == r'.mpk && SameCommitments(r.branches, r'.branches)
    && |r.candidates| == |r'.candidates|
    && forall i :: 0 <= i < |r.candidates| ==> Cong(r.candidates[i], r'.candidates[i], q)
  }

  function OrParts(s: Suite, p: Parts, r: OrRun): Parts
    requires s.q > 0
  {
    OrTranscript(s, p, r.c1, r.c2, r.mpk, r.candidates, r.branches)
  }

  function OrHead(s: Suite, r: OrRun): (e: seq<Entry>)
    ensures |e| == 5
  {
    [Tagged("or:P2", s.encode2(G2)), Tagged("or:mpk", s.encode2(r.mpk)), Tagged("or:C1", s.encode2(r.c1)),
     Tagged("or:C2", s.encode2(r.c2)), Tagged("or:|M|", U32(|r.candidates|))]
  }

  function ScalarEntries(s: Suite, candidates: seq<int>): (e: seq<Entry>)
    requires s.q > 0
    ensures |e| == |candidates|
  {
    seq(|candidates|, i requires 0 <= i < |candidates| =>
      Tagged("or:m[" + Decimal(i) + "]", ScalarToBytes(candidates[i] % s.q, s.q)))
  }

  function BranchEntries(s: Suite, branches: seq<ORBranch>): (e: seq<Entry>)
    ensures |e| == 2 * |branches|
  {
    if branches == [] then []
    else
      var n := |branches| - 1;
      BranchEntries(s, branches[..n]) + PointPair(s, "or:a1[", "or:a2[", n, branches[n].a1, branches[n].a2)
  }

  function OrEntries(s: Suite, r: OrRun): seq<Entry>
    requires s.q > 0
  {
    OrHead(s, r) + (ScalarEntries(s, r.candidates) + BranchEntries(s, r.branches))
  }

  lemma OrHeadLogged(s: Suite, d: bytes, log: seq<Entry>, r: OrRun)
    requires s.q > 0
    ensures BindOr(s, PartsOf(d, log), r.c1, r.c2, r.mpk, r.candidates)
         == BindScalars(s, PartsOf(d, log + OrHead(s, r)), r.candidates, |r.candidates|)
  {
    hide AppendTo, PartsOf, Tagged, U32, Ascii, BindScalars;
    var e := OrHead(s, r);
    assert log + [] == log;
    Appended(d, log, [], "or:P2", s.encode2(G2));
    Appended(d, log, e[..1], "or:mpk", s.encode2(r.mpk));
    Appended(d, log, e[..2], "or:C1", s.encode2(r.c1));
    Appended(d, log, e[..3], "or:C2", s.encode2(r.c2));
    Appended(d, log, e[..4], "or:|M|", U32(|r.candidates|));
    assert [] + [e[0]] == e[..1] && e[..1] + [e[1]] == e[..2] && e[..2] + [e[2]] == e[..3];
    assert e[..3] + [e[3]] == e[..4] && e[..4] + [e[4]] == e;
  }

  lemma {:induction false} ScalarsLogged(s: Suite, d: bytes, log: seq<Entry>, candidates: seq<int>, k: nat)
    requires s.q > 0 && k <= |candidates|
    ensures BindScalars(s, PartsOf(d, log), candidates, k) == PartsOf(d, log + ScalarEntries(s, candidates)[..k])
  {
    hide AppendTo, PartsOf, Tagged, Ascii, Decimal, ScalarToBytes;
    var e := ScalarEntries(s, candidates);
    if k == 0 {
      assert log + e[..0] == log;
    } else {
      ScalarsLogged(s, d, log, candidates, k - 1);
      Appended(d, log, e[..k - 1], "or:m[" + Decimal(k - 1) + "]", ScalarToBytes(candidates[k - 1] % s.q, s.q));
      assert e[..k - 1] + [e[k - 1]] == e[..k];
    }
  }

  lemma {:induction false} BranchesLogged(s: Suite, d: bytes, log: seq<Entry>, branches: seq<ORBranch>, k: nat)
    requires k <= |branches|
    ensures CommitBranches(s, PartsOf(d, log), branches, k) == PartsOf(d, log + BranchEntries(s, branches[..k]))
  {
    hide AppendTo, PartsOf, PointPair, Decimal, AppendPointTo;
    if k == 0 {
      assert log + BranchEntries(s, branches[..0]) == log;
    } else {
      BranchesLogged(s, d, log, branches, k - 1);
      assert branches[..k][..k - 1] == branches[..k - 1];
      var br := branches[k - 1];
      PointPairLogged(s, d, log, BranchEntries(s, branches[..k - 1]), "or:a1[", "or:a2[", k - 1, br.a1, br.a2);
    }
  }

  lemma OrLogged(s: Suite, d: bytes, log: seq<Entry>, r: OrRun)
    requires s.q > 0
    ensures OrParts(s, PartsOf(d, log), r) == PartsOf(d, log + OrEntries(s, r))
  {
    hide BindOr, BindScalars, CommitBranches, PartsOf, OrHead, ScalarEntries, BranchEntries;
    var head, scalars, branches := OrHead(s, r), ScalarEntries(s, r.candidates), BranchEntries(s, r.branches);
    OrHeadLogged(s, d, log, r);
    ScalarsLogged(s, d, log + head, r.candidates, |r.candidates|);
    assert scalars[..|r.candidates|] == scalars && r.branches[..|r.branches|] == r.branches;
    BranchesLogged(s, d, log + head + scalars, r.branches, |r.branches|);
    assert log + head + scalars + branches == log + OrEntries(s, r);
  }

  lemma OrShort(s: Suite, r: OrRun)
    requires s.Valid() && r.Fits(s.q)
    ensures Short(OrEntries(s, r))
  {
    hide OrHead, ScalarEntries, BranchEntries;
    OrHeadShort(s, r);
    ScalarsShort(s, r.candidates);
    BranchesShort(s, r.branches);
  }

  lemma OrHeadShort(s: Suite, r: OrRun)
    requires s.Valid() && r.Fits(s.q)
    ensures Short(OrHead(s, r))
  {
    hide ToBE;
  }

  lemma ScalarsShort(s: Suite, candidates: seq<int>)
    requires s.q > 0 && |candidates| < 0x1_0000
    ensures Short(ScalarEntries(s, candidates))
  {
    hide Decimal, Ascii, ScalarToBytes;
    var e := ScalarEntries(s, candidates);
    forall i | 0 <= i < |e| ensures |e[i].tag| < 0x1_0000_0000 && |e[i].value| < 0x1_0000_0000 {
      DecimalLength(i);
    }
  }

  lemma {:induction false} BranchesShort(s: Suite, branches: seq<ORBranch>)
    requires s.Valid() && |branches| < 0x1_0000
    requires forall i :: 0 <= i < |branches| ==> IsPoint(branches[i].a1, s.q) && IsPoint(branches[i].a2, s.q)
    ensures Short(BranchEntries(s, branches))
  {
    hide PointPair;
    if branches != [] {
      var n := |branches| - 1;
      BranchesShort(s, branches[..n]);
      PointPairShort(s, "or:a1[", "or:a2[", n, branches[n].a1, branches[n].a2);
    }
  }

  lemma OrHeadEqual(s: Suite, r: OrRun, r': OrRun)
    requires s.Valid() && r.Fits(s.q) && r'.Fits(s.q) && OrHead(s, r) == OrHead(s, r')
    ensures r.c1 == r'.c1 && r.c2 == r'.c2 && r.mpk == r'.mpk && |r.candidates| == |r'.candidates|
  {
    hide Ascii, Pow256, ToBE;
    var e, e' := OrHead(s, r), OrHead(s, r');
    assert e[1].value == e'[1].value && e[2].value == e'[2].value;
    assert e[3].value == e'[3].value && e[4].value == e'[4].value;
    SamePoint(s, r.c1, r'.c1);
    SamePoint(s, r.c2, r'.c2);
    SamePoint(s, r.mpk, r'.mpk);
    Pow256Values();
    ToBEInjective(|r.candidates|, |r'.candidates|, 4);
  }

  lemma SameScalar(x: int, y: int, q: int)
    requires 1 < q <= Pow256(32) && ScalarToBytes(x % q, q) == ScalarToBytes(y % q, q)
    ensures Cong(x, y, q)
  {
    hide ScalarToBytes, ScalarFromBytes;
    ScalarRoundTrip(x % q, q);
    ScalarRoundTrip(y % q, q);
    CongMod(x, q);
    CongMod(y, q);
  }

  lemma ScalarsEqual(s: Suite, a: seq<int>, b: seq<int>)
    requires s.Valid() && ScalarEntries(s, a) == ScalarEntries(s, b)
    ensures |a| == |b| && forall i :: 0 <= i < |a| ==> Cong(a[i], b[i], s.q)
  {
    hide Ascii, Decimal, ScalarToBytes;
    var e, e' := ScalarEntries(s, a), ScalarEntries(s, b);
    assert |a| == |e| && |b| == |e'|;
    forall i | 0 <= i < |a| ensures Cong(a[i], b[i], s.q) {
      assert e[i].value == e'[i].value;
      SameScalar(a[i], b[i], s.q);
    }
  }

  lemma {:induction false} BranchesEqual(s: Suite, a: seq<ORBranch>, b: seq<ORBranch>)
    requires s.Valid() && |a| == |b| && BranchEntries(s, a) == BranchEntries(s, b)
    requires forall i :: 0 <= i < |a| ==> IsPoint(a[i].a1, s.q) && IsPoint(a[i].a2, s.q)
    requires forall i :: 0 <= i < |b| ==> IsPoint(b[i].a1, s.q) && IsPoint(b[i].a2, s.q)
    ensures SameCommitments(a, b)
  {
    hide PointPair;
    if a != [] {
      var n := |a| - 1;
      EntriesSplit(BranchEntries(s, a[..n]), PointPair(s, "or:a1[", "or:a2[", n, a[n].a1, a[n].a2),
                   BranchEntries(s, b[..n]), PointPair(s, "or:a1[", "or:a2[", n, b[n].a1, b[n].a2));
      BranchesEqual(s, a[..n], b[..n]);
      PointPairEqual(s, "or:a1[", "or:a2[", n, a[n].a1, a[n].a2, b[n].a1, b[n].a2);
    }
  }

  lemma OrEntriesEqual(s: Suite, r: OrRun, r': OrRun)
    requires s.Valid() && r.Fits(s.q) && r'.Fits(s.q) && OrEntries(s, r) == OrEntries(s, r')
    ensures SameOr(r, r', s.q)
  {
    hide OrHead, ScalarEntries, BranchEntries;
    var h, h' := OrHead(s, r), OrHead(s, r');
    var m, m' := ScalarEntries(s, r.candidates), ScalarEntries(s, r'.candidates);
    var b, b' := BranchEntries(s, r.branches), BranchEntries(s, r'.branches);
    EntriesSplit(h, m + b, h', m' + b');
    OrHeadEqual(s, r, r');
    EntriesSplit(m, b, m', b');
    ScalarsEqual(s, r.candidates, r'.candidates);
    BranchesEqual(s, r.branches, r'.branches);
  }

  lemma EntriesSplit(a: seq<Entry>, b: seq<Entry>, c: seq<Entry>, d: seq<Entry>)
    requires |a| == |c| && a + b == c + d
    ensures a == c && b == d
  {
    assert a == (a + b)[..|a|] && c == (c + d)[..|c|];
    assert b == (a + b)[|a|..] && d == (c + d)[|c|..];
  }

  /** Range proof `j` of a ballot, from recorded starts of one length: equal transcripts have equal
      starts, equal positions, equal statements and equal commitments. */
  lemma RangeProofBinds(s: Suite, d: bytes, log: seq<Entry>, log': seq<Entry>, j: nat, j': nat, r: OrRun, r': OrRun)
    requires s.Valid() && r.Fits(s.q) && r'.Fits(s.q) && Short(log) && Short(log') && |log| == |log'|
    requires j < 0x1_0000 && j' < 0x1_0000
    requires Flatten(OrParts(s, RangeTag(PartsOf(d, log), j), r))
          == Flatten(OrParts(s, RangeTag(PartsOf(d, log'), j'), r'))
    ensures log == log' && j == j' && SameOr(r, r', s.q)
  {
    hide OrParts, OrEntries, PartsOf, Flatten, U16, Ascii, SameOr;
    var x, x' := Tagged("ballot:range", U16(j)), Tagged("ballot:range", U16(j'));
    AppendRecords(d, log, "ballot:range", U16(j));
    AppendRecords(d, log', "ballot:range", U16(j'));
    OrLogged(s, d, log + [x], r);
    OrLogged(s, d, log' + [x'], r');
    OrShort(s, r);
    OrShort(s, r');
    LogsEqual(d, log + [x], OrEntries(s, r), log' + [x'], OrEntries(s, r'));
    EntriesSplit(log, [x], log', [x']);
    assert [x][0] == [x'][0];
    CountInjective(j, j');
    OrEntriesEqual(s, r, r');
  }

  // ----- budget proofs -----

  /** From recorded starts of one length, equal budget transcripts have equal starts, modes,
      budgets, statements and commitments. */
  lemma BudgetProofBinds(s: Suite, d: bytes, log: seq<Entry>, log': seq<Entry>, budget: int, budget': int,
                         exact: bool, exact': bool, r: DleqRun, r': DleqRun)
    requires s.Valid() && r.Points(s.q) && r'.Points(s.q) && Short(log) && Short(log') && |log| == |log'|
    requires Flatten(DleqParts(s, BindBudgetTo(s, PartsOf(d, log), budget, exact), r))
          == Flatten(DleqParts(s, BindBudgetTo(s, PartsOf(d, log'), budget', exact'), r'))
    ensures log == log' && exact == exact' && Cong(budget, budget', s.q) && r == r'
  {
    hide DleqParts, PartsOf, Flatten, ScalarToBytes, Ascii;
    var e, e' := BudgetEntries(s, budget, exact), BudgetEntries(s, budget', exact');
    BudgetLogged(s, d, log, budget, exact);
    BudgetLogged(s, d, log', budget', exact');
    DleqBinds(s, d, log + e, log' + e', r, r');
    EntriesSplit(log, e, log', e');
    assert e[0] == e'[0] && e[1] == e'[1];
    assert e[0].value[0] == e'[0].value[0];
    SameScalar(budget, budget', s.q);
  }

  function BudgetEntries(s: Suite, budget: int, exact: bool): (e: seq<Entry>)
    requires s.q > 0
    ensures |e| == 2 && Short(e)
  {
    [Tagged("budget:mode", if exact then [0] else [1]), Tagged("budget:B", ScalarToBytes(budget % s.q, s.q))]
  }

  lemma BudgetLogged(s: Suite, d: bytes, log: seq<Entry>, budget: int, exact: bool)
    requires s.q > 0
    ensures BindBudgetTo(s, PartsOf(d, log), budget, exact) == PartsOf(d, log + BudgetEntries(s, budget, exact))
  {
    hide AppendTo, PartsOf, Tagged, Ascii, ScalarToBytes;
    var e := BudgetEntries(s, budget, exact);
    assert log + [] == log;
    Appended(d, log, [], "budget:mode", if exact then [0] else [1]);
    Appended(d, log, e[..1], "budget:B", ScalarToBytes(budget % s.q, s.q));
    assert [] + [e[0]] == e[..1] && e[..1] + [e[1]] == e;
  }

  // ----- separation -----

  /** The three kinds of hash input never coincide: ballot proofs, decryption shares and
      signatures open with different labels. */
  lemma LabelsSeparate(p: seq<Entry>, r: seq<Entry>, tag: string, s: Suite, nonce: Point, vk: Point, msg: bytes)
    ensures Flatten(PartsOf(Ascii(PROOF_LABEL), p)) != Flatten(PartsOf(Ascii(DECRYPT_LABEL), r))
    ensures Ascii(DST_FIAT_SHAMIR) + U32(|tag|) + Ascii(tag) + Flatten(PartsOf(Ascii(PROOF_LABEL), p))
         != SchnorrPreimage(s, nonce, vk, msg)
    ensures Ascii(DST_FIAT_SHAMIR) + U32(|tag|) + Ascii(tag) + Flatten(PartsOf(Ascii(DECRYPT_LABEL), r))
         != SchnorrPreimage(s, nonce, vk, msg)
  {
    hide Flatten, PartsOf, Log, U32;
    PreimageIsLog(Ascii(PROOF_LABEL), p);
    PreimageIsLog(Ascii(DECRYPT_LABEL), r);
    assert (Ascii(PROOF_LABEL) + Log(p))[13] == 66 && (Ascii(DECRYPT_LABEL) + Log(r))[13] == 68;
    assert Ascii(DST_FIAT_SHAMIR)[13] == 70 && SchnorrPreimage(s, nonce, vk, msg)[13] == 83;
  }
}
