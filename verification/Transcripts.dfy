/** The Fiat-Shamir transcript (crypto/transcript.py) over an arbitrary hash, and the
    parameters the crypto modules share. */
module Transcripts {
  import opened Field
  import opened Group
  import opened Bytes

  /** Group order, hashes and point encodings. The curve library is represented by any
      encoding that is a bijection between points and a set of fixed-length strings. */
  datatype Suite = Suite(
    q: int,
    hash: bytes -> nat,
    keccak: bytes -> bytes,
    encode2: Point -> bytes,
    decode2: bytes -> Option<Point>,
    encode1: Point -> bytes,
    decode1: bytes -> Option<Point>)
  {
    ghost predicate Valid()
    {
      && 2 < q <= Pow256(32)
      && (forall p :: IsPoint(p, q) ==> |encode2(p)| == 96 && decode2(encode2(p)) == Some(p))
      && (forall b :: decode2(b).Some? ==> IsPoint(decode2(b).value, q) && encode2(decode2(b).value) == b)
      && (forall p :: IsPoint(p, q) ==> |encode1(p)| == 48 && decode1(encode1(p)) == Some(p))
      && (forall b :: decode1(b).Some? ==> IsPoint(decode1(b).value, q) && encode1(decode1(b).value) == b)
    }
  }

  /** Big-endian exponents of the right width are such an encoding, for every order that fits. */
  lemma SuitesExist(q: int, hash: bytes -> nat, keccak: bytes -> bytes) returns (s: Suite)
    requires 2 < q <= Pow256(32)
    ensures s.Valid() && s.q == q && s.hash == hash && s.keccak == keccak
  {
    s := Suite(q, hash, keccak, (p: Point) => Wide(p, q, 96), (b: bytes) => Narrow(b, q, 96),
               (p: Point) => Wide(p, q, 48), (b: bytes) => Narrow(b, q, 48));
    forall p | IsPoint(p, q)
      ensures Narrow(Wide(p, q, 96), q, 96) == Some(p) && Narrow(Wide(p, q, 48), q, 48) == Some(p)
    {
      WideNarrow(p, q, 96);
      WideNarrow(p, q, 48);
    }
    forall b: bytes
      ensures Narrow(b, q, 96).Some? ==> Wide(Narrow(b, q, 96).value, q, 96) == b
      ensures Narrow(b, q, 48).Some? ==> Wide(Narrow(b, q, 48).value, q, 48) == b
    {
      ToFrom(b);
    }
  }

  function Wide(p: Point, q: int, n: nat): (b: bytes)
    ensures |b| == n
  {
    ToBE(if 0 <= p < q then p else 0, n)
  }

  function Narrow(b: bytes, q: int, n: nat): (p: Option<Point>)
    ensures p.Some? ==> IsPoint(p.value, q)
  {
    if |b| == n && FromBE(b) < q then Some(FromBE(b)) else None
  }

  lemma WideNarrow(p: Point, q: int, n: nat)
    requires IsPoint(p, q) && q <= Pow256(32) && n >= 32
    ensures Narrow(Wide(p, q, n), q, n) == Some(p)
  {
    PowMono(32, n);
    FromTo(p, n);
  }

  lemma {:induction false} PowMono(m: nat, n: nat)
    requires m <= n
    ensures Pow256(m) <= Pow256(n)
    decreases n
  {
    if m < n {
      PowMono(m, n - 1);
    }
  }

  const DST_FIAT_SHAMIR := "SHUTTER-VOTE-FS-v1"

  type Parts = seq<bytes>

  function Start(domain: string): (p: Parts)
    ensures |p| == 1
  {
    [Ascii(domain)]
  }

  function AppendTo(p: Parts, tag: string, value: bytes): (r: Parts)
    ensures |r| == |p| + 4 && p <= r
  {
    p + [U32(|tag|), Ascii(tag), U32(|value|), value]
  }

  function AppendPointTo(s: Suite, p: Parts, tag: string, point: Point): Parts
  {
    AppendTo(p, tag, s.encode2(point))
  }

  function AppendScalarTo(s: Suite, p: Parts, tag: string, x: int): Parts
    requires s.q > 0
  {
    AppendTo(p, tag, ScalarToBytes(x, s.q))
  }

  function Flatten(p: Parts): bytes
  {
    if p == [] then [] else p[0] + Flatten(p[1..])
  }

  /** The scalar `challenge(tag)` derives from a transcript. */
  function ChallengeOf(s: Suite, p: Parts, tag: string): (e: int)
    requires s.q > 0
    ensures 0 <= e < s.q
  {
    s.hash(Ascii(DST_FIAT_SHAMIR) + U32(|tag|) + Ascii(tag) + Flatten(p)) % s.q
  }

  /** The transcript after that challenge has been folded back. */
  function Folded(s: Suite, p: Parts, tag: string): Parts
    requires s.q > 0
  {
    AppendScalarTo(s, p, tag + ":chal", ChallengeOf(s, p, tag))
  }

  /** The running transcript. `log` remembers what was appended, in order; `Valid` ties the byte
      parts to it, so every operation below also says what it recorded. */
  class Transcript {
    const domain: string
    var parts: Parts
    ghost var log: seq<Entry>

    ghost predicate Valid()
      reads this
    {
      parts == PartsOf(Ascii(domain), log)
    }

    constructor (tag: string)
      ensures Valid() && domain == tag && log == [] && parts == Start(tag)
    {
      domain := tag;
      parts := [Ascii(tag)];
      log := [];
    }

    method Append(tag: string, value: bytes)
      requires Valid()
      modifies this
      ensures Valid() && log == old(log) + [Entry(Ascii(tag), value)]
      ensures parts == AppendTo(old(parts), tag, value)
    {
      AppendRecords(Ascii(domain), log, tag, value);
      parts := parts + [U32(|tag|)];
      parts := parts + [Ascii(tag)];
      parts := parts + [U32(|value|)];
      parts := parts + [value];
      log := log + [Entry(Ascii(tag), value)];
    }

    method AppendPoint(s: Suite, tag: string, point: Point)
      requires Valid()
      modifies this
      ensures Valid() && log == old(log) + [Entry(Ascii(tag), s.encode2(point))]
      ensures parts == AppendPointTo(s, old(parts), tag, point)
    {
      Append(tag, s.encode2(point));
    }

    method AppendScalar(s: Suite, tag: string, x: int)
      requires s.q > 0 && Valid()
      modifies this
      ensures Valid() && log == old(log) + [Entry(Ascii(tag), ScalarToBytes(x, s.q))]
      ensures parts == AppendScalarTo(s, old(parts), tag, x)
    {
      Append(tag, ScalarToBytes(x, s.q));
    }

    method Challenge(s: Suite, tag: string) returns (e: int)
      requires s.q > 0 && Valid()
      modifies this
      ensures Valid() && log == old(log) + [Entry(Ascii(tag + ":chal"), ScalarToBytes(e, s.q))]
      ensures e == ChallengeOf(s, old(parts), tag)
      ensures parts == Folded(s, old(parts), tag)
    {
      var preimage := Ascii(DST_FIAT_SHAMIR) + U32(|tag|) + Ascii(tag) + Preimage();
      e := s.hash(preimage) % s.q;
      AppendScalar(s, tag + ":chal", e);
    }

    function Preimage(): bytes
      reads this
    {
      Flatten(parts)
    }
  }

  /** Two transcripts under one label with the same preimage recorded the same tags and values
      in the same order. */
  lemma TranscriptInjective(a: Transcript, b: Transcript)
    requires a.Valid() && b.Valid() && a.domain == b.domain && a.Preimage() == b.Preimage()
    requires Sized(a.log) && Sized(b.log)
    ensures a.log == b.log && a.parts == b.parts
  {
    PreimageInjective(Ascii(a.domain), a.log, b.log);
  }

  // ----- the byte log determines its entries -----

  datatype Entry = Entry(tag: bytes, value: bytes)

  /** The bytes one append contributes. */
  function EntryBytes(e: Entry): bytes
  {
    U32(|e.tag|) + e.tag + U32(|e.value|) + e.value
  }

  function Log(entries: seq<Entry>): bytes
  {
    if entries == [] then [] else EntryBytes(entries[0]) + Log(entries[1..])
  }

  ghost predicate Sized(entries: seq<Entry>)
  {
    forall i :: 0 <= i < |entries| ==> |entries[i].tag| < Pow256(4) && |entries[i].value| < Pow256(4)
  }

  /** The parts list of a transcript built by appending `entries` after the label `domain`. */
  function PartsOf(domain: bytes, entries: seq<Entry>): Parts
  {
    if entries == [] then [domain]
    else
      var last := entries[|entries| - 1];
      PartsOf(domain, entries[..|entries| - 1]) + [U32(|last.tag|), last.tag, U32(|last.value|), last.value]
  }

  /** Appending to a transcript appends one entry to what it records. */
  lemma AppendRecords(domain: bytes, entries: seq<Entry>, tag: string, value: bytes)
    ensures AppendTo(PartsOf(domain, entries), tag, value)
         == PartsOf(domain, entries + [Entry(Ascii(tag), value)])
  {
    var all := entries + [Entry(Ascii(tag), value)];
    assert all[..|all| - 1] == entries;
  }

  lemma {:induction false} FlattenAppend(p: Parts, r: Parts)
    ensures Flatten(p + r) == Flatten(p) + Flatten(r)
  {
    hide Flatten;
    if p == [] {
      FlattenNone();
      assert p + r == r;
    } else {
      FlattenAppend(p[1..], r);
      FlattenFirst(p);
      FlattenFirst(p + r);
      assert (p + r)[1..] == p[1..] + r;
      ConcatAssoc(p[0], Flatten(p[1..]), Flatten(r));
    }
  }

  lemma FlattenNone()
    ensures Flatten([]) == []
  {
  }

  lemma FlattenFirst(p: Parts)
    requires p != []
    ensures Flatten(p) == p[0] + Flatten(p[1..])
  {
  }

  lemma ConcatAssoc(a: bytes, b: bytes, c: bytes)
    ensures a + (b + c) == (a + b) + c
  {
  }

  lemma {:induction false} LogSnoc(entries: seq<Entry>, e: Entry)
    ensures Log(entries + [e]) == Log(entries) + EntryBytes(e)
  {
    if entries == [] {
      assert entries + [e] == [e];
      assert Log([e]) == EntryBytes(e) + Log([]);
    } else {
      LogSnoc(entries[1..], e);
      assert (entries + [e])[1..] == entries[1..] + [e];
    }
  }

  /** A transcript's preimage is its label followed by the log of what was appended. */
  lemma {:induction false} PreimageIsLog(domain: bytes, entries: seq<Entry>)
    ensures Flatten(PartsOf(domain, entries)) == domain + Log(entries)
  {
    hide U32, EntryBytes;
    if entries == [] {
      assert Flatten([domain]) == domain + Flatten([]);
    } else {
      var n := |entries| - 1;
      var last := entries[n];
      PreimageIsLog(domain, entries[..n]);
      assert entries == entries[..n] + [last];
      LogSnoc(entries[..n], last);
      var tail := [U32(|last.tag|), last.tag, U32(|last.value|), last.value];
      FlattenAppend(PartsOf(domain, entries[..n]), tail);
      FlattenEntry(last);
      ConcatAssoc(domain, Log(entries[..n]), EntryBytes(last));
    }
  }

  lemma FlattenEntry(e: Entry)
    ensures Flatten([U32(|e.tag|), e.tag, U32(|e.value|), e.value]) == EntryBytes(e)
  {
    hide U32;
    FlattenFour([U32(|e.tag|), e.tag, U32(|e.value|), e.value]);
  }

  lemma FlattenFour(p: Parts)
    requires |p| == 4
    ensures Flatten(p) == p[0] + p[1] + p[2] + p[3]
  {
    assert Flatten(p[3..]) == p[3] + Flatten(p[4..]) by { assert p[3..][1..] == p[4..]; }
    assert Flatten(p[2..]) == p[2] + Flatten(p[3..]) by { assert p[2..][1..] == p[3..]; }
    assert Flatten(p[1..]) == p[1] + Flatten(p[2..]) by { assert p[1..][1..] == p[2..]; }
  }

  /** Under one label the bytes determine the entries. */
  lemma PreimageInjective(domain: bytes, a: seq<Entry>, b: seq<Entry>)
    requires Sized(a) && Sized(b)
    requires Flatten(PartsOf(domain, a)) == Flatten(PartsOf(domain, b))
    ensures a == b
  {
    PreimageIsLog(domain, a);
    PreimageIsLog(domain, b);
    SplitEqual(domain, Log(a), domain, Log(b));
    LogInjective(a, b);
  }

  lemma {:induction false} LogInjective(a: seq<Entry>, b: seq<Entry>)
    requires Sized(a) && Sized(b) && Log(a) == Log(b)
    ensures a == b
    decreases |a|
  {
    hide Log, EntryBytes, Pow256;
    LogNonEmpty(a);
    LogNonEmpty(b);
    if a != [] && b != [] {
      LogFirst(a);
      LogFirst(b);
      FirstEntry(a[0], Log(a[1..]), b[0], Log(b[1..]));
      LogInjective(a[1..], b[1..]);
      assert a == [a[0]] + a[1..] && b == [b[0]] + b[1..];
    }
  }

  lemma LogNonEmpty(entries: seq<Entry>)
    ensures if entries == [] then Log(entries) == [] else |Log(entries)| >= 8
  {
  }

  lemma LogFirst(entries: seq<Entry>)
    requires entries != []
    ensures Log(entries) == EntryBytes(entries[0]) + Log(entries[1..])
  {
  }

  lemma FirstEntry(e: Entry, rest: bytes, f: Entry, rest': bytes)
    requires |e.tag| < Pow256(4) && |e.value| < Pow256(4) && |f.tag| < Pow256(4) && |f.value| < Pow256(4)
    requires EntryBytes(e) + rest == EntryBytes(f) + rest'
    ensures e == f && rest == rest'
  {
    hide Pow256, U32;
    var ve, vf := U32(|e.value|) + e.value + rest, U32(|f.value|) + f.value + rest';
    assert EntryBytes(e) + rest == U32(|e.tag|) + e.tag + ve;
    assert EntryBytes(f) + rest' == U32(|f.tag|) + f.tag + vf;
    PrefixedEqual(e.tag, ve, f.tag, vf);
    PrefixedEqual(e.value, rest, f.value, rest');
  }
}
