/** The versioned binary form of a ballot validity proof (crypto/ballot.py). */
module BallotCodec {
  import opened Field
  import opened Group
  import opened Bytes
  import opened Transcripts
  import opened Proofs

  const BVP_VERSION: byte := 0x01
  const VARIANT_A: byte := 0x41
  const BUDGET_EXACT: byte := 0x00

  datatype ValidityProof = ValidityProof(ranges: seq<seq<ORBranch>>, e: int, z: int)

  // ----- encoding -----

  function EncodeBranch(s: Suite, br: ORBranch): bytes
    requires s.q > 0
  {
    s.encode2(br.a1) + s.encode2(br.a2) + ScalarToBytes(br.e, s.q) + ScalarToBytes(br.z, s.q)
  }

  function EncodeBranches(s: Suite, brs: seq<ORBranch>): bytes
    requires s.q > 0
  {
    if brs == [] then [] else EncodeBranches(s, brs[..|brs| - 1]) + EncodeBranch(s, brs[|brs| - 1])
  }

  function EncodeRanges(s: Suite, ranges: seq<seq<ORBranch>>): bytes
    requires s.q > 0
  {
    if ranges == [] then []
    else EncodeRanges(s, ranges[..|ranges| - 1]) + EncodeBranches(s, ranges[|ranges| - 1])
  }

  function CountBytes(n: nat, count: nat): (b: bytes)
    ensures |b| == 2 * n
  {
    if n == 0 then [] else CountBytes(n - 1, count) + U16(count)
  }

  function BudgetBytes(s: Suite, e: int, z: int): (b: bytes)
    requires s.q > 0
    ensures |b| == 65
  {
    [BUDGET_EXACT] + ScalarToBytes(e, s.q) + ScalarToBytes(z, s.q)
  }

  /** The wire form of a proof whose range proofs all have `count` branches. */
  function ProofBytes(s: Suite, p: ValidityProof, count: nat): bytes
    requires s.q > 0
  {
    [BVP_VERSION, VARIANT_A] + U16(|p.ranges|) + CountBytes(|p.ranges|, count)
    + EncodeRanges(s, p.ranges) + BudgetBytes(s, p.e, p.z)
  }

  /** The proofs the format can carry: one branch count that fits two bytes. */
  predicate Uniform(ranges: seq<seq<ORBranch>>)
  {
    && 0 < |ranges| < 0x1_0000
    && |ranges[0]| < 0x1_0000
    && forall i :: 0 <= i < |ranges| ==> |ranges[i]| == |ranges[0]|
  }

  /** encode_ballot_validity_proof; nothing where it raises. */
  method Encode(s: Suite, p: ValidityProof) returns (r: Option<bytes>)
    requires s.q > 1
    ensures r.Some? <==> Uniform(p.ranges)
    ensures r.Some? ==> r.value == ProofBytes(s, p, |p.ranges[0]|)
  {
    var n := |p.ranges|;
    if n == 0 {
      return None;
    }
    var count := |p.ranges[0]|;
    for i := 0 to n
      invariant forall k :: 0 <= k < i ==> |p.ranges[k]| == count
    {
      if |p.ranges[i]| != count {
        return None;
      }
    }
    if n >= 0x1_0000 || count >= 0x1_0000 {
      return None;
    }
    var body := EncodeBody(s, p.ranges);
    var out: bytes := [BVP_VERSION];
    out := out + [VARIANT_A];
    out := out + U16(n);
    var counts: bytes := [];
    for i := 0 to n
      invariant counts == CountBytes(i, count)
    {
      counts := counts + U16(count);
    }
    out := out + counts;
    out := out + body;
    var tail: bytes := [BUDGET_EXACT];
    tail := tail + ScalarToBytes(p.e, s.q);
    tail := tail + ScalarToBytes(p.z, s.q);
    out := out + tail;
    assert [BVP_VERSION] + [VARIANT_A] == [BVP_VERSION, VARIANT_A];
    r := Some(out);
  }

  /** The nested append loop over all branches. */
  method EncodeBody(s: Suite, ranges: seq<seq<ORBranch>>) returns (out: bytes)
    requires s.q > 1
    ensures out == EncodeRanges(s, ranges)
  {
    out := [];
    for i := 0 to |ranges|
      invariant out == EncodeRanges(s, ranges[..i])
    {
      var proof := ranges[i];
      var part: bytes := [];
      for k := 0 to |proof|
        invariant part == EncodeBranches(s, proof[..k])
      {
        assert proof[..k + 1][..k] == proof[..k];
        part := part + EncodeBranch(s, proof[k]);
      }
      assert proof[..|proof|] == proof;
      assert ranges[..i + 1][..i] == ranges[..i];
      out := out + part;
    }
    assert ranges[..|ranges|] == ranges;
  }

  // ----- decoding -----

  function ParseBranch(s: Suite, buf: bytes, o: nat): Option<ORBranch>
    requires s.q > 0
  {
    var a1 := s.decode2(Slice(buf, o, 96));
    var a2 := s.decode2(Slice(buf, o + 96, 96));
    var e := ScalarFromBytes(Slice(buf, o + 192, 32), s.q);
    var z := ScalarFromBytes(Slice(buf, o + 224, 32), s.q);
    if a1.None? || a2.None? || e.None? || z.None? then None
    else Some(ORBranch(a1.value, a2.value, e.value, z.value))
  }

  function ParseBranches(s: Suite, buf: bytes, o: nat, n: nat): Option<seq<ORBranch>>
    requires s.q > 0
  {
    if n == 0 then Some([])
    else
      var front := ParseBranches(s, buf, o, n - 1);
      var last := ParseBranch(s, buf, o + 256 * (n - 1));
      if front.None? || last.None? then None else Some(front.value + [last.value])
  }

  /** Bytes taken by m range proofs of n branches each. */
  function Span(m: nat, n: nat): nat
  {
    if m == 0 then 0 else Span(m - 1, n) + 256 * n
  }

  function ParseRanges(s: Suite, buf: bytes, o: nat, m: nat, n: nat): Option<seq<seq<ORBranch>>>
    requires s.q > 0
  {
    if m == 0 then Some([])
    else
      var front := ParseRanges(s, buf, o, m - 1, n);
      var last := ParseBranches(s, buf, o + Span(m - 1, n), n);
      if front.None? || last.None? then None else Some(front.value + [last.value])
  }

  /** Every two-byte branch count reads as `count`. */
  predicate CountsRead(buf: bytes, o: nat, m: nat, count: int)
  {
    forall i :: 0 <= i < m ==> CountAt(buf, o, i) == count
  }

  function CountAt(buf: bytes, o: nat, i: nat): nat
  {
    FromBE(Slice(buf, o + 2 * i, 2))
  }

  /** decode_ballot_validity_proof as a function; nothing where it raises. */
  function Decode(s: Suite, buf: bytes, numCandidates: int, budget: int): Option<ValidityProof>
    requires s.q > 0
  {
    if |buf| < 4 || buf[0] != BVP_VERSION || buf[1] != VARIANT_A || FromBE(buf[2..4]) != numCandidates then None
    else if !CountsRead(buf, 4, numCandidates, budget + 1) then None
    else if numCandidates > 0 && budget + 1 < 0 then None
    else
      var count := if budget + 1 < 0 then 0 else budget + 1;
      var o := 4 + 2 * numCandidates;
      var ranges := ParseRanges(s, buf, o, numCandidates, count);
      var t := o + Span(numCandidates, count);
      if ranges.None? || t >= |buf| || buf[t] != BUDGET_EXACT then None
      else
        var e := ScalarFromBytes(Slice(buf, t + 1, 32), s.q);
        var z := ScalarFromBytes(Slice(buf, t + 33, 32), s.q);
        if e.None? || z.None? || t + 65 != |buf| then None
        else Some(ValidityProof(ranges.value, e.value, z.value))
  }

  /** The cursor-driven decoder. */
  method DecodeProof(s: Suite, buf: bytes, numCandidates: int, budget: int) returns (r: Option<ValidityProof>)
    requires s.q > 1
    ensures r == Decode(s, buf, numCandidates, budget)
  {
    hide ParseRanges, FromBE, ScalarFromBytes, Slice, Span;
    if |buf| < 4 {
      return None;
    }
    var o := 0;
    if buf[o] != BVP_VERSION {
      return None;
    }
    o := o + 1;
    if buf[o] != VARIANT_A {
      return None;
    }
    o := o + 1;
    var outer := FromBE(buf[o..o + 2]);
    o := o + 2;
    if outer != numCandidates {
      return None;
    }
    for i := 0 to outer
      invariant o == 4 + 2 * i
      invariant forall k :: 0 <= k < i ==> CountAt(buf, 4, k) == budget + 1
    {
      var bc := FromBE(Slice(buf, o, 2));
      assert CountAt(buf, 4, i) == bc;
      o := o + 2;
      if bc != budget + 1 {
        return None;
      }
    }
    if outer > 0 {
      assert CountAt(buf, 4, 0) == budget + 1;
    }
    var count := if budget + 1 < 0 then 0 else budget + 1;
    var ranges;
    ranges, o := DecodeRanges(s, buf, o, outer, count);
    if ranges.None? || o >= |buf| {
      return None;
    }
    var tag := buf[o];
    o := o + 1;
    if tag != BUDGET_EXACT {
      return None;
    }
    var e := ScalarFromBytes(Slice(buf, o, 32), s.q);
    o := o + 32;
    var z := ScalarFromBytes(Slice(buf, o, 32), s.q);
    o := o + 32;
    if e.None? || z.None? || o != |buf| {
      return None;
    }
    return Some(ValidityProof(ranges.value, e.value, z.value));
  }

  /** The ranges and the cursor behind them. */
  method DecodeRanges(s: Suite, buf: bytes, start: nat, outer: nat, count: nat)
    returns (r: Option<seq<seq<ORBranch>>>, o: nat)
    requires s.q > 1
    ensures r == ParseRanges(s, buf, start, outer, count)
    ensures r.Some? ==> o == start + Span(outer, count)
  {
    hide ParseBranches;
    o := start;
    var ranges: seq<seq<ORBranch>> := [];
    for i := 0 to outer
      invariant o == start + Span(i, count)
      invariant ParseRanges(s, buf, start, i, count) == Some(ranges)
    {
      var branches := DecodeBranches(s, buf, o, count);
      if branches.None? {
        NeverRecovers(s, buf, start, i + 1, outer, count);
        return None, o;
      }
      ranges := ranges + [branches.value];
      o := o + 256 * count;
    }
    r := Some(ranges);
  }

  method DecodeBranches(s: Suite, buf: bytes, start: nat, count: nat) returns (r: Option<seq<ORBranch>>)
    requires s.q > 1
    ensures r == ParseBranches(s, buf, start, count)
  {
    var branches: seq<ORBranch> := [];
    var o := start;
    for k := 0 to count
      invariant o == start + 256 * k
      invariant ParseBranches(s, buf, start, k) == Some(branches)
    {
      var br := ParseBranch(s, buf, o);
      if br.None? {
        BranchNeverRecovers(s, buf, start, k + 1, count);
        return None;
      }
      branches := branches + [br.value];
      o := o + 256;
    }
    return Some(branches);
  }

  lemma {:induction false} BranchNeverRecovers(s: Suite, buf: bytes, o: nat, k: nat, n: nat)
    requires s.q > 0 && k <= n && ParseBranches(s, buf, o, k).None?
    ensures ParseBranches(s, buf, o, n).None?
  {
    hide *;
    if k < n {
      BranchesStep(s, buf, o, n);
      BranchNeverRecovers(s, buf, o, k, n - 1);
    }
  }

  lemma {:induction false} NeverRecovers(s: Suite, buf: bytes, o: nat, k: nat, m: nat, n: nat)
    requires s.q > 0 && k <= m && ParseRanges(s, buf, o, k, n).None?
    ensures ParseRanges(s, buf, o, m, n).None?
  {
    hide *;
    if k < m {
      RangesStep(s, buf, o, m, n);
      NeverRecovers(s, buf, o, k, m - 1, n);
    }
  }

  // ----- bijection -----

  ghost predicate AllReduced(brs: seq<ORBranch>, q: int)
  {
    forall i :: 0 <= i < |brs| ==> Reduced(brs[i], q)
  }

  ghost predicate RangesShaped(ranges: seq<seq<ORBranch>>, m: nat, n: nat, q: int)
  {
    |ranges| == m && forall i :: 0 <= i < m ==> |ranges[i]| == n && AllReduced(ranges[i], q)
  }

  lemma OrderPositive(s: Suite)
    requires s.Valid()
    ensures s.q > 2
  {
  }

  lemma BranchLength(s: Suite, br: ORBranch)
    requires s.Valid() && Reduced(br, s.q)
    ensures |EncodeBranch(s, br)| == 256
  {
  }

  /** Sub-buffer [o, o+len) exists and holds exactly `b`; an empty field is always there. */
  ghost predicate HoldsAt(buf: bytes, o: nat, b: bytes)
  {
    b == [] || (o + |b| <= |buf| && buf[o..o + |b|] == b)
  }

  lemma HoldsConcat(buf: bytes, o: nat, a: bytes, b: bytes)
    ensures HoldsAt(buf, o, a) && HoldsAt(buf, o + |a|, b) <==> HoldsAt(buf, o, a + b)
  {
    if a == [] {
      assert a + b == b;
    } else if b == [] {
      assert a + b == a;
    } else {
      if HoldsAt(buf, o, a + b) {
        var w := buf[o..o + |a + b|];
        assert w[..|a|] == a && w[|a|..] == b;
        assert buf[o..o + |a|] == w[..|a|] && buf[o + |a|..o + |a| + |b|] == w[|a|..];
      }
      if HoldsAt(buf, o, a) && HoldsAt(buf, o + |a|, b) {
        assert buf[o..o + |a + b|] == buf[o..o + |a|] + buf[o + |a|..o + |a| + |b|];
      }
    }
  }

  lemma {:induction false} BranchesLength(s: Suite, brs: seq<ORBranch>)
    requires s.Valid() && AllReduced(brs, s.q)
    ensures |EncodeBranches(s, brs)| == 256 * |brs|
  {
    if brs != [] {
      BranchesLength(s, brs[..|brs| - 1]);
      BranchLength(s, brs[|brs| - 1]);
    }
  }

  lemma {:induction false} ParseBranchesIff(s: Suite, buf: bytes, o: nat, n: nat, brs: seq<ORBranch>)
    requires s.Valid()
    ensures ParseBranches(s, buf, o, n) == Some(brs) <==>
              |brs| == n && AllReduced(brs, s.q) && HoldsAt(buf, o, EncodeBranches(s, brs))
    decreases n
  {
    hide *;
    OrderPositive(s);
    if n == 0 {
      NoBranches(s, buf, o, brs);
    } else {
      BranchesStep(s, buf, o, n);
      var f, l := ParseBranches(s, buf, o, n - 1), ParseBranch(s, buf, o + 256 * (n - 1));
      if ParseBranches(s, buf, o, n) == Some(brs) {
        ParseBranchesIff(s, buf, o, n - 1, f.value);
        BranchesSnoc(s, buf, o, f.value, l.value, n);
      }
      if |brs| == n && AllReduced(brs, s.q) && HoldsAt(buf, o, EncodeBranches(s, brs)) {
        var front, last := brs[..n - 1], brs[n - 1];
        assert brs == front + [last];
        BranchesSnoc(s, buf, o, front, last, n);
        ParseBranchesIff(s, buf, o, n - 1, front);
      }
    }
  }

  /** The encoding of n branches stands at o exactly when the first n-1 and the last do. */
  lemma BranchesSnoc(s: Suite, buf: bytes, o: nat, front: seq<ORBranch>, last: ORBranch, n: nat)
    requires s.Valid() && |front| == n - 1
    ensures AllReduced(front + [last], s.q) && HoldsAt(buf, o, EncodeBranches(s, front + [last]))
       <==> && AllReduced(front, s.q) && HoldsAt(buf, o, EncodeBranches(s, front))
            && ParseBranch(s, buf, o + 256 * (n - 1)) == Some(last)
  {
    hide ParseBranch, EncodeBranch, HoldsAt, Reduced, AllReduced;
    var all := front + [last];
    assert all[..|all| - 1] == front && all[|all| - 1] == last;
    AllReducedSnoc(front, last, s.q);
    OneBranch(s, buf, o + 256 * (n - 1), last);
    if AllReduced(front, s.q) {
      BranchesLength(s, front);
    }
    HoldsConcat(buf, o, EncodeBranches(s, front), EncodeBranch(s, last));
  }

  lemma AllReducedSnoc(front: seq<ORBranch>, last: ORBranch, q: int)
    ensures AllReduced(front + [last], q) <==> AllReduced(front, q) && Reduced(last, q)
  {
    var all := front + [last];
    if AllReduced(all, q) {
      assert all[|front|] == last;
      assert forall i :: 0 <= i < |front| ==> all[i] == front[i];
    }
  }

  lemma PointAt(s: Suite, buf: bytes, o: nat, p: Point)
    requires s.Valid()
    ensures s.decode2(Slice(buf, o, 96)) == Some(p) <==> IsPoint(p, s.q) && HoldsAt(buf, o, s.encode2(p))
  {
    var w := Slice(buf, o, 96);
    if s.decode2(w) == Some(p) {
      assert s.encode2(p) == w && |w| == 96;
    }
  }

  lemma ScalarAt(s: Suite, buf: bytes, o: nat, x: int)
    requires s.Valid()
    ensures ScalarFromBytes(Slice(buf, o, 32), s.q) == Some(x) <==>
              0 <= x < s.q && HoldsAt(buf, o, ScalarToBytes(x, s.q))
  {
    hide ToBE, FromBE;
    var w := Slice(buf, o, 32);
    if ScalarFromBytes(w, s.q) == Some(x) {
      ScalarCanonical(w, s.q);
    }
    if 0 <= x < s.q {
      ScalarRoundTrip(x, s.q);
      ModUnique(x, 0, x, s.q);
    }
  }

  /** A branch is read at an offset exactly when its 256-byte encoding stands there. */
  lemma OneBranch(s: Suite, buf: bytes, o: nat, br: ORBranch)
    requires s.Valid()
    ensures ParseBranch(s, buf, o) == Some(br) <==> Reduced(br, s.q) && HoldsAt(buf, o, EncodeBranch(s, br))
  {
    hide HoldsAt, ScalarToBytes, ScalarFromBytes, Slice;
    PointAt(s, buf, o, br.a1);
    PointAt(s, buf, o + 96, br.a2);
    ScalarAt(s, buf, o + 192, br.e);
    ScalarAt(s, buf, o + 224, br.z);
    var a, b, c, d := s.encode2(br.a1), s.encode2(br.a2), ScalarToBytes(br.e, s.q), ScalarToBytes(br.z, s.q);
    HoldsConcat(buf, o, a, b);
    HoldsConcat(buf, o, a + b, c);
    HoldsConcat(buf, o, a + b + c, d);
  }

  lemma {:induction false} RangesLength(s: Suite, ranges: seq<seq<ORBranch>>, m: nat, n: nat)
    requires s.Valid() && RangesShaped(ranges, m, n, s.q)
    ensures |ranges| == m && |EncodeRanges(s, ranges)| == Span(m, n)
  {
    if m > 0 {
      RangesLength(s, ranges[..m - 1], m - 1, n);
      BranchesLength(s, ranges[m - 1]);
    }
  }

  lemma RangesShapedSnoc(front: seq<seq<ORBranch>>, last: seq<ORBranch>, m: nat, n: nat, q: int)
    ensures RangesShaped(front + [last], m + 1, n, q)
       <==> RangesShaped(front, m, n, q) && |last| == n && AllReduced(last, q)
  {
    var all := front + [last];
    if RangesShaped(all, m + 1, n, q) {
      assert all[m] == last;
      assert forall i :: 0 <= i < m ==> all[i] == front[i];
    }
  }

  lemma {:induction false} ParseRangesIff(s: Suite, buf: bytes, o: nat, m: nat, n: nat, ranges: seq<seq<ORBranch>>)
    requires s.Valid()
    ensures ParseRanges(s, buf, o, m, n) == Some(ranges) <==>
              RangesShaped(ranges, m, n, s.q) && HoldsAt(buf, o, EncodeRanges(s, ranges))
    decreases m
  {
    hide *;
    OrderPositive(s);
    if m == 0 {
      NoRanges(s, buf, o, n, ranges);
    } else {
      RangesStep(s, buf, o, m, n);
      var f, l := ParseRanges(s, buf, o, m - 1, n), ParseBranches(s, buf, o + Span(m - 1, n), n);
      if ParseRanges(s, buf, o, m, n) == Some(ranges) {
        ParseRangesIff(s, buf, o, m - 1, n, f.value);
        RangesSnoc(s, buf, o, f.value, l.value, m, n);
      }
      if RangesShaped(ranges, m, n, s.q) && HoldsAt(buf, o, EncodeRanges(s, ranges)) {
        RangesCount(ranges, m, n, s.q);
        var front, last := ranges[..m - 1], ranges[m - 1];
        assert ranges == front + [last];
        RangesSnoc(s, buf, o, front, last, m, n);
        ParseRangesIff(s, buf, o, m - 1, n, front);
      }
    }
  }

  lemma NoBranches(s: Suite, buf: bytes, o: nat, brs: seq<ORBranch>)
    requires s.q > 0
    ensures ParseBranches(s, buf, o, 0) == Some(brs) <==>
              |brs| == 0 && AllReduced(brs, s.q) && HoldsAt(buf, o, EncodeBranches(s, brs))
  {
  }

  lemma NoRanges(s: Suite, buf: bytes, o: nat, n: nat, ranges: seq<seq<ORBranch>>)
    requires s.q > 0
    ensures ParseRanges(s, buf, o, 0, n) == Some(ranges) <==>
              RangesShaped(ranges, 0, n, s.q) && HoldsAt(buf, o, EncodeRanges(s, ranges))
  {
  }

  lemma RangesStep(s: Suite, buf: bytes, o: nat, m: nat, n: nat)
    requires s.q > 0 && m > 0
    ensures var f, l := ParseRanges(s, buf, o, m - 1, n), ParseBranches(s, buf, o + Span(m - 1, n), n);
            ParseRanges(s, buf, o, m, n) == if f.None? || l.None? then None else Some(f.value + [l.value])
  {
    hide ParseBranches;
  }

  lemma BranchesStep(s: Suite, buf: bytes, o: nat, n: nat)
    requires s.q > 0 && n > 0
    ensures var f, l := ParseBranches(s, buf, o, n - 1), ParseBranch(s, buf, o + 256 * (n - 1));
            ParseBranches(s, buf, o, n) == if f.None? || l.None? then None else Some(f.value + [l.value])
  {
    hide ParseBranch;
  }

  lemma RangesCount(ranges: seq<seq<ORBranch>>, m: nat, n: nat, q: int)
    requires RangesShaped(ranges, m, n, q)
    ensures |ranges| == m
  {
  }

  lemma RangesSnoc(s: Suite, buf: bytes, o: nat, front: seq<seq<ORBranch>>, last: seq<ORBranch>, m: nat, n: nat)
    requires s.Valid() && m > 0
    ensures RangesShaped(front + [last], m, n, s.q) && HoldsAt(buf, o, EncodeRanges(s, front + [last]))
       <==> && RangesShaped(front, m - 1, n, s.q) && HoldsAt(buf, o, EncodeRanges(s, front))
            && ParseBranches(s, buf, o + Span(m - 1, n), n) == Some(last)
  {
    hide ParseBranches, EncodeBranches, HoldsAt, AllReduced, RangesShaped;
    var all := front + [last];
    assert all[..|all| - 1] == front && all[|all| - 1] == last;
    RangesShapedSnoc(front, last, m - 1, n, s.q);
    ParseBranchesIff(s, buf, o + Span(m - 1, n), n, last);
    if RangesShaped(front, m - 1, n, s.q) {
      RangesLength(s, front, m - 1, n);
    }
    HoldsConcat(buf, o, EncodeRanges(s, front), EncodeBranches(s, last));
  }

  lemma {:induction false} CountsIff(buf: bytes, o: nat, m: nat, count: nat)
    requires o + 2 * m <= |buf| && count < 0x1_0000
    ensures CountsRead(buf, o, m, count) <==> HoldsAt(buf, o, CountBytes(m, count))
  {
    if m > 0 {
      CountsIff(buf, o, m - 1, count);
      HoldsConcat(buf, o, CountBytes(m - 1, count), U16(count));
      Pow256Values();
      var w := Slice(buf, o + 2 * (m - 1), 2);
      FromTo(count, 2);
      ToFrom(w);
      assert CountAt(buf, o, m - 1) == FromBE(w);
      assert CountsRead(buf, o, m, count) <==>
        CountsRead(buf, o, m - 1, count) && CountAt(buf, o, m - 1) == count;
    }
  }

  /** A proof of exactly the shape the decoder expects, with reduced scalars. */
  ghost predicate Expected(p: ValidityProof, m: nat, n: nat, q: int)
  {
    RangesShaped(p.ranges, m, n, q) && 0 <= p.e < q && 0 <= p.z < q
  }

  lemma TailIff(s: Suite, buf: bytes, t: nat, e: int, z: int)
    requires s.Valid() && t + 65 == |buf|
    ensures (&& buf[t] == BUDGET_EXACT
             && ScalarFromBytes(Slice(buf, t + 1, 32), s.q) == Some(e)
             && ScalarFromBytes(Slice(buf, t + 33, 32), s.q) == Some(z))
       <==> 0 <= e < s.q && 0 <= z < s.q && HoldsAt(buf, t, BudgetBytes(s, e, z))
  {
    hide ScalarToBytes, ScalarFromBytes, Slice;
    ScalarAt(s, buf, t + 1, e);
    ScalarAt(s, buf, t + 33, z);
    var tag: bytes := [BUDGET_EXACT];
    assert HoldsAt(buf, t, tag) <==> buf[t] == BUDGET_EXACT by {
      assert buf[t..t + 1] == [buf[t]];
    }
    HoldsConcat(buf, t, tag, ScalarToBytes(e, s.q));
    HoldsConcat(buf, t, tag + ScalarToBytes(e, s.q), ScalarToBytes(z, s.q));
  }

  /** What Decode requires once the header has been matched, in one place. */
  lemma DecodeUnfold(s: Suite, buf: bytes, m: nat, n: nat, p: ValidityProof)
    requires s.Valid() && 0 < m < 0x1_0000 && n < 0x1_0000
    requires |buf| == 4 + 2 * m + Span(m, n) + 65
    requires buf[0] == BVP_VERSION && buf[1] == VARIANT_A && FromBE(buf[2..4]) == m
    ensures Decode(s, buf, m, n - 1) == Some(p) <==>
              && Expected(p, m, n, s.q)
              && HoldsAt(buf, 4, CountBytes(m, n))
              && HoldsAt(buf, 4 + 2 * m, EncodeRanges(s, p.ranges))
              && HoldsAt(buf, 4 + 2 * m + Span(m, n), BudgetBytes(s, p.e, p.z))
  {
    hide ParseRanges, EncodeRanges, HoldsAt, CountBytes, CountsRead, BudgetBytes, ScalarFromBytes, RangesShaped, Span,
         FromBE, Slice, Pow256, IsPoint;
    var t := 4 + 2 * m + Span(m, n);
    CountsIff(buf, 4, m, n);
    ParseRangesIff(s, buf, 4 + 2 * m, m, n, p.ranges);
    TailIff(s, buf, t, p.e, p.z);
  }

  /** The header of a buffer and of an encoding agree exactly when these bytes do. */
  lemma HeaderIff(buf: bytes, m: nat)
    requires |buf| >= 4 && m < 0x1_0000
    ensures buf[..4] == [BVP_VERSION, VARIANT_A] + U16(m) <==>
              buf[0] == BVP_VERSION && buf[1] == VARIANT_A && FromBE(buf[2..4]) == m
  {
    Pow256Values();
    FromTo(m, 2);
    ToFrom(buf[2..4]);
    var h := [BVP_VERSION, VARIANT_A] + U16(m);
    assert buf[..4] == [buf[0], buf[1]] + buf[2..4];
    if buf[..4] == h {
      assert h[2..] == U16(m) && buf[..4][2..] == buf[2..4];
      assert buf[..4][0] == buf[0] && buf[..4][1] == buf[1];
    }
  }

  lemma AcceptedLength(s: Suite, buf: bytes, m: nat, n: nat)
    requires s.q > 0 && Decode(s, buf, m, n - 1).Some?
    ensures |buf| == 4 + 2 * m + Span(m, n) + 65
  {
    hide ParseRanges, CountsRead;
  }

  /** The codec is a bijection between the expected proofs and the accepted buffers: a buffer
      decodes to a proof exactly when it is that proof's encoding. */
  lemma DecodeIff(s: Suite, buf: bytes, m: nat, n: nat, p: ValidityProof)
    requires s.Valid() && 0 < m < 0x1_0000 && n < 0x1_0000
    ensures Decode(s, buf, m, n - 1) == Some(p) <==> Expected(p, m, n, s.q) && buf == ProofBytes(s, p, n)
  {
    hide Decode, EncodeRanges, CountBytes, BudgetBytes, RangesShaped, FromBE, U16;
    var len := 4 + 2 * m + Span(m, n) + 65;
    if Decode(s, buf, m, n - 1) == Some(p) {
      AcceptedLength(s, buf, m, n);
      AcceptedHeader(s, buf, m, n);
      DecodeUnfold(s, buf, m, n, p);
      RangesLength(s, p.ranges, m, n);
      Reassemble(s, buf, m, n, p);
    }
    if Expected(p, m, n, s.q) && buf == ProofBytes(s, p, n) {
      RangesLength(s, p.ranges, m, n);
      Disassemble(s, buf, m, n, p);
      DecodeUnfold(s, buf, m, n, p);
    }
  }

  lemma AcceptedHeader(s: Suite, buf: bytes, m: nat, n: nat)
    requires s.q > 0 && Decode(s, buf, m, n - 1).Some?
    ensures |buf| >= 4 && buf[0] == BVP_VERSION && buf[1] == VARIANT_A && FromBE(buf[2..4]) == m
  {
    hide ParseRanges, CountsRead, FromBE;
  }

  lemma Reassemble(s: Suite, buf: bytes, m: nat, n: nat, p: ValidityProof)
    requires s.q > 0 && m < 0x1_0000 && |p.ranges| == m && |EncodeRanges(s, p.ranges)| == Span(m, n)
    requires |buf| == 4 + 2 * m + Span(m, n) + 65
    requires buf[0] == BVP_VERSION && buf[1] == VARIANT_A && FromBE(buf[2..4]) == m
    requires HoldsAt(buf, 4, CountBytes(m, n)) && HoldsAt(buf, 4 + 2 * m, EncodeRanges(s, p.ranges))
    requires HoldsAt(buf, 4 + 2 * m + Span(m, n), BudgetBytes(s, p.e, p.z))
    ensures buf == ProofBytes(s, p, n)
  {
    hide EncodeRanges, CountBytes, BudgetBytes, FromBE, U16;
    HeaderIff(buf, m);
    var c, r := 4 + 2 * m, 4 + 2 * m + Span(m, n);
    assert buf[4..c] == CountBytes(m, n) && buf[c..r] == EncodeRanges(s, p.ranges);
    assert buf[r..|buf|] == buf[r..];
    assert buf == buf[..4] + buf[4..c] + buf[c..r] + buf[r..];
  }

  lemma Disassemble(s: Suite, buf: bytes, m: nat, n: nat, p: ValidityProof)
    requires s.q > 0 && m < 0x1_0000 && |p.ranges| == m && |EncodeRanges(s, p.ranges)| == Span(m, n)
    requires buf == ProofBytes(s, p, n)
    ensures |buf| == 4 + 2 * m + Span(m, n) + 65
    ensures buf[0] == BVP_VERSION && buf[1] == VARIANT_A && FromBE(buf[2..4]) == m
    ensures HoldsAt(buf, 4, CountBytes(m, n)) && HoldsAt(buf, 4 + 2 * m, EncodeRanges(s, p.ranges))
    ensures HoldsAt(buf, 4 + 2 * m + Span(m, n), BudgetBytes(s, p.e, p.z))
  {
    hide EncodeRanges, CountBytes, BudgetBytes, FromBE, U16;
    var c, r := 4 + 2 * m, 4 + 2 * m + Span(m, n);
    var head: bytes := [BVP_VERSION, VARIANT_A] + U16(m);
    assert buf == head + CountBytes(m, n) + EncodeRanges(s, p.ranges) + BudgetBytes(s, p.e, p.z);
    assert buf[..4] == head;
    HoldsConcat(buf, 0, head, CountBytes(m, n));
    HoldsConcat(buf, 0, head + CountBytes(m, n), EncodeRanges(s, p.ranges));
    HoldsConcat(buf, 0, head + CountBytes(m, n) + EncodeRanges(s, p.ranges), BudgetBytes(s, p.e, p.z));
    assert HoldsAt(buf, 0, buf);
    HeaderIff(buf, m);
  }

  /** Decoding what was encoded gives the proof back. */
  lemma CodecRoundTrip(s: Suite, p: ValidityProof, m: nat, n: nat)
    requires s.Valid() && 0 < m < 0x1_0000 && n < 0x1_0000 && Expected(p, m, n, s.q)
    ensures Decode(s, ProofBytes(s, p, n), m, n - 1) == Some(p)
  {
    DecodeIff(s, ProofBytes(s, p, n), m, n, p);
  }
}
