/** Readers that walk the ballot list page by page (services/common/reads.py,
    services/gateway/gateway.py) and the dashboard's duplicate view
    (frontend/shared/src/vd/VotingDashboard.tsx). */
module Paging {
  import opened Field
  import opened Bytes
  import opened Election
  import opened Admission

  const BALLOT_PAGE: int := 1000
  const NONCE_SCAN_PAGE: int := 200
  const NONCE_SCAN_LIMIT: int := 1000

  /** What a server answers to list_ballots(start, count). One walk never asks for the same
      offset twice, so any sequence of replies is such a function. */
  type Pages = (int, int) -> seq<StoredBallot>

  ghost predicate Numbered(ballots: seq<StoredBallot>)
  {
    forall i :: 0 <= i < |ballots| ==> ballots[i].seqNo == i
  }

  /** A server that holds `ballots` and answers every request with a nonempty prefix of what was
      asked, however small its own page cap. */
  ghost predicate Serves(list: Pages, ballots: seq<StoredBallot>, total: int)
  {
    && total <= |ballots| && Numbered(ballots)
    && forall start, count :: 0 <= start && 0 < count && start + count <= total ==>
         list(start, count) != [] && list(start, count) <= ballots[start..start + count]
  }

  /** read_all_ballots; nothing where it raises. Whatever the server answers, what is returned
      is numbered 0..total-1; and a server that holds the ballots gets them returned whole. */
  method ReadAllBallots(total: int, list: Pages,
                        ghost ballots: seq<StoredBallot>) returns (r: Option<seq<StoredBallot>>)
    ensures r.Some? ==> |r.value| == (if total < 0 then 0 else total) && Numbered(r.value)
    ensures Serves(list, ballots, total) && total >= 0 ==> r == Some(ballots[..total])
  {
    var out: seq<StoredBallot> := [];
    var start := 0;
    while start < total
      invariant start == |out|
      invariant Serves(list, ballots, total) && total >= 0 ==> start <= total && out == ballots[..start]
      decreases total - start
    {
      var page := list(start, if BALLOT_PAGE < total - start then BALLOT_PAGE else total - start);
      if page == [] {
        return None;
      }
      out := out + page;
      start := start + |page|;
    }
    var ok := Contiguous(out, total);
    r := if ok then Some(out) else None;
  }

  /** got == list(range(total)). */
  method Contiguous(out: seq<StoredBallot>, total: int) returns (ok: bool)
    ensures ok <==> |out| == (if total < 0 then 0 else total) && Numbered(out)
  {
    if |out| != (if total < 0 then 0 else total) {
      return false;
    }
    for i := 0 to |out|
      invariant forall k :: 0 <= k < i ==> out[k].seqNo == k
    {
      if out[i].seqNo != i {
        return false;
      }
    }
    return true;
  }

  // ----- highest stored nonce -----

  ghost predicate NonceAt(ballots: seq<StoredBallot>, p: bytes, i: int, nonce: int)
  {
    0 <= i < |ballots| && Pseudonym(ballots[i]) == p && ballots[i].envelope.att.nonce == nonce
  }

  /** `best` is the largest of zero and the nonces of `p` at positions from..to-1. */
  ghost predicate MaxNonce(ballots: seq<StoredBallot>, p: bytes, from: int, to: int, best: int)
  {
    && best >= 0
    && (forall i, nonce :: from <= i < to && NonceAt(ballots, p, i, nonce) ==> nonce <= best)
    && (best == 0 || exists i :: from <= i < to && NonceAt(ballots, p, i, best))
  }

  function Larger(a: int, b: int): (m: int)
    ensures m >= a && m >= b && (m == a || m == b)
  {
    if a > b then a else b
  }

  function Smaller(a: int, b: int): (m: int)
    ensures m <= a && m <= b && (m == a || m == b)
  {
    if a < b then a else b
  }

  /** The oldest position scanned, and the rows asked for at an offset. */
  function Floor(total: nat): nat
  {
    Larger(0, total - NONCE_SCAN_LIMIT)
  }

  function RowsAt(total: nat, off: int): int
  {
    Smaller(NONCE_SCAN_PAGE, total - off)
  }

  /** The offsets asked for, newest page first. */
  function OffsetsFrom(off: int, floor: nat): (offs: seq<int>)
    requires off >= floor
    ensures forall i :: 0 <= i < |offs| ==> floor <= offs[i] <= off
    decreases off
  {
    if off == floor then [off] else [off] + OffsetsFrom(Larger(floor, off - NONCE_SCAN_PAGE), floor)
  }

  function FirstOffset(total: nat): int
    requires total > 0
  {
    Larger(Floor(total), ((total - 1) / NONCE_SCAN_PAGE) * NONCE_SCAN_PAGE)
  }

  function Offsets(total: nat): seq<int>
  {
    if total == 0 then [] else OffsetsFrom(FirstOffset(total), Floor(total))
  }

  /** The server answers the request at `off` with a row of pseudonym `p` carrying `nonce`. */
  ghost predicate Shows(list: Pages, total: nat, p: bytes, off: int, nonce: int)
  {
    exists sb :: sb in list(off, RowsAt(total, off)) && Pseudonym(sb) == p && sb.envelope.att.nonce == nonce
  }

  /** `best` is the largest of zero and the nonces of `p` in the rows shown at `offs`. */
  ghost predicate MaxShown(list: Pages, total: nat, p: bytes, offs: seq<int>, best: int)
  {
    && best >= 0
    && (forall off, nonce :: off in offs && Shows(list, total, p, off, nonce) ==> nonce <= best)
    && (best == 0 || exists off :: off in offs && Shows(list, total, p, off, best))
  }

  /** _max_stored_nonce: pages backwards from the newest ballot over at most the scan limit, and
      returns the largest nonce among the rows the server shows, whatever it shows. */
  method MaxStoredNonce(total: nat, list: Pages, p: bytes) returns (best: int)
    ensures MaxShown(list, total, p, Offsets(total), best)
  {
    hide MaxShown, OffsetsFrom, FirstOffset, Floor;
    best := 0;
    NothingShown(list, total, p);
    if total == 0 {
      return;
    }
    FirstInRange(total);
    var floor := Floor(total);
    var off := FirstOffset(total);
    ghost var asked: seq<int> := [];
    while off >= floor
      invariant off >= floor
      invariant asked + OffsetsFrom(off, floor) == Offsets(total)
      invariant MaxShown(list, total, p, asked, best)
      decreases off
    {
      OffsetsStep(off, floor);
      best := ScanPage(list, total, p, off, asked, best);
      asked := asked + [off];
      if off == floor {
        assert asked == Offsets(total);
        break;
      }
      off := Larger(floor, off - NONCE_SCAN_PAGE);
    }
  }

  lemma NothingShown(list: Pages, total: nat, p: bytes)
    ensures MaxShown(list, total, p, [], 0)
  {
  }

  lemma OffsetsStep(off: int, floor: nat)
    requires off >= floor
    ensures OffsetsFrom(off, floor)
         == if off == floor then [off] else [off] + OffsetsFrom(Larger(floor, off - NONCE_SCAN_PAGE), floor)
  {
  }

  /** The loop over one page. */
  method ScanPage(list: Pages, total: nat, p: bytes, off: int, ghost asked: seq<int>, soFar: int) returns (best: int)
    requires MaxShown(list, total, p, asked, soFar)
    ensures MaxShown(list, total, p, asked + [off], best)
  {
    best := soFar;
    var page := list(off, RowsAt(total, off));
    for i := 0 to |page|
      invariant best >= soFar
      invariant forall k :: 0 <= k < i && Pseudonym(page[k]) == p ==> page[k].envelope.att.nonce <= best
      invariant best == soFar || Shows(list, total, p, off, best)
    {
      var sb := page[i];
      if Pseudonym(sb) == p && sb.envelope.att.nonce > best {
        best := sb.envelope.att.nonce;
        assert Shows(list, total, p, off, best);
      }
    }
    PageScanned(list, total, p, off, asked, soFar, best);
  }

  lemma PageScanned(list: Pages, total: nat, p: bytes, off: int, asked: seq<int>, soFar: int, best: int)
    requires MaxShown(list, total, p, asked, soFar) && best >= soFar
    requires var page := list(off, RowsAt(total, off));
             forall k :: 0 <= k < |page| && Pseudonym(page[k]) == p ==> page[k].envelope.att.nonce <= best
    requires best == soFar || Shows(list, total, p, off, best)
    ensures MaxShown(list, total, p, asked + [off], best)
  {
    var all := asked + [off];
    assert forall x :: x in all <==> x in asked || x == off;
    forall x, nonce | x in all && Shows(list, total, p, x, nonce) ensures nonce <= best {
    }
    if best != 0 {
      if best == soFar {
        var x :| x in asked && Shows(list, total, p, x, best);
        assert x in all;
      } else {
        assert off in all;
      }
    }
  }

  /** A server that holds `ballots` and never answers with more than `cap` rows. */
  ghost predicate Capped(list: Pages, ballots: seq<StoredBallot>, cap: nat)
  {
    forall start, count :: 0 <= start && 0 <= count && start + count <= |ballots| ==>
      list(start, count) == ballots[start..start + Smaller(cap, count)]
  }

  /** A server whose cap is at least the page size shows the whole window: the result is the
      maximum over exactly the last min(total, 1000) ballots. */
  lemma FullPagesGiveMaximum(list: Pages, ballots: seq<StoredBallot>, cap: nat, p: bytes, best: int)
    requires Capped(list, ballots, cap) && cap >= NONCE_SCAN_PAGE
    requires MaxShown(list, |ballots|, p, Offsets(|ballots|), best)
    ensures MaxNonce(ballots, p, Floor(|ballots|), |ballots|, best)
    ensures MaxNonce(ballots, p, if |ballots| <= 1000 then 0 else |ballots| - 1000, |ballots|, best)
  {
    hide Shows, Offsets, Capped, NonceAt;
    var total := |ballots|;
    forall i, nonce | Floor(total) <= i < total && NonceAt(ballots, p, i, nonce) ensures nonce <= best {
      var off := PositionShown(list, ballots, cap, p, i, nonce);
    }
    if best != 0 {
      var off :| off in Offsets(total) && Shows(list, total, p, off, best);
      var i := ShownPosition(list, ballots, cap, p, off, best);
    }
  }

  /** What is stored in the window is shown. */
  lemma PositionShown(list: Pages, ballots: seq<StoredBallot>, cap: nat, p: bytes, i: int,
                      nonce: int) returns (off: int)
    requires Capped(list, ballots, cap) && cap >= NONCE_SCAN_PAGE
    requires Floor(|ballots|) <= i < |ballots| && NonceAt(ballots, p, i, nonce)
    ensures off in Offsets(|ballots|) && Shows(list, |ballots|, p, off, nonce)
  {
    hide Offsets, Capped, Floor;
    off := OffsetOf(|ballots|, i);
    PageShows(list, ballots, cap, off);
    var page := list(off, RowsAt(|ballots|, off));
    assert page[i - off] == ballots[i];
    assert ballots[i] in page;
  }

  /** What is shown is stored in the window. */
  lemma ShownPosition(list: Pages, ballots: seq<StoredBallot>, cap: nat, p: bytes, off: int,
                      nonce: int) returns (i: int)
    requires Capped(list, ballots, cap) && cap >= NONCE_SCAN_PAGE
    requires off in Offsets(|ballots|) && Shows(list, |ballots|, p, off, nonce)
    ensures Floor(|ballots|) <= i < |ballots| && NonceAt(ballots, p, i, nonce)
  {
    hide Offsets, Capped, Floor;
    PageShows(list, ballots, cap, off);
    var page := list(off, RowsAt(|ballots|, off));
    var sb :| sb in page && Pseudonym(sb) == p && sb.envelope.att.nonce == nonce;
    var k :| 0 <= k < |page| && page[k] == sb;
    i := off + k;
  }

  lemma PageShows(list: Pages, ballots: seq<StoredBallot>, cap: nat, off: int)
    requires Capped(list, ballots, cap) && cap >= NONCE_SCAN_PAGE && off in Offsets(|ballots|)
    ensures Floor(|ballots|) <= off < |ballots|
    ensures list(off, RowsAt(|ballots|, off)) == ballots[off..off + RowsAt(|ballots|, off)]
  {
    FirstInRange(|ballots|);
  }

  lemma FirstInRange(total: nat)
    requires total > 0
    ensures Floor(total) <= FirstOffset(total) < total <= FirstOffset(total) + NONCE_SCAN_PAGE
  {
  }

  /** Every position of the window lies on a page that is asked for. */
  lemma OffsetOf(total: nat, i: int) returns (off: int)
    requires Floor(total) <= i < total
    ensures off in Offsets(total) && off <= i < off + RowsAt(total, off)
  {
    FirstInRange(total);
    off := OffsetFrom(FirstOffset(total), Floor(total), i);
  }

  lemma {:induction false} OffsetFrom(first: int, floor: nat, i: int) returns (off: int)
    requires floor <= first && floor <= i < first + NONCE_SCAN_PAGE
    ensures off in OffsetsFrom(first, floor) && off <= i < off + NONCE_SCAN_PAGE
    decreases first
  {
    if i >= first {
      off := first;
    } else {
      off := OffsetFrom(Larger(floor, first - NONCE_SCAN_PAGE), floor, i);
    }
  }

  /** `best` is what the scan returns for `p` on a server with that list and cap. */
  ghost predicate Scans(list: Pages, ballots: seq<StoredBallot>, cap: nat, p: bytes, best: int)
  {
    && Capped(list, ballots, cap) && Numbered(ballots)
    && MaxShown(list, |ballots|, p, Offsets(|ballots|), best)
  }

  /** The exact condition on a server: the scan finds the window's maximum on every list if and
      only if the server's page cap reaches the scan's page size. */
  lemma CapSufficesIff(cap: nat, sample: StoredBallot)
    requires cap >= 1
    ensures cap >= NONCE_SCAN_PAGE <==>
              forall list, ballots, p, best ::
                Scans(list, ballots, cap, p, best) ==>
                  MaxNonce(ballots, p, Floor(|ballots|), |ballots|, best)
  {
    if cap >= NONCE_SCAN_PAGE {
      forall list, ballots, p, best |
        Scans(list, ballots, cap, p, best)
        ensures MaxNonce(ballots, p, Floor(|ballots|), |ballots|, best)
      {
        FullPagesGiveMaximum(list, ballots, cap, p, best);
      }
    } else {
      SmallCapMisses(cap, sample);
    }
  }

  /** The sample as the ballot stored at position `i`, with the given nonce. */
  function AsRow(sample: StoredBallot, i: int, nonce: int): StoredBallot
  {
    StoredBallot(i, sample.envelope.(att := sample.envelope.att.(nonce := nonce)), sample.submittedAt)
  }

  function CapServer(ballots: seq<StoredBallot>, cap: nat): Pages
  {
    (start: int, count: int) =>
      if 0 <= start && 0 <= count && start + count <= |ballots| then ballots[start..start + Smaller(cap, count)] else []
  }

  /** One ballot more than the cap, the newest with the only positive nonce: it is not shown. */
  lemma SmallCapMisses(cap: nat, sample: StoredBallot)
    requires 1 <= cap < NONCE_SCAN_PAGE
    ensures exists list, ballots, p, best ::
              && Scans(list, ballots, cap, p, best)
              && !MaxNonce(ballots, p, Floor(|ballots|), |ballots|, best)
  {
    hide Offsets, MaxShown, MaxNonce, Capped;
    var ballots := Buried(cap, sample);
    var list := CapServer(ballots, cap);
    ServerIsCapped(ballots, cap);
    OneOffset(|ballots|);
    BuriedUnseen(cap, sample);
    assert Scans(list, ballots, cap, Pseudonym(sample), 0);
    assert !MaxNonce(ballots, Pseudonym(sample), Floor(|ballots|), |ballots|, 0);
  }

  function Buried(cap: nat, sample: StoredBallot): (ballots: seq<StoredBallot>)
    ensures |ballots| == cap + 1
    ensures Numbered(ballots)
  {
    seq(cap, i => AsRow(sample, i, 0)) + [AsRow(sample, cap, 1)]
  }

  lemma ServerIsCapped(ballots: seq<StoredBallot>, cap: nat)
    ensures Capped(CapServer(ballots, cap), ballots, cap)
  {
  }

  lemma OneOffset(total: nat)
    requires 1 <= total <= NONCE_SCAN_PAGE
    ensures Offsets(total) == [0] && RowsAt(total, 0) == total && Floor(total) == 0
  {
  }

  lemma BuriedUnseen(cap: nat, sample: StoredBallot)
    requires 1 <= cap < NONCE_SCAN_PAGE
    ensures var ballots, p := Buried(cap, sample), Pseudonym(sample);
            && MaxShown(CapServer(ballots, cap), |ballots|, p, [0], 0)
            && !MaxNonce(ballots, p, 0, |ballots|, 0)
  {
    var ballots, p := Buried(cap, sample), Pseudonym(sample);
    var page := CapServer(ballots, cap)(0, RowsAt(|ballots|, 0));
    OneOffset(|ballots|);
    assert 0 + Smaller(cap, cap + 1) == cap;
    assert page == ballots[0..cap];
    forall sb | sb in page ensures sb.envelope.att.nonce == 0 {
      var k :| 0 <= k < cap && page[k] == sb;
    }
    assert NonceAt(ballots, p, cap, 1);
  }

  // ----- the dashboard -----

  datatype Dedup = Dedup(superseded: set<int>, revoted: set<bytes>, counted: nat)

  ghost function Pseudonyms(all: seq<StoredBallot>): set<bytes>
  {
    set i | 0 <= i < |all| :: Pseudonym(all[i])
  }

  ghost predicate VotedTwice(all: seq<StoredBallot>, p: bytes)
  {
    exists i, k :: 0 <= i < k < |all| && Pseudonym(all[i]) == p && Pseudonym(all[k]) == p
  }

  /** `w` is the last of the highest-nonce positions of its pseudonym among the first `n`. */
  ghost predicate Winner(all: seq<StoredBallot>, n: nat, w: int)
  {
    && 0 <= w < n <= |all|
    && forall i :: 0 <= i < n && Pseudonym(all[i]) == Pseudonym(all[w]) ==>
         all[i].envelope.att.nonce < all[w].envelope.att.nonce
         || (all[i].envelope.att.nonce == all[w].envelope.att.nonce && i <= w)
  }

  ghost predicate WinnersTo(all: seq<StoredBallot>, n: nat, winner: map<bytes, int>)
    requires n <= |all|
  {
    && winner.Keys == Pseudonyms(all[..n])
    && forall p :: p in winner ==> Winner(all, n, winner[p]) && Pseudonym(all[winner[p]]) == p
  }

  ghost predicate CountsTo(all: seq<StoredBallot>, n: nat, seen: map<bytes, nat>)
    requires n <= |all|
  {
    && seen.Keys == Pseudonyms(all[..n])
    && forall p :: p in seen ==> seen[p] > 0 && (seen[p] > 1 <==> VotedTwice(all[..n], p))
  }

  method WinnersAndCounts(all: seq<StoredBallot>) returns (winner: map<bytes, int>, seen: map<bytes, nat>)
    ensures WinnersTo(all, |all|, winner) && CountsTo(all, |all|, seen)
  {
    winner, seen := map[], map[];
    for i := 0 to |all|
      invariant WinnersTo(all, i, winner) && CountsTo(all, i, seen)
    {
      hide Winner, VotedTwice, Pseudonyms;
      var p := Pseudonym(all[i]);
      CountsStep(all, i, seen);
      seen := seen[p := (if p in seen then seen[p] else 0) + 1];
      assert p in winner ==> 0 <= winner[p] < i by {
        InRange(all, i, winner);
      }
      WinnersStep(all, i, winner);
      if p !in winner || all[i].envelope.att.nonce >= all[winner[p]].envelope.att.nonce {
        winner := winner[p := i];
      }
    }
  }

  lemma InRange(all: seq<StoredBallot>, i: nat, winner: map<bytes, int>)
    requires i <= |all| && WinnersTo(all, i, winner)
    ensures forall p :: p in winner ==> 0 <= winner[p] < i
  {
  }

  lemma CountsStep(all: seq<StoredBallot>, i: nat, seen: map<bytes, nat>)
    requires i < |all| && CountsTo(all, i, seen)
    ensures var p := Pseudonym(all[i]);
            CountsTo(all, i + 1, seen[p := (if p in seen then seen[p] else 0) + 1])
  {
    hide VotedTwice, Pseudonyms;
    OneMore(all, i);
    NotTwice(all[..i]);
  }

  lemma WinnersStep(all: seq<StoredBallot>, i: nat, winner: map<bytes, int>)
    requires i < |all| && WinnersTo(all, i, winner)
    ensures forall p :: p in winner ==> 0 <= winner[p] < i
    ensures var p := Pseudonym(all[i]);
            WinnersTo(all, i + 1, if p !in winner || all[i].envelope.att.nonce >= all[winner[p]].envelope.att.nonce
                                  then winner[p := i] else winner)
  {
    hide VotedTwice, Pseudonyms;
    OneMore(all, i);
    var p := Pseudonym(all[i]);
    forall k | 0 <= k < i && Pseudonym(all[k]) == p ensures p in winner {
      IsVoter(all, i, k);
    }
    assert p in winner ==> Winner(all, i, winner[p]);
  }

  lemma IsVoter(all: seq<StoredBallot>, n: nat, k: nat)
    requires k < n <= |all|
    ensures Pseudonym(all[k]) in Pseudonyms(all[..n])
  {
    assert all[..n][k] == all[k];
  }

  lemma NotTwice(all: seq<StoredBallot>)
    ensures forall p :: VotedTwice(all, p) ==> p in Pseudonyms(all)
  {
  }

  lemma OneMore(all: seq<StoredBallot>, i: nat)
    requires i < |all|
    ensures Pseudonyms(all[..i + 1]) == Pseudonyms(all[..i]) + {Pseudonym(all[i])}
    ensures forall p :: VotedTwice(all[..i + 1], p) <==>
              VotedTwice(all[..i], p) || (p == Pseudonym(all[i]) && p in Pseudonyms(all[..i]))
  {
    hide VotedTwice, Pseudonyms;
    assert all[..i + 1] == all[..i] + [all[i]];
    OneMoreVoter(all[..i], all[i]);
    forall p {
      OneMoreTwice(all[..i], all[i], p);
    }
  }

  lemma OneMoreVoter(a: seq<StoredBallot>, sb: StoredBallot)
    ensures Pseudonyms(a + [sb]) == Pseudonyms(a) + {Pseudonym(sb)}
  {
    var b := a + [sb];
    forall p ensures p in Pseudonyms(b) <==> p in Pseudonyms(a) + {Pseudonym(sb)} {
      if p in Pseudonyms(a) {
        var x :| 0 <= x < |a| && Pseudonym(a[x]) == p;
        assert b[x] == a[x];
      }
      assert b[|a|] == sb;
      if p in Pseudonyms(b) {
        var x :| 0 <= x < |b| && Pseudonym(b[x]) == p;
        assert x < |a| ==> a[x] == b[x];
      }
    }
  }

  lemma OneMoreTwice(a: seq<StoredBallot>, sb: StoredBallot, p: bytes)
    ensures VotedTwice(a + [sb], p) <==> VotedTwice(a, p) || (p == Pseudonym(sb) && p in Pseudonyms(a))
  {
    var b := a + [sb];
    if x, y :| 0 <= x < y < |b| && Pseudonym(b[x]) == p && Pseudonym(b[y]) == p {
      assert a[x] == b[x];
      assert y < |a| ==> a[y] == b[y];
    }
    if x, y :| 0 <= x < y < |a| && Pseudonym(a[x]) == p && Pseudonym(a[y]) == p {
      assert b[x] == a[x] && b[y] == a[y];
    }
    if p == Pseudonym(sb) && p in Pseudonyms(a) {
      var x :| 0 <= x < |a| && Pseudonym(a[x]) == p;
      assert b[x] == a[x] && b[|a|] == sb;
    }
  }

  /** computeBallotDedup: it supersedes exactly the ballots the last-wins rule displaces. */
  method ComputeBallotDedup(all: seq<StoredBallot>) returns (r: Dedup)
    requires Numbered(all)
    ensures forall i :: i in r.superseded <==> 0 <= i < |all| && !Best(LastWins, all, all[i])
    ensures forall p :: p in r.revoted <==> VotedTwice(all, p)
    ensures r.counted == |Pseudonyms(all)|
  {
    hide Best, Winner, Pseudonyms, VotedTwice;
    var winner, seen := WinnersAndCounts(all);
    assert all[..|all|] == all;
    var superseded: set<int> := {};
    for i := 0 to |all|
      invariant forall k :: k in superseded <==> 0 <= k < i && !Best(LastWins, all, all[k])
    {
      var p := Pseudonym(all[i]);
      IsVoter(all, |all|, i);
      WinnerIsBest(all, winner[p], i);
      if winner[p] != i {
        superseded := superseded + {i};
      }
    }
    var revoted := set p | p in seen && seen[p] > 1;
    NotTwice(all);
    r := Dedup(superseded, revoted, |winner|);
  }

  lemma WinnerIsBest(all: seq<StoredBallot>, w: int, i: nat)
    requires Numbered(all) && Winner(all, |all|, w) && i < |all| && Pseudonym(all[i]) == Pseudonym(all[w])
    ensures Best(LastWins, all, all[i]) <==> w == i
  {
    assert all[w] in all;
    forall o | o in all && Pseudonym(o) == Pseudonym(all[w]) ensures !Beats(LastWins, o, all[w]) {
      var k :| 0 <= k < |all| && all[k] == o;
    }
    if w != i {
      assert Beats(LastWins, all[w], all[i]);
    }
  }

  /** On an all-valid list the dashboard greys out exactly the ballots that admission excludes
      as duplicates. */
  lemma DashboardMatchesAdmission(all: seq<StoredBallot>, judge: StoredBallot -> Judgement, i: nat)
    requires Numbered(all) && i < |all| && forall sb :: sb in all ==> judge(sb) == Valid
    ensures !Best(LastWins, all, all[i]) <==> Exclusion(i, ReasonDuplicate) in Admit(all, judge, LastWins).exclusions
  {
    hide Admit, Beats;
    assert DistinctSeq(all);
    ExclusionsIff(all, judge, LastWins);
    var x := Exclusion(i, ReasonDuplicate);
    assert all[i] in all;
    if !Best(LastWins, all, all[i]) {
      assert ExcludedAs(SetOf(all), judge, LastWins, all[i], x);
    }
    if x in Admit(all, judge, LastWins).exclusions {
      var sb :| ExcludedAs(SetOf(all), judge, LastWins, sb, x);
      SameSeqSameBallot(all, sb, all[i]);
    }
  }
}
