/** One keyper's key-generation inbox within one ceremony attempt
    (services/keyper/keyper_server.py): signed commitments and shares arrive in any order, round 2
    may be run repeatedly, and complaints open a repair path. */
module KeyperInbox {
  import opened Field
  import opened Group
  import opened Polynomial
  import opened Bytes
  import opened Transcripts
  import opened Sums
  import opened Quorum
  import opened Dkg

  /** The keyper and the committee it verifies against. */
  datatype Seat = Seat(me: int, quorum: int, members: seq<bytes>)
  {
    predicate Valid()
    {
      1 <= me <= |members| && quorum >= 1
    }
  }

  datatype Box = Box(commitments: Commitments, shares: map<int, int>, complained: set<int>, combined: Option<int>)

  /** A request; `signer` is the identity its signature recovers to, a missing share one that
      cannot be unsealed. */
  datatype Request =
    | CommitmentsFrom(dealer: int, incoming: seq<bytes>, signer: Option<bytes>)
    | ShareFrom(dealer: int, recipient: int, share: Option<int>, signer: Option<bytes>)
    | RunRound2

  datatype InboxReply = Accepts | BadRequest | Unauthorized | Differs | ServerError | Complains(dealers: set<int>)

  function MemberAddress(seat: Seat, i: int): Option<bytes>
  {
    if 1 <= i <= |seat.members| then Some(seat.members[i - 1]) else None
  }

  predicate SignedBy(seat: Seat, dealer: int, signer: Option<bytes>)
  {
    MemberAddress(seat, dealer).Some? && signer == MemberAddress(seat, dealer)
  }

  function DecodePoints(s: Suite, bs: seq<bytes>): (r: Option<seq<Point>>)
    ensures r.Some? ==> |r.value| == |bs|
  {
    if bs == [] then Some([])
    else
      var front, last := DecodePoints(s, bs[..|bs| - 1]), s.decode2(bs[|bs| - 1]);
      if front.None? || last.None? then None else Some(front.value + [last.value])
  }

  function EncodePoints(s: Suite, ps: seq<Point>): (bs: seq<bytes>)
    ensures |bs| == |ps|
  {
    seq(|ps|, i requires 0 <= i < |ps| => s.encode2(ps[i]))
  }

  ghost function ReceiveCommitments(s: Suite, seat: Seat, box: Box, dealer: int, incoming: seq<bytes>,
                                    signer: Option<bytes>): (Box, InboxReply)
  {
    if !SignedBy(seat, dealer, signer) then (box, Unauthorized)
    else if |incoming| != seat.quorum then (box, BadRequest)
    else if dealer in box.commitments then
      (box, if EncodePoints(s, box.commitments[dealer]) != incoming then Differs else Accepts)
    else
      match DecodePoints(s, incoming)
      case None => (box, ServerError)
      case Some(points) => (box.(commitments := box.commitments[dealer := points]), Accepts)
  }

  /** A stored share gives way only to one that verifies, and only after a complaint. */
  ghost predicate MayReplace(s: Suite, seat: Seat, box: Box, dealer: int, share: int)
    requires s.q > 1
  {
    && dealer in box.complained && dealer in box.commitments && box.commitments[dealer] != []
    && ShareMatches(box.commitments[dealer], seat.me, share, s.q)
  }

  ghost function ReceiveShare(s: Suite, seat: Seat, box: Box, dealer: int, recipient: int, share: Option<int>,
                              signer: Option<bytes>): (Box, InboxReply)
    requires s.q > 1
  {
    if share.None? || recipient != seat.me then (box, BadRequest)
    else if !SignedBy(seat, dealer, signer) then (box, Unauthorized)
    else if dealer in box.shares && box.shares[dealer] != share.value && !MayReplace(s, seat, box, dealer, share.value)
      then (box, Differs)
    else (box.(shares := box.shares[dealer := share.value]), Accepts)
  }

  ghost function Round2Once(s: Suite, seat: Seat, box: Box): (Box, InboxReply)
    requires s.q > 1
  {
    if Round2Accepts(box.commitments, box.shares, seat.me, seat.quorum, s.q)
    then (box.(combined := Some(Rem(SumMap(box.shares), s.q))), Accepts)
    else
      var bad := BadDealers(box.commitments, box.shares, seat.me, seat.quorum, s.q);
      (box.(complained := box.complained + bad), Complains(bad))
  }

  ghost function Handle(s: Suite, seat: Seat, box: Box, m: Request): (Box, InboxReply)
    requires s.q > 1
  {
    match m
    case CommitmentsFrom(dealer, incoming, signer) => ReceiveCommitments(s, seat, box, dealer, incoming, signer)
    case ShareFrom(dealer, recipient, share, signer) => ReceiveShare(s, seat, box, dealer, recipient, share, signer)
    case RunRound2 => Round2Once(s, seat, box)
  }

  /** What round 1 leaves behind: the keyper's own commitments and own share. A secret combined
      in an earlier attempt stays. */
  function FreshBox(seat: Seat, own: seq<Point>, share: int, combined: Option<int>): Box
  {
    Box(map[seat.me := own], map[seat.me := share], {}, combined)
  }

  /** The inbox as the service holds it: dictionaries updated in place under a lock. */
  class Inbox {
    const seat: Seat
    var commitments: Commitments
    var shares: map<int, int>
    var complained: set<int>
    var combined: Option<int>

    ghost function Contents(): Box
      reads this
    {
      Box(commitments, shares, complained, combined)
    }

    ghost predicate Valid()
      reads this
    {
      seat.Valid() && BoxInv(seat, Contents())
    }

    /** The first round 1. */
    constructor (at: Seat, own: seq<Point>, share: int)
      requires at.Valid() && |own| == at.quorum
      ensures Valid() && seat == at && Contents() == FreshBox(at, own, share, None)
    {
      seat := at;
      commitments, shares := map[at.me := own], map[at.me := share];
      complained, combined := {}, None;
    }

    /** Any later round 1: the inbox starts over, the completed secret stays. */
    method HandleRound1(own: seq<Point>, share: int)
      requires Valid() && |own| == seat.quorum
      modifies this
      ensures Valid() && Contents() == FreshBox(seat, own, share, old(combined))
    {
      commitments, shares, complained := map[seat.me := own], map[seat.me := share], {};
    }

    method HandleCommitments(s: Suite, dealer: int, incoming: seq<bytes>, signer: Option<bytes>) returns (r: InboxReply)
      requires s.q > 1 && Valid()
      modifies this
      ensures Valid()
      ensures (Contents(), r) == Handle(s, seat, old(Contents()), CommitmentsFrom(dealer, incoming, signer))
    {
      HandleKeepsInv(s, seat, Contents(), CommitmentsFrom(dealer, incoming, signer));
      hide BoxInv;
      if !SignedBy(seat, dealer, signer) {
        return Unauthorized;
      }
      if |incoming| != seat.quorum {
        return BadRequest;
      }
      if dealer in commitments {
        return if EncodePoints(s, commitments[dealer]) != incoming then Differs else Accepts;
      }
      var points := DecodeAll(s, incoming);
      if points.None? {
        return ServerError;
      }
      commitments := commitments[dealer := points.value];
      return Accepts;
    }

    method HandleShare(s: Suite, dealer: int, recipient: int, share: Option<int>,
                       signer: Option<bytes>) returns (r: InboxReply)
      requires s.q > 1 && Valid()
      modifies this
      ensures Valid()
      ensures (Contents(), r) == Handle(s, seat, old(Contents()), ShareFrom(dealer, recipient, share, signer))
    {
      hide ShareMatches, BoxInv;
      HandleKeepsInv(s, seat, Contents(), ShareFrom(dealer, recipient, share, signer));
      if share.None? || recipient != seat.me {
        return BadRequest;
      }
      if !SignedBy(seat, dealer, signer) {
        return Unauthorized;
      }
      if dealer in shares && shares[dealer] != share.value {
        var repairable := false;
        if dealer in complained && dealer in commitments && commitments[dealer] != [] {
          repairable := VerifyShare(commitments[dealer], recipient, share.value, s.q);
        }
        if !repairable {
          return Differs;
        }
      }
      shares := shares[dealer := share.value];
      return Accepts;
    }

    method HandleRound2(s: Suite) returns (r: InboxReply)
      requires s.q > 1 && Valid()
      modifies this
      ensures Valid()
      ensures (Contents(), r) == Handle(s, seat, old(Contents()), RunRound2)
    {
      hide DealerOk, BoxInv;
      HandleKeepsInv(s, seat, Contents(), RunRound2);
      var bad, sum := VerifyAll(commitments, shares, seat.me, seat.quorum, s.q);
      NoBadDealers(commitments, shares, seat.me, seat.quorum, s.q);
      if bad != {} {
        complained := complained + bad;
        return Complains(bad);
      }
      combined := Some(Rem(sum, s.q));
      return Accepts;
    }
  }

  lemma NoBadDealers(all: Commitments, received: map<int, int>, me: int, quorum: int, q: int)
    requires q > 1
    ensures BadDealers(all, received, me, quorum, q) == {} <==> Round2Accepts(all, received, me, quorum, q)
  {
    hide DealerOk;
    var bad := BadDealers(all, received, me, quorum, q);
    if bad == {} {
      forall d | d in received ensures DealerOk(all, d, received[d], me, quorum, q) {
        assert d !in bad;
      }
    }
  }

  method DecodeAll(s: Suite, bs: seq<bytes>) returns (r: Option<seq<Point>>)
    ensures r == DecodePoints(s, bs)
  {
    var out: seq<Point> := [];
    for i := 0 to |bs|
      invariant DecodePoints(s, bs[..i]) == Some(out)
    {
      assert bs[..i + 1][..i] == bs[..i];
      var p := s.decode2(bs[i]);
      if p.None? {
        NeverDecodes(s, bs, i + 1);
        return None;
      }
      out := out + [p.value];
    }
    assert bs[..|bs|] == bs;
    r := Some(out);
  }

  lemma {:induction false} NeverDecodes(s: Suite, bs: seq<bytes>, k: nat)
    requires k <= |bs| && DecodePoints(s, bs[..k]).None?
    ensures DecodePoints(s, bs).None?
    decreases |bs|
  {
    if k == |bs| {
      assert bs[..k] == bs;
    } else {
      assert bs[..|bs| - 1][..k] == bs[..k];
      NeverDecodes(s, bs[..|bs| - 1], k);
    }
  }

  // ----- runs of one attempt -----

  ghost function Deliver(s: Suite, seat: Seat, box: Box, run: seq<Request>): Box
    requires s.q > 1
    decreases |run|
  {
    if run == [] then box else Deliver(s, seat, Handle(s, seat, box, run[0]).0, run[1..])
  }

  /** Only committee members are ever filed, and every commitment vector has the right length. */
  ghost predicate BoxInv(seat: Seat, box: Box)
  {
    && box.commitments.Keys <= Range(|seat.members|) && box.shares.Keys <= Range(|seat.members|)
    && LengthsOk(box.commitments, seat.quorum)
  }

  lemma HandleKeepsInv(s: Suite, seat: Seat, box: Box, m: Request)
    requires s.q > 1 && BoxInv(seat, box)
    ensures BoxInv(seat, Handle(s, seat, box, m).0)
  {
    hide MayReplace, Round2Accepts, BadDealers, SumMap;
  }

  lemma {:induction false} DeliverKeepsInv(s: Suite, seat: Seat, box: Box, run: seq<Request>)
    requires s.q > 1 && BoxInv(seat, box)
    ensures BoxInv(seat, Deliver(s, seat, box, run))
    decreases |run|
  {
    hide Handle, BoxInv;
    if run != [] {
      HandleKeepsInv(s, seat, box, run[0]);
      DeliverKeepsInv(s, seat, Handle(s, seat, box, run[0]).0, run[1..]);
    }
  }

  /** What one message can do to a dealer's entries: commitments stay, and a share changes only
      after a complaint, into one that verifies. */
  lemma ShareReplacedOnlyByRepair(s: Suite, seat: Seat, box: Box, m: Request, dealer: int)
    requires s.q > 1
    ensures var after := Handle(s, seat, box, m).0;
            && (dealer in box.commitments ==>
                  dealer in after.commitments && after.commitments[dealer] == box.commitments[dealer])
            && box.complained <= after.complained
            && (dealer in box.shares ==>
                  && dealer in after.shares
                  && (|| after.shares[dealer] == box.shares[dealer]
                      || (&& dealer in box.complained && dealer in box.commitments && box.commitments[dealer] != []
                          && Cong(Eval(box.commitments[dealer], seat.me), after.shares[dealer], s.q))))
  {
    hide Eval, Round2Accepts, BadDealers, SumMap, EncodePoints, DecodePoints;
  }

  /** Who can change a dealer's entries, and how: its commitments only a first vector of the right
      length under the dealer's own signature, its share only a sealed one addressed here under
      that signature; complaints and the combined share only round 2. */
  lemma InboxAuthority(s: Suite, seat: Seat, box: Box, m: Request, dealer: int)
    requires s.q > 1
    ensures var after := Handle(s, seat, box, m).0;
            var genuine := 1 <= dealer <= |seat.members| && !m.RunRound2?
                           && m.dealer == dealer && m.signer == Some(seat.members[dealer - 1]);
            && (dealer in after.commitments && dealer !in box.commitments ==>
                  && genuine && m.CommitmentsFrom? && |m.incoming| == seat.quorum
                  && DecodePoints(s, m.incoming) == Some(after.commitments[dealer]))
            && (dealer in after.shares && (dealer in box.shares ==> box.shares[dealer] != after.shares[dealer]) ==>
                  genuine && m.ShareFrom? && m.recipient == seat.me && m.share == Some(after.shares[dealer]))
            && (dealer in after.complained && dealer !in box.complained ==>
                  && m.RunRound2? && dealer in box.shares
                  && !DealerOk(box.commitments, dealer, box.shares[dealer], seat.me, seat.quorum, s.q))
            && (after.combined != box.combined ==>
                  m.RunRound2? && Round2Accepts(box.commitments, box.shares, seat.me, seat.quorum, s.q))
  {
    hide ShareMatches, SumMap, EncodePoints, DecodePoints, DealerOk, Round2Accepts;
  }

  /** A dealer's own first commitments that decode are filed as decoded; an identical repetition
      changes nothing and any other vector is refused. */
  lemma GenuineCommitmentsFiled(s: Suite, seat: Seat, box: Box, dealer: int, points: seq<Point>)
    requires s.Valid() && 1 <= dealer <= |seat.members| && |points| == seat.quorum
    requires forall i :: 0 <= i < |points| ==> IsPoint(points[i], s.q)
    ensures var m := CommitmentsFrom(dealer, EncodePoints(s, points), Some(seat.members[dealer - 1]));
            Handle(s, seat, box, m)
            == if dealer !in box.commitments then (box.(commitments := box.commitments[dealer := points]), Accepts)
               else if EncodePoints(s, box.commitments[dealer]) == EncodePoints(s, points) then (box, Accepts)
               else (box, Differs)
  {
    PointsRoundTrip(s, points);
  }

  lemma {:induction false} PointsRoundTrip(s: Suite, points: seq<Point>)
    requires s.Valid() && forall i :: 0 <= i < |points| ==> IsPoint(points[i], s.q)
    ensures DecodePoints(s, EncodePoints(s, points)) == Some(points)
  {
    if points != [] {
      var n := |points| - 1;
      PointsRoundTrip(s, points[..n]);
      assert EncodePoints(s, points)[..n] == EncodePoints(s, points[..n]);
      assert points == points[..n] + [points[n]];
    }
  }

  /** A dealer's own share addressed here is filed when there is none yet. */
  lemma GenuineShareFiled(s: Suite, seat: Seat, box: Box, dealer: int, share: int)
    requires s.q > 1 && 1 <= dealer <= |seat.members| && dealer !in box.shares
    ensures Handle(s, seat, box, ShareFrom(dealer, seat.me, Some(share), Some(seat.members[dealer - 1])))
         == (box.(shares := box.shares[dealer := share]), Accepts)
  {
  }

  /** What each reply to a commitment vector says. */
  lemma CommitmentReplies(s: Suite, seat: Seat, box: Box, dealer: int, incoming: seq<bytes>, signer: Option<bytes>)
    requires s.q > 1
    ensures var reply := Handle(s, seat, box, CommitmentsFrom(dealer, incoming, signer)).1;
            var genuine := 1 <= dealer <= |seat.members| && signer == Some(seat.members[dealer - 1]);
            var sound := genuine && |incoming| == seat.quorum;
            && (reply == Unauthorized <==> !genuine)
            && (reply == BadRequest <==> genuine && |incoming| != seat.quorum)
            && (reply == Differs <==>
                  sound && dealer in box.commitments && EncodePoints(s, box.commitments[dealer]) != incoming)
            && (reply == ServerError <==> sound && dealer !in box.commitments && DecodePoints(s, incoming).None?)
            && !reply.Complains?
  {
    hide EncodePoints, DecodePoints;
  }

  /** What each reply to a share says. */
  lemma ShareReplies(s: Suite, seat: Seat, box: Box, dealer: int, recipient: int, share: Option<int>,
                     signer: Option<bytes>)
    requires s.q > 1
    ensures var reply := Handle(s, seat, box, ShareFrom(dealer, recipient, share, signer)).1;
            var genuine := 1 <= dealer <= |seat.members| && signer == Some(seat.members[dealer - 1]);
            var addressed := share.Some? && recipient == seat.me;
            && (reply == BadRequest <==> !addressed)
            && (reply == Unauthorized <==> addressed && !genuine)
            && (reply == Differs <==>
                  && addressed && genuine && dealer in box.shares && box.shares[dealer] != share.value
                  && !(&& dealer in box.complained && dealer in box.commitments && box.commitments[dealer] != []
                       && Cong(Eval(box.commitments[dealer], seat.me), share.value, s.q)))
            && !reply.ServerError? && !reply.Complains?
  {
    hide Eval;
  }

  /** Round 2 complains about exactly the dealers whose share is not on the committed polynomial of
      the right length, and otherwise combines the shares. */
  lemma Round2Outcome(s: Suite, seat: Seat, box: Box)
    requires s.q > 1
    ensures var (after, reply) := Handle(s, seat, box, RunRound2);
            && (reply.Accepts? ==> after == box.(combined := Some(SumMap(box.shares) % s.q)))
            && (!reply.Accepts? ==> reply.Complains? && reply.dealers != {}
                                    && after == box.(complained := box.complained + reply.dealers))
            && forall d :: d in box.shares ==>
                 ((reply.Complains? && d in reply.dealers) <==>
                    !(d in box.commitments && |box.commitments[d]| == seat.quorum
                      && Cong(Eval(box.commitments[d], seat.me), box.shares[d], s.q)))
  {
    hide SumMap, Eval;
    NoBadDealers(box.commitments, box.shares, seat.me, seat.quorum, s.q);
  }

  /** Commitments never change within an attempt. */
  lemma {:induction false} CommitmentsNeverChange(s: Suite, seat: Seat, box: Box, run: seq<Request>, dealer: int)
    requires s.q > 1 && dealer in box.commitments
    ensures dealer in Deliver(s, seat, box, run).commitments
    ensures Deliver(s, seat, box, run).commitments[dealer] == box.commitments[dealer]
    decreases |run|
  {
    hide Handle, MayReplace;
    if run != [] {
      ShareReplacedOnlyByRepair(s, seat, box, run[0], dealer);
      CommitmentsNeverChange(s, seat, Handle(s, seat, box, run[0]).0, run[1..], dealer);
    }
  }

  /** The dealer's stored share verifies against its stored commitments. */
  ghost predicate Holds(s: Suite, seat: Seat, box: Box, dealer: int)
    requires s.q > 1
  {
    dealer in box.shares && DealerOk(box.commitments, dealer, box.shares[dealer], seat.me, seat.quorum, s.q)
  }

  lemma StepKeepsShare(s: Suite, seat: Seat, box: Box, m: Request, dealer: int)
    requires s.q > 1 && Holds(s, seat, box, dealer)
    ensures Holds(s, seat, Handle(s, seat, box, m).0, dealer)
    ensures Cong(Handle(s, seat, box, m).0.shares[dealer], box.shares[dealer], s.q)
  {
    hide Handle;
    ShareReplacedOnlyByRepair(s, seat, box, m, dealer);
  }

  /** Once a stored share verifies it stays verified and the same modulo q. */
  lemma {:induction false} VerifiedShareStable(s: Suite, seat: Seat, box: Box, run: seq<Request>, dealer: int)
    requires s.q > 1 && Holds(s, seat, box, dealer)
    ensures Holds(s, seat, Deliver(s, seat, box, run), dealer)
    ensures Cong(Deliver(s, seat, box, run).shares[dealer], box.shares[dealer], s.q)
    decreases |run|
  {
    hide Handle, DealerOk;
    if run != [] {
      var mid := Handle(s, seat, box, run[0]).0;
      StepKeepsShare(s, seat, box, run[0], dealer);
      VerifiedShareStable(s, seat, mid, run[1..], dealer);
    }
  }

  /** Repair is safe: after round 2 has accepted, whatever arrives later, running it again over
      the same dealers accepts again and yields the same combined share. */
  lemma Round2Repeatable(s: Suite, seat: Seat, box: Box, run: seq<Request>)
    requires s.q > 1 && Round2Accepts(box.commitments, box.shares, seat.me, seat.quorum, s.q)
    requires var after := Deliver(s, seat, box, run); after.shares.Keys == box.shares.Keys
    ensures var after := Deliver(s, seat, box, run);
            && Round2Accepts(after.commitments, after.shares, seat.me, seat.quorum, s.q)
            && Round2Once(s, seat, after).0.combined == Round2Once(s, seat, box).0.combined
  {
    hide DealerOk, Deliver, SumMap;
    var after := Deliver(s, seat, box, run);
    forall d | d in box.shares ensures Holds(s, seat, after, d) && Cong(after.shares[d], box.shares[d], s.q) {
      VerifiedShareStable(s, seat, box, run, d);
    }
    SumCong(after.shares, box.shares, s.q);
  }

  /** Repair works: a dealer that was complained about for its share, and re-deals the share its
      commitments determine, is no longer a bad dealer. */
  lemma RedealtShareRepairs(s: Suite, seat: Seat, box: Box, dealer: int, share: int)
    requires s.q > 1 && seat.Valid() && 1 <= dealer <= |seat.members|
    requires dealer in box.complained && dealer in box.commitments && |box.commitments[dealer]| == seat.quorum
    requires ShareMatches(box.commitments[dealer], seat.me, share, s.q)
    ensures var m := ShareFrom(dealer, seat.me, Some(share), MemberAddress(seat, dealer));
            && Handle(s, seat, box, m).1 == Accepts
            && Holds(s, seat, Handle(s, seat, box, m).0, dealer)
  {
    hide ShareMatches;
  }

  // ----- publishing -----

  ghost predicate Ascending(order: seq<int>)
  {
    forall i, k :: 0 <= i < k < |order| ==> order[i] < order[k]
  }

  ghost predicate Lists(order: seq<int>, dealers: set<int>)
  {
    Ascending(order) && forall d :: d in order <==> d in dealers
  }

  /** `out` is the joint key of the committed dealers and one public share per dealer, in the
      order of `order`. */
  ghost predicate DerivedKey(s: Suite, seat: Seat, box: Box, order: seq<int>, out: KeyResult)
    requires s.q > 1
  {
    && IsPoint(out.pk, s.q) && Cong(out.pk, SumMap(ValuesAt(box.commitments, 0)), s.q)
    && |out.committee| == |order|
    && forall i :: 0 <= i < |order| ==> IsPublicShare(out.committee[i], box.commitments, order[i], s.q)
  }

  /** What /dkg/publish may send from this inbox. */
  ghost predicate PublicationOf(s: Suite, seat: Seat, box: Box, out: KeyResult)
    requires s.q > 1
  {
    box.combined.Some? && exists order :: Lists(order, box.commitments.Keys) && DerivedKey(s, seat, box, order, out)
  }

  datatype Publication = RefusesToPublish | Published(out: KeyResult)

  /** /dkg/publish: refused unless round 2 has completed; otherwise the joint key and one public
      share per dealer, in index order. The lengths were checked at the door, so deriving the
      key never fails. `order` lists the dealers whose commitments are held, ascending. */
  method Publish(s: Suite, seat: Seat, box: Box, order: seq<int>) returns (r: Publication)
    requires s.q > 1 && seat.Valid() && BoxInv(seat, box) && Lists(order, box.commitments.Keys)
    ensures r.RefusesToPublish? <==> box.combined.None?
    ensures r.Published? ==> DerivedKey(s, seat, box, order, r.out) && PublicationOf(s, seat, box, r.out)
  {
    hide Cong, SumMap, ValuesAt;
    if box.combined.None? {
      return RefusesToPublish;
    }
    var pk := DeriveJointMpk(box.commitments, seat.quorum, s.q);
    var committee: seq<Point> := [];
    for i := 0 to |order|
      invariant |committee| == i
      invariant forall k :: 0 <= k < i ==> IsPublicShare(committee[k], box.commitments, order[k], s.q)
    {
      var share := DeriveMpkShare(order[i], box.commitments, seat.quorum, s.q);
      committee := committee + [share.value];
    }
    r := Published(KeyResult(pk.value, committee));
    assert DerivedKey(s, seat, box, order, r.out);
  }

  /** Whatever is published lies on the joint polynomial of the dealers held. */
  lemma PublishedOnPolynomial(s: Suite, seat: Seat, box: Box, order: seq<int>, out: KeyResult)
    requires s.q > 1 && seat.Valid() && BoxInv(seat, box) && DerivedKey(s, seat, box, order, out)
    ensures Cong(out.pk, AtZero(Joint(box.commitments, seat.quorum)), s.q)
    ensures forall i :: 0 <= i < |order| ==>
              Cong(out.committee[i], Eval(Joint(box.commitments, seat.quorum), order[i]), s.q)
  {
    hide Joint, Cong, SumMap, ValuesAt;
    JointEvaluates(box.commitments, seat.quorum, 0);
    EvalAtZero(Joint(box.commitments, seat.quorum));
    forall i | 0 <= i < |order|
      ensures Cong(out.committee[i], Eval(Joint(box.commitments, seat.quorum), order[i]), s.q)
    {
      assert IsPublicShare(out.committee[i], box.commitments, order[i], s.q);
      JointEvaluates(box.commitments, seat.quorum, order[i]);
    }
  }

  /** The published list is aligned with the committee, position i-1 holding the share of keyper
      i, exactly when it has one entry per member, which is exactly when the dealers held are
      all of them. */
  lemma AlignedIff(seat: Seat, box: Box, order: seq<int>)
    requires BoxInv(seat, box) && Lists(order, box.commitments.Keys)
    ensures |order| == |seat.members| <==> box.commitments.Keys == Range(|seat.members|)
    ensures |order| == |seat.members| <==> order == seq(|seat.members|, i => i + 1)
  {
    var n := |seat.members|;
    var all := Range(n);
    AscendingSize(order, box.commitments.Keys);
    if |order| == n {
      FullSubset(box.commitments.Keys, all);
      forall i | 0 <= i < n ensures 1 <= order[i] <= n {
        assert order[i] in order && order[i] in all;
      }
      AscendingFills(order, n);
    }
  }

  lemma {:induction false} AscendingSize(order: seq<int>, dealers: set<int>)
    requires Lists(order, dealers)
    ensures |order| == |dealers|
    decreases |order|
  {
    if order == [] {
      NoneListed(dealers);
    } else {
      var n := |order| - 1;
      var front := order[..n];
      assert order == front + [order[n]];
      assert order[n] in order;
      assert order[n] in dealers;
      AscendingSize(front, dealers - {order[n]});
    }
  }

  lemma NoneListed(dealers: set<int>)
    requires forall d :: d !in dealers
    ensures dealers == {}
  {
    if dealers != {} {
      HasElement(dealers);
    }
  }

  lemma FullSubset(a: set<int>, b: set<int>)
    requires a <= b && |a| == |b|
    ensures a == b
  {
    forall x | x in b ensures x in a {
      if x !in a {
        SubsetSize(a, b - {x});
      }
    }
  }

  /** An ascending list of n numbers from 1..n is 1, 2, ..., n. */
  lemma {:induction false} AscendingFills(order: seq<int>, n: nat)
    requires Ascending(order) && |order| == n && forall i :: 0 <= i < n ==> 1 <= order[i] <= n
    ensures order == seq(n, i => i + 1)
  {
    forall i | 0 <= i < n ensures order[i] == i + 1 {
      AtLeastPosition(order, i);
      AtMostPosition(order, n, i);
    }
  }

  lemma {:induction false} AtLeastPosition(order: seq<int>, i: nat)
    requires Ascending(order) && i < |order| && order[0] >= 1
    ensures order[i] >= i + 1
  {
    if i > 0 {
      AtLeastPosition(order, i - 1);
    }
  }

  lemma {:induction false} AtMostPosition(order: seq<int>, n: nat, i: nat)
    requires Ascending(order) && i < |order| == n && order[n - 1] <= n
    ensures order[i] <= i + 1
    decreases n - i
  {
    if i < n - 1 {
      AtMostPosition(order, n, i + 1);
    }
  }

  /** A published list with one entry per member is what Dkg.Publishes describes. */
  lemma FullPublication(s: Suite, seat: Seat, box: Box, out: KeyResult)
    requires s.q > 1 && seat.Valid() && BoxInv(seat, box) && PublicationOf(s, seat, box, out)
    requires |out.committee| == |seat.members|
    ensures Publishes(box.commitments, |seat.members|, seat.quorum, s.q, out)
  {
    hide Cong, SumMap, ValuesAt, LengthsOk, IsPoint, IsPublicShare, Lists;
    var order :| Lists(order, box.commitments.Keys) && DerivedKey(s, seat, box, order, out);
    AlignedIff(seat, box, order);
  }

  /** A keyper whose last round 2 covered exactly the dealers it holds commitments of publishes
      the public counterpart of its own secret share at its own position. */
  lemma PublishedMatchesSecret(s: Suite, seat: Seat, box: Box)
    requires s.q > 1 && seat.Valid() && BoxInv(seat, box) && box.shares.Keys == box.commitments.Keys
    requires Round2Accepts(box.commitments, box.shares, seat.me, seat.quorum, s.q)
    ensures Cong(Round2Once(s, seat, box).0.combined.value, Eval(Joint(box.commitments, seat.quorum), seat.me), s.q)
  {
    hide Round2Accepts, Joint, SumMap;
    DkgConsistency(box.commitments, box.shares, seat.me, seat.quorum, s.q);
    CongMod(SumMap(box.shares), s.q);
  }

  // ----- an inbox without all dealers -----

  /** What round 1 deals to the keyper itself: a vector of the right length and a share on it. */
  ghost predicate DealtTo(s: Suite, seat: Seat, own: seq<Point>, share: int)
    requires s.q > 1
  {
    |own| == seat.quorum && ShareMatches(own, seat.me, share, s.q)
  }

  lemma OneDealer(me: int, own: seq<Point>, x: int)
    ensures SumMap(ValuesAt(map[me := own], x)) == Eval(own, x)
  {
    var c: Commitments := map[me := own];
    SumPick(ValuesAt(c, x), me);
    assert |ValuesAt(c, x) - {me}| == 0;
    SumNone(ValuesAt(c, x) - {me});
  }

  /** What a keyper that holds only its own commitments publishes. */
  lemma LonePublication(s: Suite, seat: Seat, own: seq<Point>, share: int, combined: Option<int>)
    returns (out: KeyResult)
    requires s.q > 1 && combined.Some?
    ensures PublicationOf(s, seat, FreshBox(seat, own, share, combined), out) && |out.committee| == 1
  {
    var box := FreshBox(seat, own, share, combined);
    var pk, public := SumMap(ValuesAt(box.commitments, 0)), SumMap(ValuesAt(box.commitments, seat.me));
    out := KeyResult(Rem(pk, s.q), [Rem(public, s.q)]);
    CongMod(pk, s.q);
    CongMod(public, s.q);
    assert IsPublicShare(out.committee[0], box.commitments, [seat.me][0], s.q);
    assert Lists([seat.me], box.commitments.Keys) && DerivedKey(s, seat, box, [seat.me], out);
  }

  /** The list may be short: a keyper that has heard from no other dealer passes round 2 on its own
      share and then publishes a list with one entry, whatever the size of the committee. */
  lemma LoneKeyperPublishes(s: Suite, seat: Seat, own: seq<Point>, share: int) returns (out: KeyResult)
    requires s.q > 1 && seat.Valid() && |seat.members| >= 2 && DealtTo(s, seat, own, share)
    ensures var box := Deliver(s, seat, FreshBox(seat, own, share, None), [RunRound2]);
            && BoxInv(seat, box) && box.combined.Some? && box.commitments.Keys == {seat.me}
            && PublicationOf(s, seat, box, out) && |out.committee| == 1 < |seat.members|
            && forall order :: Lists(order, box.commitments.Keys) ==> |order| == 1
  {
    hide PublicationOf, Lists, ShareMatches;
    var first := FreshBox(seat, own, share, None);
    DeliverKeepsInv(s, seat, first, [RunRound2]);
    OwnRound2(s, seat, own, share, None);
    assert [RunRound2][1..] == [];
    var box := Deliver(s, seat, first, [RunRound2]);
    assert box == Deliver(s, seat, Round2Once(s, seat, first).0, []);
    out := LonePublication(s, seat, own, share, box.combined);
    forall order | Lists(order, box.commitments.Keys) ensures |order| == 1 {
      AscendingSize(order, box.commitments.Keys);
    }
  }

  lemma OwnRound2(s: Suite, seat: Seat, own: seq<Point>, share: int, combined: Option<int>)
    requires s.q > 1 && DealtTo(s, seat, own, share)
    ensures Round2Once(s, seat, FreshBox(seat, own, share, combined))
         == (FreshBox(seat, own, share, Some(Rem(share, s.q))), Accepts)
  {
    hide ShareMatches, Rem;
    var box := FreshBox(seat, own, share, combined);
    assert Round2Accepts(box.commitments, box.shares, seat.me, seat.quorum, s.q);
    SumPick(box.shares, seat.me);
    assert |box.shares - {seat.me}| == 0;
    SumNone(box.shares - {seat.me});
  }

  // ----- all attempts -----

  datatype AttemptStep = Within(request: Request) | NewRound1(own: seq<Point>, share: int)

  /** Every round 1 deals properly. */
  ghost predicate Proper(s: Suite, seat: Seat, run: seq<AttemptStep>)
    requires s.q > 1
  {
    forall k :: 0 <= k < |run| && run[k].NewRound1? ==> DealtTo(s, seat, run[k].own, run[k].share)
  }

  /** The inbox, and the committed vectors that the last accepted round 2 combined. */
  datatype Held = Held(box: Box, basis: Commitments)

  ghost function Covered(box: Box): Commitments
  {
    map d | d in box.commitments && d in box.shares :: box.commitments[d]
  }

  ghost function Proceed(s: Suite, seat: Seat, h: Held, step: AttemptStep): Held
    requires s.q > 1
  {
    match step
    case NewRound1(own, share) => Held(FreshBox(seat, own, share, h.box.combined), h.basis)
    case Within(m) =>
      var combines := m.RunRound2? && Round2Accepts(h.box.commitments, h.box.shares, seat.me, seat.quorum, s.q);
      Held(Handle(s, seat, h.box, m).0, if combines then Covered(h.box) else h.basis)
  }

  ghost function Attempts(s: Suite, seat: Seat, h: Held, run: seq<AttemptStep>): Held
    requires s.q > 1
    decreases |run|
  {
    if run == [] then h else Attempts(s, seat, Proceed(s, seat, h, run[0]), run[1..])
  }

  /** The held secret is the combined value of the basis. */
  ghost predicate HeldInv(s: Suite, seat: Seat, h: Held)
    requires s.q > 1
  {
    && BoxInv(seat, h.box)
    && (h.box.combined.Some? ==> Cong(h.box.combined.value, SumMap(ValuesAt(h.basis, seat.me)), s.q))
  }

  lemma CoveredSum(s: Suite, seat: Seat, box: Box)
    requires s.q > 1 && Round2Accepts(box.commitments, box.shares, seat.me, seat.quorum, s.q)
    ensures Cong(Rem(SumMap(box.shares), s.q), SumMap(ValuesAt(Covered(box), seat.me)), s.q)
  {
    forall d | d in box.shares ensures d in box.commitments {
      assert DealerOk(box.commitments, d, box.shares[d], seat.me, seat.quorum, s.q);
    }
    forall d | d in box.shares ensures Cong(box.shares[d], ValuesAt(Covered(box), seat.me)[d], s.q) {
      assert DealerOk(box.commitments, d, box.shares[d], seat.me, seat.quorum, s.q);
    }
    SumCong(box.shares, ValuesAt(Covered(box), seat.me), s.q);
    CongMod(SumMap(box.shares), s.q);
  }

  lemma ProceedKeepsInv(s: Suite, seat: Seat, h: Held, step: AttemptStep)
    requires s.q > 1 && seat.Valid() && HeldInv(s, seat, h)
    requires step.NewRound1? ==> DealtTo(s, seat, step.own, step.share)
    ensures HeldInv(s, seat, Proceed(s, seat, h, step))
  {
    hide Cong, SumMap, ValuesAt, Round2Accepts, ShareMatches;
    match step
    case NewRound1(_, _) =>
    case Within(m) =>
      HandleKeepsInv(s, seat, h.box, m);
      if m.RunRound2? && Round2Accepts(h.box.commitments, h.box.shares, seat.me, seat.quorum, s.q) {
        CoveredSum(s, seat, h.box);
      } else {
        SecretKept(s, seat, h.box, m);
      }
  }

  /** Only an accepted round 2 changes the held secret. */
  lemma SecretKept(s: Suite, seat: Seat, box: Box, m: Request)
    requires s.q > 1
    requires !(m.RunRound2? && Round2Accepts(box.commitments, box.shares, seat.me, seat.quorum, s.q))
    ensures Handle(s, seat, box, m).0.combined == box.combined
  {
    hide Round2Accepts, MayReplace, BadDealers, EncodePoints, DecodePoints;
  }

  lemma {:induction false} AttemptsKeepInv(s: Suite, seat: Seat, h: Held, run: seq<AttemptStep>)
    requires s.q > 1 && seat.Valid() && HeldInv(s, seat, h) && Proper(s, seat, run)
    ensures HeldInv(s, seat, Attempts(s, seat, h, run))
    decreases |run|
  {
    hide HeldInv, Proceed, DealtTo;
    if run != [] {
      ProceedKeepsInv(s, seat, h, run[0]);
      AttemptsKeepInv(s, seat, Proceed(s, seat, h, run[0]), run[1..]);
    }
  }

  /** Where a keyper stands after its first round 1 and any run of attempts. */
  ghost predicate Attained(s: Suite, seat: Seat, h: Held)
    requires s.q > 1
  {
    exists own, share, run ::
      && DealtTo(s, seat, own, share) && Proper(s, seat, run)
      && h == Attempts(s, seat, Held(FreshBox(seat, own, share, None), map[]), run)
  }

  lemma AttainedInv(s: Suite, seat: Seat, h: Held)
    requires s.q > 1 && seat.Valid() && Attained(s, seat, h)
    ensures HeldInv(s, seat, h)
  {
    hide Attempts, Proper, ShareMatches;
    var own, share, run :|
      && DealtTo(s, seat, own, share) && Proper(s, seat, run)
      && h == Attempts(s, seat, Held(FreshBox(seat, own, share, None), map[]), run);
    AttemptsKeepInv(s, seat, Held(FreshBox(seat, own, share, None), map[]), run);
  }

  /** What the keyper would publish at its own index is the public counterpart of its secret. */
  ghost predicate MatchesSecret(s: Suite, seat: Seat, box: Box)
    requires s.q > 1 && seat.Valid() && LengthsOk(box.commitments, seat.quorum) && box.combined.Some?
  {
    Cong(box.combined.value, Eval(Joint(box.commitments, seat.quorum), seat.me), s.q)
  }

  /** Over all attempts: what is published matches the held secret exactly when the vectors held
      now and those the last accepted round 2 combined have the same sum at the own index; so it
      does whenever that round 2 covered precisely the dealers held now, in this attempt. */
  lemma MatchesSecretIff(s: Suite, seat: Seat, h: Held)
    requires s.q > 1 && seat.Valid() && Attained(s, seat, h) && h.box.combined.Some?
    ensures BoxInv(seat, h.box)
    ensures MatchesSecret(s, seat, h.box) <==>
              Cong(SumMap(ValuesAt(h.box.commitments, seat.me)), SumMap(ValuesAt(h.basis, seat.me)), s.q)
    ensures h.basis == h.box.commitments ==> MatchesSecret(s, seat, h.box)
  {
    hide Attained, SumMap, ValuesAt, Joint;
    AttainedInv(s, seat, h);
    JointEvaluates(h.box.commitments, seat.quorum, seat.me);
  }

  /** After a new round 1, before any further round 2, publishing is still allowed, and what is
      published matches the held secret exactly when the fresh own share equals that secret. */
  lemma StaleMatchIff(s: Suite, seat: Seat, h: Held, own: seq<Point>, share: int)
    requires s.q > 1 && seat.Valid() && HeldInv(s, seat, h) && h.box.combined.Some? && DealtTo(s, seat, own, share)
    ensures var box := Proceed(s, seat, h, NewRound1(own, share)).box;
            && BoxInv(seat, box) && box.combined.Some?
            && (MatchesSecret(s, seat, box) <==> Cong(h.box.combined.value, share, s.q))
  {
    hide SumMap, ValuesAt, Joint;
    ProceedKeepsInv(s, seat, h, NewRound1(own, share));
    var box := Proceed(s, seat, h, NewRound1(own, share)).box;
    JointEvaluates(box.commitments, seat.quorum, seat.me);
    OneDealer(seat.me, own, seat.me);
  }

  /** The mismatch is real: every seat has a run of two attempts after which the service publishes
      a key whose share at the own index the keyper does not hold. */
  lemma StaleKeyIsPublished(s: Suite, seat: Seat) returns (h: Held, out: KeyResult)
    requires s.q > 1 && seat.Valid()
    ensures Attained(s, seat, h) && BoxInv(seat, h.box) && h.box.combined.Some?
    ensures PublicationOf(s, seat, h.box, out) && !MatchesSecret(s, seat, h.box)
  {
    hide MatchesSecret, PublicationOf, Attained, HeldInv, BoxInv, DealtTo, Attempts, Cong;
    var zero, one := seq(seat.quorum, _ => 0), [1] + seq(seat.quorum - 1, _ => 0);
    ConstantDealings(s, seat, zero, one);
    var mid := CompletedAlone(s, seat, zero);
    h := Proceed(s, seat, mid, NewRound1(one, 1));
    TwoAttemptsAttained(s, seat, zero, one);
    StaleMatchIff(s, seat, mid, one, 1);
    ZeroIsNotOne(s.q);
    out := LonePublication(s, seat, one, 1, h.box.combined);
  }

  lemma ZeroIsNotOne(q: int)
    requires q > 1
    ensures !Cong(0, 1, q)
  {
    ModUnique(0, 0, 0, q);
    ModUnique(1, 0, 1, q);
  }

  /** The first attempt: a keyper on its own completes round 2 with the zero dealing. */
  lemma CompletedAlone(s: Suite, seat: Seat, zero: seq<Point>) returns (mid: Held)
    requires s.q > 1 && seat.Valid() && DealtTo(s, seat, zero, 0)
    ensures mid == Proceed(s, seat, Held(FreshBox(seat, zero, 0, None), map[]), Within(RunRound2))
    ensures HeldInv(s, seat, mid) && mid.box == FreshBox(seat, zero, 0, Some(0))
  {
    hide DealtTo, Round2Accepts, SumMap, ValuesAt;
    var first := Held(FreshBox(seat, zero, 0, None), map[]);
    OwnRound2(s, seat, zero, 0, None);
    FreshBoxHeld(s, seat, zero);
    ProceedKeepsInv(s, seat, first, Within(RunRound2));
    mid := Proceed(s, seat, first, Within(RunRound2));
    RoundTwoRequest(s, seat, first.box);
    ModUnique(0, 0, 0, s.q);
  }

  lemma FreshBoxHeld(s: Suite, seat: Seat, own: seq<Point>)
    requires s.q > 1 && seat.Valid() && DealtTo(s, seat, own, 0)
    ensures HeldInv(s, seat, Held(FreshBox(seat, own, 0, None), map[]))
  {
    hide ShareMatches;
  }

  lemma TwoAttemptsAttained(s: Suite, seat: Seat, zero: seq<Point>, one: seq<Point>)
    requires s.q > 1 && DealtTo(s, seat, zero, 0) && DealtTo(s, seat, one, 1)
    ensures var first := Held(FreshBox(seat, zero, 0, None), map[]);
            Attained(s, seat, Proceed(s, seat, Proceed(s, seat, first, Within(RunRound2)), NewRound1(one, 1)))
  {
    hide DealtTo, Proceed, Attempts;
    var run := [Within(RunRound2), NewRound1(one, 1)];
    TwoSteps(s, seat, Held(FreshBox(seat, zero, 0, None), map[]), run);
    assert Proper(s, seat, run);
  }

  /** A keyper on its own stands where LoneKeyperPublishes describes it. */
  lemma LoneAttained(s: Suite, seat: Seat, own: seq<Point>, share: int) returns (h: Held)
    requires s.q > 1 && DealtTo(s, seat, own, share)
    ensures Attained(s, seat, h) && h.box == FreshBox(seat, own, share, Some(Rem(share, s.q)))
  {
    hide DealtTo, Rem, Attempts;
    var first := Held(FreshBox(seat, own, share, None), map[]);
    var run := [Within(RunRound2)];
    h := Proceed(s, seat, first, run[0]);
    OwnRound2(s, seat, own, share, None);
    RoundTwoRequest(s, seat, first.box);
    OneStep(s, seat, first, run);
    assert Proper(s, seat, run);
  }

  lemma OneStep(s: Suite, seat: Seat, h: Held, run: seq<AttemptStep>)
    requires s.q > 1 && |run| == 1
    ensures Attempts(s, seat, h, run) == Proceed(s, seat, h, run[0])
  {
    hide Proceed;
    assert run[1..] == [];
    assert Attempts(s, seat, Proceed(s, seat, h, run[0]), []) == Proceed(s, seat, h, run[0]);
  }

  lemma RoundTwoRequest(s: Suite, seat: Seat, box: Box)
    requires s.q > 1
    ensures Handle(s, seat, box, RunRound2) == Round2Once(s, seat, box)
  {
  }

  lemma TwoSteps(s: Suite, seat: Seat, h: Held, run: seq<AttemptStep>)
    requires s.q > 1 && |run| == 2
    ensures Attempts(s, seat, h, run) == Proceed(s, seat, Proceed(s, seat, h, run[0]), run[1])
  {
    hide Proceed;
    var mid := Proceed(s, seat, h, run[0]);
    assert run[1..][1..] == [];
    assert Attempts(s, seat, mid, run[1..]) == Attempts(s, seat, Proceed(s, seat, mid, run[1]), []);
  }

  lemma ConstantDealings(s: Suite, seat: Seat, zero: seq<Point>, one: seq<Point>)
    requires s.q > 1 && seat.Valid()
    requires zero == seq(seat.quorum, _ => 0) && one == [1] + seq(seat.quorum - 1, _ => 0)
    ensures DealtTo(s, seat, zero, 0) && DealtTo(s, seat, one, 1)
  {
    EvalZeros(seat.quorum, seat.me);
    EvalZeros(seat.quorum - 1, seat.me);
    assert one[1..] == seq(seat.quorum - 1, _ => 0);
  }
}
