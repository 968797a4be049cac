/** Feldman VSS distributed key generation (crypto/dkg.py). */
module Dkg {
  import opened Field
  import opened Group
  import opened Polynomial
  import opened Sums

  /** Dealer index -> published commitment vector. */
  type Commitments = map<int, seq<Point>>

  datatype Checked<T> = Accepted(value: T) | Rejected(badDealers: set<int>)

  /** Adds sum_j x^j * c_j to `acc`: the loop shared by verify_share and derive_mpk_share. */
  method AccumulateEval(acc: Point, comms: seq<Point>, x: int, q: int) returns (r: Point)
    requires q > 1 && IsPoint(acc, q)
    ensures IsPoint(r, q) && Cong(r, acc + Eval(comms, x), q)
  {
    r := acc;
    var xPower := 1;
    for j := 0 to |comms|
      invariant IsPoint(r, q) && Cong(r, acc + Eval(comms[..j], x), q)
      invariant Cong(xPower, Pow(x, j), q)
    {
      assert comms[..j + 1] == comms[..j] + [comms[j]];
      EvalSnoc(comms[..j], comms[j], x);
      HornerStep(r, acc + Eval(comms[..j], x), comms[j], xPower, Pow(x, j), x, q);
      r := Add(r, Mul(comms[j], xPower, q), q);
      xPower := (xPower * x) % q;
    }
    assert comms[..|comms|] == comms;
  }

  lemma HornerStep(r: int, sum: int, c: int, xp: int, p: int, x: int, q: int)
    requires q > 1 && Cong(r, sum, q) && Cong(xp, p, q)
    ensures Cong(Add(r, Mul(c, xp, q), q), sum + c * p, q)
    ensures Cong((xp * x) % q, x * p, q)
  {
    AddMulCong(r, c, xp, q);
    CongScale(xp, p, c, q);
    CongAdd(r, sum, c * xp, c * p, q);
    CongScale(xp, p, x, q);
    CongMod(xp * x, q);
  }

  /** The Feldman equation: share*P2 == sum_j recipient^j * c_j. */
  ghost predicate ShareMatches(comms: seq<Point>, recipient: int, share: int, q: int)
    requires q > 1
  {
    Cong(Eval(comms, recipient), share, q)
  }

  method VerifyShare(comms: seq<Point>, recipient: int, share: int, q: int) returns (ok: bool)
    requires q > 1
    ensures ok <==> ShareMatches(comms, recipient, share, q)
  {
    var expected := AccumulateEval(Z2, comms, recipient, q);
    MulCong(G2, share, q);
    PointEq(expected, Mul(G2, share, q), q);
    ok := expected == Mul(G2, share, q);
  }

  /** Round 2's per-dealer requirement. */
  ghost predicate DealerOk(all: Commitments, dealer: int, share: int, me: int, quorum: int, q: int)
    requires q > 1
  {
    dealer in all && |all[dealer]| == quorum && ShareMatches(all[dealer], me, share, q)
  }

  ghost predicate Round2Accepts(all: Commitments, received: map<int, int>, me: int, quorum: int, q: int)
    requires q > 1
  {
    forall d :: d in received ==> DealerOk(all, d, received[d], me, quorum, q)
  }

  ghost function BadDealers(all: Commitments, received: map<int, int>, me: int, quorum: int, q: int): set<int>
    requires q > 1
  {
    set d | d in received && !DealerOk(all, d, received[d], me, quorum, q)
  }

  /** One keyper's DKG state. Randomness is passed in. */
  class KeyperDkgState {
    var keyperId: Option<int>
    var n: Option<int>
    var quorum: Option<int>
    var coefficients: Option<seq<int>>
    var commitments: Option<seq<Point>>
    var sharesForOthers: map<int, int>
    var combinedShare: Option<int>
    var publicKeyShare: Option<Point>

    constructor ()
      ensures keyperId == n == quorum == None && coefficients == None && commitments == None
      ensures sharesForOthers == map[] && combinedShare == None && publicKeyShare == None
    {
      keyperId, n, quorum := None, None, None;
      coefficients, commitments := None, None;
      sharesForOthers := map[];
      combinedShare, publicKeyShare := None, None;
    }

    method Round1(id: int, size: nat, drawn: seq<int>, q: int)
      requires q > 1
      modifies this
      ensures keyperId == Some(id) && n == Some(size) && quorum == Some(|drawn|)
      ensures coefficients == Some(drawn)
      ensures commitments.Some? && |commitments.value| == |drawn|
      ensures forall j :: 0 <= j < |drawn| ==> commitments.value[j] == Mul(G2, drawn[j], q)
      ensures sharesForOthers.Keys == Range(size)
      ensures forall i :: 1 <= i <= size ==> ShareMatches(commitments.value, i, sharesForOthers[i], q)
      ensures forall i :: 1 <= i <= size ==> sharesForOthers[i] == Eval(drawn, i) % q
      ensures unchanged(`combinedShare) && unchanged(`publicKeyShare)
    {
      hide Eval, ShareMatches, Mul;
      keyperId, n, quorum := Some(id), Some(size), Some(|drawn|);
      coefficients := Some(drawn);
      commitments := Some(seq(|drawn|, j requires 0 <= j < |drawn| => Mul(G2, drawn[j], q)));
      sharesForOthers := DealAll(drawn, size, q);
      forall i | 1 <= i <= size ensures ShareMatches(commitments.value, i, sharesForOthers[i], q) {
        DealtShareMatches(drawn, commitments.value, i, q);
      }
    }

    /** Verify every received share and combine; the rejected set is exactly the bad dealers. */
    method Round2(all: Commitments, received: map<int, int>, q: int) returns (v: Checked<int>)
      requires q > 1 && keyperId.Some? && quorum.Some?
      modifies this`combinedShare, this`publicKeyShare
      ensures v.Accepted? <==> Round2Accepts(all, received, keyperId.value, quorum.value, q)
      ensures v.Accepted? ==> v.value == SumMap(received) % q
      ensures v.Accepted? ==> combinedShare == Some(v.value) && publicKeyShare == Some(Mul(G2, v.value, q))
      ensures v.Rejected? ==> v.badDealers == BadDealers(all, received, keyperId.value, quorum.value, q)
      ensures v.Rejected? ==> unchanged(this)
    {
      var bad, sum := VerifyAll(all, received, keyperId.value, quorum.value, q);
      if bad != {} {
        ghost var d: int := Pick(bad);
        assert d in received && !DealerOk(all, d, received[d], keyperId.value, quorum.value, q);
        return Rejected(bad);
      }
      forall d | d in received ensures DealerOk(all, d, received[d], keyperId.value, quorum.value, q) {
        assert d !in bad;
      }
      var share := sum % q;
      combinedShare := Some(share);
      publicKeyShare := Some(Mul(G2, share, q));
      return Accepted(share);
    }

    method ZeroizeDealing()
      modifies this`coefficients, this`sharesForOthers
      ensures coefficients == None && sharesForOthers == map[]
    {
      coefficients := None;
      sharesForOthers := map[];
    }

    /** partial_decrypt; nothing before the ceremony has completed. */
    method PartialDecrypt(c1: Point, q: int) returns (r: Option<Point>)
      requires q > 1
      ensures r.Some? <==> combinedShare.Some?
      ensures r.Some? ==> IsPoint(r.value, q) && Cong(r.value, combinedShare.value * c1, q)
    {
      if combinedShare == None {
        return None;
      }
      MulCong(c1, combinedShare.value, q);
      return Some(Mul(c1, combinedShare.value, q));
    }
  }

  method DealAll(drawn: seq<int>, size: nat, q: int) returns (shares: map<int, int>)
    requires q > 1
    ensures shares.Keys == Range(size)
    ensures forall i :: 1 <= i <= size ==> shares[i] == Eval(drawn, i) % q
  {
    hide *;
    shares := map[];
    for i := 1 to size + 1
      invariant shares.Keys == Range(i - 1)
      invariant forall k :: 1 <= k < i ==> shares[k] == Eval(drawn, k) % q
    {
      var val := DealShare(drawn, i, q);
      shares := shares[i := val];
    }
  }

  method CheckDealer(all: Commitments, dealer: int, share: int, me: int, quorum: int, q: int) returns (ok: bool)
    requires q > 1
    ensures ok <==> DealerOk(all, dealer, share, me, quorum, q)
  {
    ok := false;
    if dealer in all && |all[dealer]| == quorum {
      ok := VerifyShare(all[dealer], me, share, q);
    }
  }

  /** The checking loop of round2, with the sum of everything received. */
  method VerifyAll(all: Commitments, received: map<int, int>, me: int, quorum: int, q: int)
    returns (bad: set<int>, sum: int)
    requires q > 1
    ensures bad == BadDealers(all, received, me, quorum, q)
    ensures sum == SumMap(received)
  {
    bad, sum := {}, 0;
    hide DealerOk, SumMap;
    var rest := received;
    while |rest| != 0
      invariant rest.Keys <= received.Keys && forall d :: d in rest ==> rest[d] == received[d]
      invariant sum + SumMap(rest) == SumMap(received)
      invariant forall d :: d in bad ==> d in received && d !in rest
      invariant forall d :: d in received && d !in rest ==>
                  (d in bad <==> !DealerOk(all, d, received[d], me, quorum, q))
      decreases |rest|
    {
      HasKey(rest);
      var d :| d in rest;
      SumPick(rest, d);
      var ok := CheckDealer(all, d, rest[d], me, quorum, q);
      if !ok {
        bad := bad + {d};
      }
      sum := sum + rest[d];
      rest := rest - {d};
    }
    assert forall d :: d in bad <==> d in received && !DealerOk(all, d, received[d], me, quorum, q);
    SumNone(rest);
  }

  /** The incremental evaluation of round1: val accumulates coefficient * x^j mod q. */
  method DealShare(coefficients: seq<int>, x: int, q: int) returns (val: int)
    requires q > 1
    ensures val == Eval(coefficients, x) % q
  {
    val := 0;
    var xPower := 1;
    for j := 0 to |coefficients|
      invariant val == Eval(coefficients[..j], x) % q
      invariant Cong(xPower, Pow(x, j), q)
    {
      assert coefficients[..j + 1] == coefficients[..j] + [coefficients[j]];
      EvalSnoc(coefficients[..j], coefficients[j], x);
      DealStep(val, Eval(coefficients[..j], x), coefficients[j], xPower, Pow(x, j), x, q);
      val := (val + coefficients[j] * xPower) % q;
      xPower := (xPower * x) % q;
    }
    assert coefficients[..|coefficients|] == coefficients;
  }

  lemma DealStep(val: int, sum: int, c: int, xp: int, p: int, x: int, q: int)
    requires q > 1 && val == sum % q && Cong(xp, p, q)
    ensures (val + c * xp) % q == (sum + c * p) % q
    ensures Cong((xp * x) % q, x * p, q)
  {
    CongMod(sum, q);
    CongScale(xp, p, c, q);
    CongAdd(val, sum, c * xp, c * p, q);
    CongScale(xp, p, x, q);
    CongMod(xp * x, q);
  }

  /** An honestly dealt share always satisfies the Feldman equation of its own commitments. */
  lemma DealtShareMatches(drawn: seq<int>, comms: seq<Point>, i: int, q: int)
    requires q > 1 && |comms| == |drawn|
    requires forall j :: 0 <= j < |drawn| ==> comms[j] == Mul(G2, drawn[j], q)
    ensures ShareMatches(comms, i, Eval(drawn, i) % q, q)
  {
    forall j | 0 <= j < |drawn| ensures Cong(comms[j], drawn[j], q) {
      MulCong(G2, drawn[j], q);
    }
    EvalCong(comms, drawn, i, q);
    CongMod(Eval(drawn, i), q);
  }

  /** Whatever honest dealers draw, the shares they deal to a keyper pass its round 2. */
  lemma HonestDealingAccepted(drawn: map<int, seq<int>>, all: Commitments, received: map<int, int>, me: int,
                              quorum: int, q: int)
    requires q > 1 && received.Keys <= all.Keys == drawn.Keys
    requires forall d :: d in all ==> |all[d]| == |drawn[d]| == quorum
    requires forall d, j :: d in all && 0 <= j < quorum ==> all[d][j] == Mul(G2, drawn[d][j], q)
    requires forall d :: d in received ==> received[d] == Eval(drawn[d], me) % q
    ensures Round2Accepts(all, received, me, quorum, q)
  {
    hide Eval, ShareMatches, Mul;
    forall d | d in received ensures DealerOk(all, d, received[d], me, quorum, q) {
      DealtShareMatches(drawn[d], all[d], me, q);
    }
  }

  /** check_commitment_lengths. */
  ghost predicate LengthsOk(all: Commitments, quorum: int)
  {
    forall d :: d in all ==> |all[d]| == quorum
  }

  ghost function ValuesAt(all: Commitments, x: int): map<int, int>
  {
    map d | d in all :: Eval(all[d], x)
  }

  ghost function WrongLengths(all: Commitments, quorum: int): set<int>
  {
    set d | d in all && |all[d]| != quorum
  }

  method CheckCommitmentLengths(all: Commitments, quorum: int) returns (bad: set<int>)
    ensures bad == WrongLengths(all, quorum)
    ensures bad == {} <==> LengthsOk(all, quorum)
  {
    bad := set d | d in all && |all[d]| != quorum;
    if bad == {} {
      forall d | d in all ensures |all[d]| == quorum {
        assert d !in bad;
      }
    } else {
      ghost var d: int := Pick(bad);
      assert d in all && |all[d]| != quorum;
    }
  }

  /** derive_joint_mpk: the sum of the constant commitments. */
  method DeriveJointMpk(all: Commitments, quorum: nat, q: int) returns (v: Checked<Point>)
    requires q > 1 && quorum > 0
    ensures v.Accepted? <==> LengthsOk(all, quorum)
    ensures v.Rejected? ==> v.badDealers == WrongLengths(all, quorum)
    ensures v.Accepted? ==> IsPoint(v.value, q) && Cong(v.value, SumMap(ValuesAt(all, 0)), q)
  {
    var bad := CheckCommitmentLengths(all, quorum);
    if bad != {} {
      return Rejected(bad);
    }
    var mpk := SumConstants(all, q);
    return Accepted(mpk);
  }

  method SumConstants(all: Commitments, q: int) returns (mpk: Point)
    requires q > 1 && forall d :: d in all ==> |all[d]| > 0
    ensures IsPoint(mpk, q) && Cong(mpk, SumMap(ValuesAt(all, 0)), q)
  {
    mpk := Z2;
    hide Cong, ValuesAt, SumMap, Add;
    var rest := all;
    CongRefl(SumMap(ValuesAt(all, 0)), q);
    while |rest| != 0
      invariant forall d :: d in rest ==> |rest[d]| > 0
      invariant IsPoint(mpk, q) && Cong(mpk + SumMap(ValuesAt(rest, 0)), SumMap(ValuesAt(all, 0)), q)
      decreases |rest|
    {
      HasKey(rest);
      var d :| d in rest;
      EvalAtZero(rest[d]);
      AddCong(mpk, rest[d][0], q);
      TakeDealer(rest, d, 0, mpk, Add(mpk, rest[d][0], q), SumMap(ValuesAt(all, 0)), q);
      mpk := Add(mpk, rest[d][0], q);
      rest := rest - {d};
    }
    NothingLeft(rest, 0);
  }

  lemma NothingLeft(rest: Commitments, x: int)
    requires |rest| == 0
    ensures SumMap(ValuesAt(rest, x)) == 0
  {
    assert ValuesAt(rest, x) == map[];
  }

  /** Moving one dealer's value from the remaining sum into the accumulator. */
  lemma TakeDealer(rest: Commitments, d: int, x: int, acc: int, acc': int, total: int, q: int)
    requires q > 1 && d in rest && Cong(acc', acc + Eval(rest[d], x), q)
    requires Cong(acc + SumMap(ValuesAt(rest, x)), total, q)
    ensures Cong(acc' + SumMap(ValuesAt(rest - {d}, x)), total, q)
  {
    hide *;
    ValuesDrop(rest, d, x);
    var s := SumMap(ValuesAt(rest - {d}, x));
    CongRefl(s, q);
    CongAdd(acc', acc + Eval(rest[d], x), s, s, q);
    CongTrans(acc' + s, acc + Eval(rest[d], x) + s, total, q);
  }

  lemma ValuesDrop(rest: Commitments, d: int, x: int)
    requires d in rest
    ensures SumMap(ValuesAt(rest, x)) == Eval(rest[d], x) + SumMap(ValuesAt(rest - {d}, x))
  {
    SumPick(ValuesAt(rest, x), d);
    assert ValuesAt(rest, x) - {d} == ValuesAt(rest - {d}, x);
  }

  /** derive_mpk_share: the joint polynomial evaluated in the exponent. */
  method DeriveMpkShare(target: int, all: Commitments, quorum: nat, q: int) returns (v: Checked<Point>)
    requires q > 1
    ensures v.Accepted? <==> LengthsOk(all, quorum)
    ensures v.Rejected? ==> v.badDealers == WrongLengths(all, quorum)
    ensures v.Accepted? ==> IsPoint(v.value, q) && Cong(v.value, SumMap(ValuesAt(all, target)), q)
  {
    var bad := CheckCommitmentLengths(all, quorum);
    if bad != {} {
      return Rejected(bad);
    }
    var share := SumValues(target, all, q);
    return Accepted(share);
  }

  method SumValues(target: int, all: Commitments, q: int) returns (share: Point)
    requires q > 1
    ensures IsPoint(share, q) && Cong(share, SumMap(ValuesAt(all, target)), q)
  {
    share := Z2;
    hide Cong, ValuesAt, SumMap;
    var rest := all;
    CongRefl(SumMap(ValuesAt(all, target)), q);
    while |rest| != 0
      invariant IsPoint(share, q)
      invariant Cong(share + SumMap(ValuesAt(rest, target)), SumMap(ValuesAt(all, target)), q)
      decreases |rest|
    {
      HasKey(rest);
      var d :| d in rest;
      var next := AccumulateEval(share, rest[d], target, q);
      TakeDealer(rest, d, target, share, next, SumMap(ValuesAt(all, target)), q);
      share := next;
      rest := rest - {d};
    }
    NothingLeft(rest, target);
  }

  // ----- one polynomial behind every accepted ceremony -----

  /** Coefficient-wise sum of all commitment vectors: the joint sharing polynomial. */
  ghost function Joint(all: Commitments, quorum: nat): (f: seq<int>)
    requires LengthsOk(all, quorum)
    ensures |f| == quorum
    decreases |all|
  {
    if |all| == 0 then seq(quorum, _ => 0)
    else
      var d := Pick(all.Keys);
      PolyAdd(all[d], Joint(all - {d}, quorum))
  }

  lemma {:induction false} JointEvaluates(all: Commitments, quorum: nat, x: int)
    requires LengthsOk(all, quorum)
    ensures Eval(Joint(all, quorum), x) == SumMap(ValuesAt(all, x))
    decreases |all|
  {
    hide Eval, PolyAdd;
    if |all| == 0 {
      EvalZeros(quorum, x);
      assert ValuesAt(all, x) == map[];
    } else {
      var d := Pick(all.Keys);
      JointEvaluates(all - {d}, quorum, x);
      EvalAdd(all[d], Joint(all - {d}, quorum), x);
      SumPick(ValuesAt(all, x), d);
      assert ValuesAt(all, x) - {d} == ValuesAt(all - {d}, x);
    }
  }

  lemma EvalAtZero(f: seq<int>)
    ensures Eval(f, 0) == AtZero(f)
  {
  }

  /** Consistency with arbitrary dealers: whatever vectors the dealers published, a keyper
      whose round 2 accepts over exactly those dealers holds the joint polynomial's value at
      its own index, the joint key is that polynomial at zero, and the published share of any
      index is the polynomial there. */
  lemma DkgConsistency(all: Commitments, received: map<int, int>, me: int, quorum: nat, q: int)
    requires q > 1 && quorum > 0
    requires received.Keys == all.Keys && Round2Accepts(all, received, me, quorum, q)
    ensures LengthsOk(all, quorum) && |Joint(all, quorum)| == quorum
    ensures Cong(SumMap(received), Eval(Joint(all, quorum), me), q)
    ensures SumMap(ValuesAt(all, 0)) == AtZero(Joint(all, quorum))
    ensures forall i :: SumMap(ValuesAt(all, i)) == Eval(Joint(all, quorum), i)
  {
    forall d | d in all ensures |all[d]| == quorum {
      assert d in received;
    }
    forall i ensures SumMap(ValuesAt(all, i)) == Eval(Joint(all, quorum), i) {
      JointEvaluates(all, quorum, i);
    }
    EvalAtZero(Joint(all, quorum));
    forall d | d in received ensures Cong(received[d], ValuesAt(all, me)[d], q) {
      assert DealerOk(all, d, received[d], me, quorum, q);
    }
    SumCong(received, ValuesAt(all, me), q);
  }

  /** What a keyper publishes: the joint key and one public share per committee index. */
  datatype KeyResult = KeyResult(pk: Point, committee: seq<Point>)

  /** `out` is what the commitments of dealers 1..n determine, by position. */
  ghost predicate Publishes(all: Commitments, n: nat, quorum: nat, q: int, out: KeyResult)
    requires q > 1
  {
    && all.Keys == Range(n) && LengthsOk(all, quorum)
    && IsPoint(out.pk, q) && Cong(out.pk, SumMap(ValuesAt(all, 0)), q)
    && |out.committee| == n
    && forall i :: 0 <= i < n ==> IsPublicShare(out.committee[i], all, i + 1, q)
  }

  /** The finalized key lies on the polynomial f: pk = f(0)*P2 and committee[i-1] = f(i)*P2. */
  ghost predicate OnPolynomial(out: KeyResult, f: seq<int>, n: nat, q: int)
    requires q > 1
  {
    && Cong(out.pk, AtZero(f), q) && |out.committee| == n
    && forall i :: 0 <= i < n ==> Cong(out.committee[i], Eval(f, i + 1), q)
  }

  ghost predicate IsPublicShare(p: Point, all: Commitments, i: int, q: int)
    requires q > 1
  {
    IsPoint(p, q) && Cong(p, SumMap(ValuesAt(all, i)), q)
  }

  lemma PublishedOnJoint(all: Commitments, n: nat, quorum: nat, q: int, out: KeyResult)
    requires q > 1 && quorum > 0 && Publishes(all, n, quorum, q, out)
    ensures |Joint(all, quorum)| == quorum && OnPolynomial(out, Joint(all, quorum), n, q)
  {
    hide Eval, Joint, SumMap, ValuesAt, Cong, LengthsOk;
    JointEvaluates(all, quorum, 0);
    EvalAtZero(Joint(all, quorum));
    forall i | 0 <= i < n ensures Cong(out.committee[i], Eval(Joint(all, quorum), i + 1), q) {
      assert IsPublicShare(out.committee[i], all, i + 1, q);
      JointEvaluates(all, quorum, i + 1);
    }
  }

  /** Agreement on the published key is enough even against equivocating dealers: if two
      keypers hold different commitment vectors yet publish the same result, the secret share
      of either lies on one polynomial of length `quorum`, which also gives the joint key. */
  lemma PublishersShareOnePolynomial(
    mine: Commitments, theirs: Commitments, received: map<int, int>, them: int,
    n: nat, quorum: nat, q: int, out: KeyResult)
    requires q > 1 && quorum > 0 && 1 <= them <= n
    requires Publishes(mine, n, quorum, q, out) && Publishes(theirs, n, quorum, q, out)
    requires received.Keys == theirs.Keys && Round2Accepts(theirs, received, them, quorum, q)
    ensures OnPolynomial(out, Joint(mine, quorum), n, q)
    ensures Cong(SumMap(received), Eval(Joint(mine, quorum), them), q)
    ensures Mul(G2, SumMap(received) % q, q) == out.committee[them - 1]
  {
    PublishedOnJoint(mine, n, quorum, q, out);
    PublishedOnJoint(theirs, n, quorum, q, out);
    DkgConsistency(theirs, received, them, quorum, q);
    var s := SumMap(received);
    CongMod(s, q);
    MulCong(G2, s % q, q);
    CongSmall(Mul(G2, s % q, q), out.committee[them - 1], q);
  }
}
