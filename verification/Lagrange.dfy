/** Lagrange interpolation at zero (crypto/recovery.py): coefficients, combination of
    partial decryptions, and the proof that any quorum interpolates the same value. */
module Lagrange {
  import opened Field
  import opened Group
  import opened Polynomial

  /** Product of (0 - k) over the listed ids other than `j`. */
  function Numerator(j: int, ids: seq<int>): int
  {
    if ids == [] then 1
    else if ids[0] == j then Numerator(j, ids[1..])
    else (0 - ids[0]) * Numerator(j, ids[1..])
  }

  /** Product of (j - k) over the listed ids other than `j`. */
  function Denominator(j: int, ids: seq<int>): int
  {
    if ids == [] then 1
    else if ids[0] == j then Denominator(j, ids[1..])
    else (j - ids[0]) * Denominator(j, ids[1..])
  }

  ghost predicate DistinctMod(ids: seq<int>, q: int)
    requires q > 0
  {
    forall i, k :: 0 <= i < k < |ids| ==> !Cong(ids[i], ids[k], q)
  }

  lemma MulAssoc(a: int, b: int, c: int)
    ensures a * (b * c) == (a * b) * c
    ensures a * (b * c) == b * (a * c)
  {
  }

  lemma {:induction false} ProductSnoc(j: int, ids: seq<int>, k: int)
    ensures Numerator(j, ids + [k]) == if k == j then Numerator(j, ids) else Numerator(j, ids) * (0 - k)
    ensures Denominator(j, ids + [k]) == if k == j then Denominator(j, ids) else Denominator(j, ids) * (j - k)
  {
    if ids != [] {
      ProductSnoc(j, ids[1..], k);
      assert (ids + [k])[1..] == ids[1..] + [k];
      MulAssoc(0 - ids[0], Numerator(j, ids[1..]), 0 - k);
      MulAssoc(j - ids[0], Denominator(j, ids[1..]), j - k);
    }
  }

  /** The denominator vanishes mod a prime exactly when another listed id coincides with `j`. */
  lemma {:induction false} DenominatorZero(j: int, ids: seq<int>, q: int)
    requires IsPrime(q)
    ensures Denominator(j, ids) % q == 0 <==> exists i :: 0 <= i < |ids| && ids[i] != j && Cong(ids[i], j, q)
  {
    if ids == [] {
      ModUnique(1, 0, 1, q);
    } else {
      var k, d := ids[0], Denominator(j, ids[1..]);
      DenominatorZero(j, ids[1..], q);
      if k == j {
        assert forall i :: 0 <= i < |ids| && ids[i] != j && Cong(ids[i], j, q) ==>
          ids[1..][i - 1] == ids[i];
      } else {
        CongZero(j, k, q);
        if (j - k) % q == 0 {
          CongScale(j - k, 0, d, q);
          assert ids[0] != j && Cong(ids[0], j, q);
        } else if d % q == 0 {
          CongScale(d, 0, j - k, q);
        } else {
          NoZeroDivisors(j - k, d, q);
          assert forall i :: 0 < i < |ids| ==> ids[1..][i - 1] == ids[i];
        }
      }
    }
  }

  /** The coefficient lagrange_coefficient returns, or nothing when its inverse does not exist. */
  function Coefficient(j: int, ids: seq<int>, q: int): Option<int>
    requires q > 1
  {
    match ModInverse(Denominator(j, ids) % q, q)
    case Some(inv) => Some((Numerator(j, ids) % q * inv) % q)
    case None => None
  }

  /** The same coefficient as a total function. */
  function Lambda(j: int, ids: seq<int>, q: int): int
    requires q > 1
  {
    match Coefficient(j, ids, q)
    case Some(c) => c
    case None => 0
  }

  method LagrangeCoefficient(j: int, ids: seq<int>, q: int) returns (r: Option<int>)
    requires q > 1
    ensures r == Coefficient(j, ids, q)
    ensures r.Some? ==> 0 <= r.value < q && Cong(r.value * Denominator(j, ids), Numerator(j, ids), q)
    ensures IsPrime(q) ==> (r.None? <==> exists i :: 0 <= i < |ids| && ids[i] != j && Cong(ids[i], j, q))
  {
    var num, den := 1, 1;
    ModUnique(1, 0, 1, q);
    for i := 0 to |ids|
      invariant num == Numerator(j, ids[..i]) % q
      invariant den == Denominator(j, ids[..i]) % q
    {
      var k := ids[i];
      assert ids[..i + 1] == ids[..i] + [k];
      ProductSnoc(j, ids[..i], k);
      if k != j {
        var n, d := Numerator(j, ids[..i]), Denominator(j, ids[..i]);
        CongMod(n, q);
        CongMod(d, q);
        CongScale(num, n, 0 - k, q);
        CongScale(den, d, j - k, q);
        num := (num * (0 - k)) % q;
        den := (den * (j - k)) % q;
      }
    }
    assert ids[..|ids|] == ids;
    var inv := ModInverse(den, q);
    r := if inv.None? then None else Some((num * inv.value) % q);
    if IsPrime(q) {
      DenominatorZero(j, ids, q);
      CongMod(Denominator(j, ids), q);
      PrimeInverse(den, q);
    }
    if r.Some? {
      CoefficientSolves(j, ids, q);
    }
  }

  lemma CoefficientSolves(j: int, ids: seq<int>, q: int)
    requires q > 1 && Coefficient(j, ids, q).Some?
    ensures 0 <= Coefficient(j, ids, q).value < q
    ensures Cong(Coefficient(j, ids, q).value * Denominator(j, ids), Numerator(j, ids), q)
  {
    hide Numerator, Denominator, ModInverse;
    var n, d := Numerator(j, ids), Denominator(j, ids);
    InverseSolves(n, d, ModInverse(d % q, q).value, q);
  }

  /** n times an inverse of d, times d, is n again. */
  lemma InverseSolves(n: int, d: int, inv: int, q: int)
    requires q > 1 && Cong((d % q) * inv, 1, q)
    ensures Cong((n % q * inv) % q * d, n, q)
  {
    var c := (n % q * inv) % q;
    CongMod(n, q);
    CongMod(d, q);
    CongMod(n % q * inv, q);
    CongScale(d % q, d, inv, q);
    CongScale(n % q, n, inv, q);
    CongScale(c, n * inv, d, q);
    CongScale(d * inv, 1, n, q);
    MulAssoc(n, inv, d);
    MulAssoc(n, d, inv);
    assert (n * inv) * d == n * (d * inv);
  }

  /** Adding an id multiplies every other coefficient by -a / (j - a). */
  lemma LambdaStep(j: int, a: int, ids: seq<int>, q: int)
    requires IsPrime(q) && !Cong(j, a, q)
    requires forall i :: 0 <= i < |ids| && ids[i] != j ==> !Cong(ids[i], j, q)
    ensures Cong(Lambda(j, [a] + ids, q) * (j - a), Lambda(j, ids, q) * (0 - a), q)
  {
    var all := [a] + ids;
    assert all[1..] == ids;
    var n, d := Numerator(j, ids), Denominator(j, ids);
    assert Numerator(j, all) == (0 - a) * n && Denominator(j, all) == (j - a) * d;
    CongZero(j, a, q);
    DenominatorZero(j, ids, q);
    NoZeroDivisors(j - a, d, q);
    CongMod(d, q);
    CongMod((j - a) * d, q);
    PrimeInverse(d % q, q);
    PrimeInverse((j - a) * d % q, q);
    CoefficientSolves(j, ids, q);
    CoefficientSolves(j, all, q);
    var l, l' := Lambda(j, ids, q), Lambda(j, all, q);
    StepCancel(l, l', n, d, j - a, 0 - a, q);
  }

  /** From l' * (x*d) == y*n and l*d == n follows l'*x == l*y, d being invertible. */
  lemma StepCancel(l: int, l': int, n: int, d: int, x: int, y: int, q: int)
    requires IsPrime(q) && d % q != 0
    requires Cong(l * d, n, q) && Cong(l' * (x * d), y * n, q)
    ensures Cong(l' * x, l * y, q)
  {
    CongScale(l * d, n, y, q);
    MulAssoc(d, l', x);
    MulAssoc(l', x, d);
    MulAssoc(y, l, d);
    assert d * (l' * x) == l' * (x * d);
    assert d * (l * y) == y * (l * d);
    CancelFactor(d, l' * x, l * y, q);
  }

  lemma {:induction false} SwapCommutes(j: int, a: int, b: int, ids: seq<int>)
    ensures Numerator(j, [a, b] + ids) == Numerator(j, [b, a] + ids)
    ensures Denominator(j, [a, b] + ids) == Denominator(j, [b, a] + ids)
  {
    assert ([a, b] + ids)[1..] == [b] + ids && ([b] + ids)[1..] == ids;
    assert ([b, a] + ids)[1..] == [a] + ids && ([a] + ids)[1..] == ids;
    var n, d := Numerator(j, ids), Denominator(j, ids);
    assert (0 - a) * ((0 - b) * n) == (0 - b) * ((0 - a) * n);
    assert (j - a) * ((j - b) * d) == (j - b) * ((j - a) * d);
  }

  /** Sum over `js` of lambda_j * f(j), with coefficients taken for the id list `ids`. */
  function Interpolate(js: seq<int>, ids: seq<int>, f: seq<int>, q: int): int
    requires q > 1
  {
    if js == [] then 0
    else Lambda(js[0], ids, q) * Eval(f, js[0]) + Interpolate(js[1..], ids, f, q)
  }

  /** The same sum for the polynomial (x - a) * f(x). */
  function InterpolateShifted(js: seq<int>, ids: seq<int>, f: seq<int>, a: int, q: int): int
    requires q > 1
  {
    if js == [] then 0
    else Lambda(js[0], ids, q) * ((js[0] - a) * Eval(f, js[0])) + InterpolateShifted(js[1..], ids, f, a, q)
  }

  lemma {:induction false} SplitHorner(js: seq<int>, ids: seq<int>, c: int, h: seq<int>, a: int, q: int)
    requires q > 1
    ensures Interpolate(js, ids, [c] + h, q)
         == c * Interpolate(js, ids, [1], q) + InterpolateShifted(js, ids, h, a, q) + a * Interpolate(js, ids, h, q)
  {
    if js != [] {
      SplitHorner(js[1..], ids, c, h, a, q);
      var j, l := js[0], Lambda(js[0], ids, q);
      assert ([c] + h)[1..] == h;
      assert Eval([1], j) == 1 + j * Eval([], j) == 1;
      HornerAlgebra(l, c, j, a, Eval(h, j), Interpolate(js[1..], ids, [1], q), Interpolate(js[1..], ids, h, q));
    }
  }

  lemma HornerAlgebra(l: int, c: int, j: int, a: int, h: int, x: int, y: int)
    ensures l * (c + j * h) + (c * x + a * y) == c * (l * 1 + x) + l * ((j - a) * h) + a * (l * h + y)
  {
    assert (j - a) * h == j * h - a * h;
    assert l * (j * h - a * h) == l * (j * h) - l * (a * h);
    assert l * (a * h) == a * (l * h);
    assert l * (c + j * h) == l * c + l * (j * h);
    assert a * (l * h + y) == a * (l * h) + a * y;
  }

  lemma {:induction false} DropFirst(js: seq<int>, a: int, ids: seq<int>, h: seq<int>, q: int)
    requires IsPrime(q) && DistinctMod([a] + ids, q)
    requires forall i :: 0 <= i < |js| ==> js[i] in ids
    ensures Cong(InterpolateShifted(js, [a] + ids, h, a, q), (0 - a) * Interpolate(js, ids, h, q), q)
  {
    hide Cong, Lambda, DistinctMod, Eval;
    if js == [] {
      CongRefl(0, q);
    } else {
      DropFirst(js[1..], a, ids, h, q);
      var j := js[0];
      var all := [a] + ids;
      assert j in ids;
      LambdaDrops(j, a, ids, q);
      DropAlgebra(Lambda(j, ids, q), Lambda(j, all, q), j - a, 0 - a, Eval(h, j),
                  InterpolateShifted(js[1..], all, h, a, q), Interpolate(js[1..], ids, h, q), q);
    }
  }

  /** LambdaStep for a listed id of a list without repetitions. */
  lemma LambdaDrops(j: int, a: int, ids: seq<int>, q: int)
    requires IsPrime(q) && DistinctMod([a] + ids, q) && j in ids
    ensures Cong(Lambda(j, [a] + ids, q) * (j - a), Lambda(j, ids, q) * (0 - a), q)
  {
    hide Lambda;
    var all := [a] + ids;
    var p :| 0 <= p < |ids| && ids[p] == j;
    assert all[0] == a && all[p + 1] == j;
    assert forall i :: 0 <= i < |ids| ==> all[i + 1] == ids[i];
    LambdaStep(j, a, ids, q);
  }

  lemma DropAlgebra(l: int, l': int, x: int, y: int, e: int, sh: int, s: int, q: int)
    requires q > 1 && Cong(l' * x, l * y, q) && Cong(sh, y * s, q)
    ensures Cong(l' * (x * e) + sh, y * (l * e + s), q)
  {
    CongScale(l' * x, l * y, e, q);
    MulAssoc(l', x, e);
    MulAssoc(y, l, e);
    assert y * l == l * y;
    assert y * (l * e + s) == y * (l * e) + y * s;
    CongAdd(l' * (x * e), y * (l * e), sh, y * s, q);
  }

  /** The shifted sum over a whole list loses its own first point. */
  lemma DropWhole(a: int, ids: seq<int>, h: seq<int>, q: int)
    requires IsPrime(q) && DistinctMod([a] + ids, q)
    ensures Cong(InterpolateShifted([a] + ids, [a] + ids, h, a, q), (0 - a) * Interpolate(ids, ids, h, q), q)
  {
    DropFirst(ids, a, ids, h, q);
    assert ([a] + ids)[1..] == ids;
    assert (a - a) * Eval(h, a) == 0;
  }

  lemma DifferenceAlgebra(l: int, j: int, a: int, b: int, s: int)
    ensures l * ((j - a) * 1) - l * ((j - b) * 1) + (b - a) * s == (b - a) * (l * 1 + s)
  {
    assert l * (j - a) - l * (j - b) == (b - a) * l;
  }

  lemma {:induction false} ShiftDifference(js: seq<int>, ids: seq<int>, a: int, b: int, q: int)
    requires q > 1
    ensures InterpolateShifted(js, ids, [1], a, q) - InterpolateShifted(js, ids, [1], b, q)
         == (b - a) * Interpolate(js, ids, [1], q)
  {
    if js != [] {
      ShiftDifference(js[1..], ids, a, b, q);
      var j, l := js[0], Lambda(js[0], ids, q);
      assert Eval([1], j) == 1 + j * Eval([], j) == 1;
      var s := Interpolate(js[1..], ids, [1], q);
      DifferenceAlgebra(l, j, a, b, s);
    }
  }

  lemma {:induction false} SwapLists(js: seq<int>, a: int, b: int, ids: seq<int>, h: seq<int>, c: int, q: int)
    requires q > 1
    ensures InterpolateShifted(js, [a, b] + ids, h, c, q) == InterpolateShifted(js, [b, a] + ids, h, c, q)
  {
    if js != [] {
      SwapLists(js[1..], a, b, ids, h, c, q);
      SwapCommutes(js[0], a, b, ids);
    }
  }

  lemma SwapPoints(a: int, b: int, js: seq<int>, ids: seq<int>, h: seq<int>, c: int, q: int)
    requires q > 1
    ensures InterpolateShifted([a, b] + js, ids, h, c, q) == InterpolateShifted([b, a] + js, ids, h, c, q)
  {
    assert ([a, b] + js)[1..] == [b] + js && ([b] + js)[1..] == js;
    assert ([b, a] + js)[1..] == [a] + js && ([a] + js)[1..] == js;
  }

  lemma DistinctTail(ids: seq<int>, q: int)
    requires q > 0 && |ids| > 0 && DistinctMod(ids, q)
    ensures DistinctMod(ids[1..], q)
  {
  }

  lemma DistinctSwap(a: int, b: int, ids: seq<int>, q: int)
    requires q > 0 && DistinctMod([a, b] + ids, q)
    ensures DistinctMod([b, a] + ids, q) && DistinctMod([a] + ids, q) && DistinctMod([b] + ids, q)
    ensures !Cong(a, b, q)
  {
    var s, t := [a, b] + ids, [b, a] + ids;
    assert s[0] == a && s[1] == b;
    forall i, k | 0 <= i < k < |t| ensures !Cong(t[i], t[k], q) {
      var i' := if i == 0 then 1 else if i == 1 then 0 else i;
      var k' := if k == 1 then 0 else k;
      assert t[i] == s[i'] && t[k] == s[k'];
    }
    assert s[1..] == [b] + ids && t[1..] == [a] + ids;
  }

  /** The coefficients of any non-empty list of distinct ids sum to one. */
  lemma {:induction false} CoefficientsSumToOne(ids: seq<int>, q: int)
    requires IsPrime(q) && |ids| > 0 && DistinctMod(ids, q)
    ensures Cong(Interpolate(ids, ids, [1], q), 1, q)
    decreases |ids|
  {
    var a := ids[0];
    if |ids| == 1 {
      SinglePoint(a, ids, q);
    } else {
      var b, rest := ids[1], ids[2..];
      assert ids == [a, b] + rest && [a] + ([b] + rest) == ids && [b] + ([a] + rest) == [b, a] + rest;
      DistinctSwap(a, b, rest, q);
      CoefficientsSumToOne([b] + rest, q);
      CoefficientsSumToOne([a] + rest, q);
      DropWhole(a, [b] + rest, [1], q);
      DropWhole(b, [a] + rest, [1], q);
      SwapPoints(a, b, rest, ids, [1], b, q);
      SwapLists([b, a] + rest, a, b, rest, [1], b, q);
      ShiftDifference(ids, ids, a, b, q);
      var sa, sb := InterpolateShifted(ids, ids, [1], a, q), InterpolateShifted(ids, ids, [1], b, q);
      CongScale(Interpolate([b] + rest, [b] + rest, [1], q), 1, 0 - a, q);
      CongScale(Interpolate([a] + rest, [a] + rest, [1], q), 1, 0 - b, q);
      CongAdd(sa, 0 - a, sb, 0 - b, q);
      CongZero(b, a, q);
      CancelFactor(b - a, Interpolate(ids, ids, [1], q), 1, q);
    }
  }

  lemma SinglePoint(a: int, ids: seq<int>, q: int)
    requires IsPrime(q) && ids == [a]
    ensures Cong(Interpolate(ids, ids, [1], q), 1, q)
  {
    assert ids[1..] == [];
    assert Numerator(a, ids) == Numerator(a, []) == 1 && Denominator(a, ids) == Denominator(a, []) == 1;
    ModUnique(1, 0, 1, q);
    PrimeInverse(1, q);
    CoefficientSolves(a, ids, q);
    assert Eval([1], a) == 1 + a * Eval([], a) == 1;
    assert Interpolate([], ids, [1], q) == 0;
  }

  lemma {:induction false} InterpolateZero(js: seq<int>, ids: seq<int>, q: int)
    requires q > 1
    ensures Interpolate(js, ids, [], q) == 0
  {
    if js != [] {
      InterpolateZero(js[1..], ids, q);
    }
  }

  /** Lagrange at zero: for a prime modulus, any list of distinct ids at least as long as
      the coefficient vector interpolates the constant coefficient. */
  lemma {:induction false} InterpolatesAtZero(ids: seq<int>, f: seq<int>, q: int)
    requires IsPrime(q) && DistinctMod(ids, q) && |f| <= |ids|
    ensures Cong(Interpolate(ids, ids, f, q), AtZero(f), q)
    decreases |f|
  {
    if f == [] {
      InterpolateZero(ids, ids, q);
    } else {
      var a, rest, c, h := ids[0], ids[1..], f[0], f[1..];
      assert [a] + rest == ids && [c] + h == f;
      DistinctTail(ids, q);
      InterpolatesAtZero(ids, h, q);
      InterpolatesAtZero(rest, h, q);
      CoefficientsSumToOne(ids, q);
      SplitHorner(ids, ids, c, h, a, q);
      DropWhole(a, rest, h, q);
      var one, i0 := Interpolate(ids, ids, [1], q), Interpolate(ids, ids, h, q);
      var sh := InterpolateShifted(ids, ids, h, a, q);
      HornerAtZero(c, one, sh, i0, Interpolate(rest, rest, h, q), a, AtZero(h), q);
    }
  }

  lemma HornerAtZero(c: int, one: int, sh: int, whole: int, rest: int, a: int, z: int, q: int)
    requires q > 1 && Cong(one, 1, q) && Cong(sh, (0 - a) * rest, q) && Cong(rest, z, q) && Cong(whole, z, q)
    ensures Cong(c * one + sh + a * whole, c, q)
  {
    CongScale(one, 1, c, q);
    CongScale(rest, z, 0 - a, q);
    CongScale(whole, z, a, q);
    CongAdd(c * one, c, sh, (0 - a) * z, q);
    CongAdd(c * one + sh, c + (0 - a) * z, a * whole, a * z, q);
    assert c + (0 - a) * z + a * z == c;
  }

  // ----- combining partial decryptions -----

  datatype Partial = Partial(id: int, sigma: Point)

  function Ids(shares: seq<Partial>): (ids: seq<int>)
    ensures |ids| == |shares| && forall i :: 0 <= i < |ids| ==> ids[i] == shares[i].id
  {
    seq(|shares|, i requires 0 <= i < |shares| => shares[i].id)
  }

  /** Sum of lambda_j * sigma_j over the listed shares. */
  function Combined(shares: seq<Partial>, ids: seq<int>, q: int): int
    requires q > 1
  {
    if shares == [] then 0
    else Combined(shares[..|shares| - 1], ids, q)
         + shares[|shares| - 1].sigma * Lambda(shares[|shares| - 1].id, ids, q)
  }

  /** combine_shares; nothing when some coefficient's inverse does not exist. */
  method CombineShares(shares: seq<Partial>, q: int) returns (r: Option<Point>)
    requires q > 1
    ensures r.Some? <==> forall i :: 0 <= i < |shares| ==> Coefficient(shares[i].id, Ids(shares), q).Some?
    ensures r.Some? ==> r.value == Combined(shares, Ids(shares), q) % q
  {
    var ids := Ids(shares);
    var result := Z2;
    for i := 0 to |shares|
      invariant forall k :: 0 <= k < i ==> Coefficient(shares[k].id, ids, q).Some?
      invariant result == Combined(shares[..i], ids, q) % q
    {
      var lam := LagrangeCoefficient(shares[i].id, ids, q);
      if lam.None? {
        return None;
      }
      assert shares[..i + 1][..i] == shares[..i];
      var c := Combined(shares[..i], ids, q);
      CongMod(c, q);
      AddMulCong(result, shares[i].sigma, lam.value, q);
      CongAdd(result, c, shares[i].sigma * lam.value, shares[i].sigma * lam.value, q);
      result := Add(result, Mul(shares[i].sigma, lam.value, q), q);
      ModUnique(result, 0, result, q);
    }
    assert shares[..|shares|] == shares;
    r := Some(result);
  }

  /** Each share is the point F(id)*C1 for the sharing polynomial F. */
  ghost predicate SharesOf(shares: seq<Partial>, f: seq<int>, c1: Point, q: int)
    requires q > 1
  {
    forall i :: 0 <= i < |shares| ==> Cong(shares[i].sigma, Eval(f, shares[i].id) * c1, q)
  }

  lemma {:induction false} InterpolateSnoc(js: seq<int>, j: int, ids: seq<int>, f: seq<int>, q: int)
    requires q > 1
    ensures Interpolate(js + [j], ids, f, q) == Interpolate(js, ids, f, q) + Lambda(j, ids, q) * Eval(f, j)
  {
    if js == [] {
      assert js + [j] == [j];
      assert Interpolate([j], ids, f, q) == Lambda(j, ids, q) * Eval(f, j) + Interpolate([], ids, f, q);
    } else {
      InterpolateSnoc(js[1..], j, ids, f, q);
      assert (js + [j])[1..] == js[1..] + [j];
    }
  }

  lemma {:induction false} CombinedInterpolates(shares: seq<Partial>, ids: seq<int>, f: seq<int>, c1: Point, q: int)
    requires q > 1 && SharesOf(shares, f, c1, q)
    ensures Cong(Combined(shares, ids, q), c1 * Interpolate(Ids(shares), ids, f, q), q)
  {
    if shares != [] {
      var n := |shares| - 1;
      CombinedInterpolates(shares[..n], ids, f, c1, q);
      var s := shares[n];
      assert Ids(shares) == Ids(shares[..n]) + [s.id];
      InterpolateSnoc(Ids(shares[..n]), s.id, ids, f, q);
      CombineAlgebra(Combined(shares[..n], ids, q), Interpolate(Ids(shares[..n]), ids, f, q),
                     s.sigma, Eval(f, s.id), Lambda(s.id, ids, q), c1, q);
    }
  }

  lemma CombineAlgebra(acc: int, sum: int, sigma: int, e: int, lam: int, c1: int, q: int)
    requires q > 1 && Cong(acc, c1 * sum, q) && Cong(sigma, e * c1, q)
    ensures Cong(acc + sigma * lam, c1 * (sum + lam * e), q)
  {
    CongScale(sigma, e * c1, lam, q);
    assert (e * c1) * lam == c1 * (lam * e);
    assert c1 * (sum + lam * e) == c1 * sum + c1 * (lam * e);
    CongAdd(acc, c1 * sum, sigma * lam, (e * c1) * lam, q);
  }

  /** Distinct ids always have coefficients. */
  lemma DistinctHaveCoefficients(ids: seq<int>, q: int)
    requires IsPrime(q) && DistinctMod(ids, q)
    ensures forall i :: 0 <= i < |ids| ==> Coefficient(ids[i], ids, q).Some?
  {
    forall i | 0 <= i < |ids| ensures Coefficient(ids[i], ids, q).Some? {
      DenominatorZero(ids[i], ids, q);
      CongMod(Denominator(ids[i], ids), q);
      PrimeInverse(Denominator(ids[i], ids) % q, q);
      forall k | 0 <= k < |ids| && ids[k] != ids[i] ensures !Cong(ids[k], ids[i], q) {
        if k < i { assert !Cong(ids[k], ids[i], q); } else { assert !Cong(ids[i], ids[k], q); }
      }
    }
  }

  /** Threshold combination: any list of distinct shares at least as long as the sharing
      polynomial combines to F(0)*C1, so the value never depends on the chosen quorum. */
  lemma QuorumIndependent(shares: seq<Partial>, f: seq<int>, c1: Point, q: int)
    requires IsPrime(q) && DistinctMod(Ids(shares), q) && |f| <= |shares|
    requires SharesOf(shares, f, c1, q)
    ensures forall i :: 0 <= i < |shares| ==> Coefficient(shares[i].id, Ids(shares), q).Some?
    ensures Cong(Combined(shares, Ids(shares), q), AtZero(f) * c1, q)
  {
    var ids := Ids(shares);
    DistinctHaveCoefficients(ids, q);
    assert forall i :: 0 <= i < |shares| ==> ids[i] == shares[i].id;
    InterpolatesAtZero(ids, f, q);
    CombinedInterpolates(shares, ids, f, c1, q);
    CongScale(Interpolate(ids, ids, f, q), AtZero(f), c1, q);
  }
}
