/** Baby-step giant-step recovery of small exponents (crypto/recovery.py). */
module BabySteps {
  import opened Field
  import opened Group

  /** math.isqrt. */
  function Isqrt(n: nat): (s: nat)
    ensures s * s <= n < (s + 1) * (s + 1)
  {
    if n == 0 then 0
    else
      var s := Isqrt(n - 1);
      if (s + 1) * (s + 1) <= n then s + 1 else s
  }

  datatype BabyStepTable = BabyStepTable(maxVal: int, n: nat, negStep: Point, table: map<Point, nat>)

  /** The number of baby steps for a bound. */
  function Steps(maxVal: int): (n: nat)
    ensures n >= 1 && n * n > maxVal
  {
    if maxVal > 0 then Isqrt(maxVal) + 2 else 1
  }

  /** What a finished table holds: every multiple of the generator below the step count, under an
      index of that multiple; with fewer steps than group elements that is its own index. */
  ghost predicate TableFor(t: BabyStepTable, maxVal: int, q: int)
    requires q > 1
  {
    && t.maxVal == maxVal && t.n == Steps(maxVal)
    && t.negStep == Neg(Mul(G2, t.n, q), q)
    && (forall p :: p in t.table <==> IsPoint(p, q) && p < t.n)
    && (forall p :: p in t.table ==> t.table[p] < t.n && Cong(t.table[p], p, q))
  }

  method BuildBabyStepTable(maxVal: int, q: int) returns (t: BabyStepTable)
    requires q > 1
    ensures TableFor(t, maxVal, q)
    ensures t.n <= q ==> forall p :: 0 <= p < t.n ==> p in t.table && t.table[p] == p
  {
    var n := if maxVal > 0 then Isqrt(maxVal) + 2 else 1;
    var table: map<Point, nat> := map[];
    var power := Z2;
    for j := 0 to n
      invariant power == j % q
      invariant forall p :: p in table <==> IsPoint(p, q) && p < j
      invariant forall p :: p in table ==> table[p] < j && Cong(table[p], p, q)
    {
      CongMod(j, q);
      if j < q {
        ModUnique(j, 0, j, q);
      }
      table := table[power := j];
      AddCong(power, G2, q);
      CongAdd(power, j, 1, 1, q);
      CongSmall(Add(power, G2, q), Rem(j + 1, q), q);
      power := Add(power, G2, q);
    }
    t := BabyStepTable(maxVal, n, Neg(Mul(G2, n, q), q), table);
    if n <= q {
      OwnIndices(t, maxVal, q);
    }
  }

  lemma OwnIndices(t: BabyStepTable, maxVal: int, q: int)
    requires q > 1 && TableFor(t, maxVal, q) && t.n <= q
    ensures forall p :: 0 <= p < t.n ==> p in t.table && t.table[p] == p
  {
    forall p | 0 <= p < t.n ensures p in t.table && t.table[p] == p {
      CongSmall(t.table[p], p, q);
    }
  }

  /** m is an exponent of the target that a search up to maxVal may return; zero always is. */
  ghost predicate Solves(m: nat, target: Point, maxVal: int, q: int)
    requires q > 1
  {
    (m == 0 || m <= maxVal) && Mul(G2, m, q) == target
  }

  /** Below the group order a point has one small exponent at most. */
  lemma SolvesUnique(m: nat, target: Point, maxVal: int, q: int)
    requires q > 1 && maxVal < q
    ensures Solves(m, target, maxVal, q) <==> (m == 0 || m <= maxVal) && m == target
  {
    if m == 0 || m <= maxVal {
      ModUnique(m, 0, m, q);
    }
  }

  /** Any solution for a target other than the identity shows that the target itself is small. */
  lemma SolutionIsLarge(m: nat, target: Point, maxVal: int, q: int)
    requires q > 1 && target != Z2 && Solves(m, target, maxVal, q)
    ensures target <= maxVal
  {
    if m == 0 {
      ModUnique(0, 0, 0, q);
    } else {
      assert m % q <= m;
    }
  }

  /** baby_step_giant_step_with_table is sound and complete for every bound and order: what it
      returns is an exponent of the target within the bound, and it returns nothing only where
      there is none. Below the group order that exponent is unique. */
  method WalkTable(target: Point, t: BabyStepTable, q: int) returns (r: Option<nat>)
    requires q > 1 && IsPoint(target, q) && TableFor(t, t.maxVal, q)
    ensures r.Some? ==> Solves(r.value, target, t.maxVal, q)
    ensures r.None? ==> forall m: nat :: !Solves(m, target, t.maxVal, q)
    ensures t.maxVal < q ==> forall m: nat :: Solves(m, target, t.maxVal, q) ==> r == Some(m)
  {
    if t.maxVal == 0 {
      r := if target == Z2 then Some(0) else None;
    } else if target == Z2 {
      r := Some(0);
    } else {
      r := GiantSteps(target, t, q);
    }
    WalkDecides(target, t.maxVal, q, r);
  }

  lemma WalkDecides(target: Point, maxVal: int, q: int, r: Option<nat>)
    requires q > 1 && IsPoint(target, q)
    requires r.Some? ==> (r.value == 0 || r.value <= maxVal) && Cong(r.value, target, q)
    requires r.None? ==> target != Z2 && target > maxVal
    ensures r.Some? ==> Solves(r.value, target, maxVal, q)
    ensures r.None? ==> forall m: nat :: !Solves(m, target, maxVal, q)
    ensures maxVal < q ==> forall m: nat :: Solves(m, target, maxVal, q) ==> r == Some(m)
  {
    if r.Some? {
      MulCong(G2, r.value, q);
      CongSmall(Mul(G2, r.value, q), target, q);
    } else {
      forall m: nat | Solves(m, target, maxVal, q) ensures false {
        SolutionIsLarge(m, target, maxVal, q);
      }
    }
    if maxVal < q {
      forall m: nat | Solves(m, target, maxVal, q) ensures r == Some(m) {
        SolvesUnique(m, target, maxVal, q);
        if r.Some? {
          SolvesUnique(r.value, target, maxVal, q);
        }
      }
    }
  }

  /** The giant-step walk itself. */
  method GiantSteps(target: Point, t: BabyStepTable, q: int) returns (r: Option<nat>)
    requires q > 1 && IsPoint(target, q) && target != Z2 && TableFor(t, t.maxVal, q)
    ensures r.Some? ==> r.value <= t.maxVal && Cong(r.value, target, q)
    ensures r.None? ==> target > t.maxVal
  {
    ghost var last := LastStep(target, t, q);
    var gamma := target;
    for i := 0 to t.n + 1
      invariant Reached(gamma, target, i, t.n, q)
      invariant target <= t.maxVal ==> i <= last
    {
      hide *;
      r := Probe(gamma, target, i, t, q, last);
      if r.Some? {
        return r;
      }
      GiantStep(gamma, target, i, t, q);
      gamma := Add(gamma, t.negStep, q);
    }
    return None;
  }

  /** `last` is the step at which the walk meets a small target for certain. */
  ghost predicate Meets(target: Point, t: BabyStepTable, q: int, last: nat)
  {
    if t.n <= q then 0 <= target - last * t.n < t.n else last == 0
  }

  lemma LastStep(target: Point, t: BabyStepTable, q: int) returns (last: nat)
    requires q > 1 && IsPoint(target, q) && TableFor(t, t.maxVal, q)
    ensures Meets(target, t, q, last)
    ensures target <= t.maxVal ==> last < t.n
  {
    hide Isqrt, Mul, Neg, Cong;
    last := 0;
    if t.n <= q {
      last := FloorStep(target, t.n);
    }
  }

  lemma FloorStep(target: nat, n: nat) returns (last: nat)
    requires n > 0
    ensures 0 <= target - last * n < n
    ensures target < n * n ==> last < n
  {
    last := target / n;
    MulMono(last, n, n);
  }

  /** One lookup of the walk: what it returns is an exponent of the target within the bound, and
      the meeting step always returns one for a small target. */
  method Probe(gamma: Point, target: Point, i: nat, t: BabyStepTable, q: int, ghost last: nat)
    returns (r: Option<nat>)
    requires q > 1 && IsPoint(target, q) && target != Z2 && TableFor(t, t.maxVal, q)
    requires Reached(gamma, target, i, t.n, q) && Meets(target, t, q, last)
    ensures r.Some? ==> r.value <= t.maxVal && Cong(r.value, target, q)
    ensures i == last && target <= t.maxVal ==> r.Some?
  {
    hide *;
    if i == last {
      LastStepHits(target, last, gamma, t, q);
    }
    if gamma in t.table {
      HitDecodes(gamma, target, i, t, q);
      var m := i * t.n + t.table[gamma];
      if m <= t.maxVal {
        return Some(m);
      }
    }
    return None;
  }

  /** After i giant steps the walk stands at target - i*n. */
  ghost predicate Reached(gamma: Point, target: Point, i: int, n: nat, q: int)
    requires q > 1
  {
    IsPoint(gamma, q) && Cong(gamma, target - i * n, q)
  }

  lemma HitDecodes(gamma: Point, target: Point, i: nat, t: BabyStepTable, q: int)
    requires q > 1 && Reached(gamma, target, i, t.n, q) && TableFor(t, t.maxVal, q) && gamma in t.table
    ensures i * t.n + t.table[gamma] >= 0
    ensures Cong(i * t.n + t.table[gamma], target, q)
  {
    hide Isqrt, Steps;
    var j := t.table[gamma];
    CongTrans(j, gamma, target - i * t.n, q);
    CongAdd(j, target - i * t.n, i * t.n, i * t.n, q);
    MulMono(i, 0, t.n);
  }

  lemma LastStepHits(target: Point, last: nat, gamma: Point, t: BabyStepTable, q: int)
    requires q > 1 && IsPoint(target, q) && target != Z2 && TableFor(t, t.maxVal, q)
    requires Reached(gamma, target, last, t.n, q) && Meets(target, t, q, last)
    ensures gamma in t.table
    ensures target <= t.maxVal ==> last * t.n + t.table[gamma] <= t.maxVal
  {
    hide Isqrt, Steps, Mul, Neg;
    if t.n <= q {
      CongSmall(gamma, target - last * t.n, q);
      OwnIndices(t, t.maxVal, q);
    } else {
      CongSmall(gamma, target, q);
      WrappedFits(t.table[target], target, t.maxVal, q);
    }
  }

  /** With more steps than group elements the first lookup hits, still within the bound. */
  lemma WrappedFits(j: nat, target: Point, maxVal: int, q: int)
    requires q > 1 && 0 < target < q < Steps(maxVal) && j < Steps(maxVal) && Cong(j, target, q)
    ensures target <= maxVal ==> j <= maxVal
  {
    if maxVal >= 2 {
      SquareAtLeast(Isqrt(maxVal));
    }
  }

  lemma SquareAtLeast(s: nat)
    ensures s >= 2 ==> s + 1 <= s * s
  {
  }

  lemma GiantStep(gamma: Point, target: Point, i: int, t: BabyStepTable, q: int)
    requires q > 1 && TableFor(t, t.maxVal, q) && Reached(gamma, target, i, t.n, q)
    ensures Reached(Add(gamma, t.negStep, q), target, i + 1, t.n, q)
  {
    hide Isqrt, Steps;
    var s := Mul(G2, t.n, q);
    MulCong(G2, t.n, q);
    CongMod(-s, q);
    CongAdd(0, 0, s, t.n, q);
    AddCong(gamma, t.negStep, q);
    CongAdd(gamma, target - i * t.n, t.negStep, 0 - t.n, q);
    assert (i + 1) * t.n == i * t.n + t.n;
  }

  lemma MulMono(a: int, b: int, n: nat)
    ensures a >= b ==> a * n >= b * n
  {
  }

  /** baby_step_giant_step: the same search with a throwaway table. */
  method BabyStepGiantStep(target: Point, maxVal: int, q: int) returns (r: Option<nat>)
    requires q > 1 && IsPoint(target, q)
    ensures r.Some? ==> Solves(r.value, target, maxVal, q)
    ensures r.None? ==> forall m: nat :: !Solves(m, target, maxVal, q)
    ensures maxVal < q ==> forall m: nat :: Solves(m, target, maxVal, q) ==> r == Some(m)
  {
    if maxVal == 0 {
      r := if target == Z2 then Some(0) else None;
      WalkDecides(target, maxVal, q, r);
      return;
    }
    if target == Z2 {
      r := Some(0);
      WalkDecides(target, maxVal, q, r);
      return;
    }
    var t := BuildBabyStepTable(maxVal, q);
    r := WalkTable(target, t, q);
  }

  /** The table never needs more steps than the group has elements once q exceeds 2. */
  lemma StepsFit(maxVal: nat, q: int)
    requires q > 2 && maxVal < q
    ensures Steps(maxVal) <= q
  {
    if maxVal > 0 {
      var s := Isqrt(maxVal);
      MulMono(s, q - 1, s);
      MulMono(s, q - 1, q - 1);
      MulMono(q - 1, 2, q - 1);
      assert s < q - 1;
    }
  }
}
