/** Arithmetic modulo the group order. Scalars are plain integers; every operation
    of the crypto modules reduces with `% q`, so reasoning is by congruence. */
module Field {

  datatype Option<+T> = None | Some(value: T)

  ghost predicate Divides(d: int, n: int)
    requires d > 0
  {
    n % d == 0
  }

  ghost predicate IsPrime(q: int)
  {
    q > 1 && forall d :: 1 < d < q ==> !Divides(d, q)
  }

  ghost predicate Cong(a: int, b: int, q: int)
    requires q > 0
  {
    a % q == b % q
  }

  /** Reduction of a scalar into [0, q). */
  function Rem(a: int, q: int): (r: int)
    requires q > 0
    ensures 0 <= r < q
  {
    a % q
  }

  lemma ModShift(a: int, k: int, q: int)
    requires q > 0
    ensures (a + k * q) % q == a % q
  {
    var r := a % q;
    var d := a / q;
    assert a + k * q == (d + k) * q + r by {
      assert (d + k) * q == d * q + k * q;
    }
    ModUnique(a + k * q, d + k, r, q);
  }

  lemma MulAtLeast(k: int, q: int)
    requires q > 0
    ensures k >= 1 ==> k * q >= q
    ensures k <= -1 ==> k * q <= -q
  {
  }

  lemma ModUnique(a: int, d: int, r: int, q: int)
    requires q > 0 && 0 <= r < q && a == d * q + r
    ensures a % q == r && a / q == d
  {
    var d' := a / q;
    var r' := a % q;
    assert (d - d') * q == r' - r by {
      assert (d - d') * q == d * q - d' * q;
    }
    MulAtLeast(d - d', q);
  }

  lemma CongMod(a: int, q: int)
    requires q > 0
    ensures Cong(a % q, a, q)
  {
    ModUnique(a % q, 0, a % q, q);
  }

  lemma CongRefl(a: int, q: int)
    requires q > 0
    ensures Cong(a, a, q)
  {
  }

  lemma CongTrans(a: int, b: int, c: int, q: int)
    requires q > 0 && Cong(a, b, q) && Cong(b, c, q)
    ensures Cong(a, c, q)
  {
  }

  /** Congruent numbers differ by a multiple of q, and conversely. */
  lemma CongWitness(a: int, b: int, q: int) returns (k: int)
    requires q > 0 && Cong(a, b, q)
    ensures a == b + k * q
  {
    var x, y := a / q, b / q;
    assert a == x * q + a % q && b == y * q + b % q;
    k := x - y;
    assert k * q == x * q - y * q;
  }

  lemma CongFrom(a: int, b: int, k: int, q: int)
    requires q > 0 && a == b + k * q
    ensures Cong(a, b, q)
  {
    ModShift(b, k, q);
  }

  lemma CongAdd(a: int, b: int, c: int, d: int, q: int)
    requires q > 0 && Cong(a, b, q) && Cong(c, d, q)
    ensures Cong(a + c, b + d, q)
    ensures Cong(a - c, b - d, q)
  {
    hide Cong;
    var k := CongWitness(a, b, q);
    var l := CongWitness(c, d, q);
    assert (k + l) * q == k * q + l * q;
    assert (k - l) * q == k * q - l * q;
    CongFrom(a + c, b + d, k + l, q);
    CongFrom(a - c, b - d, k - l, q);
  }

  lemma CongScale(a: int, b: int, c: int, q: int)
    requires q > 0 && Cong(a, b, q)
    ensures Cong(a * c, b * c, q)
    ensures Cong(c * a, c * b, q)
  {
    hide Cong;
    var k := CongWitness(a, b, q);
    ScaleWitness(a, b, k, c, q);
    CongFrom(a * c, b * c, k * c, q);
    assert c * a == a * c && c * b == b * c;
  }

  lemma ScaleWitness(a: int, b: int, k: int, c: int, q: int)
    requires a == b + k * q
    ensures a * c == b * c + (k * c) * q
  {
    assert (b + k * q) * c == b * c + (k * q) * c;
    assert (k * q) * c == (k * c) * q;
  }

  lemma CongMul(a: int, b: int, c: int, d: int, q: int)
    requires q > 0 && Cong(a, b, q) && Cong(c, d, q)
    ensures Cong(a * c, b * d, q)
  {
    CongScale(a, b, c, q);
    CongScale(c, d, b, q);
  }

  lemma CongZero(a: int, b: int, q: int)
    requires q > 0
    ensures Cong(a, b, q) <==> (a - b) % q == 0
  {
    if Cong(a, b, q) {
      CongAdd(a, b, b, b, q);
    }
    if (a - b) % q == 0 {
      assert Cong(a - b, 0, q);
      CongAdd(a - b, 0, b, b, q);
    }
  }

  /** Two residues in [0, q) that agree mod q are the same number. */
  lemma CongSmall(a: int, b: int, q: int)
    requires q > 0 && 0 <= a < q && 0 <= b < q && Cong(a, b, q)
    ensures a == b
  {
    ModUnique(a, 0, a, q);
    ModUnique(b, 0, b, q);
  }

  // ----- inverses -----

  lemma DividesCombination(g: int, a: int, b: int, k: int)
    requires g > 0 && Divides(g, a) && Divides(g, b)
    ensures Divides(g, a * k + b)
  {
    CongScale(a, 0, k, g);
    CongAdd(a * k, 0, b, 0, g);
  }

  /** Extended Euclid: the greatest common divisor with its Bezout coefficients. */
  function ExtGcd(a: nat, b: nat): (nat, int, int)
    decreases b
  {
    if b == 0 then (a, 1, 0)
    else
      var r := ExtGcd(b, a % b);
      (r.0, r.2, r.1 - (a / b) * r.2)
  }

  ghost predicate IsBezout(a: int, b: int, r: (nat, int, int))
  {
    a * r.1 + b * r.2 == r.0 && r.0 > 0 && Divides(r.0, a) && Divides(r.0, b)
  }

  lemma {:induction false} Bezout(a: nat, b: nat)
    requires a > 0 || b > 0
    ensures IsBezout(a, b, ExtGcd(a, b))
    decreases b
  {
    if b == 0 {
      ModUnique(a, 1, 0, a);
    } else {
      Bezout(b, a % b);
      BezoutStep(a, b, ExtGcd(b, a % b));
    }
  }

  lemma BezoutStep(a: int, b: int, r: (nat, int, int))
    requires b > 0 && IsBezout(b, a % b, r)
    ensures IsBezout(a, b, (r.0, r.2, r.1 - (a / b) * r.2))
  {
    var k, m := a / b, a % b;
    assert a == b * k + m;
    DividesCombination(r.0, b, m, k);
    BezoutAlgebra(a, b, k, m, r.1, r.2);
  }

  lemma BezoutAlgebra(a: int, b: int, k: int, m: int, x: int, y: int)
    requires a == b * k + m
    ensures a * y + b * (x - k * y) == b * x + m * y
  {
    assert b * (x - k * y) == b * x - (b * k) * y;
    assert (b * k + m) * y == (b * k) * y + m * y;
  }

  /** Python's `pow(a, -1, q)`: the inverse in [0, q), or nothing when there is none. */
  function ModInverse(a: int, q: int): (r: Option<int>)
    requires q > 1
    ensures r.Some? ==> 0 <= r.value < q && Cong(a * r.value, 1, q)
  {
    var g := ExtGcd(a % q, q);
    if g.0 == 1 then
      Bezout(a % q, q);
      InverseFromBezout(a, g.1, g.2, q);
      Some(g.1 % q)
    else
      None
  }

  lemma InverseFromBezout(a: int, x: int, y: int, q: int)
    requires q > 1 && (a % q) * x + q * y == 1
    ensures Cong(a * (x % q), 1, q)
  {
    CongMod(a, q);
    CongMod(x, q);
    CongMul(a % q, a, x, x, q);
    CongScale(x % q, x, a, q);
    ModShift(1, -y, q);
    assert (a % q) * x == 1 + (-y) * q by { assert (-y) * q == -(q * y); }
  }

  /** Modulo a prime, exactly the non-zero residues have an inverse. */
  lemma PrimeInverse(a: int, q: int)
    requires IsPrime(q)
    ensures ModInverse(a, q).Some? <==> a % q != 0
  {
    var g := ExtGcd(a % q, q);
    Bezout(a % q, q);
    if a % q != 0 {
      assert g.0 <= a % q by {
        if g.0 > a % q {
          ModUnique(a % q, 0, a % q, g.0);
        }
      }
      assert Divides(g.0, q);
    } else {
      assert q * g.2 == g.0;
      if g.0 == 1 {
        ModUnique(1, 0, 1, q);
        ModUnique(1, g.2, 0, q);
      }
    }
  }

  /** A common factor that is not divisible by the prime cancels. */
  lemma CancelFactor(a: int, b: int, c: int, q: int)
    requires IsPrime(q) && a % q != 0 && Cong(a * b, a * c, q)
    ensures Cong(b, c, q)
  {
    PrimeInverse(a, q);
    var x := ModInverse(a, q).value;
    CongScale(a * b, a * c, x, q);
    CongScale(a * x, 1, b, q);
    CongScale(a * x, 1, c, q);
    assert (a * b) * x == (a * x) * b;
    assert (a * c) * x == (a * x) * c;
  }

  /** The product of non-zero residues is non-zero. */
  lemma NoZeroDivisors(a: int, b: int, q: int)
    requires IsPrime(q) && a % q != 0 && b % q != 0
    ensures (a * b) % q != 0
  {
    if (a * b) % q == 0 {
      CancelFactor(a, b, 0, q);
    }
  }
}
