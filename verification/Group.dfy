/** The prime-order group G2, written additively and represented by exponents: the
    element k*P2 is the residue k mod q. The protocol code touches points only
    through the operations below. */
module Group {
  import opened Field

  type Point = int

  const G2: Point := 1
  const Z2: Point := 0

  ghost predicate IsPoint(p: Point, q: int)
  {
    0 <= p < q
  }

  function Add(p: Point, r: Point, q: int): (s: Point)
    requires q > 0
    ensures IsPoint(s, q)
  {
    (p + r) % q
  }

  function Neg(p: Point, q: int): (s: Point)
    requires q > 0
    ensures IsPoint(s, q)
  {
    (-p) % q
  }

  function Mul(p: Point, k: int, q: int): (s: Point)
    requires q > 0
    ensures IsPoint(s, q)
  {
    (p * k) % q
  }

  lemma AddCong(p: Point, r: Point, q: int)
    requires q > 0
    ensures Cong(Add(p, r, q), p + r, q)
  {
    CongMod(p + r, q);
  }

  lemma MulCong(p: Point, k: int, q: int)
    requires q > 0
    ensures Cong(Mul(p, k, q), p * k, q)
  {
    CongMod(p * k, q);
  }

  /** Point equality is congruence of representatives. */
  lemma PointEq(a: int, b: int, q: int)
    requires q > 0 && IsPoint(a, q) && IsPoint(b, q)
    ensures a == b <==> Cong(a, b, q)
  {
    if Cong(a, b, q) {
      CongSmall(a, b, q);
    }
  }

  /** `P + k*R` as an integer congruence. */
  lemma AddMulCong(p: Point, r: Point, k: int, q: int)
    requires q > 0
    ensures Cong(Add(p, Mul(r, k, q), q), p + r * k, q)
  {
    MulCong(r, k, q);
    CongAdd(p, p, Mul(r, k, q), r * k, q);
    AddCong(p, Mul(r, k, q), q);
  }
}
