/** Polynomials as coefficient sequences, lowest degree first. */
module Polynomial {
  import opened Field

  /** Horner evaluation over the integers. */
  function Eval(f: seq<int>, x: int): int
  {
    if f == [] then 0 else f[0] + x * Eval(f[1..], x)
  }

  function Pow(x: int, n: nat): int
  {
    if n == 0 then 1 else x * Pow(x, n - 1)
  }

  /** The value at zero: the constant coefficient. */
  function AtZero(f: seq<int>): int
  {
    if f == [] then 0 else f[0]
  }

  lemma {:induction false} EvalSnoc(f: seq<int>, c: int, x: int)
    ensures Eval(f + [c], x) == Eval(f, x) + c * Pow(x, |f|)
  {
    if f == [] {
      assert f + [c] == [c];
      assert Eval([c], x) == c + x * Eval([], x);
    } else {
      EvalSnoc(f[1..], c, x);
      assert (f + [c])[1..] == f[1..] + [c];
      assert x * (Eval(f[1..], x) + c * Pow(x, |f| - 1)) == x * Eval(f[1..], x) + c * (x * Pow(x, |f| - 1));
    }
  }

  /** Coefficient-wise sum of two polynomials of one length. */
  function PolyAdd(f: seq<int>, g: seq<int>): (h: seq<int>)
    requires |f| == |g|
    ensures |h| == |f| && forall i :: 0 <= i < |h| ==> h[i] == f[i] + g[i]
  {
    seq(|f|, i requires 0 <= i < |f| => f[i] + g[i])
  }

  lemma {:induction false} EvalAdd(f: seq<int>, g: seq<int>, x: int)
    requires |f| == |g|
    ensures Eval(PolyAdd(f, g), x) == Eval(f, x) + Eval(g, x)
  {
    if f != [] {
      EvalAdd(f[1..], g[1..], x);
      assert PolyAdd(f, g)[1..] == PolyAdd(f[1..], g[1..]);
      assert x * (Eval(f[1..], x) + Eval(g[1..], x)) == x * Eval(f[1..], x) + x * Eval(g[1..], x);
    }
  }

  lemma {:induction false} EvalZeros(n: nat, x: int)
    ensures Eval(seq(n, _ => 0), x) == 0
  {
    if n > 0 {
      EvalZeros(n - 1, x);
      assert seq(n, _ => 0)[1..] == seq(n - 1, _ => 0);
    }
  }

  /** Congruent coefficients evaluate congruently. */
  lemma {:induction false} EvalCong(f: seq<int>, g: seq<int>, x: int, q: int)
    requires q > 0 && |f| == |g| && forall i :: 0 <= i < |f| ==> Cong(f[i], g[i], q)
    ensures Cong(Eval(f, x), Eval(g, x), q)
  {
    if f != [] {
      EvalCong(f[1..], g[1..], x, q);
      CongScale(Eval(f[1..], x), Eval(g[1..], x), x, q);
      CongAdd(f[0], g[0], x * Eval(f[1..], x), x * Eval(g[1..], x), q);
    }
  }
}
