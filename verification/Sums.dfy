/** Sums over the values of a finite dictionary, independent of iteration order. */
module Sums {
  import opened Field

  ghost function Pick<T>(s: set<T>): (x: T)
    requires s != {}
    ensures x in s
  {
    var k :| k in s;
    k
  }

  lemma HasKey<V>(m: map<int, V>)
    requires |m| != 0
    ensures exists k :: k in m
  {
    var k: int := Pick(m.Keys);
    assert k in m;
  }

  ghost function SumMap(m: map<int, int>): int
    decreases |m|
  {
    if |m| == 0 then 0
    else
      var k := Pick(m.Keys);
      m[k] + SumMap(m - {k})
  }

  lemma SumNone(m: map<int, int>)
    requires |m| == 0
    ensures SumMap(m) == 0
  {
  }

  /** Any key may be taken first. */
  lemma {:induction false} SumPick(m: map<int, int>, k: int)
    requires k in m
    ensures SumMap(m) == m[k] + SumMap(m - {k})
    decreases |m|
  {
    var k0 := Pick(m.Keys);
    if k0 != k {
      SumPick(m - {k0}, k);
      SumPick(m - {k}, k0);
      assert m - {k0} - {k} == m - {k} - {k0};
    }
  }

  lemma {:induction false} SumCong(a: map<int, int>, b: map<int, int>, q: int)
    requires q > 0 && a.Keys == b.Keys && forall k :: k in a ==> Cong(a[k], b[k], q)
    ensures Cong(SumMap(a), SumMap(b), q)
    decreases |a|
  {
    if |a| != 0 {
      var k := Pick(a.Keys);
      SumPick(a, k);
      SumPick(b, k);
      SumCong(a - {k}, b - {k}, q);
      CongAdd(a[k], b[k], SumMap(a - {k}), SumMap(b - {k}), q);
    }
  }

  /** The index set 1..n. */
  function Range(n: nat): (r: set<int>)
    ensures forall i :: i in r <==> 1 <= i <= n
    ensures |r| == n
  {
    if n == 0 then {} else Range(n - 1) + {n}
  }
}
