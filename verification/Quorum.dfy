/** Quorum resolution over one slot per keyper (core/quorum.py). */
module Quorum {
  import opened Sums

  /** The keypers whose slot holds `k`. */
  function Voters<K(==)>(slots: map<int, K>, k: K): set<int>
  {
    set i | i in slots && slots[i] == k
  }

  ghost predicate Wins<K>(slots: map<int, K>, needed: int, k: K)
  {
    |Voters(slots, k)| >= needed
  }

  datatype Resolution<K> = Conflict | Undecided | Decided(value: K)

  /** What resolve_unique answers for the groups formed from `slots`. */
  ghost predicate Resolves<K(!new)>(slots: map<int, K>, needed: int, r: Resolution<K>)
  {
    match r
    case Decided(k) => Wins(slots, needed, k) && forall k' :: Wins(slots, needed, k') ==> k' == k
    case Undecided => forall k :: !Wins(slots, needed, k)
    case Conflict => exists k, k' :: k != k' && Wins(slots, needed, k) && Wins(slots, needed, k')
  }

  /** Every slot's keyper is filed under the value it holds, in groups without repetition. */
  ghost predicate GroupsOf<K>(groups: seq<(K, set<int>)>, slots: map<int, K>)
  {
    && (forall g :: 0 <= g < |groups| ==> groups[g].1 == Voters(slots, groups[g].0) && groups[g].1 != {})
    && (forall i :: i in slots ==> exists g :: 0 <= g < |groups| && groups[g].0 == slots[i])
    && (forall g, h :: 0 <= g < h < |groups| ==> groups[g].0 != groups[h].0)
  }

  /** The grouping loop of the adapter: one pass over the slots, one group per value. */
  method GroupSlots<K(==,!new)>(slots: map<int, K>) returns (groups: seq<(K, set<int>)>)
    ensures GroupsOf(groups, slots)
  {
    groups := [];
    var todo := slots.Keys;
    ghost var done: map<int, K> := map[];
    while todo != {}
      invariant todo <= slots.Keys
      invariant done == map i | i in slots && i !in todo :: slots[i]
      invariant GroupsOf(groups, done)
      decreases todo
    {
      HasElement(todo);
      var i :| i in todo;
      groups := FileSlot(groups, done, i, slots[i]);
      todo := todo - {i};
      done := done[i := slots[i]];
    }
    assert done == slots;
  }

  lemma HasElement(s: set<int>)
    requires s != {}
    ensures exists i :: i in s
  {
    var i: int := Pick(s);
    assert i in s;
  }

  /** setdefault(key, (value, set())) followed by add(idx). */
  method FileSlot<K(==,!new)>(groups: seq<(K, set<int>)>, ghost done: map<int, K>, i: int, k: K)
    returns (r: seq<(K, set<int>)>)
    requires GroupsOf(groups, done) && i !in done
    ensures GroupsOf(r, done[i := k])
  {
    ghost var done' := done[i := k];
    VotersAdd(done, i, k);
    for g := 0 to |groups|
      invariant forall h :: 0 <= h < g ==> groups[h].0 != k
    {
      if groups[g].0 == k {
        r := groups[g := (k, groups[g].1 + {i})];
        FiledInto(groups, done, i, k, g, r);
        return;
      }
    }
    r := groups + [(k, {i})];
    FiledNew(groups, done, i, k, r);
  }

  lemma VotersAdd<K(!new)>(done: map<int, K>, i: int, k: K)
    requires i !in done
    ensures Voters(done[i := k], k) == Voters(done, k) + {i}
    ensures forall k' :: k' != k ==> Voters(done[i := k], k') == Voters(done, k')
  {
  }

  lemma FiledInto<K>(groups: seq<(K, set<int>)>, done: map<int, K>, i: int, k: K, g: nat, r: seq<(K, set<int>)>)
    requires GroupsOf(groups, done) && i !in done && g < |groups| && groups[g].0 == k
    requires r == groups[g := (k, groups[g].1 + {i})]
    requires Voters(done[i := k], k) == Voters(done, k) + {i}
    requires forall h :: 0 <= h < |groups| && h != g ==> Voters(done[i := k], groups[h].0) == Voters(done, groups[h].0)
    ensures GroupsOf(r, done[i := k])
  {
    var done' := done[i := k];
    forall j | j in done' ensures exists h :: 0 <= h < |r| && r[h].0 == done'[j] {
      if j == i {
        assert r[g].0 == k;
      } else {
        var h :| 0 <= h < |groups| && groups[h].0 == done[j];
        assert r[h].0 == groups[h].0;
      }
    }
  }

  lemma FiledNew<K>(groups: seq<(K, set<int>)>, done: map<int, K>, i: int, k: K, r: seq<(K, set<int>)>)
    requires GroupsOf(groups, done) && i !in done && r == groups + [(k, {i})]
    requires forall h :: 0 <= h < |groups| ==> groups[h].0 != k
    requires Voters(done[i := k], k) == Voters(done, k) + {i}
    requires forall h :: 0 <= h < |groups| ==> Voters(done[i := k], groups[h].0) == Voters(done, groups[h].0)
    ensures GroupsOf(r, done[i := k])
  {
    var done' := done[i := k];
    assert Voters(done, k) == {} by {
      forall j | j in done ensures done[j] != k {
        var h :| 0 <= h < |groups| && groups[h].0 == done[j];
      }
    }
    assert r[|groups|].1 == Voters(done', k);
    forall j | j in done' ensures exists h :: 0 <= h < |r| && r[h].0 == done'[j] {
      if j == i {
        assert r[|groups|].0 == k;
      } else {
        var h :| 0 <= h < |groups| && groups[h].0 == done[j];
        assert r[h].0 == groups[h].0;
      }
    }
  }

  /** resolve_unique: the single group that reached the quorum. */
  method ResolveUnique<K(==,!new)>(groups: seq<(K, set<int>)>, needed: int, ghost slots: map<int, K>)
    returns (r: Resolution<K>)
    requires needed >= 1 && GroupsOf(groups, slots)
    ensures Resolves(slots, needed, r)
  {
    var found := Undecided;
    for g := 0 to |groups|
      invariant found != Conflict
      invariant found.Undecided? ==> forall h :: 0 <= h < g ==> |groups[h].1| < needed
      invariant found.Decided? ==> Wins(slots, needed, found.value)
      invariant found.Decided? ==>
                  forall h :: 0 <= h < g ==> |groups[h].1| < needed || groups[h].0 == found.value
      invariant found.Decided? ==> exists h :: 0 <= h < g && groups[h].0 == found.value
    {
      if |groups[g].1| >= needed {
        assert Wins(slots, needed, groups[g].0);
        if found.Decided? {
          assert groups[g].0 != found.value;
          return Conflict;
        }
        found := Decided(groups[g].0);
      }
    }
    forall k | Wins(slots, needed, k) ensures found.Decided? && k == found.value {
      var g := GroupOfWinner(groups, slots, needed, k);
    }
    return found;
  }

  lemma GroupOfWinner<K>(groups: seq<(K, set<int>)>, slots: map<int, K>, needed: int, k: K) returns (g: nat)
    requires needed >= 1 && GroupsOf(groups, slots) && Wins(slots, needed, k)
    ensures g < |groups| && groups[g].0 == k && |groups[g].1| >= needed
  {
    var i: int := Pick(Voters(slots, k));
    assert i in slots && slots[i] == k;
    g :| 0 <= g < |groups| && groups[g].0 == slots[i];
  }

  // ----- majority intersection -----

  /** Two majorities of 1..n share a keyper, and a keyper has one slot. */
  lemma OneWinner<K>(slots: map<int, K>, n: nat, needed: int, k: K, k': K)
    requires slots.Keys <= Range(n) && needed * 2 > n
    requires Wins(slots, needed, k) && Wins(slots, needed, k')
    ensures k == k'
  {
    var a, b := Voters(slots, k), Voters(slots, k');
    SubsetSize(a + b, Range(n));
    VotersDisjoint(slots, k, k');
  }

  lemma VotersDisjoint<K>(slots: map<int, K>, k: K, k': K)
    ensures k != k' ==> |Voters(slots, k) + Voters(slots, k')| == |Voters(slots, k)| + |Voters(slots, k')|
  {
    if k != k' {
      assert Voters(slots, k) !! Voters(slots, k');
    }
  }

  lemma {:induction false} SubsetSize(a: set<int>, b: set<int>)
    requires a <= b
    ensures |a| <= |b|
    decreases |a|
  {
    if a != {} {
      var x := Pick(a);
      SubsetSize(a - {x}, b - {x});
    }
  }

  /** The quorum is a majority, so the committee never splits. */
  lemma NeverConflicts<K(!new)>(slots: map<int, K>, n: nat, needed: int, r: Resolution<K>)
    requires slots.Keys <= Range(n) && needed * 2 > n && Resolves(slots, needed, r)
    ensures r != Conflict
  {
    if r == Conflict {
      var k, k' :| k != k' && Wins(slots, needed, k) && Wins(slots, needed, k');
      OneWinner(slots, n, needed, k, k');
    }
  }

  /** Filling an empty slot never takes votes away. */
  lemma WinsGrows<K>(slots: map<int, K>, i: int, v: K, needed: int, k: K)
    requires i !in slots && Wins(slots, needed, k)
    ensures Wins(slots[i := v], needed, k)
  {
    SubsetSize(Voters(slots, k), Voters(slots[i := v], k));
  }
}
