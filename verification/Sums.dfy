/** Sums over finite maps. */
module Sums {

  ghost function Sum<K, V>(m: map<K, V>, f: V -> int): int
    decreases m.Keys
  {
    if m == map[] then 0
    else
      var k :| k in m;
      f(m[k]) + Sum(m - {k}, f)
  }

  lemma {:induction false} SumPick<K, V>(m: map<K, V>, f: V -> int, k: K)
    requires k in m
    ensures Sum(m, f) == f(m[k]) + Sum(m - {k}, f)
    decreases m.Keys
  {
    var first :| first in m && Sum(m, f) == f(m[first]) + Sum(m - {first}, f);
    if first != k {
      SumPick(m - {first}, f, k);
      SumPick(m - {k}, f, first);
      assert m - {first} - {k} == m - {k} - {first};
    }
  }

  lemma SumInsert<K, V>(m: map<K, V>, f: V -> int, k: K, v: V)
    ensures Sum(m[k := v], f) == Sum(m, f) + f(v) - (if k in m then f(m[k]) else 0)
  {
    var rest := m - {k};
    SumPick(m[k := v], f, k);
    assert m[k := v] - {k} == rest;
    if k in m {
      SumPick(m, f, k);
    } else {
      assert rest == m;
    }
  }

  lemma {:induction false} SumBounded<K, V>(m: map<K, V>, f: V -> int, bound: int)
    requires forall k :: k in m ==> f(m[k]) <= bound
    ensures Sum(m, f) <= |m| * bound
    decreases m.Keys
  {
    if m != map[] {
      var k :| k in m;
      var rest := m - {k};
      SumPick(m, f, k);
      SumBounded(rest, f, bound);
      assert m.Keys == rest.Keys + {k};
      MulStep(|rest|, bound);
    }
  }

  lemma MulStep(n: nat, bound: int)
    ensures (n + 1) * bound == n * bound + bound
  {
  }

  lemma {:induction false} SumSubmap<K, V>(small: map<K, V>, large: map<K, V>, f: V -> int)
    requires small.Keys <= large.Keys && forall k :: k in small ==> small[k] == large[k]
    requires forall k :: k in large ==> 0 <= f(large[k])
    ensures Sum(small, f) <= Sum(large, f)
    decreases large.Keys
  {
    if large.Keys == small.Keys {
      assert small == large;
    } else {
      var k :| k in large && k !in small;
      SumPick(large, f, k);
      SumSubmap(small, large - {k}, f);
    }
  }

  lemma MulMonotone(a: nat, b: nat, k: nat)
    requires a <= b
    ensures a * k <= b * k
  {
  }

  lemma {:induction false} SumTail<K, V>(m: map<K, V>, f: V -> int)
    requires forall k :: k in m ==> 0 <= f(m[k])
    ensures 0 <= Sum(m, f)
    decreases m.Keys
  {
    if m != map[] {
      var k :| k in m;
      SumPick(m, f, k);
      SumTail(m - {k}, f);
    }
  }
}
