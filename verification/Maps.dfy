/** Sums over finite maps with integer values, and reading a map with default 0
    (the way Redis counters and Go's map lookups behave). */
module Maps {

  datatype Option<+T> = None | Some(value: T)

  /** The value stored under k, or 0 when the key is absent. */
  function Get<K>(m: map<K, int>, k: K): int {
    if k in m then m[k] else 0
  }

  ghost predicate NoZero<K>(m: map<K, int>) {
    forall k :: k in m ==> m[k] != 0
  }

  /** The sum of all values; the element picked first does not matter, see SumRemove. */
  ghost function Sum<K>(m: map<K, int>): int
    decreases |m|
  {
    if m == map[] then 0 else
      var k :| k in m;
      m[k] + Sum(m - {k})
  }

  function Only<K, V>(m: map<K, V>, s: set<K>): map<K, V> {
    map k | k in m && k in s :: m[k]
  }

  lemma {:induction false} SumRemove<K>(m: map<K, int>, k: K)
    requires k in m
    ensures Sum(m) == m[k] + Sum(m - {k})
    decreases |m|
  {
    var x :| x in m && Sum(m) == m[x] + Sum(m - {x});
    if x != k {
      SumRemove(m - {x}, k);
      SumRemove(m - {k}, x);
      assert m - {x} - {k} == m - {k} - {x};
    }
  }

  lemma SumUpdate<K>(m: map<K, int>, k: K, v: int)
    ensures Sum(m[k := v]) == Sum(m) - Get(m, k) + v
  {
    var n := m[k := v];
    SumRemove(n, k);
    assert n - {k} == m - {k};
    if k in m {
      SumRemove(m, k);
    } else {
      assert m - {k} == m;
    }
  }

  lemma SumUnion<K>(m: map<K, int>, n: map<K, int>)
    requires m.Keys !! n.Keys
    ensures Sum(m + n) == Sum(m) + Sum(n)
  {
    SumPointwise(m, n, m + n);
  }

  lemma {:induction false} SumNonNegative<K>(m: map<K, int>)
    requires forall k :: k in m ==> m[k] >= 0
    ensures Sum(m) >= 0
    ensures Sum(m) == 0 <==> forall k :: k in m ==> m[k] == 0
    decreases |m|
  {
    if m != map[] {
      var k :| k in m;
      SumRemove(m, k);
      SumNonNegative(m - {k});
      if Sum(m) == 0 {
        forall j | j in m ensures m[j] == 0 {
          if j != k { assert j in m - {k}; }
        }
      }
    }
  }

  /** Pointwise addition of two maps read with default 0 adds their sums. */
  lemma {:induction false} SumPointwise<K>(m: map<K, int>, n: map<K, int>, r: map<K, int>)
    requires forall k :: k in m || k in n || k in r ==> Get(r, k) == Get(m, k) + Get(n, k)
    ensures Sum(r) == Sum(m) + Sum(n)
    decreases |n|
  {
    if n == map[] {
      SumAgree(m, r);
    } else {
      var k :| k in n;
      SumRemove(n, k);
      var n' := n - {k};
      var r' := r[k := Get(m, k)];
      SumUpdate(r, k, Get(m, k));
      SumPointwise(m, n', r');
    }
  }

  lemma {:induction false} SumAgree<K>(m: map<K, int>, r: map<K, int>)
    requires forall k :: k in m || k in r ==> Get(r, k) == Get(m, k)
    ensures Sum(r) == Sum(m)
    decreases |m|
  {
    if m == map[] {
      SumAllZero(r);
    } else {
      var k :| k in m;
      SumRemove(m, k);
      SumUpdate(r, k, m[k]);
      SumRemove(r[k := m[k]], k);
      SumAgree(m - {k}, r[k := m[k]] - {k});
    }
  }

  lemma {:induction false} SumAllZero<K>(r: map<K, int>)
    requires forall k :: k in r ==> r[k] == 0
    ensures Sum(r) == 0
    decreases |r|
  {
    if r != map[] {
      var k :| k in r;
      SumRemove(r, k);
      SumAllZero(r - {k});
    }
  }
}
