/** Counting the entries of a finite map whose value satisfies a predicate. */
module Tally {

  function Having<K, V>(m: map<K, V>, f: V -> bool): set<K> {
    set k | k in m && f(m[k])
  }

  function Count<K, V>(m: map<K, V>, f: V -> bool): nat {
    |Having(m, f)|
  }

  /** What one key adds to the count. */
  function At<K, V>(m: map<K, V>, k: K, f: V -> bool): nat {
    if k in m && f(m[k]) then 1 else 0
  }

  lemma CountUpdate<K, V>(m: map<K, V>, k: K, v: V, f: V -> bool)
    ensures Count(m[k := v], f) == Count(m, f) - At(m, k, f) + (if f(v) then 1 else 0)
  {
    var rest := Having(m, f) - {k};
    assert Having(m, f) == if At(m, k, f) == 1 then rest + {k} else rest;
    assert Having(m[k := v], f) == if f(v) then rest + {k} else rest;
  }

  lemma CountRemove<K, V>(m: map<K, V>, k: K, f: V -> bool)
    ensures Count(m - {k}, f) == Count(m, f) - At(m, k, f)
  {
    var rest := Having(m, f) - {k};
    assert Having(m, f) == if At(m, k, f) == 1 then rest + {k} else rest;
    assert Having(m - {k}, f) == rest;
  }

  lemma CountPositive<K, V>(m: map<K, V>, k: K, f: V -> bool)
    requires k in m && f(m[k])
    ensures Count(m, f) > 0
  {
    assert Having(m, f) == Having(m, f) - {k} + {k};
  }

  lemma SomeKey<K, V>(m: map<K, V>, f: V -> bool) returns (k: K)
    requires Count(m, f) > 0
    ensures k in m && f(m[k])
  {
    k :| k in Having(m, f);
  }

  lemma CountDisjoint<K, V>(m: map<K, V>, f: V -> bool, g: V -> bool)
    requires forall k :: k in m ==> (f(m[k]) <==> !g(m[k]))
    ensures Count(m, f) + Count(m, g) == |m|
  {
    assert Having(m, f) !! Having(m, g);
    assert Having(m, f) + Having(m, g) == m.Keys;
  }

  /** Two maps over the same keys that agree on f have the same count. */
  lemma CountSame<K, V>(m: map<K, V>, n: map<K, V>, f: V -> bool)
    requires m.Keys == n.Keys
    requires forall k :: k in m ==> (f(m[k]) <==> f(n[k]))
    ensures Count(m, f) == Count(n, f)
  {
    assert Having(m, f) == Having(n, f);
  }
}
