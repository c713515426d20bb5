// A JavaScript `Map` as the sequence of its entries in insertion order.
// `set` on a present key replaces the value in place (the entry keeps its
// position), `set` on a new key appends, `delete` drops the entry, and
// `for ... of` visits the entries in this order.

module JsMap {
  import opened Wrappers

  /** No key occurs in two entries. */
  ghost predicate NoDupKeys<K, V>(m: seq<(K, V)>)
  {
    forall i, j :: 0 <= i < j < |m| ==> m[i].0 != m[j].0
  }

  /** Map.prototype.get: the value stored under k, or undefined. */
  function Get<K(==), V(==)>(m: seq<(K, V)>, k: K): (r: Option<V>)
    ensures r.None? <==> forall i :: 0 <= i < |m| ==> m[i].0 != k
    ensures r.Some? ==> (k, r.value) in m
  {
    if m == [] then None
    else if m[0].0 == k then Some(m[0].1)
    else Get(m[1..], k)
  }

  /** Map.prototype.set. */
  function Set<K(==), V(==)>(m: seq<(K, V)>, k: K, v: V): (r: seq<(K, V)>)
  {
    if m == [] then [(k, v)]
    else if m[0].0 == k then [(k, v)] + m[1..]
    else [m[0]] + Set(m[1..], k, v)
  }

  /** Map.prototype.delete. */
  function Remove<K(==), V(==)>(m: seq<(K, V)>, k: K): (r: seq<(K, V)>)
    ensures forall e :: e in r ==> e in m && e.0 != k
  {
    if m == [] then []
    else if m[0].0 == k then Remove(m[1..], k)
    else [m[0]] + Remove(m[1..], k)
  }

  /** After set(k, v), get(k) is v and every other key reads as before. */
  lemma {:induction false} GetSet<K, V>(m: seq<(K, V)>, k: K, v: V, j: K)
    ensures Get(Set(m, k, v), j) == if j == k then Some(v) else Get(m, j)
  {
    if m != [] && m[0].0 != k {
      GetSet(m[1..], k, v, j);
    }
  }

  /** After delete(k), get(k) is undefined and every other key reads as before. */
  lemma {:induction false} GetRemove<K, V>(m: seq<(K, V)>, k: K, j: K)
    ensures Get(Remove(m, k), j) == if j == k then None else Get(m, j)
  {
    if m != [] {
      GetRemove(m[1..], k, j);
    }
  }

  /**
   * set keeps the entry order: a present key stays where it was, a new key
   * goes to the end.
   */
  lemma {:induction false} SetOrder<K, V>(m: seq<(K, V)>, k: K, v: V)
    ensures Get(m, k).Some? ==> |Set(m, k, v)| == |m| && forall i :: 0 <= i < |m| ==> Set(m, k, v)[i].0 == m[i].0
    ensures Get(m, k).None? ==> Set(m, k, v) == m + [(k, v)]
  {
    if m != [] && m[0].0 != k {
      SetOrder(m[1..], k, v);
      var r := Set(m[1..], k, v);
      assert Set(m, k, v) == [m[0]] + r;
      if Get(m, k).None? {
        assert [m[0]] + (m[1..] + [(k, v)]) == m + [(k, v)];
      }
    }
  }

  /** set and delete keep the keys distinct. */
  lemma {:induction false} SetNoDup<K, V>(m: seq<(K, V)>, k: K, v: V)
    requires NoDupKeys(m)
    ensures NoDupKeys(Set(m, k, v))
  {
    if m != [] && m[0].0 != k {
      SetNoDup(m[1..], k, v);
      SetKeys(m[1..], k, v);
    }
  }

  lemma {:induction false} SetKeys<K, V>(m: seq<(K, V)>, k: K, v: V)
    ensures forall e :: e in Set(m, k, v) ==> e.0 == k || e in m
  {
    if m != [] && m[0].0 != k {
      SetKeys(m[1..], k, v);
    }
  }

  lemma {:induction false} RemoveNoDup<K, V>(m: seq<(K, V)>, k: K)
    requires NoDupKeys(m)
    ensures NoDupKeys(Remove(m, k))
  {
    if m != [] {
      RemoveNoDup(m[1..], k);
      if m[0].0 != k {
        var r := Remove(m[1..], k);
        forall j | 0 <= j < |r|
          ensures r[j].0 != m[0].0
        {
          assert r[j] in m[1..];
        }
      }
    }
  }
}
