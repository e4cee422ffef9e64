/** Python's `dict`, which remembers insertion order, as a list of
    (key, value) pairs. Assigning to an existing key keeps its position;
    assigning to a new key appends it. */
module Dicts {
  import opened Wrappers

  type Dict<K, V> = seq<(K, V)>

  function Keys<K, V>(d: Dict<K, V>): (r: seq<K>)
    ensures |r| == |d|
    ensures forall i :: 0 <= i < |d| ==> r[i] == d[i].0
  {
    seq(|d|, i requires 0 <= i < |d| => d[i].0)
  }

  predicate DistinctKeys<K(==), V>(d: Dict<K, V>) {
    forall i, j :: 0 <= i < j < |d| ==> d[i].0 != d[j].0
  }

  predicate HasKey<K(==), V>(d: Dict<K, V>, k: K) {
    exists i :: 0 <= i < |d| && d[i].0 == k
  }

  /** `d.get(k)` */
  function Get<K(==), V>(d: Dict<K, V>, k: K): (r: Option<V>)
    ensures r.Some? <==> HasKey(d, k)
    ensures r.Some? ==> exists i :: 0 <= i < |d| && d[i] == (k, r.value)
  {
    if d == [] then None
    else if d[0].0 == k then Some(d[0].1)
    else
      var r := Get(d[1..], k);
      assert HasKey(d, k) ==> HasKey(d[1..], k) by {
        if HasKey(d, k) {
          var i :| 0 <= i < |d| && d[i].0 == k;
          assert d[1..][i - 1].0 == k;
        }
      }
      assert r.Some? ==> exists i :: 0 <= i < |d| && d[i] == (k, r.value) by {
        if r.Some? {
          var i :| 0 <= i < |d[1..]| && d[1..][i] == (k, r.value);
          assert d[i + 1] == (k, r.value);
        }
      }
      r
  }

  /** `d[k] = v` */
  function Set<K(==), V>(d: Dict<K, V>, k: K, v: V): Dict<K, V>
  {
    if d == [] then [(k, v)]
    else if d[0].0 == k then [(k, v)] + d[1..]
    else [d[0]] + Set(d[1..], k, v)
  }

  lemma {:induction false} SetKeys<K, V>(d: Dict<K, V>, k: K, v: V)
    ensures Keys(Set(d, k, v)) == if HasKey(d, k) then Keys(d) else Keys(d) + [k]
  {
    if d != [] && d[0].0 != k {
      SetKeys(d[1..], k, v);
      assert HasKey(d, k) <==> HasKey(d[1..], k) by {
        if HasKey(d, k) {
          var i :| 0 <= i < |d| && d[i].0 == k;
          assert d[1..][i - 1].0 == k;
        }
        if HasKey(d[1..], k) {
          var i :| 0 <= i < |d[1..]| && d[1..][i].0 == k;
          assert d[i + 1].0 == k;
        }
      }
      assert Keys(Set(d, k, v)) == [d[0].0] + Keys(Set(d[1..], k, v));
      assert Keys(d) == [d[0].0] + Keys(d[1..]);
    } else if d != [] {
      assert HasKey(d, k);
      assert Keys(Set(d, k, v)) == Keys(d);
    }
  }

  lemma {:induction false} GetSet<K, V>(d: Dict<K, V>, k: K, v: V, k': K)
    ensures Get(Set(d, k, v), k') == if k' == k then Some(v) else Get(d, k')
  {
    if d != [] && d[0].0 != k {
      GetSet(d[1..], k, v, k');
    }
  }

  lemma {:induction false} SetKeepsDistinct<K, V>(d: Dict<K, V>, k: K, v: V)
    requires DistinctKeys(d)
    ensures DistinctKeys(Set(d, k, v))
  {
    var r := Set(d, k, v);
    SetKeys(d, k, v);
    var ks := Keys(r);
    assert forall i, j :: 0 <= i < j < |r| ==> r[i].0 == ks[i] && r[j].0 == ks[j];
    if !HasKey(d, k) {
      forall i | 0 <= i < |d| ensures ks[i] != k {
        assert d[i].0 == ks[i];
      }
    }
  }

  /** Assigning to a key already present replaces its value in place. */
  lemma {:induction false} SetExisting<K, V>(d: Dict<K, V>, i: nat, v: V)
    requires DistinctKeys(d) && i < |d|
    ensures Set(d, d[i].0, v) == d[i := (d[i].0, v)]
  {
    if i > 0 {
      assert DistinctKeys(d[1..]);
      SetExisting(d[1..], i - 1, v);
      assert d[1..][i - 1 := (d[i].0, v)] == d[i := (d[i].0, v)][1..];
    }
  }

  /** Every entry after an assignment is the new one or an old one. */
  lemma {:induction false} SetEntries<K, V>(d: Dict<K, V>, k: K, v: V)
    ensures forall e :: e in Set(d, k, v) ==> e == (k, v) || e in d
  {
    if d != [] && d[0].0 != k {
      SetEntries(d[1..], k, v);
    }
  }

  /** Two dicts are equal in Python when they map the same keys to the same
      values, whatever their order. */
  predicate SameItems<K(==), V(==)>(d1: Dict<K, V>, d2: Dict<K, V>) {
    (forall i :: 0 <= i < |d1| ==> Get(d2, d1[i].0) == Get(d1, d1[i].0)) &&
    (forall i :: 0 <= i < |d2| ==> Get(d1, d2[i].0) == Get(d2, d2[i].0))
  }

  /** Assigning `d[k] = v` for every pair of `ps` in turn. */
  function SetAll<K(==), V>(d: Dict<K, V>, ps: seq<(K, V)>): Dict<K, V>
  {
    if ps == [] then d
    else
      var n := |ps| - 1;
      Set(SetAll(d, ps[..n]), ps[n].0, ps[n].1)
  }

  /** The value of the last pair of `ps` with key `k`. */
  function LastWith<K(==), V>(ps: seq<(K, V)>, k: K): (r: Option<V>)
    ensures r.None? <==> forall i :: 0 <= i < |ps| ==> ps[i].0 != k
  {
    if ps == [] then None
    else
      var n := |ps| - 1;
      if ps[n].0 == k then Some(ps[n].1)
      else
        var r := LastWith(ps[..n], k);
        assert forall i :: 0 <= i < n ==> ps[..n][i] == ps[i];
        r
  }

  /** The last pair with a key, after one more pair. */
  lemma LastWithSnoc<K, V>(ps: seq<(K, V)>, q: (K, V), k: K)
    ensures LastWith(ps + [q], k) == if q.0 == k then Some(q.1) else LastWith(ps, k)
  {
    assert (ps + [q])[..|ps|] == ps;
  }

  /** After a run of assignments a key holds the value assigned to it last,
      or its old value when none was assigned to it. */
  lemma {:induction false} GetSetAll<K, V>(d: Dict<K, V>, ps: seq<(K, V)>, k: K)
    ensures Get(SetAll(d, ps), k) == if LastWith(ps, k).Some? then LastWith(ps, k) else Get(d, k)
  {
    if ps != [] {
      var n := |ps| - 1;
      GetSetAll(d, ps[..n], k);
      GetSet(SetAll(d, ps[..n]), ps[n].0, ps[n].1, k);
    }
  }

  lemma {:induction false} SetAllAppend<K, V>(d: Dict<K, V>, ps: seq<(K, V)>, qs: seq<(K, V)>)
    ensures SetAll(d, ps + qs) == SetAll(SetAll(d, ps), qs)
  {
    if qs == [] {
      assert ps + qs == ps;
    } else {
      var n := |qs| - 1;
      SetAllAppend(d, ps, qs[..n]);
      assert (ps + qs)[..|ps| + n] == ps + qs[..n];
    }
  }

  /** Assigning to a new key appends it. */
  lemma {:induction false} SetNew<K, V>(d: Dict<K, V>, k: K, v: V)
    requires !HasKey(d, k)
    ensures Set(d, k, v) == d + [(k, v)]
  {
    if d != [] {
      assert d[0].0 != k;
      forall i | 0 <= i < |d[1..]| ensures d[1..][i].0 != k {
        assert d[1..][i] == d[i + 1];
      }
      SetNew(d[1..], k, v);
      assert d == [d[0]] + d[1..];
    }
  }

  /** Assigning pairs with distinct keys, one after the other, to an empty
      dict gives those pairs in order. */
  lemma {:induction false} SetAllDistinct<K, V>(ps: seq<(K, V)>)
    requires DistinctKeys(ps)
    ensures SetAll([], ps) == ps
  {
    if ps != [] {
      var n := |ps| - 1;
      assert DistinctKeys(ps[..n]);
      SetAllDistinct(ps[..n]);
      forall i | 0 <= i < n ensures ps[..n][i].0 != ps[n].0 {
        assert ps[..n][i] == ps[i];
      }
      SetNew(ps[..n], ps[n].0, ps[n].1);
      assert ps[..n] + [ps[n]] == ps;
    }
  }

  /** In a dict without repeated keys, every entry is what `d[k]` gives. */
  lemma {:induction false} GetDistinct<K, V>(d: Dict<K, V>, i: nat)
    requires DistinctKeys(d) && i < |d|
    ensures Get(d, d[i].0) == Some(d[i].1)
  {
    if i > 0 {
      assert d[0].0 != d[i].0;
      assert DistinctKeys(d[1..]);
      GetDistinct(d[1..], i - 1);
    }
  }

  /** Two dicts with the same entries in another order are equal. */
  lemma SameItemsReordered<K, V>(d1: Dict<K, V>, d2: Dict<K, V>)
    requires DistinctKeys(d1) && DistinctKeys(d2) && multiset(d1) == multiset(d2)
    ensures SameItems(d1, d2)
  {
    forall i | 0 <= i < |d1| ensures Get(d2, d1[i].0) == Get(d1, d1[i].0) {
      assert d1[i] in multiset(d2);
      var j :| 0 <= j < |d2| && d2[j] == d1[i];
      GetDistinct(d1, i);
      GetDistinct(d2, j);
    }
    forall j | 0 <= j < |d2| ensures Get(d1, d2[j].0) == Get(d2, d2[j].0) {
      assert d2[j] in multiset(d1);
      var i :| 0 <= i < |d1| && d1[i] == d2[j];
      GetDistinct(d1, i);
      GetDistinct(d2, j);
    }
  }

  /** Dict equality is transitive. */
  lemma SameItemsTransitive<K, V>(d1: Dict<K, V>, d2: Dict<K, V>, d3: Dict<K, V>)
    requires SameItems(d1, d2) && SameItems(d2, d3)
    ensures SameItems(d1, d3)
  {
    forall i | 0 <= i < |d1| ensures Get(d3, d1[i].0) == Get(d1, d1[i].0) {
      assert HasKey(d1, d1[i].0);
      var j :| 0 <= j < |d2| && d2[j] == (d1[i].0, Get(d2, d1[i].0).value);
      assert Get(d3, d2[j].0) == Get(d2, d2[j].0);
    }
    forall i | 0 <= i < |d3| ensures Get(d1, d3[i].0) == Get(d3, d3[i].0) {
      assert HasKey(d3, d3[i].0);
      var j :| 0 <= j < |d2| && d2[j] == (d3[i].0, Get(d2, d3[i].0).value);
      assert Get(d1, d2[j].0) == Get(d2, d2[j].0);
    }
  }
}
