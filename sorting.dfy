/** Python's `sorted` and `list.sort` with a `key`: a stable sort. `less`
    says when one element's key is smaller than another's; elements whose
    keys tie keep their relative order. */
module Sorting {

  /** `less` behaves as `<` on keys: asymmetric, and "not smaller" is
      transitive (so ties form equivalence classes). */
  ghost predicate StrictWeakOrder<T(!new)>(less: (T, T) -> bool) {
    (forall a, b :: less(a, b) ==> !less(b, a)) &&
    (forall a, b, c :: !less(a, b) && !less(b, c) ==> !less(a, c))
  }

  /** No element is smaller than one to its left. */
  predicate Sorted<T>(s: seq<T>, less: (T, T) -> bool) {
    forall i, j :: 0 <= i < j < |s| ==> !less(s[j], s[i])
  }

  /** `s` with `x` inserted after every element it is not smaller than. */
  function Insert<T>(s: seq<T>, x: T, less: (T, T) -> bool): (r: seq<T>)
    ensures multiset(r) == multiset(s) + multiset{x}
    ensures |r| == |s| + 1
  {
    if s == [] || !less(x, s[|s| - 1]) then s + [x]
    else
      var n := |s| - 1;
      assert s == s[..n] + [s[n]];
      Insert(s[..n], x, less) + [s[n]]
  }

  /** Insertion sort, taking the elements from left to right. */
  function SortBy<T>(s: seq<T>, less: (T, T) -> bool): (r: seq<T>)
    ensures multiset(r) == multiset(s)
    ensures |r| == |s|
  {
    if s == [] then []
    else
      var n := |s| - 1;
      assert s == s[..n] + [s[n]];
      Insert(SortBy(s[..n], less), s[n], less)
  }

  /** An element that goes before the last one is inserted among the others. */
  lemma InsertBefore<T>(s: seq<T>, x: T, less: (T, T) -> bool)
    requires s != [] && less(x, s[|s| - 1])
    ensures Insert(s, x, less) == Insert(s[..|s| - 1], x, less) + [s[|s| - 1]]
  {
  }

  lemma {:induction false} InsertSorted<T(!new)>(s: seq<T>, x: T, less: (T, T) -> bool)
    requires StrictWeakOrder(less) && Sorted(s, less)
    ensures Sorted(Insert(s, x, less), less)
  {
    var r := Insert(s, x, less);
    if s != [] && less(x, s[|s| - 1]) {
      var n := |s| - 1;
      InsertSorted(s[..n], x, less);
      var t := Insert(s[..n], x, less);
      assert r == t + [s[n]];
      forall i | 0 <= i < |t| ensures !less(s[n], t[i]) {
        assert t[i] in multiset(t);
        if t[i] != x {
          assert t[i] in multiset(s[..n]);
          var k :| 0 <= k < n && s[..n][k] == t[i];
          assert s[k] == t[i];
        }
      }
    } else if s != [] {
      var n := |s| - 1;
      forall i, j | 0 <= i < j < |r| ensures !less(r[j], r[i]) {
        if j == |s| && i < n {
          assert !less(s[n], s[i]);
        }
      }
    }
  }

  /** The sort gives a sorted permutation of its input. */
  lemma {:induction false} SortBySorted<T(!new)>(s: seq<T>, less: (T, T) -> bool)
    requires StrictWeakOrder(less)
    ensures Sorted(SortBy(s, less), less)
    ensures multiset(SortBy(s, less)) == multiset(s)
  {
    if s != [] {
      var n := |s| - 1;
      SortBySorted(s[..n], less);
      InsertSorted(SortBy(s[..n], less), s[n], less);
    }
  }

  /** Sorting what is already sorted changes nothing: ties keep their
      order. */
  lemma {:induction false} SortBySortedUnchanged<T>(s: seq<T>, less: (T, T) -> bool)
    requires Sorted(s, less)
    ensures SortBy(s, less) == s
  {
    if s != [] {
      var n := |s| - 1;
      var p := s[..n];
      assert Sorted(p, less);
      SortBySortedUnchanged(p, less);
      assert p + [s[n]] == s;
      if n > 0 {
        assert !less(s[n], s[n - 1]);
        assert p[n - 1] == s[n - 1];
      }
      assert Insert(p, s[n], less) == p + [s[n]];
    }
  }
}
