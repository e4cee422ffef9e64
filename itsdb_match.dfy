/** `match_rows`: the rows of two tables grouped by the value of a key
    column, as (value, left rows, right rows) triples. */
module ItsdbMatch {
  import opened Wrappers
  import opened Dicts
  import opened Itsdb
  import opened ItsdbRows
  import StrOrder

  /** The groups collected so far: key value to (left rows, right rows). */
  type Matched = Dict<string, (seq<Row>, seq<Row>)>

  /** One triple of the result. */
  datatype Triple = Triple(value: string, left: seq<Row>, right: seq<Row>)

  /** A strict order on key values. */
  type Order = (string, string) -> bool

  /** Python's `int(x)` on a string: the integer it denotes, or `None`
      where `int` raises `ValueError`. */
  type IntOf = string -> Option<int>

  /** What `safe_int(x)` returns: `int(x)` when that succeeds, otherwise
      `x` itself. */
  datatype SortKey = IntKey(n: int) | StrKey(s: string)

  function SafeInt(intOf: IntOf, v: string): (k: SortKey)
    ensures k.IntKey? <==> intOf(v).Some?
    ensures k.StrKey? ==> k.s == v
  {
    match intOf(v)
    case Some(n) => IntKey(n)
    case None => StrKey(v)
  }

  /** `<` between two keys of the same kind: integers numerically, strings
      by code point. Python refuses to compare an `int` with a `str`. */
  predicate KeyLess(a: SortKey, b: SortKey) {
    match (a, b)
    case (IntKey(m), IntKey(n)) => m < n
    case (StrKey(x), StrKey(y)) => StrOrder.Less(x, y)
    case _ => false
  }

  /** Comparing values by their `safe_int` keys. */
  function SafeIntBefore(intOf: IntOf): Order {
    (a: string, b: string) => KeyLess(SafeInt(intOf, a), SafeInt(intOf, b))
  }

  /** The `safe_int` keys of `vals` are all integers or all strings, so that
      `sorted` can compare any two of them. When both kinds occur, every
      comparison sort must at some point compare an integer key with a
      string key (two neighbours of different kinds in any order it could
      return), and Python raises `TypeError` there. */
  predicate Comparable(intOf: IntOf, vals: seq<string>) {
    (forall v :: v in vals ==> intOf(v).Some?) || (forall v :: v in vals ==> intOf(v).None?)
  }

  // ---------------------------------------------------------------------
  // Reference definitions

  /** The rows whose key column holds `v`, in input order. */
  function RowsWith(rows: seq<Row>, key: string, v: string): (r: seq<Row>)
    ensures |r| <= |rows|
  {
    if rows == [] then []
    else
      var n := |rows| - 1;
      RowsWith(rows[..n], key, v) + (if key in rows[n] && rows[n][key] == v then [rows[n]] else [])
  }

  predicate AllHave(rows: seq<Row>, key: string) {
    forall i :: 0 <= i < |rows| ==> key in rows[i]
  }

  /** The key column of every row. */
  function Values(rows: seq<Row>, key: string): (r: seq<string>)
    requires AllHave(rows, key)
    ensures |r| == |rows|
    ensures forall i :: 0 <= i < |rows| ==> r[i] == rows[i][key]
  {
    seq(|rows|, i requires 0 <= i < |rows| => rows[i][key])
  }

  /** `ks` with `v` added at the end unless already there. */
  function AppendNew(ks: seq<string>, v: string): (r: seq<string>)
    ensures v in r
  {
    if v in ks then ks else ks + [v]
  }

  /** The values of `s` not already in `ks`, appended in order of first
      occurrence. */
  function FirstSeen(ks: seq<string>, s: seq<string>): seq<string> {
    if s == [] then ks
    else AppendNew(FirstSeen(ks, s[..|s| - 1]), s[|s| - 1])
  }

  predicate Distinct(ks: seq<string>) {
    forall i, j :: 0 <= i < j < |ks| ==> ks[i] != ks[j]
  }

  /** The position of the first occurrence of `v` in `s`. */
  function FirstIndex(s: seq<string>, v: string): (i: nat)
    requires v in s
    ensures i < |s| && s[i] == v && v !in s[..i]
  {
    if s[0] == v then 0
    else
      var j := FirstIndex(s[1..], v);
      assert s[1..][..j] == s[1..j + 1];
      1 + j
  }

  // ---------------------------------------------------------------------
  // The collecting loop as a specification

  /** The group of `v`, or two empty lists when there is none yet. */
  function Side(d: Matched, v: string): (seq<Row>, seq<Row>) {
    match Get(d, v)
    case Some(p) => p
    case None => ([], [])
  }

  /** One row appended to the left (`left`) or right list of its value's
      group; `row[key]` on a row without the column raises `KeyError`. */
  function AddRow(d: Matched, row: Row, key: string, left: bool): Result<Matched, RowsError> {
    if key !in row then Failure(MissingKey(key))
    else
      var v := row[key];
      var p := Side(d, v);
      Success(Set(d, v, if left then (p.0 + [row], p.1) else (p.0, p.1 + [row])))
  }

  /** All rows of one table added in order. */
  function Collect(d: Matched, rows: seq<Row>, key: string, left: bool): Result<Matched, RowsError> {
    if rows == [] then Success(d)
    else
      var n := |rows| - 1;
      match Collect(d, rows[..n], key, left)
      case Failure(e) => Failure(e)
      case Success(d') => AddRow(d', rows[n], key, left)
  }

  /** The groups of both tables: first every row of `rows1`, then every row
      of `rows2`. */
  function Matching(rows1: seq<Row>, rows2: seq<Row>, key: string): Result<Matched, RowsError> {
    match Collect([], rows1, key, true)
    case Failure(e) => Failure(e)
    case Success(d) => Collect(d, rows2, key, false)
  }

  /** `x` placed before the first element it comes before. */
  function Insert(x: string, s: seq<string>, before: Order): (r: seq<string>)
    ensures multiset(r) == multiset(s) + multiset{x}
  {
    if s == [] then [x]
    else if before(x, s[0]) then [x] + s
    else
      assert s == [s[0]] + s[1..];
      [s[0]] + Insert(x, s[1..], before)
  }

  /** `sorted(vals, key=...)`: a stable sort by `before`. */
  function SortBy(s: seq<string>, before: Order): (r: seq<string>)
    ensures multiset(r) == multiset(s)
  {
    if s == [] then []
    else
      var n := |s| - 1;
      assert s == s[..n] + [s[n]];
      Insert(s[n], SortBy(s[..n], before), before)
  }

  function Triples(d: Matched, vals: seq<string>): (r: seq<Triple>)
    ensures |r| == |vals|
    ensures forall i :: 0 <= i < |vals| ==> r[i] == Triple(vals[i], Side(d, vals[i]).0, Side(d, vals[i]).1)
  {
    seq(|vals|, i requires 0 <= i < |vals| => Triple(vals[i], Side(d, vals[i]).0, Side(d, vals[i]).1))
  }

  /** `list(match_rows(rows1, rows2, key, sort_keys))` */
  function MatchRowsSpec(rows1: seq<Row>, rows2: seq<Row>, key: string, sortKeys: bool, intOf: IntOf)
    : Result<seq<Triple>, RowsError>
  {
    match Matching(rows1, rows2, key)
    case Failure(e) => Failure(e)
    case Success(d) =>
      if !sortKeys then Success(Triples(d, Keys(d)))
      else if !Comparable(intOf, Keys(d)) then Failure(UnorderableKeys)
      else Success(Triples(d, SortBy(Keys(d), SafeIntBefore(intOf))))
  }

  // ---------------------------------------------------------------------
  // The method

  /** The loop of `match_rows` over `[rows1, rows2]` and their rows,
      filling the ordered dict in place, followed by the (optionally
      sorted) triples. */
  method MatchRows(rows1: seq<Row>, rows2: seq<Row>, key: string, sortKeys: bool, intOf: IntOf)
    returns (r: Result<seq<Triple>, RowsError>)
    ensures r == MatchRowsSpec(rows1, rows2, key, sortKeys, intOf)
  {
    var matched: Matched := [];
    for i := 0 to 2
      invariant i == 0 ==> matched == []
      invariant i == 1 ==> Collect([], rows1, key, true) == Success(matched)
      invariant i == 2 ==> Matching(rows1, rows2, key) == Success(matched)
    {
      var rows := if i == 0 then rows1 else rows2;
      ghost var start := matched;
      for j := 0 to |rows|
        invariant Collect(start, rows[..j], key, i == 0) == Success(matched)
      {
        var row := rows[j];
        assert rows[..j + 1][..j] == rows[..j];
        if key !in row {
          CollectFailsFrom(start, rows, key, i == 0, j);
          r := Failure(MissingKey(key));
          return;
        }
        var val := row[key];
        var data := Side(matched, val);
        if i == 0 {
          data := (data.0 + [row], data.1);
        } else {
          data := (data.0, data.1 + [row]);
        }
        matched := Set(matched, val, data);
      }
      assert rows[..|rows|] == rows;
    }
    var vals := Keys(matched);
    if sortKeys {
      if !Comparable(intOf, vals) {
        r := Failure(UnorderableKeys);
        return;
      }
      vals := SortBy(vals, SafeIntBefore(intOf));
    }
    r := Success(Triples(matched, vals));
  }

  /** A row without the key column makes the whole collection fail. */
  lemma {:induction false} CollectFailsFrom(d: Matched, rows: seq<Row>, key: string, left: bool, j: nat)
    requires j < |rows| && key !in rows[j]
    requires Collect(d, rows[..j], key, left).Success?
    ensures Collect(d, rows, key, left) == Failure(MissingKey(key))
    decreases |rows|
  {
    var n := |rows| - 1;
    if j == n {
      assert rows[..n] == rows[..j];
    } else {
      assert rows[..n][..j] == rows[..j];
      CollectFailsFrom(d, rows[..n], key, left, j);
    }
  }

  // ---------------------------------------------------------------------
  // Properties of the reference definitions

  lemma {:induction false} FirstSeenHas(ks: seq<string>, s: seq<string>, x: string)
    ensures x in FirstSeen(ks, s) <==> x in ks || x in s
  {
    if s != [] {
      var n := |s| - 1;
      FirstSeenHas(ks, s[..n], x);
      assert s == s[..n] + [s[n]];
    }
  }

  lemma {:induction false} FirstSeenDistinct(ks: seq<string>, s: seq<string>)
    requires Distinct(ks)
    ensures Distinct(FirstSeen(ks, s))
  {
    if s != [] {
      FirstSeenDistinct(ks, s[..|s| - 1]);
    }
  }

  /** Adding two sequences of values is adding their concatenation. */
  lemma {:induction false} FirstSeenAppend(ks: seq<string>, a: seq<string>, b: seq<string>)
    ensures FirstSeen(FirstSeen(ks, a), b) == FirstSeen(ks, a + b)
  {
    if b != [] {
      var n := |b| - 1;
      FirstSeenAppend(ks, a, b[..n]);
      assert (a + b)[..|a + b| - 1] == a + b[..n];
    } else {
      assert a + b == a;
    }
  }

  /** Starting from nothing, values come in the order of their first
      occurrence. */
  lemma {:induction false} FirstSeenOrder(s: seq<string>, i: nat, j: nat)
    requires i < j < |FirstSeen([], s)|
    ensures FirstSeen([], s)[i] in s && FirstSeen([], s)[j] in s
    ensures FirstIndex(s, FirstSeen([], s)[i]) < FirstIndex(s, FirstSeen([], s)[j])
  {
    var n := |s| - 1;
    var p := s[..n];
    var r := FirstSeen([], s);
    var q := FirstSeen([], p);
    FirstSeenHas([], s, r[i]);
    FirstSeenHas([], s, r[j]);
    assert s == p + [s[n]];
    FirstSeenHas([], p, r[i]);
    if j < |q| {
      assert r[i] == q[i] && r[j] == q[j];
      FirstSeenOrder(p, i, j);
      FirstIndexPrefix(p, s[n], r[i]);
      FirstIndexPrefix(p, s[n], r[j]);
    } else {
      FirstSeenHas([], p, s[n]);
      assert r == q + [s[n]] && r[j] == s[n];
      FirstSeenHas([], p, r[i]);
      FirstIndexPrefix(p, s[n], r[i]);
      assert FirstIndex(s, r[j]) == n;
    }
  }

  lemma FirstIndexPrefix(p: seq<string>, x: string, v: string)
    requires v in p
    ensures FirstIndex(p + [x], v) == FirstIndex(p, v) < |p|
  {
    var s := p + [x];
    var k := FirstIndex(p, v);
    assert s[..k] == p[..k];
    FirstIndexUnique(s, v, k);
  }

  lemma FirstIndexUnique(s: seq<string>, v: string, k: nat)
    requires k < |s| && s[k] == v && v !in s[..k]
    ensures FirstIndex(s, v) == k
  {
  }

  /** Every row whose key column holds `v` is kept, and nothing else. */
  lemma {:induction false} RowsWithHas(rows: seq<Row>, key: string, v: string, row: Row)
    ensures row in RowsWith(rows, key, v) <==> row in rows && key in row && row[key] == v
  {
    if rows != [] {
      var n := |rows| - 1;
      RowsWithHas(rows[..n], key, v, row);
      assert rows == rows[..n] + [rows[n]];
    }
  }

  /** Collecting fails exactly when some row lacks the key column. */
  lemma {:induction false} CollectFails(d: Matched, rows: seq<Row>, key: string, left: bool)
    ensures Collect(d, rows, key, left).Failure? <==> !AllHave(rows, key)
    ensures Collect(d, rows, key, left).Failure? ==> Collect(d, rows, key, left).error == MissingKey(key)
  {
    if rows != [] {
      var n := |rows| - 1;
      CollectFails(d, rows[..n], key, left);
      assert AllHave(rows, key) <==> AllHave(rows[..n], key) && key in rows[n] by {
        if AllHave(rows[..n], key) && key in rows[n] {
          forall i | 0 <= i < |rows| ensures key in rows[i] {
            if i < n {
              assert rows[i] == rows[..n][i];
            }
          }
        }
      }
    }
  }

  /** The group keys after collecting are the old keys followed by the new
      values in order of first occurrence. */
  lemma {:induction false} CollectKeys(d: Matched, rows: seq<Row>, key: string, left: bool)
    requires AllHave(rows, key)
    ensures Collect(d, rows, key, left).Success?
    ensures Keys(Collect(d, rows, key, left).value) == FirstSeen(Keys(d), Values(rows, key))
  {
    CollectFails(d, rows, key, left);
    if rows != [] {
      var n := |rows| - 1;
      assert AllHave(rows[..n], key);
      CollectKeys(d, rows[..n], key, left);
      var d' := Collect(d, rows[..n], key, left).value;
      var v := rows[n][key];
      SetKeys(d', v, if left then (Side(d', v).0 + [rows[n]], Side(d', v).1) else (Side(d', v).0, Side(d', v).1 + [rows[n]]));
      HasKeyIn(d', v);
      assert Values(rows, key)[..n] == Values(rows[..n], key);
    }
  }

  lemma HasKeyIn(d: Matched, v: string)
    ensures HasKey(d, v) <==> v in Keys(d)
  {
    if v in Keys(d) {
      var i :| 0 <= i < |Keys(d)| && Keys(d)[i] == v;
      assert d[i].0 == v;
    }
  }

  /** After collecting, each value's group on the collected side has the
      rows holding that value appended; the other side is unchanged. */
  lemma {:induction false} CollectSides(d: Matched, rows: seq<Row>, key: string, left: bool, v: string)
    requires Collect(d, rows, key, left).Success?
    ensures Side(Collect(d, rows, key, left).value, v) ==
      if left then (Side(d, v).0 + RowsWith(rows, key, v), Side(d, v).1)
      else (Side(d, v).0, Side(d, v).1 + RowsWith(rows, key, v))
  {
    if rows != [] {
      var n := |rows| - 1;
      CollectSides(d, rows[..n], key, left, v);
      var d' := Collect(d, rows[..n], key, left).value;
      assert key in rows[n];
      var w := rows[n][key];
      var p := Side(d', w);
      assert Collect(d, rows, key, left) == Success(Set(d', w, if left then (p.0 + [rows[n]], p.1) else (p.0, p.1 + [rows[n]])));
      GetSet(d', w, if left then (p.0 + [rows[n]], p.1) else (p.0, p.1 + [rows[n]]), v);
      if v == w {
        assert RowsWith(rows, key, v) == RowsWith(rows[..n], key, v) + [rows[n]];
        assert Side(d, v).0 + RowsWith(rows, key, v) == (Side(d, v).0 + RowsWith(rows[..n], key, v)) + [rows[n]];
        assert Side(d, v).1 + RowsWith(rows, key, v) == (Side(d, v).1 + RowsWith(rows[..n], key, v)) + [rows[n]];
      } else {
        assert RowsWith(rows, key, v) == RowsWith(rows[..n], key, v) + [];
        assert RowsWith(rows[..n], key, v) + [] == RowsWith(rows[..n], key, v);
      }
    } else {
      assert Side(d, v).0 + [] == Side(d, v).0 && Side(d, v).1 + [] == Side(d, v).1;
    }
  }

  // ---------------------------------------------------------------------
  // Sorting

  /** `before` is irreflexive and transitive, as `<` on integers or on
      strings is. */
  ghost predicate StrictOrder(before: Order) {
    (forall a :: !before(a, a)) &&
    (forall a, b, c :: before(a, b) && before(b, c) ==> before(a, c))
  }

  /** No element comes before one to its left. */
  predicate Sorted(s: seq<string>, before: Order) {
    forall i, j :: 0 <= i < j < |s| ==> !before(s[j], s[i])
  }

  lemma {:induction false} InsertSorted(x: string, s: seq<string>, before: Order)
    requires StrictOrder(before) && Sorted(s, before)
    ensures Sorted(Insert(x, s, before), before)
  {
    if s == [] {
    } else if before(x, s[0]) {
      InsertFrontSorted(x, s, before);
    } else {
      assert Sorted(s[1..], before);
      InsertSorted(x, s[1..], before);
      InsertLaterSorted(x, s, before);
    }
  }

  /** An element placed in front of everything it comes before keeps the
      sequence sorted. */
  lemma InsertFrontSorted(x: string, s: seq<string>, before: Order)
    requires StrictOrder(before) && Sorted(s, before)
    requires s != [] && before(x, s[0])
    ensures Sorted(Insert(x, s, before), before)
  {
    var r := Insert(x, s, before);
    assert r == [x] + s;
    forall i, j | 0 <= i < j < |r| ensures !before(r[j], r[i]) {
      assert r[j] == s[j - 1];
      if i == 0 {
        assert !before(s[j - 1], s[0]);
      } else {
        assert r[i] == s[i - 1];
      }
    }
  }

  /** An element that does not come before the head is inserted into the
      tail; the head stays first. */
  lemma InsertLaterSorted(x: string, s: seq<string>, before: Order)
    requires Sorted(s, before) && s != [] && !before(x, s[0])
    requires Sorted(Insert(x, s[1..], before), before)
    ensures Sorted(Insert(x, s, before), before)
  {
    var t := Insert(x, s[1..], before);
    assert Insert(x, s, before) == [s[0]] + t;
    forall k | 0 <= k < |s[1..]| ensures !before(s[1..][k], s[0]) {
      assert s[1..][k] == s[k + 1];
    }
    InsertNotBefore(x, s[1..], before, s[0]);
    ConsSorted(s[0], t, before);
  }

  /** When neither `x` nor any element of `s` comes before `h`, no element
      of their insertion does. */
  lemma {:induction false} InsertNotBefore(x: string, s: seq<string>, before: Order, h: string)
    requires !before(x, h) && forall k :: 0 <= k < |s| ==> !before(s[k], h)
    ensures forall y :: y in Insert(x, s, before) ==> !before(y, h)
  {
    if s != [] && !before(x, s[0]) {
      InsertNotBefore(x, s[1..], before, h);
    }
  }

  /** A head that no later element comes before keeps a sorted tail sorted. */
  lemma ConsSorted(h: string, t: seq<string>, before: Order)
    requires Sorted(t, before)
    requires forall y :: y in t ==> !before(y, h)
    ensures Sorted([h] + t, before)
  {
    var r := [h] + t;
    forall i, j | 0 <= i < j < |r| ensures !before(r[j], r[i]) {
      assert r[j] == t[j - 1];
      if i > 0 {
        assert r[i] == t[i - 1];
      }
    }
  }

  lemma {:induction false} InsertDistinct(x: string, s: seq<string>, before: Order)
    requires Distinct(s) && x !in s
    ensures Distinct(Insert(x, s, before))
  {
    if s != [] && !before(x, s[0]) {
      assert Distinct(s[1..]);
      assert x !in s[1..];
      InsertDistinct(x, s[1..], before);
      var t := Insert(x, s[1..], before);
      assert s[0] !in s[1..];
      assert s[0] !in multiset(t);
    }
  }

  /** Sorting a sequence gives a sorted permutation of it; distinct
      values stay distinct. */
  lemma {:induction false} SortBySorted(s: seq<string>, before: Order)
    requires StrictOrder(before)
    ensures Sorted(SortBy(s, before), before)
    ensures Distinct(s) ==> Distinct(SortBy(s, before))
  {
    if s != [] {
      var n := |s| - 1;
      SortBySorted(s[..n], before);
      InsertSorted(s[n], SortBy(s[..n], before), before);
      if Distinct(s) {
        assert Distinct(s[..n]);
        assert s[n] !in s[..n];
        assert s[n] !in multiset(SortBy(s[..n], before));
        InsertDistinct(s[n], SortBy(s[..n], before), before);
      }
    }
  }

  // ---------------------------------------------------------------------
  // match_rows

  /** The values of the triples, in order. */
  function Vals(ts: seq<Triple>): (r: seq<string>)
    ensures |r| == |ts|
    ensures forall i :: 0 <= i < |ts| ==> r[i] == ts[i].value
  {
    seq(|ts|, i requires 0 <= i < |ts| => ts[i].value)
  }

  /** The values of both key columns, `rows1` first. */
  function AllValues(rows1: seq<Row>, rows2: seq<Row>, key: string): seq<string>
    requires AllHave(rows1, key) && AllHave(rows2, key)
  {
    Values(rows1, key) + Values(rows2, key)
  }

  /** When every row has the key, the collected groups are keyed by the
      values in order of first occurrence. */
  lemma MatchingKeys(rows1: seq<Row>, rows2: seq<Row>, key: string)
    requires AllHave(rows1, key) && AllHave(rows2, key)
    ensures Matching(rows1, rows2, key).Success?
    ensures Keys(Matching(rows1, rows2, key).value) == FirstSeen([], AllValues(rows1, rows2, key))
  {
    CollectKeys([], rows1, key, true);
    var d1 := Collect([], rows1, key, true).value;
    CollectKeys(d1, rows2, key, false);
    assert Keys<string, (seq<Row>, seq<Row>)>([]) == [];
    FirstSeenAppend([], Values(rows1, key), Values(rows2, key));
  }

  /** `Comparable` depends only on which values occur. */
  lemma ComparableFirstSeen(intOf: IntOf, s: seq<string>)
    ensures Comparable(intOf, FirstSeen([], s)) <==> Comparable(intOf, s)
  {
    forall v ensures v in FirstSeen([], s) <==> v in s {
      FirstSeenHas([], s, v);
    }
  }

  /** Keys compared through `safe_int` are strictly ordered. */
  lemma SafeIntOrder(intOf: IntOf)
    ensures StrictOrder(SafeIntBefore(intOf))
  {
    var before := SafeIntBefore(intOf);
    forall a ensures !before(a, a) {
      if intOf(a).None? {
        StrOrder.LessIrreflexive(a);
      }
    }
    forall a, b, c | before(a, b) && before(b, c) ensures before(a, c) {
      if intOf(a).None? {
        StrOrder.LessTransitive(a, b, c);
      }
    }
  }

  /** `match_rows` raises `KeyError` when a row of either table lacks the
      key column; otherwise it fails only when sorting, with `TypeError`,
      exactly when the values' `safe_int` keys mix integers and strings. */
  lemma MatchRowsFails(rows1: seq<Row>, rows2: seq<Row>, key: string, sortKeys: bool, intOf: IntOf)
    ensures !AllHave(rows1, key) || !AllHave(rows2, key) ==>
      MatchRowsSpec(rows1, rows2, key, sortKeys, intOf) == Failure(MissingKey(key))
    ensures AllHave(rows1, key) && AllHave(rows2, key) ==>
      (MatchRowsSpec(rows1, rows2, key, sortKeys, intOf).Failure? <==>
         sortKeys && !Comparable(intOf, AllValues(rows1, rows2, key)))
    ensures AllHave(rows1, key) && AllHave(rows2, key) && MatchRowsSpec(rows1, rows2, key, sortKeys, intOf).Failure? ==>
      MatchRowsSpec(rows1, rows2, key, sortKeys, intOf).error == UnorderableKeys
  {
    CollectFails([], rows1, key, true);
    if AllHave(rows1, key) {
      CollectFails(Collect([], rows1, key, true).value, rows2, key, false);
      if AllHave(rows2, key) {
        MatchingKeys(rows1, rows2, key);
        ComparableFirstSeen(intOf, AllValues(rows1, rows2, key));
      }
    }
  }

  /** The groups and their order when every row has the key (and, when
      sorting, the keys can be compared): the left list of a value is the
      rows of `rows1` holding it and the right list the rows of `rows2`;
      the values are those of both tables in order of first occurrence, or
      stably sorted by their `safe_int` keys. */
  lemma MatchRowsGroups(rows1: seq<Row>, rows2: seq<Row>, key: string, sortKeys: bool, intOf: IntOf)
    requires AllHave(rows1, key) && AllHave(rows2, key)
    requires sortKeys ==> Comparable(intOf, AllValues(rows1, rows2, key))
    ensures MatchRowsSpec(rows1, rows2, key, sortKeys, intOf).Success?
    ensures forall i :: 0 <= i < |MatchRowsSpec(rows1, rows2, key, sortKeys, intOf).value| ==>
      var t := MatchRowsSpec(rows1, rows2, key, sortKeys, intOf).value[i];
      t.left == RowsWith(rows1, key, t.value) && t.right == RowsWith(rows2, key, t.value)
    ensures !sortKeys ==>
      Vals(MatchRowsSpec(rows1, rows2, key, sortKeys, intOf).value) == FirstSeen([], AllValues(rows1, rows2, key))
    ensures sortKeys ==>
      Vals(MatchRowsSpec(rows1, rows2, key, sortKeys, intOf).value) ==
        SortBy(FirstSeen([], AllValues(rows1, rows2, key)), SafeIntBefore(intOf))
  {
    MatchingKeys(rows1, rows2, key);
    ComparableFirstSeen(intOf, AllValues(rows1, rows2, key));
    var d1 := Collect([], rows1, key, true).value;
    var d := Matching(rows1, rows2, key).value;
    var ts := MatchRowsSpec(rows1, rows2, key, sortKeys, intOf).value;
    forall i | 0 <= i < |ts|
      ensures ts[i].left == RowsWith(rows1, key, ts[i].value) && ts[i].right == RowsWith(rows2, key, ts[i].value)
    {
      var v := ts[i].value;
      CollectSides([], rows1, key, true, v);
      CollectSides(d1, rows2, key, false, v);
      assert [] + RowsWith(rows1, key, v) == RowsWith(rows1, key, v);
      assert [] + RowsWith(rows2, key, v) == RowsWith(rows2, key, v);
    }
    assert Vals(ts) == if sortKeys then SortBy(Keys(d), SafeIntBefore(intOf)) else Keys(d);
  }

  /** Each value appears in exactly one triple, and exactly the values of
      the two tables appear; sorted triples are in `safe_int` order. */
  lemma MatchRowsValues(rows1: seq<Row>, rows2: seq<Row>, key: string, sortKeys: bool, intOf: IntOf, v: string)
    requires AllHave(rows1, key) && AllHave(rows2, key)
    requires sortKeys ==> Comparable(intOf, AllValues(rows1, rows2, key))
    ensures MatchRowsSpec(rows1, rows2, key, sortKeys, intOf).Success?
    ensures Distinct(Vals(MatchRowsSpec(rows1, rows2, key, sortKeys, intOf).value))
    ensures v in Vals(MatchRowsSpec(rows1, rows2, key, sortKeys, intOf).value)
      <==> v in Values(rows1, key) || v in Values(rows2, key)
    ensures sortKeys ==> Sorted(Vals(MatchRowsSpec(rows1, rows2, key, sortKeys, intOf).value), SafeIntBefore(intOf))
  {
    MatchRowsGroups(rows1, rows2, key, sortKeys, intOf);
    var all := AllValues(rows1, rows2, key);
    var keys := FirstSeen([], all);
    FirstSeenDistinct([], all);
    FirstSeenHas([], all, v);
    if sortKeys {
      SafeIntOrder(intOf);
      SortBySorted(keys, SafeIntBefore(intOf));
      assert v in SortBy(keys, SafeIntBefore(intOf)) <==> v in multiset(keys);
    }
  }

  /** A key column holding `"1"` in one table and `"a"` in the other cannot
      be sorted: `safe_int` gives `1` and `"a"`, which Python refuses to
      compare. */
  lemma MixedKeysRaise(intOf: IntOf)
    requires intOf("1") == Some(1) && intOf("a") == None
    ensures MatchRowsSpec([map["k" := "1"]], [map["k" := "a"]], "k", true, intOf) == Failure(UnorderableKeys)
    ensures MatchRowsSpec([map["k" := "1"]], [map["k" := "a"]], "k", false, intOf).Success?
  {
    var rows1: seq<Row> := [map["k" := "1"]];
    var rows2: seq<Row> := [map["k" := "a"]];
    assert AllHave(rows1, "k") && AllHave(rows2, "k");
    var all := AllValues(rows1, rows2, "k");
    assert all[0] == "1" && all[1] == "a";
    assert !Comparable(intOf, all) by {
      assert "1" in all && "a" in all;
    }
    MatchRowsFails(rows1, rows2, "k", true, intOf);
    MatchRowsFails(rows1, rows2, "k", false, intOf);
  }

  /** The triple is that of the row's value and lists the row on the
      side(s) of the table(s) it comes from. */
  predicate Holds(t: Triple, row: Row, key: string, rows1: seq<Row>, rows2: seq<Row>) {
    key in row && t.value == row[key] && (row in rows1 ==> row in t.left) && (row in rows2 ==> row in t.right)
  }

  /** Every row lands in its value's triple: a row of `rows1` in the left
      list, a row of `rows2` in the right one. */
  lemma MatchRowsPlaces(rows1: seq<Row>, rows2: seq<Row>, key: string, sortKeys: bool, intOf: IntOf, row: Row)
    requires AllHave(rows1, key) && AllHave(rows2, key)
    requires row in rows1 || row in rows2
    requires sortKeys ==> Comparable(intOf, AllValues(rows1, rows2, key))
    ensures key in row
    ensures MatchRowsSpec(rows1, rows2, key, sortKeys, intOf).Success?
    ensures exists i ::
      0 <= i < |MatchRowsSpec(rows1, rows2, key, sortKeys, intOf).value| &&
      Holds(MatchRowsSpec(rows1, rows2, key, sortKeys, intOf).value[i], row, key, rows1, rows2)
  {
    var v := row[key];
    MatchRowsValues(rows1, rows2, key, sortKeys, intOf, v);
    MatchRowsGroups(rows1, rows2, key, sortKeys, intOf);
    var ts := MatchRowsSpec(rows1, rows2, key, sortKeys, intOf).value;
    if row in rows1 {
      var k :| 0 <= k < |rows1| && rows1[k] == row;
      assert Values(rows1, key)[k] == v;
    } else {
      var k :| 0 <= k < |rows2| && rows2[k] == row;
      assert Values(rows2, key)[k] == v;
    }
    var i :| 0 <= i < |ts| && Vals(ts)[i] == v;
    RowsWithHas(rows1, key, v, row);
    RowsWithHas(rows2, key, v, row);
    assert ts[i].value == v;
  }
}
