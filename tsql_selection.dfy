/** The result of a TSQL `select` (class `Selection` in delphin/tsql.py)
    and the in-place join that fills it (`_join`, `_merge_fields`), over an
    in-memory stand-in for the test-suite database. */
module TsqlSelection {
  import opened Wrappers
  import opened Dicts
  import opened TsqlSyntax
  import opened TsqlSchema

  type Row = seq<Value>

  // ---------------------------------------------------------------------
  // The database

  /** What the engine uses of a `tsdb.Database`: its schema and, for each
      relation, its rows with the values already cast. */
  datatype Database = Database(schema: Schema, records: map<string, seq<Row>>)

  /** Every relation of the schema appears once and has rows of its width. */
  ghost predicate ValidDb(db: Database) {
    DistinctKeys(db.schema) &&
    forall i :: 0 <= i < |db.schema| ==>
      db.schema[i].0 in db.records &&
      forall row :: row in db.records[db.schema[i].0] ==> |row| == |db.schema[i].1|
  }

  /** `tsdb.make_field_index(fields)`: each name to its position; a name
      that occurs twice maps to its last position. */
  function FieldIndexOf(fields: seq<Field>): (r: map<string, nat>)
    ensures forall k :: k in r ==> r[k] < |fields| && fields[r[k]].name == k
    ensures forall j :: 0 <= j < |fields| ==> fields[j].name in r && r[fields[j].name] >= j
  {
    if fields == [] then map[]
    else
      var n := |fields| - 1;
      FieldIndexOf(fields[..n])[fields[n].name := n]
  }

  /** The first of `names` that `index` lacks. */
  function FirstMissing<V>(names: seq<string>, index: map<string, V>): (r: Option<string>)
    ensures r.None? <==> forall k :: 0 <= k < |names| ==> names[k] in index
    ensures r.Some? ==> exists k :: 0 <= k < |names| && names[k] == r.value && r.value !in index &&
                                   forall j :: 0 <= j < k ==> names[j] in index
  {
    if names == [] then None
    else if names[0] !in index then Some(names[0])
    else
      var r := FirstMissing(names[1..], index);
      assert forall k :: 1 <= k < |names| ==> names[k] == names[1..][k - 1];
      assert r.Some? ==> exists k :: 0 <= k < |names| && names[k] == r.value && r.value !in index &&
                                     forall j :: 0 <= j < k ==> names[j] in index by {
        if r.Some? {
          var k :| 0 <= k < |names[1..]| && names[1..][k] == r.value && r.value !in index &&
                   forall j :: 0 <= j < k ==> names[1..][j] in index;
          assert names[k + 1] == r.value;
        }
      }
      r
  }

  /** `db.select_from(name, columns)`: the named columns of every row of
      the relation, in row order. */
  function SelectFrom(db: Database, name: string, columns: seq<string>): (r: seq<Row>)
    requires ValidDb(db) && Get(db.schema, name).Some?
    requires forall k :: 0 <= k < |columns| ==> columns[k] in FieldIndexOf(Get(db.schema, name).value)
    ensures |r| == |db.records[name]|
    ensures forall i :: 0 <= i < |r| ==> |r[i]| == |columns|
  {
    var fields := Get(db.schema, name).value;
    var fi := FieldIndexOf(fields);
    var i :| 0 <= i < |db.schema| && db.schema[i] == (name, fields);
    var rows := db.records[name];
    seq(|rows|, n requires 0 <= n < |rows| => seq(|columns|, k requires 0 <= k < |columns| => rows[n][fi[columns[k]]]))
  }

  // ---------------------------------------------------------------------
  // The join as a nested loop

  /** The rows of the right relation whose key tuple is `key`, in order. */
  function Matches(rkeys: seq<Row>, rrows: seq<Row>, key: Row): (r: seq<Row>)
    requires |rkeys| == |rrows|
    ensures forall x :: x in r ==> x in rrows
  {
    if rkeys == [] then []
    else
      var n := |rkeys| - 1;
      Matches(rkeys[..n], rrows[..n], key) + (if rkeys[n] == key then [rrows[n]] else [])
  }

  function Nulls(width: nat): (r: Row)
    ensures |r| == width && forall x :: x in r ==> x == Null
  {
    seq(width, _ => Null)
  }

  /** `lrow + rrow for rrow in group`, in order. */
  function Extend(lrow: Row, group: seq<Row>): (r: seq<Row>)
    ensures |r| == |group|
  {
    if group == [] then []
    else Extend(lrow, group[..|group| - 1]) + [lrow + group[|group| - 1]]
  }

  /** The output for one left row: the row extended by each matching right
      row; for a left join, by a row of `None` when nothing matches. */
  function JoinRow(lrow: Row, lkey: Row, rkeys: seq<Row>, rrows: seq<Row>, left: bool, width: nat): seq<Row>
    requires |rkeys| == |rrows|
  {
    var m := Matches(rkeys, rrows, lkey);
    if m != [] then Extend(lrow, m)
    else if left then Extend(lrow, [Nulls(width)])
    else []
  }

  /** The join of the left rows with the right rows on equal key tuples,
      left row by left row, each left row against every right row in order. */
  function NestedJoin(lkeys: seq<Row>, lrows: seq<Row>, rkeys: seq<Row>, rrows: seq<Row>, left: bool, width: nat): seq<Row>
    requires |lkeys| == |lrows| && |rkeys| == |rrows|
  {
    if lkeys == [] then []
    else
      var n := |lkeys| - 1;
      NestedJoin(lkeys[..n], lrows[..n], rkeys, rrows, left, width) + JoinRow(lrows[n], lkeys[n], rkeys, rrows, left, width)
  }

  // ---------------------------------------------------------------------
  // The field index built by `_merge_fields`

  /** The first loop of `_merge_fields` over `fields[..n]`: a bare name
      keeps the index it already has, a qualified name takes the newest. */
  function MergedIndex(fi: map<string, nat>, rel: string, fields: seq<Field>, offset: nat): (r: map<string, nat>)
    ensures forall k :: k in fi ==> k in r
    ensures forall j :: 0 <= j < |fields| ==> fields[j].name in r && Qualify(rel, fields[j].name) in r
  {
    if fields == [] then fi
    else
      var n := |fields| - 1;
      var m := MergedIndex(fi, rel, fields[..n], offset);
      var f := fields[n];
      (if f.name in m then m else m[f.name := offset + n])[Qualify(rel, f.name) := offset + n]
  }

  /** The second loop of `_merge_fields`: the qualified name of each `on`
      column shares the index of its bare name. */
  function QualifiedOn(fi: map<string, nat>, rel: string, on: seq<string>): (r: map<string, nat>)
    requires forall k :: 0 <= k < |on| ==> on[k] in fi
    ensures forall k :: k in fi ==> k in r
    ensures forall k :: 0 <= k < |on| ==> Qualify(rel, on[k]) in r
  {
    if on == [] then fi
    else
      var n := |on| - 1;
      var m := QualifiedOn(fi, rel, on[..n]);
      m[Qualify(rel, on[n]) := m[on[n]]]
  }

  // ---------------------------------------------------------------------
  // The pieces of `_join`

  /** `[all_fields[field_index[col]] for col in columns]` */
  function Picked(all: seq<Field>, columns: seq<string>): (r: seq<Field>)
    requires forall k :: 0 <= k < |columns| ==> columns[k] in FieldIndexOf(all)
    ensures |r| == |columns| && forall k :: 0 <= k < |columns| ==> r[k].name == columns[k] && r[k] in all
  {
    var index := FieldIndexOf(all);
    seq(|columns|, k requires 0 <= k < |columns| => all[index[columns[k]]])
  }

  /** `[f.name for f in fields if f.is_key and f.name in index]`: the key
      columns the selection already has. */
  function OnNames(fields: seq<Field>, index: map<string, nat>): (r: seq<string>)
    ensures forall k :: 0 <= k < |r| ==> r[k] in index
    ensures forall j :: 0 <= j < |fields| && fields[j].isKey && fields[j].name in index ==> fields[j].name in r
  {
    if fields == [] then []
    else
      var n := |fields| - 1;
      OnNames(fields[..n], index) + (if fields[n].isKey && fields[n].name in index then [fields[n].name] else [])
  }

  /** Each shared key is the name of a key field. */
  lemma {:induction false} OnNamesKeys(fields: seq<Field>, index: map<string, nat>, k: nat)
    requires k < |OnNames(fields, index)|
    ensures exists j :: 0 <= j < |fields| && fields[j].name == OnNames(fields, index)[k] && fields[j].isKey
    decreases |fields|
  {
    var n := |fields| - 1;
    var pre := OnNames(fields[..n], index);
    if k < |pre| {
      OnNamesKeys(fields[..n], index, k);
      var j :| 0 <= j < n && fields[..n][j].name == pre[k] && fields[..n][j].isKey;
      assert fields[j] == fields[..n][j];
    } else {
      assert fields[n].name == OnNames(fields, index)[k] && fields[n].isKey;
    }
  }

  /** `[f for f in fields if f.name not in on]` */
  function Kept(fields: seq<Field>, on: seq<string>): (r: seq<Field>)
    ensures forall f :: f in r <==> f in fields && f.name !in on
  {
    if fields == [] then []
    else
      var n := |fields| - 1;
      assert forall f :: f in fields <==> f in fields[..n] || f == fields[n] by {
        assert fields == fields[..n] + [fields[n]];
      }
      Kept(fields[..n], on) + (if fields[n].name !in on then [fields[n]] else [])
  }

  function Names(fields: seq<Field>): (r: seq<string>)
    ensures |r| == |fields| && forall k :: 0 <= k < |fields| ==> r[k] == fields[k].name
  {
    seq(|fields|, k requires 0 <= k < |fields| => fields[k].name)
  }

  /** The relation is in the schema and has every one of `columns`. */
  predicate InRelation(db: Database, name: string, columns: seq<string>) {
    Get(db.schema, name).Some? && forall k :: 0 <= k < |columns| ==> columns[k] in FieldIndexOf(Get(db.schema, name).value)
  }

  /** The key columns of a later join are columns of the joined relation. */
  lemma OnInRelation(db: Database, name: string, columns: seq<string>, index: map<string, nat>)
    requires InRelation(db, name, columns)
    ensures InRelation(db, name, OnNames(Picked(Get(db.schema, name).value, columns), index))
  {
    var picked := Picked(Get(db.schema, name).value, columns);
    var on := OnNames(picked, index);
    forall k | 0 <= k < |on| ensures on[k] in FieldIndexOf(Get(db.schema, name).value) {
      OnNamesKeys(picked, index, k);
      var j :| 0 <= j < |picked| && picked[j].name == on[k] && picked[j].isKey;
      assert on[k] == columns[j];
    }
  }

  /** The other columns of a later join are columns of the joined relation. */
  lemma KeptInRelation(db: Database, name: string, columns: seq<string>, on: seq<string>)
    requires InRelation(db, name, columns)
    ensures InRelation(db, name, Names(Kept(Picked(Get(db.schema, name).value, columns), on)))
  {
    var picked := Picked(Get(db.schema, name).value, columns);
    var kept := Kept(picked, on);
    forall k | 0 <= k < |kept| ensures kept[k].name in FieldIndexOf(Get(db.schema, name).value) {
      assert kept[k] in picked;
      var j :| 0 <= j < |picked| && picked[j] == kept[k];
      assert kept[k].name == columns[j];
    }
  }

  /** The first loop of `_join`'s second branch: the right rows grouped by
      their key tuple, as `right.setdefault(keys, []).append(row)` does. */
  method GroupByKey(rkeys: seq<Row>, rrows: seq<Row>) returns (right: map<Row, seq<Row>>)
    requires |rkeys| == |rrows|
    ensures forall k :: k in right <==> Matches(rkeys, rrows, k) != []
    ensures forall k :: k in right ==> right[k] == Matches(rkeys, rrows, k)
  {
    right := map[];
    for i := 0 to |rkeys|
      invariant forall k :: k in right <==> Matches(rkeys[..i], rrows[..i], k) != []
      invariant forall k :: k in right ==> right[k] == Matches(rkeys[..i], rrows[..i], k)
    {
      assert rkeys[..i + 1][..i] == rkeys[..i] && rrows[..i + 1][..i] == rrows[..i];
      assert rkeys[..i + 1][i] == rkeys[i] && rrows[..i + 1][i] == rrows[i];
      var group := if rkeys[i] in right then right[rkeys[i]] else [];
      right := right[rkeys[i] := group + [rrows[i]]];
    }
    assert rkeys[..|rkeys|] == rkeys && rrows[..|rrows|] == rrows;
  }

  /** The second loop of `_join`'s second branch: each left row extended by
      every right row in its key's group, or, for a left join, by `rfill`
      when the group is missing. */
  method ProbeLeft(lkeys: seq<Row>, lrows: seq<Row>, right: map<Row, seq<Row>>, rkeys: seq<Row>, rrows: seq<Row>,
                   left: bool, width: nat) returns (out: seq<Row>)
    requires |lkeys| == |lrows| && |rkeys| == |rrows|
    requires forall k :: k in right <==> Matches(rkeys, rrows, k) != []
    requires forall k :: k in right ==> right[k] == Matches(rkeys, rrows, k)
    ensures out == NestedJoin(lkeys, lrows, rkeys, rrows, left, width)
  {
    var rfill := Nulls(width);
    out := [];
    for i := 0 to |lkeys|
      invariant out == NestedJoin(lkeys[..i], lrows[..i], rkeys, rrows, left, width)
    {
      NestedJoinSnoc(lkeys, lrows, rkeys, rrows, left, width, i);
      ProbeRow(lrows[i], lkeys[i], right, rkeys, rrows, left, width);
      var keys := lkeys[i];
      if left || keys in right {
        var group := if keys in right then right[keys] else [rfill];
        out := out + Extend(lrows[i], group);
      }
    }
    assert lkeys[..|lkeys|] == lkeys && lrows[..|lrows|] == lrows;
  }

  /** Joining one more left row appends what that row contributes. */
  lemma NestedJoinSnoc(lkeys: seq<Row>, lrows: seq<Row>, rkeys: seq<Row>, rrows: seq<Row>, left: bool, width: nat, i: nat)
    requires |lkeys| == |lrows| && |rkeys| == |rrows| && i < |lkeys|
    ensures NestedJoin(lkeys[..i + 1], lrows[..i + 1], rkeys, rrows, left, width) ==
      NestedJoin(lkeys[..i], lrows[..i], rkeys, rrows, left, width) + JoinRow(lrows[i], lkeys[i], rkeys, rrows, left, width)
  {
    assert lkeys[..i + 1][..i] == lkeys[..i] && lrows[..i + 1][..i] == lrows[..i];
    assert lkeys[..i + 1][i] == lkeys[i] && lrows[..i + 1][i] == lrows[i];
  }

  /** Looking a left row's key up in the grouped right rows gives what the
      row contributes to the join. */
  lemma ProbeRow(lrow: Row, key: Row, right: map<Row, seq<Row>>, rkeys: seq<Row>, rrows: seq<Row>, left: bool, width: nat)
    requires |rkeys| == |rrows|
    requires forall k :: k in right <==> Matches(rkeys, rrows, k) != []
    requires forall k :: k in right ==> right[k] == Matches(rkeys, rrows, k)
    ensures JoinRow(lrow, key, rkeys, rrows, left, width) ==
      if key in right then Extend(lrow, right[key])
      else if left then Extend(lrow, [Nulls(width)])
      else []
  {
  }

  /** Both loops of `_join`'s second branch: group the right rows by key,
      then extend each left row by its group. */
  method HashJoin(lkeys: seq<Row>, lrows: seq<Row>, rkeys: seq<Row>, rrows: seq<Row>, left: bool, width: nat)
    returns (out: seq<Row>)
    requires |lkeys| == |lrows| && |rkeys| == |rrows|
    ensures out == NestedJoin(lkeys, lrows, rkeys, rrows, left, width)
  {
    var right := GroupByKey(rkeys, rrows);
    out := ProbeLeft(lkeys, lrows, right, rkeys, rrows, left, width);
  }

  // ---------------------------------------------------------------------
  // The selection's state and what reads it

  /** The state of a `Selection`: the fields joined so far, the index from
      bare and qualified names to positions, the rows, the projection applied
      when iterating, and the names of the joined relations. */
  datatype SelState = SelState(fields: seq<Field>, fieldIndex: map<string, nat>, data: seq<Row>,
                               projection: Option<seq<string>>, joined: set<string>)

  /** Every index points at a field, every row has one value per field,
      and nothing is indexed before the first join. */
  ghost predicate ValidState(s: SelState) {
    (forall k :: k in s.fieldIndex ==> s.fieldIndex[k] < |s.fields|) &&
    (forall row :: row in s.data ==> |row| == |s.fields|) &&
    (s.joined == {} ==> s.fields == [] && s.fieldIndex == map[])
  }

  /** Each row restricted to `indices`. Python looks the indices up among
      the fields first, then in each row. */
  function Project(rows: seq<Row>, indices: seq<nat>, width: nat): (r: Result<seq<Row>, Error>)
    ensures r.Failure? ==> r.error == IndexError
    ensures r.Success? ==> |r.value| == |rows| && forall i :: 0 <= i < |rows| ==> |r.value[i]| == |indices|
    ensures r.Success? <==> (forall k :: 0 <= k < |indices| ==> indices[k] < width) &&
                            forall i, k :: 0 <= i < |rows| && 0 <= k < |indices| ==> indices[k] < |rows[i]|
  {
    if (forall k :: 0 <= k < |indices| ==> indices[k] < width) &&
       forall i, k :: 0 <= i < |rows| && 0 <= k < |indices| ==> indices[k] < |rows[i]|
    then Success(seq(|rows|, i requires 0 <= i < |rows| => seq(|indices|, k requires 0 <= k < |indices| => rows[i][indices[k]])))
    else Failure(IndexError)
  }

  /** `Selection.select(*names)`: every row restricted to the named
      columns, in the order named; all columns when no name is given. An
      unknown name raises KeyError before any row is produced. */
  function SelectRows(s: SelState, names: seq<string>): (r: Result<seq<Row>, Error>)
    ensures r.Failure? ==> (names != [] && r.error.KeyError? && FirstMissing(names, s.fieldIndex) == Some(r.error.key)) ||
                           r.error == IndexError
    ensures r.Success? ==> |r.value| == |s.data|
    ensures r.Success? ==> forall i :: 0 <= i < |s.data| ==> |r.value[i]| == (if names == [] then |s.fields| else |names|)
  {
    if names == [] then Project(s.data, seq(|s.fields|, k => k), |s.fields|)
    else match FirstMissing(names, s.fieldIndex)
      case Some(n) => Failure(KeyError(n))
      case None => Project(s.data, seq(|names|, k requires 0 <= k < |names| => s.fieldIndex[names[k]]), |s.fields|)
  }

  /** `iter(selection)`: the rows under the projection, if one is set. */
  function IterRows(s: SelState): (r: Result<seq<Row>, Error>)
    ensures r.Success? ==> |r.value| == |s.data|
  {
    match s.projection
    case None => SelectRows(s, [])
    case Some(p) => SelectRows(s, p)
  }

  /** Without a projection, iterating a valid selection gives its rows. */
  lemma IterAll(s: SelState)
    requires ValidState(s) && s.projection.None?
    ensures IterRows(s) == Success(s.data)
  {
    var all := seq(|s.fields|, k => k);
    forall i, k | 0 <= i < |s.data| && 0 <= k < |all| ensures all[k] < |s.data[i]| {
      assert s.data[i] in s.data;
    }
    var r := Project(s.data, all, |s.fields|);
    assert r.Success?;
    forall i | 0 <= i < |s.data| ensures r.value[i] == s.data[i] {
      assert s.data[i] in s.data;
      assert forall k :: 0 <= k < |s.data[i]| ==> r.value[i][k] == s.data[i][k];
    }
    assert r.value == s.data;
  }

  /** Selecting columns that are all indexed from a valid selection never
      fails: one value per named column for every row. */
  lemma SelectIndexed(s: SelState, names: seq<string>)
    requires ValidState(s) && forall k :: 0 <= k < |names| ==> names[k] in s.fieldIndex
    ensures SelectRows(s, names).Success?
  {
    if names != [] {
      var indices := seq(|names|, k requires 0 <= k < |names| => s.fieldIndex[names[k]]);
      forall i, k | 0 <= i < |s.data| && 0 <= k < |indices| ensures indices[k] < |s.data[i]| {
        assert s.data[i] in s.data;
      }
    } else {
      var all := seq(|s.fields|, k => k);
      forall i, k | 0 <= i < |s.data| && 0 <= k < |all| ensures all[k] < |s.data[i]| {
        assert s.data[i] in s.data;
      }
    }
  }

  /** What `zip(selection.select(*on), selection)` draws from the
      selection: nothing when there are no rows, since `zip` stops at its
      first exhausted iterator, and the iterated rows otherwise. */
  function ZippedRows(s: SelState): (r: Result<seq<Row>, Error>)
    ensures r.Success? ==> |r.value| == |s.data|
  {
    if s.data == [] then Success([]) else IterRows(s)
  }

  /** The state after `_merge_fields(selection, name, on, fields)` with
      `data` as the new rows. */
  function Merged(s: SelState, name: string, on: seq<string>, fields: seq<Field>, data: seq<Row>): SelState
    requires forall k :: 0 <= k < |on| ==> on[k] in s.fieldIndex
  {
    SelState(s.fields + fields, QualifiedOn(MergedIndex(s.fieldIndex, name, fields, |s.fields|), name, on),
             data, s.projection, s.joined + {name})
  }

  /** The first join of a selection: the named columns of the relation,
      as they are. */
  function FirstJoin(s: SelState, db: Database, name: string, columns: seq<string>): SelState
    requires ValidDb(db) && InRelation(db, name, columns)
  {
    Merged(s, name, [], Picked(Get(db.schema, name).value, columns), SelectFrom(db, name, columns))
  }

  /** The rows of a later join: each left row, in order, extended by the
      matching rows of the joined relation. */
  function JoinedRows(s: SelState, db: Database, name: string, on: seq<string>, kept: seq<Field>, how: string)
    : Result<seq<Row>, Error>
    requires ValidDb(db) && InRelation(db, name, on) && InRelation(db, name, Names(kept))
  {
    var lkeys :- SelectRows(s, on);
    var lrows :- ZippedRows(s);
    Success(NestedJoin(lkeys, lrows, SelectFrom(db, name, on), SelectFrom(db, name, Names(kept)), how == "left", |kept|))
  }

  /** A later join: an inner or left join on the key columns the selection
      already has, written as a nested loop; the joined relation's key
      columns are not repeated. */
  function LaterJoin(s: SelState, db: Database, name: string, columns: seq<string>, how: string): Result<SelState, Error>
    requires ValidDb(db) && InRelation(db, name, columns)
  {
    var picked := Picked(Get(db.schema, name).value, columns);
    var on := OnNames(picked, s.fieldIndex);
    var kept := Kept(picked, on);
    OnInRelation(db, name, columns, s.fieldIndex);
    KeptInRelation(db, name, columns, on);
    if on == [] then Failure(NoSharedKeys)
    else
      var data :- JoinedRows(s, db, name, on, kept, how);
      Success(Merged(s, name, on, kept, data))
  }

  /** `_join(selection, db, name, columns, how)` on the selection's state:
      the checks come first, in the source's order, and nothing changes
      unless all pass. */
  function JoinSpec(s: SelState, db: Database, name: string, columns: seq<string>, how: string): Result<SelState, Error>
    requires ValidDb(db)
  {
    if how != "inner" && how != "left" then Failure(InvalidJoinMethod)
    else if name in s.joined then Failure(DuplicateJoin)
    else if Get(db.schema, name).None? then Failure(KeyError(name))
    else match FirstMissing(columns, FieldIndexOf(Get(db.schema, name).value))
      case Some(c) => Failure(KeyError(c))
      case None =>
        if s.joined == {} then Success(FirstJoin(s, db, name, columns))
        else LaterJoin(s, db, name, columns, how)
  }

  // ---------------------------------------------------------------------
  // The selection object

  /** `Selection`, whose fields `_join` and `_merge_fields` update in
      place. The record class is not modelled: rows are value sequences. */
  class Selection {
    var fields: seq<Field>
    var fieldIndex: map<string, nat>
    var data: seq<Row>
    var projection: Option<seq<string>>
    var joined: set<string>

    function State(): SelState
      reads this
    {
      SelState(fields, fieldIndex, data, projection, joined)
    }

    ghost predicate Valid()
      reads this
    {
      ValidState(State())
    }

    constructor()
      ensures Valid()
      ensures State() == SelState([], map[], [], None, {})
    {
      fields, fieldIndex, data, projection, joined := [], map[], [], None, {};
    }

    /** `_merge_fields(selection, relationname, on, fields)`. */
    method MergeFields(rel: string, on: seq<string>, newFields: seq<Field>)
      requires forall k :: 0 <= k < |on| ==> on[k] in fieldIndex
      modifies this
      ensures State() == Merged(old(State()), rel, on, newFields, old(data))
    {
      var offset := |fields|;
      for i := 0 to |newFields|
        invariant fields == old(fields) + newFields[..i]
        invariant fieldIndex == MergedIndex(old(fieldIndex), rel, newFields[..i], offset)
        invariant data == old(data) && projection == old(projection) && joined == old(joined)
      {
        assert newFields[..i + 1][..i] == newFields[..i] && newFields[..i + 1][i] == newFields[i];
        var field := newFields[i];
        fields := fields + [field];
        if field.name !in fieldIndex {
          fieldIndex := fieldIndex[field.name := offset + i];
        }
        fieldIndex := fieldIndex[Qualify(rel, field.name) := offset + i];
      }
      assert newFields[..|newFields|] == newFields;
      ghost var merged := fieldIndex;
      for j := 0 to |on|
        invariant fieldIndex == QualifiedOn(merged, rel, on[..j])
        invariant fields == old(fields) + newFields
        invariant data == old(data) && projection == old(projection) && joined == old(joined)
      {
        assert on[..j + 1][..j] == on[..j] && on[..j + 1][j] == on[j];
        fieldIndex := fieldIndex[Qualify(rel, on[j]) := fieldIndex[on[j]]];
      }
      assert on[..|on|] == on;
      joined := joined + {rel};
      assert fieldIndex == QualifiedOn(MergedIndex(old(fieldIndex), rel, newFields, offset), rel, on);
    }

    /** The rows of the second branch of `_join`: the left rows and their
        keys drawn from the selection, hash-joined with the relation's. */
    method HashJoinRows(db: Database, name: string, on: seq<string>, kept: seq<Field>, how: string)
      returns (r: Result<seq<Row>, Error>)
      requires ValidDb(db) && InRelation(db, name, on) && InRelation(db, name, Names(kept))
      ensures r == JoinedRows(State(), db, name, on, kept, how)
    {
      var lkeys := SelectRows(State(), on);
      if lkeys.Failure? {
        return Failure(lkeys.error);
      }
      var lrows := ZippedRows(State());
      if lrows.Failure? {
        return Failure(lrows.error);
      }
      var out := HashJoin(lkeys.value, lrows.value, SelectFrom(db, name, on), SelectFrom(db, name, Names(kept)),
                          how == "left", |kept|);
      r := Success(out);
    }

    /** The second branch of `_join`: a hash join on the shared keys. */
    method JoinLater(db: Database, name: string, columns: seq<string>, how: string) returns (r: Result<(), Error>)
      requires ValidDb(db) && InRelation(db, name, columns)
      modifies this
      ensures r.Failure? ==> unchanged(this) && LaterJoin(old(State()), db, name, columns, how) == Failure(r.error)
      ensures r.Success? ==> LaterJoin(old(State()), db, name, columns, how) == Success(State())
    {
      ghost var s := State();
      var picked := Picked(Get(db.schema, name).value, columns);
      var on := OnNames(picked, fieldIndex);
      var kept := Kept(picked, on);
      OnInRelation(db, name, columns, fieldIndex);
      KeptInRelation(db, name, columns, on);
      if on == [] {
        return Failure(NoSharedKeys);
      }
      var rows := HashJoinRows(db, name, on, kept, how);
      if rows.Failure? {
        assert LaterJoin(s, db, name, columns, how) == Failure(rows.error);
        return Failure(rows.error);
      }
      assert LaterJoin(s, db, name, columns, how) == Success(Merged(s, name, on, kept, rows.value));
      MergeFields(name, on, kept);
      data := rows.value;
      r := Success(());
    }

    /** `_join(selection, db, name, columns, how)`. */
    method Join(db: Database, name: string, columns: seq<string>, how: string) returns (r: Result<(), Error>)
      requires ValidDb(db)
      modifies this
      ensures r.Failure? ==> unchanged(this) && JoinSpec(old(State()), db, name, columns, how) == Failure(r.error)
      ensures r.Success? ==> JoinSpec(old(State()), db, name, columns, how) == Success(State())
    {
      if how != "inner" && how != "left" {
        return Failure(InvalidJoinMethod);
      }
      if name in joined {
        return Failure(DuplicateJoin);
      }
      var found := Get(db.schema, name);
      if found.None? {
        return Failure(KeyError(name));
      }
      var missing := FirstMissing(columns, FieldIndexOf(found.value));
      if missing.Some? {
        return Failure(KeyError(missing.value));
      }
      if joined == {} {
        MergeFields(name, [], Picked(found.value, columns));
        data := SelectFrom(db, name, columns);
        r := Success(());
      } else {
        r := JoinLater(db, name, columns, how);
      }
    }
  }
}
