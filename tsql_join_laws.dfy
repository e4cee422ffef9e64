/** What a join does to a selection: which rows it produces, that a
    relation joins at most once, that rows keep one value per field, and
    how the field index treats bare and qualified names. */
module TsqlJoinLaws {
  import opened Wrappers
  import opened Dicts
  import opened TsqlSyntax
  import opened TsqlSchema
  import opened TsqlSelection

  // ---------------------------------------------------------------------
  // The rows of a join

  /** A right row matches a key exactly when its key tuple is that key. */
  lemma {:induction false} MatchesIn(rkeys: seq<Row>, rrows: seq<Row>, key: Row, x: Row)
    requires |rkeys| == |rrows|
    ensures x in Matches(rkeys, rrows, key) <==> exists j :: 0 <= j < |rkeys| && rkeys[j] == key && rrows[j] == x
    decreases |rkeys|
  {
    if rkeys != [] {
      var n := |rkeys| - 1;
      MatchesIn(rkeys[..n], rrows[..n], key, x);
      if x in Matches(rkeys[..n], rrows[..n], key) {
        var j :| 0 <= j < n && rkeys[..n][j] == key && rrows[..n][j] == x;
        assert rkeys[j] == key && rrows[j] == x;
      }
      if exists j :: 0 <= j < |rkeys| && rkeys[j] == key && rrows[j] == x {
        var j :| 0 <= j < |rkeys| && rkeys[j] == key && rrows[j] == x;
        if j < n {
          assert rkeys[..n][j] == key && rrows[..n][j] == x;
        }
      }
    }
  }

  /** Nothing matches a key that no right key tuple equals. */
  lemma {:induction false} MatchesNone(rkeys: seq<Row>, rrows: seq<Row>, key: Row)
    requires |rkeys| == |rrows|
    ensures Matches(rkeys, rrows, key) == [] <==> forall j :: 0 <= j < |rkeys| ==> rkeys[j] != key
    decreases |rkeys|
  {
    if rkeys != [] {
      var n := |rkeys| - 1;
      MatchesNone(rkeys[..n], rrows[..n], key);
      assert forall j :: 0 <= j < n ==> rkeys[..n][j] == rkeys[j];
    }
  }

  /** Extending a row by a group gives the row followed by each member. */
  lemma {:induction false} ExtendIn(lrow: Row, group: seq<Row>, x: Row)
    ensures x in Extend(lrow, group) <==> exists k :: 0 <= k < |group| && x == lrow + group[k]
    decreases |group|
  {
    if group != [] {
      var n := |group| - 1;
      ExtendIn(lrow, group[..n], x);
      if exists k :: 0 <= k < n && x == lrow + group[..n][k] {
        var k :| 0 <= k < n && x == lrow + group[..n][k];
        assert x == lrow + group[k];
      }
      if exists k :: 0 <= k < |group| && x == lrow + group[k] {
        var k :| 0 <= k < |group| && x == lrow + group[k];
        if k < n {
          assert x == lrow + group[..n][k];
        }
      }
    }
  }

  /** The rows one left row contributes. */
  lemma JoinRowIn(lrow: Row, lkey: Row, rkeys: seq<Row>, rrows: seq<Row>, left: bool, width: nat, x: Row)
    requires |rkeys| == |rrows|
    ensures x in JoinRow(lrow, lkey, rkeys, rrows, left, width) <==>
            (exists j :: 0 <= j < |rkeys| && rkeys[j] == lkey && x == lrow + rrows[j]) ||
            (left && (forall j :: 0 <= j < |rkeys| ==> rkeys[j] != lkey) && x == lrow + Nulls(width))
  {
    var m := Matches(rkeys, rrows, lkey);
    MatchesNone(rkeys, rrows, lkey);
    if m != [] {
      ExtendIn(lrow, m, x);
      if x in JoinRow(lrow, lkey, rkeys, rrows, left, width) {
        var k :| 0 <= k < |m| && x == lrow + m[k];
        MatchesIn(rkeys, rrows, lkey, m[k]);
        var j :| 0 <= j < |rkeys| && rkeys[j] == lkey && rrows[j] == m[k];
        assert x == lrow + rrows[j];
      }
      if exists j :: 0 <= j < |rkeys| && rkeys[j] == lkey && x == lrow + rrows[j] {
        var j :| 0 <= j < |rkeys| && rkeys[j] == lkey && x == lrow + rrows[j];
        MatchesIn(rkeys, rrows, lkey, rrows[j]);
        var k :| 0 <= k < |m| && m[k] == rrows[j];
        assert x == lrow + m[k];
      }
    } else if left {
      ExtendIn(lrow, [Nulls(width)], x);
      assert [Nulls(width)][0] == Nulls(width);
    }
  }

  /** `x` is among the rows the `i`-th left row contributes. */
  ghost predicate Contributes(x: Row, i: nat, lkeys: seq<Row>, lrows: seq<Row>, rkeys: seq<Row>, rrows: seq<Row>,
                              left: bool, width: nat)
    requires |rkeys| == |rrows|
  {
    i < |lkeys| && i < |lrows| && x in JoinRow(lrows[i], lkeys[i], rkeys, rrows, left, width)
  }

  /** Every row a left row contributes is in the join. */
  lemma {:induction false} NestedJoinHas(lkeys: seq<Row>, lrows: seq<Row>, rkeys: seq<Row>, rrows: seq<Row>,
                                         left: bool, width: nat, i: nat, x: Row)
    requires |lkeys| == |lrows| && |rkeys| == |rrows| && i < |lkeys|
    requires x in JoinRow(lrows[i], lkeys[i], rkeys, rrows, left, width)
    ensures x in NestedJoin(lkeys, lrows, rkeys, rrows, left, width)
    decreases |lkeys|
  {
    var n := |lkeys| - 1;
    if i == n {
      NestedJoinHasLast(lkeys, lrows, rkeys, rrows, left, width, x);
    } else {
      var lk, lr := lkeys[..n], lrows[..n];
      assert lr[i] == lrows[i] && lk[i] == lkeys[i];
      NestedJoinHas(lk, lr, rkeys, rrows, left, width, i, x);
      NestedJoinGrows(lkeys, lrows, rkeys, rrows, left, width, x);
    }
  }

  /** The rows of all left rows but the last stay in the join. */
  lemma NestedJoinGrows(lkeys: seq<Row>, lrows: seq<Row>, rkeys: seq<Row>, rrows: seq<Row>,
                        left: bool, width: nat, x: Row)
    requires |lkeys| == |lrows| && |rkeys| == |rrows| && lkeys != []
    requires x in NestedJoin(lkeys[..|lkeys| - 1], lrows[..|lkeys| - 1], rkeys, rrows, left, width)
    ensures x in NestedJoin(lkeys, lrows, rkeys, rrows, left, width)
  {
  }

  /** The rows of the last left row are in the join. */
  lemma NestedJoinHasLast(lkeys: seq<Row>, lrows: seq<Row>, rkeys: seq<Row>, rrows: seq<Row>,
                          left: bool, width: nat, x: Row)
    requires |lkeys| == |lrows| && |rkeys| == |rrows| && lkeys != []
    requires x in JoinRow(lrows[|lkeys| - 1], lkeys[|lkeys| - 1], rkeys, rrows, left, width)
    ensures x in NestedJoin(lkeys, lrows, rkeys, rrows, left, width)
  {
  }

  /** Every row of the join is contributed by some left row. */
  lemma {:induction false} NestedJoinSource(lkeys: seq<Row>, lrows: seq<Row>, rkeys: seq<Row>, rrows: seq<Row>,
                                            left: bool, width: nat, x: Row)
    requires |lkeys| == |lrows| && |rkeys| == |rrows|
    requires x in NestedJoin(lkeys, lrows, rkeys, rrows, left, width)
    ensures exists i: nat :: Contributes(x, i, lkeys, lrows, rkeys, rrows, left, width)
    decreases |lkeys|
  {
    var n := |lkeys| - 1;
    var pre := NestedJoin(lkeys[..n], lrows[..n], rkeys, rrows, left, width);
    var last := JoinRow(lrows[n], lkeys[n], rkeys, rrows, left, width);
    assert NestedJoin(lkeys, lrows, rkeys, rrows, left, width) == pre + last;
    if x in pre {
      NestedJoinSource(lkeys[..n], lrows[..n], rkeys, rrows, left, width, x);
      var i: nat :| Contributes(x, i, lkeys[..n], lrows[..n], rkeys, rrows, left, width);
      assert lrows[..n][i] == lrows[i] && lkeys[..n][i] == lkeys[i];
      assert Contributes(x, i, lkeys, lrows, rkeys, rrows, left, width);
    } else {
      assert Contributes(x, n, lkeys, lrows, rkeys, rrows, left, width);
    }
  }

  /** An inner join holds exactly the left rows extended by the right rows
      with the same key tuple. */
  lemma InnerJoinIn(lkeys: seq<Row>, lrows: seq<Row>, rkeys: seq<Row>, rrows: seq<Row>, width: nat, x: Row)
    requires |lkeys| == |lrows| && |rkeys| == |rrows|
    ensures x in NestedJoin(lkeys, lrows, rkeys, rrows, false, width) <==>
            exists i, j :: 0 <= i < |lkeys| && 0 <= j < |rkeys| && lkeys[i] == rkeys[j] && x == lrows[i] + rrows[j]
  {
    if x in NestedJoin(lkeys, lrows, rkeys, rrows, false, width) {
      NestedJoinSource(lkeys, lrows, rkeys, rrows, false, width, x);
      var i: nat :| Contributes(x, i, lkeys, lrows, rkeys, rrows, false, width);
      JoinRowIn(lrows[i], lkeys[i], rkeys, rrows, false, width, x);
    }
    if exists i, j :: 0 <= i < |lkeys| && 0 <= j < |rkeys| && lkeys[i] == rkeys[j] && x == lrows[i] + rrows[j] {
      var i, j :| 0 <= i < |lkeys| && 0 <= j < |rkeys| && lkeys[i] == rkeys[j] && x == lrows[i] + rrows[j];
      JoinRowIn(lrows[i], lkeys[i], rkeys, rrows, false, width, x);
      NestedJoinHas(lkeys, lrows, rkeys, rrows, false, width, i, x);
    }
  }

  /** A left join holds, besides the matched rows, every left row that
      matches nothing, padded with `None`. */
  lemma LeftJoinIn(lkeys: seq<Row>, lrows: seq<Row>, rkeys: seq<Row>, rrows: seq<Row>, width: nat, x: Row)
    requires |lkeys| == |lrows| && |rkeys| == |rrows|
    ensures x in NestedJoin(lkeys, lrows, rkeys, rrows, true, width) <==>
            (exists i, j :: 0 <= i < |lkeys| && 0 <= j < |rkeys| && lkeys[i] == rkeys[j] && x == lrows[i] + rrows[j]) ||
            (exists i :: 0 <= i < |lkeys| && (forall j :: 0 <= j < |rkeys| ==> rkeys[j] != lkeys[i]) &&
                         x == lrows[i] + Nulls(width))
  {
    if x in NestedJoin(lkeys, lrows, rkeys, rrows, true, width) {
      NestedJoinSource(lkeys, lrows, rkeys, rrows, true, width, x);
      var i: nat :| Contributes(x, i, lkeys, lrows, rkeys, rrows, true, width);
      JoinRowIn(lrows[i], lkeys[i], rkeys, rrows, true, width, x);
    }
    if exists i, j :: 0 <= i < |lkeys| && 0 <= j < |rkeys| && lkeys[i] == rkeys[j] && x == lrows[i] + rrows[j] {
      var i, j :| 0 <= i < |lkeys| && 0 <= j < |rkeys| && lkeys[i] == rkeys[j] && x == lrows[i] + rrows[j];
      JoinRowIn(lrows[i], lkeys[i], rkeys, rrows, true, width, x);
      NestedJoinHas(lkeys, lrows, rkeys, rrows, true, width, i, x);
    }
    if exists i :: 0 <= i < |lkeys| && (forall j :: 0 <= j < |rkeys| ==> rkeys[j] != lkeys[i]) &&
                   x == lrows[i] + Nulls(width) {
      var i :| 0 <= i < |lkeys| && (forall j :: 0 <= j < |rkeys| ==> rkeys[j] != lkeys[i]) &&
               x == lrows[i] + Nulls(width);
      JoinRowIn(lrows[i], lkeys[i], rkeys, rrows, true, width, x);
      NestedJoinHas(lkeys, lrows, rkeys, rrows, true, width, i, x);
    }
  }

  /** A left join loses no left row: each contributes at least one row. */
  lemma {:induction false} LeftJoinKeepsRows(lkeys: seq<Row>, lrows: seq<Row>, rkeys: seq<Row>, rrows: seq<Row>, width: nat)
    requires |lkeys| == |lrows| && |rkeys| == |rrows|
    ensures |NestedJoin(lkeys, lrows, rkeys, rrows, true, width)| >= |lrows|
    decreases |lkeys|
  {
    if lkeys != [] {
      var n := |lkeys| - 1;
      var pre := NestedJoin(lkeys[..n], lrows[..n], rkeys, rrows, true, width);
      var last := JoinRow(lrows[n], lkeys[n], rkeys, rrows, true, width);
      assert NestedJoin(lkeys, lrows, rkeys, rrows, true, width) == pre + last;
      LeftJoinKeepsRows(lkeys[..n], lrows[..n], rkeys, rrows, width);
      assert |pre| >= n;
      LeftJoinRowNonEmpty(lrows[n], lkeys[n], rkeys, rrows, width);
    }
  }

  /** Each left row contributes at least one row to a left join. */
  lemma LeftJoinRowNonEmpty(lrow: Row, lkey: Row, rkeys: seq<Row>, rrows: seq<Row>, width: nat)
    requires |rkeys| == |rrows|
    ensures |JoinRow(lrow, lkey, rkeys, rrows, true, width)| >= 1
  {
    var m := Matches(rkeys, rrows, lkey);
    if m != [] {
      assert |Extend(lrow, m)| == |m|;
    } else {
      assert |Extend(lrow, [Nulls(width)])| == 1;
    }
  }

  /** Extending rows of width `a` by rows of width `width` gives rows of
      width `a + width`. */
  lemma {:induction false} ExtendWidth(lrow: Row, group: seq<Row>, width: nat)
    requires forall k :: 0 <= k < |group| ==> |group[k]| == width
    ensures forall x :: x in Extend(lrow, group) ==> |x| == |lrow| + width
    decreases |group|
  {
    if group != [] {
      ExtendWidth(lrow, group[..|group| - 1], width);
    }
  }

  /** Every joined row is as wide as a left row and a right row together. */
  lemma {:induction false} NestedJoinWidth(lkeys: seq<Row>, lrows: seq<Row>, rkeys: seq<Row>, rrows: seq<Row>,
                                           left: bool, a: nat, width: nat)
    requires |lkeys| == |lrows| && |rkeys| == |rrows|
    requires forall i :: 0 <= i < |lrows| ==> |lrows[i]| == a
    requires forall j :: 0 <= j < |rrows| ==> |rrows[j]| == width
    ensures forall x :: x in NestedJoin(lkeys, lrows, rkeys, rrows, left, width) ==> |x| == a + width
    decreases |lkeys|
  {
    if lkeys != [] {
      var n := |lkeys| - 1;
      NestedJoinWidth(lkeys[..n], lrows[..n], rkeys, rrows, left, a, width);
      var m := Matches(rkeys, rrows, lkeys[n]);
      forall k | 0 <= k < |m| ensures |m[k]| == width {
        assert m[k] in m;
      }
      ExtendWidth(lrows[n], m, width);
      ExtendWidth(lrows[n], [Nulls(width)], width);
    }
  }

  // ---------------------------------------------------------------------
  // The field index

  lemma QualifiedHasDot(rel: string, col: string)
    ensures '.' in Qualify(rel, col)
  {
    assert Qualify(rel, col)[|rel|] == '.';
  }

  /** Every index the first loop of `_merge_fields` writes is below the
      new number of fields. */
  lemma {:induction false} MergedIndexBound(fi: map<string, nat>, rel: string, fields: seq<Field>, offset: nat)
    requires forall k :: k in fi ==> fi[k] < offset
    ensures forall k :: k in MergedIndex(fi, rel, fields, offset) ==> MergedIndex(fi, rel, fields, offset)[k] < offset + |fields|
    decreases |fields|
  {
    if fields != [] {
      MergedIndexBound(fi, rel, fields[..|fields| - 1], offset);
    }
  }

  /** The second loop only copies indices that are already there. */
  lemma {:induction false} QualifiedOnBound(fi: map<string, nat>, rel: string, on: seq<string>, bound: nat)
    requires forall k :: 0 <= k < |on| ==> on[k] in fi
    requires forall k :: k in fi ==> fi[k] < bound
    ensures forall k :: k in QualifiedOn(fi, rel, on) ==> QualifiedOn(fi, rel, on)[k] < bound
    decreases |on|
  {
    if on != [] {
      QualifiedOnBound(fi, rel, on[..|on| - 1], bound);
    }
  }

  /** A bare name (one without a dot) keeps the index it had: the
      selection's columns are found where the first relation put them. */
  lemma {:induction false} MergedIndexKeepsBare(fi: map<string, nat>, rel: string, fields: seq<Field>, offset: nat, k: string)
    requires k in fi && '.' !in k
    ensures MergedIndex(fi, rel, fields, offset)[k] == fi[k]
    decreases |fields|
  {
    if fields != [] {
      var n := |fields| - 1;
      MergedIndexKeepsBare(fi, rel, fields[..n], offset, k);
      QualifiedHasDot(rel, fields[n].name);
    }
  }

  /** A new bare name takes the position of its first occurrence among the
      merged fields. */
  lemma {:induction false} MergedIndexFirst(fi: map<string, nat>, rel: string, fields: seq<Field>, offset: nat, j: nat)
    requires j < |fields| && fields[j].name !in fi && '.' !in fields[j].name
    requires forall i :: 0 <= i < j ==> fields[i].name != fields[j].name
    ensures MergedIndex(fi, rel, fields, offset)[fields[j].name] == offset + j
    decreases |fields|
  {
    var n := |fields| - 1;
    var k := fields[j].name;
    var f := fields[n];
    var m := MergedIndex(fi, rel, fields[..n], offset);
    assert MergedIndex(fi, rel, fields, offset) ==
      (if f.name in m then m else m[f.name := offset + n])[Qualify(rel, f.name) := offset + n];
    QualifiedHasDot(rel, f.name);
    assert k != Qualify(rel, f.name);
    if j < n {
      assert fields[..n][j] == fields[j];
      MergedIndexFirst(fi, rel, fields[..n], offset, j);
      assert k in m && m[k] == offset + j;
    } else {
      assert forall i :: 0 <= i < n ==> fields[..n][i].name != k;
      MergedIndexAbsent(fi, rel, fields[..n], offset, k);
    }
  }

  /** A bare name that is neither in the index nor among the merged
      fields' names stays out of the merged index. */
  lemma {:induction false} MergedIndexAbsent(fi: map<string, nat>, rel: string, fields: seq<Field>, offset: nat, k: string)
    requires k !in fi && '.' !in k
    requires forall i :: 0 <= i < |fields| ==> fields[i].name != k
    ensures k !in MergedIndex(fi, rel, fields, offset)
    decreases |fields|
  {
    if fields != [] {
      var n := |fields| - 1;
      QualifiedHasDot(rel, fields[n].name);
      assert forall i :: 0 <= i < n ==> fields[..n][i].name != k;
      MergedIndexAbsent(fi, rel, fields[..n], offset, k);
    }
  }

  // ---------------------------------------------------------------------
  // Joins of a selection

  /** A relation joins at most once: after a successful join it is among
      the joined relations and joining it again is refused. */
  lemma JoinOnce(s: SelState, db: Database, name: string, columns: seq<string>, how: string,
                 columns': seq<string>, how': string)
    requires ValidDb(db) && JoinSpec(s, db, name, columns, how).Success?
    requires how' == "inner" || how' == "left"
    ensures JoinSpec(s, db, name, columns, how).value.joined == s.joined + {name}
    ensures JoinSpec(JoinSpec(s, db, name, columns, how).value, db, name, columns', how') == Failure(DuplicateJoin)
  {
  }

  /** A later join appends the joined relation's other columns. */
  lemma LaterJoinFields(s: SelState, db: Database, name: string, columns: seq<string>, how: string)
    requires ValidDb(db) && InRelation(db, name, columns) && LaterJoin(s, db, name, columns, how).Success?
    ensures var picked := Picked(Get(db.schema, name).value, columns);
            var t := LaterJoin(s, db, name, columns, how).value;
            t.fields == s.fields + Kept(picked, OnNames(picked, s.fieldIndex)) && t.projection == s.projection
  {
  }

  /** A join never touches the projection and appends to the fields. */
  lemma JoinFields(s: SelState, db: Database, name: string, columns: seq<string>, how: string)
    requires ValidDb(db) && JoinSpec(s, db, name, columns, how).Success?
    ensures var t := JoinSpec(s, db, name, columns, how).value;
            t.projection == s.projection && |t.fields| >= |s.fields| && t.fields[..|s.fields|] == s.fields
  {
    var t := JoinSpec(s, db, name, columns, how).value;
    var added: seq<Field>;
    if s.joined == {} {
      added := Picked(Get(db.schema, name).value, columns);
    } else {
      LaterJoinFields(s, db, name, columns, how);
      var picked := Picked(Get(db.schema, name).value, columns);
      added := Kept(picked, OnNames(picked, s.fieldIndex));
    }
    assert t.fields == s.fields + added;
    assert (s.fields + added)[..|s.fields|] == s.fields;
  }

  /** The first join of a valid selection leaves it valid. */
  lemma FirstJoinValid(s: SelState, db: Database, name: string, columns: seq<string>)
    requires ValidDb(db) && InRelation(db, name, columns) && ValidState(s) && s.joined == {}
    ensures ValidState(FirstJoin(s, db, name, columns))
  {
    var picked := Picked(Get(db.schema, name).value, columns);
    var t := FirstJoin(s, db, name, columns);
    MergedIndexBound(s.fieldIndex, name, picked, |s.fields|);
    assert t.fieldIndex == MergedIndex(s.fieldIndex, name, picked, |s.fields|);
    assert forall row :: row in t.data ==> |row| == |t.fields|;
  }

  /** A later join of a valid selection without a projection leaves it
      valid. */
  lemma LaterJoinValid(s: SelState, db: Database, name: string, columns: seq<string>, how: string)
    requires ValidDb(db) && InRelation(db, name, columns) && ValidState(s) && s.projection.None?
    requires LaterJoin(s, db, name, columns, how).Success?
    ensures ValidState(LaterJoin(s, db, name, columns, how).value)
  {
    var picked := Picked(Get(db.schema, name).value, columns);
    var on := OnNames(picked, s.fieldIndex);
    var kept := Kept(picked, on);
    OnInRelation(db, name, columns, s.fieldIndex);
    KeptInRelation(db, name, columns, on);
    var lkeys := SelectRows(s, on).value;
    IterAll(s);
    var lrows := ZippedRows(s).value;
    assert lrows == s.data;
    var rkeys := SelectFrom(db, name, on);
    var rrows := SelectFrom(db, name, Names(kept));
    forall i | 0 <= i < |lrows| ensures |lrows[i]| == |s.fields| {
      assert lrows[i] in s.data;
    }
    NestedJoinWidth(lkeys, lrows, rkeys, rrows, how == "left", |s.fields|, |kept|);
    var merged := MergedIndex(s.fieldIndex, name, kept, |s.fields|);
    MergedIndexBound(s.fieldIndex, name, kept, |s.fields|);
    QualifiedOnBound(merged, name, on, |s.fields| + |kept|);
    var t := LaterJoin(s, db, name, columns, how).value;
    assert t == SelState(s.fields + kept, QualifiedOn(merged, name, on),
                         NestedJoin(lkeys, lrows, rkeys, rrows, how == "left", |kept|), s.projection, s.joined + {name});
  }

  /** Joins keep a selection valid: indices stay within the fields and
      every row has one value per field. */
  lemma JoinValid(s: SelState, db: Database, name: string, columns: seq<string>, how: string)
    requires ValidDb(db) && ValidState(s) && s.projection.None?
    requires JoinSpec(s, db, name, columns, how).Success?
    ensures ValidState(JoinSpec(s, db, name, columns, how).value)
  {
    if s.joined == {} {
      FirstJoinValid(s, db, name, columns);
    } else {
      LaterJoinValid(s, db, name, columns, how);
    }
  }

  /** The first join indexes every requested column under its qualified
      name and keeps what was indexed. */
  lemma FirstJoinIndexes(s: SelState, db: Database, name: string, columns: seq<string>)
    requires ValidDb(db) && InRelation(db, name, columns)
    ensures forall k :: k in s.fieldIndex ==> k in FirstJoin(s, db, name, columns).fieldIndex
    ensures forall k :: 0 <= k < |columns| ==> Qualify(name, columns[k]) in FirstJoin(s, db, name, columns).fieldIndex
  {
    var picked := Picked(Get(db.schema, name).value, columns);
    assert FirstJoin(s, db, name, columns).fieldIndex == MergedIndex(s.fieldIndex, name, picked, |s.fields|);
  }

  /** Every picked column is indexed by qualified name once `_merge_fields`
      has merged the non-key columns and qualified the key columns. */
  lemma PickedIndexed(fi: map<string, nat>, name: string, picked: seq<Field>, on: seq<string>, offset: nat)
    requires forall k :: 0 <= k < |on| ==> on[k] in fi
    ensures forall k :: 0 <= k < |picked| ==>
      Qualify(name, picked[k].name) in QualifiedOn(MergedIndex(fi, name, Kept(picked, on), offset), name, on)
  {
    var kept := Kept(picked, on);
    var merged := MergedIndex(fi, name, kept, offset);
    forall k | 0 <= k < |picked|
      ensures Qualify(name, picked[k].name) in QualifiedOn(merged, name, on)
    {
      if picked[k].name in on {
        var m :| 0 <= m < |on| && on[m] == picked[k].name;
      } else {
        assert picked[k] in kept;
        var j :| 0 <= j < |kept| && kept[j] == picked[k];
        assert Qualify(name, kept[j].name) in merged;
      }
    }
  }

  /** So does a later join: a key column under the name `_merge_fields`
      adds for `on`, the others under the names its first loop adds. */
  lemma LaterJoinIndexes(s: SelState, db: Database, name: string, columns: seq<string>, how: string)
    requires ValidDb(db) && InRelation(db, name, columns) && LaterJoin(s, db, name, columns, how).Success?
    ensures forall k :: k in s.fieldIndex ==> k in LaterJoin(s, db, name, columns, how).value.fieldIndex
    ensures forall k :: 0 <= k < |columns| ==> Qualify(name, columns[k]) in LaterJoin(s, db, name, columns, how).value.fieldIndex
  {
    var picked := Picked(Get(db.schema, name).value, columns);
    var on := OnNames(picked, s.fieldIndex);
    PickedIndexed(s.fieldIndex, name, picked, on, |s.fields|);
    assert LaterJoin(s, db, name, columns, how).value.fieldIndex ==
           QualifiedOn(MergedIndex(s.fieldIndex, name, Kept(picked, on), |s.fields|), name, on);
  }

  /** After a join every requested column of the joined relation is
      indexed under its qualified name, and nothing indexed before is lost. */
  lemma JoinIndexes(s: SelState, db: Database, name: string, columns: seq<string>, how: string)
    requires ValidDb(db) && JoinSpec(s, db, name, columns, how).Success?
    ensures forall k :: k in s.fieldIndex ==> k in JoinSpec(s, db, name, columns, how).value.fieldIndex
    ensures forall k :: 0 <= k < |columns| ==> Qualify(name, columns[k]) in JoinSpec(s, db, name, columns, how).value.fieldIndex
  {
    if s.joined == {} {
      FirstJoinIndexes(s, db, name, columns);
    } else {
      LaterJoinIndexes(s, db, name, columns, how);
    }
  }
}
