/** The TSQL select pipeline of delphin/tsql.py: `_make_execution_plan`,
    which resolves the projection and the condition and plans the joins,
    and `_select`, which joins the planned relations into a fresh
    selection, filters its rows by the condition and sets the projection. */
module TsqlEngine {
  import opened Wrappers
  import opened PyStrings
  import opened Dicts
  import opened TsqlSyntax
  import opened TsqlSchema
  import opened TsqlParser
  import opened TsqlPlanner
  import opened TsqlCondition
  import opened TsqlSelection
  import opened TsqlJoinLaws

  // ---------------------------------------------------------------------
  // The execution plan

  /** The projection of the plan: every column of the named relations for
      `*`, each named column resolved otherwise. */
  function ResolvedProjection(projection: seq<string>, relations: seq<string>, schema: Schema): Result<seq<string>, Error> {
    if projection == ["*"] then ProjectAll(relations, schema)
    else ResolveAll(SchemaMap(schema, relations), projection)
  }

  /** The condition of the plan with its columns resolved, and the columns
      it uses; no condition uses no column. */
  function ResolvedCondition(condition: Option<Condition>, sm: ColumnMap): Result<(Option<Condition>, seq<string>), Error> {
    match condition
    case None => Success((None, []))
    case Some(c) =>
      var p :- ProcessFields(c, sm);
      Success((Some(p.0), p.1))
  }

  /** What `_make_execution_plan` returns. */
  datatype ExecutionPlan = ExecutionPlan(projection: seq<string>, joins: Plan, condition: Option<Condition>)

  /** A resolved name always has a relation before its last dot. */
  lemma ResolvedHasDot(sm: ColumnMap, colname: string)
    requires Resolve(sm, colname).Success?
    ensures '.' in Resolve(sm, colname).value
  {
    var (rel, col) := RPartition(colname, '.');
    if rel == [] {
      QualifiedHasDot(Get(sm, col).value[0], col);
    }
  }

  /** Every column of a resolved projection is qualified. */
  lemma ProjectionHasDots(projection: seq<string>, relations: seq<string>, schema: Schema)
    requires ResolvedProjection(projection, relations, schema).Success?
    ensures forall q :: q in ResolvedProjection(projection, relations, schema).value ==> '.' in q
  {
    var r := ResolvedProjection(projection, relations, schema).value;
    forall k | 0 <= k < |r| ensures '.' in r[k] {
      if projection == ["*"] {
        var pairs := ProjectPairs(relations, schema, {}).value;
        QualifiedHasDot(pairs[k].0, pairs[k].1.name);
      } else {
        ResolvedHasDot(SchemaMap(schema, relations), projection[k]);
      }
    }
  }

  /** Every column a resolved condition uses is qualified, and the columns
      returned with it are exactly those it compares. */
  lemma ConditionHasDots(condition: Option<Condition>, sm: ColumnMap)
    requires ResolvedCondition(condition, sm).Success?
    ensures var p := ResolvedCondition(condition, sm).value;
            (forall q :: q in p.1 ==> '.' in q) &&
            (p.0.Some? ==> forall q :: q in ColumnsOf(p.0.value) ==> q in p.1)
  {
    if condition.Some? {
      var c := condition.value;
      ProcessFieldsResolves(c, sm);
      ProcessFieldsSorted(c, sm);
      var p := ProcessFields(c, sm).value;
      var cols := ResolveAll(sm, ColumnsOf(c)).value;
      assert ColumnsOf(p.0) == cols;
      forall q | q in p.1 ensures '.' in q {
        var k :| 0 <= k < |cols| && cols[k] == q;
        ResolvedHasDot(sm, ColumnsOf(c)[k]);
      }
    }
  }

  /** `plan` is a plan for the query: its projection and condition are the
      resolved ones, and its joins form a valid join order that covers
      every column the projection and the condition use. */
  ghost predicate PlanFor(plan: ExecutionPlan, projection: seq<string>, relations: seq<string>,
                          condition: Option<Condition>, db: Database) {
    ResolvedProjection(projection, relations, db.schema) == Success(plan.projection) &&
    ResolvedCondition(condition, SchemaMap(db.schema, relations)).Success? &&
    ResolvedCondition(condition, SchemaMap(db.schema, relations)).value.0 == plan.condition &&
    JoinOrder(plan.joins, KeyMap(db.schema)) && DistinctKeys(plan.joins) &&
    Covers(plan.joins, plan.projection + ResolvedCondition(condition, SchemaMap(db.schema, relations)).value.1)
  }

  /** `_make_execution_plan(projection, relations, condition, db)`: the
      projection is resolved first, then the condition, then the joins
      are planned for the columns of both. */
  method MakeExecutionPlan(projection: seq<string>, relations: seq<string>, condition: Option<Condition>,
                           db: Database, components: ComponentsOracle) returns (r: Result<ExecutionPlan, Error>)
    requires ValidDb(db)
    ensures ResolvedProjection(projection, relations, db.schema).Failure? ==>
      r == Failure(ResolvedProjection(projection, relations, db.schema).error)
    ensures ResolvedProjection(projection, relations, db.schema).Success? &&
            ResolvedCondition(condition, SchemaMap(db.schema, relations)).Failure? ==>
      r == Failure(ResolvedCondition(condition, SchemaMap(db.schema, relations)).error)
    ensures r.Success? ==> PlanFor(r.value, projection, relations, condition, db)
  {
    var sm := MakeSchemaMap(db.schema, relations);
    var proj: seq<string>;
    if projection == ["*"] {
      var all := ProjectAll(relations, db.schema);
      if all.Failure? {
        return Failure(all.error);
      }
      proj := all.value;
    } else {
      var resolved := ResolveAll(sm, projection);
      if resolved.Failure? {
        return Failure(resolved.error);
      }
      proj := resolved.value;
    }
    var cond: Option<Condition> := None;
    var condFields: seq<string> := [];
    if condition.Some? {
      var processed := ProcessConditionFields(condition.value, sm);
      if processed.Failure? {
        return Failure(processed.error);
      }
      cond, condFields := Some(processed.value.0), processed.value.1;
    }
    var joins := PlanJoins(proj, condFields, relations, db.schema, components);
    if joins.Failure? {
      return Failure(joins.error);
    }
    r := Success(ExecutionPlan(proj, joins.value, cond));
  }

  // ---------------------------------------------------------------------
  // The filter

  /** `list(filter(cond, rows))` for the test `cond` built from a
      condition: the rows that pass, in order; the first error raised
      stops the filter. */
  function Filtered(c: Condition, fi: FieldIndex, rows: seq<Row>, search: RegexOracle): Result<seq<Row>, Error> {
    if rows == [] then Success([])
    else
      var n := |rows| - 1;
      var kept :- Filtered(c, fi, rows[..n], search);
      var pass :- Eval(c, fi, rows[n], search);
      Success(if pass then kept + [rows[n]] else kept)
  }

  /** The rows kept are exactly the rows the condition holds for. */
  lemma {:induction false} FilteredRows(c: Condition, fi: FieldIndex, rows: seq<Row>, search: RegexOracle)
    requires Filtered(c, fi, rows, search).Success?
    ensures forall x :: x in Filtered(c, fi, rows, search).value <==> x in rows && Eval(c, fi, x, search) == Success(true)
    ensures |Filtered(c, fi, rows, search).value| <= |rows|
    decreases |rows|
  {
    if rows != [] {
      var n := |rows| - 1;
      FilteredRows(c, fi, rows[..n], search);
      assert rows == rows[..n] + [rows[n]];
    }
  }

  /** The filter fails exactly when the test raises an error on some row,
      and then with the error of the first such row. */
  lemma {:induction false} FilteredFailure(c: Condition, fi: FieldIndex, rows: seq<Row>, search: RegexOracle)
    ensures Filtered(c, fi, rows, search).Failure? <==> exists i :: 0 <= i < |rows| && Eval(c, fi, rows[i], search).Failure?
    ensures Filtered(c, fi, rows, search).Failure? ==>
      exists i :: 0 <= i < |rows| && Eval(c, fi, rows[i], search) == Failure(Filtered(c, fi, rows, search).error) &&
                  forall j :: 0 <= j < i ==> Eval(c, fi, rows[j], search).Success?
    decreases |rows|
  {
    if rows != [] {
      var n := |rows| - 1;
      FilteredFailure(c, fi, rows[..n], search);
      assert forall j :: 0 <= j < n ==> rows[..n][j] == rows[j];
      if Filtered(c, fi, rows[..n], search).Success? && Eval(c, fi, rows[n], search).Failure? {
        assert forall j :: 0 <= j < n ==> Eval(c, fi, rows[j], search).Success?;
      }
    }
  }

  /** On rows as wide as the field index demands, and with every column of
      the condition indexed, the filter can only fail with a TypeError. */
  lemma FilteredTypeErrors(c: Condition, fi: FieldIndex, rows: seq<Row>, width: nat, search: RegexOracle)
    requires forall q :: q in ColumnsOf(c) ==> q in fi
    requires forall k :: k in fi ==> fi[k] < width
    requires forall i :: 0 <= i < |rows| ==> |rows[i]| == width
    requires Filtered(c, fi, rows, search).Failure?
    ensures Filtered(c, fi, rows, search).error == TypeError
  {
    FilteredFailure(c, fi, rows, search);
    var i :| 0 <= i < |rows| && Eval(c, fi, rows[i], search) == Failure(Filtered(c, fi, rows, search).error) &&
             forall j :: 0 <= j < i ==> Eval(c, fi, rows[j], search).Success?;
    EvalErrors(c, fi, rows[i], search);
  }

  /** The filter as a loop over the rows. */
  method FilterRows(c: Condition, fi: FieldIndex, rows: seq<Row>, search: RegexOracle) returns (r: Result<seq<Row>, Error>)
    ensures r == Filtered(c, fi, rows, search)
  {
    var kept: seq<Row> := [];
    for i := 0 to |rows|
      invariant Filtered(c, fi, rows[..i], search) == Success(kept)
    {
      assert rows[..i + 1][..i] == rows[..i] && rows[..i + 1][i] == rows[i];
      var pass := Eval(c, fi, rows[i], search);
      if pass.Failure? {
        FilteredStops(c, fi, rows, i + 1, search);
        return Failure(pass.error);
      }
      if pass.value {
        kept := kept + [rows[i]];
      }
    }
    assert rows[..|rows|] == rows;
    r := Success(kept);
  }

  /** A failure on a prefix is the failure of the whole filter. */
  lemma {:induction false} FilteredStops(c: Condition, fi: FieldIndex, rows: seq<Row>, i: nat, search: RegexOracle)
    requires i <= |rows| && Filtered(c, fi, rows[..i], search).Failure?
    ensures Filtered(c, fi, rows, search) == Filtered(c, fi, rows[..i], search)
    decreases |rows| - i
  {
    if i < |rows| {
      assert rows[..i + 1][..i] == rows[..i];
      FilteredStops(c, fi, rows, i + 1, search);
    } else {
      assert rows[..i] == rows;
    }
  }

  // ---------------------------------------------------------------------
  // The selection

  /** Each planned column is indexed under its qualified name. */
  ghost predicate Indexed(joins: Plan, n: nat, fi: map<string, nat>)
    requires n <= |joins|
  {
    forall k, c :: 0 <= k < n && c in joins[k].1 ==> Qualify(joins[k].0, c) in fi
  }

  /** A column the plan covers is in the field index once every planned
      join has been made. */
  lemma CoveredIndexed(joins: Plan, qnames: seq<string>, fi: map<string, nat>)
    requires Covers(joins, qnames) && Indexed(joins, |joins|, fi)
    requires forall q :: q in qnames ==> '.' in q
    ensures forall q :: q in qnames ==> q in fi
  {
    forall q | q in qnames ensures q in fi {
      var (rel, col) := RPartition(q, '.');
      var e := (rel, Lookup(joins, rel));
      var k :| 0 <= k < |joins| && joins[k] == e;
      assert Qualify(rel, col) == q;
    }
  }

  /** One join of the loop in `_select` keeps the selection valid, without
      a projection, and indexes the joined columns. */
  lemma JoinStep(before: SelState, after: SelState, db: Database, joins: Plan, i: nat)
    requires ValidDb(db) && i < |joins| && ValidState(before) && before.projection.None?
    requires Indexed(joins, i, before.fieldIndex)
    requires JoinSpec(before, db, joins[i].0, joins[i].1, "inner") == Success(after)
    ensures ValidState(after) && after.projection.None? && Indexed(joins, i + 1, after.fieldIndex)
  {
    JoinValid(before, db, joins[i].0, joins[i].1, "inner");
    JoinFields(before, db, joins[i].0, joins[i].1, "inner");
    JoinIndexes(before, db, joins[i].0, joins[i].1, "inner");
    forall k, c | 0 <= k < i + 1 && c in joins[k].1 ensures Qualify(joins[k].0, c) in after.fieldIndex {
      if k == i {
        var m :| 0 <= m < |joins[i].1| && joins[i].1[m] == c;
      }
    }
  }

  /** The state of a new `Selection`. */
  const NoSelection := SelState([], map[], [], None, {})

  /** The selection after the planned relations are inner-joined in order,
      or the error of the first join that fails. */
  function Joined(db: Database, joins: Plan): Result<SelState, Error>
    requires ValidDb(db)
  {
    if joins == [] then Success(NoSelection)
    else
      var n := |joins| - 1;
      var s :- Joined(db, joins[..n]);
      JoinSpec(s, db, joins[n].0, joins[n].1, "inner")
  }

  /** What `_select` makes of a plan: the joined selection with its rows
      filtered by the condition and the projection set. */
  function RunPlan(plan: ExecutionPlan, db: Database, search: RegexOracle): Result<SelState, Error>
    requires ValidDb(db)
  {
    var s :- Joined(db, plan.joins);
    var data :- if plan.condition.Some? then Filtered(plan.condition.value, s.fieldIndex, s.data, search) else Success(s.data);
    Success(s.(data := data, projection := Some(plan.projection)))
  }

  /** A failing join fails every longer series of joins. */
  lemma {:induction false} JoinedStops(db: Database, joins: Plan, i: nat)
    requires ValidDb(db) && i <= |joins| && Joined(db, joins[..i]).Failure?
    ensures Joined(db, joins) == Joined(db, joins[..i])
    decreases |joins| - i
  {
    if i < |joins| {
      assert joins[..i + 1][..i] == joins[..i];
      JoinedStops(db, joins, i + 1);
    } else {
      assert joins[..i] == joins;
    }
  }

  /** The selection `_select` returns for a plan: the joined fields and
      index, the projection of the plan, and exactly the joined rows the
      condition accepts (all of them without a condition). It fails exactly
      when a join fails or the condition raises on a joined row. */
  lemma RunPlanMeaning(plan: ExecutionPlan, db: Database, search: RegexOracle)
    requires ValidDb(db)
    ensures RunPlan(plan, db, search).Failure? <==>
      Joined(db, plan.joins).Failure? ||
      (plan.condition.Some? &&
       exists row :: row in Joined(db, plan.joins).value.data &&
                     Eval(plan.condition.value, Joined(db, plan.joins).value.fieldIndex, row, search).Failure?)
    ensures RunPlan(plan, db, search).Success? ==>
      var s := Joined(db, plan.joins).value;
      var out := RunPlan(plan, db, search).value;
      out.fields == s.fields && out.fieldIndex == s.fieldIndex && out.joined == s.joined &&
      out.projection == Some(plan.projection) &&
      (plan.condition.None? ==> out.data == s.data) &&
      (plan.condition.Some? ==>
         forall row :: row in out.data <==> row in s.data && Eval(plan.condition.value, s.fieldIndex, row, search) == Success(true))
  {
    if Joined(db, plan.joins).Success? && plan.condition.Some? {
      var s := Joined(db, plan.joins).value;
      var c := plan.condition.value;
      FilteredFailure(c, s.fieldIndex, s.data, search);
      if Filtered(c, s.fieldIndex, s.data, search).Success? {
        FilteredRows(c, s.fieldIndex, s.data, search);
      }
    }
  }

  /** `_select(projection, relations, condition, db, record_class)`: every
      planned relation is joined with an inner join, the rows are filtered
      by the resolved condition, and the resolved projection is set. The
      ghost `plan` is the execution plan used (`None` when planning
      failed). The result is exactly `RunPlan` of that plan; it fails with
      the resolution errors, a join's error, or a TypeError from the
      filter. A selection it returns is valid, indexes every projected
      column, so iterating it raises no error, and holds only rows the
      condition accepts. */
  method Select(projection: seq<string>, relations: seq<string>, condition: Option<Condition>, db: Database,
                components: ComponentsOracle, search: RegexOracle) returns (r: Result<Selection, Error>, ghost plan: Option<ExecutionPlan>)
    requires ValidDb(db)
    ensures ResolvedProjection(projection, relations, db.schema).Failure? ==>
      r == Failure(ResolvedProjection(projection, relations, db.schema).error)
    ensures ResolvedProjection(projection, relations, db.schema).Success? &&
            ResolvedCondition(condition, SchemaMap(db.schema, relations)).Failure? ==>
      r == Failure(ResolvedCondition(condition, SchemaMap(db.schema, relations)).error)
    ensures plan.None? ==> r.Failure?
    ensures plan.Some? ==> PlanFor(plan.value, projection, relations, condition, db)
    ensures plan.Some? ==> (r.Success? <==> RunPlan(plan.value, db, search).Success?)
    ensures plan.Some? && r.Failure? ==> r.error == RunPlan(plan.value, db, search).error
    ensures plan.Some? && r.Failure? ==> Joined(db, plan.value.joins).Failure? || r.error == TypeError
    ensures r.Success? ==> plan.Some? && r.value.State() == RunPlan(plan.value, db, search).value
    ensures r.Success? ==> fresh(r.value) && r.value.Valid()
    ensures r.Success? ==>
      r.value.projection.Some? && ResolvedProjection(projection, relations, db.schema) == Success(r.value.projection.value) &&
      forall q :: q in r.value.projection.value ==> q in r.value.fieldIndex
    ensures r.Success? ==> IterRows(r.value.State()).Success?
    ensures r.Success? ==> ResolvedCondition(condition, SchemaMap(db.schema, relations)).Success?
    ensures r.Success? && ResolvedCondition(condition, SchemaMap(db.schema, relations)).value.0.Some? ==>
      forall row :: row in r.value.data ==>
        Eval(ResolvedCondition(condition, SchemaMap(db.schema, relations)).value.0.value, r.value.fieldIndex, row, search) ==
        Success(true)
  {
    plan := None;
    var made := MakeExecutionPlan(projection, relations, condition, db, components);
    if made.Failure? {
      return Failure(made.error), plan;
    }
    plan := Some(made.value);
    var joins := made.value.joins;
    var joined := JoinAll(db, joins);
    if joined.Failure? {
      return Failure(joined.error), plan;
    }
    var selection := joined.value;
    ghost var s := selection.State();
    ghost var condFields := ResolvedCondition(condition, SchemaMap(db.schema, relations)).value.1;
    ProjectionHasDots(projection, relations, db.schema);
    ConditionHasDots(condition, SchemaMap(db.schema, relations));
    CoveredIndexed(joins, made.value.projection + condFields, selection.fieldIndex);
    if made.value.condition.Some? {
      ghost var c := made.value.condition.value;
      assert forall q :: q in ColumnsOf(c) ==> q in selection.fieldIndex;
      var kept := FilterRows(made.value.condition.value, selection.fieldIndex, selection.data, search);
      if kept.Failure? {
        assert forall k :: k in s.fieldIndex ==> s.fieldIndex[k] < |s.fields|;
        assert forall i :: 0 <= i < |s.data| ==> |s.data[i]| == |s.fields|;
        FilteredTypeErrors(c, s.fieldIndex, s.data, |s.fields|, search);
        return Failure(kept.error), plan;
      }
      FilteredRows(made.value.condition.value, selection.fieldIndex, selection.data, search);
      selection.data := kept.value;
    }
    FinishValid(s, selection.data, made.value.projection);
    selection.projection := Some(made.value.projection);
    assert selection.State() == s.(data := selection.data, projection := Some(made.value.projection));
    r := Success(selection);
  }

  /** Keeping some of a valid selection's rows and projecting onto indexed
      columns gives a valid selection that can be iterated. */
  lemma FinishValid(s: SelState, data: seq<Row>, projection: seq<string>)
    requires ValidState(s) && forall row :: row in data ==> row in s.data
    requires forall q :: q in projection ==> q in s.fieldIndex
    ensures ValidState(s.(data := data, projection := Some(projection)))
    ensures IterRows(s.(data := data, projection := Some(projection))).Success?
  {
    var out := s.(data := data, projection := Some(projection));
    assert forall k :: 0 <= k < |projection| ==> projection[k] in out.fieldIndex;
    SelectIndexed(out, projection);
  }

  /** The join loop of `_select`: a fresh selection inner-joined with each
      planned relation in turn; on success it is valid, without a
      projection, and indexes every planned column. */
  method JoinAll(db: Database, joins: Plan) returns (r: Result<Selection, Error>)
    requires ValidDb(db)
    ensures r.Failure? ==> Joined(db, joins) == Failure(r.error)
    ensures r.Success? ==>
      fresh(r.value) && Joined(db, joins) == Success(r.value.State()) &&
      r.value.Valid() && r.value.projection.None? && Indexed(joins, |joins|, r.value.fieldIndex)
  {
    var selection := new Selection();
    for i := 0 to |joins|
      invariant fresh(selection)
      invariant selection.Valid() && selection.projection.None?
      invariant Indexed(joins, i, selection.fieldIndex)
      invariant Joined(db, joins[..i]) == Success(selection.State())
    {
      ghost var before := selection.State();
      assert joins[..i + 1][..i] == joins[..i] && joins[..i + 1][i] == joins[i];
      var joined := selection.Join(db, joins[i].0, joins[i].1, "inner");
      if joined.Failure? {
        JoinedStops(db, joins, i + 1);
        return Failure(joined.error);
      }
      JoinStep(before, selection.State(), db, joins, i);
    }
    assert joins[..|joins|] == joins;
    r := Success(selection);
  }

  /** `select(querystring, db)`: a select query without its leading
      keyword, parsed and then run. A parse error is returned as it is;
      after a successful parse the outcome is `Select`'s on the parsed
      query: the ghost `plan` is a plan for it, and the selection is
      exactly `RunPlan` of that plan, or the failure is its error. */
  method SelectString(querystring: string, db: Database, lex: string -> seq<Token>, castDate: string -> Value,
                      components: ComponentsOracle, search: RegexOracle)
    returns (r: Result<Selection, Error>, ghost plan: Option<ExecutionPlan>)
    requires ValidDb(db)
    ensures SelectQuery(lex(querystring + "."), castDate).Failure? ==>
      r == Failure(SelectQuery(lex(querystring + "."), castDate).error)
    ensures var q := SelectQuery(lex(querystring + "."), castDate);
      q.Success? && plan.Some? ==> PlanFor(plan.value, q.value.projection, q.value.relations, q.value.condition, db)
    ensures var q := SelectQuery(lex(querystring + "."), castDate);
      q.Success? && ResolvedProjection(q.value.projection, q.value.relations, db.schema).Failure? ==>
        r == Failure(ResolvedProjection(q.value.projection, q.value.relations, db.schema).error)
    ensures var q := SelectQuery(lex(querystring + "."), castDate);
      q.Success? && ResolvedProjection(q.value.projection, q.value.relations, db.schema).Success? &&
      ResolvedCondition(q.value.condition, SchemaMap(db.schema, q.value.relations)).Failure? ==>
        r == Failure(ResolvedCondition(q.value.condition, SchemaMap(db.schema, q.value.relations)).error)
    ensures plan.None? ==> r.Failure?
    ensures plan.Some? ==> (r.Success? <==> RunPlan(plan.value, db, search).Success?)
    ensures plan.Some? && r.Failure? ==> r.error == RunPlan(plan.value, db, search).error
    ensures r.Success? ==>
      SelectQuery(lex(querystring + "."), castDate).Success? && plan.Some? && r.value.State() == RunPlan(plan.value, db, search).value
    ensures r.Success? ==> fresh(r.value) && r.value.Valid() && IterRows(r.value.State()).Success?
  {
    var q := ParseSelect(querystring, lex, castDate);
    if q.Failure? {
      return Failure(q.error), None;
    }
    r, plan := Select(q.value.projection, q.value.relations, q.value.condition, db, components, search);
  }

  /** `query(querystring, db)`: only `select` and `retrieve` queries run.
      A parse error or an unsupported query type is returned as it is;
      otherwise the outcome is `Select`'s on the parsed query, with the
      ghost `plan` as in `SelectString`. */
  method Query(querystring: string, db: Database, lex: string -> seq<Token>, castDate: string -> Value,
               components: ComponentsOracle, search: RegexOracle)
    returns (r: Result<Selection, Error>, ghost plan: Option<ExecutionPlan>)
    requires ValidDb(db)
    ensures QueryFromString(querystring, lex, castDate).Failure? ==>
      r == Failure(QueryFromString(querystring, lex, castDate).error)
    ensures var q := QueryFromString(querystring, lex, castDate);
      q.Success? && plan.Some? ==> PlanFor(plan.value, q.value.projection, q.value.relations, q.value.condition, db)
    ensures var q := QueryFromString(querystring, lex, castDate);
      q.Success? && ResolvedProjection(q.value.projection, q.value.relations, db.schema).Failure? ==>
        r == Failure(ResolvedProjection(q.value.projection, q.value.relations, db.schema).error)
    ensures var q := QueryFromString(querystring, lex, castDate);
      q.Success? && ResolvedProjection(q.value.projection, q.value.relations, db.schema).Success? &&
      ResolvedCondition(q.value.condition, SchemaMap(db.schema, q.value.relations)).Failure? ==>
        r == Failure(ResolvedCondition(q.value.condition, SchemaMap(db.schema, q.value.relations)).error)
    ensures plan.None? ==> r.Failure?
    ensures plan.Some? ==> (r.Success? <==> RunPlan(plan.value, db, search).Success?)
    ensures plan.Some? && r.Failure? ==> r.error == RunPlan(plan.value, db, search).error
    ensures r.Success? ==>
      QueryFromString(querystring, lex, castDate).Success? && plan.Some? && r.value.State() == RunPlan(plan.value, db, search).value
    ensures r.Success? ==> fresh(r.value) && r.value.Valid() && IterRows(r.value.State()).Success?
  {
    var q := ParseQuery(querystring, lex, castDate);
    if q.Failure? {
      return Failure(q.error), None;
    }
    r, plan := Select(q.value.projection, q.value.relations, q.value.condition, db, components, search);
  }
}
