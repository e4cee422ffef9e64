/** Conditions of a TSQL query after parsing (delphin/tsql.py):
    `_process_condition_fields`, which resolves every column name and
    collects the resolved names, and `_process_condition_function`, which
    turns a condition into a test on rows, here an evaluator. */
module TsqlCondition {
  import opened Wrappers
  import opened TsqlSyntax
  import opened TsqlSchema
  import opened StrOrder

  // ---------------------------------------------------------------------
  // Resolving the columns of a condition

  /** The column names resolved in order; the first that fails stops. */
  function ResolveAll(sm: ColumnMap, cols: seq<string>): (r: Result<seq<string>, Error>)
    ensures r.Success? ==> |r.value| == |cols| && forall k :: 0 <= k < |cols| ==> Resolve(sm, cols[k]) == Success(r.value[k])
  {
    if cols == [] then Success([])
    else
      var q :- Resolve(sm, cols[0]);
      var rest :- ResolveAll(sm, cols[1..]);
      Success([q] + rest)
  }

  /** A failure of `ResolveAll` is the failure of the first column that
      does not resolve. */
  lemma {:induction false} ResolveAllFailure(sm: ColumnMap, cols: seq<string>)
    requires ResolveAll(sm, cols).Failure?
    ensures exists k :: 0 <= k < |cols| && Resolve(sm, cols[k]) == Failure(ResolveAll(sm, cols).error) &&
                        forall j :: 0 <= j < k ==> Resolve(sm, cols[j]).Success?
  {
    if Resolve(sm, cols[0]).Success? {
      ResolveAllFailure(sm, cols[1..]);
      var k :| 0 <= k < |cols[1..]| && Resolve(sm, cols[1..][k]) == Failure(ResolveAll(sm, cols[1..]).error) &&
               forall j :: 0 <= j < k ==> Resolve(sm, cols[1..][j]).Success?;
      assert Resolve(sm, cols[k + 1]) == Failure(ResolveAll(sm, cols).error);
      assert forall j :: 1 <= j < k + 1 ==> cols[j] == cols[1..][j - 1];
    } else {
      assert Resolve(sm, cols[0]) == Failure(ResolveAll(sm, cols).error);
    }
  }

  lemma {:induction false} ResolveAllConcat(sm: ColumnMap, a: seq<string>, b: seq<string>)
    ensures ResolveAll(sm, a + b) ==
      match ResolveAll(sm, a)
      case Failure(e) => Failure(e)
      case Success(x) => match ResolveAll(sm, b) case Failure(e) => Failure(e) case Success(y) => Success(x + y)
    decreases |a|
  {
    if a == [] {
      assert a + b == b;
      if ResolveAll(sm, b).Success? {
        assert [] + ResolveAll(sm, b).value == ResolveAll(sm, b).value;
      }
    } else {
      assert (a + b)[0] == a[0] && (a + b)[1..] == a[1..] + b;
      ResolveAllConcat(sm, a[1..], b);
      if Resolve(sm, a[0]).Success? && ResolveAll(sm, a[1..]).Success? && ResolveAll(sm, b).Success? {
        var q, x, y := Resolve(sm, a[0]).value, ResolveAll(sm, a[1..]).value, ResolveAll(sm, b).value;
        assert [q] + (x + y) == ([q] + x) + y;
      }
    }
  }

  /** Two conditions alike but for their column names. */
  predicate SameShape(a: Condition, b: Condition)
    decreases a
  {
    match a
    case Comparison(op, _, v) => b.Comparison? && b.op == op && b.value == v
    case Junction(bop, cs) =>
      b.Junction? && b.bop == bop && |b.children| == |cs| &&
      forall i :: 0 <= i < |cs| ==> SameShape(cs[i], b.children[i])
    case Negation(x) => b.Negation? && SameShape(x, b.child)
  }

  lemma ColumnsOfAllSnoc(cs: seq<Condition>, c: Condition)
    ensures ColumnsOfAll(cs + [c]) == ColumnsOfAll(cs) + ColumnsOf(c)
    decreases |cs|
  {
    if cs == [] {
      assert ColumnsOfAll([c]) == ColumnsOf(c) + ColumnsOfAll([]);
    } else {
      assert (cs + [c])[0] == cs[0] && (cs + [c])[1..] == cs[1..] + [c];
      ColumnsOfAllSnoc(cs[1..], c);
    }
  }

  /** `_process_condition_fields(condition, resolve_qname)`: the condition
      with its columns resolved through the schema map, and the resolved
      names; a conjunction or disjunction collects its children's names in
      a set and returns them sorted. */
  function ProcessFields(c: Condition, sm: ColumnMap): Result<(Condition, seq<string>), Error>
    decreases c, 1
  {
    match c
    case Comparison(op, col, v) =>
      var q :- Resolve(sm, col);
      Success((Comparison(op, q, v), [q]))
    case Junction(bop, cs) =>
      var p :- ProcessChildren(cs, sm);
      Success((Junction(bop, p.0), SortedSet(p.1)))
    case Negation(x) =>
      var p :- ProcessFields(x, sm);
      Success((Negation(p.0), p.1))
  }

  /** The loop over the children of a conjunction or disjunction, for the
      first `|cs|` children: the processed children and the union of their
      names. */
  function ProcessChildren(cs: seq<Condition>, sm: ColumnMap): Result<(seq<Condition>, set<string>), Error>
    decreases cs, 0
  {
    if cs == [] then Success(([], {}))
    else
      var p :- ProcessChildren(cs[..|cs| - 1], sm);
      var q :- ProcessFields(cs[|cs| - 1], sm);
      Success((p.0 + [q.0], p.1 + set n | n in q.1))
  }

  /** The resolved columns of a processed condition, or its error. */
  function ColumnsResult(r: Result<(Condition, seq<string>), Error>): Result<seq<string>, Error> {
    match r
    case Success(p) => Success(ColumnsOf(p.0))
    case Failure(e) => Failure(e)
  }

  function ChildrenColumnsResult(r: Result<(seq<Condition>, set<string>), Error>): Result<seq<string>, Error> {
    match r
    case Success(p) => Success(ColumnsOfAll(p.0))
    case Failure(e) => Failure(e)
  }

  /** Processing a condition resolves exactly its columns, in tree order,
      fails with the error of the first column that does not resolve, and
      keeps the shape of the tree. */
  lemma {:induction false} ProcessFieldsResolves(c: Condition, sm: ColumnMap)
    ensures ColumnsResult(ProcessFields(c, sm)) == ResolveAll(sm, ColumnsOf(c))
    ensures ProcessFields(c, sm).Success? ==> SameShape(c, ProcessFields(c, sm).value.0)
    decreases c, 1
  {
    match c
    case Comparison(op, col, v) =>
      assert ColumnsOf(c) == [col] && [col][1..] == [];
      if Resolve(sm, col).Success? {
        assert [Resolve(sm, col).value] + [] == [Resolve(sm, col).value];
      }
    case Junction(bop, cs) =>
      ProcessChildrenResolves(cs, sm);
    case Negation(x) =>
      ProcessFieldsResolves(x, sm);
  }

  lemma {:induction false} ProcessChildrenResolves(cs: seq<Condition>, sm: ColumnMap)
    ensures ChildrenColumnsResult(ProcessChildren(cs, sm)) == ResolveAll(sm, ColumnsOfAll(cs))
    ensures ProcessChildren(cs, sm).Success? ==>
      |ProcessChildren(cs, sm).value.0| == |cs| &&
      forall i :: 0 <= i < |cs| ==> SameShape(cs[i], ProcessChildren(cs, sm).value.0[i])
    decreases cs, 0
  {
    if cs != [] {
      var n := |cs| - 1;
      assert cs == cs[..n] + [cs[n]];
      ColumnsOfAllSnoc(cs[..n], cs[n]);
      ResolveAllConcat(sm, ColumnsOfAll(cs[..n]), ColumnsOf(cs[n]));
      ProcessChildrenResolves(cs[..n], sm);
      if ProcessChildren(cs[..n], sm).Success? {
        ProcessFieldsResolves(cs[n], sm);
        if ProcessFields(cs[n], sm).Success? {
          var p := ProcessChildren(cs[..n], sm).value;
          var q := ProcessFields(cs[n], sm).value;
          ColumnsOfAllSnoc(p.0, q.0);
        }
      }
    }
  }

  /** The names returned with a processed condition are its resolved
      columns, each once and in increasing order. */
  lemma {:induction false} ProcessFieldsSorted(c: Condition, sm: ColumnMap)
    requires ProcessFields(c, sm).Success?
    ensures StrictlySorted(ProcessFields(c, sm).value.1)
    ensures forall q :: q in ProcessFields(c, sm).value.1 <==> q in ColumnsOf(ProcessFields(c, sm).value.0)
    decreases c, 1
  {
    match c
    case Comparison(op, col, v) =>
    case Junction(bop, cs) =>
      ProcessChildrenNames(cs, sm);
    case Negation(x) =>
      ProcessFieldsSorted(x, sm);
  }

  lemma {:induction false} ProcessChildrenNames(cs: seq<Condition>, sm: ColumnMap)
    requires ProcessChildren(cs, sm).Success?
    ensures forall q :: q in ProcessChildren(cs, sm).value.1 <==> q in ColumnsOfAll(ProcessChildren(cs, sm).value.0)
    decreases cs, 0
  {
    if cs != [] {
      var n := |cs| - 1;
      ProcessChildrenNames(cs[..n], sm);
      ProcessFieldsSorted(cs[n], sm);
      var p := ProcessChildren(cs[..n], sm).value;
      var q := ProcessFields(cs[n], sm).value;
      ColumnsOfAllSnoc(p.0, q.0);
    }
  }

  /** A failure of the first `i + 1` children is the failure of all of them. */
  lemma {:induction false} ProcessChildrenStops(cs: seq<Condition>, i: nat, sm: ColumnMap)
    requires i < |cs| && ProcessChildren(cs[..i + 1], sm).Failure?
    ensures ProcessChildren(cs, sm) == ProcessChildren(cs[..i + 1], sm)
    decreases |cs|
  {
    var n := |cs| - 1;
    if i < n {
      assert cs[..n][..i + 1] == cs[..i + 1];
      ProcessChildrenStops(cs[..n], i, sm);
    } else {
      assert cs[..i + 1] == cs;
    }
  }

  /** `_process_condition_fields` as the source writes it: recursion over
      the tree and a loop over the children of `and` and `or`. */
  method ProcessConditionFields(c: Condition, sm: ColumnMap) returns (r: Result<(Condition, seq<string>), Error>)
    ensures r == ProcessFields(c, sm)
    decreases c
  {
    match c
    case Comparison(op, col, v) =>
      var q := Resolve(sm, col);
      if q.Failure? {
        r := Failure(q.error);
      } else {
        r := Success((Comparison(op, q.value, v), [q.value]));
      }
    case Junction(bop, cs) =>
      var fieldset: set<string> := {};
      var conditions: seq<Condition> := [];
      var i := 0;
      var failed: Option<Error> := None;
      while i < |cs| && failed.None?
        invariant 0 <= i <= |cs|
        invariant failed.None? ==> ProcessChildren(cs[..i], sm) == Success((conditions, fieldset))
        invariant failed.Some? ==> 0 < i && ProcessChildren(cs, sm) == Failure(failed.value)
        decreases |cs| - i
      {
        assert cs[..i + 1][..i] == cs[..i] && cs[..i + 1][i] == cs[i];
        var sub := ProcessConditionFields(cs[i], sm);
        if sub.Failure? {
          ProcessChildrenStops(cs, i, sm);
          failed := Some(sub.error);
        } else {
          fieldset := fieldset + set n | n in sub.value.1;
          conditions := conditions + [sub.value.0];
        }
        i := i + 1;
      }
      if failed.Some? {
        r := Failure(failed.value);
      } else {
        assert cs[..i] == cs;
        r := Success((Junction(bop, conditions), SortedSet(fieldset)));
      }
    case Negation(x) =>
      var sub := ProcessConditionFields(x, sm);
      if sub.Failure? {
        r := Failure(sub.error);
      } else {
        r := Success((Negation(sub.value.0), sub.value.1));
      }
  }

  // ---------------------------------------------------------------------
  // Evaluating a condition on a row

  /** `re.search(pattern, text) is not None`, which the model does not
      define. */
  type RegexOracle = (string, string) -> bool

  type FieldIndex = map<string, nat>

  /** Python orders two values with `<` only when both are ints, both
      strings or both dates. */
  predicate Comparable(x: Value, v: Value) {
    (x.Int? && v.Int?) || (x.Str? && v.Str?) || (x.Date? && v.Date?)
  }

  /** `x < v` for comparable values. */
  predicate Below(x: Value, v: Value)
    requires Comparable(x, v)
  {
    match x
    case Int(i) => i < v.i
    case Str(s) => Less(s, v.s)
    case Date(d) => d < v.d
  }

  /** `_operator_functions[op](x, v)`, and `re.search(v, x)` for `~` and
      `!~`: `==` and `!=` compare any two values, the orderings raise a
      TypeError on values of different kinds or on None, and so does a
      regular-expression match on anything but two strings. */
  function Compare(op: CompOp, x: Value, v: Value, search: RegexOracle): (r: Result<bool, Error>)
    ensures r.Failure? ==> r.error == TypeError
    ensures op == Eq || op == Ne ==> r.Success?
    ensures r.Success? && (op == Lt || op == Le || op == Gt || op == Ge) ==> Comparable(x, v)
  {
    match op
    case Eq => Success(x == v)
    case Ne => Success(x != v)
    case Lt => if Comparable(x, v) then Success(Below(x, v)) else Failure(TypeError)
    case Le => if Comparable(x, v) then Success(Below(x, v) || x == v) else Failure(TypeError)
    case Gt => if Comparable(x, v) then Success(Below(v, x)) else Failure(TypeError)
    case Ge => if Comparable(x, v) then Success(Below(v, x) || x == v) else Failure(TypeError)
    case Match => if x.Str? && v.Str? then Success(search(v.s, x.s)) else Failure(TypeError)
    case NoMatch => if x.Str? && v.Str? then Success(!search(v.s, x.s)) else Failure(TypeError)
  }

  /** On comparable values `>=` is the negation of `<`, `<=` that of `>`,
      and exactly one of `<`, `==`, `>` holds. */
  lemma CompareComplements(x: Value, v: Value, search: RegexOracle)
    requires Comparable(x, v)
    ensures Compare(Ge, x, v, search) == Success(!Compare(Lt, x, v, search).value)
    ensures Compare(Le, x, v, search) == Success(!Compare(Gt, x, v, search).value)
    ensures (if Compare(Lt, x, v, search).value then 1 else 0) + (if Compare(Eq, x, v, search).value then 1 else 0) +
            (if Compare(Gt, x, v, search).value then 1 else 0) == 1
  {
    if x.Str? {
      LessTotal(x.s, v.s);
      LessIrreflexive(x.s);
      if Less(x.s, v.s) {
        LessAsymmetric(x.s, v.s);
      }
    }
  }

  /** The test `_process_condition_function(condition, field_index)` builds,
      applied to `row`. A missing column raises KeyError and an index past
      the row's end IndexError, only when the comparison is reached. */
  function Eval(c: Condition, fi: FieldIndex, row: seq<Value>, search: RegexOracle): Result<bool, Error>
    decreases c, 1
  {
    match c
    case Comparison(op, col, v) =>
      if col !in fi then Failure(KeyError(col))
      else if fi[col] >= |row| then Failure(IndexError)
      else Compare(op, row[fi[col]], v, search)
    case Junction(And, cs) => All(cs, fi, row, search)
    case Junction(Or, cs) => Any(cs, fi, row, search)
    case Negation(x) =>
      var b :- Eval(x, fi, row, search);
      Success(!b)
  }

  /** `all(cond(row) for cond in conditions)`: stops at the first false. */
  function All(cs: seq<Condition>, fi: FieldIndex, row: seq<Value>, search: RegexOracle): Result<bool, Error>
    decreases cs, 0
  {
    if cs == [] then Success(true)
    else
      var b :- Eval(cs[0], fi, row, search);
      if !b then Success(false) else All(cs[1..], fi, row, search)
  }

  /** `any(cond(row) for cond in conditions)`: stops at the first true. */
  function Any(cs: seq<Condition>, fi: FieldIndex, row: seq<Value>, search: RegexOracle): Result<bool, Error>
    decreases cs, 0
  {
    if cs == [] then Success(false)
    else
      var b :- Eval(cs[0], fi, row, search);
      if b then Success(true) else Any(cs[1..], fi, row, search)
  }

  /** A conjunction holds exactly when every child holds; it is false when
      a child is false after only true ones, and it fails with the error of
      a child reached after only true ones. */
  lemma {:induction false} AllSemantics(cs: seq<Condition>, fi: FieldIndex, row: seq<Value>, search: RegexOracle)
    ensures All(cs, fi, row, search) == Success(true) <==> forall i :: 0 <= i < |cs| ==> Eval(cs[i], fi, row, search) == Success(true)
    ensures All(cs, fi, row, search) != Success(true) ==>
      exists k :: 0 <= k < |cs| && Eval(cs[k], fi, row, search) == All(cs, fi, row, search) &&
                  forall j :: 0 <= j < k ==> Eval(cs[j], fi, row, search) == Success(true)
  {
    if cs != [] {
      AllSemantics(cs[1..], fi, row, search);
      if Eval(cs[0], fi, row, search) == Success(true) {
        assert forall i :: 1 <= i < |cs| ==> cs[i] == cs[1..][i - 1];
        if All(cs, fi, row, search) != Success(true) {
          var k :| 0 <= k < |cs[1..]| && Eval(cs[1..][k], fi, row, search) == All(cs[1..], fi, row, search) &&
                   forall j :: 0 <= j < k ==> Eval(cs[1..][j], fi, row, search) == Success(true);
          assert Eval(cs[k + 1], fi, row, search) == All(cs, fi, row, search);
        }
      } else {
        assert Eval(cs[0], fi, row, search) == All(cs, fi, row, search);
      }
    }
  }

  /** A disjunction is false exactly when every child is false; it is true
      when a child is true after only false ones, and it fails with the
      error of a child reached after only false ones. */
  lemma {:induction false} AnySemantics(cs: seq<Condition>, fi: FieldIndex, row: seq<Value>, search: RegexOracle)
    ensures Any(cs, fi, row, search) == Success(false) <==> forall i :: 0 <= i < |cs| ==> Eval(cs[i], fi, row, search) == Success(false)
    ensures Any(cs, fi, row, search) != Success(false) ==>
      exists k :: 0 <= k < |cs| && Eval(cs[k], fi, row, search) == Any(cs, fi, row, search) &&
                  forall j :: 0 <= j < k ==> Eval(cs[j], fi, row, search) == Success(false)
  {
    if cs != [] {
      AnySemantics(cs[1..], fi, row, search);
      if Eval(cs[0], fi, row, search) == Success(false) {
        assert forall i :: 1 <= i < |cs| ==> cs[i] == cs[1..][i - 1];
        if Any(cs, fi, row, search) != Success(false) {
          var k :| 0 <= k < |cs[1..]| && Eval(cs[1..][k], fi, row, search) == Any(cs[1..], fi, row, search) &&
                   forall j :: 0 <= j < k ==> Eval(cs[1..][j], fi, row, search) == Success(false);
          assert Eval(cs[k + 1], fi, row, search) == Any(cs, fi, row, search);
        }
      } else {
        assert Eval(cs[0], fi, row, search) == Any(cs, fi, row, search);
      }
    }
  }

  /** Each child negated. */
  function Negated(cs: seq<Condition>): (r: seq<Condition>)
    ensures |r| == |cs| && forall i :: 0 <= i < |cs| ==> r[i] == Negation(cs[i])
  {
    seq(|cs|, i requires 0 <= i < |cs| => Negation(cs[i]))
  }

  /** De Morgan's law holds for the evaluator, errors and short-circuiting
      included: `not (a and b ...)` tests the children in the same order as
      `(not a) or (not b) ...` and raises the same error. */
  lemma {:induction false} DeMorgan(cs: seq<Condition>, fi: FieldIndex, row: seq<Value>, search: RegexOracle)
    ensures Eval(Negation(Junction(And, cs)), fi, row, search) == Eval(Junction(Or, Negated(cs)), fi, row, search)
  {
    if cs != [] {
      var ns := Negated(cs);
      assert ns != [] && ns[0] == Negation(cs[0]) && ns[1..] == Negated(cs[1..]);
      var e0 := Eval(cs[0], fi, row, search);
      var lhs := Eval(Negation(Junction(And, cs)), fi, row, search);
      assert Eval(Junction(Or, ns), fi, row, search) == Any(ns, fi, row, search);
      if e0.Failure? {
        assert All(cs, fi, row, search) == Failure(e0.error);
        assert Eval(ns[0], fi, row, search) == Failure(e0.error);
      } else if !e0.value {
        assert All(cs, fi, row, search) == Success(false);
        assert Eval(ns[0], fi, row, search) == Success(true);
      } else {
        DeMorgan(cs[1..], fi, row, search);
        assert All(cs, fi, row, search) == All(cs[1..], fi, row, search);
        assert Eval(ns[0], fi, row, search) == Success(false);
        assert Any(ns, fi, row, search) == Any(Negated(cs[1..]), fi, row, search);
        assert Eval(Junction(And, cs[1..]), fi, row, search) == All(cs[1..], fi, row, search);
        assert Eval(Junction(Or, Negated(cs[1..])), fi, row, search) == Any(Negated(cs[1..]), fi, row, search);
      }
    } else {
      assert Negated(cs) == [];
      assert Eval(Junction(And, cs), fi, row, search) == Success(true);
      assert Eval(Junction(Or, []), fi, row, search) == Success(false);
    }
  }

  /** A KeyError names a column of the condition that the field index does
      not have, an IndexError comes from a column whose index is past the
      end of the row, and every other error is a TypeError. */
  lemma {:induction false} EvalErrors(c: Condition, fi: FieldIndex, row: seq<Value>, search: RegexOracle)
    requires Eval(c, fi, row, search).Failure?
    ensures Eval(c, fi, row, search).error.KeyError? ==>
      Eval(c, fi, row, search).error.key in ColumnsOf(c) && Eval(c, fi, row, search).error.key !in fi
    ensures Eval(c, fi, row, search).error == IndexError ==> exists col :: col in ColumnsOf(c) && col in fi && fi[col] >= |row|
    ensures Eval(c, fi, row, search).error in {TypeError, IndexError} || Eval(c, fi, row, search).error.KeyError?
    decreases c, 1
  {
    match c
    case Comparison(op, col, v) =>
    case Junction(bop, cs) =>
      if bop == And {
        AllErrors(cs, fi, row, search);
      } else {
        AnyErrors(cs, fi, row, search);
      }
    case Negation(x) =>
      EvalErrors(x, fi, row, search);
  }

  lemma {:induction false} AllErrors(cs: seq<Condition>, fi: FieldIndex, row: seq<Value>, search: RegexOracle)
    requires All(cs, fi, row, search).Failure?
    ensures All(cs, fi, row, search).error.KeyError? ==>
      All(cs, fi, row, search).error.key in ColumnsOfAll(cs) && All(cs, fi, row, search).error.key !in fi
    ensures All(cs, fi, row, search).error == IndexError ==> exists col :: col in ColumnsOfAll(cs) && col in fi && fi[col] >= |row|
    ensures All(cs, fi, row, search).error in {TypeError, IndexError} || All(cs, fi, row, search).error.KeyError?
    decreases cs, 0
  {
    if Eval(cs[0], fi, row, search).Failure? {
      EvalErrors(cs[0], fi, row, search);
    } else {
      AllErrors(cs[1..], fi, row, search);
    }
  }

  lemma {:induction false} AnyErrors(cs: seq<Condition>, fi: FieldIndex, row: seq<Value>, search: RegexOracle)
    requires Any(cs, fi, row, search).Failure?
    ensures Any(cs, fi, row, search).error.KeyError? ==>
      Any(cs, fi, row, search).error.key in ColumnsOfAll(cs) && Any(cs, fi, row, search).error.key !in fi
    ensures Any(cs, fi, row, search).error == IndexError ==> exists col :: col in ColumnsOfAll(cs) && col in fi && fi[col] >= |row|
    ensures Any(cs, fi, row, search).error in {TypeError, IndexError} || Any(cs, fi, row, search).error.KeyError?
    decreases cs, 0
  {
    if Eval(cs[0], fi, row, search).Failure? {
      EvalErrors(cs[0], fi, row, search);
    } else {
      AnyErrors(cs[1..], fi, row, search);
    }
  }
}
