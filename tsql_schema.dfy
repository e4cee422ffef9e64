/** The profile schema as the TSQL engine consults it, and the planning
    helpers that depend only on the schema: the inverse column map
    (`_make_schema_map`), name resolution (`_make_qname_resolver`), the
    wildcard projection (`_project_all`) and the key map (`_make_keymap`). */
module TsqlSchema {
  import opened Wrappers
  import opened PyStrings
  import opened Dicts
  import opened TsqlSyntax

  /** A field of a relation: its name and whether it is a key. */
  datatype Field = Field(name: string, isKey: bool)

  /** `db.schema`: relation names to their fields, in the order of the
      relations file. */
  type Schema = Dict<string, seq<Field>>

  /** `db.schema[name]` */
  function FieldsOf(schema: Schema, name: string): (r: Result<seq<Field>, Error>)
    ensures r.Success? <==> HasKey(schema, name)
    ensures r.Failure? ==> r.error == KeyError(name)
  {
    match Get(schema, name)
    case Some(fs) => Success(fs)
    case None => Failure(KeyError(name))
  }

  /** `'{}.{}'.format(rel, col)` */
  function Qualify(rel: string, col: string): string {
    rel + "." + col
  }

  // ---------------------------------------------------------------------
  // The schema map

  type ColumnMap = Dict<string, seq<string>>

  /** The list stored under `k`, or the empty list. */
  function Lookup(d: ColumnMap, k: string): seq<string> {
    Get(d, k).GetOr([])
  }

  /** `d.setdefault(k, []).append(v)` */
  function Append(d: ColumnMap, k: string, v: string): ColumnMap {
    Set(d, k, Lookup(d, k) + [v])
  }

  /** The inner loop of the map's construction, over a prefix of one
      relation's fields. */
  function AddFields(d: ColumnMap, rel: string, fields: seq<Field>): ColumnMap {
    if fields == [] then d
    else Append(AddFields(d, rel, fields[..|fields| - 1]), fields[|fields| - 1].name, rel)
  }

  /** The map from column names to relations before sorting, over a prefix
      of the schema. */
  function Inverse(schema: Schema): ColumnMap {
    if schema == [] then []
    else
      var last := schema[|schema| - 1];
      AddFields(Inverse(schema[..|schema| - 1]), last.0, last.1)
  }

  /** `rel`, once for each of `fields` named `col`. */
  function Occurrences(rel: string, fields: seq<Field>, col: string): seq<string> {
    if fields == [] then []
    else Occurrences(rel, fields[..|fields| - 1], col) + (if fields[|fields| - 1].name == col then [rel] else [])
  }

  /** The relations having a field named `col`, in schema order. */
  function RelationsWith(schema: Schema, col: string): seq<string> {
    if schema == [] then []
    else
      var last := schema[|schema| - 1];
      RelationsWith(schema[..|schema| - 1], col) + Occurrences(last.0, last.1, col)
  }

  /** `[r for r in rels if pred(r)]` */
  function Filter(rels: seq<string>, relations: seq<string>, named: bool): (r: seq<string>)
    ensures forall x :: x in r ==> x in rels && ((x in relations) == named)
    ensures |r| <= |rels|
  {
    if rels == [] then []
    else (if (rels[0] in relations) == named then [rels[0]] else []) + Filter(rels[1..], relations, named)
  }

  /** `sorted(rels, key=relations.__contains__, reverse=True)`: a stable
      sort whose key puts the relations the query names before the rest. */
  function PreferNamed(rels: seq<string>, relations: seq<string>): seq<string> {
    Filter(rels, relations, true) + Filter(rels, relations, false)
  }

  /** The schema map `_make_schema_map` returns. */
  function SchemaMap(schema: Schema, relations: seq<string>): ColumnMap {
    var inv := Inverse(schema);
    seq(|inv|, i requires 0 <= i < |inv| => (inv[i].0, PreferNamed(inv[i].1, relations)))
  }

  predicate NonEmptyValues(d: ColumnMap) {
    forall e :: e in d ==> e.1 != []
  }

  lemma AppendLookup(d: ColumnMap, k: string, v: string, c: string)
    ensures Lookup(Append(d, k, v), c) == Lookup(d, c) + (if c == k then [v] else [])
  {
    GetSet(d, k, Lookup(d, k) + [v], c);
  }

  lemma AppendKeeps(d: ColumnMap, k: string, v: string)
    requires DistinctKeys(d) && NonEmptyValues(d)
    ensures DistinctKeys(Append(d, k, v)) && NonEmptyValues(Append(d, k, v))
  {
    SetKeepsDistinct(d, k, Lookup(d, k) + [v]);
    SetEntries(d, k, Lookup(d, k) + [v]);
  }

  lemma {:induction false} AddFieldsLookup(d: ColumnMap, rel: string, fields: seq<Field>, c: string)
    requires DistinctKeys(d) && NonEmptyValues(d)
    ensures DistinctKeys(AddFields(d, rel, fields)) && NonEmptyValues(AddFields(d, rel, fields))
    ensures Lookup(AddFields(d, rel, fields), c) == Lookup(d, c) + Occurrences(rel, fields, c)
    decreases |fields|
  {
    if fields != [] {
      var n := |fields| - 1;
      AddFieldsLookup(d, rel, fields[..n], c);
      AppendLookup(AddFields(d, rel, fields[..n]), fields[n].name, rel, c);
      AppendKeeps(AddFields(d, rel, fields[..n]), fields[n].name, rel);
    }
  }

  /** The unsorted map lists, under each column, the relations having that
      column in schema order, and only non-empty lists. */
  lemma {:induction false} InverseLookup(schema: Schema, c: string)
    ensures DistinctKeys(Inverse(schema)) && NonEmptyValues(Inverse(schema))
    ensures Lookup(Inverse(schema), c) == RelationsWith(schema, c)
    decreases |schema|
  {
    if schema != [] {
      var n := |schema| - 1;
      InverseLookup(schema[..n], c);
      AddFieldsLookup(Inverse(schema[..n]), schema[n].0, schema[n].1, c);
    }
  }

  /** A key is present exactly when its list is non-empty. */
  lemma LookupPresent(d: ColumnMap, c: string)
    requires NonEmptyValues(d)
    ensures Get(d, c).Some? <==> Lookup(d, c) != []
  {
    if Get(d, c).Some? {
      var i :| 0 <= i < |d| && d[i] == (c, Get(d, c).value);
      assert d[i] in d;
    }
  }

  lemma {:induction false} MappedGet(d: ColumnMap, relations: seq<string>, c: string)
    ensures var m := seq(|d|, i requires 0 <= i < |d| => (d[i].0, PreferNamed(d[i].1, relations)));
      Get(m, c) == if Get(d, c).Some? then Some(PreferNamed(Get(d, c).value, relations)) else None
  {
    var m := seq(|d|, i requires 0 <= i < |d| => (d[i].0, PreferNamed(d[i].1, relations)));
    if d != [] && d[0].0 != c {
      MappedGet(d[1..], relations, c);
      assert m[1..] == seq(|d[1..]|, i requires 0 <= i < |d[1..]| => (d[1..][i].0, PreferNamed(d[1..][i].1, relations)));
    }
  }

  /** The schema map knows exactly the columns of the schema, and lists for
      each the relations having it, named relations first. */
  lemma SchemaMapGet(schema: Schema, relations: seq<string>, c: string)
    ensures Get(SchemaMap(schema, relations), c) ==
      if RelationsWith(schema, c) == [] then None else Some(PreferNamed(RelationsWith(schema, c), relations))
  {
    InverseLookup(schema, c);
    LookupPresent(Inverse(schema), c);
    MappedGet(Inverse(schema), relations, c);
  }

  lemma {:induction false} FilterMultiset(rels: seq<string>, relations: seq<string>)
    ensures multiset(Filter(rels, relations, true)) + multiset(Filter(rels, relations, false)) == multiset(rels)
  {
    if rels != [] {
      var x, rest := rels[0], rels[1..];
      FilterMultiset(rest, relations);
      assert rels == [x] + rest;
      if x in relations {
        assert Filter(rels, relations, true) == [x] + Filter(rest, relations, true);
        assert Filter(rels, relations, false) == Filter(rest, relations, false);
      } else {
        assert Filter(rels, relations, true) == Filter(rest, relations, true);
        assert Filter(rels, relations, false) == [x] + Filter(rest, relations, false);
      }
    }
  }

  lemma {:induction false} FilterAll(rels: seq<string>, relations: seq<string>, named: bool)
    requires forall x :: x in rels ==> (x in relations) == named
    ensures Filter(rels, relations, named) == rels
    ensures Filter(rels, relations, !named) == []
  {
    if rels != [] {
      FilterAll(rels[1..], relations, named);
      assert rels == [rels[0]] + rels[1..];
    }
  }

  lemma {:induction false} FilterConcat(a: seq<string>, b: seq<string>, relations: seq<string>, named: bool)
    ensures Filter(a + b, relations, named) == Filter(a, relations, named) + Filter(b, relations, named)
  {
    if a != [] {
      FilterConcat(a[1..], b, relations, named);
      assert (a + b)[0] == a[0];
      assert (a + b)[1..] == a[1..] + b;
    } else {
      assert a + b == b;
    }
  }

  /** The sort is a permutation that puts every named relation before
      every other one and keeps the schema order within each group. */
  lemma PreferNamedSorts(rels: seq<string>, relations: seq<string>)
    ensures multiset(PreferNamed(rels, relations)) == multiset(rels)
    ensures var r := PreferNamed(rels, relations);
      forall i, j :: 0 <= i < j < |r| && r[j] in relations ==> r[i] in relations
    ensures Filter(PreferNamed(rels, relations), relations, true) == Filter(rels, relations, true)
    ensures Filter(PreferNamed(rels, relations), relations, false) == Filter(rels, relations, false)
  {
    FilterMultiset(rels, relations);
    var a := Filter(rels, relations, true);
    var b := Filter(rels, relations, false);
    FilterConcat(a, b, relations, true);
    FilterConcat(a, b, relations, false);
    FilterAll(a, relations, true);
    FilterAll(b, relations, false);
    var r := a + b;
    forall k | 0 <= k < |r|
      ensures r[k] in relations <==> k < |a|
    {
      if k < |a| {
        assert r[k] == a[k];
      } else {
        assert r[k] == b[k - |a|];
      }
    }
  }

  /** `_make_schema_map(db, relations)`. */
  method MakeSchemaMap(schema: Schema, relations: seq<string>) returns (sm: ColumnMap)
    ensures sm == SchemaMap(schema, relations)
  {
    sm := [];
    for i := 0 to |schema|
      invariant sm == Inverse(schema[..i])
    {
      var (relname, fields) := schema[i];
      assert schema[..i + 1][..i] == schema[..i];
      for j := 0 to |fields|
        invariant sm == AddFields(Inverse(schema[..i]), relname, fields[..j])
      {
        assert fields[..j + 1][..j] == fields[..j];
        sm := Set(sm, fields[j].name, Lookup(sm, fields[j].name) + [relname]);
      }
      assert fields[..|fields|] == fields;
    }
    assert schema[..|schema|] == schema;
    InverseLookup(schema, "");
    ghost var inv := sm;
    for i := 0 to |sm|
      invariant |sm| == |inv| && DistinctKeys(sm)
      invariant forall j :: 0 <= j < |sm| ==> sm[j].0 == inv[j].0
      invariant forall j :: 0 <= j < i ==> sm[j].1 == PreferNamed(inv[j].1, relations)
      invariant forall j :: i <= j < |sm| ==> sm[j].1 == inv[j].1
    {
      SetExisting(sm, i, PreferNamed(sm[i].1, relations));
      sm := Set(sm, sm[i].0, PreferNamed(sm[i].1, relations));
    }
  }

  // ---------------------------------------------------------------------
  // Name resolution

  /** The resolver `_make_qname_resolver(schema_map)` returns: a name with a
      relation before its last `.` is kept; a bare name is qualified by the
      first relation the map lists for it. */
  function Resolve(sm: ColumnMap, colname: string): (r: Result<string, Error>)
    ensures r.Failure? ==> r.error == UndefinedColumn(colname) || r.error == IndexError
  {
    var (rel, col) := RPartition(colname, '.');
    if rel != [] then Success(colname)
    else
      match Get(sm, col)
      case None => Failure(UndefinedColumn(colname))
      case Some(rels) => if rels == [] then Failure(IndexError) else Success(Qualify(rels[0], col))
  }

  /** A qualified name is returned as it is. */
  lemma ResolveQualified(sm: ColumnMap, rel: string, col: string)
    requires rel != [] && '.' !in col
    ensures Resolve(sm, rel + "." + col) == Success(rel + "." + col)
  {
    RPartitionAt(rel, col, '.');
  }

  /** A bare name resolves against the schema: to the first relation having
      the column, preferring relations the query names, or to an
      undefined-column error when no relation has it. */
  lemma ResolveBare(schema: Schema, relations: seq<string>, col: string)
    requires '.' !in col
    ensures var cands := PreferNamed(RelationsWith(schema, col), relations);
      Resolve(SchemaMap(schema, relations), col) ==
        if cands == [] then Failure(UndefinedColumn(col)) else Success(Qualify(cands[0], col))
  {
    SchemaMapGet(schema, relations, col);
    PreferNamedSorts(RelationsWith(schema, col), relations);
    if RelationsWith(schema, col) != [] {
      assert RelationsWith(schema, col)[0] in multiset(PreferNamed(RelationsWith(schema, col), relations));
    }
  }

  // ---------------------------------------------------------------------
  // The wildcard projection

  /** The names of the key fields among `fields`. */
  function KeyNamesIn(fields: seq<Field>): set<string> {
    if fields == [] then {}
    else (if fields[0].isKey then {fields[0].name} else {}) + KeyNamesIn(fields[1..])
  }

  /** The inner loop of `_project_all` over one relation's fields: every
      non-key field, and each key field whose name was not yet added. */
  function ProjectFields(name: string, fields: seq<Field>, keysAdded: set<string>): seq<(string, Field)>
  {
    if fields == [] then []
    else
      var f := fields[0];
      if !f.isKey then [(name, f)] + ProjectFields(name, fields[1..], keysAdded)
      else if f.name !in keysAdded then [(name, f)] + ProjectFields(name, fields[1..], keysAdded + {f.name})
      else ProjectFields(name, fields[1..], keysAdded)
  }

  /** The outer loop of `_project_all`, as (relation, field) pairs. */
  function ProjectPairs(relations: seq<string>, schema: Schema, keysAdded: set<string>): Result<seq<(string, Field)>, Error>
  {
    if relations == [] then Success([])
    else
      var fields :- FieldsOf(schema, relations[0]);
      var rest :- ProjectPairs(relations[1..], schema, keysAdded + KeyNamesIn(fields));
      Success(ProjectFields(relations[0], fields, keysAdded) + rest)
  }

  function QualifyAll(pairs: seq<(string, Field)>): (r: seq<string>)
    ensures |r| == |pairs|
    ensures forall i :: 0 <= i < |pairs| ==> r[i] == Qualify(pairs[i].0, pairs[i].1.name)
  {
    seq(|pairs|, i requires 0 <= i < |pairs| => Qualify(pairs[i].0, pairs[i].1.name))
  }

  /** `_project_all(relations, db)`: the projection `select *` uses. */
  function ProjectAll(relations: seq<string>, schema: Schema): Result<seq<string>, Error>
  {
    var pairs :- ProjectPairs(relations, schema, {});
    Success(QualifyAll(pairs))
  }

  /** No two key entries share a field name. */
  predicate KeysOnce(pairs: seq<(string, Field)>) {
    forall i, j :: 0 <= i < j < |pairs| && pairs[i].1.isKey && pairs[j].1.isKey ==> pairs[i].1.name != pairs[j].1.name
  }

  /** The key field names of the entries. */
  function EmittedKeys(pairs: seq<(string, Field)>): set<string> {
    if pairs == [] then {}
    else (if pairs[0].1.isKey then {pairs[0].1.name} else {}) + EmittedKeys(pairs[1..])
  }

  lemma {:induction false} EmittedMember(pairs: seq<(string, Field)>, j: nat)
    requires j < |pairs| && pairs[j].1.isKey
    ensures pairs[j].1.name in EmittedKeys(pairs)
  {
    if j > 0 {
      EmittedMember(pairs[1..], j - 1);
    }
  }

  lemma KeysOnceCons(x: (string, Field), rest: seq<(string, Field)>)
    requires KeysOnce(rest) && (x.1.isKey ==> x.1.name !in EmittedKeys(rest))
    ensures KeysOnce([x] + rest)
  {
    var p := [x] + rest;
    forall i, j | 0 <= i < j < |p| && p[i].1.isKey && p[j].1.isKey
      ensures p[i].1.name != p[j].1.name
    {
      assert p[j] == rest[j - 1];
      if i == 0 {
        EmittedMember(rest, j - 1);
      } else {
        assert p[i] == rest[i - 1];
      }
    }
  }

  lemma {:induction false} EmittedConcat(a: seq<(string, Field)>, b: seq<(string, Field)>)
    ensures EmittedKeys(a + b) == EmittedKeys(a) + EmittedKeys(b)
  {
    if a != [] {
      EmittedConcat(a[1..], b);
      assert (a + b)[1..] == a[1..] + b;
    } else {
      assert a + b == b;
    }
  }

  lemma KeysOnceConcat(a: seq<(string, Field)>, b: seq<(string, Field)>)
    requires KeysOnce(a) && KeysOnce(b) && EmittedKeys(a) !! EmittedKeys(b)
    ensures KeysOnce(a + b)
  {
    var p := a + b;
    forall i, j | 0 <= i < j < |p| && p[i].1.isKey && p[j].1.isKey
      ensures p[i].1.name != p[j].1.name
    {
      if j < |a| {
        assert p[i] == a[i] && p[j] == a[j];
      } else if i >= |a| {
        assert p[i] == b[i - |a|] && p[j] == b[j - |a|];
      } else {
        assert p[i] == a[i] && p[j] == b[j - |a|];
        EmittedMember(a, i);
        EmittedMember(b, j - |a|);
      }
    }
  }

  /** One relation contributes its key names not yet added, each once. */
  lemma {:induction false} ProjectFieldsKeys(name: string, fields: seq<Field>, keysAdded: set<string>)
    ensures KeysOnce(ProjectFields(name, fields, keysAdded))
    ensures EmittedKeys(ProjectFields(name, fields, keysAdded)) == KeyNamesIn(fields) - keysAdded
  {
    if fields != [] {
      var f := fields[0];
      var seen := if f.isKey && f.name !in keysAdded then keysAdded + {f.name} else keysAdded;
      ProjectFieldsKeys(name, fields[1..], seen);
      var rest := ProjectFields(name, fields[1..], seen);
      if !f.isKey || f.name !in keysAdded {
        KeysOnceCons((name, f), rest);
      }
    }
  }

  /** One relation contributes only its own fields, and all its non-key
      fields. */
  lemma {:induction false} ProjectFieldsSources(name: string, fields: seq<Field>, keysAdded: set<string>)
    ensures forall e :: e in ProjectFields(name, fields, keysAdded) ==> e.0 == name && e.1 in fields
    ensures forall f :: f in fields && !f.isKey ==> (name, f) in ProjectFields(name, fields, keysAdded)
  {
    if fields != [] {
      var f := fields[0];
      var seen := if f.isKey && f.name !in keysAdded then keysAdded + {f.name} else keysAdded;
      ProjectFieldsSources(name, fields[1..], seen);
      assert fields == [f] + fields[1..];
      var rest := ProjectFields(name, fields[1..], seen);
      var p := ProjectFields(name, fields, keysAdded);
      if !f.isKey || f.name !in keysAdded {
        assert p == [(name, f)] + rest;
      }
    }
  }

  /** The key names of the named relations' fields. */
  function KeyNamesOf(relations: seq<string>, schema: Schema): set<string> {
    if relations == [] then {}
    else
      (match Get(schema, relations[0]) case Some(fs) => KeyNamesIn(fs) case None => {}) +
      KeyNamesOf(relations[1..], schema)
  }

  /** `db.schema[rel]` has a key field named `k`. */
  predicate HasKeyField(schema: Schema, rel: string, k: string) {
    match Get(schema, rel) case Some(fs) => k in KeyNamesIn(fs) case None => false
  }

  /** The projection fails, with a KeyError for a named relation, exactly
      when some named relation is not in the schema. */
  lemma {:induction false} ProjectPairsFails(relations: seq<string>, schema: Schema, keysAdded: set<string>)
    ensures ProjectPairs(relations, schema, keysAdded).Failure? <==> exists i :: 0 <= i < |relations| && !HasKey(schema, relations[i])
    ensures ProjectPairs(relations, schema, keysAdded).Failure? ==>
      exists i :: 0 <= i < |relations| && ProjectPairs(relations, schema, keysAdded).error == KeyError(relations[i])
  {
    if relations != [] {
      var seen := keysAdded + (match Get(schema, relations[0]) case Some(fs) => KeyNamesIn(fs) case None => {});
      ProjectPairsFails(relations[1..], schema, seen);
      assert forall i :: 1 <= i < |relations| ==> relations[i] == relations[1..][i - 1];
      if ProjectPairs(relations[1..], schema, seen).Failure? {
        var i :| 0 <= i < |relations[1..]| && ProjectPairs(relations[1..], schema, seen).error == KeyError(relations[1..][i]);
        assert relations[1..][i] == relations[i + 1];
      }
    }
  }

  /** Each key name of the named relations appears exactly once. */
  lemma {:induction false} ProjectPairsKeys(relations: seq<string>, schema: Schema, keysAdded: set<string>)
    requires ProjectPairs(relations, schema, keysAdded).Success?
    ensures KeysOnce(ProjectPairs(relations, schema, keysAdded).value)
    ensures EmittedKeys(ProjectPairs(relations, schema, keysAdded).value) == KeyNamesOf(relations, schema) - keysAdded
  {
    if relations != [] {
      var fields := Get(schema, relations[0]).value;
      var seen := keysAdded + KeyNamesIn(fields);
      ProjectPairsKeys(relations[1..], schema, seen);
      ProjectFieldsKeys(relations[0], fields, keysAdded);
      var a := ProjectFields(relations[0], fields, keysAdded);
      var b := ProjectPairs(relations[1..], schema, seen).value;
      EmittedConcat(a, b);
      KeysOnceConcat(a, b);
    }
  }

  /** `f` is one of the fields of `db.schema[rel]`. */
  predicate FieldOf(schema: Schema, rel: string, f: Field) {
    match Get(schema, rel) case Some(fs) => f in fs case None => false
  }

  /** `relations[i]` is the first named relation with a key field named `k`. */
  predicate FirstWithKey(relations: seq<string>, schema: Schema, k: string, i: int) {
    0 <= i < |relations| && HasKeyField(schema, relations[i], k) &&
    forall j :: 0 <= j < i ==> !HasKeyField(schema, relations[j], k)
  }

  lemma {:induction false} KeyNamesInMember(fields: seq<Field>, f: Field)
    requires f in fields && f.isKey
    ensures f.name in KeyNamesIn(fields)
  {
    if fields[0] != f {
      KeyNamesInMember(fields[1..], f);
    }
  }

  /** Every non-key field of every named relation is projected. */
  lemma {:induction false} ProjectPairsNonKeys(relations: seq<string>, schema: Schema, keysAdded: set<string>)
    requires ProjectPairs(relations, schema, keysAdded).Success?
    ensures forall i, f :: 0 <= i < |relations| && FieldOf(schema, relations[i], f) && !f.isKey ==>
      (relations[i], f) in ProjectPairs(relations, schema, keysAdded).value
  {
    if relations != [] {
      var fields := Get(schema, relations[0]).value;
      var seen := keysAdded + KeyNamesIn(fields);
      var a := ProjectFields(relations[0], fields, keysAdded);
      var b := ProjectPairs(relations[1..], schema, seen).value;
      ProjectPairsNonKeys(relations[1..], schema, seen);
      ProjectFieldsSources(relations[0], fields, keysAdded);
      forall i, f | 0 <= i < |relations| && FieldOf(schema, relations[i], f) && !f.isKey
        ensures (relations[i], f) in a + b
      {
        if i > 0 {
          assert relations[i] == relations[1..][i - 1];
        }
      }
    }
  }

  /** Every projected entry is a field of a named relation, and a key
      entry is qualified by the first named relation having that key. */
  lemma {:induction false} ProjectPairsSources(relations: seq<string>, schema: Schema, keysAdded: set<string>)
    requires ProjectPairs(relations, schema, keysAdded).Success?
    ensures forall e :: e in ProjectPairs(relations, schema, keysAdded).value ==>
      exists i :: (0 <= i < |relations| && e.0 == relations[i] && FieldOf(schema, relations[i], e.1) &&
        (e.1.isKey ==> FirstWithKey(relations, schema, e.1.name, i)))
  {
    if relations != [] {
      var fields := Get(schema, relations[0]).value;
      var seen := keysAdded + KeyNamesIn(fields);
      var a := ProjectFields(relations[0], fields, keysAdded);
      var b := ProjectPairs(relations[1..], schema, seen).value;
      ProjectPairsSources(relations[1..], schema, seen);
      ProjectPairsKeys(relations[1..], schema, seen);
      ProjectFieldsSources(relations[0], fields, keysAdded);
      forall e: (string, Field) | e in a + b
        ensures exists i :: (0 <= i < |relations| && e.0 == relations[i] && FieldOf(schema, relations[i], e.1) &&
          (e.1.isKey ==> FirstWithKey(relations, schema, e.1.name, i)))
      {
        if e in a {
          if e.1.isKey {
            KeyNamesInMember(fields, e.1);
          }
          assert FieldOf(schema, relations[0], e.1);
        } else {
          var i' :| 0 <= i' < |relations[1..]| && e.0 == relations[1..][i'] && FieldOf(schema, relations[1..][i'], e.1) &&
            (e.1.isKey ==> FirstWithKey(relations[1..], schema, e.1.name, i'));
          if e.1.isKey {
            var q :| 0 <= q < |b| && b[q] == e;
            EmittedMember(b, q);
            forall j | 0 <= j < i' + 1
              ensures !HasKeyField(schema, relations[j], e.1.name)
            {
              if j > 0 {
                assert relations[j] == relations[1..][j - 1];
              }
            }
          }
          assert relations[i' + 1] == relations[1..][i'];
        }
      }
    }
  }

  // ---------------------------------------------------------------------
  // The key map

  /** The names of the key fields, in field order. */
  function KeyNames(fields: seq<Field>): (r: seq<string>)
    ensures forall k :: k in r <==> k in KeyNamesIn(fields)
  {
    if fields == [] then []
    else (if fields[0].isKey then [fields[0].name] else []) + KeyNames(fields[1..])
  }

  /** `_make_keymap(db)` */
  function KeyMap(schema: Schema): (r: Dict<string, seq<string>>)
    ensures Keys(r) == Keys(schema)
  {
    seq(|schema|, i requires 0 <= i < |schema| => (schema[i].0, KeyNames(schema[i].1)))
  }

  /** The key map lists, for each relation of the schema, its key names. */
  lemma {:induction false} KeyMapGet(schema: Schema, rel: string)
    ensures Get(KeyMap(schema), rel) == match Get(schema, rel) case Some(fs) => Some(KeyNames(fs)) case None => None
  {
    if schema != [] && schema[0].0 != rel {
      KeyMapGet(schema[1..], rel);
      assert KeyMap(schema)[1..] == KeyMap(schema[1..]);
    }
  }
}
