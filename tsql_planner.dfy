/** Join planning (`_plan_joins`, `_pivot_relations`): which relations a
    query must join, which columns each contributes, and in which order
    they are joined so that every join after the first shares a key with
    what has been joined already. */
module TsqlPlanner {
  import opened Wrappers
  import opened PyStrings
  import opened Dicts
  import opened TsqlSyntax
  import opened TsqlSchema

  /** `util._connected_components(nodes, edges)`: the connected components
      of an undirected graph, taken as given. */
  type ComponentsOracle = (set<string>, set<(string, string)>) -> seq<set<string>>

  /** The elements of a list, as a set. */
  function Elems(xs: seq<string>): set<string> {
    set x | x in xs
  }

  // ---------------------------------------------------------------------
  // The key graph

  /** `add_edges(keys)`: an edge between every two keys of one relation. */
  function CliqueEdges(keys: seq<string>): set<(string, string)> {
    set i, j | 0 <= i < j < |keys| :: (keys[i], keys[j])
  }

  /** The nodes of the key graph of `rels`: all their keys. */
  function KeyNodes(keymap: ColumnMap, rels: set<string>): set<string> {
    set rel, k | rel in rels && k in Lookup(keymap, rel) :: k
  }

  /** The edges of the key graph of `rels`: a clique over each relation's keys. */
  function KeyEdges(keymap: ColumnMap, rels: set<string>): set<(string, string)> {
    set rel, e | rel in rels && e in CliqueEdges(Lookup(keymap, rel)) :: e
  }

  lemma KeyGraphAdd(keymap: ColumnMap, rels: set<string>, rel: string)
    ensures KeyNodes(keymap, rels + {rel}) == KeyNodes(keymap, rels) + Elems(Lookup(keymap, rel))
    ensures KeyEdges(keymap, rels + {rel}) == KeyEdges(keymap, rels) + CliqueEdges(Lookup(keymap, rel))
  {
  }

  /** The key graph of `rels` has at most one connected component. */
  predicate Connected(keymap: ColumnMap, rels: set<string>, components: ComponentsOracle) {
    |components(KeyNodes(keymap, rels), KeyEdges(keymap, rels))| <= 1
  }

  /** How many of the components share a key with `keys`. */
  function Touching(comps: seq<set<string>>, keys: seq<string>): nat {
    if comps == [] then 0
    else (if comps[0] * Elems(keys) != {} then 1 else 0) + Touching(comps[1..], keys)
  }

  /** A relation that may serve as a pivot: not yet selected, with more
      than one key, and touching at least two components. */
  predicate Candidate(entry: (string, seq<string>), selected: set<string>, comps: seq<set<string>>) {
    entry.0 !in selected && |entry.1| > 1 && Touching(comps, entry.1) > 1
  }

  /** Pivots are new relations of the key map, each with more than one key. */
  predicate Pivots(keymap: ColumnMap, relset: set<string>, pivots: set<string>) {
    pivots !! relset && forall p :: p in pivots ==> HasKey(keymap, p) && |Lookup(keymap, p)| > 1
  }

  /** The entries of a dict as a set of keys. */
  function KeySet(d: ColumnMap): set<string> {
    set i | 0 <= i < |d| :: d[i].0
  }

  /** The `for rel, keys in keymap.items()` search of one pass: the first
      candidate in key-map order. */
  method FindPivot(keymap: ColumnMap, selected: set<string>, comps: seq<set<string>>) returns (r: Option<nat>)
    ensures r.Some? ==> r.value < |keymap| && Candidate(keymap[r.value], selected, comps)
    ensures r.Some? ==> forall j :: 0 <= j < r.value ==> !Candidate(keymap[j], selected, comps)
    ensures r.None? ==> forall j :: 0 <= j < |keymap| ==> !Candidate(keymap[j], selected, comps)
  {
    for i := 0 to |keymap|
      invariant forall j :: 0 <= j < i ==> !Candidate(keymap[j], selected, comps)
    {
      if Candidate(keymap[i], selected, comps) {
        return Some(i);
      }
    }
    return None;
  }

  lemma LookupAt(d: ColumnMap, i: nat)
    requires DistinctKeys(d) && i < |d|
    ensures Get(d, d[i].0) == Some(d[i].1)
  {
    SetExisting(d, i, d[i].1);
    GetSet(d, d[i].0, d[i].1, d[i].0);
    assert d[i := (d[i].0, d[i].1)] == d;
  }

  /** `_pivot_relations(relset, keymap, db)` */
  method PivotRelations(relset: set<string>, keymap: ColumnMap, components: ComponentsOracle) returns (r: Result<set<string>, Error>)
    requires DistinctKeys(keymap)
    ensures r.Failure? ==> r.error.KeyError? || r.error == CouldNotFindRelationToJoin(relset)
    ensures r.Failure? && r.error.KeyError? ==> r.error.key in relset && !HasKey(keymap, r.error.key)
    ensures (forall rel :: rel in relset ==> HasKey(keymap, rel)) <==> !(r.Failure? && r.error.KeyError?)
    ensures r.Success? ==> Pivots(keymap, relset, r.value) && Connected(keymap, relset + r.value, components)
    ensures r.Failure? && r.error.CouldNotFindRelationToJoin? ==>
      exists pivots :: Pivots(keymap, relset, pivots) && !Connected(keymap, relset + pivots, components) &&
        forall j :: 0 <= j < |keymap| ==>
          !Candidate(keymap[j], relset + pivots, components(KeyNodes(keymap, relset + pivots), KeyEdges(keymap, relset + pivots)))
  {
    var nodes: set<string> := {};
    var edges: set<(string, string)> := {};
    var todo := relset;
    while todo != {}
      invariant todo <= relset
      invariant forall rel :: rel in relset - todo ==> HasKey(keymap, rel)
      invariant nodes == KeyNodes(keymap, relset - todo) && edges == KeyEdges(keymap, relset - todo)
      decreases todo
    {
      var rel :| rel in todo;
      var keys := Get(keymap, rel);
      if keys.None? {
        return Failure(KeyError(rel));
      }
      KeyGraphAdd(keymap, relset - todo, rel);
      nodes := nodes + Elems(keys.value);
      edges := edges + CliqueEdges(keys.value);
      assert relset - todo + {rel} == relset - (todo - {rel});
      todo := todo - {rel};
    }
    var pivots: set<string> := {};
    var comps := components(nodes, edges);
    while |comps| > 1
      invariant Pivots(keymap, relset, pivots) && pivots <= KeySet(keymap)
      invariant nodes == KeyNodes(keymap, relset + pivots) && edges == KeyEdges(keymap, relset + pivots)
      invariant comps == components(nodes, edges)
      decreases KeySet(keymap) - pivots
    {
      var found := FindPivot(keymap, relset + pivots, comps);
      if found.None? {
        return Failure(CouldNotFindRelationToJoin(relset));
      }
      var (rel, keys) := keymap[found.value];
      LookupAt(keymap, found.value);
      KeyGraphAdd(keymap, relset + pivots, rel);
      nodes := nodes + Elems(keys);
      edges := edges + CliqueEdges(keys);
      assert relset + pivots + {rel} == relset + (pivots + {rel});
      pivots := pivots + {rel};
      comps := components(nodes, edges);
    }
    return Success(pivots);
  }

  // ---------------------------------------------------------------------
  // Requested columns

  /** The relation parts of qualified names. */
  function QRels(qnames: seq<string>): set<string> {
    set q | q in qnames :: RPartition(q, '.').0
  }

  /** What the first loop of `_plan_joins` has built after the names `qs`. */
  ghost predicate Collected(qs: seq<string>, joinmap: ColumnMap, added: set<string>, rels: set<string>) {
    added == Elems(qs) && rels == QRels(qs) &&
    DistinctKeys(joinmap) && NonEmptyValues(joinmap) &&
    (forall e :: e in joinmap ==> e.0 in rels) &&
    (forall q :: q in qs ==> RPartition(q, '.').1 in Lookup(joinmap, RPartition(q, '.').0)) &&
    (forall rel, c :: c in Lookup(joinmap, rel) ==> exists q :: q in qs && RPartition(q, '.') == (rel, c))
  }

  /** The first loop of `_plan_joins`: each distinct qualified name adds
      its column to its relation's entry of `joinmap`. */
  method CollectColumns(qnames: seq<string>) returns (joinmap: ColumnMap, added: set<string>, rels: set<string>)
    ensures Collected(qnames, joinmap, added, rels)
  {
    joinmap, added, rels := [], {}, {};
    for i := 0 to |qnames|
      invariant Collected(qnames[..i], joinmap, added, rels)
    {
      var qname := qnames[i];
      assert qnames[..i + 1] == qnames[..i] + [qname];
      if qname !in added {
        CollectStep(qnames[..i], qname, joinmap, added, rels);
        rels := rels + {RPartition(qname, '.').0};
        joinmap := Append(joinmap, RPartition(qname, '.').0, RPartition(qname, '.').1);
        added := added + {qname};
      } else {
        CollectSkip(qnames[..i], qname, joinmap, added, rels);
      }
    }
    assert qnames[..|qnames|] == qnames;
  }

  /** One step of `CollectColumns` for a name not seen before. */
  lemma CollectStep(qs: seq<string>, qname: string, joinmap: ColumnMap, added: set<string>, rels: set<string>)
    requires Collected(qs, joinmap, added, rels)
    ensures Collected(qs + [qname], Append(joinmap, RPartition(qname, '.').0, RPartition(qname, '.').1),
                      added + {qname}, rels + {RPartition(qname, '.').0})
  {
    var (rel, col) := RPartition(qname, '.');
    ElemsSnoc(qs, qname);
    AppendKeeps(joinmap, rel, col);
    SetEntries(joinmap, rel, Lookup(joinmap, rel) + [col]);
    CollectCovers(qs, qname, joinmap);
    CollectSources(qs, qname, joinmap);
  }

  lemma AppendLookups(joinmap: ColumnMap, rel: string, col: string)
    ensures forall r :: Lookup(Append(joinmap, rel, col), r) == Lookup(joinmap, r) + (if r == rel then [col] else [])
  {
    forall r: string ensures Lookup(Append(joinmap, rel, col), r) == Lookup(joinmap, r) + (if r == rel then [col] else []) {
      AppendLookup(joinmap, rel, col, r);
    }
  }

  lemma CollectCovers(qs: seq<string>, qname: string, joinmap: ColumnMap)
    requires forall q :: q in qs ==> RPartition(q, '.').1 in Lookup(joinmap, RPartition(q, '.').0)
    ensures var jm := Append(joinmap, RPartition(qname, '.').0, RPartition(qname, '.').1);
      forall q :: q in qs + [qname] ==> RPartition(q, '.').1 in Lookup(jm, RPartition(q, '.').0)
  {
    AppendLookups(joinmap, RPartition(qname, '.').0, RPartition(qname, '.').1);
  }

  lemma CollectSources(qs: seq<string>, qname: string, joinmap: ColumnMap)
    requires forall rel, c :: c in Lookup(joinmap, rel) ==> exists q :: q in qs && RPartition(q, '.') == (rel, c)
    ensures var jm := Append(joinmap, RPartition(qname, '.').0, RPartition(qname, '.').1);
      forall r, c :: c in Lookup(jm, r) ==> exists q :: q in qs + [qname] && RPartition(q, '.') == (r, c)
  {
    var (rel, col) := RPartition(qname, '.');
    var jm := Append(joinmap, rel, col);
    AppendLookups(joinmap, rel, col);
    forall r, c | c in Lookup(jm, r) ensures exists q :: q in qs + [qname] && RPartition(q, '.') == (r, c) {
      if c in Lookup(joinmap, r) {
        var q :| q in qs && RPartition(q, '.') == (r, c);
        assert q in qs + [qname];
      } else {
        assert qname in qs + [qname];
      }
    }
  }

  lemma ElemsSnoc(qs: seq<string>, qname: string)
    ensures Elems(qs + [qname]) == Elems(qs) + {qname}
    ensures QRels(qs + [qname]) == QRels(qs) + {RPartition(qname, '.').0}
  {
    assert forall q :: q in qs + [qname] <==> q in qs || q == qname;
  }

  /** One step of `CollectColumns` for a name seen before. */
  lemma CollectSkip(qs: seq<string>, qname: string, joinmap: ColumnMap, added: set<string>, rels: set<string>)
    requires Collected(qs, joinmap, added, rels) && qname in added
    ensures Collected(qs + [qname], joinmap, added, rels)
  {
    var qs' := qs + [qname];
    ElemsSnoc(qs, qname);
    forall r, c | c in Lookup(joinmap, r) ensures exists q :: q in qs' && RPartition(q, '.') == (r, c) {
      var q :| q in qs && RPartition(q, '.') == (r, c);
      assert q in qs';
    }
  }

  /** The third loop of `_plan_joins`: every relation of `relset` requests
      each of its key fields whose qualified name was not requested
      already. The relations are visited in an unspecified order, as
      Python iterates a set. */
  method AddKeys(joinmap: ColumnMap, added: set<string>, relset: set<string>, schema: Schema) returns (jm: ColumnMap)
    requires forall rel :: rel in relset ==> HasKey(schema, rel)
    requires DistinctKeys(joinmap) && NonEmptyValues(joinmap)
    ensures DistinctKeys(jm) && NonEmptyValues(jm)
    ensures forall e :: e in jm ==> e.0 in relset || HasKey(joinmap, e.0)
    ensures forall rel, c :: c in Lookup(joinmap, rel) ==> c in Lookup(jm, rel)
    ensures forall rel, f :: rel in relset && FieldOf(schema, rel, f) && f.isKey && Qualify(rel, f.name) !in added ==>
      f.name in Lookup(jm, rel)
    ensures forall rel, c :: c in Lookup(jm, rel) ==> c in Lookup(joinmap, rel) || HasKeyField(schema, rel, c)
  {
    jm := joinmap;
    var todo := relset;
    while todo != {}
      invariant todo <= relset
      invariant DistinctKeys(jm) && NonEmptyValues(jm)
      invariant forall e :: e in jm ==> e.0 in relset || HasKey(joinmap, e.0)
      invariant forall rel, c :: c in Lookup(joinmap, rel) ==> c in Lookup(jm, rel)
      invariant forall rel, f :: rel in relset - todo && FieldOf(schema, rel, f) && f.isKey && Qualify(rel, f.name) !in added ==>
        f.name in Lookup(jm, rel)
      invariant forall rel, c :: c in Lookup(jm, rel) ==> c in Lookup(joinmap, rel) || HasKeyField(schema, rel, c)
      decreases todo
    {
      var relation :| relation in todo;
      var fields := Get(schema, relation).value;
      ghost var before := jm;
      for j := 0 to |fields|
        invariant DistinctKeys(jm) && NonEmptyValues(jm)
        invariant forall e :: e in jm ==> e.0 in relset || HasKey(joinmap, e.0)
        invariant forall rel, c :: c in Lookup(before, rel) ==> c in Lookup(jm, rel)
        invariant forall f :: f in fields[..j] && f.isKey && Qualify(relation, f.name) !in added ==> f.name in Lookup(jm, relation)
        invariant forall rel, c :: c in Lookup(jm, rel) ==> c in Lookup(joinmap, rel) || HasKeyField(schema, rel, c)
      {
        var field := fields[j];
        assert fields[..j + 1] == fields[..j] + [field];
        if field.isKey && Qualify(relation, field.name) !in added {
          KeyNamesInMember(fields, field);
          AppendKeeps(jm, relation, field.name);
          SetEntries(jm, relation, Lookup(jm, relation) + [field.name]);
          forall r ensures Lookup(Append(jm, relation, field.name), r) == Lookup(jm, r) + (if r == relation then [field.name] else []) {
            AppendLookup(jm, relation, field.name, r);
          }
          jm := Append(jm, relation, field.name);
        }
      }
      assert fields[..|fields|] == fields;
      todo := todo - {relation};
    }
  }

  // ---------------------------------------------------------------------
  // Join order

  type Plan = seq<(string, seq<string>)>

  /** `joined_keys` after joining `joins`: the keys of their relations. */
  function JoinedKeys(joins: Plan, keymap: ColumnMap): set<string> {
    if joins == [] then {}
    else JoinedKeys(joins[..|joins| - 1], keymap) + Elems(Lookup(keymap, joins[|joins| - 1].0))
  }

  /** Every join after the first requests a column among the keys of the
      relations joined before it. */
  predicate JoinOrder(joins: Plan, keymap: ColumnMap) {
    forall k :: 0 < k < |joins| ==> Elems(joins[k].1) * JoinedKeys(joins[..k], keymap) != {}
  }

  /** `not joins or joined_keys.intersection(joinmap[rel])` */
  predicate Joinable(entry: (string, seq<string>), first: bool, joinedKeys: set<string>) {
    first || Elems(entry.1) * joinedKeys != {}
  }

  /** One pass of the `for rel in list(joinmap)` search: the first entry
      that may be joined now. */
  method FindJoinable(jm: Plan, first: bool, joinedKeys: set<string>) returns (r: Option<nat>)
    ensures r.Some? ==> r.value < |jm| && Joinable(jm[r.value], first, joinedKeys)
    ensures r.Some? ==> forall j :: 0 <= j < r.value ==> !Joinable(jm[j], first, joinedKeys)
    ensures r.None? ==> forall j :: 0 <= j < |jm| ==> !Joinable(jm[j], first, joinedKeys)
  {
    for i := 0 to |jm|
      invariant forall j :: 0 <= j < i ==> !Joinable(jm[j], first, joinedKeys)
    {
      if Joinable(jm[i], first, joinedKeys) {
        return Some(i);
      }
    }
    return None;
  }

  /** What the ordering loop keeps: the joined and the waiting entries
      together are the original ones, each relation once, and the joins
      so far are in a valid order. */
  predicate OrderState(joins: Plan, jm: Plan, joinmap: ColumnMap, keymap: ColumnMap) {
    multiset(joins) + multiset(jm) == multiset(joinmap) &&
    JoinOrder(joins, keymap) && DistinctKeys(joins) && DistinctKeys(jm) &&
    forall x, y :: x in joins && y in jm ==> x.0 != y.0
  }

  /** Appending a joinable entry keeps the join order valid. */
  lemma JoinOrderStep(joins: Plan, e: (string, seq<string>), keymap: ColumnMap)
    requires JoinOrder(joins, keymap) && Joinable(e, joins == [], JoinedKeys(joins, keymap))
    ensures JoinOrder(joins + [e], keymap)
  {
    var joins' := joins + [e];
    assert joins'[..|joins|] == joins;
    forall k | 0 < k < |joins'|
      ensures Elems(joins'[k].1) * JoinedKeys(joins'[..k], keymap) != {}
    {
      if k < |joins| {
        assert joins'[..k] == joins[..k];
      }
    }
  }

  /** Moving an entry from the waiting list to the join list keeps every
      relation once. */
  lemma DistinctStep(joins: Plan, jm: Plan, i: nat)
    requires DistinctKeys(joins) && DistinctKeys(jm) && i < |jm|
    requires forall x, y :: x in joins && y in jm ==> x.0 != y.0
    ensures DistinctKeys(joins + [jm[i]]) && DistinctKeys(jm[..i] + jm[i + 1..])
    ensures forall x, y :: x in joins + [jm[i]] && y in jm[..i] + jm[i + 1..] ==> x.0 != y.0
  {
    DistinctRemove(jm, i);
    var joins' := joins + [jm[i]];
    assert forall x :: x in joins' ==> x in joins || x == jm[i];
    forall p, q | 0 <= p < q < |joins'|
      ensures joins'[p].0 != joins'[q].0
    {
      assert joins'[p] in joins;
      if q < |joins| {
        assert joins'[q] == joins[q];
      }
    }
  }

  /** Moving a joinable entry from the waiting list to the join list keeps
      the loop's state. */
  lemma OrderStep(joins: Plan, jm: Plan, i: nat, joinmap: ColumnMap, keymap: ColumnMap)
    requires OrderState(joins, jm, joinmap, keymap) && i < |jm|
    requires Joinable(jm[i], joins == [], JoinedKeys(joins, keymap))
    ensures OrderState(joins + [jm[i]], jm[..i] + jm[i + 1..], joinmap, keymap)
    ensures JoinedKeys(joins + [jm[i]], keymap) == JoinedKeys(joins, keymap) + Elems(Lookup(keymap, jm[i].0))
  {
    assert (joins + [jm[i]])[..|joins|] == joins;
    assert jm == jm[..i] + [jm[i]] + jm[i + 1..];
    JoinOrderStep(joins, jm[i], keymap);
    DistinctStep(joins, jm, i);
  }

  /** The final loop of `_plan_joins`: entries leave `joinmap` one at a time
      for the join list, each as soon as it shares a column with the keys
      joined so far. */
  method OrderJoins(joinmap: ColumnMap, keymap: ColumnMap) returns (r: Result<Plan, Error>)
    requires DistinctKeys(joinmap)
    requires forall e :: e in joinmap ==> HasKey(keymap, e.0)
    ensures r.Failure? ==> r.error == InfiniteLoopDetected
    ensures r.Success? ==> multiset(r.value) == multiset(joinmap) && JoinOrder(r.value, keymap)
    ensures r.Success? ==> DistinctKeys(r.value)
    ensures r.Failure? && r.error == InfiniteLoopDetected ==>
      exists joins: Plan, rest: Plan :: multiset(joins) + multiset(rest) == multiset(joinmap) &&
        joins != [] && rest != [] && JoinOrder(joins, keymap) &&
        forall j :: 0 <= j < |rest| ==> Elems(rest[j].1) * JoinedKeys(joins, keymap) == {}
  {
    var jm: Plan := joinmap;
    var joins: Plan := [];
    var joinedKeys: set<string> := {};
    var stuck := false;
    while jm != [] && !stuck
      invariant OrderState(joins, jm, joinmap, keymap) && joinedKeys == JoinedKeys(joins, keymap)
      invariant stuck ==> joins != [] && jm != [] && forall j :: 0 <= j < |jm| ==> !Joinable(jm[j], false, joinedKeys)
      decreases |jm|, !stuck
    {
      var found := FindJoinable(jm, joins == [], joinedKeys);
      if found.None? {
        assert !Joinable(jm[0], joins == [], joinedKeys);
        stuck := true;
      } else {
        var i := found.value;
        WaitingEntry(joins, jm, joinmap, i);
        var keys := Get(keymap, jm[i].0).value;
        OrderStep(joins, jm, i, joinmap, keymap);
        joins := joins + [jm[i]];
        jm := jm[..i] + jm[i + 1..];
        joinedKeys := joinedKeys + Elems(keys);
      }
    }
    if stuck {
      r := Failure(InfiniteLoopDetected);
    } else {
      assert multiset(joins) == multiset(joinmap);
      r := Success(joins);
    }
  }

  lemma WaitingEntry(joins: Plan, jm: Plan, joinmap: ColumnMap, i: nat)
    requires multiset(joins) + multiset(jm) == multiset(joinmap) && i < |jm|
    ensures jm[i] in joinmap
  {
    assert jm[i] in multiset(jm);
    assert jm[i] in multiset(joinmap);
  }

  /** Removing an entry from a dict with distinct keys. */
  lemma DistinctRemove(d: Plan, i: nat)
    requires DistinctKeys(d) && i < |d|
    ensures var rest := d[..i] + d[i + 1..];
      DistinctKeys(rest) && (forall y :: y in rest ==> y in d && y.0 != d[i].0)
  {
    var rest := d[..i] + d[i + 1..];
    assert forall p :: 0 <= p < |rest| ==> rest[p] == d[if p < i then p else p + 1];
  }

  // ---------------------------------------------------------------------
  // The plan

  /** `db.schema[rel]` has at least one key field. */
  predicate HasKeys(schema: Schema, rel: string) {
    match Get(schema, rel) case Some(fs) => KeyNamesIn(fs) != {} case None => false
  }

  /** No key field name contains a `.`, so that a qualified key name splits
      back into its relation and field. */
  ghost predicate DotFreeKeys(schema: Schema) {
    forall rel, f :: FieldOf(schema, rel, f) && f.isKey ==> '.' !in f.name
  }

  /** The relations a query names or refers to through a column. */
  function Referenced(relations: seq<string>, qnames: seq<string>): set<string> {
    Elems(relations) + QRels(qnames)
  }

  lemma KeyMapDistinct(schema: Schema)
    requires DistinctKeys(schema)
    ensures DistinctKeys(KeyMap(schema))
  {
    var km := KeyMap(schema);
    assert forall i :: 0 <= i < |km| ==> km[i].0 == schema[i].0;
  }

  lemma KeyMapHasKey(schema: Schema, rel: string)
    ensures HasKey(KeyMap(schema), rel) <==> HasKey(schema, rel)
  {
    KeyMapGet(schema, rel);
  }

  /** An entry of a dict with distinct keys is what a lookup of its key finds. */
  lemma EntryLookup(d: ColumnMap, e: (string, seq<string>))
    requires DistinctKeys(d) && e in d
    ensures Lookup(d, e.0) == e.1
  {
    var i :| 0 <= i < |d| && d[i] == e;
    LookupAt(d, i);
  }

  /** A relation whose lookup is non-empty has an entry. */
  lemma LookupEntry(d: ColumnMap, rel: string)
    requires Lookup(d, rel) != []
    ensures exists e :: e in d && e == (rel, Lookup(d, rel))
  {
    var i :| 0 <= i < |d| && d[i] == (rel, Get(d, rel).value);
    assert d[i] in d;
  }

  /** Every requested column is in its relation's entry of the plan. */
  ghost predicate Covers(plan: Plan, qnames: seq<string>) {
    forall q :: q in qnames ==>
      (RPartition(q, '.').0, Lookup(plan, RPartition(q, '.').0)) in plan && RPartition(q, '.').1 in Lookup(plan, RPartition(q, '.').0)
  }

  /** Every planned column was requested or is a key of its relation. */
  ghost predicate Sourced(plan: Plan, qnames: seq<string>, schema: Schema) {
    forall e, c :: e in plan && c in e.1 ==>
      (exists q :: q in qnames && RPartition(q, '.') == (e.0, c)) || HasKeyField(schema, e.0, c)
  }

  /** The plan joins relations of `all` only, and, when qualified key names
      split back into relation and field, every relation of `all` that has
      a key and every key of each planned relation. */
  ghost predicate Spans(plan: Plan, all: set<string>, schema: Schema) {
    (forall e :: e in plan ==> e.0 in all) &&
    (DotFreeKeys(schema) ==> forall rel :: rel in all && HasKeys(schema, rel) ==> (rel, Lookup(plan, rel)) in plan) &&
    (DotFreeKeys(schema) ==> forall e, f :: e in plan && FieldOf(schema, e.0, f) && f.isKey ==> f.name in e.1)
  }

  /** `_plan_joins(projection, condition_fields, relations, db)`. The
      connected-components oracle stands for `util._connected_components`;
      the relations of `relset` are visited in an unspecified order. */
  method PlanJoins(projection: seq<string>, condFields: seq<string>, relations: seq<string>, schema: Schema,
                   components: ComponentsOracle) returns (r: Result<Plan, Error>)
    requires DistinctKeys(schema)
    ensures r.Failure? ==> r.error.KeyError? || r.error == CouldNotFindRelationToJoin(Referenced(relations, projection + condFields)) ||
                            r.error == InfiniteLoopDetected
    ensures r.Failure? && r.error.KeyError? ==> r.error.key in Referenced(relations, projection + condFields) && !HasKey(schema, r.error.key)
    ensures r.Success? ==> JoinOrder(r.value, KeyMap(schema)) && DistinctKeys(r.value)
    ensures r.Success? ==> Covers(r.value, projection + condFields) && Sourced(r.value, projection + condFields, schema)
    ensures r.Success? ==> exists pivots ::
      Pivots(KeyMap(schema), Referenced(relations, projection + condFields), pivots) &&
      Connected(KeyMap(schema), Referenced(relations, projection + condFields) + pivots, components) &&
      Spans(r.value, Referenced(relations, projection + condFields) + pivots, schema)
  {
    var qnames := projection + condFields;
    var joinmap, added, rels := CollectColumns(qnames);
    var relset := Elems(relations) + rels;
    var keymap := KeyMap(schema);
    KeyMapDistinct(schema);
    var found := PivotRelations(relset, keymap, components);
    if found.Failure? {
      if found.error.KeyError? {
        KeyMapHasKey(schema, found.error.key);
      }
      return Failure(found.error);
    }
    var all := relset + found.value;
    AllInSchema(schema, all);
    var jm := AddKeys(joinmap, added, all, schema);
    JoinmapInKeymap(joinmap, rels, all, jm, keymap);
    r := OrderJoins(jm, keymap);
    if r.Success? {
      PlanCovers(qnames, joinmap, jm, r.value);
      PlanSources(qnames, joinmap, all, schema, jm, r.value);
      PlanRelations(qnames, joinmap, added, rels, all, schema, jm, r.value);
      assert relset == Referenced(relations, qnames);
      assert Pivots(keymap, relset, found.value) && Connected(keymap, all, components) && Spans(r.value, all, schema);
    }
  }

  lemma AllInSchema(schema: Schema, all: set<string>)
    requires forall rel :: rel in all ==> HasKey(KeyMap(schema), rel)
    ensures forall rel :: rel in all ==> HasKey(schema, rel)
  {
    forall rel | rel in all ensures HasKey(schema, rel) {
      KeyMapHasKey(schema, rel);
    }
  }

  lemma JoinmapInKeymap(joinmap: ColumnMap, rels: set<string>, all: set<string>, jm: ColumnMap, keymap: ColumnMap)
    requires forall e :: e in joinmap ==> e.0 in rels
    requires rels <= all && forall rel :: rel in all ==> HasKey(keymap, rel)
    requires forall e :: e in jm ==> e.0 in all || HasKey(joinmap, e.0)
    ensures forall e :: e in jm ==> HasKey(keymap, e.0)
  {
    forall e | e in jm ensures HasKey(keymap, e.0) {
      JoinmapRels(joinmap, rels, e.0);
    }
  }

  lemma JoinmapRels(joinmap: ColumnMap, rels: set<string>, rel: string)
    requires forall e :: e in joinmap ==> e.0 in rels
    ensures HasKey(joinmap, rel) ==> rel in rels
  {
    if HasKey(joinmap, rel) {
      var i :| 0 <= i < |joinmap| && joinmap[i].0 == rel;
      assert joinmap[i] in joinmap;
    }
  }

  /** Two dicts with distinct keys and the same entries agree on lookups. */
  lemma SameEntries(jm: ColumnMap, joins: Plan, rel: string)
    requires DistinctKeys(jm) && DistinctKeys(joins) && multiset(joins) == multiset(jm)
    requires Lookup(jm, rel) != []
    ensures (rel, Lookup(jm, rel)) in joins && Lookup(joins, rel) == Lookup(jm, rel)
  {
    LookupEntry(jm, rel);
    assert (rel, Lookup(jm, rel)) in multiset(jm);
    EntryLookup(joins, (rel, Lookup(jm, rel)));
  }

  /** Every requested column is in its relation's entry of the plan. */
  lemma PlanCovers(qnames: seq<string>, joinmap: ColumnMap, jm: ColumnMap, joins: Plan)
    requires forall q :: q in qnames ==> RPartition(q, '.').1 in Lookup(joinmap, RPartition(q, '.').0)
    requires forall rel, c :: c in Lookup(joinmap, rel) ==> c in Lookup(jm, rel)
    requires DistinctKeys(jm) && DistinctKeys(joins) && multiset(joins) == multiset(jm)
    ensures Covers(joins, qnames)
  {
    forall q | q in qnames
      ensures (RPartition(q, '.').0, Lookup(joins, RPartition(q, '.').0)) in joins && RPartition(q, '.').1 in Lookup(joins, RPartition(q, '.').0)
    {
      SameEntries(jm, joins, RPartition(q, '.').0);
    }
  }

  /** Every planned column was requested or is a key of its relation. */
  lemma PlanSources(qnames: seq<string>, joinmap: ColumnMap, all: set<string>, schema: Schema, jm: ColumnMap, joins: Plan)
    requires forall rel, c :: c in Lookup(joinmap, rel) ==> exists q :: q in qnames && RPartition(q, '.') == (rel, c)
    requires forall rel, c :: c in Lookup(jm, rel) ==> c in Lookup(joinmap, rel) || HasKeyField(schema, rel, c)
    requires DistinctKeys(jm) && multiset(joins) == multiset(jm)
    ensures Sourced(joins, qnames, schema)
  {
    forall e, c | e in joins && c in e.1
      ensures (exists q :: q in qnames && RPartition(q, '.') == (e.0, c)) || HasKeyField(schema, e.0, c)
    {
      assert e in multiset(jm);
      EntryLookup(jm, e);
    }
  }

  /** The plan joins only relations of `all`, every relation of `all` that
      has a key, and every key of each planned relation. */
  lemma PlanRelations(qnames: seq<string>, joinmap: ColumnMap, added: set<string>, rels: set<string>, all: set<string>,
                      schema: Schema, jm: ColumnMap, joins: Plan)
    requires added == Elems(qnames) && rels <= all
    requires forall e :: e in joinmap ==> e.0 in rels
    requires forall q :: q in qnames ==> RPartition(q, '.').1 in Lookup(joinmap, RPartition(q, '.').0)
    requires forall e :: e in jm ==> e.0 in all || HasKey(joinmap, e.0)
    requires forall rel, c :: c in Lookup(joinmap, rel) ==> c in Lookup(jm, rel)
    requires forall rel, f :: rel in all && FieldOf(schema, rel, f) && f.isKey && Qualify(rel, f.name) !in added ==>
      f.name in Lookup(jm, rel)
    requires DistinctKeys(jm) && DistinctKeys(joins) && multiset(joins) == multiset(jm)
    ensures Spans(joins, all, schema)
  {
    forall e | e in joins ensures e.0 in all {
      assert e in multiset(jm);
      JoinmapRels(joinmap, rels, e.0);
    }
    if DotFreeKeys(schema) {
      forall rel, f | rel in all && FieldOf(schema, rel, f) && f.isKey
        ensures f.name in Lookup(jm, rel)
      {
        if Qualify(rel, f.name) in added {
          RPartitionAt(rel, f.name, '.');
        }
      }
      forall e, f | e in joins && FieldOf(schema, e.0, f) && f.isKey
        ensures f.name in e.1
      {
        assert e in multiset(jm);
        EntryLookup(jm, e);
      }
      forall rel | rel in all && HasKeys(schema, rel)
        ensures (rel, Lookup(joins, rel)) in joins
      {
        var fs := Get(schema, rel).value;
        var k :| k in KeyNamesIn(fs);
        var f := KeyField(fs, k);
        SameEntries(jm, joins, rel);
      }
    }
  }

  /** A key field with a given name. */
  lemma KeyField(fields: seq<Field>, k: string) returns (f: Field)
    requires k in KeyNamesIn(fields)
    ensures f in fields && f.isKey && f.name == k
  {
    if fields[0].isKey && fields[0].name == k {
      f := fields[0];
    } else {
      f := KeyField(fields[1..], k);
    }
  }
}
