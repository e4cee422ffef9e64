# A verified model of the core of PyDelphin

PyDelphin is a Python library for DELPH-IN data: test suites (the
`[incr tsdb()]` profile format), the query language TSQL over them, semantic
interfaces (SEM-I), variable property mappings (VPM) and the semantic
representations MRS, DMRS and EDS. This project models, in Dafny, the parts of
the library that compute rather than read or write files:

- **TSQL** (`delphin/tsql.py`): the recursive-descent parser of `select`
  queries over the lexer's tokens, the execution planner (schema map, name
  resolution, `select *` projection, join planning with pivot relations and a
  valid join order), condition processing and evaluation, and the `Selection`
  object with its inner and left hash joins.
- **Test suites** (`delphin/itsdb.py`): the relations file parser, field
  indices, rows, the profile's column access, and the `match_rows` /
  `select` helpers.
- **SEM-I** (`delphin/semi.py`): predicate synopses, the `SemI` object built
  from variables, properties, roles and predicates, its dictionary form and
  `find_synopsis`.
- **VPM** (`delphin/mrs/vpm.py`): loading a mapping file and applying it to
  variable properties in either direction.
- **DMRS conversion** (`delphin/dmrs/_operations.py`): `from_mrs` and its
  node ids, top resolution and link construction.
- **EDS** (`delphin/eds/_eds.py`, `edsjson.py`, `edspenman.py`): nodes and
  their queries, `arguments`, the JSON dictionary form and the PENMAN triple
  form.

Code that works step by step in the library (loops over lists and
dictionaries, objects whose fields change) is modelled by Dafny methods with
loops, each proved equal to a specification function; the functions carry
the properties the library promises, proved as lemmas. Python dictionaries are
association lists with insertion order (`Dicts`), strings are `seq<char>`,
errors are `Result` values naming the Python exception, and the library's
calls into code outside this model (the TSQL lexer, regular expressions,
date casting, connected components, the SEM-I subsumption test, string
forms of alignments) are function parameters.

## Model

| member | source | states |
|---|---|---|
| `TsqlParser.Run` | delphin/tsql.py:691-693 | accepting tokens while their type fits consumes exactly the maximal run of such tokens and returns their texts in order |
| `TsqlParser.Projection` | delphin/tsql.py:687-696 | a projection is `*` alone or one or more column identifiers, each taken from consecutive tokens |
| `TsqlParser.ParseSelectProjection` | delphin/tsql.py:687-696 | the lexer loop yields exactly the projection the grammar function describes, error included |
| `TsqlParser.From` | delphin/tsql.py:699-706 | no relations without `from`; after `from` one or more relation identifiers, an error when none follows |
| `TsqlParser.ParseSelectFrom` | delphin/tsql.py:699-706 | the loop yields exactly the `from` clause the grammar function describes |
| `TsqlParser.OpSpellings` | delphin/tsql.py:615 | `=` becomes `==`, and the nine operator spellings of the lexer are the only texts that name an operator |
| `TsqlParser.LiteralValue` | delphin/tsql.py:773-776 | an integer token becomes its value, a date token goes through the date cast, a string stays a string |
| `TsqlParser.Statement` | delphin/tsql.py:760-778 | a statement is an operator token then a literal the operator accepts; it fails when either is missing |
| `TsqlParser.StatementLiterals` | delphin/tsql.py:760-778 | a parsed statement compares the given column with an operator the lexer spelled against a literal of an accepted type; a regular expression always gets a string |
| `TsqlParser.Unary` | delphin/tsql.py:740-747 | an operand is `not` and a disjunction, a parenthesised disjunction closed by `)`, or a statement on a column |
| `TsqlParser.Conjunction` | delphin/tsql.py:737-757 | operands separated by `and`, collapsed when only one |
| `TsqlParser.Disjunction` | delphin/tsql.py:721-734 | conjunctions separated by `or`, collapsed when only one |
| `TsqlParser.WhereClauses` | delphin/tsql.py:711-712 | each `where` keyword is followed by one disjunction |
| `TsqlParser.UnaryWellFormed` | delphin/tsql.py:752-757 | every condition the parser builds has junctions of at least two children and string patterns for `~` and `!~` |
| `TsqlParser.ConjunctionWellFormed` | delphin/tsql.py:752-757 | the same for conjunctions |
| `TsqlParser.DisjunctionWellFormed` | delphin/tsql.py:729-734 | the same for disjunctions |
| `TsqlParser.WhereClausesWellFormed` | delphin/tsql.py:709-718 | the same for every `where` clause |
| `TsqlParser.Where` | delphin/tsql.py:709-718 | the `where` part yields a well-formed condition and stays within the tokens |
| `TsqlParser.ParseConditionOperand` | delphin/tsql.py:740-747 | one turn of the conjunction loop yields exactly one operand of the grammar |
| `TsqlParser.ParseConditionConjunction` | delphin/tsql.py:737-757 | the `while True` loop yields exactly the grammar's conjunction |
| `TsqlParser.ParseConditionDisjunction` | delphin/tsql.py:721-734 | the `while True` loop yields exactly the grammar's disjunction |
| `TsqlParser.ParseSelectWhere` | delphin/tsql.py:709-718 | the loop over `where` clauses yields exactly the grammar's condition |
| `TsqlParser.SelectQuery` | delphin/tsql.py:668-684 | a query is projection, relations and condition followed by the end sentinel; `select *` without `from` is an error |
| `TsqlParser.ParseSelect` | delphin/tsql.py:668-684 | `_parse_select` on the query with the `.` sentinel appended yields exactly that query |
| `TsqlParser.QueryFromString` | delphin/tsql.py:656-665 | the lower-cased first word chooses the query; only `select` and `retrieve` are accepted, other types fail naming the type |
| `TsqlParserLaws.Parenthesised` | delphin/tsql.py:743-745 | a parenthesised disjunction is a single operand |
| `TsqlParserLaws.AloneInConjunction` | delphin/tsql.py:749-755 | an operand not followed by `and` is the whole conjunction |
| `TsqlParserLaws.AloneInDisjunction` | delphin/tsql.py:726-732 | a conjunction not followed by `or` is the whole disjunction |
| `TsqlParserLaws.AndOfTwo` | delphin/tsql.py:737-757 | `A and B` parses as a two-member conjunction |
| `TsqlParserLaws.OrOfTwo` | delphin/tsql.py:721-734 | `A or B` parses as a two-member disjunction |
| `TsqlParserLaws.WhereClausesConjoin` | delphin/tsql.py:709-718 | `where A where B` parses like `where (A) and (B)` for any complete conditions |
| `TsqlParserLaws.OrScopesOverAnd` | delphin/tsql.py:721-757 | `A or B and C` parses like `A or (B and C)`: disjunction scopes over conjunction |
| `TsqlParserLaws.SelectKeyword` | delphin/tsql.py:657-660 | `select` and `retrieve`, in any letter case, parse the same query |
| `TsqlParserLaws.StarRequiresFrom` | delphin/tsql.py:676-679 | a `*` projection with no `from` clause is never a valid query |
| `StrOrder.LessTotal` | delphin/tsql.py:464 | Python's string order is total: two strings are equal or ordered one way |
| `StrOrder.SortedSet` | delphin/tsql.py:464 | `sorted` of a set of strings holds each element once, in strictly increasing order |
| `StrOrder.StrictlySortedUnique` | delphin/tsql.py:464 | a strictly increasing list is determined by its elements, so `sorted` has one possible result |
| `TsqlSchema.FieldsOf` | delphin/tsql.py:307 | `db.schema[name]`: the fields of a relation in the schema, or a KeyError |
| `TsqlSchema.InverseLookup` | delphin/tsql.py:322-325 | before sorting, each column maps to the relations having it in schema order, and only non-empty lists are stored |
| `TsqlSchema.PreferNamedSorts` | delphin/tsql.py:327-330 | the sort keyed on membership in the query's relations is a permutation putting named relations first and keeping schema order within each group |
| `TsqlSchema.SchemaMapGet` | delphin/tsql.py:318-331 | the schema map knows exactly the schema's columns and lists for each the relations having it, named relations first |
| `TsqlSchema.MakeSchemaMap` | delphin/tsql.py:318-331 | the two loops build exactly that schema map |
| `TsqlSchema.Resolve` | delphin/tsql.py:341-349 | the resolver keeps a qualified name, qualifies a bare name by the first relation listed for it, or raises an undefined-column error |
| `TsqlSchema.ResolveQualified` | delphin/tsql.py:342-344 | a name with a relation before its last `.` is returned unchanged |
| `TsqlSchema.ResolveBare` | delphin/tsql.py:345-348 | a bare name resolves to the first relation having the column, preferring relations the query names, and fails exactly when no relation has it |
| `TsqlSchema.ProjectFieldsKeys` | delphin/tsql.py:307-314 | one relation adds each of its key names not added yet, once |
| `TsqlSchema.ProjectFieldsSources` | delphin/tsql.py:307-314 | one relation adds only its own fields, and all its non-key fields |
| `TsqlSchema.ProjectPairsFails` | delphin/tsql.py:303-307 | `select *` fails, with a KeyError for a named relation, exactly when some named relation is not in the schema |
| `TsqlSchema.ProjectPairsKeys` | delphin/tsql.py:309-314 | each key name of the named relations is projected exactly once |
| `TsqlSchema.ProjectPairsNonKeys` | delphin/tsql.py:310-311 | every non-key field of every named relation is projected |
| `TsqlSchema.ProjectPairsSources` | delphin/tsql.py:303-315 | every projected column is a field of a named relation, and a key column is qualified by the first named relation having that key |
| `TsqlSchema.KeyNames` | delphin/tsql.py:397 | exactly the names of the relation's key fields |
| `TsqlSchema.KeyMap` | delphin/tsql.py:394-399 | the key map has an entry for exactly the relations of the schema |
| `TsqlSchema.KeyMapGet` | delphin/tsql.py:394-399 | the key map gives each relation of the schema its key names |
| `TsqlPlanner.FindPivot` | delphin/tsql.py:426-434 | the search returns the first relation in key-map order that is new, has more than one key and touches at least two components, or reports that none does |
| `TsqlPlanner.PivotRelations` | delphin/tsql.py:402-440 | the pivots are new relations with more than one key after which the key graph is connected; failure is a KeyError for a relation without keys entry or the could-not-join error once no candidate is left |
| `TsqlPlanner.CollectColumns` | delphin/tsql.py:361-366 | each distinct qualified name adds its column to its relation's entry, once, and its relation to the relation set |
| `TsqlPlanner.AddKeys` | delphin/tsql.py:371-376 | every relation of the set requests each key field not requested already; nothing requested is lost and only key fields are added |
| `TsqlPlanner.FindJoinable` | delphin/tsql.py:382-387 | the search returns the first entry that may be joined now (the first join, or one sharing a column with the keys joined so far), or reports none |
| `TsqlPlanner.JoinOrderStep` | delphin/tsql.py:383-385 | appending a joinable entry keeps the join order valid |
| `TsqlPlanner.OrderJoins` | delphin/tsql.py:378-389 | the joins are a permutation of the requested entries, each relation once, every join after the first sharing a column with the keys joined before; the infinite-loop error comes only after some joins made in a valid order leave entries none of which shares a column with the keys joined so far |
| `TsqlPlanner.PlanJoins` | delphin/tsql.py:354-391 | the plan is in valid join order, covers every requested column, adds only requested columns and keys, and spans the referenced relations and their pivots; errors are a KeyError, the could-not-join error or the infinite-loop error |
| `TsqlPlanner.PlanCovers` | delphin/tsql.py:361-384 | every requested column is in its relation's entry of the plan |
| `TsqlPlanner.PlanSources` | delphin/tsql.py:361-384 | every planned column was requested or is a key of its relation |
| `TsqlPlanner.PlanRelations` | delphin/tsql.py:360-384 | the plan joins only referenced relations and pivots, every one of them that has a key, and every key of each planned relation |
| `TsqlCondition.ResolveAll` | delphin/tsql.py:471 | on success, each column of the list resolves to the name at the same position |
| `TsqlCondition.ResolveAllFailure` | delphin/tsql.py:460-471 | resolving fails with the error of the first column that does not resolve |
| `TsqlCondition.ProcessFieldsResolves` | delphin/tsql.py:451-472 | processing a condition resolves exactly its columns in tree order, keeps the shape of the tree, and fails with the first column that does not resolve |
| `TsqlCondition.ProcessFieldsSorted` | delphin/tsql.py:457-472 | the names returned with a processed condition are its resolved columns, each once and in increasing order under a conjunction or disjunction |
| `TsqlCondition.ProcessChildrenStops` | delphin/tsql.py:460-463 | a failure among the first children is the failure of all of them: the loop stops at the first error |
| `TsqlCondition.ProcessConditionFields` | delphin/tsql.py:451-472 | the recursive method with its loop over children returns exactly the processed condition and names |
| `TsqlCondition.Compare` | delphin/tsql.py:443-448 | `==` and `!=` never fail; an ordering succeeds only on comparable values, and a failure is always a TypeError |
| `TsqlCondition.CompareComplements` | delphin/tsql.py:443-448 | on comparable values `>=` negates `<`, `<=` negates `>`, and exactly one of `<`, `==`, `>` holds |
| `TsqlCondition.AllSemantics` | delphin/tsql.py:481-489 | a conjunction is true exactly when every child is; it is false or fails at the first child that is false or fails, after only true ones |
| `TsqlCondition.AnySemantics` | delphin/tsql.py:481-489 | a disjunction is false exactly when every child is; it is true or fails at the first child that is true or fails, after only false ones |
| `TsqlCondition.DeMorgan` | delphin/tsql.py:481-495 | `not (a and b ...)` evaluates like `(not a) or (not b) ...`, errors and short-circuiting included, and dually |
| `TsqlCondition.EvalErrors` | delphin/tsql.py:497-514 | a KeyError names a column of the condition missing from the field index, an IndexError comes from an index past the row, and nothing else fails but a TypeError |
| `TsqlEngine.ProjectionHasDots` | delphin/tsql.py:287-290 | every column of a resolved projection is qualified by a relation |
| `TsqlEngine.ConditionHasDots` | delphin/tsql.py:292-296 | every column a resolved condition uses is qualified, and the names returned with it are exactly those it compares |
| `TsqlEngine.MakeExecutionPlan` | delphin/tsql.py:278-300 | the projection is resolved first, then the condition, then the joins are planned for both; each error is the first stage's that fails |
| `TsqlEngine.FilteredRows` | delphin/tsql.py:270-272 | the rows kept are exactly those the condition holds for, in order |
| `TsqlEngine.FilteredFailure` | delphin/tsql.py:270-272 | the filter fails exactly when the test raises on some row, with the error of the first such row |
| `TsqlEngine.FilteredTypeErrors` | delphin/tsql.py:270-272 | on rows as wide as the field index demands, with every column of the condition indexed, the filter can only fail with a TypeError |
| `TsqlEngine.FilterRows` | delphin/tsql.py:272 | the loop over the rows computes exactly the filter |
| `TsqlEngine.CoveredIndexed` | delphin/tsql.py:267-268 | a column the plan covers is in the field index once every planned join has been made |
| `TsqlEngine.JoinStep` | delphin/tsql.py:267-268 | one join of the loop keeps the selection valid, without a projection, and indexes the joined columns |
| `TsqlEngine.RunPlanMeaning` | delphin/tsql.py:264-272 | the selection `_select` builds from a plan: the joined fields and index, the plan's projection, and exactly the joined rows the condition accepts (all of them without a condition); it fails exactly when a join fails or the condition raises on a joined row |
| `TsqlEngine.Select` | delphin/tsql.py:257-275 | `_select` joins every planned relation, filters by the resolved condition and sets the projection: the selection is valid, its projection indexed, iteration never fails, and every row satisfies the condition |
| `TsqlEngine.SelectString` | delphin/tsql.py:233-254 | a parse error is returned as such; after a successful parse the outcome is `_select`'s on the parsed query: the ghost plan is a plan for that query, a selection that comes back is exactly `RunPlan` of it (valid and iterable), a resolution error is returned as it is, and any other failure is `RunPlan`'s error |
| `TsqlEngine.Query` | delphin/tsql.py:200-230 | only `select` and `retrieve` queries run; other query types and parse errors are returned; after a successful parse the outcome is `_select`'s on the parsed query, as for `SelectString`: a selection that comes back is exactly `RunPlan` of a plan for that query, and any failure is a resolution error or `RunPlan`'s error |
| `TsqlSelection.FieldIndexOf` | delphin/tsql.py:539 | `make_field_index`: every indexed name maps to a position holding that name, and every field's name is indexed at its position or a later one |
| `TsqlSelection.FirstMissing` | delphin/tsql.py:540 | nothing exactly when every name is indexed; otherwise a name of the list that the index lacks, the KeyError of `[field_index[col] for col in columns]` |
| `TsqlSelection.SelectFrom` | delphin/tsql.py:546 | `select_from`: one row per row of the relation, holding the named columns |
| `TsqlSelection.Matches` | delphin/tsql.py:558-561 | the group of a key tuple holds only right rows |
| `TsqlJoinLaws.MatchesIn` | delphin/tsql.py:558-561 | a right row is in the group of a key exactly when its key tuple is that key |
| `TsqlSelection.Extend` | delphin/tsql.py:567-568 | a left row extended once per row of its group |
| `TsqlJoinLaws.ExtendIn` | delphin/tsql.py:567-568 | extending a row by a group gives the row followed by each member, and nothing else |
| `TsqlSelection.MergedIndex` | delphin/tsql.py:580-584 | the first loop of `_merge_fields` keeps every indexed name and indexes each merged field under its bare and its qualified name |
| `TsqlSelection.QualifiedOn` | delphin/tsql.py:587-589 | the second loop keeps every indexed name and adds the qualified name of each `on` column |
| `TsqlSelection.Picked` | delphin/tsql.py:541 | one field of the relation per requested column, carrying that column's name |
| `TsqlSelection.OnNames` | delphin/tsql.py:550-551 | the shared keys are names the selection indexes, and include every key field it already indexes |
| `TsqlSelection.OnNamesKeys` | delphin/tsql.py:550-551 | each shared key is the name of a key field |
| `TsqlSelection.Kept` | delphin/tsql.py:552 | the fields kept are exactly those not among the shared keys |
| `TsqlSelection.OnInRelation` | delphin/tsql.py:550-551 | the shared keys of a later join are columns of the joined relation |
| `TsqlSelection.KeptInRelation` | delphin/tsql.py:552-553 | the other columns of a later join are columns of the joined relation |
| `TsqlSelection.GroupByKey` | delphin/tsql.py:558-561 | the loop groups the right rows by key tuple: each group is exactly the rows with that key, and only present keys have a group |
| `TsqlSelection.ProbeLeft` | delphin/tsql.py:563-568 | each left row is extended by every right row of its key's group, or, in a left join, by the `None` padding when there is none |
| `TsqlSelection.HashJoin` | delphin/tsql.py:558-568 | both loops together compute the nested-loop join of the left and right rows |
| `TsqlSelection.Project` | delphin/tsql.py:171-176 | fails with an IndexError exactly when an index is past the fields; otherwise every row restricted to one value per index |
| `TsqlSelection.SelectRows` | delphin/tsql.py:166-176 | `select(*names)`: a KeyError for the first unknown name, otherwise one row per row holding one value per named column, or every column when no name is given |
| `TsqlSelection.IterRows` | delphin/tsql.py:160-164 | iteration gives one row per row of the selection |
| `TsqlSelection.IterAll` | delphin/tsql.py:160-162 | without a projection, iterating a valid selection gives its rows |
| `TsqlSelection.SelectIndexed` | delphin/tsql.py:166-176 | selecting indexed columns from a valid selection never fails and gives one value per named column for every row |
| `TsqlSelection.ZippedRows` | delphin/tsql.py:564 | what `zip(selection.select(*on), selection)` draws: one row per row of the selection when it succeeds |
| `TsqlSelection.Selection.constructor` | delphin/tsql.py:146-158 | a new selection has no fields, no index, no rows, no projection and no joined relation |
| `TsqlSelection.Selection.MergeFields` | delphin/tsql.py:575-590 | the fields are appended, the index is updated by both loops of `_merge_fields`, and the relation is added to the joined set; rows and projection are unchanged |
| `TsqlSelection.Selection.HashJoinRows` | delphin/tsql.py:558-568 | the rows of the second branch: the left rows and their keys, hash-joined with the relation's |
| `TsqlSelection.Selection.JoinLater` | delphin/tsql.py:548-570 | a later join fails without shared keys, and otherwise sets the joined rows and merges the fields as the specification says |
| `TsqlSelection.Selection.Join` | delphin/tsql.py:521-572 | `_join` is exactly the join specification: unknown join methods and a second join of a relation are refused, and a failed join leaves the selection unchanged |
| `TsqlJoinLaws.InnerJoinIn` | delphin/tsql.py:563-568 | an inner join holds exactly the left rows extended by the right rows with the same key tuple |
| `TsqlJoinLaws.LeftJoinIn` | delphin/tsql.py:563-568 | a left join holds, besides the matched rows, every left row that matches nothing, padded with `None` |
| `TsqlJoinLaws.LeftJoinKeepsRows` | delphin/tsql.py:566-568 | a left join loses no left row |
| `TsqlJoinLaws.NestedJoinWidth` | delphin/tsql.py:567 | every joined row is as wide as a left row and a right row together |
| `TsqlJoinLaws.MergedIndexKeepsBare` | delphin/tsql.py:582-583 | a bare name keeps the index it had: the first relation's columns are found where it put them |
| `TsqlJoinLaws.MergedIndexFirst` | delphin/tsql.py:580-583 | a new bare name takes the position of its first occurrence among the merged fields |
| `TsqlJoinLaws.MergedIndexAbsent` | delphin/tsql.py:580-583 | a bare name neither indexed nor among the merged fields stays out of the index |
| `TsqlJoinLaws.MergedIndexBound` | delphin/tsql.py:579-584 | every index the first loop writes is below the new number of fields |
| `TsqlJoinLaws.JoinOnce` | delphin/tsql.py:535-536 | a relation joins at most once: after a join it is joined and a second join is refused |
| `TsqlJoinLaws.JoinFields` | delphin/tsql.py:570-572 | a join never touches the projection and only appends to the fields |
| `TsqlJoinLaws.LaterJoinFields` | delphin/tsql.py:552-570 | a later join appends the joined relation's columns other than the shared keys |
| `TsqlJoinLaws.JoinValid` | delphin/tsql.py:521-572 | joins keep a selection valid: indices stay within the fields and every row has one value per field |
| `TsqlJoinLaws.JoinIndexes` | delphin/tsql.py:538-590 | after a join every requested column of the joined relation is indexed under its qualified name, and nothing indexed before is lost |
| `Itsdb.Escape` | delphin/itsdb.py:242-268 | an escaped string holds no field delimiter `@` and no newline |
| `Itsdb.Unescape` | delphin/itsdb.py:271-287 | unescaping never lengthens a string |
| `Itsdb.UnescapeEscape` | delphin/itsdb.py:252-287 | unescaping undoes escaping, for every string |
| `Itsdb.UnescapePlain` | delphin/itsdb.py:277-287 | text without a backslash is left alone by `unescape` |
| `Itsdb.RStripNewlines` | delphin/itsdb.py:221 | `rstrip('\n')` leaves a prefix of the line that does not end in a newline |
| `Itsdb.EncodeRow` | delphin/itsdb.py:225-239 | an encoded row is one line: it holds no newline |
| `Itsdb.DecodeRow` | delphin/itsdb.py:209-222 | a decoded line has at least one cell |
| `Itsdb.DecodeEncode` | delphin/itsdb.py:209-239 | decoding an encoded row gives back its cells, for any row with at least one cell |
| `Itsdb.SpecifierTableOnly` | delphin/itsdb.py:186-206 | a specifier without a colon names only the stripped table |
| `Itsdb.SpecifierWithColumns` | delphin/itsdb.py:186-206 | `table:c1@c2@...` names the stripped table, if any, and the stripped columns split at `@` |
| `Itsdb.SpecifierRoundTrip` | delphin/itsdb.py:186-206 | stripped, non-empty column names without `@` or newlines come back from the specifier built from them |
| `Itsdb.MakeRowCells` | delphin/itsdb.py:360-397 | the line `make_row` writes decodes to one cell per field, in field order: the row's value when it has one, otherwise the column's default (a coded attribute's own default, then `-1` for `:integer` columns and the empty string for the rest) |
| `ItsdbRelations.SplitLines` | delphin/itsdb.py:112 | `splitlines()`: no line holds any of the characters `str.splitlines` breaks at, and there are no lines exactly when the text is empty |
| `ItsdbRelations.SplitLinesSingle` | delphin/itsdb.py:112 | non-empty text without a break character is one line, the text itself |
| `ItsdbRelations.SplitLinesBreak` | delphin/itsdb.py:112 | text up to a break character (other than a `\r` followed by `\n`) is the first line, and the rest after that character is split on its own |
| `ItsdbRelations.SplitLinesCrLf` | delphin/itsdb.py:112 | `\r\n` is a single break: the text before it is the first line and the rest after it is split on its own |
| `ItsdbRelations.ReadLine` | delphin/itsdb.py:113-140 | one turn of the loop reads one line into the tables exactly as the step function says, and keeps the set of seen names equal to the tables' names |
| `ItsdbRelations.FromString` | delphin/itsdb.py:108-141 | `from_string` fails exactly when the specification fails, with its error, and otherwise returns its tables |
| `ItsdbRelations.ParseKindsNames` | delphin/itsdb.py:120-128 | the tables are the header lines' names, in file order, each once |
| `ItsdbRelations.TableOrder` | delphin/itsdb.py:120-128 | table order in the result is header order in the file, and no table is defined twice |
| `ItsdbRelations.DuplicateTableFails` | delphin/itsdb.py:122-125 | a file that defines a table name twice is rejected |
| `ItsdbRelations.ContentBeforeHeaderFails` | delphin/itsdb.py:129-140 | a non-blank line that is not a header and comes before any header is an invalid line |
| `ItsdbRelations.LineBeforeHeaderFails` | delphin/itsdb.py:129-140 | the same, stated on the lines of the file |
| `ItsdbRelations.FieldsFromKinds` | delphin/itsdb.py:129-138 | every field of every table comes from a field line |
| `ItsdbRelations.FieldsFromLines` | delphin/itsdb.py:114-138 | every field of a schema read from a file is what a stripped line of the file parses to |
| `ItsdbRelations.SplitWhitespaceJoin` | delphin/itsdb.py:131 | splitting words joined by single spaces gives the words back |
| `ItsdbRelations.FieldAfterHash` | delphin/itsdb.py:116-118 | the text after the name up to its first `#` holds the attributes; the text after the `#` is the comment |
| `ItsdbRelations.FieldLineFlags` | delphin/itsdb.py:116-136 | a field line `name attr1 attr2 ...` has `attr1` as its datatype and sets `key`/`partial` exactly when `:key`/`:partial` is among the other attributes, with no comment |
| `ItsdbRelations.FieldLineComment` | delphin/itsdb.py:118-135 | with a comment after the attributes, the comment is the text after the `#`, without leading blanks |
| `ItsdbRelations.FieldLineWithoutDatatype` | delphin/itsdb.py:131-132 | a field line with a name and no attributes has no datatype and is an error |
| `ItsdbRows.FilterRows` | delphin/itsdb.py:400-421 | only rows of the input that every filter admits, never more rows than the input |
| `ItsdbRows.FilterRowsKeeps` | delphin/itsdb.py:416-421 | the rows kept are, in input order, exactly the rows every filter admits |
| `ItsdbRows.ApplyCols` | delphin/itsdb.py:444-446 | applying adds the named columns to the row and leaves every other cell alone |
| `ItsdbRows.ApplyAllCells` | delphin/itsdb.py:443-446 | applying every applicator adds exactly the named columns and leaves every other cell alone |
| `ItsdbRows.ApplyRow` | delphin/itsdb.py:443-446 | the nested loop over one row's applicators computes exactly every applicator applied in order |
| `ItsdbRows.ApplyRows` | delphin/itsdb.py:424-447 | each row with every applicator applied, in input order |
| `ItsdbRows.SelectRows` | delphin/itsdb.py:450-485 | the lower-cased mode must be `list`, `dict` or `row`, else an error; otherwise one selection per row |
| `ItsdbRows.SelectList` | delphin/itsdb.py:473-474 | in list mode each row gives the cell of each column, or `None` |
| `ItsdbRows.SelectDict` | delphin/itsdb.py:475-476 | in dict mode each column maps to its cell, or `None` |
| `ItsdbRows.ZipGet` | delphin/itsdb.py:476 | `dict(zip(keys, values))` maps each key to its last value |
| `ItsdbRows.SelectRowLine` | delphin/itsdb.py:477-478 | in row mode each row gives a line that decodes back to the printed cells, when at least one column is selected |
| `ItsdbMatch.RowsWith` | delphin/itsdb.py:496-503 | the group of a value never has more rows than the table |
| `ItsdbMatch.RowsWithHas` | delphin/itsdb.py:496-503 | a row is in the group of a value exactly when it is a row of the table whose key column holds that value |
| `ItsdbMatch.AppendNew` | delphin/itsdb.py:499-501 | after `matched[val] = ([], [])` on a missing value the value is a key |
| `ItsdbMatch.FirstSeenOrder` | delphin/itsdb.py:494-504 | starting from nothing, values come in the order of their first occurrence |
| `ItsdbMatch.FirstSeenDistinct` | delphin/itsdb.py:494-504 | the keys of the ordered dict stay distinct |
| `ItsdbMatch.FirstSeenHas` | delphin/itsdb.py:494-504 | the keys are exactly the old keys and the values seen |
| `ItsdbMatch.SafeInt` | delphin/itsdb.py:506 | `safe_int` gives an integer exactly when `int` parses the value, and otherwise the value itself |
| `ItsdbMatch.SafeIntOrder` | delphin/itsdb.py:506 | comparing values through their `safe_int` keys is a strict order |
| `ItsdbMatch.SortBy` | delphin/itsdb.py:506 | `sorted` is a permutation |
| `ItsdbMatch.SortBySorted` | delphin/itsdb.py:506 | sorting gives a sorted permutation; distinct values stay distinct |
| `ItsdbMatch.MatchRows` | delphin/itsdb.py:488-509 | the loops filling the ordered dict and then listing its keys, sorted by `safe_int` when asked, compute exactly `list(match_rows(...))`, including its `KeyError` and the `TypeError` of sorting mixed keys |
| `ItsdbMatch.MatchingKeys` | delphin/itsdb.py:494-500 | when every row has the key, the ordered dict's keys are the values of both tables in order of first occurrence |
| `ItsdbMatch.ComparableFirstSeen` | delphin/itsdb.py:504-506 | whether the keys can be sorted depends only on which values occur |
| `ItsdbMatch.CollectFails` | delphin/itsdb.py:497 | collecting fails exactly when some row lacks the key column |
| `ItsdbMatch.CollectKeys` | delphin/itsdb.py:494-503 | the group keys after collecting are the old keys followed by the new values in order of first occurrence |
| `ItsdbMatch.CollectSides` | delphin/itsdb.py:495-503 | after collecting, each value's group on the collected side has the rows holding that value appended; the other side is unchanged |
| `ItsdbMatch.MatchRowsFails` | delphin/itsdb.py:495-506 | `match_rows` raises KeyError, naming the key, when a row of either table lacks the key column; otherwise it fails exactly when sorting keys whose `safe_int` values mix integers and strings, with a TypeError |
| `ItsdbMatch.MixedKeysRaise` | delphin/itsdb.py:504-506 | values `1` and `a` cannot be sorted, though they can be matched unsorted |
| `ItsdbMatch.MatchRowsGroups` | delphin/itsdb.py:494-509 | the left list of a value is the rows of `rows1` holding it and the right list those of `rows2`; values come in first-seen order, or stably sorted by their `safe_int` keys |
| `ItsdbMatch.MatchRowsValues` | delphin/itsdb.py:494-509 | each value appears in exactly one triple, exactly the values of the two tables appear, and sorted triples are in `safe_int` order |
| `ItsdbMatch.MatchRowsPlaces` | delphin/itsdb.py:494-509 | every row lands in its value's triple: a row of `rows1` in the left list, a row of `rows2` in the right one |
| `SemiSynopsis.DictOf` | delphin/semi.py:264 | `dict(pairs)` has no repeated key |
| `SemiSynopsis.CaseFold` | delphin/semi.py:260-264 | the case-folded properties have no repeated name |
| `SemiSynopsis.DictOfValues` | delphin/semi.py:264 | each key of `dict(pairs)` holds the value of its last pair |
| `SemiSynopsis.CaseFoldValues` | delphin/semi.py:260-264 | each upper-cased name holds the lower-cased value of the last property with that name |
| `SemiSynopsis.CaseFoldKeys` | delphin/semi.py:260-264 | every property the role is given is kept under its upper-cased name, and no other name appears |
| `SemiSynopsis.MakeRoleNormal` | delphin/semi.py:259-268 | a role is normalised: name upper case, value lower case, property names upper case and values lower case |
| `SemiSynopsis.MakeRoleFixed` | delphin/semi.py:259-268 | rebuilding a normalised role from its own fields gives it back |
| `SemiSynopsis.RoleRoundTrip` | delphin/semi.py:274-287 | reading back the dictionary of a normalised role gives the role |
| `SemiSynopsis.SynopsisRoundTrip` | delphin/semi.py:306-341 | `Synopsis.from_dict(s.to_dict()) == s` for a synopsis of normalised roles |
| `SemiSynopsis.SynopsisFromDictNormal` | delphin/semi.py:306-324 | every role read from a dictionary is normalised |
| `SemiSynopsis.ParentsRoundTrip` | delphin/semi.py:475-478 | recorded parents survive the trip through `to_dict` and back |
| `Semi.PropertyTypesHas` | delphin/semi.py:389-395 | every entry declares its lower-cased name, with the parents of the last entry of that name |
| `Semi.VariableProperties` | delphin/semi.py:402-407 | the property list of one variable: names upper-cased, values lower-cased, in order; an undefined value is an error naming it |
| `Semi.VariableTypesFails` | delphin/semi.py:397-409 | the variables are accepted exactly when every property value they name is a declared property type |
| `Semi.FirstUndeclared` | delphin/semi.py:411-416 | the first role whose value is neither `string` nor a variable type: every role before it is declared |
| `Semi.AssignRoles` | delphin/semi.py:411-417 | every role recorded was recorded before or is the upper-cased name of an entry |
| `Semi.AssignRolesHas` | delphin/semi.py:411-417 | each role is recorded under its upper-cased name with the lower-cased value of its last entry |
| `Semi.SynopsisProblem` | delphin/semi.py:432-464 | a synopsis has no problem exactly when none of its roles has one |
| `SemiInterface.SynopsisProblemAt` | delphin/semi.py:434-464 | the first role with a problem decides the synopsis' problem |
| `Semi.RoleProblemCases` | delphin/semi.py:435-450 | a role is checked in the source's order: an undeclared role name, then properties on a `string` role, then an undeclared variable type, then its properties |
| `Semi.PropertiesProblemNone` | delphin/semi.py:446-463 | a role's properties are accepted exactly when each value is a property type and, where the variable type declares the property, compatible with its value |
| `Semi.UndeclaredPropertyWarnsOnly` | delphin/semi.py:451-457 | a property the variable type does not declare causes no error |
| `Semi.Synopses` | delphin/semi.py:426-428 | the synopses of one predicate, when accepted, are its synopsis dictionaries read in order |
| `Semi.PredicateTypesValid` | delphin/semi.py:419-430 | every synopsis a predicate type ends up with is free of problems and made of normalised roles |
| `SemiInterface.Cache` | delphin/semi.py:421 | `propcache` has an entry for exactly the variable types, holding each one's property list as a dict |
| `SemiInterface.ToDict` | delphin/semi.py:472-504 | the dictionary has exactly the types and roles of the SEM-I; property lists and synopses are written for the types that have some |
| `SemiInterface.FirstAdmissible` | delphin/semi.py:541-550 | the synopsis returned is admissible and one of the predicate's; none exactly when no synopsis is admissible |
| `SemiInterface.SemI.Empty` | delphin/semi.py:375-378 | a new SEM-I has empty hierarchies and no roles |
| `SemiInterface.SemI.InitProperties` | delphin/semi.py:389-395 | the property hierarchy gains exactly the declared property types; nothing else changes |
| `SemiInterface.SemI.InitVariables` | delphin/semi.py:397-409 | the variable hierarchy gains the declared variable types, or the first undefined property value is reported and nothing changes |
| `SemiInterface.SemI.InitRoles` | delphin/semi.py:411-417 | the roles before the first undeclared one are recorded, and that one is reported; otherwise all roles are recorded |
| `SemiInterface.SemI.InitSynopsis` | delphin/semi.py:432-464 | the synopsis read from its dictionary is returned when it has no problem, and its first problem is reported otherwise |
| `SemiInterface.SemI.CheckProperties` | delphin/semi.py:446-463 | the loop over one role's properties reports exactly the first property problem |
| `SemiInterface.SemI.InitPredicates` | delphin/semi.py:419-430 | the predicate hierarchy gains the predicate types with their checked synopses, or the first problem is reported and nothing changes |
| `SemiInterface.SemI.FindSynopsis` | delphin/semi.py:506-554 | `find_synopsis` returns exactly the corrected search: an undefined predicate, the first admissible synopsis, or no valid synopsis |
| `SemiInterface.New` | delphin/semi.py:370-387 | the constructor initialises properties, variables, roles and predicates in that order, each only when given, and fails with the first error |
| `SemiInterface.AssignRolesDeclared` | delphin/semi.py:411-417 | every recorded role stays bound to `string` or a declared variable type |
| `SemiInterface.BuildValid` | delphin/semi.py:370-464 | a SEM-I that is built is consistent: every role has a declared value type and every synopsis of every predicate is free of problems and made of normalised roles |
| `SemiInterface.BuildRefusesUndeclaredRole` | delphin/semi.py:411-416 | a role naming an undeclared variable type is refused, once the properties and variables are accepted |
| `SemiInterface.ToDictRoundTrip` | delphin/semi.py:466-504 | what `to_dict` writes of a built SEM-I reads back as the same hierarchies: parents, property lists, roles and synopses |
| `SemiInterface.FirstAdmissibleIsFirst` | delphin/semi.py:541-550 | the synopsis found comes before every other admissible one |
| `SemiInterface.FindSynopsisFound` | delphin/semi.py:534-550 | a synopsis is found exactly when the predicate is defined and one of its synopses has the requested roles (upper-cased, as a set) and types subsumed by the requested (lower-cased) variable types; it is the first such synopsis |
| `SemiInterface.FindSynopsisErrors` | delphin/semi.py:534-553 | the errors are an undefined predicate, exactly when it is not in the hierarchy, and no valid synopsis, exactly when none is admissible |
| `SemiInterface.FindSynopsisAttributeError` | delphin/semi.py:544-548 | as written, requesting variable types with a synopsis of matching size fails with an AttributeError, where the intended search returns that synopsis |
| `SemiInterface.FindSynopsisTypeError` | delphin/semi.py:551-553 | as written, a search without variable types that finds nothing fails with a TypeError while building its message, instead of the intended error |
| `MrsVpm.ValMatch` | delphin/mrs/vpm.py:89-111 | with an equality operator or without a SEM-I, a rule matches exactly when every paired value is equal, a non-null `*`, or null against `!` or the bracketed variable sort; a subsumption operator with a SEM-I never matches |
| `MrsVpm.SubsumptionWithSemiNeverMatches` | delphin/mrs/vpm.py:98-111 | a subsumption test with a SEM-I never selects a rule, because that branch returns nothing |
| `MrsVpm.LrRules` | delphin/mrs/vpm.py:58 | the forward rules are exactly the rules whose operator applies left to right |
| `MrsVpm.RlRules` | delphin/mrs/vpm.py:69 | the reverse rules are exactly the right-to-left rules, with source and target swapped |
| `MrsVpm.FirstMatchAt` | delphin/mrs/vpm.py:59-62 | the rule found is the one at the first matching position, and there is none exactly when no rule matches |
| `MrsVpm.AssignmentsMeaning` | delphin/mrs/vpm.py:76-83 | exactly one assignment per target position that is neither `!` nor an unset `*`, carrying the literal target or the copied source value |
| `MrsVpm.Apply` | delphin/mrs/vpm.py:51-86 | the new variable is the new sort followed by the id, and the new properties are those the property groups assign |
| `MrsVpm.MapSort` | delphin/mrs/vpm.py:59-62 | the type-mapping loop computes the sort the first matching rule gives |
| `MrsVpm.ApplyGroup` | delphin/mrs/vpm.py:66-84 | one group assigns the targets of its first matching rule and nothing else |
| `MrsVpm.AssignTargets` | delphin/mrs/vpm.py:76-83 | the assignment loop performs exactly the assignments of the specification, in order |
| `MrsVpm.ReverseKeepsSort` | delphin/mrs/vpm.py:53-56 | mapping in reverse never changes the variable sort |
| `MrsVpm.ForwardSort` | delphin/mrs/vpm.py:58-62 | forward, the first left-to-right type rule that matches decides the new sort: its first target, or the sort itself for a `*` target; no match keeps the sort |
| `MrsVpm.NewPropsValue` | delphin/mrs/vpm.py:65-86 | a feature of the result holds the value assigned to it last; a feature no rule assigns is absent |
| `MrsVpm.GroupUsesFirstMatch` | delphin/mrs/vpm.py:74-84 | within a group only the first matching rule assigns anything |
| `MrsVpm.LastOp` | delphin/mrs/vpm.py:32 | the greedy `lvals` puts the operator at the last two consecutive operator characters of the line; none when there are no two |
| `MrsVpm.FirstColon` | delphin/mrs/vpm.py:23 | the position of the first `:`, or none when there is no colon |
| `MrsVpm.Header` | delphin/mrs/vpm.py:23-27 | a feature header is non-empty colon-free text, a colon, and non-empty text |
| `MrsVpm.Load` | delphin/mrs/vpm.py:12-43 | the loop over the lines computes exactly the specification: rules go to the type map until the first header and to the latest group after it |
| `MrsVpm.FailureStays` | delphin/mrs/vpm.py:36-41 | once a line fails, the whole file fails with that error |
| `MrsVpm.LoadWellFormed` | delphin/mrs/vpm.py:16-38 | a loaded VPM has one value on each side of every type rule and its header's feature counts on every property rule |
| `MrsVpm.SkippedLinesIgnored` | delphin/mrs/vpm.py:18-21 | blank and comment lines change nothing |
| `DmrsConversion.IdMapHas` | delphin/dmrs/_operations.py:29 | every EP identifier is in `id_to_nid` |
| `DmrsConversion.IdMapConsecutive` | delphin/dmrs/_operations.py:29 | with distinct identifiers, the `i`-th EP becomes node `first + i` |
| `DmrsConversion.NonQuantifiers` | delphin/dmrs/_operations.py:30-31 | exactly the EPs that are not quantifiers |
| `DmrsConversion.IvPairs` | delphin/dmrs/_operations.py:30-31 | only intrinsic variables of EPs that are not quantifiers are paired |
| `DmrsConversion.IvMapKeys` | delphin/dmrs/_operations.py:30-31 | the intrinsic variables in `iv_to_nid` are exactly those of EPs that are not quantifiers |
| `DmrsConversion.TopResolution` | delphin/dmrs/_operations.py:48-56 | a top that is the `hi` of a handle constraint goes to the node of the first representative of its `lo`; a top that is a label goes to its first representative's node; any other top is kept |
| `DmrsConversion.IndexResolution` | delphin/dmrs/_operations.py:30-34 | the index resolves to a node exactly when a non-quantifier EP has it as intrinsic variable; with distinct EP identifiers that node is `first` plus the position of the last such EP; no index gives no index |
| `DmrsConversion.ToNodes` | delphin/dmrs/_operations.py:59-74 | one node per EP, in EP order, with the EP's predicate, sort, carg and node id, and properties for EPs that are not quantifiers |
| `DmrsConversion.NodesConsecutive` | delphin/dmrs/_operations.py:59-74 | with distinct EP identifiers the nodes are numbered consecutively from `first` in EP order, and only quantifiers lack properties |
| `DmrsConversion.EpById` | delphin/dmrs/_operations.py:86 | `m[id]` is an EP with that identifier, and is missing only when no EP has it |
| `DmrsConversion.EpByIdLast` | delphin/dmrs/_operations.py:86 | `m[id]` is the last EP with that identifier |
| `DmrsConversion.RoleArgLinks` | delphin/dmrs/_operations.py:82-103 | the inner loop over one EP's arguments computes exactly its argument links |
| `DmrsConversion.LabelLinks` | delphin/dmrs/_operations.py:106-111 | the loop over one label's representatives computes exactly its links |
| `DmrsConversion.ToLinks` | delphin/dmrs/_operations.py:77-112 | both loops compute exactly the argument links followed by the shared-label links |
| `DmrsConversion.FromMrs` | delphin/dmrs/_operations.py:11-45 | `from_mrs` computes exactly the specification: top, index, nodes and links, or the first lookup error |
| `DmrsConversion.IvMapGet` | delphin/dmrs/_operations.py:30-31 | with distinct EP identifiers, the intrinsic variable of the last non-quantifier EP having it maps to that EP's node, `first` plus its position |
| `DmrsConversion.ArgLinkEnds` | delphin/dmrs/_operations.py:84-99 | an argument link ends at the target's node in `iv_to_nid` for an intrinsic variable; otherwise a label with representatives gives HEQ to its first representative's node; otherwise the `hi` of a handle constraint gives H to the node of the first representative of its `lo` |
| `DmrsConversion.ArgLinkIvNode` | delphin/dmrs/_operations.py:84-86 | with distinct EP identifiers, an argument naming the intrinsic variable of the last non-quantifier EP having it links to that EP's node, `first` plus its position |
| `DmrsConversion.ArgLinkKinds` | delphin/dmrs/_operations.py:84-99 | the post of an argument link tells what its target is: EQ or NEQ for an intrinsic variable, EQ exactly when the labels agree; HEQ for a label; H for the `hi` of a handle constraint |
| `DmrsConversion.ArgLinksForShape` | delphin/dmrs/_operations.py:80-103 | one EP's argument links all start at its node and carry one of its roles, at most one per argument |
| `DmrsConversion.BareLinksShape` | delphin/dmrs/_operations.py:106-111 | one link runs from each later representative's node to the first one's node, in order |
| `DmrsConversion.LabelLinksShape` | delphin/dmrs/_operations.py:105-111 | a label with several representatives links each later one to the first with the bare role and EQ |
| `DmrsConversion.RepLinksCount` | delphin/dmrs/_operations.py:104-111 | the shared-label links number one fewer than the representatives of each label that has several, all bare EQ links |
| `Eds.MakeNode` | delphin/eds/_eds.py:60-70 | missing and empty edges or properties both become an empty dict, and the other arguments are kept as given; what a node means under serialisation is stated by `EdsJson.NodeRoundTrip` and `EdsPenman.FromTriplesNode` |
| `Eds.NodeEqEquivalence` | delphin/eds/_eds.py:72-79 | node equality is reflexive, symmetric and transitive |
| `Eds.NodeEqIgnoresIdLnkAndOrder` | delphin/eds/_eds.py:72-79 | two nodes with the same predicate, type and constant argument and the same edges and properties in any order are equal, whatever their ids and alignments |
| `Eds.NodeById` | delphin/eds/_eds.py:136 | looking a node up by id fails exactly when no node has that id; a node found has that id |
| `Eds.NodeByIdLast` | delphin/eds/_eds.py:136 | of several nodes with one id, the lookup finds the last |
| `Eds.Properties` | delphin/eds/_eds.py:135-136 | `properties(id)` raises a KeyError exactly when no node has the id |
| `Eds.IsQuantifier` | delphin/eds/_eds.py:138-142 | `is_quantifier(id)` raises a KeyError exactly when no node has the id |
| `Eds.NodeQueries` | delphin/eds/_eds.py:135-142 | with distinct ids, `properties(id)` is that node's property dict and `is_quantifier(id)` holds iff the node has a `BV` edge |
| `Eds.KeptEdges` | delphin/eds/_eds.py:129-132 | an edge is kept iff it is one of the node's edges and its target passes the type filter |
| `Eds.ComputeArguments` | delphin/eds/_eds.py:123-133 | the loop over all nodes and their edges builds exactly the argument table the specification function describes |
| `Eds.AddNodeArguments` | delphin/eds/_eds.py:130-132 | the inner loop over one node's edges adds exactly that node's kept edges |
| `Eds.EdgeArgumentsGet` | delphin/eds/_eds.py:130-132 | one node's edges fill only that node's row, appending its kept edges in order |
| `Eds.NodeArgumentsAbsent` | delphin/eds/_eds.py:123-133 | an id no node has gets no row in the table |
| `Eds.NodeArgumentsAt` | delphin/eds/_eds.py:123-133 | with distinct ids, a node's row holds exactly its kept edges and is absent when none is kept |
| `Eds.KeptEdgesAll` | delphin/eds/_eds.py:125-131 | without a type filter every edge is kept |
| `Eds.ArgumentsMeaning` | delphin/eds/_eds.py:123-133 | with distinct ids and roles, `arguments(types)` maps each node to exactly its edges whose target type passes the filter, and to all its edges without a filter |
| `Eds.ArgumentsAbsent` | delphin/eds/_eds.py:123-133 | an id that no node has is absent from `arguments` |
| `EdsJson.ToDict` | delphin/eds/edsjson.py:120-145 | the loop over the nodes builds exactly the dict of the specification function |
| `EdsJson.NodesToJsonGet` | delphin/eds/edsjson.py:128-144 | each node id is a key holding the dict of the last node with that id; no other key is present |
| `EdsJson.NodesToJsonDistinct` | delphin/eds/edsjson.py:128-144 | with distinct ids the node dicts come out in node order, one per node |
| `EdsJson.ToDictShape` | delphin/eds/edsjson.py:138-145 | `top` is copied; an id is a key iff some node has it; without the properties flag no node dict has `properties` |
| `EdsJson.FromDict` | delphin/eds/edsjson.py:148-169 | the loop builds exactly the EDS of the specification function |
| `EdsJson.FromDictSorted` | delphin/eds/edsjson.py:168-169 | `from_dict` keeps `top`, returns a permutation of the decoded nodes, and sorts them by span |
| `EdsJson.NodeRoundTrip` | delphin/eds/edsjson.py:130-167 | a node aligned by a character span (or not at all) decodes back from its dict unchanged |
| `EdsJson.RoundTrip` | delphin/eds/edsjson.py:120-169 | an EDS with distinct ids, span alignments and nodes in span order comes back unchanged from `from_dict(to_dict(e, properties=True))` |
| `EdsPenman.HeadTriples` | delphin/eds/edspenman.py:214-220 | a node's head triples start with its `instance` triple and number one to four |
| `EdsPenman.NodeTriples` | delphin/eds/edspenman.py:213-225 | a node's triples start with its `instance` triple |
| `EdsPenman.ToTriples` | delphin/eds/edspenman.py:201-226 | the loops over nodes, properties and edges build exactly the triples of the specification function |
| `EdsPenman.TopNodes` | delphin/eds/edspenman.py:211 | every node kept has the top id |
| `EdsPenman.OtherNodes` | delphin/eds/edspenman.py:211 | no node kept has the top id |
| `EdsPenman.TopFirst` | delphin/eds/edspenman.py:211 | the stable sort on `n.id != top` puts the top nodes first, then the others, each group in node order |
| `EdsPenman.ToTriplesTopFirst` | delphin/eds/edspenman.py:210-214 | when a node has the top id, the first triple is that node's `instance` triple |
| `EdsPenman.ToTriplesWithoutTop` | delphin/eds/edspenman.py:211 | without a top, the triples follow the node order |
| `EdsPenman.HeadTriplesShape` | delphin/eds/edspenman.py:215-220 | a `lnk` triple appears iff asked for and aligned, a `carg` triple iff the constant argument is non-empty, a `type` triple iff the node has a type, each with the quoted or plain value |
| `EdsPenman.PropertyTriplesMeaning` | delphin/eds/edspenman.py:221-223 | properties are sorted by priority as a permutation and each gives one lower-cased triple |
| `EdsPenman.EdgeTriplesMeaning` | delphin/eds/edspenman.py:224-225 | edges are sorted by role priority as a permutation and each gives one triple |
| `EdsPenman.StripQuotes` | delphin/eds/edspenman.py:242 | `strip('"')`: the result is a slice `s[a..b]` of the input with only double quotes before `a` and after `b`, and it neither starts nor ends with a double quote |
| `EdsPenman.Unquoted` | delphin/eds/edspenman.py:244-245 | a quoted target is the quoting of the result; any other target is kept as is |
| `EdsPenman.Run` | delphin/eds/edspenman.py:234-252 | after the triples, the ids listed and the ids with a record are the same |
| `EdsPenman.BuildNodes` | delphin/eds/edspenman.py:253-260 | one node per collected id |
| `EdsPenman.FromTriples` | delphin/eds/edspenman.py:229-262 | the loop over the triples builds exactly the EDS (or error) of the specification function |
| `EdsPenman.RunFails` | delphin/eds/edspenman.py:243-246 | decoding fails exactly when some `carg` triple has an empty target, given a total alignment parse `parseLnk` |
| `EdsPenman.RunIds` | delphin/eds/edspenman.py:235-236 | ids are collected in first-seen order |
| `EdsPenman.FromTriplesIds` | delphin/eds/edspenman.py:233-261 | the nodes are the distinct sources of the triples in order of first appearance; the top is the first source, absent without triples |
| `EdsPenman.EdgePairs` | delphin/eds/edspenman.py:251-252 | a pair is kept iff its relation is an edge role |
| `EdsPenman.PropertyPairs` | delphin/eds/edspenman.py:249-250 | every property pair is kept with its name upper-cased |
| `EdsPenman.RunMatches` | delphin/eds/edspenman.py:234-252 | each source's record holds what its triples said; an id without triples has no record |
| `EdsPenman.FromTriplesNode` | delphin/eds/edspenman.py:239-260 | each node holds the last `predicate`, `type`, `lnk` and `carg` targets of its triples, and for each role and property the last value given |

## Left out

- Case mapping (`upper`, `lower`, `islower`) covers ASCII letters only; Unicode case folding is not modelled.
- VPM: the arity `assert`s of delphin/mrs/vpm.py:36-37 are modelled as an `ArityMismatch` error, as when Python runs without `-O`; with `-O` the source would accept the line.
- Line terminators other than `\n` (for example `\r\n` read in universal-newline mode) are not distinguished.
- TSQL: the lexer's regular expression, the regular-expression match operators `~` and `!~`, and the date cast are parameters of the model (`lex`, `regex`, `castDate`), not implementations.
- TSQL: `util._connected_components`, used to check that the relations of a query are joinable, is a parameter.
- TSQL: `_plan_joins` iterates over a Python set, whose order the source leaves to the interpreter; the model's methods pick any element, and the properties proved hold for every choice.
- TSQL: the `record_class` argument of `select` and `Selection` is not modelled; rows are plain tuples of values.
- itsdb: reading and writing files, gzip handling, `TestSuite` and its profile and skeleton operations (`process`, `commit`, `reload`) are not modelled; only the text-level encoding, the relation files and the row operations are.
- semi: `load` and the reading of SEM-I files are not modelled; a SEM-I is built from already parsed dicts.
- semi: the type hierarchy's own checks (a parent must be defined before its child, no cycles) from `delphin.hierarchy` are not part of this model; a hierarchy is a map from each type to its parents and data.
- semi: `compatible` and `subsumes` on the variable hierarchy are parameters.
- semi: `self.predicates[predicate]` is taken to be that predicate's list of synopses.
- VPM: the debugging `print` at delphin/mrs/vpm.py:79 and file reading in `load` are left out; `load` takes the file's lines without their terminating `\n`, where the source iterates the file with the `\n` kept. For a header line with nothing after its colon this changes no outcome: `A:` fails in both, since the source's `.+` does not match the `\n` alone.
- DMRS: the MRS accessors used by `from_mrs` (scope representatives, `arguments`, variable types, `properties`) are parameters.
- DMRS: `FIRST_NODE_ID` is a parameter; `EpById` takes the last EP with a given id, as the index built by `MRS` keeps the last one.
- DMRS: the nodes' `lnk`, `surface` and `base` and the DMRS's `lnk`, `surface` and `identifier` are not carried over.
- EDS: `e[id]` is modelled as the last node with that id; `delphin.sembase` is not part of this model.
- EDS: `delphin.lnk` is not part of this model; an alignment is a value whose string form and parse are the parameters `showLnk` and `parseLnk`, and `cfrom`/`cto` are -1 for an alignment that is not a character span. Every present alignment counts as true: `if lnk and node.lnk` (delphin/eds/edspenman.py:215) tests the truth value of a `Lnk`, which is false for an empty alignment, and the model tests only that one is present, as `is not None` does at delphin/eds/edsjson.py:134.
- EdsPenman.RunFails: `Lnk(tgt.strip('"'))` (delphin/eds/edspenman.py:242) raises on a malformed alignment string, while the parameter `parseLnk` is total; so a `lnk` triple with a malformed target decodes here where the source raises, and the "only if" half of `RunFails` (and `Update`, `Step`, `Run`, `FromTriples`) does not cover that failure.
- EDS: `property_priority` and `role_priority` are the parameters `propLess` and `roleLess`, assumed to be strict weak orders.
- EDS: in the JSON form a missing `label` key is not representable (the dict always has one); a missing `nodes` key reads as empty, and `null` and absence are the same.
- EDS: `from_triples` reads every target as a string.
- EDS: `to_triples` writes `instance` triples and `from_triples` reads `predicate` triples, so no PENMAN round trip is stated.
- EDS: the `edges` generator and the `surface` and `identifier` fields are left out.
- EDS: `load`, `loads`, `dump`, `dumps`, `encode` and `decode` are serialization I/O on top of the `penman` and `json` libraries and are left out; so is `EDS.from_xmrs`.
- Python dicts iterate in insertion order; the association lists that model them keep that order.
- TsqlPlanner.OrderJoins: states what a failure leaves behind (joins in a valid order and waiting entries that share nothing with their keys), not which inputs fail; the greedy pass of the source can fail where another first relation would have given a valid order, so failure has no simpler description.
- Itsdb.EncodeRow and Itsdb.MakeRowCells: cells are strings; `encode_row` (delphin/itsdb.py:239) and `make_row` (delphin/itsdb.py:375) apply `str()` to values of other types, which are not modelled.
- ItsdbRows.ApplyRows: rows are values, so the model returns new rows where the source assigns into the caller's row dicts and yields those same objects; the aliasing (the caller's rows changed too) is not captured, and applicator results are strings, where the source may store a value of any type.
- itsdb: `delphin.util.safe_int` is not part of this model; its `int()` parse is the parameter `intOf`.
- TsqlParser.LiteralValue: integer tokens are read as an optional sign and ASCII digits; the lexer's `\d` (delphin/tsql.py:626) and `int()` (delphin/tsql.py:774) also accept every other Unicode decimal digit, and such a token fails here with `InvalidInteger` where the source reads its value.
- ItsdbRelations.IsWordChar: `\\w` and `\\d` are taken in their ASCII sense; the Unicode letters and digits Python's `re` also accepts in a `str` pattern are not modelled.
- TSQL: a malformed regular expression given to `~` or `!~` raises `re.error` in the source; the parameter `regex` returns a truth value and cannot fail, so that error is not modelled.
- MrsVpm.Apply: takes the variable already split into its sort and its id; `delphin.mrs.components.sort_vid_split` is not part of this model, so a malformed variable name (where that split raises) is not modelled.
- SemiInterface.ToDictRoundTrip: states that `to_dict` keeps every hierarchy's parents and data, not equality of whole dicts.
- EdsJson.RoundTrip: stated only for nodes aligned by character spans, for distinct node ids and for nodes already in span order, since `from_dict` sorts and rebuilds alignments from `cfrom`/`cto`.

## Findings

| source | as written | input that shows it | evidently intended | confidence | as-written member | corrected member |
|---|---|---|---|---|---|---|
| delphin/semi.py:544-548 | the variable-type filter calls `self.subsumes`, which `SemI` does not define, so it raises AttributeError | a defined predicate with one synopsis and a `variables` list of the same length | compare each variable type by subsumption in the variable hierarchy | not executed | `SemiInterface.FindSynopsisAttributeError` | `SemiInterface.SemI.FindSynopsis` |
| delphin/semi.py:551-553 | the error message joins `variables`, which is `None` when only roles were given, so it raises TypeError | `roles` given, `variables` None, no synopsis with those roles | raise SemIError "no valid synopsis" | not executed | `SemiInterface.FindSynopsisTypeError` | `SemiInterface.SemI.FindSynopsis` |
