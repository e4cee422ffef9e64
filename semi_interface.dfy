/** The `SemI` class: construction with validation, `to_dict` and
    `find_synopsis`. */
module SemiInterface {
  import opened Wrappers
  import opened PyStrings
  import opened Dicts
  import opened SemiSynopsis
  import opened Semi

  /** The four parts of a SEM-I. */
  datatype State = State(
    properties: Hier<()>,
    variables: Hier<seq<(string, string)>>,
    roles: map<string, string>,
    predicates: Hier<seq<Synopsis>>)

  /** What `SemI(variables, properties, roles, predicates)` builds, or the
      first error it raises: properties first, then variables, roles and
      predicates. */
  function Build(variables: Dict<string, VariableEntry>, properties: Dict<string, PropertyEntry>,
                 roles: Dict<string, RoleEntry>, predicates: Dict<string, PredicateEntry>, compatible: Compatible)
    : Result<State, SemIError>
  {
    var props := PropertyTypes(properties);
    match VariableTypes(variables, props)
    case Failure(e) => Failure(e)
    case Success(vars) =>
      var k := FirstUndeclared(roles, vars);
      if k < |roles| then Failure(UndefinedVariableType(None, Lower(roles[k].1.value)))
      else
        var rs := AssignRoles(map[], roles);
        match PredicateTypes(predicates, rs, vars, props, compatible)
        case Failure(e) => Failure(e)
        case Success(preds) => Success(State(props, vars, rs, preds))
  }

  /** `propcache` in `_init_predicates`: the property list of every declared
      variable type, as a dict. */
  function Cache(variables: Hier<seq<(string, string)>>): (c: map<string, Dict<string, string>>)
    ensures forall t :: (t in c) == (t in variables)
    ensures forall t :: t in c ==> PropCache(variables, t) == Some(c[t])
  {
    map t | t in variables :: DictOf(variables[t].data)
  }

  // ---------------------------------------------------------------------
  // to_dict

  datatype VariableDict = VariableDict(parents: Option<seq<string>>, properties: Option<seq<(string, string)>>)
  datatype PropertyDict = PropertyDict(parents: Option<seq<string>>)
  datatype PredicateDict = PredicateDict(parents: Option<seq<string>>, synopses: Option<seq<SynopsisDict>>)

  /** The dictionary form of a SEM-I. */
  datatype SemIDict = SemIDict(
    variables: map<string, VariableDict>,
    properties: map<string, PropertyDict>,
    roles: map<string, RoleEntry>,
    predicates: map<string, PredicateDict>)

  function SynopsesToDict(ss: seq<Synopsis>): (r: seq<SynopsisDict>)
    ensures |r| == |ss| && forall i :: 0 <= i < |ss| ==> r[i] == SynopsisToDict(ss[i])
  {
    seq(|ss|, i requires 0 <= i < |ss| => SynopsisToDict(ss[i]))
  }

  /** `SemI.to_dict()`: parents only when they are not just the top type,
      property lists and synopses only when there are some. */
  function ToDict(st: State): (d: SemIDict)
    ensures d.variables.Keys == st.variables.Keys && d.properties.Keys == st.properties.Keys
    ensures d.roles.Keys == st.roles.Keys && d.predicates.Keys == st.predicates.Keys
    ensures forall t :: t in st.variables ==>
      (d.variables[t].properties.None? <==> st.variables[t].data == []) &&
      (d.variables[t].parents.None? <==> st.variables[t].parents in {[], [TopType]})
    ensures forall t :: t in st.predicates ==>
      (d.predicates[t].synopses.None? <==> st.predicates[t].data == []) &&
      (d.predicates[t].parents.None? <==> st.predicates[t].parents in {[], [TopType]})
    ensures forall t :: t in st.properties ==> (d.properties[t].parents.None? <==> st.properties[t].parents in {[], [TopType]})
  {
    SemIDict(
      map t | t in st.variables :: VariableDict(ParentsToDict(st.variables[t].parents),
        if st.variables[t].data != [] then Some(st.variables[t].data) else None),
      map t | t in st.properties :: PropertyDict(ParentsToDict(st.properties[t].parents)),
      map r | r in st.roles :: RoleEntry(st.roles[r]),
      map t | t in st.predicates :: PredicateDict(ParentsToDict(st.predicates[t].parents),
        if st.predicates[t].data != [] then Some(SynopsesToDict(st.predicates[t].data)) else None))
  }

  // ---------------------------------------------------------------------
  // find_synopsis

  /** The errors `find_synopsis` raises. */
  datatype FindError =
    | UndefinedPredicate(pred: string)
    | NoValidSynopsis(pred: string)
      /** looking up a method the class does not have */
    | AttributeError
      /** `', '.join(None)` */
    | TypeError

  /** Whether a variable type subsumes another in the variable hierarchy. */
  type Subsumes = (string, string) -> bool

  /** `set(d[0] for d in synopsis)` */
  function RoleNames(s: Synopsis): set<string> {
    set i | 0 <= i < |s| :: s[i].name
  }

  /** `set(role.upper() for role in roles)` */
  function Requested(roles: seq<string>): set<string> {
    set i | 0 <= i < |roles| :: Upper(roles[i])
  }

  /** `[var.lower() for var in variables]` */
  function LowerAll(vs: seq<string>): (r: seq<string>)
    ensures |r| == |vs| && forall i :: 0 <= i < |vs| ==> r[i] == Lower(vs[i])
  {
    seq(|vs|, i requires 0 <= i < |vs| => Lower(vs[i]))
  }

  /** A synopsis uses exactly the requested roles (when given) and, role by
      role, types subsumed by the requested variable types (when given). */
  predicate Admissible(s: Synopsis, roles: Option<set<string>>, vars: Option<seq<string>>, subsumes: Subsumes) {
    (roles.Some? ==> RoleNames(s) == roles.value) &&
    (vars.Some? ==> |s| == |vars.value| && forall i :: 0 <= i < |s| ==> subsumes(s[i].value, vars.value[i]))
  }

  /** The synopses of a predicate type (none for the top type). */
  function SynopsesOf(predicates: Hier<seq<Synopsis>>, pred: string): seq<Synopsis> {
    if pred in predicates then predicates[pred].data else []
  }

  /** The first admissible synopsis. */
  function FirstAdmissible(ss: seq<Synopsis>, roles: Option<set<string>>, vars: Option<seq<string>>, subsumes: Subsumes)
    : (r: Option<Synopsis>)
    ensures r.Some? ==> r.value in ss && Admissible(r.value, roles, vars, subsumes)
    ensures r.None? <==> forall i :: 0 <= i < |ss| ==> !Admissible(ss[i], roles, vars, subsumes)
  {
    if ss == [] then None
    else if Admissible(ss[0], roles, vars, subsumes) then Some(ss[0])
    else
      var r := FirstAdmissible(ss[1..], roles, vars, subsumes);
      assert forall i :: 1 <= i < |ss| ==> ss[i] == ss[1..][i - 1];
      r
  }

  function RoleFilter(roles: Option<seq<string>>): Option<set<string>> {
    if roles.Some? then Some(Requested(roles.value)) else None
  }

  function TypeFilter(vars: Option<seq<string>>): Option<seq<string>> {
    if vars.Some? then Some(LowerAll(vars.value)) else None
  }

  /** `find_synopsis(predicate, roles, variables)` as evidently intended:
      the variable types tested with the variable hierarchy's subsumption,
      and a `SemIError` when nothing matches. */
  function FindSynopsisSpec(predicates: Hier<seq<Synopsis>>, pred: string, roles: Option<seq<string>>,
                            vars: Option<seq<string>>, subsumes: Subsumes): Result<Synopsis, FindError>
  {
    if !InHier(predicates, pred) then Failure(UndefinedPredicate(pred))
    else match FirstAdmissible(SynopsesOf(predicates, pred), RoleFilter(roles), TypeFilter(vars), subsumes)
      case Some(s) => Success(s)
      case None => Failure(NoValidSynopsis(pred))
  }

  /** The search as written: once a synopsis passes the role test and has
      as many roles as there are (one or more) requested types, evaluating
      the type test looks up `self.subsumes`, which `SemI` does not define. */
  function FirstAsWritten(ss: seq<Synopsis>, roles: Option<set<string>>, vars: Option<seq<string>>)
    : Result<Option<Synopsis>, FindError>
  {
    if ss == [] then Success(None)
    else
      var s := ss[0];
      if roles.Some? && roles.value != RoleNames(s) then FirstAsWritten(ss[1..], roles, vars)
      else if vars.Some? && |s| != |vars.value| then FirstAsWritten(ss[1..], roles, vars)
      else if vars.Some? && |s| > 0 then Failure(AttributeError)
      else Success(Some(s))
  }

  /** `find_synopsis` as written: besides the missing `subsumes`, the
      message for "no valid synopsis" joins `variables`, which fails when
      no variables were given. */
  function FindSynopsisAsWritten(predicates: Hier<seq<Synopsis>>, pred: string, roles: Option<seq<string>>,
                                 vars: Option<seq<string>>): Result<Synopsis, FindError>
  {
    if !InHier(predicates, pred) then Failure(UndefinedPredicate(pred))
    else match FirstAsWritten(SynopsesOf(predicates, pred), RoleFilter(roles), TypeFilter(vars))
      case Failure(e) => Failure(e)
      case Success(Some(s)) => Success(s)
      case Success(None) => if vars.None? then Failure(TypeError) else Failure(NoValidSynopsis(pred))
  }

  class SemI {
    var properties: Hier<()>
    var variables: Hier<seq<(string, string)>>
    var roles: map<string, string>
    var predicates: Hier<seq<Synopsis>>

    function Current(): State
      reads this
    {
      State(properties, variables, roles, predicates)
    }

    /** Empty hierarchies and no roles. */
    constructor Empty()
      ensures Current() == State(map[], map[], map[], map[])
    {
      properties := map[];
      variables := map[];
      roles := map[];
      predicates := map[];
    }

    /** `_init_properties` */
    method InitProperties(entries: Dict<string, PropertyEntry>)
      modifies this
      ensures properties == old(properties) + PropertyTypes(entries)
      ensures variables == old(variables) && roles == old(roles) && predicates == old(predicates)
    {
      var subhier: Hier<()> := map[];
      for i := 0 to |entries|
        invariant subhier == PropertyTypes(entries[..i])
      {
        assert entries[..i + 1][..i] == entries[..i];
        var prop := Lower(entries[i].0);
        subhier := AddToSubhierarchy(subhier, prop, entries[i].1.parents, ());
      }
      assert entries[..|entries|] == entries;
      properties := properties + subhier;
    }

    /** `_init_variables` */
    method InitVariables(entries: Dict<string, VariableEntry>) returns (err: Option<SemIError>)
      modifies this
      ensures VariableTypes(entries, properties).Failure? ==>
        err == Some(VariableTypes(entries, properties).error) && variables == old(variables)
      ensures VariableTypes(entries, properties).Success? ==>
        err == None && variables == old(variables) + VariableTypes(entries, properties).value
      ensures properties == old(properties) && roles == old(roles) && predicates == old(predicates)
    {
      var subhier: Hier<seq<(string, string)>> := map[];
      for i := 0 to |entries|
        invariant VariableTypes(entries[..i], properties) == Success(subhier)
      {
        assert entries[..i + 1][..i] == entries[..i];
        var pairs := entries[i].1.properties;
        var props: seq<(string, string)> := [];
        for j := 0 to |pairs|
          invariant VariableProperties(pairs[..j], properties) == Success(props)
        {
          assert pairs[..j + 1][..j] == pairs[..j];
          var k, v := Upper(pairs[j].0), Lower(pairs[j].1);
          if !InHier(properties, v) {
            VariablePropertiesFailsFrom(pairs, properties, j);
            VariableTypesFailsFrom(entries, properties, i);
            return Some(UndefinedPropertyValue(None, v));
          }
          props := props + [(k, v)];
        }
        assert pairs[..|pairs|] == pairs;
        subhier := AddToSubhierarchy(subhier, Lower(entries[i].0), entries[i].1.parents, props);
      }
      assert entries[..|entries|] == entries;
      variables := variables + subhier;
      return None;
    }

    /** `_init_roles`: each role is recorded as it is checked, so a failure
        leaves the roles before it recorded. */
    method InitRoles(entries: Dict<string, RoleEntry>) returns (err: Option<SemIError>)
      modifies this
      ensures var k := FirstUndeclared(entries, variables);
        roles == AssignRoles(old(roles), entries[..k]) &&
        (err.None? <==> k == |entries|) &&
        (k < |entries| ==> err == Some(UndefinedVariableType(None, Lower(entries[k].1.value))))
      ensures properties == old(properties) && variables == old(variables) && predicates == old(predicates)
    {
      for i := 0 to |entries|
        invariant properties == old(properties) && variables == old(variables) && predicates == old(predicates)
        invariant i <= FirstUndeclared(entries, variables)
        invariant roles == AssignRoles(old(roles), entries[..i])
      {
        assert entries[..i + 1][..i] == entries[..i];
        var role := Upper(entries[i].0);
        var v := Lower(entries[i].1.value);
        if !(v == StringType || InHier(variables, v)) {
          return Some(UndefinedVariableType(None, v));
        }
        roles := roles[role := v];
      }
      assert entries[..|entries|] == entries;
      return None;
    }

    /** `_init_synopsis`: the synopsis read from its dictionary, checked
        role by role and property by property. */
    method InitSynopsis(pred: string, d: SynopsisDict, propcache: map<string, Dict<string, string>>, compatible: Compatible)
      returns (r: Result<Synopsis, SemIError>)
      requires propcache == Cache(variables)
      ensures SynopsisProblem(pred, SynopsisFromDict(d), roles, variables, properties, compatible).Some? ==>
        r == Failure(SynopsisProblem(pred, SynopsisFromDict(d), roles, variables, properties, compatible).value)
      ensures SynopsisProblem(pred, SynopsisFromDict(d), roles, variables, properties, compatible).None? ==>
        r == Success(SynopsisFromDict(d))
    {
      var synopsis := SynopsisFromDict(d);
      for i := 0 to |synopsis|
        invariant forall m :: 0 <= m < i ==> RoleProblem(pred, synopsis[m], roles, variables, properties, compatible).None?
      {
        var role := synopsis[i];
        var problem: Option<SemIError> := None;
        if role.name !in roles {
          problem := Some(UndefinedRole(pred, role.name));
        } else if role.value == StringType {
          if role.properties != [] {
            problem := Some(StringProperties(pred));
          }
        } else if !InHier(variables, role.value) {
          problem := Some(UndefinedVariableType(Some(pred), role.value));
        } else {
          problem := CheckProperties(pred, role.value, role.properties, propcache, compatible);
        }
        if problem.Some? {
          SynopsisProblemAt(pred, synopsis, roles, variables, properties, compatible, i);
          return Failure(problem.value);
        }
      }
      return Success(synopsis);
    }

    /** The loop over one role's properties in `_init_synopsis`. */
    method CheckProperties(pred: string, vtype: string, props: Dict<string, string>,
                           propcache: map<string, Dict<string, string>>, compatible: Compatible)
      returns (problem: Option<SemIError>)
      requires propcache == Cache(variables)
      ensures problem == PropertiesProblem(pred, vtype, props, PropCache(variables, vtype), properties, compatible)
    {
      for j := 0 to |props|
        invariant forall m :: 0 <= m < j ==>
          PropertyProblem(pred, vtype, props[m].0, props[m].1, PropCache(variables, vtype), properties, compatible).None?
      {
        var (k, v) := props[j];
        var p: Option<SemIError> := None;
        if !InHier(properties, v) {
          p := Some(UndefinedPropertyValue(Some(pred), v));
        } else if vtype !in propcache {
          p := Some(MissingCacheEntry(vtype));
        } else {
          var declared := Get(propcache[vtype], k);
          // a property the variable type does not declare is only warned about
          if declared.Some? && !compatible(v, declared.value) {
            p := Some(IncompatibleProperty(pred, v, declared.value));
          }
        }
        if p.Some? {
          PropertiesProblemAt(pred, vtype, props, PropCache(variables, vtype), properties, compatible, j);
          return p;
        }
      }
      PropertiesProblemAt(pred, vtype, props, PropCache(variables, vtype), properties, compatible, |props|);
      return None;
    }

    /** `_init_predicates` */
    method InitPredicates(entries: Dict<string, PredicateEntry>, compatible: Compatible) returns (err: Option<SemIError>)
      modifies this
      ensures PredicateTypes(entries, roles, variables, properties, compatible).Failure? ==>
        err == Some(PredicateTypes(entries, roles, variables, properties, compatible).error) && predicates == old(predicates)
      ensures PredicateTypes(entries, roles, variables, properties, compatible).Success? ==>
        err == None && predicates == old(predicates) + PredicateTypes(entries, roles, variables, properties, compatible).value
      ensures properties == old(properties) && variables == old(variables) && roles == old(roles)
    {
      var subhier: Hier<seq<Synopsis>> := map[];
      var propcache := Cache(variables);
      for i := 0 to |entries|
        invariant properties == old(properties) && variables == old(variables) && roles == old(roles)
        invariant predicates == old(predicates)
        invariant PredicateTypes(entries[..i], roles, variables, properties, compatible) == Success(subhier)
      {
        assert entries[..i + 1][..i] == entries[..i];
        var pred := Lower(entries[i].0);
        var ds := entries[i].1.synopses;
        var synopses: seq<Synopsis> := [];
        for j := 0 to |ds|
          invariant properties == old(properties) && variables == old(variables) && roles == old(roles)
          invariant predicates == old(predicates)
          invariant Synopses(pred, ds[..j], roles, variables, properties, compatible) == Success(synopses)
        {
          assert ds[..j + 1][..j] == ds[..j];
          var s := InitSynopsis(pred, ds[j], propcache, compatible);
          if s.Failure? {
            SynopsesFailsFrom(pred, ds, roles, variables, properties, compatible, j);
            PredicateTypesFailsFrom(entries, roles, variables, properties, compatible, i);
            return Some(s.error);
          }
          synopses := synopses + [s.value];
        }
        assert ds[..|ds|] == ds;
        subhier := AddToSubhierarchy(subhier, pred, entries[i].1.parents, synopses);
      }
      assert entries[..|entries|] == entries;
      predicates := predicates + subhier;
      return None;
    }

    /** `find_synopsis(predicate, roles, variables)`, with the variable
        hierarchy's subsumption as `subsumes`. */
    method FindSynopsis(pred: string, roles: Option<seq<string>>, variables: Option<seq<string>>, subsumes: Subsumes)
      returns (r: Result<Synopsis, FindError>)
      ensures r == FindSynopsisSpec(predicates, pred, roles, variables, subsumes)
    {
      if !InHier(predicates, pred) {
        return Failure(UndefinedPredicate(pred));
      }
      var roleSet: Option<set<string>> := None;
      if roles.Some? {
        roleSet := Some(Requested(roles.value));
      }
      var types: Option<seq<string>> := None;
      if variables.Some? {
        types := Some(LowerAll(variables.value));
      }
      var ss := SynopsesOf(predicates, pred);
      var found: Option<Synopsis> := None;
      var i := 0;
      while i < |ss|
        invariant 0 <= i <= |ss|
        invariant FirstAdmissible(ss, roleSet, types, subsumes) == FirstAdmissible(ss[i..], roleSet, types, subsumes)
      {
        var s := ss[i];
        assert ss[i..][1..] == ss[i + 1..];
        if roleSet.Some? && roleSet.value != RoleNames(s) {
          i := i + 1;
          continue;
        }
        if types.Some? && (|s| != |types.value| || !(forall k :: 0 <= k < |s| ==> subsumes(s[k].value, types.value[k]))) {
          i := i + 1;
          continue;
        }
        found := Some(s);
        break;
      }
      if found.None? {
        return Failure(NoValidSynopsis(pred));
      }
      return Success(found.value);
    }
  }

  /** `SemI(variables, properties, roles, predicates)`: each part is
      initialised only when given (non-empty). */
  method New(variables: Dict<string, VariableEntry>, properties: Dict<string, PropertyEntry>,
             roles: Dict<string, RoleEntry>, predicates: Dict<string, PredicateEntry>, compatible: Compatible)
    returns (r: Result<SemI, SemIError>)
    ensures Build(variables, properties, roles, predicates, compatible).Failure? ==>
      r == Failure(Build(variables, properties, roles, predicates, compatible).error)
    ensures Build(variables, properties, roles, predicates, compatible).Success? ==>
      r.Success? && fresh(r.value) && r.value.Current() == Build(variables, properties, roles, predicates, compatible).value
  {
    var s := new SemI.Empty();
    ghost var props := PropertyTypes(properties);
    if properties != [] {
      s.InitProperties(properties);
      EmptyUnion(props);
    }
    ghost var vr := VariableTypes(variables, props);
    if variables != [] {
      var err := s.InitVariables(variables);
      if err.Some? {
        return Failure(err.value);
      }
      EmptyUnion(vr.value);
    }
    ghost var vars := vr.value;
    assert s.variables == vars;
    if roles != [] {
      var err := s.InitRoles(roles);
      if err.Some? {
        return Failure(err.value);
      }
    }
    assert roles[..|roles|] == roles;
    ghost var rs := AssignRoles(map[], roles);
    assert s.roles == rs;
    ghost var pr := PredicateTypes(predicates, rs, vars, props, compatible);
    if predicates != [] {
      var err := s.InitPredicates(predicates, compatible);
      if err.Some? {
        return Failure(err.value);
      }
      EmptyUnion(pr.value);
    }
    BuildSucceeds(variables, properties, roles, predicates, compatible);
    return Success(s);
  }

  lemma EmptyUnion<K, V>(m: map<K, V>)
    ensures map[] + m == m
  {
  }

  lemma BuildSucceeds(variables: Dict<string, VariableEntry>, properties: Dict<string, PropertyEntry>,
                      roles: Dict<string, RoleEntry>, predicates: Dict<string, PredicateEntry>, compatible: Compatible)
    requires VariableTypes(variables, PropertyTypes(properties)).Success?
    requires FirstUndeclared(roles, VariableTypes(variables, PropertyTypes(properties)).value) == |roles|
    requires PredicateTypes(predicates, AssignRoles(map[], roles), VariableTypes(variables, PropertyTypes(properties)).value,
                            PropertyTypes(properties), compatible).Success?
    ensures Build(variables, properties, roles, predicates, compatible) ==
      Success(State(PropertyTypes(properties), VariableTypes(variables, PropertyTypes(properties)).value, AssignRoles(map[], roles),
                    PredicateTypes(predicates, AssignRoles(map[], roles), VariableTypes(variables, PropertyTypes(properties)).value,
                                   PropertyTypes(properties), compatible).value))
  {
  }

  // ---------------------------------------------------------------------
  // What a successfully built SEM-I guarantees

  /** Every recorded role stays bound to `string` or a declared variable type. */
  lemma {:induction false} AssignRolesDeclared(m: map<string, string>, roles: Dict<string, RoleEntry>,
                                               variables: Hier<seq<(string, string)>>)
    requires forall r :: r in m ==> m[r] == StringType || InHier(variables, m[r])
    requires forall i :: 0 <= i < |roles| ==> Declared(roles[i].1, variables)
    ensures forall r :: r in AssignRoles(m, roles) ==>
      AssignRoles(m, roles)[r] == StringType || InHier(variables, AssignRoles(m, roles)[r])
  {
    if roles != [] {
      var n := |roles| - 1;
      AssignRolesDeclared(m, roles[..n], variables);
    }
  }

  /** A SEM-I that is built is consistent: every role has a declared value
      type and every synopsis of every predicate is free of problems and made
      of normalised roles. */
  lemma BuildValid(variables: Dict<string, VariableEntry>, properties: Dict<string, PropertyEntry>,
                   roles: Dict<string, RoleEntry>, predicates: Dict<string, PredicateEntry>, compatible: Compatible)
    requires Build(variables, properties, roles, predicates, compatible).Success?
    ensures var st := Build(variables, properties, roles, predicates, compatible).value;
      (forall r :: r in st.roles ==> st.roles[r] == StringType || InHier(st.variables, st.roles[r])) &&
      (forall t, j :: t in st.predicates && 0 <= j < |st.predicates[t].data| ==>
        SynopsisProblem(t, st.predicates[t].data[j], st.roles, st.variables, st.properties, compatible).None? &&
        forall i :: 0 <= i < |st.predicates[t].data[j]| ==> Normal(st.predicates[t].data[j][i]))
  {
    var props := PropertyTypes(properties);
    var vars := VariableTypes(variables, props).value;
    var rs := AssignRoles(map[], roles);
    AssignRolesDeclared(map[], roles, vars);
    forall t, j | t in PredicateTypes(predicates, rs, vars, props, compatible).value &&
                  0 <= j < |PredicateTypes(predicates, rs, vars, props, compatible).value[t].data|
      ensures var s := PredicateTypes(predicates, rs, vars, props, compatible).value[t].data[j];
        SynopsisProblem(t, s, rs, vars, props, compatible).None? && forall i :: 0 <= i < |s| ==> Normal(s[i])
    {
      PredicateTypesValid(predicates, rs, vars, props, compatible, t, j);
    }
  }

  /** A role naming an undeclared variable type is refused, once the
      properties and variables are accepted. */
  lemma BuildRefusesUndeclaredRole(variables: Dict<string, VariableEntry>, properties: Dict<string, PropertyEntry>,
                                   roles: Dict<string, RoleEntry>, predicates: Dict<string, PredicateEntry>,
                                   compatible: Compatible, i: nat)
    requires VariableTypes(variables, PropertyTypes(properties)).Success?
    requires i < |roles| && !Declared(roles[i].1, VariableTypes(variables, PropertyTypes(properties)).value)
    ensures Build(variables, properties, roles, predicates, compatible).Failure?
    ensures Build(variables, properties, roles, predicates, compatible).error.UndefinedVariableType?
  {
    var vars := VariableTypes(variables, PropertyTypes(properties)).value;
    assert FirstUndeclared(roles, vars) < |roles|;
  }

  /** Parents recorded in a hierarchy come back unchanged from `to_dict`. */
  ghost predicate ParentsStable<D>(h: Hier<D>) {
    forall t :: t in h ==> NodeParents(ParentsToDict(h[t].parents)) == h[t].parents
  }

  lemma AddKeepsParentsStable<D>(h: Hier<D>, t: string, parents: Option<seq<string>>, data: D)
    requires ParentsStable(h)
    ensures ParentsStable(AddToSubhierarchy(h, t, parents, data))
  {
    ParentsRoundTrip(parents);
  }

  lemma {:induction false} PropertyTypesStable(entries: Dict<string, PropertyEntry>)
    ensures ParentsStable(PropertyTypes(entries))
  {
    if entries != [] {
      var n := |entries| - 1;
      PropertyTypesStable(entries[..n]);
      AddKeepsParentsStable(PropertyTypes(entries[..n]), Lower(entries[n].0), entries[n].1.parents, ());
    }
  }

  lemma {:induction false} VariableTypesStable(entries: Dict<string, VariableEntry>, properties: Hier<()>)
    requires VariableTypes(entries, properties).Success?
    ensures ParentsStable(VariableTypes(entries, properties).value)
  {
    var n := |entries| - 1;
    if entries != [] {
      VariableTypesStable(entries[..n], properties);
      var ps := VariableProperties(entries[n].1.properties, properties).value;
      AddKeepsParentsStable(VariableTypes(entries[..n], properties).value, Lower(entries[n].0), entries[n].1.parents, ps);
    }
  }

  lemma {:induction false} PredicateTypesStable(entries: Dict<string, PredicateEntry>, roles: map<string, string>,
                                                variables: Hier<seq<(string, string)>>, properties: Hier<()>,
                                                compatible: Compatible)
    requires PredicateTypes(entries, roles, variables, properties, compatible).Success?
    ensures ParentsStable(PredicateTypes(entries, roles, variables, properties, compatible).value)
  {
    if entries != [] {
      var n := |entries| - 1;
      PredicateTypesStable(entries[..n], roles, variables, properties, compatible);
      var pred := Lower(entries[n].0);
      var ss := Synopses(pred, entries[n].1.synopses, roles, variables, properties, compatible).value;
      AddKeepsParentsStable(PredicateTypes(entries[..n], roles, variables, properties, compatible).value,
                            pred, entries[n].1.parents, ss);
    }
  }

  /** What `to_dict` writes of a built SEM-I reads back as the same
      hierarchies: the parents of every type, the property lists of the
      variable types, the role values and every synopsis. */
  lemma ToDictRoundTrip(variables: Dict<string, VariableEntry>, properties: Dict<string, PropertyEntry>,
                        roles: Dict<string, RoleEntry>, predicates: Dict<string, PredicateEntry>, compatible: Compatible)
    requires Build(variables, properties, roles, predicates, compatible).Success?
    ensures var st := Build(variables, properties, roles, predicates, compatible).value;
      var d := ToDict(st);
      (forall t :: t in st.properties ==> NodeParents(d.properties[t].parents) == st.properties[t].parents) &&
      (forall t :: t in st.variables ==>
        NodeParents(d.variables[t].parents) == st.variables[t].parents &&
        d.variables[t].properties.GetOr([]) == st.variables[t].data) &&
      (forall r :: r in st.roles ==> d.roles[r].value == st.roles[r]) &&
      (forall t :: t in st.predicates ==>
        NodeParents(d.predicates[t].parents) == st.predicates[t].parents &&
        |d.predicates[t].synopses.GetOr([])| == |st.predicates[t].data| &&
        forall j :: 0 <= j < |st.predicates[t].data| ==>
          SynopsisFromDict(d.predicates[t].synopses.GetOr([])[j]) == st.predicates[t].data[j])
  {
    var st := Build(variables, properties, roles, predicates, compatible).value;
    var props := PropertyTypes(properties);
    var vars := VariableTypes(variables, props).value;
    var rs := AssignRoles(map[], roles);
    PropertyTypesStable(properties);
    VariableTypesStable(variables, props);
    PredicateTypesStable(predicates, rs, vars, props, compatible);
    BuildValid(variables, properties, roles, predicates, compatible);
    forall t, j | t in st.predicates && 0 <= j < |st.predicates[t].data|
      ensures SynopsisFromDict(ToDict(st).predicates[t].synopses.GetOr([])[j]) == st.predicates[t].data[j]
    {
      SynopsisRoundTrip(st.predicates[t].data[j]);
    }
  }

  // ---------------------------------------------------------------------
  // What find_synopsis guarantees

  /** The synopsis found is the first admissible one. */
  lemma {:induction false} FirstAdmissibleIsFirst(ss: seq<Synopsis>, roles: Option<set<string>>, vars: Option<seq<string>>,
                                                  subsumes: Subsumes)
    requires FirstAdmissible(ss, roles, vars, subsumes).Some?
    ensures exists k :: 0 <= k < |ss| && ss[k] == FirstAdmissible(ss, roles, vars, subsumes).value &&
                        (forall j :: 0 <= j < k ==> !Admissible(ss[j], roles, vars, subsumes))
  {
    if !Admissible(ss[0], roles, vars, subsumes) {
      FirstAdmissibleIsFirst(ss[1..], roles, vars, subsumes);
      var k :| 0 <= k < |ss[1..]| && ss[1..][k] == FirstAdmissible(ss[1..], roles, vars, subsumes).value &&
        forall j :: 0 <= j < k ==> !Admissible(ss[1..][j], roles, vars, subsumes);
      assert ss[k + 1] == ss[1..][k];
      assert forall j :: 1 <= j < k + 1 ==> ss[j] == ss[1..][j - 1];
    } else {
      assert ss[0] == FirstAdmissible(ss, roles, vars, subsumes).value;
    }
  }

  /** A synopsis is found exactly when the predicate is defined and one of
      its synopses has the requested roles (upper-cased, as a set) and, role
      by role, value types subsumed by the requested (lower-cased) variable
      types; it is the first such synopsis. */
  lemma FindSynopsisFound(predicates: Hier<seq<Synopsis>>, pred: string, roles: Option<seq<string>>,
                          vars: Option<seq<string>>, subsumes: Subsumes)
    ensures FindSynopsisSpec(predicates, pred, roles, vars, subsumes).Success? <==>
      InHier(predicates, pred) &&
      exists k :: 0 <= k < |SynopsesOf(predicates, pred)| &&
        Admissible(SynopsesOf(predicates, pred)[k], RoleFilter(roles), TypeFilter(vars), subsumes)
    ensures FindSynopsisSpec(predicates, pred, roles, vars, subsumes).Success? ==>
      var s := FindSynopsisSpec(predicates, pred, roles, vars, subsumes).value;
      var ss := SynopsesOf(predicates, pred);
      (roles.Some? ==> RoleNames(s) == Requested(roles.value)) &&
      (vars.Some? ==> |s| == |vars.value| && forall i :: 0 <= i < |s| ==> subsumes(s[i].value, Lower(vars.value[i]))) &&
      exists k :: 0 <= k < |ss| && ss[k] == s && forall j :: 0 <= j < k ==> !Admissible(ss[j], RoleFilter(roles), TypeFilter(vars), subsumes)
  {
    var ss := SynopsesOf(predicates, pred);
    if InHier(predicates, pred) && FirstAdmissible(ss, RoleFilter(roles), TypeFilter(vars), subsumes).Some? {
      FirstAdmissibleIsFirst(ss, RoleFilter(roles), TypeFilter(vars), subsumes);
    }
  }

  /** The errors: an undefined predicate, or no admissible synopsis. */
  lemma FindSynopsisErrors(predicates: Hier<seq<Synopsis>>, pred: string, roles: Option<seq<string>>,
                           vars: Option<seq<string>>, subsumes: Subsumes)
    ensures FindSynopsisSpec(predicates, pred, roles, vars, subsumes) == Failure(UndefinedPredicate(pred)) <==>
      !InHier(predicates, pred)
    ensures FindSynopsisSpec(predicates, pred, roles, vars, subsumes) == Failure(NoValidSynopsis(pred)) <==>
      InHier(predicates, pred) &&
      forall k :: 0 <= k < |SynopsesOf(predicates, pred)| ==>
        !Admissible(SynopsesOf(predicates, pred)[k], RoleFilter(roles), TypeFilter(vars), subsumes)
  {
  }

  // ---------------------------------------------------------------------
  // find_synopsis as written

  /** With variable types requested, a synopsis of matching size and roles
      makes the search as written fail, where the intended search returns
      it when its types are subsumed. */
  lemma FindSynopsisAttributeError(predicates: Hier<seq<Synopsis>>, pred: string, s: Synopsis, vars: seq<string>,
                                   subsumes: Subsumes)
    requires pred in predicates && predicates[pred].data == [s]
    requires |s| == |vars| >= 1
    requires forall i :: 0 <= i < |s| ==> subsumes(s[i].value, Lower(vars[i]))
    ensures FindSynopsisAsWritten(predicates, pred, None, Some(vars)) == Failure(AttributeError)
    ensures FindSynopsisSpec(predicates, pred, None, Some(vars), subsumes) == Success(s)
  {
    assert Admissible(s, None, Some(LowerAll(vars)), subsumes);
  }

  /** Without variable types, a search that finds nothing fails while
      building its message, instead of raising the intended error. */
  lemma FindSynopsisTypeError(predicates: Hier<seq<Synopsis>>, pred: string, roles: seq<string>, subsumes: Subsumes)
    requires pred in predicates
    requires forall k :: 0 <= k < |predicates[pred].data| ==> RoleNames(predicates[pred].data[k]) != Requested(roles)
    ensures FindSynopsisAsWritten(predicates, pred, Some(roles), None) == Failure(TypeError)
    ensures FindSynopsisSpec(predicates, pred, Some(roles), None, subsumes) == Failure(NoValidSynopsis(pred))
  {
    NoRolesMatch(predicates[pred].data, Requested(roles));
  }

  lemma {:induction false} NoRolesMatch(ss: seq<Synopsis>, roles: set<string>)
    requires forall k :: 0 <= k < |ss| ==> RoleNames(ss[k]) != roles
    ensures FirstAsWritten(ss, Some(roles), None) == Success(None)
  {
    if ss != [] {
      assert forall k :: 0 <= k < |ss[1..]| ==> ss[1..][k] == ss[k + 1];
      NoRolesMatch(ss[1..], roles);
    }
  }

  // ---------------------------------------------------------------------
  // Helper lemmas for the loops

  lemma {:induction false} VariablePropertiesFailsFrom(pairs: seq<(string, string)>, properties: Hier<()>, j: nat)
    requires j < |pairs| && VariableProperties(pairs[..j], properties).Success?
    requires !InHier(properties, Lower(pairs[j].1))
    ensures VariableProperties(pairs, properties) == Failure(UndefinedPropertyValue(None, Lower(pairs[j].1)))
    decreases |pairs|
  {
    var n := |pairs| - 1;
    if j == n {
      assert pairs[..n] == pairs[..j];
    } else {
      assert pairs[..n][..j] == pairs[..j];
      VariablePropertiesFailsFrom(pairs[..n], properties, j);
    }
  }

  lemma {:induction false} VariableTypesFailsFrom(entries: Dict<string, VariableEntry>, properties: Hier<()>, i: nat)
    requires i < |entries| && VariableTypes(entries[..i], properties).Success?
    requires VariableProperties(entries[i].1.properties, properties).Failure?
    ensures VariableTypes(entries, properties) == Failure(VariableProperties(entries[i].1.properties, properties).error)
    decreases |entries|
  {
    var n := |entries| - 1;
    var pre := entries[..n];
    if i == n {
      assert pre == entries[..i];
    } else {
      assert pre[..i] == entries[..i] && pre[i] == entries[i];
      VariableTypesFailsFrom(pre, properties, i);
      assert VariableTypes(pre, properties).Failure?;
    }
  }

  lemma {:induction false} SynopsesFailsFrom(pred: string, ds: seq<SynopsisDict>, roles: map<string, string>,
                                             variables: Hier<seq<(string, string)>>, properties: Hier<()>,
                                             compatible: Compatible, j: nat)
    requires j < |ds| && Synopses(pred, ds[..j], roles, variables, properties, compatible).Success?
    requires SynopsisProblem(pred, SynopsisFromDict(ds[j]), roles, variables, properties, compatible).Some?
    ensures Synopses(pred, ds, roles, variables, properties, compatible)
      == Failure(SynopsisProblem(pred, SynopsisFromDict(ds[j]), roles, variables, properties, compatible).value)
    decreases |ds|
  {
    var n := |ds| - 1;
    if j == n {
      assert ds[..n] == ds[..j];
    } else {
      assert ds[..n][..j] == ds[..j];
      SynopsesFailsFrom(pred, ds[..n], roles, variables, properties, compatible, j);
    }
  }

  lemma {:induction false} PredicateTypesFailsFrom(entries: Dict<string, PredicateEntry>, roles: map<string, string>,
                                                   variables: Hier<seq<(string, string)>>, properties: Hier<()>,
                                                   compatible: Compatible, i: nat)
    requires i < |entries| && PredicateTypes(entries[..i], roles, variables, properties, compatible).Success?
    requires Synopses(Lower(entries[i].0), entries[i].1.synopses, roles, variables, properties, compatible).Failure?
    ensures PredicateTypes(entries, roles, variables, properties, compatible)
      == Failure(Synopses(Lower(entries[i].0), entries[i].1.synopses, roles, variables, properties, compatible).error)
    decreases |entries|
  {
    var n := |entries| - 1;
    if i == n {
      assert entries[..n] == entries[..i];
    } else {
      assert entries[..n][..i] == entries[..i];
      PredicateTypesFailsFrom(entries[..n], roles, variables, properties, compatible, i);
    }
  }

  /** The first role with a problem decides the synopsis' problem. */
  lemma {:induction false} SynopsisProblemAt(pred: string, s: Synopsis, roles: map<string, string>,
                                             variables: Hier<seq<(string, string)>>, properties: Hier<()>,
                                             compatible: Compatible, i: nat)
    requires i < |s|
    requires forall m :: 0 <= m < i ==> RoleProblem(pred, s[m], roles, variables, properties, compatible).None?
    requires RoleProblem(pred, s[i], roles, variables, properties, compatible).Some?
    ensures SynopsisProblem(pred, s, roles, variables, properties, compatible) == RoleProblem(pred, s[i], roles, variables, properties, compatible)
  {
    if i > 0 {
      assert forall m :: 0 <= m < i - 1 ==> s[1..][m] == s[m + 1];
      SynopsisProblemAt(pred, s[1..], roles, variables, properties, compatible, i - 1);
    }
  }

  /** The first property with a problem decides the role's problem; with
      none, there is none. */
  lemma {:induction false} PropertiesProblemAt(pred: string, vtype: string, props: Dict<string, string>,
                                               cache: Option<Dict<string, string>>, properties: Hier<()>,
                                               compatible: Compatible, j: nat)
    requires j <= |props|
    requires forall m :: 0 <= m < j ==> PropertyProblem(pred, vtype, props[m].0, props[m].1, cache, properties, compatible).None?
    requires j < |props| ==> PropertyProblem(pred, vtype, props[j].0, props[j].1, cache, properties, compatible).Some?
    ensures PropertiesProblem(pred, vtype, props, cache, properties, compatible) ==
      if j < |props| then PropertyProblem(pred, vtype, props[j].0, props[j].1, cache, properties, compatible) else None
  {
    if j > 0 {
      assert forall m :: 0 <= m < j - 1 ==> props[1..][m] == props[m + 1];
      PropertiesProblemAt(pred, vtype, props[1..], cache, properties, compatible, j - 1);
    }
  }
}
