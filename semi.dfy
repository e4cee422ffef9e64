/** The semantic interface (SEM-I) of a grammar: variable and property
    type hierarchies, role declarations and predicate synopses, with the
    validation `SemI.__init__` performs, `to_dict` and `find_synopsis`.

    A type hierarchy is kept as the map of its declared types (the top
    type is implicit); the checks of the hierarchy itself (cycles, undefined
    parents) and the compatibility of two property values belong to the
    type-hierarchy class, which is not part of this model: compatibility is
    an oracle parameter. */
module Semi {
  import opened Wrappers
  import opened PyStrings
  import opened Dicts
  import opened SemiSynopsis

  /** A type in a hierarchy: its parents and the data attached to it. */
  datatype Node<D> = Node(parents: seq<string>, data: D)

  /** The declared types of a hierarchy; the top type is always a member. */
  type Hier<D> = map<string, Node<D>>

  /** `t in hierarchy` */
  predicate InHier<D>(h: Hier<D>, t: string) {
    t == TopType || t in h
  }

  /** `SemIError` and the other exceptions the modelled code raises. */
  datatype SemIError =
      /** the predicate is named when the error comes from a synopsis */
    | UndefinedPropertyValue(inPred: Option<string>, value: string)
    | UndefinedVariableType(inPred: Option<string>, vtype: string)
    | UndefinedRole(pred: string, role: string)
    | StringProperties(pred: string)
    | IncompatibleProperty(pred: string, value: string, declared: string)
      /** `propcache[t]` for a member that is not a declared type */
    | MissingCacheEntry(vtype: string)

  /** The entries of the four constructor arguments. */
  datatype PropertyEntry = PropertyEntry(parents: Option<seq<string>>)
  datatype VariableEntry = VariableEntry(parents: Option<seq<string>>, properties: seq<(string, string)>)
  datatype RoleEntry = RoleEntry(value: string)
  datatype PredicateEntry = PredicateEntry(parents: Option<seq<string>>, synopses: seq<SynopsisDict>)

  /** Whether two property values are compatible in the property hierarchy. */
  type Compatible = (string, string) -> bool

  /** `_add_to_subhierarchy(subhier, typename, parents, data)`: the type
      is (re)defined with the recorded parents and its data; no other type
      changes. */
  function AddToSubhierarchy<D>(subhier: Hier<D>, typename: string, parents: Option<seq<string>>, data: D): (r: Hier<D>)
    ensures r.Keys == subhier.Keys + {typename}
    ensures r[typename] == Node(NodeParents(parents), data)
    ensures forall t :: t in subhier && t != typename ==> r[t] == subhier[t]
  {
    subhier[typename := Node(NodeParents(parents), data)]
  }

  // ---------------------------------------------------------------------
  // _init_properties

  /** The sub-hierarchy `_init_properties` builds, entry by entry. */
  function PropertyTypes(entries: Dict<string, PropertyEntry>): Hier<()> {
    if entries == [] then map[]
    else
      var n := |entries| - 1;
      AddToSubhierarchy(PropertyTypes(entries[..n]), Lower(entries[n].0), entries[n].1.parents, ())
  }

  /** Every entry declares its lower-cased name, with the parents of the
      last entry of that name. */
  lemma {:induction false} PropertyTypesHas(entries: Dict<string, PropertyEntry>, i: nat)
    requires i < |entries|
    requires forall j :: i < j < |entries| ==> Lower(entries[j].0) != Lower(entries[i].0)
    ensures Lower(entries[i].0) in PropertyTypes(entries)
    ensures PropertyTypes(entries)[Lower(entries[i].0)].parents == NodeParents(entries[i].1.parents)
  {
    var n := |entries| - 1;
    if i < n {
      PropertyTypesHas(entries[..n], i);
      assert entries[..n][i] == entries[i];
    }
  }

  // ---------------------------------------------------------------------
  // _init_variables

  /** The property list of one variable: names upper-cased, values
      lower-cased; an undefined value is an error. */
  function VariableProperties(pairs: seq<(string, string)>, properties: Hier<()>): (r: Result<seq<(string, string)>, SemIError>)
    ensures r.Success? ==> |r.value| == |pairs|
    ensures r.Success? ==> forall i :: 0 <= i < |pairs| ==> r.value[i] == (Upper(pairs[i].0), Lower(pairs[i].1))
    ensures r.Failure? <==> exists i :: 0 <= i < |pairs| && !InHier(properties, Lower(pairs[i].1))
  {
    if pairs == [] then Success([])
    else
      var n := |pairs| - 1;
      match VariableProperties(pairs[..n], properties)
      case Failure(e) => Failure(e)
      case Success(ps) =>
        var (k, v) := pairs[n];
        if !InHier(properties, Lower(v)) then Failure(UndefinedPropertyValue(None, Lower(v)))
        else
          assert forall i :: 0 <= i < n ==> pairs[..n][i] == pairs[i];
          Success(ps + [(Upper(k), Lower(v))])
  }

  /** The sub-hierarchy `_init_variables` builds, or its first error. */
  function VariableTypes(entries: Dict<string, VariableEntry>, properties: Hier<()>)
    : (r: Result<Hier<seq<(string, string)>>, SemIError>)
  {
    if entries == [] then Success(map[])
    else
      var n := |entries| - 1;
      match VariableTypes(entries[..n], properties)
      case Failure(e) => Failure(e)
      case Success(sub) =>
        match VariableProperties(entries[n].1.properties, properties)
        case Failure(e) => Failure(e)
        case Success(ps) => Success(AddToSubhierarchy(sub, Lower(entries[n].0), entries[n].1.parents, ps))
  }

  /** The variables are accepted exactly when every property value they
      name is a declared property type. */
  lemma {:induction false} VariableTypesFails(entries: Dict<string, VariableEntry>, properties: Hier<()>)
    ensures VariableTypes(entries, properties).Failure? <==>
      exists i :: 0 <= i < |entries| && VariableProperties(entries[i].1.properties, properties).Failure?
  {
    if entries != [] {
      var n := |entries| - 1;
      var pre := entries[..n];
      assert VariableTypes(entries, properties).Failure? <==>
        VariableTypes(pre, properties).Failure? || VariableProperties(entries[n].1.properties, properties).Failure?;
      VariableTypesFails(pre, properties);
      if VariableTypes(entries, properties).Failure? {
        if VariableTypes(pre, properties).Failure? {
          var i :| 0 <= i < n && VariableProperties(pre[i].1.properties, properties).Failure?;
          assert pre[i] == entries[i];
        } else {
          assert VariableProperties(entries[n].1.properties, properties).Failure?;
        }
      } else {
        forall i | 0 <= i < |entries|
          ensures VariableProperties(entries[i].1.properties, properties).Success?
        {
          if i < n {
            assert pre[i] == entries[i];
          }
        }
      }
    }
  }

  // ---------------------------------------------------------------------
  // _init_roles

  /** The position of the first role whose value is neither `string` nor a
      variable type, or the number of roles when there is none. */
  function FirstUndeclared(roles: Dict<string, RoleEntry>, variables: Hier<seq<(string, string)>>): (k: nat)
    ensures k <= |roles|
    ensures forall i :: 0 <= i < k ==> Declared(roles[i].1, variables)
    ensures k < |roles| ==> !Declared(roles[k].1, variables)
  {
    if roles == [] then 0
    else if !Declared(roles[0].1, variables) then 0
    else 1 + FirstUndeclared(roles[1..], variables)
  }

  predicate Declared(e: RoleEntry, variables: Hier<seq<(string, string)>>) {
    Lower(e.value) == StringType || InHier(variables, Lower(e.value))
  }

  /** `self.roles[role.upper()] = value.lower()` for each role in turn. */
  function AssignRoles(m: map<string, string>, roles: Dict<string, RoleEntry>): (r: map<string, string>)
    ensures forall k :: k in r ==> k in m || exists i :: 0 <= i < |roles| && Upper(roles[i].0) == k
  {
    if roles == [] then m
    else
      var n := |roles| - 1;
      AssignRoles(m, roles[..n])[Upper(roles[n].0) := Lower(roles[n].1.value)]
  }

  /** Each role is recorded under its upper-cased name with the lower-cased
      value of its last entry. */
  lemma {:induction false} AssignRolesHas(m: map<string, string>, roles: Dict<string, RoleEntry>, i: nat)
    requires i < |roles|
    requires forall j :: i < j < |roles| ==> Upper(roles[j].0) != Upper(roles[i].0)
    ensures Upper(roles[i].0) in AssignRoles(m, roles)
    ensures AssignRoles(m, roles)[Upper(roles[i].0)] == Lower(roles[i].1.value)
  {
    var n := |roles| - 1;
    var prev := AssignRoles(m, roles[..n]);
    assert AssignRoles(m, roles) == prev[Upper(roles[n].0) := Lower(roles[n].1.value)];
    if i < n {
      var rs := roles[..n];
      assert rs[i] == roles[i];
      forall j | i < j < n
        ensures Upper(rs[j].0) != Upper(rs[i].0)
      {
        assert rs[j] == roles[j];
      }
      AssignRolesHas(m, rs, i);
      assert Upper(roles[n].0) != Upper(roles[i].0);
    }
  }

  // ---------------------------------------------------------------------
  // _init_synopsis

  /** `dict(node.data)` of a declared variable type. */
  function PropCache(variables: Hier<seq<(string, string)>>, t: string): Option<Dict<string, string>> {
    if t in variables then Some(DictOf(variables[t].data)) else None
  }

  /** The first problem with one property of a role whose value is a
      variable type: an undefined value, a variable type without an entry
      in the property cache, or a value incompatible with the variable's
      own; a property the variable does not declare is only warned about. */
  function PropertyProblem(pred: string, vtype: string, k: string, v: string, cache: Option<Dict<string, string>>,
                           properties: Hier<()>, compatible: Compatible): Option<SemIError>
  {
    if !InHier(properties, v) then Some(UndefinedPropertyValue(Some(pred), v))
    else if cache.None? then Some(MissingCacheEntry(vtype))
    else match Get(cache.value, k)
      case None => None
      case Some(declared) => if compatible(v, declared) then None else Some(IncompatibleProperty(pred, v, declared))
  }

  function PropertiesProblem(pred: string, vtype: string, props: Dict<string, string>, cache: Option<Dict<string, string>>,
                             properties: Hier<()>, compatible: Compatible): Option<SemIError>
  {
    if props == [] then None
    else
      var p := PropertyProblem(pred, vtype, props[0].0, props[0].1, cache, properties, compatible);
      if p.Some? then p else PropertiesProblem(pred, vtype, props[1..], cache, properties, compatible)
  }

  /** The first problem with one role of a synopsis. */
  function RoleProblem(pred: string, r: Role, roles: map<string, string>, variables: Hier<seq<(string, string)>>,
                       properties: Hier<()>, compatible: Compatible): Option<SemIError>
  {
    if r.name !in roles then Some(UndefinedRole(pred, r.name))
    else if r.value == StringType then
      if r.properties != [] then Some(StringProperties(pred)) else None
    else if !InHier(variables, r.value) then Some(UndefinedVariableType(Some(pred), r.value))
    else PropertiesProblem(pred, r.value, r.properties, PropCache(variables, r.value), properties, compatible)
  }

  /** The first problem with a synopsis, role by role. */
  function SynopsisProblem(pred: string, s: Synopsis, roles: map<string, string>, variables: Hier<seq<(string, string)>>,
                           properties: Hier<()>, compatible: Compatible): (r: Option<SemIError>)
    ensures r.None? <==> forall i :: 0 <= i < |s| ==> RoleProblem(pred, s[i], roles, variables, properties, compatible).None?
  {
    if s == [] then None
    else
      var p := RoleProblem(pred, s[0], roles, variables, properties, compatible);
      if p.Some? then p
      else
        var r := SynopsisProblem(pred, s[1..], roles, variables, properties, compatible);
        assert forall i :: 1 <= i < |s| ==> s[i] == s[1..][i - 1];
        r
  }

  /** The roles of a synopsis are checked in the order the source checks
      them: an undeclared role name, then properties on a `string` role,
      then an undeclared variable type. */
  lemma RoleProblemCases(pred: string, r: Role, roles: map<string, string>, variables: Hier<seq<(string, string)>>,
                         properties: Hier<()>, compatible: Compatible)
    ensures r.name !in roles ==> RoleProblem(pred, r, roles, variables, properties, compatible) == Some(UndefinedRole(pred, r.name))
    ensures r.name in roles && r.value == StringType ==>
      (RoleProblem(pred, r, roles, variables, properties, compatible).Some? <==> r.properties != [])
    ensures r.name in roles && r.value != StringType && !InHier(variables, r.value) ==>
      RoleProblem(pred, r, roles, variables, properties, compatible) == Some(UndefinedVariableType(Some(pred), r.value))
    ensures r.name in roles && r.value != StringType && InHier(variables, r.value) && r.properties == [] ==>
      RoleProblem(pred, r, roles, variables, properties, compatible).None?
  {
  }

  /** For a role of a declared variable type, its properties are accepted
      exactly when each value is a property type and, where the variable
      declares the property, compatible with the declared value. */
  lemma {:induction false} PropertiesProblemNone(pred: string, vtype: string, props: Dict<string, string>,
                                                 cache: Dict<string, string>, properties: Hier<()>, compatible: Compatible)
    ensures PropertiesProblem(pred, vtype, props, Some(cache), properties, compatible).None? <==>
      forall i :: 0 <= i < |props| ==>
        (InHier(properties, props[i].1) && (Get(cache, props[i].0).Some? ==> compatible(props[i].1, Get(cache, props[i].0).value)))
  {
    if props != [] {
      PropertiesProblemNone(pred, vtype, props[1..], cache, properties, compatible);
      assert forall i :: 1 <= i < |props| ==> props[i] == props[1..][i - 1];
    }
  }

  /** A property the variable type does not declare causes no error. */
  lemma UndeclaredPropertyWarnsOnly(pred: string, vtype: string, k: string, v: string, cache: Dict<string, string>,
                                    properties: Hier<()>, compatible: Compatible)
    requires InHier(properties, v) && !HasKey(cache, k)
    ensures PropertyProblem(pred, vtype, k, v, Some(cache), properties, compatible).None?
  {
  }

  // ---------------------------------------------------------------------
  // _init_predicates

  /** The synopses of one predicate, or the first problem with them. */
  function Synopses(pred: string, ds: seq<SynopsisDict>, roles: map<string, string>,
                    variables: Hier<seq<(string, string)>>, properties: Hier<()>, compatible: Compatible)
    : (r: Result<seq<Synopsis>, SemIError>)
    ensures r.Success? ==> |r.value| == |ds| && forall i :: 0 <= i < |ds| ==> r.value[i] == SynopsisFromDict(ds[i])
  {
    if ds == [] then Success([])
    else
      var n := |ds| - 1;
      match Synopses(pred, ds[..n], roles, variables, properties, compatible)
      case Failure(e) => Failure(e)
      case Success(ss) =>
        var s := SynopsisFromDict(ds[n]);
        match SynopsisProblem(pred, s, roles, variables, properties, compatible)
        case Some(e) => Failure(e)
        case None =>
          assert forall i :: 0 <= i < n ==> ds[..n][i] == ds[i];
          Success(ss + [s])
  }

  /** The sub-hierarchy `_init_predicates` builds, or its first error. */
  function PredicateTypes(entries: Dict<string, PredicateEntry>, roles: map<string, string>,
                          variables: Hier<seq<(string, string)>>, properties: Hier<()>, compatible: Compatible)
    : Result<Hier<seq<Synopsis>>, SemIError>
  {
    if entries == [] then Success(map[])
    else
      var n := |entries| - 1;
      match PredicateTypes(entries[..n], roles, variables, properties, compatible)
      case Failure(e) => Failure(e)
      case Success(sub) =>
        var pred := Lower(entries[n].0);
        match Synopses(pred, entries[n].1.synopses, roles, variables, properties, compatible)
        case Failure(e) => Failure(e)
        case Success(ss) => Success(AddToSubhierarchy(sub, pred, entries[n].1.parents, ss))
  }

  /** Every synopsis a predicate type ends up with is free of problems and
      made of normalised roles. */
  lemma {:induction false} PredicateTypesValid(entries: Dict<string, PredicateEntry>, roles: map<string, string>,
                                               variables: Hier<seq<(string, string)>>, properties: Hier<()>,
                                               compatible: Compatible, t: string, j: nat)
    requires PredicateTypes(entries, roles, variables, properties, compatible).Success?
    requires t in PredicateTypes(entries, roles, variables, properties, compatible).value
    requires j < |PredicateTypes(entries, roles, variables, properties, compatible).value[t].data|
    ensures var s := PredicateTypes(entries, roles, variables, properties, compatible).value[t].data[j];
      SynopsisProblem(t, s, roles, variables, properties, compatible).None? &&
      forall i :: 0 <= i < |s| ==> Normal(s[i])
  {
    var n := |entries| - 1;
    var pred := Lower(entries[n].0);
    if t == pred {
      SynopsesValid(pred, entries[n].1.synopses, roles, variables, properties, compatible, j);
    } else {
      PredicateTypesValid(entries[..n], roles, variables, properties, compatible, t, j);
    }
  }

  lemma {:induction false} SynopsesValid(pred: string, ds: seq<SynopsisDict>, roles: map<string, string>,
                                         variables: Hier<seq<(string, string)>>, properties: Hier<()>,
                                         compatible: Compatible, j: nat)
    requires Synopses(pred, ds, roles, variables, properties, compatible).Success?
    requires j < |ds|
    ensures SynopsisProblem(pred, SynopsisFromDict(ds[j]), roles, variables, properties, compatible).None?
    ensures forall i :: 0 <= i < |SynopsisFromDict(ds[j])| ==> Normal(SynopsisFromDict(ds[j])[i])
  {
    var n := |ds| - 1;
    SynopsisFromDictNormal(ds[j]);
    if j < n {
      SynopsesValid(pred, ds[..n], roles, variables, properties, compatible, j);
      assert ds[..n][j] == ds[j];
    }
  }
}
