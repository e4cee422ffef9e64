/** SEM-I predicate synopses: the normalisation `SynopsisRole` applies to
    its arguments, the dictionary forms of roles and synopses, and the
    parent lists `_add_to_subhierarchy` records. */
module SemiSynopsis {
  import opened Wrappers
  import opened PyStrings
  import opened Dicts

  /** The root of every SEM-I type hierarchy. */
  const TopType: string := "*top*"
  /** The role value of roles that take a string constant. */
  const StringType: string := "string"

  /** A synopsis role: name, value (a variable type or `string`), property
      map, and whether the role is optional. */
  datatype Role = Role(name: string, value: string, properties: Dict<string, string>, optional: bool)

  /** A synopsis is the sequence of a predicate's roles. */
  type Synopsis = seq<Role>

  // ---------------------------------------------------------------------
  // Normalisation

  /** `dict(pairs)`: a repeated key keeps its first position and takes its
      last value. */
  function DictOf(pairs: Dict<string, string>): (r: Dict<string, string>)
    ensures DistinctKeys(r)
  {
    if pairs == [] then []
    else
      var n := |pairs| - 1;
      var d := DictOf(pairs[..n]);
      SetKeepsDistinct(d, pairs[n].0, pairs[n].1);
      Set(d, pairs[n].0, pairs[n].1)
  }

  /** `{prop.upper(): val.lower() for prop, val in d.items()}` */
  function CaseFold(d: Dict<string, string>): (r: Dict<string, string>)
    ensures DistinctKeys(r)
  {
    if d == [] then []
    else
      var n := |d| - 1;
      var r := CaseFold(d[..n]);
      SetKeepsDistinct(r, Upper(d[n].0), Lower(d[n].1));
      Set(r, Upper(d[n].0), Lower(d[n].1))
  }

  /** `SynopsisRole(name, value, properties, optional)` */
  function MakeRole(name: string, value: string, properties: Dict<string, string>, optional: bool): Role {
    Role(Upper(name), Lower(value), CaseFold(DictOf(properties)), optional)
  }

  /** Property names upper case, property values lower case, no name twice. */
  predicate NormalProperties(props: Dict<string, string>) {
    DistinctKeys(props) &&
    forall i :: 0 <= i < |props| ==> Upper(props[i].0) == props[i].0 && Lower(props[i].1) == props[i].1
  }

  /** What `SynopsisRole` guarantees of every role it builds. */
  predicate Normal(r: Role) {
    Upper(r.name) == r.name && Lower(r.value) == r.value && NormalProperties(r.properties)
  }

  lemma {:induction false} CaseFoldNormal(d: Dict<string, string>)
    ensures NormalProperties(CaseFold(d))
  {
    if d != [] {
      var n := |d| - 1;
      CaseFoldNormal(d[..n]);
      var r := CaseFold(d[..n]);
      UpperIdempotent(d[n].0);
      LowerIdempotent(d[n].1);
      SetEntries(r, Upper(d[n].0), Lower(d[n].1));
      var r' := CaseFold(d);
      forall i | 0 <= i < |r'|
        ensures Upper(r'[i].0) == r'[i].0 && Lower(r'[i].1) == r'[i].1
      {
        assert r'[i] in r';
      }
    }
  }

  /** Every property the role is given is kept under its upper-cased name,
      and no other name appears. */
  lemma {:induction false} CaseFoldKeys(d: Dict<string, string>, k: string)
    ensures HasKey(CaseFold(d), k) <==> exists i :: 0 <= i < |d| && Upper(d[i].0) == k
  {
    if d != [] {
      var n := |d| - 1;
      CaseFoldKeys(d[..n], k);
      HasKeyGet(CaseFold(d[..n]), k);
      HasKeyGet(CaseFold(d), k);
      GetSet(CaseFold(d[..n]), Upper(d[n].0), Lower(d[n].1), k);
      if exists i :: 0 <= i < |d| && Upper(d[i].0) == k {
        var i :| 0 <= i < |d| && Upper(d[i].0) == k;
        if i < n {
          assert d[..n][i] == d[i];
        }
      }
      if exists i :: 0 <= i < n && Upper(d[..n][i].0) == k {
        var i :| 0 <= i < n && Upper(d[..n][i].0) == k;
        assert d[i] == d[..n][i];
      }
    }
  }

  /** A key of `dict(pairs)` holds the value of its last pair. */
  lemma {:induction false} DictOfValues(pairs: Dict<string, string>, k: string)
    ensures Get(DictOf(pairs), k) == LastWith(pairs, k)
  {
    if pairs != [] {
      var n := |pairs| - 1;
      DictOfValues(pairs[..n], k);
      GetSet(DictOf(pairs[..n]), pairs[n].0, pairs[n].1, k);
    }
  }

  /** The pairs of `d` with names upper-cased and values lower-cased. */
  function Folded(d: Dict<string, string>): seq<(string, string)> {
    seq(|d|, i requires 0 <= i < |d| => (Upper(d[i].0), Lower(d[i].1)))
  }

  /** A name of the case-folded properties holds the lower-cased value of
      the last property whose upper-cased name it is. */
  lemma {:induction false} CaseFoldValues(d: Dict<string, string>, k: string)
    ensures Get(CaseFold(d), k) == LastWith(Folded(d), k)
  {
    if d != [] {
      var n := |d| - 1;
      CaseFoldValues(d[..n], k);
      assert Folded(d)[..n] == Folded(d[..n]);
      GetSet(CaseFold(d[..n]), Upper(d[n].0), Lower(d[n].1), k);
    }
  }

  lemma HasKeyGet(d: Dict<string, string>, k: string)
    ensures HasKey(d, k) <==> Get(d, k).Some?
  {
  }

  lemma {:induction false} DictOfKeys(d: Dict<string, string>, k: string)
    ensures HasKey(DictOf(d), k) <==> exists i :: 0 <= i < |d| && d[i].0 == k
  {
    if d != [] {
      var n := |d| - 1;
      DictOfKeys(d[..n], k);
      HasKeyGet(DictOf(d[..n]), k);
      HasKeyGet(DictOf(d), k);
      GetSet(DictOf(d[..n]), d[n].0, d[n].1, k);
      if exists i :: 0 <= i < |d| && d[i].0 == k {
        var i :| 0 <= i < |d| && d[i].0 == k;
        if i < n {
          assert d[..n][i] == d[i];
        }
      }
      if exists i :: 0 <= i < n && d[..n][i].0 == k {
        var i :| 0 <= i < n && d[..n][i].0 == k;
        assert d[i] == d[..n][i];
      }
    }
  }

  /** A role is normalised: name upper case, value lower case, property
      names upper case and values lower case; its property names are the
      upper-cased names it was given. */
  lemma MakeRoleNormal(name: string, value: string, properties: Dict<string, string>, optional: bool, k: string)
    ensures Normal(MakeRole(name, value, properties, optional))
    ensures HasKey(MakeRole(name, value, properties, optional).properties, k) <==>
      exists i :: 0 <= i < |properties| && Upper(properties[i].0) == k
  {
    UpperIdempotent(name);
    LowerIdempotent(value);
    var d := DictOf(properties);
    CaseFoldNormal(d);
    CaseFoldKeys(d, k);
    if exists i :: 0 <= i < |properties| && Upper(properties[i].0) == k {
      var i :| 0 <= i < |properties| && Upper(properties[i].0) == k;
      DictOfKeys(properties, properties[i].0);
      var j :| 0 <= j < |d| && d[j].0 == properties[i].0;
      assert Upper(d[j].0) == k;
    }
    if exists j :: 0 <= j < |d| && Upper(d[j].0) == k {
      var j :| 0 <= j < |d| && Upper(d[j].0) == k;
      assert HasKey(d, d[j].0);
      DictOfKeys(properties, d[j].0);
    }
  }

  // ---------------------------------------------------------------------
  // Fixed points of the normalisation

  /** Assigning to a new key appends it. */
  lemma {:induction false} SetNew(d: Dict<string, string>, k: string, v: string)
    requires forall i :: 0 <= i < |d| ==> d[i].0 != k
    ensures Set(d, k, v) == d + [(k, v)]
  {
    if d != [] {
      SetNew(d[1..], k, v);
    }
  }

  /** A dict without repeated keys is its own `dict(...)`. */
  lemma {:induction false} DictOfDistinct(d: Dict<string, string>)
    requires DistinctKeys(d)
    ensures DictOf(d) == d
  {
    if d != [] {
      var n := |d| - 1;
      assert DistinctKeys(d[..n]);
      DictOfDistinct(d[..n]);
      SetNew(d[..n], d[n].0, d[n].1);
      assert d[..n] + [d[n]] == d;
    }
  }

  /** Normalised properties are left as they are. */
  lemma {:induction false} CaseFoldNormalFixed(d: Dict<string, string>)
    requires NormalProperties(d)
    ensures CaseFold(d) == d
  {
    if d != [] {
      var n := |d| - 1;
      assert NormalProperties(d[..n]);
      CaseFoldNormalFixed(d[..n]);
      SetNew(d[..n], d[n].0, d[n].1);
      assert d[..n] + [d[n]] == d;
    }
  }

  /** Rebuilding a normalised role from its own fields gives it back. */
  lemma MakeRoleFixed(r: Role)
    requires Normal(r)
    ensures MakeRole(r.name, r.value, r.properties, r.optional) == r
  {
    DictOfDistinct(r.properties);
    CaseFoldNormalFixed(r.properties);
  }

  // ---------------------------------------------------------------------
  // Dictionary forms

  /** `{'name': ..., 'value': ..., 'properties': ..., 'optional': ...}`
      with the last two keys possibly absent. */
  datatype RoleDict = RoleDict(name: string, value: string, properties: Option<Dict<string, string>>, optional: Option<bool>)

  /** `{'roles': [...]}`, the key possibly absent. */
  datatype SynopsisDict = SynopsisDict(roles: Option<seq<RoleDict>>)

  /** `SynopsisRole._to_dict()`: the properties only when there are some,
      the flag only when the role is optional. */
  function RoleToDict(r: Role): (d: RoleDict)
    ensures d.name == r.name && d.value == r.value
    ensures d.properties.None? <==> r.properties == []
    ensures d.properties.Some? ==> d.properties.value == r.properties
    ensures d.optional.None? <==> !r.optional
    ensures d.optional.Some? ==> d.optional.value
  {
    RoleDict(r.name, r.value,
      if r.properties != [] then Some(r.properties) else None,
      if r.optional then Some(true) else None)
  }

  /** `SynopsisRole._from_dict(d)`: absent properties are empty, an absent
      flag is false. */
  function RoleFromDict(d: RoleDict): Role {
    MakeRole(d.name, d.value, d.properties.GetOr([]), d.optional.GetOr(false))
  }

  /** `Synopsis.to_dict()` */
  function SynopsisToDict(s: Synopsis): (d: SynopsisDict)
    ensures d.roles.Some? && |d.roles.value| == |s|
    ensures forall i :: 0 <= i < |s| ==> d.roles.value[i] == RoleToDict(s[i])
  {
    SynopsisDict(Some(seq(|s|, i requires 0 <= i < |s| => RoleToDict(s[i]))))
  }

  /** `Synopsis.from_dict(d)`: absent roles give the empty synopsis. */
  function SynopsisFromDict(d: SynopsisDict): (s: Synopsis)
    ensures |s| == |d.roles.GetOr([])|
    ensures forall i :: 0 <= i < |s| ==> s[i] == RoleFromDict(d.roles.value[i])
  {
    var roles := d.roles.GetOr([]);
    seq(|roles|, i requires 0 <= i < |roles| => RoleFromDict(roles[i]))
  }

  /** Reading back the dictionary of a normalised role gives the role. */
  lemma RoleRoundTrip(r: Role)
    requires Normal(r)
    ensures RoleFromDict(RoleToDict(r)) == r
  {
    MakeRoleFixed(r);
  }

  /** `Synopsis.from_dict(s.to_dict()) == s` for a synopsis of normalised
      roles, which every synopsis built by `SynopsisRole` is. */
  lemma SynopsisRoundTrip(s: Synopsis)
    requires forall i :: 0 <= i < |s| ==> Normal(s[i])
    ensures SynopsisFromDict(SynopsisToDict(s)) == s
  {
    forall i | 0 <= i < |s| ensures SynopsisFromDict(SynopsisToDict(s))[i] == s[i] {
      RoleRoundTrip(s[i]);
    }
  }

  /** Every role read from a dictionary is normalised. */
  lemma SynopsisFromDictNormal(d: SynopsisDict)
    ensures forall i :: 0 <= i < |SynopsisFromDict(d)| ==> Normal(SynopsisFromDict(d)[i])
  {
    forall i | 0 <= i < |SynopsisFromDict(d)| ensures Normal(SynopsisFromDict(d)[i]) {
      var rd := d.roles.value[i];
      MakeRoleNormal(rd.name, rd.value, rd.properties.GetOr([]), rd.optional.GetOr(false), "");
    }
  }

  // ---------------------------------------------------------------------
  // Parents

  /** The parents `_add_to_subhierarchy` records: the given ones lower-cased,
      or the top type when none (or an empty list) is given. */
  function NodeParents(parents: Option<seq<string>>): (r: seq<string>)
    ensures r != []
    ensures parents.None? || parents.value == [] ==> r == [TopType]
    ensures parents.Some? && parents.value != [] ==>
      |r| == |parents.value| && forall i :: 0 <= i < |r| ==> r[i] == Lower(parents.value[i])
  {
    if parents.Some? && parents.value != [] then
      seq(|parents.value|, i requires 0 <= i < |parents.value| => Lower(parents.value[i]))
    else [TopType]
  }

  /** `add_parents` in `SemI.to_dict`: the parents appear unless they are
      empty or just the top type. */
  function ParentsToDict(ps: seq<string>): (r: Option<seq<string>>)
    ensures r.None? <==> ps == [] || ps == [TopType]
    ensures r.Some? ==> r.value == ps
  {
    if ps != [] && ps != [TopType] then Some(ps) else None
  }

  /** Recorded parents survive the trip through `to_dict` and back. */
  lemma ParentsRoundTrip(parents: Option<seq<string>>)
    ensures NodeParents(ParentsToDict(NodeParents(parents))) == NodeParents(parents)
  {
    var ps := NodeParents(parents);
    if ps != [TopType] {
      var q := NodeParents(ParentsToDict(ps));
      forall i | 0 <= i < |ps| ensures q[i] == ps[i] {
        LowerIdempotent(parents.value[i]);
      }
    }
  }
}
