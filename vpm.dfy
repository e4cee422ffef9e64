/** Variable property mappings (VPMs): the rules that rename variable sorts
    and translate variable properties between a grammar and an external
    representation, the matcher that decides when a rule applies, the
    application of a mapping to one variable, and the loader that reads a
    mapping from the lines of a VPM file. */
module MrsVpm {
  import opened Wrappers
  import opened PyStrings
  import opened Dicts

  /** Operators used when mapping left to right. */
  const LrOps: set<string> := {"<>", ">>", "==", "=>"}
  /** Operators used when mapping right to left. */
  const RlOps: set<string> := {"<>", "<<", "==", "<="}
  /** Operators that test subsumption. */
  const SubsumeOps: set<string> := {"<>", "<<", ">>"}
  /** Operators that test equality. */
  const EqualOps: set<string> := {"==", "<=", "=>"}

  /** A mapping rule: source values, operator, target values. */
  datatype Rule = Rule(src: seq<string>, op: string, tgt: seq<string>)

  /** A group of property rules over a list of source and a list of target
      features. */
  datatype Group = Group(srcFeats: seq<string>, tgtFeats: seq<string>, rules: seq<Rule>)

  /** A VPM: the variable-sort rules, the property groups, and whether a
      SEM-I was supplied. */
  datatype Vpm = Vpm(typemap: seq<Rule>, propmap: seq<Group>, hasSemi: bool)

  // ---------------------------------------------------------------------
  // _valmatch

  /** `s == '[' + varsort + ']'` as the source tests it, through the first,
      the last and the inner characters of `s`. */
  predicate SortPattern(s: string, varsort: Option<string>) {
    varsort.Some? && |s| >= 2 && s[0] == '[' && s[|s| - 1] == ']' && s[1..|s| - 1] == varsort.value
  }

  /** One value `v` (None when the feature is unset) against one rule value `s`. */
  predicate ValueMatches(v: Option<string>, s: string, varsort: Option<string>) {
    (v.Some? && s == v.value) ||
    (s == "*" && v.Some?) ||
    (v.None? && (s == "!" || SortPattern(s, varsort)))
  }

  /** `all(... for v, s in zip(vs, ss))` */
  predicate AllMatch(vs: seq<Option<string>>, ss: seq<string>, varsort: Option<string>) {
    if vs == [] || ss == [] then true
    else ValueMatches(vs[0], ss[0], varsort) && AllMatch(vs[1..], ss[1..], varsort)
  }

  /** `_valmatch(vs, ss, op, varsort, semi, section)`: with an equality
      operator, or without a SEM-I, every paired value matches; a
      subsumption operator with a SEM-I is not decided (the source returns
      None, which callers take as false). */
  function ValMatch(vs: seq<Option<string>>, ss: seq<string>, op: string, varsort: Option<string>, hasSemi: bool)
    : (r: bool)
    ensures r <==> (op in EqualOps || !hasSemi) &&
                   forall i :: 0 <= i < |vs| && i < |ss| ==> ValueMatches(vs[i], ss[i], varsort)
  {
    AllMatchZip(vs, ss, varsort);
    (op in EqualOps || !hasSemi) && AllMatch(vs, ss, varsort)
  }

  lemma {:induction false} AllMatchZip(vs: seq<Option<string>>, ss: seq<string>, varsort: Option<string>)
    ensures AllMatch(vs, ss, varsort) <==> forall i :: 0 <= i < |vs| && i < |ss| ==> ValueMatches(vs[i], ss[i], varsort)
  {
    if vs != [] && ss != [] {
      AllMatchZip(vs[1..], ss[1..], varsort);
      assert forall i :: 1 <= i < |vs| && i < |ss| ==> vs[i] == vs[1..][i - 1] && ss[i] == ss[1..][i - 1];
    }
  }

  /** A subsumption test with a SEM-I never selects a rule. */
  lemma SubsumptionWithSemiNeverMatches(vs: seq<Option<string>>, ss: seq<string>, op: string, varsort: Option<string>)
    requires op in SubsumeOps
    ensures !ValMatch(vs, ss, op, varsort, true)
  {
  }

  // ---------------------------------------------------------------------
  // Vpm.apply

  /** `[(a, op, b) for a, op, b in rules if op in _LR_OPS]` */
  function LrRules(rules: seq<Rule>): (r: seq<Rule>)
    ensures forall x :: x in r <==> x in rules && x.op in LrOps
  {
    if rules == [] then []
    else
      var n := |rules| - 1;
      LrRules(rules[..n]) + (if rules[n].op in LrOps then [rules[n]] else [])
  }

  /** `[(b, op, a) for a, op, b in rules if op in _RL_OPS]` */
  function RlRules(rules: seq<Rule>): (r: seq<Rule>)
    ensures forall x :: x in r <==> Rule(x.tgt, x.op, x.src) in rules && x.op in RlOps
  {
    if rules == [] then []
    else
      var n := |rules| - 1;
      RlRules(rules[..n]) + (if rules[n].op in RlOps then [Rule(rules[n].tgt, rules[n].op, rules[n].src)] else [])
  }

  /** The first rule whose source values match. */
  function FirstMatch(rules: seq<Rule>, vals: seq<Option<string>>, varsort: Option<string>, hasSemi: bool)
    : Option<Rule>
  {
    if rules == [] then None
    else if ValMatch(vals, rules[0].src, rules[0].op, varsort, hasSemi) then Some(rules[0])
    else FirstMatch(rules[1..], vals, varsort, hasSemi)
  }

  /** The rule found is the one at the first matching position, and there
      is none exactly when no rule matches. */
  lemma {:induction false} FirstMatchAt(rules: seq<Rule>, vals: seq<Option<string>>, varsort: Option<string>,
                                        hasSemi: bool, k: nat)
    requires k <= |rules|
    requires forall j :: 0 <= j < k ==> !ValMatch(vals, rules[j].src, rules[j].op, varsort, hasSemi)
    ensures k < |rules| && ValMatch(vals, rules[k].src, rules[k].op, varsort, hasSemi) ==>
      FirstMatch(rules, vals, varsort, hasSemi) == Some(rules[k])
    ensures k == |rules| ==> FirstMatch(rules, vals, varsort, hasSemi) == None
  {
    if k > 0 {
      FirstMatchAt(rules[1..], vals, varsort, hasSemi, k - 1);
    }
  }

  /** The sort after the type rules `tms`: that of the first matching
      rule, where a `*` target keeps the sort. */
  function SortAfter(tms: seq<Rule>, sort: string, hasSemi: bool): string
    requires forall r :: r in tms ==> r.tgt != []
  {
    match FirstMatch(tms, [Some(sort)], None, hasSemi)
    case None => sort
    case Some(r) =>
      assert r in tms by { FirstMatchIn(tms, [Some(sort)], None, hasSemi); }
      if r.tgt == ["*"] then sort else r.tgt[0]
  }

  /** The sort the variable ends up with: type mapping only runs forward. */
  function NewSort(vpm: Vpm, sort: string, reverse: bool): string
    requires forall r :: r in vpm.typemap ==> r.tgt != []
  {
    SortAfter(if reverse then [] else LrRules(vpm.typemap), sort, vpm.hasSemi)
  }

  lemma {:induction false} FirstMatchIn(rules: seq<Rule>, vals: seq<Option<string>>, varsort: Option<string>, hasSemi: bool)
    ensures FirstMatch(rules, vals, varsort, hasSemi).Some? ==>
      FirstMatch(rules, vals, varsort, hasSemi).value in rules &&
      ValMatch(vals, FirstMatch(rules, vals, varsort, hasSemi).value.src,
               FirstMatch(rules, vals, varsort, hasSemi).value.op, varsort, hasSemi)
  {
    if rules != [] {
      FirstMatchIn(rules[1..], vals, varsort, hasSemi);
    }
  }

  /** `[props.get(f) for f in feats]` */
  function Lookup(props: map<string, string>, feats: seq<string>): (r: seq<Option<string>>)
    ensures |r| == |feats|
    ensures forall i :: 0 <= i < |feats| ==> r[i] == if feats[i] in props then Some(props[feats[i]]) else None
  {
    seq(|feats|, i requires 0 <= i < |feats| => if feats[i] in props then Some(props[feats[i]]) else None)
  }

  /** The assignment one target position makes, if any: `!` makes none,
      `*` copies the source value at that position when there is one, any
      other value is assigned as it is. */
  function AssignmentAt(k: string, v: string, i: nat, vals: seq<Option<string>>): seq<(string, string)> {
    if v == "*" then (if i < |vals| && vals[i].Some? then [(k, vals[i].value)] else [])
    else if v != "!" then [(k, v)]
    else []
  }

  /** The assignments of the first `n` pairs of `zip(tgtfeats, tgtvals)`, in order. */
  function Assignments(tgtfeats: seq<string>, tgtvals: seq<string>, vals: seq<Option<string>>, n: nat)
    : seq<(string, string)>
    requires n <= |tgtfeats| && n <= |tgtvals|
  {
    if n == 0 then []
    else Assignments(tgtfeats, tgtvals, vals, n - 1) + AssignmentAt(tgtfeats[n - 1], tgtvals[n - 1], n - 1, vals)
  }

  /** Exactly one pair per target position that is neither `!` nor an
      unset `*`, carrying the literal target or the copied source value. */
  lemma {:induction false} AssignmentsMeaning(tgtfeats: seq<string>, tgtvals: seq<string>, vals: seq<Option<string>>,
                                              n: nat, k: string, v: string)
    requires n <= |tgtfeats| && n <= |tgtvals|
    ensures (k, v) in Assignments(tgtfeats, tgtvals, vals, n) <==>
      exists i :: 0 <= i < n && tgtfeats[i] == k &&
        ((tgtvals[i] == "*" && i < |vals| && vals[i] == Some(v)) ||
         (tgtvals[i] != "*" && tgtvals[i] != "!" && tgtvals[i] == v))
  {
    if n > 0 {
      AssignmentsMeaning(tgtfeats, tgtvals, vals, n - 1, k, v);
    }
  }

  /** The source features, target features and usable rules of a group in
      the chosen direction. */
  function Oriented(g: Group, reverse: bool): (seq<string>, seq<string>, seq<Rule>) {
    if reverse then (g.tgtFeats, g.srcFeats, RlRules(g.rules)) else (g.srcFeats, g.tgtFeats, LrRules(g.rules))
  }

  /** The assignments a group makes: those of its first matching rule. */
  function GroupAssignments(g: Group, sort: string, props: map<string, string>, reverse: bool, hasSemi: bool)
    : seq<(string, string)>
  {
    var (srcfeats, tgtfeats, pms) := Oriented(g, reverse);
    var vals := Lookup(props, srcfeats);
    match FirstMatch(pms, vals, Some(sort), hasSemi)
    case None => []
    case Some(r) => Assignments(tgtfeats, r.tgt, vals, Min(|tgtfeats|, |r.tgt|))
  }

  function Min(a: nat, b: nat): nat { if a < b then a else b }

  /** All assignments of the groups, group after group. */
  function AllAssignments(groups: seq<Group>, sort: string, props: map<string, string>, reverse: bool, hasSemi: bool)
    : seq<(string, string)>
  {
    if groups == [] then []
    else
      var n := |groups| - 1;
      AllAssignments(groups[..n], sort, props, reverse, hasSemi) + GroupAssignments(groups[n], sort, props, reverse, hasSemi)
  }

  /** The new properties: the assignments made into an empty dict. */
  function NewProps(vpm: Vpm, sort: string, props: map<string, string>, reverse: bool): Dict<string, string> {
    SetAll([], AllAssignments(vpm.propmap, sort, props, reverse, vpm.hasSemi))
  }

  /** `Vpm.apply(var, props, reverse)` with the variable already split
      into its sort and its id. */
  method Apply(vpm: Vpm, sort: string, vid: string, props: map<string, string>, reverse: bool)
    returns (newvar: string, newprops: Dict<string, string>)
    requires forall r :: r in vpm.typemap ==> r.tgt != []
    ensures newvar == NewSort(vpm, sort, reverse) + vid
    ensures newprops == NewProps(vpm, NewSort(vpm, sort, reverse), props, reverse)
  {
    var tms := if reverse then [] else LrRules(vpm.typemap);
    var vs := MapSort(tms, sort, vpm.hasSemi);
    newvar := vs + vid;

    newprops := [];
    ghost var done: seq<(string, string)> := [];
    for g := 0 to |vpm.propmap|
      invariant done == AllAssignments(vpm.propmap[..g], vs, props, reverse, vpm.hasSemi)
      invariant newprops == SetAll([], done)
    {
      ghost var made := GroupAssignments(vpm.propmap[g], vs, props, reverse, vpm.hasSemi);
      newprops := ApplyGroup(vpm.propmap[g], vs, props, reverse, vpm.hasSemi, newprops);
      SetAllAppend([], done, made);
      assert vpm.propmap[..g + 1][..g] == vpm.propmap[..g];
      done := done + made;
    }
    assert vpm.propmap[..|vpm.propmap|] == vpm.propmap;
  }

  /** The type-mapping loop of `apply`: the first matching rule decides. */
  method MapSort(tms: seq<Rule>, sort: string, hasSemi: bool) returns (vs: string)
    requires forall r :: r in tms ==> r.tgt != []
    ensures vs == SortAfter(tms, sort, hasSemi)
  {
    vs := sort;
    for i := 0 to |tms|
      invariant vs == sort
      invariant forall j :: 0 <= j < i ==> !ValMatch([Some(sort)], tms[j].src, tms[j].op, None, hasSemi)
    {
      if ValMatch([Some(vs)], tms[i].src, tms[i].op, None, hasSemi) {
        FirstMatchAt(tms, [Some(sort)], None, hasSemi, i);
        assert tms[i] in tms;
        vs := if tms[i].tgt == ["*"] then vs else tms[i].tgt[0];
        return;
      }
    }
    FirstMatchAt(tms, [Some(sort)], None, hasSemi, |tms|);
  }

  /** One group of the property loop of `apply`: the first matching rule
      assigns its targets. */
  method ApplyGroup(g: Group, vs: string, props: map<string, string>, reverse: bool, hasSemi: bool,
                    d: Dict<string, string>)
    returns (newprops: Dict<string, string>)
    ensures newprops == SetAll(d, GroupAssignments(g, vs, props, reverse, hasSemi))
  {
    var srcfeats, tgtfeats, pms := Oriented(g, reverse).0, Oriented(g, reverse).1, Oriented(g, reverse).2;
    var vals := Lookup(props, srcfeats);
    for r := 0 to |pms|
      invariant forall j :: 0 <= j < r ==> !ValMatch(vals, pms[j].src, pms[j].op, Some(vs), hasSemi)
    {
      if ValMatch(vals, pms[r].src, pms[r].op, Some(vs), hasSemi) {
        FirstMatchAt(pms, vals, Some(vs), hasSemi, r);
        newprops := AssignTargets(tgtfeats, pms[r].tgt, vals, d);
        return;
      }
    }
    FirstMatchAt(pms, vals, Some(vs), hasSemi, |pms|);
    newprops := d;
  }

  /** The assignment loop over `enumerate(zip(tgtfeats, tgtvals))`. */
  method AssignTargets(tgtfeats: seq<string>, tgtvals: seq<string>, vals: seq<Option<string>>, d: Dict<string, string>)
    returns (newprops: Dict<string, string>)
    ensures newprops == SetAll(d, Assignments(tgtfeats, tgtvals, vals, Min(|tgtfeats|, |tgtvals|)))
  {
    newprops := d;
    ghost var made: seq<(string, string)> := [];
    for i := 0 to Min(|tgtfeats|, |tgtvals|)
      invariant made == Assignments(tgtfeats, tgtvals, vals, i)
      invariant newprops == SetAll(d, made)
    {
      ghost var step := AssignmentAt(tgtfeats[i], tgtvals[i], i, vals);
      newprops := AssignOne(tgtfeats[i], tgtvals[i], i, vals, newprops);
      SetAllAppend(d, made, step);
      made := made + step;
    }
  }

  /** The body of the assignment loop: a `*` target copies the source value
      when there is one, `!` assigns nothing, any other target is assigned. */
  method AssignOne(k: string, v: string, i: nat, vals: seq<Option<string>>, d: Dict<string, string>)
    returns (newprops: Dict<string, string>)
    ensures newprops == SetAll(d, AssignmentAt(k, v, i, vals))
  {
    newprops := d;
    if v == "*" {
      if i < |vals| && vals[i].Some? {
        newprops := Set(newprops, k, vals[i].value);
        SetAllStep(d, [], [(k, vals[i].value)]);
      }
    } else if v != "!" {
      newprops := Set(newprops, k, v);
      SetAllStep(d, [], [(k, v)]);
    }
  }

  /** One assignment step of the innermost loop, as a run of assignments. */
  lemma SetAllStep(d: Dict<string, string>, made: seq<(string, string)>, step: seq<(string, string)>)
    requires |step| <= 1
    ensures |step| == 1 ==> SetAll(d, made + step) == Set(SetAll(d, made), step[0].0, step[0].1)
    ensures step == [] ==> SetAll(d, made + step) == SetAll(d, made)
  {
    if |step| == 1 {
      assert (made + step)[..|made|] == made;
    } else {
      assert made + step == made;
    }
  }

  // ---------------------------------------------------------------------
  // Properties of apply

  /** Mapping in reverse never changes the variable sort. */
  lemma ReverseKeepsSort(vpm: Vpm, sort: string)
    requires forall r :: r in vpm.typemap ==> r.tgt != []
    ensures NewSort(vpm, sort, true) == sort
  {
  }

  /** Mapping forward, the first left-to-right type rule that matches the
      sort decides the new sort: its first target, or the sort itself for a
      `*` target; with no matching rule the sort is kept. */
  lemma ForwardSort(vpm: Vpm, sort: string, k: nat)
    requires forall r :: r in vpm.typemap ==> r.tgt != []
    requires k <= |LrRules(vpm.typemap)|
    requires forall j :: 0 <= j < k ==>
      !ValMatch([Some(sort)], LrRules(vpm.typemap)[j].src, LrRules(vpm.typemap)[j].op, None, vpm.hasSemi)
    ensures k == |LrRules(vpm.typemap)| ==> NewSort(vpm, sort, false) == sort
    ensures k < |LrRules(vpm.typemap)| &&
            ValMatch([Some(sort)], LrRules(vpm.typemap)[k].src, LrRules(vpm.typemap)[k].op, None, vpm.hasSemi) ==>
      NewSort(vpm, sort, false) ==
        if LrRules(vpm.typemap)[k].tgt == ["*"] then sort else LrRules(vpm.typemap)[k].tgt[0]
  {
    FirstMatchAt(LrRules(vpm.typemap), [Some(sort)], None, vpm.hasSemi, k);
  }

  /** A feature of the result holds the value assigned to it last; a
      feature no rule assigns is absent. */
  lemma NewPropsValue(vpm: Vpm, sort: string, props: map<string, string>, reverse: bool, k: string)
    ensures Get(NewProps(vpm, sort, props, reverse), k) ==
      LastWith(AllAssignments(vpm.propmap, sort, props, reverse, vpm.hasSemi), k)
  {
    GetSetAll([], AllAssignments(vpm.propmap, sort, props, reverse, vpm.hasSemi), k);
  }

  /** Within a group only the first matching rule assigns anything. */
  lemma GroupUsesFirstMatch(g: Group, sort: string, props: map<string, string>, reverse: bool, hasSemi: bool, k: nat)
    requires k < |Oriented(g, reverse).2|
    requires ValMatch(Lookup(props, Oriented(g, reverse).0), Oriented(g, reverse).2[k].src,
                      Oriented(g, reverse).2[k].op, Some(sort), hasSemi)
    requires forall j :: 0 <= j < k ==>
      !ValMatch(Lookup(props, Oriented(g, reverse).0), Oriented(g, reverse).2[j].src,
                Oriented(g, reverse).2[j].op, Some(sort), hasSemi)
    ensures var tgtfeats := Oriented(g, reverse).1;
      var tgt := Oriented(g, reverse).2[k].tgt;
      GroupAssignments(g, sort, props, reverse, hasSemi) ==
        Assignments(tgtfeats, tgt, Lookup(props, Oriented(g, reverse).0), Min(|tgtfeats|, |tgt|))
  {
    FirstMatchAt(Oriented(g, reverse).2, Lookup(props, Oriented(g, reverse).0), Some(sort), hasSemi, k);
  }

  // ---------------------------------------------------------------------
  // load

  /** Why a VPM file is refused. */
  datatype LoadError =
      /** a line that is neither a comment, a feature header nor a rule */
    | InvalidLine(line: string)
      /** a rule whose value counts differ from the current header's
          feature counts (an `assert` in the source) */
    | ArityMismatch(line: string)

  /** What the loader has read so far: the type rules, the groups (the
      last one receiving rules), and the value counts expected on each side. */
  datatype LoadState = LoadState(typemap: seq<Rule>, propmap: seq<Group>, lh: nat, rh: nat)

  const Initial: LoadState := LoadState([], [], 1, 1)

  predicate OpChar(c: char) { c == '<' || c == '>' || c == '=' }

  /** Where `(?P<lvals>.*)(?P<op>[<>=]{2})(?P<rvals>.*)$` puts the operator:
      the greedy `lvals` makes it the last two consecutive operator
      characters of the line. */
  function LastOp(t: string): (r: Option<nat>)
    ensures r.Some? ==>
      r.value + 1 < |t| && OpChar(t[r.value]) && OpChar(t[r.value + 1]) &&
      (forall j :: r.value < j < |t| - 1 ==> !(OpChar(t[j]) && OpChar(t[j + 1])))
    ensures r.None? ==> forall j :: 0 <= j < |t| - 1 ==> !(OpChar(t[j]) && OpChar(t[j + 1]))
  {
    if |t| < 2 then None
    else if OpChar(t[|t| - 2]) && OpChar(t[|t| - 1]) then Some(|t| - 2)
    else
      var r := LastOp(t[..|t| - 1]);
      assert forall j :: 0 <= j < |t| - 1 ==> t[..|t| - 1][j] == t[j];
      r
  }

  /** The position of the first `:`. */
  function FirstColon(t: string): (r: Option<nat>)
    ensures r.Some? ==> r.value < |t| && t[r.value] == ':' && ':' !in t[..r.value]
    ensures r.None? ==> ':' !in t
  {
    if t == [] then None
    else if t[0] == ':' then Some(0)
    else
      var r := FirstColon(t[1..]);
      assert r.Some? ==> t[..r.value + 1] == [t[0]] + t[1..][..r.value];
      if r.Some? then Some(r.value + 1) else None
  }

  /** `(?P<lfeats>[^:]+):(?P<rfeats>.+)`: text before the first colon
      (at least one character) and after it (at least one character). */
  function Header(t: string): (r: Option<(string, string)>)
    ensures r.Some? ==> r.value.0 != [] && r.value.1 != [] && ':' !in r.value.0 && t == r.value.0 + ":" + r.value.1
  {
    match FirstColon(t)
    case Some(c) =>
      if c >= 1 && c + 1 < |t| then
        assert t == t[..c] + ":" + t[c + 1..];
        Some((t[..c], t[c + 1..]))
      else None
    case None => None
  }

  /** A comment or blank line, once leading whitespace is removed. */
  predicate Skipped(t: string) {
    t == [] || t[0] == ';'
  }

  /** Rules go to the type map until the first header, then to the most
      recent group. */
  function AddRule(st: LoadState, r: Rule): LoadState {
    if st.propmap == [] then st.(typemap := st.typemap + [r])
    else
      var n := |st.propmap| - 1;
      var g := st.propmap[n];
      st.(propmap := st.propmap[..n] + [g.(rules := g.rules + [r])])
  }

  /** A feature header line opens a new, empty group and sets the value
      counts that its rules must have. */
  function OpenGroup(st: LoadState, l: string, r: string): LoadState {
    var lf := SplitWhitespace(l);
    var rf := SplitWhitespace(r);
    LoadState(st.typemap, st.propmap + [Group(lf, rf, [])], |lf|, |rf|)
  }

  /** A rule line with its operator at position `i`. */
  function RuleLine(st: LoadState, t: string, i: nat): Result<LoadState, LoadError>
    requires i + 2 <= |t|
  {
    var lv := SplitWhitespace(t[..i]);
    var rv := SplitWhitespace(t[i + 2..]);
    if |lv| != st.lh || |rv| != st.rh then Failure(ArityMismatch(t))
    else Success(AddRule(st, Rule(lv, t[i..i + 2], rv)))
  }

  /** What a line does to the loader, once its leading whitespace is removed. */
  function StepStripped(st: LoadState, t: string): Result<LoadState, LoadError> {
    if Skipped(t) then Success(st)
    else if Header(t).Some? then Success(OpenGroup(st, Header(t).value.0, Header(t).value.1))
    else if LastOp(t).Some? then RuleLine(st, t, LastOp(t).value)
    else Failure(InvalidLine(t))
  }

  /** The loader after the given lines, or its first error. */
  function Run(lines: seq<string>): Result<LoadState, LoadError> {
    if lines == [] then Success(Initial)
    else
      var n := |lines| - 1;
      match Run(lines[..n])
      case Failure(e) => Failure(e)
      case Success(st) => StepStripped(st, LStrip(lines[n]))
  }

  /** `load(fh, semi)` over the lines of the file. */
  function LoadSpec(lines: seq<string>, hasSemi: bool): Result<Vpm, LoadError> {
    match Run(lines)
    case Failure(e) => Failure(e)
    case Success(st) => Success(Vpm(st.typemap, st.propmap, hasSemi))
  }

  lemma RunNext(lines: seq<string>, k: nat, st: LoadState)
    requires k < |lines| && Run(lines[..k]) == Success(st)
    ensures Run(lines[..k + 1]) == StepStripped(st, LStrip(lines[k]))
  {
    assert lines[..k + 1][..k] == lines[..k];
  }

  /** `load(fh, semi)`: reads the lines in order, sending rules to the type
      map until the first feature header and to the latest group after it. */
  method Load(lines: seq<string>, hasSemi: bool) returns (r: Result<Vpm, LoadError>)
    ensures r == LoadSpec(lines, hasSemi)
  {
    var typemap: seq<Rule> := [];
    var propmap: seq<Group> := [];
    var lh: nat, rh: nat := 1, 1;
    for k := 0 to |lines|
      invariant Run(lines[..k]) == Success(LoadState(typemap, propmap, lh, rh))
    {
      RunNext(lines, k, LoadState(typemap, propmap, lh, rh));
      var line := LStrip(lines[k]);
      if Skipped(line) {
        continue;
      }
      var header := Header(line);
      if header.Some? {
        var lfeats := SplitWhitespace(header.value.0);
        var rfeats := SplitWhitespace(header.value.1);
        lh, rh := |lfeats|, |rfeats|;
        propmap := propmap + [Group(lfeats, rfeats, [])];
        continue;
      }
      var op := LastOp(line);
      if op.Some? {
        var i := op.value;
        var lvals := SplitWhitespace(line[..i]);
        var rvals := SplitWhitespace(line[i + 2..]);
        if |lvals| != lh || |rvals| != rh {
          FailureStays(lines, k + 1, ArityMismatch(line));
          return Failure(ArityMismatch(line));
        }
        var rule := Rule(lvals, line[i..i + 2], rvals);
        if propmap == [] {
          typemap := typemap + [rule];
        } else {
          var n := |propmap| - 1;
          propmap := propmap[..n] + [propmap[n].(rules := propmap[n].rules + [rule])];
        }
        continue;
      }
      FailureStays(lines, k + 1, InvalidLine(line));
      return Failure(InvalidLine(line));
    }
    assert lines[..|lines|] == lines;
    return Success(Vpm(typemap, propmap, hasSemi));
  }

  /** Once a line fails, the whole file fails with that error. */
  lemma {:induction false} FailureStays(lines: seq<string>, k: nat, e: LoadError)
    requires k <= |lines| && Run(lines[..k]) == Failure(e)
    ensures Run(lines) == Failure(e)
    decreases |lines| - k
  {
    if k < |lines| {
      assert lines[..k + 1][..k] == lines[..k];
      FailureStays(lines, k + 1, e);
    } else {
      assert lines[..k] == lines;
    }
  }

  // ---------------------------------------------------------------------
  // Properties of load

  /** Every rule has the value counts its header announces: one value on
      each side for type rules, and the group's feature counts for
      property rules. */
  predicate WellFormed(vpm: Vpm) {
    (forall r :: r in vpm.typemap ==> |r.src| == 1 && |r.tgt| == 1) &&
    forall g :: g in vpm.propmap ==> GroupWellFormed(g)
  }

  /** Every rule of a group has the group's feature counts. */
  predicate GroupWellFormed(g: Group) {
    forall r :: r in g.rules ==> |r.src| == |g.srcFeats| && |r.tgt| == |g.tgtFeats|
  }

  /** The loader's own invariant: a well-formed VPM so far, and the
      expected counts are those of the latest header (one and one before
      any header). */
  predicate StateWellFormed(st: LoadState) {
    WellFormed(Vpm(st.typemap, st.propmap, false)) &&
    (st.propmap == [] ==> st.lh == 1 && st.rh == 1) &&
    (st.propmap != [] ==>
       st.lh == |st.propmap[|st.propmap| - 1].srcFeats| && st.rh == |st.propmap[|st.propmap| - 1].tgtFeats|)
  }

  lemma AddRuleWellFormed(st: LoadState, rule: Rule)
    requires StateWellFormed(st) && |rule.src| == st.lh && |rule.tgt| == st.rh
    ensures StateWellFormed(AddRule(st, rule))
  {
    if st.propmap != [] {
      var n := |st.propmap| - 1;
      var g := st.propmap[n].(rules := st.propmap[n].rules + [rule]);
      assert GroupWellFormed(st.propmap[n]);
      assert forall x :: x in g.rules ==> x in st.propmap[n].rules || x == rule;
      assert GroupWellFormed(g);
      assert forall x :: x in AddRule(st, rule).propmap ==> x in st.propmap[..n] || x == g;
    }
  }

  lemma OpenGroupWellFormed(st: LoadState, l: string, r: string)
    requires StateWellFormed(st)
    ensures StateWellFormed(OpenGroup(st, l, r))
  {
    var lf, rf := SplitWhitespace(l), SplitWhitespace(r);
    var g := Group(lf, rf, []);
    var st' := OpenGroup(st, l, r);
    assert st' == LoadState(st.typemap, st.propmap + [g], |lf|, |rf|);
    assert GroupWellFormed(g);
    assert forall x :: x in st'.propmap ==> x in st.propmap || x == g;
    assert st'.propmap[|st'.propmap| - 1] == g;
  }

  lemma RuleLineWellFormed(st: LoadState, t: string, i: nat)
    requires StateWellFormed(st) && i + 2 <= |t|
    ensures RuleLine(st, t, i).Success? ==> StateWellFormed(RuleLine(st, t, i).value)
  {
    var lv := SplitWhitespace(t[..i]);
    var rv := SplitWhitespace(t[i + 2..]);
    if |lv| == st.lh && |rv| == st.rh {
      AddRuleWellFormed(st, Rule(lv, t[i..i + 2], rv));
    }
  }

  lemma StepWellFormed(st: LoadState, t: string)
    requires StateWellFormed(st)
    ensures StepStripped(st, t).Success? ==> StateWellFormed(StepStripped(st, t).value)
  {
    if Skipped(t) {
    } else if Header(t).Some? {
      OpenGroupWellFormed(st, Header(t).value.0, Header(t).value.1);
    } else if LastOp(t).Some? {
      RuleLineWellFormed(st, t, LastOp(t).value);
    }
  }

  lemma {:induction false} RunWellFormed(lines: seq<string>)
    ensures Run(lines).Success? ==> StateWellFormed(Run(lines).value)
  {
    if lines != [] {
      var n := |lines| - 1;
      RunWellFormed(lines[..n]);
      if Run(lines[..n]).Success? {
        StepWellFormed(Run(lines[..n]).value, LStrip(lines[n]));
      }
    }
  }

  /** A loaded VPM is well formed, so its type rules can always be applied. */
  lemma LoadWellFormed(lines: seq<string>, hasSemi: bool)
    ensures LoadSpec(lines, hasSemi).Success? ==> WellFormed(LoadSpec(lines, hasSemi).value)
    ensures LoadSpec(lines, hasSemi).Success? ==> forall r :: r in LoadSpec(lines, hasSemi).value.typemap ==> r.tgt != []
  {
    RunWellFormed(lines);
  }

  lemma RunSnoc(lines: seq<string>, l: string)
    ensures Run(lines + [l]) ==
      if Run(lines).Failure? then Run(lines) else StepStripped(Run(lines).value, LStrip(l))
  {
    assert (lines + [l])[..|lines|] == lines;
  }

  /** Blank and comment lines change nothing. */
  lemma {:induction false} SkippedLinesIgnored(a: seq<string>, line: string, b: seq<string>)
    requires Skipped(LStrip(line))
    ensures Run(a + [line] + b) == Run(a + b)
    decreases |b|
  {
    if b == [] {
      RunSnoc(a, line);
      assert a + [line] + b == a + [line];
      assert a + b == a;
    } else {
      var n := |b| - 1;
      SkippedLinesIgnored(a, line, b[..n]);
      RunSnoc(a + [line] + b[..n], b[n]);
      RunSnoc(a + b[..n], b[n]);
      assert a + [line] + b == (a + [line] + b[..n]) + [b[n]];
      assert a + b == (a + b[..n]) + [b[n]];
    }
  }
}
