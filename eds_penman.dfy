/** An EDS as PENMAN triples `(source id, relation, target)`: encoding to
    triples (top node first; per node its predicate, alignment, constant
    argument, type, properties and edges) and decoding triples back into
    nodes. */
module EdsPenman {
  import opened Wrappers
  import opened Dicts
  import opened PyStrings
  import opened Sorting
  import opened Eds
  import ItsdbMatch

  /** A triple as `to_triples` emits it. Only an `instance` triple can have
      a None target: that of a node without a predicate. */
  type OutTriple = (string, string, Option<string>)

  /** A triple as `from_triples` reads it, as a decoded PENMAN graph gives
      them. */
  type Triple = (string, string, string)

  /** `'"{}"'.format(s)` */
  function Quoted(s: string): string {
    "\"" + s + "\""
  }

  // ---------------------------------------------------------------------
  // to_triples

  /** The sort key `n.id != top`: a node whose id is the top comes before
      one whose id is not. */
  function TopBefore(top: Option<string>): (Node, Node) -> bool {
    (a: Node, b: Node) => top == Some(a.id) && top != Some(b.id)
  }

  /** A dict's entries ordered by their keys under `less`, which stands for
      `<` on the keys' priorities. */
  function KeyBefore(less: (string, string) -> bool): ((string, string), (string, string)) -> bool {
    (a: (string, string), b: (string, string)) => less(a.0, b.0)
  }

  /** The triples a node starts with: its predicate, then its alignment
      (when asked for and present), its constant argument (when present and
      non-empty), both double-quoted, and its type (when present). */
  function HeadTriples(n: Node, lnk: bool, showLnk: Lnk -> string): (r: seq<OutTriple>)
    ensures 1 <= |r| <= 4 && r[0] == (n.id, "instance", n.pred)
  {
    [(n.id, "instance", n.pred)]
    + (if lnk && n.lnk.Some? then [(n.id, "lnk", Some(Quoted(showLnk(n.lnk.value))))] else [])
    + (if n.carg.Some? && n.carg.value != "" then [(n.id, "carg", Some(Quoted(n.carg.value)))] else [])
    + (if n.ntype.Some? then [(n.id, "type", n.ntype)] else [])
  }

  /** One triple per property, its name lower-cased, in the order given. */
  function PropertyTriples(id: string, ps: Dict<string, string>): (r: seq<OutTriple>)
    ensures |r| == |ps|
    ensures forall i :: 0 <= i < |ps| ==> r[i] == (id, Lower(ps[i].0), Some(ps[i].1))
  {
    seq(|ps|, i requires 0 <= i < |ps| => (id, Lower(ps[i].0), Some(ps[i].1)))
  }

  /** One triple per edge, in the order given. */
  function EdgeTriples(id: string, es: Dict<string, string>): (r: seq<OutTriple>)
    ensures |r| == |es|
    ensures forall i :: 0 <= i < |es| ==> r[i] == (id, es[i].0, Some(es[i].1))
  {
    seq(|es|, i requires 0 <= i < |es| => (id, es[i].0, Some(es[i].1)))
  }

  /** All the triples of one node. Properties and edges are visited in key
      priority order; as Python dicts have no repeated keys, sorting the
      entries by key is sorting the keys and looking each one up. */
  function NodeTriples(n: Node, properties: bool, lnk: bool, showLnk: Lnk -> string,
                       propLess: (string, string) -> bool, roleLess: (string, string) -> bool): (r: seq<OutTriple>)
    ensures |r| >= 1 && r[0] == (n.id, "instance", n.pred)
  {
    HeadTriples(n, lnk, showLnk)
    + (if properties then PropertyTriples(n.id, SortBy(n.properties, KeyBefore(propLess))) else [])
    + EdgeTriples(n.id, SortBy(n.edges, KeyBefore(roleLess)))
  }

  /** The triples of the nodes `ns`, node after node. */
  function TriplesOf(ns: seq<Node>, properties: bool, lnk: bool, showLnk: Lnk -> string,
                     propLess: (string, string) -> bool, roleLess: (string, string) -> bool): seq<OutTriple>
  {
    if ns == [] then []
    else
      var n := |ns| - 1;
      TriplesOf(ns[..n], properties, lnk, showLnk, propLess, roleLess)
      + NodeTriples(ns[n], properties, lnk, showLnk, propLess, roleLess)
  }

  function ToTriplesSpec(e: Eds, properties: bool, lnk: bool, showLnk: Lnk -> string,
                         propLess: (string, string) -> bool, roleLess: (string, string) -> bool): seq<OutTriple>
  {
    TriplesOf(SortBy(e.nodes, TopBefore(e.top)), properties, lnk, showLnk, propLess, roleLess)
  }

  /** `to_triples(e, properties, lnk)`. `showLnk` is `str` on alignments;
      `propLess` and `roleLess` compare `property_priority` and
      `role_priority`. */
  method ToTriples(e: Eds, properties: bool, lnk: bool, showLnk: Lnk -> string,
                   propLess: (string, string) -> bool, roleLess: (string, string) -> bool)
    returns (triples: seq<OutTriple>)
    ensures triples == ToTriplesSpec(e, properties, lnk, showLnk, propLess, roleLess)
  {
    var nodes := SortBy(e.nodes, TopBefore(e.top));
    triples := [];
    for i := 0 to |nodes|
      invariant triples == TriplesOf(nodes[..i], properties, lnk, showLnk, propLess, roleLess)
    {
      TriplesOfSnoc(nodes, i, properties, lnk, showLnk, propLess, roleLess);
      var more := NodeLines(nodes[i], properties, lnk, showLnk, propLess, roleLess);
      triples := triples + more;
    }
    assert nodes[..|nodes|] == nodes;
  }

  lemma TriplesOfSnoc(ns: seq<Node>, i: nat, properties: bool, lnk: bool, showLnk: Lnk -> string,
                      propLess: (string, string) -> bool, roleLess: (string, string) -> bool)
    requires i < |ns|
    ensures TriplesOf(ns[..i + 1], properties, lnk, showLnk, propLess, roleLess) ==
      TriplesOf(ns[..i], properties, lnk, showLnk, propLess, roleLess)
      + NodeTriples(ns[i], properties, lnk, showLnk, propLess, roleLess)
  {
    assert ns[..i + 1][..i] == ns[..i];
  }

  /** The triples of one node, appended part by part. */
  method NodeLines(node: Node, properties: bool, lnk: bool, showLnk: Lnk -> string,
                   propLess: (string, string) -> bool, roleLess: (string, string) -> bool)
    returns (triples: seq<OutTriple>)
    ensures triples == NodeTriples(node, properties, lnk, showLnk, propLess, roleLess)
  {
    triples := HeadLines(node, lnk, showLnk);
    if properties {
      var props := SortBy(node.properties, KeyBefore(propLess));
      var more := AppendProperties(node.id, props);
      triples := triples + more;
    }
    var roles := SortBy(node.edges, KeyBefore(roleLess));
    var more := AppendEdges(node.id, roles);
    triples := triples + more;
  }

  /** The head triples of a node, appended one condition at a time. */
  method HeadLines(node: Node, lnk: bool, showLnk: Lnk -> string) returns (triples: seq<OutTriple>)
    ensures triples == HeadTriples(node, lnk, showLnk)
  {
    var nid := node.id;
    triples := [(nid, "instance", node.pred)];
    if lnk && node.lnk.Some? {
      triples := triples + [(nid, "lnk", Some(Quoted(showLnk(node.lnk.value))))];
    }
    if node.carg.Some? && node.carg.value != "" {
      triples := triples + [(nid, "carg", Some(Quoted(node.carg.value)))];
    }
    if node.ntype.Some? {
      triples := triples + [(nid, "type", node.ntype)];
    }
  }

  method AppendProperties(nid: string, props: Dict<string, string>) returns (triples: seq<OutTriple>)
    ensures triples == PropertyTriples(nid, props)
  {
    triples := [];
    for k := 0 to |props|
      invariant triples == PropertyTriples(nid, props[..k])
    {
      triples := triples + [(nid, Lower(props[k].0), Some(props[k].1))];
    }
    assert props[..|props|] == props;
  }

  method AppendEdges(nid: string, roles: Dict<string, string>) returns (triples: seq<OutTriple>)
    ensures triples == EdgeTriples(nid, roles)
  {
    triples := [];
    for k := 0 to |roles|
      invariant triples == EdgeTriples(nid, roles[..k])
    {
      triples := triples + [(nid, roles[k].0, Some(roles[k].1))];
    }
    assert roles[..|roles|] == roles;
  }

  // ---------------------------------------------------------------------
  // Properties of to_triples

  /** Nodes whose id is (not) the top, in order. */
  function TopNodes(ns: seq<Node>, top: Option<string>): (r: seq<Node>)
    ensures AllTop(r, top)
  {
    if ns == [] then []
    else
      var n := |ns| - 1;
      TopNodes(ns[..n], top) + (if top == Some(ns[n].id) then [ns[n]] else [])
  }

  function OtherNodes(ns: seq<Node>, top: Option<string>): (r: seq<Node>)
    ensures NoneTop(r, top)
  {
    if ns == [] then []
    else
      var n := |ns| - 1;
      OtherNodes(ns[..n], top) + (if top != Some(ns[n].id) then [ns[n]] else [])
  }

  predicate AllTop(ns: seq<Node>, top: Option<string>) {
    forall i :: 0 <= i < |ns| ==> top == Some(ns[i].id)
  }

  predicate NoneTop(ns: seq<Node>, top: Option<string>) {
    forall i :: 0 <= i < |ns| ==> top != Some(ns[i].id)
  }

  /** Inserting a top node after the top nodes alone appends it. */
  lemma InsertAfterTops(ts: seq<Node>, x: Node, top: Option<string>)
    requires AllTop(ts, top) && top == Some(x.id)
    ensures Insert(ts, x, TopBefore(top)) == ts + [x]
  {
    if ts != [] {
      assert !TopBefore(top)(x, ts[|ts| - 1]);
    }
  }

  /** Inserting a top node into (top nodes + other nodes) puts it after the
      top nodes. */
  lemma {:induction false} InsertTop(ts: seq<Node>, os: seq<Node>, x: Node, top: Option<string>)
    requires AllTop(ts, top) && NoneTop(os, top) && top == Some(x.id)
    ensures Insert(ts + os, x, TopBefore(top)) == ts + [x] + os
  {
    if os == [] {
      assert ts + os == ts;
      InsertAfterTops(ts, x, top);
    } else {
      var m := |os| - 1;
      var s := ts + os;
      assert s[|s| - 1] == os[m];
      assert TopBefore(top)(x, os[m]);
      assert s[..|s| - 1] == ts + os[..m];
      InsertBefore(s, x, TopBefore(top));
      forall i | 0 <= i < m ensures top != Some(os[..m][i].id) {
        assert os[..m][i] == os[i];
      }
      InsertTop(ts, os[..m], x, top);
      AppendLast(ts + [x], os);
    }
  }

  lemma AppendLast<T>(a: seq<T>, b: seq<T>)
    requires b != []
    ensures a + b[..|b| - 1] + [b[|b| - 1]] == a + b
  {
    assert b[..|b| - 1] + [b[|b| - 1]] == b;
  }

  /** Inserting a node without the top id appends it. */
  lemma InsertOther(ts: seq<Node>, os: seq<Node>, x: Node, top: Option<string>)
    requires top != Some(x.id)
    ensures Insert(ts + os, x, TopBefore(top)) == ts + (os + [x])
  {
    if ts + os != [] {
      assert !TopBefore(top)(x, (ts + os)[|ts + os| - 1]);
    }
    assert ts + os + [x] == ts + (os + [x]);
  }

  /** Sorting by `n.id != top` is stable: the top nodes first, then the
      others, each group in node order. */
  lemma {:induction false} TopFirst(ns: seq<Node>, top: Option<string>)
    ensures SortBy(ns, TopBefore(top)) == TopNodes(ns, top) + OtherNodes(ns, top)
  {
    if ns != [] {
      var n := |ns| - 1;
      var x := ns[n];
      TopFirst(ns[..n], top);
      var ts := TopNodes(ns[..n], top);
      var os := OtherNodes(ns[..n], top);
      assert SortBy(ns, TopBefore(top)) == Insert(ts + os, x, TopBefore(top));
      if top == Some(x.id) {
        assert TopNodes(ns, top) == ts + [x];
        assert OtherNodes(ns, top) == os;
        InsertTop(ts, os, x, top);
      } else {
        assert TopNodes(ns, top) == ts;
        assert OtherNodes(ns, top) == os + [x];
        InsertOther(ts, os, x, top);
      }
    }
  }

  lemma {:induction false} TriplesOfStart(ns: seq<Node>, properties: bool, lnk: bool, showLnk: Lnk -> string,
                                          propLess: (string, string) -> bool, roleLess: (string, string) -> bool)
    requires ns != []
    ensures |TriplesOf(ns, properties, lnk, showLnk, propLess, roleLess)| >= 1
    ensures TriplesOf(ns, properties, lnk, showLnk, propLess, roleLess)[0] == (ns[0].id, "instance", ns[0].pred)
  {
    var n := |ns| - 1;
    if n > 0 {
      TriplesOfStart(ns[..n], properties, lnk, showLnk, propLess, roleLess);
    }
  }

  /** The top node's triples come first: when a node has the top id, the
      first triple is that node's predicate; without a top, nodes keep
      their order. */
  lemma ToTriplesTopFirst(e: Eds, properties: bool, lnk: bool, showLnk: Lnk -> string,
                          propLess: (string, string) -> bool, roleLess: (string, string) -> bool, i: nat)
    requires i < |e.nodes| && e.top == Some(e.nodes[i].id)
    ensures |ToTriplesSpec(e, properties, lnk, showLnk, propLess, roleLess)| >= 1
    ensures ToTriplesSpec(e, properties, lnk, showLnk, propLess, roleLess)[0].0 == e.nodes[i].id
    ensures ToTriplesSpec(e, properties, lnk, showLnk, propLess, roleLess)[0].1 == "instance"
  {
    TopFirst(e.nodes, e.top);
    TopNodesHas(e.nodes, e.top, i);
    TriplesOfStart(SortBy(e.nodes, TopBefore(e.top)), properties, lnk, showLnk, propLess, roleLess);
  }

  lemma {:induction false} TopNodesHas(ns: seq<Node>, top: Option<string>, i: nat)
    requires i < |ns| && top == Some(ns[i].id)
    ensures TopNodes(ns, top) != []
  {
    var n := |ns| - 1;
    if i < n {
      assert ns[..n][i] == ns[i];
      TopNodesHas(ns[..n], top, i);
    }
  }

  /** Without a top, `to_triples` keeps the node order. */
  lemma ToTriplesWithoutTop(ns: seq<Node>)
    ensures SortBy(ns, TopBefore(None)) == ns
  {
    assert Sorted(ns, TopBefore(None));
    SortBySortedUnchanged(ns, TopBefore(None));
  }

  /** A node's optional head triples: a `lnk` triple iff asked for and
      aligned, a `carg` triple iff it has a non-empty constant, a `type`
      triple iff it has a type; each with its value. */
  lemma HeadTriplesShape(n: Node, lnk: bool, showLnk: Lnk -> string)
    ensures (exists t :: t in HeadTriples(n, lnk, showLnk) && t.1 == "lnk") <==> lnk && n.lnk.Some?
    ensures lnk && n.lnk.Some? ==> (n.id, "lnk", Some(Quoted(showLnk(n.lnk.value)))) in HeadTriples(n, lnk, showLnk)
    ensures (exists t :: t in HeadTriples(n, lnk, showLnk) && t.1 == "carg") <==> n.carg.Some? && n.carg.value != ""
    ensures n.carg.Some? && n.carg.value != "" ==> (n.id, "carg", Some(Quoted(n.carg.value))) in HeadTriples(n, lnk, showLnk)
    ensures (exists t :: t in HeadTriples(n, lnk, showLnk) && t.1 == "type") <==> n.ntype.Some?
    ensures n.ntype.Some? ==> (n.id, "type", n.ntype) in HeadTriples(n, lnk, showLnk)
  {
    var h := HeadTriples(n, lnk, showLnk);
    if lnk && n.lnk.Some? {
      assert h[1] == (n.id, "lnk", Some(Quoted(showLnk(n.lnk.value))));
    }
    var l := if lnk && n.lnk.Some? then 1 else 0;
    if n.carg.Some? && n.carg.value != "" {
      assert h[1 + l] == (n.id, "carg", Some(Quoted(n.carg.value)));
    }
    var c := if n.carg.Some? && n.carg.value != "" then 1 else 0;
    if n.ntype.Some? {
      assert h[1 + l + c] == (n.id, "type", n.ntype);
    }
  }

  lemma KeyBeforeOrder(less: (string, string) -> bool)
    requires StrictWeakOrder(less)
    ensures StrictWeakOrder(KeyBefore(less))
  {
    var k := KeyBefore(less);
    forall a: (string, string), b: (string, string) | k(a, b) ensures !k(b, a) {
      assert less(a.0, b.0);
    }
    forall a: (string, string), b: (string, string), c: (string, string) | !k(a, b) && !k(b, c)
      ensures !k(a, c)
    {
      assert !less(a.0, b.0) && !less(b.0, c.0);
    }
  }

  /** With the properties flag each property gives one triple, its name
      lower-cased, in priority order; without it there is none. */
  lemma PropertyTriplesMeaning(n: Node, propLess: (string, string) -> bool)
    requires StrictWeakOrder(propLess)
    ensures var ps := SortBy(n.properties, KeyBefore(propLess));
      && multiset(ps) == multiset(n.properties)
      && (forall i, j :: 0 <= i < j < |ps| ==> !propLess(ps[j].0, ps[i].0))
      && PropertyTriples(n.id, ps) == seq(|ps|, i requires 0 <= i < |ps| => (n.id, Lower(ps[i].0), Some(ps[i].1)))
  {
    KeyBeforeOrder(propLess);
    SortBySorted(n.properties, KeyBefore(propLess));
    var ps := SortBy(n.properties, KeyBefore(propLess));
    forall i, j | 0 <= i < j < |ps| ensures !propLess(ps[j].0, ps[i].0) {
      assert !KeyBefore(propLess)(ps[j], ps[i]);
    }
  }

  /** Each edge gives one triple, in role priority order. */
  lemma EdgeTriplesMeaning(n: Node, roleLess: (string, string) -> bool)
    requires StrictWeakOrder(roleLess)
    ensures var es := SortBy(n.edges, KeyBefore(roleLess));
      && multiset(es) == multiset(n.edges)
      && (forall i, j :: 0 <= i < j < |es| ==> !roleLess(es[j].0, es[i].0))
  {
    KeyBeforeOrder(roleLess);
    SortBySorted(n.edges, KeyBefore(roleLess));
    var es := SortBy(n.edges, KeyBefore(roleLess));
    forall i, j | 0 <= i < j < |es| ensures !roleLess(es[j].0, es[i].0) {
      assert !KeyBefore(roleLess)(es[j], es[i]);
    }
  }

  // ---------------------------------------------------------------------
  // from_triples

  /** What is collected about one node. */
  datatype Rec = Rec(
    pred: Option<string>,
    ntype: Option<string>,
    edges: Dict<string, string>,
    props: Dict<string, string>,
    lnk: Option<Lnk>,
    carg: Option<string>)

  const NewRec := Rec(None, None, [], [], None, None)

  /** `tgt[0]` on an empty `carg` target raises IndexError. */
  datatype DecodeError = EmptyCarg(src: string)

  /** The collected records and the node ids in first-seen order. */
  datatype Acc = Acc(nids: seq<string>, nd: map<string, Rec>)

  /** `r` is `s[a..b]`, with only double quotes before `a` and after `b`. */
  predicate QuoteTrimmed(s: string, r: string, a: int, b: int) {
    0 <= a <= b <= |s| && r == s[a..b] &&
    (forall k :: 0 <= k < a ==> s[k] == '"') && (forall k :: b <= k < |s| ==> s[k] == '"')
  }

  /** `s.strip('"')`: the slice of `s` left after removing every leading
      and every trailing double quote. */
  function StripQuotes(s: string): (r: string)
    ensures r != [] ==> r[0] != '"' && r[|r| - 1] != '"'
    ensures exists a, b :: QuoteTrimmed(s, r, a, b)
  {
    if s != [] && s[0] == '"' then
      var r := StripQuotes(s[1..]);
      QuoteTrimmedFront(s, r);
      r
    else if s != [] && s[|s| - 1] == '"' then
      var r := StripQuotes(s[..|s| - 1]);
      QuoteTrimmedBack(s, s[..|s| - 1], r);
      r
    else
      assert QuoteTrimmed(s, s, 0, |s|);
      s
  }

  lemma QuoteTrimmedFront(s: string, r: string)
    requires s != [] && s[0] == '"' && exists a, b :: QuoteTrimmed(s[1..], r, a, b)
    ensures exists a, b :: QuoteTrimmed(s, r, a, b)
  {
    var a, b :| QuoteTrimmed(s[1..], r, a, b);
    assert s[1..][a..b] == s[a + 1..b + 1];
    forall k | 1 <= k < a + 1 ensures s[k] == '"' {
      assert s[1..][k - 1] == s[k];
    }
    forall k | b + 1 <= k < |s| ensures s[k] == '"' {
      assert s[1..][k - 1] == s[k];
    }
    assert QuoteTrimmed(s, r, a + 1, b + 1);
  }

  lemma QuoteTrimmedBack(s: string, init: string, r: string)
    requires s != [] && s[|s| - 1] == '"' && init == s[..|s| - 1]
    requires exists a, b :: QuoteTrimmed(init, r, a, b)
    ensures exists a, b :: QuoteTrimmed(s, r, a, b)
  {
    var a, b :| QuoteTrimmed(init, r, a, b);
    assert s == init + ['"'];
    assert r == s[a..b];
    forall k | 0 <= k < a ensures s[k] == '"' {
      assert s[k] == init[k];
    }
    forall k | b <= k < |s| ensures s[k] == '"' {
      assert k == |init| || s[k] == init[k];
    }
    assert QuoteTrimmed(s, r, a, b);
  }


  /** `tgt[1:-1]` when `tgt` starts and ends with a double quote. */
  function Unquoted(tgt: string): (r: string)
    ensures |tgt| >= 2 && tgt[0] == '"' && tgt[|tgt| - 1] == '"' ==> tgt == Quoted(r)
    ensures !(|tgt| >= 1 && tgt[0] == '"' && tgt[|tgt| - 1] == '"') ==> r == tgt
  {
    if |tgt| >= 1 && tgt[0] == '"' && tgt[|tgt| - 1] == '"' then
      (if |tgt| >= 2 then tgt[1..|tgt| - 1] else "")
    else tgt
  }

  /** `rel.islower()`: some letter, and no upper-case one. */
  predicate IsLowerRel(rel: string) {
    (exists i :: 0 <= i < |rel| && IsAsciiLower(rel[i])) &&
    (forall i :: 0 <= i < |rel| ==> !IsAsciiUpper(rel[i]))
  }

  /** The relations with a meaning of their own. */
  predicate IsNodeRel(rel: string) {
    rel == "predicate" || rel == "lnk" || rel == "carg" || rel == "type"
  }

  predicate IsPropertyRel(rel: string) {
    !IsNodeRel(rel) && IsLowerRel(rel)
  }

  predicate IsEdgeRel(rel: string) {
    !IsNodeRel(rel) && !IsLowerRel(rel)
  }

  /** One triple's effect on its source's record. */
  function Update(r: Rec, src: string, rel: string, tgt: string, parseLnk: string -> Lnk): Result<Rec, DecodeError> {
    if rel == "predicate" then Success(r.(pred := Some(tgt)))
    else if rel == "lnk" then Success(r.(lnk := Some(parseLnk(StripQuotes(tgt)))))
    else if rel == "carg" then
      if tgt == "" then Failure(EmptyCarg(src)) else Success(r.(carg := Some(Unquoted(tgt))))
    else if rel == "type" then Success(r.(ntype := Some(tgt)))
    else if IsLowerRel(rel) then Success(r.(props := Set(r.props, Upper(rel), tgt)))
    else Success(r.(edges := Set(r.edges, rel, tgt)))
  }

  function Step(acc: Acc, t: Triple, parseLnk: string -> Lnk): Result<Acc, DecodeError> {
    var known := t.0 in acc.nd;
    var nids := if known then acc.nids else acc.nids + [t.0];
    var nd := if known then acc.nd else acc.nd[t.0 := NewRec];
    var rec :- Update(nd[t.0], t.0, t.1, t.2, parseLnk);
    Success(Acc(nids, nd[t.0 := rec]))
  }

  /** The state after the triples `ts`; every listed id has a record and
      every record is listed. */
  function Run(ts: seq<Triple>, parseLnk: string -> Lnk): (r: Result<Acc, DecodeError>)
    ensures r.Success? ==> forall x :: x in r.value.nd <==> x in r.value.nids
  {
    if ts == [] then Success(Acc([], map[]))
    else
      var n := |ts| - 1;
      var acc :- Run(ts[..n], parseLnk);
      Step(acc, ts[n], parseLnk)
  }

  /** The nodes, one per collected id, in first-seen order. */
  function BuildNodes(acc: Acc): (r: seq<Node>)
    requires forall x :: x in acc.nids ==> x in acc.nd
    ensures |r| == |acc.nids|
  {
    seq(|acc.nids|, i requires 0 <= i < |acc.nids| =>
      var rec := acc.nd[acc.nids[i]];
      MakeNode(acc.nids[i], rec.pred, rec.ntype, Some(rec.edges), Some(rec.props), rec.carg, rec.lnk))
  }

  function FromTriplesSpec(ts: seq<Triple>, parseLnk: string -> Lnk): Result<Eds, DecodeError> {
    var acc :- Run(ts, parseLnk);
    Success(Eds(if acc.nids == [] then None else Some(acc.nids[0]), BuildNodes(acc)))
  }

  lemma {:induction false} RunFailsFrom(ts: seq<Triple>, parseLnk: string -> Lnk, k: nat, err: DecodeError)
    requires k <= |ts| && Run(ts[..k], parseLnk) == Failure(err)
    ensures Run(ts, parseLnk) == Failure(err)
  {
    if k < |ts| {
      var n := |ts| - 1;
      assert ts[..n][..k] == ts[..k];
      RunFailsFrom(ts[..n], parseLnk, k, err);
    } else {
      assert ts[..k] == ts;
    }
  }

  /** `from_triples(triples)`. `parseLnk` is the `Lnk` constructor on
      alignment strings. */
  method FromTriples(ts: seq<Triple>, parseLnk: string -> Lnk) returns (r: Result<Eds, DecodeError>)
    ensures r == FromTriplesSpec(ts, parseLnk)
  {
    var nids: seq<string> := [];
    var nd: map<string, Rec> := map[];
    for i := 0 to |ts|
      invariant Run(ts[..i], parseLnk) == Success(Acc(nids, nd))
    {
      assert ts[..i + 1][..i] == ts[..i];
      var (src, rel, tgt) := ts[i];
      if src !in nd {
        nids := nids + [src];
        nd := nd[src := NewRec];
      }
      var rec := nd[src];
      if rel == "predicate" {
        rec := rec.(pred := Some(tgt));
      } else if rel == "lnk" {
        rec := rec.(lnk := Some(parseLnk(StripQuotes(tgt))));
      } else if rel == "carg" {
        if tgt == "" {
          RunFailsFrom(ts, parseLnk, i + 1, EmptyCarg(src));
          return Failure(EmptyCarg(src));
        }
        rec := rec.(carg := Some(Unquoted(tgt)));
      } else if rel == "type" {
        rec := rec.(ntype := Some(tgt));
      } else if IsLowerRel(rel) {
        rec := rec.(props := Set(rec.props, Upper(rel), tgt));
      } else {
        rec := rec.(edges := Set(rec.edges, rel, tgt));
      }
      nd := nd[src := rec];
    }
    assert ts[..|ts|] == ts;
    var nodes := BuildNodes(Acc(nids, nd));
    var top := if nids == [] then None else Some(nids[0]);
    r := Success(Eds(top, nodes));
  }

  // ---------------------------------------------------------------------
  // Properties of from_triples

  function Srcs(ts: seq<Triple>): (r: seq<string>)
    ensures |r| == |ts|
    ensures forall i :: 0 <= i < |ts| ==> r[i] == ts[i].0
  {
    seq(|ts|, i requires 0 <= i < |ts| => ts[i].0)
  }

  /** Decoding fails exactly when some `carg` triple has an empty target. */
  lemma {:induction false} RunFails(ts: seq<Triple>, parseLnk: string -> Lnk)
    ensures Run(ts, parseLnk).Failure? <==> exists i :: 0 <= i < |ts| && ts[i].1 == "carg" && ts[i].2 == ""
  {
    if ts != [] {
      var n := |ts| - 1;
      RunFails(ts[..n], parseLnk);
      var r := Run(ts[..n], parseLnk);
      if r.Success? {
        StepFails(r.value, ts[n], parseLnk);
      }
      if exists i :: 0 <= i < n && ts[i].1 == "carg" && ts[i].2 == "" {
        var i :| 0 <= i < n && ts[i].1 == "carg" && ts[i].2 == "";
        assert ts[..n][i] == ts[i];
      }
      if exists i :: 0 <= i < n && ts[..n][i].1 == "carg" && ts[..n][i].2 == "" {
        var i :| 0 <= i < n && ts[..n][i].1 == "carg" && ts[..n][i].2 == "";
        assert ts[i] == ts[..n][i];
      }
    }
  }

  lemma StepFails(acc: Acc, t: Triple, parseLnk: string -> Lnk)
    ensures Step(acc, t, parseLnk).Failure? <==> t.1 == "carg" && t.2 == ""
  {
  }

  /** The ids are collected in first-seen order. */
  lemma {:induction false} RunIds(ts: seq<Triple>, parseLnk: string -> Lnk)
    requires Run(ts, parseLnk).Success?
    ensures Run(ts, parseLnk).value.nids == ItsdbMatch.FirstSeen([], Srcs(ts))
  {
    if ts != [] {
      var n := |ts| - 1;
      RunIds(ts[..n], parseLnk);
      assert Srcs(ts)[..n] == Srcs(ts[..n]);
    }
  }

  lemma {:induction false} FirstSeenHead(s: seq<string>)
    requires s != []
    ensures ItsdbMatch.FirstSeen([], s) != [] && ItsdbMatch.FirstSeen([], s)[0] == s[0]
  {
    var n := |s| - 1;
    if n > 0 {
      assert s[..n][0] == s[0];
      FirstSeenHead(s[..n]);
    }
  }

  /** The nodes are the distinct sources of the triples, in order of first
      appearance; the top is the first source, None without triples. */
  lemma FromTriplesIds(ts: seq<Triple>, parseLnk: string -> Lnk)
    requires FromTriplesSpec(ts, parseLnk).Success?
    ensures var e := FromTriplesSpec(ts, parseLnk).value;
      var ids := ItsdbMatch.FirstSeen([], Srcs(ts));
      && |e.nodes| == |ids|
      && (forall i :: 0 <= i < |ids| ==> e.nodes[i].id == ids[i])
      && ItsdbMatch.Distinct(ids)
      && (forall x :: x in ids <==> x in Srcs(ts))
      && e.top == if ts == [] then None else Some(ts[0].0)
  {
    RunIds(ts, parseLnk);
    ItsdbMatch.FirstSeenDistinct([], Srcs(ts));
    forall x ensures x in ItsdbMatch.FirstSeen([], Srcs(ts)) <==> x in Srcs(ts) {
      ItsdbMatch.FirstSeenHas([], Srcs(ts), x);
    }
    if ts != [] {
      FirstSeenHead(Srcs(ts));
    } else {
      assert Srcs(ts) == [];
    }
  }

  /** The (relation, target) pairs of the triples from `x`, in order. */
  function RelPairs(ts: seq<Triple>, x: string): seq<(string, string)> {
    if ts == [] then []
    else
      var n := |ts| - 1;
      RelPairs(ts[..n], x) + (if ts[n].0 == x then [(ts[n].1, ts[n].2)] else [])
  }

  /** The pairs that are edges. */
  function EdgePairs(ps: seq<(string, string)>): (r: seq<(string, string)>)
    ensures forall p :: p in r <==> p in ps && IsEdgeRel(p.0)
  {
    if ps == [] then []
    else
      var n := |ps| - 1;
      assert ps == ps[..n] + [ps[n]];
      EdgePairs(ps[..n]) + (if IsEdgeRel(ps[n].0) then [ps[n]] else [])
  }

  /** The pairs that are properties, named in upper case. */
  function PropertyPairs(ps: seq<(string, string)>): (r: seq<(string, string)>)
    ensures forall p :: p in ps && IsPropertyRel(p.0) ==> (Upper(p.0), p.1) in r
  {
    if ps == [] then []
    else
      var n := |ps| - 1;
      assert ps == ps[..n] + [ps[n]];
      PropertyPairs(ps[..n]) + (if IsPropertyRel(ps[n].0) then [(Upper(ps[n].0), ps[n].1)] else [])
  }

  function LnkOf(o: Option<string>, parseLnk: string -> Lnk): Option<Lnk> {
    if o.None? then None else Some(parseLnk(StripQuotes(o.value)))
  }

  function CargOf(o: Option<string>): Option<string> {
    if o.None? then None else Some(Unquoted(o.value))
  }

  /** A record holds, for each field, what the last triple for it said;
      edges and properties are filled from their triples in order. */
  predicate RecMatches(r: Rec, ps: seq<(string, string)>, parseLnk: string -> Lnk) {
    && r.pred == LastWith(ps, "predicate")
    && r.ntype == LastWith(ps, "type")
    && r.lnk == LnkOf(LastWith(ps, "lnk"), parseLnk)
    && r.carg == CargOf(LastWith(ps, "carg"))
    && r.edges == SetAll([], EdgePairs(ps))
    && r.props == SetAll([], PropertyPairs(ps))
  }

  lemma SetAllSnoc(ps: seq<(string, string)>, q: (string, string))
    ensures SetAll([], ps + [q]) == Set(SetAll([], ps), q.0, q.1)
  {
    assert (ps + [q])[..|ps|] == ps;
  }

  lemma PairsSnoc(ps: seq<(string, string)>, rel: string, tgt: string)
    ensures IsEdgeRel(rel) ==> EdgePairs(ps + [(rel, tgt)]) == EdgePairs(ps) + [(rel, tgt)]
    ensures !IsEdgeRel(rel) ==> EdgePairs(ps + [(rel, tgt)]) == EdgePairs(ps)
    ensures IsPropertyRel(rel) ==> PropertyPairs(ps + [(rel, tgt)]) == PropertyPairs(ps) + [(Upper(rel), tgt)]
    ensures !IsPropertyRel(rel) ==> PropertyPairs(ps + [(rel, tgt)]) == PropertyPairs(ps)
  {
    assert (ps + [(rel, tgt)])[..|ps|] == ps;
    assert EdgePairs(ps) + [] == EdgePairs(ps);
    assert PropertyPairs(ps) + [] == PropertyPairs(ps);
  }

  lemma UpdateMatches(r: Rec, ps: seq<(string, string)>, src: string, rel: string, tgt: string, parseLnk: string -> Lnk)
    requires RecMatches(r, ps, parseLnk) && Update(r, src, rel, tgt, parseLnk).Success?
    ensures RecMatches(Update(r, src, rel, tgt, parseLnk).value, ps + [(rel, tgt)], parseLnk)
  {
    var q := (rel, tgt);
    LastWithSnoc(ps, q, "predicate");
    LastWithSnoc(ps, q, "type");
    LastWithSnoc(ps, q, "lnk");
    LastWithSnoc(ps, q, "carg");
    PairsSnoc(ps, rel, tgt);
    var r' := Update(r, src, rel, tgt, parseLnk).value;
    if IsEdgeRel(rel) {
      SetAllSnoc(EdgePairs(ps), q);
      assert r' == r.(edges := Set(r.edges, rel, tgt));
    } else if IsPropertyRel(rel) {
      SetAllSnoc(PropertyPairs(ps), (Upper(rel), tgt));
      assert r' == r.(props := Set(r.props, Upper(rel), tgt));
    } else {
      assert r'.edges == r.edges && r'.props == r.props;
    }
  }

  /** After the triples `ts`, the record of each source holds what its
      triples said; an id without triples has no record. */
  lemma {:induction false} RunMatches(ts: seq<Triple>, parseLnk: string -> Lnk, x: string)
    requires Run(ts, parseLnk).Success?
    ensures x in Run(ts, parseLnk).value.nd ==>
      RelPairs(ts, x) != [] && RecMatches(Run(ts, parseLnk).value.nd[x], RelPairs(ts, x), parseLnk)
    ensures x !in Run(ts, parseLnk).value.nd ==> RelPairs(ts, x) == []
  {
    if ts != [] {
      var n := |ts| - 1;
      var t := ts[n];
      RunMatches(ts[..n], parseLnk, x);
      var acc := Run(ts[..n], parseLnk).value;
      var res := Run(ts, parseLnk).value;
      var prev := RelPairs(ts[..n], x);
      var nd := if t.0 in acc.nd then acc.nd else acc.nd[t.0 := NewRec];
      var rec := Update(nd[t.0], t.0, t.1, t.2, parseLnk);
      assert rec.Success? && res.nd == nd[t.0 := rec.value];
      if t.0 == x {
        assert RelPairs(ts, x) == prev + [(t.1, t.2)];
        if x !in acc.nd {
          assert prev == [];
          assert RecMatches(NewRec, [], parseLnk);
        }
        UpdateMatches(nd[x], prev, x, t.1, t.2, parseLnk);
        assert res.nd[x] == rec.value;
      } else {
        assert RelPairs(ts, x) == prev + [];
        assert prev + [] == prev;
        assert x in res.nd <==> x in acc.nd;
        if x in acc.nd {
          assert res.nd[x] == acc.nd[x];
          assert RecMatches(res.nd[x], RelPairs(ts, x), parseLnk);
        }
      }
    }
  }

  /** Each decoded node holds what the triples from its id said: the last
      `predicate`, `type`, `lnk` (quotes stripped) and `carg` (unquoted)
      targets; for each edge role, the last target of a triple whose
      relation is neither one of those four nor lower-case; for each
      property, the last target of a lower-case relation that upper-cases
      to its name. */
  lemma FromTriplesNode(ts: seq<Triple>, parseLnk: string -> Lnk, i: nat)
    requires FromTriplesSpec(ts, parseLnk).Success?
    requires i < |FromTriplesSpec(ts, parseLnk).value.nodes|
    ensures var n := FromTriplesSpec(ts, parseLnk).value.nodes[i];
      var ps := RelPairs(ts, n.id);
      && ps != []
      && n.pred == LastWith(ps, "predicate")
      && n.ntype == LastWith(ps, "type")
      && n.lnk == LnkOf(LastWith(ps, "lnk"), parseLnk)
      && n.carg == CargOf(LastWith(ps, "carg"))
      && (forall role :: Get(n.edges, role) == LastWith(EdgePairs(ps), role))
      && (forall p :: Get(n.properties, p) == LastWith(PropertyPairs(ps), p))
  {
    var acc := Run(ts, parseLnk).value;
    var x := acc.nids[i];
    var n := FromTriplesSpec(ts, parseLnk).value.nodes[i];
    assert n.id == x;
    RunMatches(ts, parseLnk, x);
    var ps := RelPairs(ts, x);
    forall role ensures Get(n.edges, role) == LastWith(EdgePairs(ps), role) {
      GetSetAll([], EdgePairs(ps), role);
    }
    forall p ensures Get(n.properties, p) == LastWith(PropertyPairs(ps), p) {
      GetSetAll([], PropertyPairs(ps), p);
    }
  }
}
