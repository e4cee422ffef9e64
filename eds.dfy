/** Elementary Dependency Structures: nodes with a predicate, an optional
    variable type, labelled edges to other nodes, properties and a
    constant argument; the structure's argument table; and node lookups
    by id. */
module Eds {
  import opened Wrappers
  import opened Dicts

  /** The role that links a quantifier node to the node it binds. */
  const BoundVariableRole := "BV"

  /** A surface alignment. Character spans carry the `cfrom`/`cto`
      positions; other alignments (chart spans, token lists, edge ids)
      are kept as their text. */
  datatype Lnk = CharSpan(start: int, end: int) | OtherLnk(text: string)

  /** An EDS node. `pred` is None for a node built without a predicate. */
  datatype Node = Node(
    id: string,
    pred: Option<string>,
    ntype: Option<string>,
    edges: Dict<string, string>,
    properties: Dict<string, string>,
    carg: Option<string>,
    lnk: Option<Lnk>)

  datatype Eds = Eds(top: Option<string>, nodes: seq<Node>)

  datatype EdsError = KeyError(id: string)

  /** The start of a node's character span, -1 when it has none. */
  function CFrom(n: Node): int {
    if n.lnk.Some? && n.lnk.value.CharSpan? then n.lnk.value.start else -1
  }

  /** The end of a node's character span, -1 when it has none. */
  function CTo(n: Node): int {
    if n.lnk.Some? && n.lnk.value.CharSpan? then n.lnk.value.end else -1
  }

  // ---------------------------------------------------------------------
  // Nodes

  /** `Node(id, predicate, type, edges, properties, carg, lnk)`: missing
      and empty edges or properties both become an empty dict. */
  function MakeNode(id: string, pred: Option<string>, ntype: Option<string>,
                    edges: Option<Dict<string, string>>,
                    properties: Option<Dict<string, string>>,
                    carg: Option<string>, lnk: Option<Lnk>): (n: Node)
    ensures n.edges == edges.GetOr([]) && n.properties == properties.GetOr([])
    ensures n.id == id && n.pred == pred && n.ntype == ntype
    ensures n.carg == carg && n.lnk == lnk
  {
    var es := if edges.None? || edges.value == [] then [] else edges.value;
    var ps := if properties.None? || properties.value == [] then [] else properties.value;
    Node(id, pred, ntype, es, ps, carg, lnk)
  }

  /** `a == b` on nodes: predicate, type, edges, properties and carg agree;
      the id and the alignment are not compared, and dicts compare by
      content. */
  predicate NodeEq(a: Node, b: Node) {
    a.pred == b.pred && a.ntype == b.ntype &&
    SameItems(a.edges, b.edges) && SameItems(a.properties, b.properties) &&
    a.carg == b.carg
  }

  /** Node equality is an equivalence. */
  lemma NodeEqEquivalence(a: Node, b: Node, c: Node)
    ensures NodeEq(a, a)
    ensures NodeEq(a, b) ==> NodeEq(b, a)
    ensures NodeEq(a, b) && NodeEq(b, c) ==> NodeEq(a, c)
  {
    if NodeEq(a, b) && NodeEq(b, c) {
      SameItemsTransitive(a.edges, b.edges, c.edges);
      SameItemsTransitive(a.properties, b.properties, c.properties);
    }
  }

  /** Two nodes that differ only in id, alignment and the order of their
      edges and properties are equal. */
  lemma NodeEqIgnoresIdLnkAndOrder(a: Node, b: Node)
    requires a.pred == b.pred && a.ntype == b.ntype && a.carg == b.carg
    requires DistinctKeys(a.edges) && DistinctKeys(b.edges) && multiset(a.edges) == multiset(b.edges)
    requires DistinctKeys(a.properties) && DistinctKeys(b.properties)
    requires multiset(a.properties) == multiset(b.properties)
    ensures NodeEq(a, b)
  {
    SameItemsReordered(a.edges, b.edges);
    SameItemsReordered(a.properties, b.properties);
  }

  // ---------------------------------------------------------------------
  // Lookup by id

  predicate DistinctIds(ns: seq<Node>) {
    forall i, j :: 0 <= i < j < |ns| ==> ns[i].id != ns[j].id
  }

  /** `e[id]`: the node with that id; of several, the last one. */
  function NodeById(ns: seq<Node>, id: string): (r: Option<Node>)
    ensures r.None? <==> forall i :: 0 <= i < |ns| ==> ns[i].id != id
    ensures r.Some? ==> r.value.id == id
  {
    if ns == [] then None
    else
      var n := |ns| - 1;
      if ns[n].id == id then Some(ns[n])
      else
        var r := NodeById(ns[..n], id);
        assert forall i :: 0 <= i < n ==> ns[..n][i] == ns[i];
        r
  }

  /** The node found is the one at the last position with that id. */
  lemma {:induction false} NodeByIdLast(ns: seq<Node>, i: nat)
    requires i < |ns| && forall j :: i < j < |ns| ==> ns[j].id != ns[i].id
    ensures NodeById(ns, ns[i].id) == Some(ns[i])
  {
    var n := |ns| - 1;
    if i < n {
      assert ns[..n][i] == ns[i];
      NodeByIdLast(ns[..n], i);
    }
  }

  /** `e.properties(id)`: the property dict of the node with that id. */
  function Properties(e: Eds, id: string): (r: Result<Dict<string, string>, EdsError>)
    ensures r.Failure? <==> forall i :: 0 <= i < |e.nodes| ==> e.nodes[i].id != id
    ensures r.Failure? ==> r.error == KeyError(id)
  {
    match NodeById(e.nodes, id)
    case None => Failure(KeyError(id))
    case Some(n) => Success(n.properties)
  }

  /** `e.is_quantifier(id)`: whether that node has a `BV` edge. */
  function IsQuantifier(e: Eds, id: string): (r: Result<bool, EdsError>)
    ensures r.Failure? <==> forall i :: 0 <= i < |e.nodes| ==> e.nodes[i].id != id
    ensures r.Failure? ==> r.error == KeyError(id)
  {
    match NodeById(e.nodes, id)
    case None => Failure(KeyError(id))
    case Some(n) => Success(HasKey(n.edges, BoundVariableRole))
  }

  /** With node ids distinct, `properties(id)` is exactly that node's
      property dict and `is_quantifier(id)` holds iff it has a `BV` edge. */
  lemma NodeQueries(e: Eds, i: nat)
    requires DistinctIds(e.nodes) && i < |e.nodes|
    ensures Properties(e, e.nodes[i].id) == Success(e.nodes[i].properties)
    ensures IsQuantifier(e, e.nodes[i].id).Success?
    ensures IsQuantifier(e, e.nodes[i].id).value <==>
      exists j :: 0 <= j < |e.nodes[i].edges| && e.nodes[i].edges[j].0 == BoundVariableRole
  {
    NodeByIdLast(e.nodes, i);
  }

  // ---------------------------------------------------------------------
  // Arguments

  /** Argument table: source node id to (role to target id). */
  type Arguments = Dict<string, Dict<string, string>>

  /** `ntypes.get(target)`: the type of the node with that id, None for an
      unknown id or an untyped node. */
  function NodeType(ns: seq<Node>, target: string): Option<string> {
    match NodeById(ns, target)
    case None => None
    case Some(n) => n.ntype
  }

  /** Whether an edge to `target` is kept: always without a type filter,
      otherwise when the target's type (None included) is in it. */
  predicate Keeps(ns: seq<Node>, types: Option<set<Option<string>>>, target: string) {
    types.None? || NodeType(ns, target) in types.value
  }

  /** The edges of `es` that are kept, in order. */
  function KeptEdges(ns: seq<Node>, types: Option<set<Option<string>>>, es: Dict<string, string>): (r: Dict<string, string>)
    ensures forall x :: x in r <==> x in es && Keeps(ns, types, x.1)
  {
    if es == [] then []
    else
      var m := |es| - 1;
      assert es == es[..m] + [es[m]];
      KeptEdges(ns, types, es[..m]) + (if Keeps(ns, types, es[m].1) then [es[m]] else [])
  }

  /** `args.setdefault(src, {})[role] = target` */
  function AddArgument(args: Arguments, src: string, role: string, target: string): Arguments {
    Set(args, src, Set(Get(args, src).GetOr([]), role, target))
  }

  /** The argument table after the kept edges `es` of node `src`. */
  function EdgeArguments(args: Arguments, ns: seq<Node>, types: Option<set<Option<string>>>,
                         src: string, es: Dict<string, string>): Arguments
  {
    if es == [] then args
    else
      var m := |es| - 1;
      var a := EdgeArguments(args, ns, types, src, es[..m]);
      if Keeps(ns, types, es[m].1) then AddArgument(a, src, es[m].0, es[m].1) else a
  }

  /** The argument table after the nodes `ms`. */
  function NodeArguments(ns: seq<Node>, types: Option<set<Option<string>>>, ms: seq<Node>): Arguments {
    if ms == [] then []
    else
      var n := |ms| - 1;
      EdgeArguments(NodeArguments(ns, types, ms[..n]), ns, types, ms[n].id, ms[n].edges)
  }

  /** `e.arguments(types)` */
  function ArgumentsSpec(e: Eds, types: Option<set<Option<string>>>): Arguments {
    NodeArguments(e.nodes, types, e.nodes)
  }

  /** `e.arguments(types)`, visiting every edge of every node in turn. */
  method ComputeArguments(e: Eds, types: Option<set<Option<string>>>) returns (args: Arguments)
    ensures args == ArgumentsSpec(e, types)
  {
    args := [];
    for i := 0 to |e.nodes|
      invariant args == NodeArguments(e.nodes, types, e.nodes[..i])
    {
      assert e.nodes[..i + 1][..i] == e.nodes[..i];
      args := AddNodeArguments(args, e.nodes, types, e.nodes[i]);
    }
    assert e.nodes[..|e.nodes|] == e.nodes;
  }

  /** The inner loop of `arguments`: the edges of one node. */
  method AddNodeArguments(args0: Arguments, ns: seq<Node>, types: Option<set<Option<string>>>, node: Node)
    returns (args: Arguments)
    ensures args == EdgeArguments(args0, ns, types, node.id, node.edges)
  {
    args := args0;
    for j := 0 to |node.edges|
      invariant args == EdgeArguments(args0, ns, types, node.id, node.edges[..j])
    {
      assert node.edges[..j + 1][..j] == node.edges[..j];
      var (role, target) := node.edges[j];
      if types.None? || NodeType(ns, target) in types.value {
        var inner := Get(args, node.id).GetOr([]);
        args := Set(args, node.id, Set(inner, role, target));
      }
    }
    assert node.edges[..|node.edges|] == node.edges;
  }

  /** The edges of one node fill that node's row of the table with its kept
      edges, one after the other, and leave the other rows alone. */
  lemma {:induction false} EdgeArgumentsGet(args: Arguments, ns: seq<Node>, types: Option<set<Option<string>>>,
                                            src: string, es: Dict<string, string>, k: string)
    ensures Get(EdgeArguments(args, ns, types, src, es), k) ==
      if k != src || KeptEdges(ns, types, es) == [] then Get(args, k)
      else Some(SetAll(Get(args, src).GetOr([]), KeptEdges(ns, types, es)))
  {
    if es != [] {
      var m := |es| - 1;
      var a := EdgeArguments(args, ns, types, src, es[..m]);
      var kept := KeptEdges(ns, types, es[..m]);
      var base := Get(args, src).GetOr([]);
      EdgeArgumentsGet(args, ns, types, src, es[..m], k);
      if Keeps(ns, types, es[m].1) {
        assert KeptEdges(ns, types, es) == kept + [es[m]];
        var row := Set(Get(a, src).GetOr([]), es[m].0, es[m].1);
        assert EdgeArguments(args, ns, types, src, es) == Set(a, src, row);
        GetSet(a, src, row, k);
        if k == src {
          assert Get(a, src).GetOr([]) == SetAll(base, kept);
          SetAllLast(base, kept, es[m]);
        }
      } else {
        assert KeptEdges(ns, types, es) == kept;
      }
    }
  }

  /** One more pair sets its key last. */
  lemma SetAllLast(d: Dict<string, string>, ps: Dict<string, string>, p: (string, string))
    ensures SetAll(d, ps + [p]) == Set(SetAll(d, ps), p.0, p.1)
  {
    assert (ps + [p])[..|ps|] == ps;
  }

  /** A node id that no node has has no row. */
  lemma {:induction false} NodeArgumentsAbsent(ns: seq<Node>, types: Option<set<Option<string>>>, ms: seq<Node>, k: string)
    requires forall i :: 0 <= i < |ms| ==> ms[i].id != k
    ensures Get(NodeArguments(ns, types, ms), k) == None
  {
    if ms != [] {
      var n := |ms| - 1;
      assert forall i :: 0 <= i < n ==> ms[..n][i] == ms[i];
      NodeArgumentsAbsent(ns, types, ms[..n], k);
      EdgeArgumentsGet(NodeArguments(ns, types, ms[..n]), ns, types, ms[n].id, ms[n].edges, k);
    }
  }

  /** With distinct node ids, a node's row holds exactly its kept edges,
      and is missing when none is kept. */
  lemma {:induction false} NodeArgumentsAt(ns: seq<Node>, types: Option<set<Option<string>>>, ms: seq<Node>, i: nat)
    requires DistinctIds(ms) && i < |ms|
    ensures Get(NodeArguments(ns, types, ms), ms[i].id) ==
      if KeptEdges(ns, types, ms[i].edges) == [] then None
      else Some(SetAll([], KeptEdges(ns, types, ms[i].edges)))
  {
    var n := |ms| - 1;
    var prev := NodeArguments(ns, types, ms[..n]);
    EdgeArgumentsGet(prev, ns, types, ms[n].id, ms[n].edges, ms[i].id);
    if i == n {
      assert forall j :: 0 <= j < n ==> ms[..n][j] == ms[j];
      NodeArgumentsAbsent(ns, types, ms[..n], ms[n].id);
    } else {
      assert ms[..n][i] == ms[i];
      NodeArgumentsAt(ns, types, ms[..n], i);
    }
  }

  lemma {:induction false} KeptEdgesDistinct(ns: seq<Node>, types: Option<set<Option<string>>>, es: Dict<string, string>)
    requires DistinctKeys(es)
    ensures DistinctKeys(KeptEdges(ns, types, es))
  {
    if es != [] {
      var m := |es| - 1;
      assert DistinctKeys(es[..m]);
      KeptEdgesDistinct(ns, types, es[..m]);
      var kept := KeptEdges(ns, types, es[..m]);
      forall x | x in kept ensures x.0 != es[m].0 {
        var k :| 0 <= k < m && es[..m][k] == x;
        assert es[k] == x;
      }
    }
  }

  /** Without a type filter every edge is kept. */
  lemma {:induction false} KeptEdgesAll(ns: seq<Node>, es: Dict<string, string>)
    ensures KeptEdges(ns, None, es) == es
  {
    if es != [] {
      var m := |es| - 1;
      KeptEdgesAll(ns, es[..m]);
      assert es[..m] + [es[m]] == es;
    }
  }

  /** With distinct node ids and edge roles, each node's row of
      `arguments(types)` is exactly its edges whose target passes the type
      filter (all of them without one), in edge order; a node with no such
      edge, and an id no node has, has no row. */
  lemma ArgumentsMeaning(e: Eds, types: Option<set<Option<string>>>, i: nat)
    requires DistinctIds(e.nodes) && i < |e.nodes| && DistinctKeys(e.nodes[i].edges)
    ensures Get(ArgumentsSpec(e, types), e.nodes[i].id) ==
      if KeptEdges(e.nodes, types, e.nodes[i].edges) == [] then None
      else Some(KeptEdges(e.nodes, types, e.nodes[i].edges))
    ensures types.None? ==> KeptEdges(e.nodes, types, e.nodes[i].edges) == e.nodes[i].edges
  {
    NodeArgumentsAt(e.nodes, types, e.nodes, i);
    KeptEdgesDistinct(e.nodes, types, e.nodes[i].edges);
    SetAllDistinct(KeptEdges(e.nodes, types, e.nodes[i].edges));
    if types.None? {
      KeptEdgesAll(e.nodes, e.nodes[i].edges);
    }
  }

  lemma ArgumentsAbsent(e: Eds, types: Option<set<Option<string>>>, id: string)
    requires forall i :: 0 <= i < |e.nodes| ==> e.nodes[i].id != id
    ensures Get(ArgumentsSpec(e, types), id) == None
  {
    NodeArgumentsAbsent(e.nodes, types, e.nodes, id);
  }
}
