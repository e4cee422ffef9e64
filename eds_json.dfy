/** The JSON-ready dict form of an EDS: `{'top': ..., 'nodes': {id: node
    dict}}`, where each node dict holds `label` and `edges` and, when there
    is something to say, `lnk`, `type`, `properties` and `carg`. */
module EdsJson {
  import opened Wrappers
  import opened Dicts
  import opened Sorting
  import opened Eds

  /** `{'from': cfrom, 'to': cto}` */
  datatype JsonSpan = JsonSpan(cfrom: int, cto: int)

  /** A node dict. `lbl` holds the value of the always-present `label`
      key (None for a null label); for the other keys None means the key is
      absent. */
  datatype JsonNode = JsonNode(
    lbl: Option<string>,
    edges: Option<Dict<string, string>>,
    lnk: Option<JsonSpan>,
    ntype: Option<string>,
    properties: Option<Dict<string, string>>,
    carg: Option<string>)

  /** The top-level dict; `top` is None when the key is absent or null, and
      an absent `nodes` key reads as an empty dict. */
  datatype JsonEds = JsonEds(top: Option<string>, nodes: Dict<string, JsonNode>)

  // ---------------------------------------------------------------------
  // to_dict

  /** The dict of one node. */
  function NodeToJson(n: Node, properties: bool): (j: JsonNode)
    ensures j.lbl == n.pred && j.edges == Some(n.edges)
    ensures j.lnk.Some? <==> n.lnk.Some?
    ensures j.lnk.Some? ==> j.lnk.value == JsonSpan(CFrom(n), CTo(n))
    ensures j.ntype == n.ntype && j.carg == n.carg
    ensures j.properties.Some? <==> properties && n.properties != []
    ensures j.properties.Some? ==> j.properties.value == n.properties
  {
    JsonNode(
      n.pred,
      Some(n.edges),
      if n.lnk.Some? then Some(JsonSpan(CFrom(n), CTo(n))) else None,
      n.ntype,
      if properties && n.properties != [] then Some(n.properties) else None,
      n.carg)
  }

  /** `nodes[node.id] = nd` for each node of `ns` in turn. */
  function NodesToJson(ns: seq<Node>, properties: bool): Dict<string, JsonNode> {
    if ns == [] then []
    else
      var n := |ns| - 1;
      Set(NodesToJson(ns[..n], properties), ns[n].id, NodeToJson(ns[n], properties))
  }

  function ToDictSpec(e: Eds, properties: bool): JsonEds {
    JsonEds(e.top, NodesToJson(e.nodes, properties))
  }

  /** `to_dict(e, properties)` */
  method ToDict(e: Eds, properties: bool) returns (d: JsonEds)
    ensures d == ToDictSpec(e, properties)
  {
    var nodes: Dict<string, JsonNode> := [];
    for i := 0 to |e.nodes|
      invariant nodes == NodesToJson(e.nodes[..i], properties)
    {
      assert e.nodes[..i + 1][..i] == e.nodes[..i];
      var node := e.nodes[i];
      var lnk := None;
      if node.lnk.Some? {
        lnk := Some(JsonSpan(CFrom(node), CTo(node)));
      }
      var props := None;
      if properties && node.properties != [] {
        props := Some(node.properties);
      }
      var nd := JsonNode(node.pred, Some(node.edges), lnk, node.ntype, props, node.carg);
      nodes := Set(nodes, node.id, nd);
    }
    assert e.nodes[..|e.nodes|] == e.nodes;
    d := JsonEds(e.top, nodes);
  }

  /** Every node has an entry under its id, holding the dict of the last
      node with that id; no other key is present. */
  lemma {:induction false} NodesToJsonGet(ns: seq<Node>, properties: bool, id: string)
    ensures Get(NodesToJson(ns, properties), id) ==
      match NodeById(ns, id)
      case None => None
      case Some(n) => Some(NodeToJson(n, properties))
  {
    if ns != [] {
      var n := |ns| - 1;
      NodesToJsonGet(ns[..n], properties, id);
      GetSet(NodesToJson(ns[..n], properties), ns[n].id, NodeToJson(ns[n], properties), id);
    }
  }

  /** With distinct ids the node dicts come out in node order. */
  lemma {:induction false} NodesToJsonDistinct(ns: seq<Node>, properties: bool)
    requires DistinctIds(ns)
    ensures NodesToJson(ns, properties) ==
      seq(|ns|, i requires 0 <= i < |ns| => (ns[i].id, NodeToJson(ns[i], properties)))
  {
    if ns != [] {
      var n := |ns| - 1;
      var prev := NodesToJson(ns[..n], properties);
      assert DistinctIds(ns[..n]);
      NodesToJsonDistinct(ns[..n], properties);
      forall i | 0 <= i < |prev| ensures prev[i].0 != ns[n].id {
        assert prev[i].0 == ns[i].id;
      }
      SetNew(prev, ns[n].id, NodeToJson(ns[n], properties));
    }
  }

  /** `to_dict` copies `top`; without the properties flag no node dict has
      a `properties` key. */
  lemma ToDictShape(e: Eds, properties: bool, id: string)
    ensures ToDictSpec(e, properties).top == e.top
    ensures HasKey(ToDictSpec(e, properties).nodes, id) <==>
      exists i :: 0 <= i < |e.nodes| && e.nodes[i].id == id
    ensures !properties ==> forall i :: 0 <= i < |ToDictSpec(e, properties).nodes| ==>
      ToDictSpec(e, properties).nodes[i].1.properties.None?
  {
    NodesToJsonGet(e.nodes, properties, id);
    if !properties {
      NoProperties(e.nodes);
    }
  }

  lemma {:induction false} NoProperties(ns: seq<Node>)
    ensures forall i :: 0 <= i < |NodesToJson(ns, false)| ==> NodesToJson(ns, false)[i].1.properties.None?
  {
    if ns != [] {
      var n := |ns| - 1;
      NoProperties(ns[..n]);
      SetEntries(NodesToJson(ns[..n], false), ns[n].id, NodeToJson(ns[n], false));
      var r := NodesToJson(ns, false);
      forall i | 0 <= i < |r| ensures r[i].1.properties.None? {
        assert r[i] in r;
      }
    }
  }

  // ---------------------------------------------------------------------
  // from_dict

  /** The node a node dict decodes to: missing edges give `{}`, a span
      becomes a character-span alignment. */
  function NodeFromJson(id: string, j: JsonNode): (n: Node)
    ensures n.id == id && n.pred == j.lbl && n.ntype == j.ntype && n.carg == j.carg
    ensures n.edges == j.edges.GetOr([]) && n.properties == j.properties.GetOr([])
    ensures n.lnk.Some? <==> j.lnk.Some?
    ensures j.lnk.Some? ==> CFrom(n) == j.lnk.value.cfrom && CTo(n) == j.lnk.value.cto
  {
    var lnk := if j.lnk.Some? then Some(CharSpan(j.lnk.value.cfrom, j.lnk.value.cto)) else None;
    MakeNode(id, j.lbl, j.ntype, Some(j.edges.GetOr([])), j.properties, j.carg, lnk)
  }

  /** The sort key `(cfrom, -cto)`: earlier start first, and of two nodes
      starting together the wider one first. */
  predicate SpanBefore(a: Node, b: Node) {
    CFrom(a) < CFrom(b) || (CFrom(a) == CFrom(b) && -CTo(a) < -CTo(b))
  }

  lemma SpanBeforeOrder()
    ensures StrictWeakOrder(SpanBefore)
  {
  }

  function DecodeNodes(nodes: Dict<string, JsonNode>): (r: seq<Node>)
    ensures |r| == |nodes|
    ensures forall i :: 0 <= i < |nodes| ==> r[i] == NodeFromJson(nodes[i].0, nodes[i].1)
  {
    seq(|nodes|, i requires 0 <= i < |nodes| => NodeFromJson(nodes[i].0, nodes[i].1))
  }

  function FromDictSpec(d: JsonEds): Eds {
    Eds(d.top, SortBy(DecodeNodes(d.nodes), SpanBefore))
  }

  /** `from_dict(d)`: decode the node dicts in order, then sort them by
      span. */
  method FromDict(d: JsonEds) returns (e: Eds)
    ensures e == FromDictSpec(d)
  {
    var nodes: seq<Node> := [];
    for i := 0 to |d.nodes|
      invariant nodes == DecodeNodes(d.nodes)[..i]
    {
      var (nodeid, node) := d.nodes[i];
      var lnk := None;
      if node.lnk.Some? {
        lnk := Some(CharSpan(node.lnk.value.cfrom, node.lnk.value.cto));
      }
      var edges := node.edges.GetOr([]);
      nodes := nodes + [MakeNode(nodeid, node.lbl, node.ntype, Some(edges), node.properties, node.carg, lnk)];
    }
    assert DecodeNodes(d.nodes)[..|d.nodes|] == DecodeNodes(d.nodes);
    nodes := SortBy(nodes, SpanBefore);
    e := Eds(d.top, nodes);
  }

  /** `from_dict` keeps `top` and gives one node per node dict, sorted by
      span. */
  lemma FromDictSorted(d: JsonEds)
    ensures FromDictSpec(d).top == d.top
    ensures multiset(FromDictSpec(d).nodes) == multiset(DecodeNodes(d.nodes))
    ensures Sorted(FromDictSpec(d).nodes, SpanBefore)
  {
    SpanBeforeOrder();
    SortBySorted(DecodeNodes(d.nodes), SpanBefore);
  }

  // ---------------------------------------------------------------------
  // Round trip

  /** The alignment survives the dict form: none, or a character span. */
  predicate SpanOnly(n: Node) {
    n.lnk.None? || n.lnk.value.CharSpan?
  }

  lemma NodeRoundTrip(n: Node)
    requires SpanOnly(n)
    ensures NodeFromJson(n.id, NodeToJson(n, true)) == n
  {
  }

  /** An EDS whose node ids are distinct, whose alignments are character
      spans (or absent) and whose nodes are already in span order comes
      back unchanged from its dict form. */
  lemma RoundTrip(e: Eds)
    requires DistinctIds(e.nodes)
    requires forall i :: 0 <= i < |e.nodes| ==> SpanOnly(e.nodes[i])
    requires Sorted(e.nodes, SpanBefore)
    ensures FromDictSpec(ToDictSpec(e, true)) == e
  {
    var d := ToDictSpec(e, true);
    NodesToJsonDistinct(e.nodes, true);
    var decoded := DecodeNodes(d.nodes);
    forall i | 0 <= i < |e.nodes| ensures decoded[i] == e.nodes[i] {
      NodeRoundTrip(e.nodes[i]);
    }
    assert decoded == e.nodes;
    SortBySortedUnchanged(e.nodes, SpanBefore);
  }
}
