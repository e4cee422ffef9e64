/** Conversion of an MRS to a DMRS: one node per elementary predication
    (EP), numbered consecutively, the top and index resolved to nodes, and
    links derived from the EPs' arguments and from labels shared by several
    EPs. The MRS accessors (`arguments()`, `properties()`, the variable
    sort, `scope.representatives`) are inputs. */
module DmrsConversion {
  import opened Wrappers
  import opened Dicts

  /** An elementary predication: its identifier, label, intrinsic
      variable, predicate, constant argument, and whether it is a
      quantifier. */
  datatype EP = EP(id: string, lbl: string, iv: string, pred: string, carg: Option<string>, isQuantifier: bool)

  /** A handle constraint `hi qeq lo`. */
  datatype HCons = HCons(hi: string, lo: string)

  datatype Mrs = Mrs(top: Option<string>, index: Option<string>, rels: seq<EP>, hcons: seq<HCons>)

  /** `m.arguments()`: role/target pairs per EP identifier. */
  type Arguments = Dict<string, Dict<string, string>>

  /** `scope.representatives(m)`: the representative EP identifiers of
      each label, best first. */
  type Reps = Dict<string, seq<string>>

  /** The post-slash part of a link label. */
  datatype Post = EqPost | NeqPost | HeqPost | HPost

  /** A link's role: an argument role, or the bare role of links between
      EPs that share a label. */
  datatype LinkRole = ArgRole(role: string) | BareEqRole

  datatype Link = Link(start: int, end: int, role: LinkRole, post: Post)

  /** A DMRS node; `properties` is None for quantifiers. */
  datatype Node = Node(nodeid: int, pred: string, sort: string, properties: Option<Dict<string, string>>,
                       carg: Option<string>)

  /** The DMRS top: a node id, or the MRS top left as it was. */
  datatype TopValue = TopNode(nodeid: int) | TopAsIs(top: Option<string>)

  datatype Dmrs = Dmrs(top: TopValue, index: Option<int>, nodes: seq<Node>, links: seq<Link>)

  /** Why a conversion fails: a dictionary lookup of a missing key, or a
      label without representatives. */
  datatype ConvError = MissingKey(key: string) | NoRepresentative(lbl: string)

  // ---------------------------------------------------------------------
  // The id maps

  /** `(ep.id, i)` for `i, ep in enumerate(m.rels, first)`. */
  function IdPairs(rels: seq<EP>, first: int): (r: seq<(string, int)>)
    ensures |r| == |rels| && forall i :: 0 <= i < |rels| ==> r[i] == (rels[i].id, first + i)
  {
    seq(|rels|, i requires 0 <= i < |rels| => (rels[i].id, first + i))
  }

  /** `id_to_nid` */
  function IdMap(rels: seq<EP>, first: int): Dict<string, int> {
    SetAll([], IdPairs(rels, first))
  }

  /** Every EP identifier is in `id_to_nid`. */
  lemma IdMapHas(rels: seq<EP>, first: int, i: nat)
    requires i < |rels|
    ensures Get(IdMap(rels, first), rels[i].id).Some?
  {
    GetSetAll([], IdPairs(rels, first), rels[i].id);
    assert IdPairs(rels, first)[i].0 == rels[i].id;
  }

  /** EP identifiers are pairwise distinct. */
  predicate DistinctIds(rels: seq<EP>) {
    forall i, j :: 0 <= i < j < |rels| ==> rels[i].id != rels[j].id
  }

  /** With distinct identifiers, the `i`-th EP becomes node `first + i`. */
  lemma {:induction false} IdMapConsecutive(rels: seq<EP>, first: int, i: nat)
    requires DistinctIds(rels) && i < |rels|
    ensures Get(IdMap(rels, first), rels[i].id) == Some(first + i)
  {
    GetSetAll([], IdPairs(rels, first), rels[i].id);
    LastWithAt(IdPairs(rels, first), i);
  }

  /** The last pair with a key is the one at the only position holding it. */
  lemma {:induction false} LastWithAt<V>(ps: seq<(string, V)>, i: nat)
    requires i < |ps| && forall j :: i < j < |ps| ==> ps[j].0 != ps[i].0
    ensures LastWith(ps, ps[i].0) == Some(ps[i].1)
  {
    var n := |ps| - 1;
    if i < n {
      LastWithAt(ps[..n], i);
    }
  }

  /** The EPs that are not quantifiers, in order. */
  function NonQuantifiers(rels: seq<EP>): (r: seq<EP>)
    ensures forall e :: e in r <==> e in rels && !e.isQuantifier
  {
    if rels == [] then []
    else
      var n := |rels| - 1;
      NonQuantifiers(rels[..n]) + (if rels[n].isQuantifier then [] else [rels[n]])
  }

  /** `(ep.iv, id_to_nid[ep.id])` for every EP that is not a quantifier. */
  function IvPairs(rels: seq<EP>, first: int): (r: seq<(string, int)>)
    ensures forall p :: p in r ==> exists e :: e in rels && !e.isQuantifier && p.0 == e.iv
  {
    var qs := NonQuantifiers(rels);
    seq(|qs|, i requires 0 <= i < |qs| => (qs[i].iv, Get(IdMap(rels, first), qs[i].id).GetOr(first)))
  }

  /** `(ep.iv, id_to_nid[ep.id])` for each of `qs`. */
  function NqPairs(qs: seq<EP>, idmap: Dict<string, int>, first: int): (r: seq<(string, int)>)
    ensures |r| == |qs| && forall i :: 0 <= i < |qs| ==> r[i] == (qs[i].iv, Get(idmap, qs[i].id).GetOr(first))
  {
    seq(|qs|, i requires 0 <= i < |qs| => (qs[i].iv, Get(idmap, qs[i].id).GetOr(first)))
  }

  /** No later EP, other than a quantifier, has the intrinsic variable of
      the `k`-th EP. */
  predicate LastIvAt(rels: seq<EP>, k: nat)
    requires k < |rels|
  {
    forall j :: k < j < |rels| && !rels[j].isQuantifier ==> rels[j].iv != rels[k].iv
  }

  /** `iv_to_nid` is built in EP order, so an intrinsic variable takes the
      node of the last EP, not a quantifier, that has it. */
  lemma {:induction false} NqLast(rels: seq<EP>, k: nat, idmap: Dict<string, int>, first: int)
    requires k < |rels| && !rels[k].isQuantifier && LastIvAt(rels, k)
    ensures LastWith(NqPairs(NonQuantifiers(rels), idmap, first), rels[k].iv) == Some(Get(idmap, rels[k].id).GetOr(first))
  {
    var n := |rels| - 1;
    var v := rels[k].iv;
    var want := Some(Get(idmap, rels[k].id).GetOr(first));
    var pre := NonQuantifiers(rels[..n]);
    NonQuantifiersSnoc(rels);
    if rels[n].isQuantifier {
      assert NonQuantifiers(rels) == pre;
      LastIvAtInit(rels, k);
      NqLast(rels[..n], k, idmap, first);
    } else {
      var p := (rels[n].iv, Get(idmap, rels[n].id).GetOr(first));
      var ps := NqPairs(pre, idmap, first);
      assert NonQuantifiers(rels) == pre + [rels[n]];
      NqPairsSnoc(pre, rels[n], idmap, first);
      LastWithSnoc(ps, p, v);
      if k < n {
        LastIvAtInit(rels, k);
        NqLast(rels[..n], k, idmap, first);
        assert LastWith(ps, v) == want;
      } else {
        assert p.0 == v && Some(p.1) == want;
      }
    }
  }

  lemma LastIvAtInit(rels: seq<EP>, k: nat)
    requires k < |rels| - 1 && LastIvAt(rels, k)
    ensures rels[..|rels| - 1][k] == rels[k] && LastIvAt(rels[..|rels| - 1], k)
  {
  }

  lemma NonQuantifiersSnoc(rels: seq<EP>)
    requires rels != []
    ensures NonQuantifiers(rels) ==
      NonQuantifiers(rels[..|rels| - 1]) + if rels[|rels| - 1].isQuantifier then [] else [rels[|rels| - 1]]
  {
  }

  lemma NqPairsSnoc(qs: seq<EP>, e: EP, idmap: Dict<string, int>, first: int)
    ensures NqPairs(qs + [e], idmap, first) == NqPairs(qs, idmap, first) + [(e.iv, Get(idmap, e.id).GetOr(first))]
  {
  }

  /** With distinct EP identifiers, the intrinsic variable of the `k`-th EP
      (not a quantifier, and the last such EP with that variable) maps to
      node `first + k`. */
  lemma IvMapGet(rels: seq<EP>, first: int, k: nat)
    requires DistinctIds(rels) && k < |rels| && !rels[k].isQuantifier && LastIvAt(rels, k)
    ensures Get(IvMap(rels, first), rels[k].iv) == Some(first + k)
  {
    assert IvPairs(rels, first) == NqPairs(NonQuantifiers(rels), IdMap(rels, first), first);
    GetSetAll([], IvPairs(rels, first), rels[k].iv);
    NqLast(rels, k, IdMap(rels, first), first);
    IdMapConsecutive(rels, first, k);
  }

  /** `iv_to_nid` */
  function IvMap(rels: seq<EP>, first: int): Dict<string, int> {
    SetAll([], IvPairs(rels, first))
  }

  /** Only intrinsic variables of EPs that are not quantifiers are in
      `iv_to_nid`, and all of them are. */
  lemma IvMapKeys(rels: seq<EP>, first: int, v: string)
    ensures Get(IvMap(rels, first), v).Some? <==> exists e :: e in rels && !e.isQuantifier && e.iv == v
  {
    var ps := IvPairs(rels, first);
    var qs := NonQuantifiers(rels);
    GetSetAll([], ps, v);
    if exists e :: e in rels && !e.isQuantifier && e.iv == v {
      var e :| e in rels && !e.isQuantifier && e.iv == v;
      var i :| 0 <= i < |qs| && qs[i] == e;
      assert ps[i].0 == v;
    }
  }

  /** `hcmap`: the handle constraints by their `hi`. */
  function HcMap(hcons: seq<HCons>): Dict<string, HCons> {
    SetAll([], seq(|hcons|, i requires 0 <= i < |hcons| => (hcons[i].hi, hcons[i])))
  }

  // ---------------------------------------------------------------------
  // Top and index

  /** `id_to_nid[reps[lbl][0]]`: the node of a label's first representative. */
  function RepNode(lbl: string, reps: Reps, idmap: Dict<string, int>): Result<int, ConvError> {
    match Get(reps, lbl)
    case None => Failure(MissingKey(lbl))
    case Some(ids) =>
      if ids == [] then Failure(NoRepresentative(lbl))
      else match Get(idmap, ids[0])
        case None => Failure(MissingKey(ids[0]))
        case Some(n) => Success(n)
  }

  /** `_mrs_get_top(top, hcmap, reps, id_to_nid)` */
  function TopOf(top: Option<string>, hcmap: Dict<string, HCons>, reps: Reps, idmap: Dict<string, int>)
    : Result<TopValue, ConvError>
  {
    if top.Some? && Get(hcmap, top.value).Some? then
      var n :- RepNode(Get(hcmap, top.value).value.lo, reps, idmap);
      Success(TopNode(n))
    else if top.Some? && Get(reps, top.value).Some? then
      var n :- RepNode(top.value, reps, idmap);
      Success(TopNode(n))
    else Success(TopAsIs(top))
  }

  /** `iv_to_nid[m.index] if m.index else None` */
  function IndexOf(index: Option<string>, ivmap: Dict<string, int>): Result<Option<int>, ConvError> {
    if index.None? || index.value == "" then Success(None)
    else match Get(ivmap, index.value)
      case None => Failure(MissingKey(index.value))
      case Some(n) => Success(Some(n))
  }

  /** A top that is the `hi` of a handle constraint goes to the node of the
      first representative of that constraint's `lo`; a top that is a
      label goes to the node of its first representative; any other top is
      kept. With distinct EP identifiers the node is `first` plus the
      position of that representative among the EPs. */
  lemma TopResolution(m: Mrs, reps: Reps, first: int, k: nat)
    requires DistinctIds(m.rels) && k < |m.rels|
    ensures var hcmap := HcMap(m.hcons);
      var idmap := IdMap(m.rels, first);
      m.top.Some? && Get(hcmap, m.top.value).Some? &&
      Get(reps, Get(hcmap, m.top.value).value.lo).Some? &&
      Get(reps, Get(hcmap, m.top.value).value.lo).value != [] &&
      Get(reps, Get(hcmap, m.top.value).value.lo).value[0] == m.rels[k].id ==>
        TopOf(m.top, hcmap, reps, idmap) == Success(TopNode(first + k))
    ensures var hcmap := HcMap(m.hcons);
      var idmap := IdMap(m.rels, first);
      m.top.Some? && Get(hcmap, m.top.value).None? &&
      Get(reps, m.top.value).Some? && Get(reps, m.top.value).value != [] &&
      Get(reps, m.top.value).value[0] == m.rels[k].id ==>
        TopOf(m.top, hcmap, reps, idmap) == Success(TopNode(first + k))
    ensures var hcmap := HcMap(m.hcons);
      (m.top.None? || (Get(hcmap, m.top.value).None? && Get(reps, m.top.value).None?)) ==>
        TopOf(m.top, hcmap, reps, IdMap(m.rels, first)) == Success(TopAsIs(m.top))
  {
    IdMapConsecutive(m.rels, first, k);
  }

  /** The index is the node of the EP (not a quantifier) whose intrinsic
      variable it is; no index gives no index. */
  lemma IndexResolution(m: Mrs, first: int)
    ensures IndexOf(m.index, IvMap(m.rels, first)).Success? && IndexOf(m.index, IvMap(m.rels, first)).value.Some?
      <==> m.index.Some? && m.index.value != "" && exists e :: e in m.rels && !e.isQuantifier && e.iv == m.index.value
    ensures m.index.None? ==> IndexOf(m.index, IvMap(m.rels, first)) == Success(None)
    ensures DistinctIds(m.rels) ==>
      forall k :: 0 <= k < |m.rels| && m.index == Some(m.rels[k].iv) && m.rels[k].iv != "" &&
                  !m.rels[k].isQuantifier && LastIvAt(m.rels, k) ==>
        IndexOf(m.index, IvMap(m.rels, first)) == Success(Some(first + k))
  {
    if m.index.Some? {
      IvMapKeys(m.rels, first, m.index.value);
    }
    if DistinctIds(m.rels) {
      forall k | 0 <= k < |m.rels| && m.index == Some(m.rels[k].iv) && m.rels[k].iv != "" &&
                 !m.rels[k].isQuantifier && LastIvAt(m.rels, k)
        ensures IndexOf(m.index, IvMap(m.rels, first)) == Success(Some(first + k))
      {
        IvMapGet(m.rels, first, k);
      }
    }
  }

  // ---------------------------------------------------------------------
  // Nodes

  /** The node made from an EP. */
  function NodeFor(ep: EP, nid: int, sortOf: string -> string, propsOf: string -> Dict<string, string>): Node {
    Node(nid, ep.pred, sortOf(ep.iv), if ep.isQuantifier then None else Some(propsOf(ep.iv)), ep.carg)
  }

  /** `_mrs_to_nodes(m, id_to_nid)`: one node per EP, in EP order. */
  method ToNodes(rels: seq<EP>, first: int, sortOf: string -> string, propsOf: string -> Dict<string, string>)
    returns (nodes: seq<Node>)
    ensures |nodes| == |rels|
    ensures forall i :: 0 <= i < |rels| ==>
      Get(IdMap(rels, first), rels[i].id).Some? &&
      nodes[i] == NodeFor(rels[i], Get(IdMap(rels, first), rels[i].id).value, sortOf, propsOf)
  {
    var idmap := IdMap(rels, first);
    nodes := [];
    for i := 0 to |rels|
      invariant |nodes| == i
      invariant forall j :: 0 <= j < i ==>
        Get(idmap, rels[j].id).Some? && nodes[j] == NodeFor(rels[j], Get(idmap, rels[j].id).value, sortOf, propsOf)
    {
      IdMapHas(rels, first, i);
      var ep := rels[i];
      var nodeid := Get(idmap, ep.id).value;
      var properties := if ep.isQuantifier then None else Some(propsOf(ep.iv));
      nodes := nodes + [Node(nodeid, ep.pred, sortOf(ep.iv), properties, ep.carg)];
    }
  }

  /** With distinct EP identifiers, the nodes are numbered consecutively
      from `first` in EP order, and only quantifiers lack properties. */
  lemma NodesConsecutive(rels: seq<EP>, first: int, sortOf: string -> string, propsOf: string -> Dict<string, string>,
                         nodes: seq<Node>)
    requires DistinctIds(rels) && |nodes| == |rels|
    requires forall i :: 0 <= i < |rels| ==>
      Get(IdMap(rels, first), rels[i].id).Some? &&
      nodes[i] == NodeFor(rels[i], Get(IdMap(rels, first), rels[i].id).value, sortOf, propsOf)
    ensures forall i :: 0 <= i < |nodes| ==> nodes[i].nodeid == first + i
    ensures forall i :: 0 <= i < |nodes| ==> (nodes[i].properties.None? <==> rels[i].isQuantifier)
  {
    forall i | 0 <= i < |nodes| ensures nodes[i].nodeid == first + i {
      IdMapConsecutive(rels, first, i);
    }
  }

  /** The nodes `_mrs_to_nodes` makes. */
  function NodesSpec(rels: seq<EP>, first: int, sortOf: string -> string, propsOf: string -> Dict<string, string>)
    : seq<Node>
  {
    seq(|rels|, i requires 0 <= i < |rels| =>
      NodeFor(rels[i], Get(IdMap(rels, first), rels[i].id).GetOr(first), sortOf, propsOf))
  }

  // ---------------------------------------------------------------------
  // Links

  /** `m[id]`: the EP with that identifier; the index behind it maps each
      identifier to the last EP carrying it. */
  function EpById(rels: seq<EP>, id: string): (r: Option<EP>)
    ensures r.Some? ==> r.value in rels && r.value.id == id
    ensures r.None? ==> forall e :: e in rels ==> e.id != id
  {
    if rels == [] then None
    else
      var n := |rels| - 1;
      if rels[n].id == id then Some(rels[n]) else EpById(rels[..n], id)
  }

  /** Of several EPs with one identifier, `m[id]` gives the last. */
  lemma {:induction false} EpByIdLast(rels: seq<EP>, i: nat)
    requires i < |rels| && forall j :: i < j < |rels| ==> rels[j].id != rels[i].id
    ensures EpById(rels, rels[i].id) == Some(rels[i])
  {
    var n := |rels| - 1;
    if i < n {
      assert rels[..n][i] == rels[i];
      EpByIdLast(rels[..n], i);
    }
  }

  /** The link one argument yields, if any: to the intrinsic variable of
      an EP (EQ when the two EPs share a label, NEQ otherwise), to a label
      (HEQ, to its first representative), or to the `hi` of a handle
      constraint (H, to the first representative of its `lo`). */
  function ArgLink(rels: seq<EP>, src: string, start: int, role: string, tgt: string, ivmap: Dict<string, int>,
                   reps: Reps, hcmap: Dict<string, HCons>, idmap: Dict<string, int>): Result<Option<Link>, ConvError>
  {
    if Get(ivmap, tgt).Some? then
      match EpById(rels, src)
      case None => Failure(MissingKey(src))
      case Some(s) =>
        match EpById(rels, tgt)
        case None => Failure(MissingKey(tgt))
        case Some(t) =>
          Success(Some(Link(start, Get(ivmap, tgt).value, ArgRole(role), if s.lbl == t.lbl then EqPost else NeqPost)))
    else if Get(reps, tgt).Some? && |Get(reps, tgt).value| > 0 then
      var end :- RepNode(tgt, reps, idmap);
      Success(Some(Link(start, end, ArgRole(role), HeqPost)))
    else if Get(hcmap, tgt).Some? then
      var end :- RepNode(Get(hcmap, tgt).value.lo, reps, idmap);
      Success(Some(Link(start, end, ArgRole(role), HPost)))
    else Success(None)
  }

  /** The links of one EP's arguments, in argument order. */
  function ArgLinksFor(rels: seq<EP>, src: string, start: int, roleargs: Dict<string, string>, ivmap: Dict<string, int>,
                       reps: Reps, hcmap: Dict<string, HCons>, idmap: Dict<string, int>): Result<seq<Link>, ConvError>
  {
    if roleargs == [] then Success([])
    else
      var n := |roleargs| - 1;
      var prev :- ArgLinksFor(rels, src, start, roleargs[..n], ivmap, reps, hcmap, idmap);
      var l :- ArgLink(rels, src, start, roleargs[n].0, roleargs[n].1, ivmap, reps, hcmap, idmap);
      Success(prev + if l.Some? then [l.value] else [])
  }

  /** The links of all arguments, EP after EP. */
  function ArgLinks(rels: seq<EP>, args: Arguments, ivmap: Dict<string, int>, reps: Reps, hcmap: Dict<string, HCons>,
                    idmap: Dict<string, int>): Result<seq<Link>, ConvError>
  {
    if args == [] then Success([])
    else
      var n := |args| - 1;
      var prev :- ArgLinks(rels, args[..n], ivmap, reps, hcmap, idmap);
      match Get(idmap, args[n].0)
      case None => Failure(MissingKey(args[n].0))
      case Some(start) =>
        var more :- ArgLinksFor(rels, args[n].0, start, args[n].1, ivmap, reps, hcmap, idmap);
        Success(prev + more)
  }

  /** Links from every later representative to the node `end`. */
  function BareLinks(srcs: seq<string>, end: int, idmap: Dict<string, int>): Result<seq<Link>, ConvError> {
    if srcs == [] then Success([])
    else
      var n := |srcs| - 1;
      var prev :- BareLinks(srcs[..n], end, idmap);
      match Get(idmap, srcs[n])
      case None => Failure(MissingKey(srcs[n]))
      case Some(start) => Success(prev + [Link(start, end, BareEqRole, EqPost)])
  }

  /** The links between the representatives of one label. */
  function RepLinksFor(ids: seq<string>, idmap: Dict<string, int>): Result<seq<Link>, ConvError> {
    if |ids| <= 1 then Success([])
    else match Get(idmap, ids[0])
      case None => Failure(MissingKey(ids[0]))
      case Some(end) => BareLinks(ids[1..], end, idmap)
  }

  /** The links between shared-label EPs, label after label. */
  function RepLinks(reps: Reps, idmap: Dict<string, int>): Result<seq<Link>, ConvError> {
    if reps == [] then Success([])
    else
      var n := |reps| - 1;
      var prev :- RepLinks(reps[..n], idmap);
      var more :- RepLinksFor(reps[n].1, idmap);
      Success(prev + more)
  }

  /** The links `_mrs_to_links` makes. */
  function LinksSpec(rels: seq<EP>, args: Arguments, ivmap: Dict<string, int>, reps: Reps, hcmap: Dict<string, HCons>,
                     idmap: Dict<string, int>): Result<seq<Link>, ConvError>
  {
    var fromArgs :- ArgLinks(rels, args, ivmap, reps, hcmap, idmap);
    var shared :- RepLinks(reps, idmap);
    Success(fromArgs + shared)
  }

  /** `_mrs_to_links(m, hcmap, reps, iv_to_nid, id_to_nid)` */
  method ToLinks(rels: seq<EP>, args: Arguments, ivmap: Dict<string, int>, reps: Reps, hcmap: Dict<string, HCons>,
                 idmap: Dict<string, int>) returns (r: Result<seq<Link>, ConvError>)
    ensures r == LinksSpec(rels, args, ivmap, reps, hcmap, idmap)
  {
    var fromArgs := CollectArgLinks(rels, args, ivmap, reps, hcmap, idmap);
    if fromArgs.Failure? {
      return Failure(fromArgs.error);
    }
    var shared := CollectRepLinks(reps, idmap);
    if shared.Failure? {
      return Failure(shared.error);
    }
    return Success(fromArgs.value + shared.value);
  }

  /** The links from arguments, the first loop of `_mrs_to_links`. */
  method CollectArgLinks(rels: seq<EP>, args: Arguments, ivmap: Dict<string, int>, reps: Reps,
                         hcmap: Dict<string, HCons>, idmap: Dict<string, int>) returns (r: Result<seq<Link>, ConvError>)
    ensures r == ArgLinks(rels, args, ivmap, reps, hcmap, idmap)
  {
    var links: seq<Link> := [];
    for a := 0 to |args|
      invariant ArgLinks(rels, args[..a], ivmap, reps, hcmap, idmap) == Success(links)
    {
      assert args[..a + 1][..a] == args[..a];
      var src := args[a].0;
      var start := Get(idmap, src);
      if start.None? {
        ArgLinksFailsFrom(rels, args, ivmap, reps, hcmap, idmap, a + 1, MissingKey(src));
        return Failure(MissingKey(src));
      }
      var more := RoleArgLinks(rels, src, start.value, args[a].1, ivmap, reps, hcmap, idmap);
      if more.Failure? {
        ArgLinksFailsFrom(rels, args, ivmap, reps, hcmap, idmap, a + 1, more.error);
        return Failure(more.error);
      }
      links := links + more.value;
    }
    assert args[..|args|] == args;
    return Success(links);
  }

  /** The links between EPs sharing a label, the second loop of
      `_mrs_to_links`. */
  method CollectRepLinks(reps: Reps, idmap: Dict<string, int>) returns (r: Result<seq<Link>, ConvError>)
    ensures r == RepLinks(reps, idmap)
  {
    var links: seq<Link> := [];
    for k := 0 to |reps|
      invariant RepLinks(reps[..k], idmap) == Success(links)
    {
      assert reps[..k + 1][..k] == reps[..k];
      var more := LabelLinks(reps[k].1, idmap);
      if more.Failure? {
        RepLinksFailsFrom(reps, idmap, k + 1, more.error);
        return Failure(more.error);
      }
      links := links + more.value;
    }
    assert reps[..|reps|] == reps;
    return Success(links);
  }

  /** The links between the representatives of one label: from each later
      representative to the first. */
  method LabelLinks(ids: seq<string>, idmap: Dict<string, int>) returns (r: Result<seq<Link>, ConvError>)
    ensures r == RepLinksFor(ids, idmap)
  {
    if |ids| <= 1 {
      return Success([]);
    }
    var end := Get(idmap, ids[0]);
    if end.None? {
      return Failure(MissingKey(ids[0]));
    }
    var links: seq<Link> := [];
    for j := 1 to |ids|
      invariant BareLinks(ids[1..j], end.value, idmap) == Success(links)
    {
      assert ids[1..j + 1][..j - 1] == ids[1..j];
      var start := Get(idmap, ids[j]);
      if start.None? {
        assert ids[1..][..j] == ids[1..j + 1] && ids[1..j + 1][j - 1] == ids[j];
        BareLinksFailsFrom(ids[1..], end.value, idmap, j, MissingKey(ids[j]));
        return Failure(MissingKey(ids[j]));
      }
      links := links + [Link(start.value, end.value, BareEqRole, EqPost)];
    }
    assert ids[1..|ids|] == ids[1..];
    return Success(links);
  }

  /** The inner loop of `_mrs_to_links` over one EP's arguments. */
  method RoleArgLinks(rels: seq<EP>, src: string, start: int, roleargs: Dict<string, string>, ivmap: Dict<string, int>,
                      reps: Reps, hcmap: Dict<string, HCons>, idmap: Dict<string, int>)
    returns (r: Result<seq<Link>, ConvError>)
    ensures r == ArgLinksFor(rels, src, start, roleargs, ivmap, reps, hcmap, idmap)
  {
    var links: seq<Link> := [];
    for b := 0 to |roleargs|
      invariant ArgLinksFor(rels, src, start, roleargs[..b], ivmap, reps, hcmap, idmap) == Success(links)
    {
      assert roleargs[..b + 1][..b] == roleargs[..b];
      var role, tgt := roleargs[b].0, roleargs[b].1;
      var end: int;
      var post: Post;
      if Get(ivmap, tgt).Some? {
        end := Get(ivmap, tgt).value;
        var s := EpById(rels, src);
        var t := EpById(rels, tgt);
        if s.None? || t.None? {
          var e := if s.None? then MissingKey(src) else MissingKey(tgt);
          ArgLinksForFailsFrom(rels, src, start, roleargs, ivmap, reps, hcmap, idmap, b + 1, e);
          return Failure(e);
        }
        post := if s.value.lbl == t.value.lbl then EqPost else NeqPost;
      } else if Get(reps, tgt).Some? && |Get(reps, tgt).value| > 0 {
        var n := Get(idmap, Get(reps, tgt).value[0]);
        if n.None? {
          ArgLinksForFailsFrom(rels, src, start, roleargs, ivmap, reps, hcmap, idmap, b + 1,
                               MissingKey(Get(reps, tgt).value[0]));
          return Failure(MissingKey(Get(reps, tgt).value[0]));
        }
        end, post := n.value, HeqPost;
      } else if Get(hcmap, tgt).Some? {
        var lo := Get(hcmap, tgt).value.lo;
        var n := RepNode(lo, reps, idmap);
        if n.Failure? {
          ArgLinksForFailsFrom(rels, src, start, roleargs, ivmap, reps, hcmap, idmap, b + 1, n.error);
          return Failure(n.error);
        }
        end, post := n.value, HPost;
      } else {
        assert ArgLink(rels, src, start, role, tgt, ivmap, reps, hcmap, idmap) == Success(None);
        assert links + [] == links;
        continue;
      }
      assert ArgLink(rels, src, start, role, tgt, ivmap, reps, hcmap, idmap) ==
        Success(Some(Link(start, end, ArgRole(role), post)));
      links := links + [Link(start, end, ArgRole(role), post)];
    }
    assert roleargs[..|roleargs|] == roleargs;
    return Success(links);
  }

  // ---------------------------------------------------------------------
  // from_mrs

  /** `from_mrs(m)` */
  function FromMrsSpec(m: Mrs, args: Arguments, reps: Reps, first: int, sortOf: string -> string,
                       propsOf: string -> Dict<string, string>): Result<Dmrs, ConvError>
  {
    var hcmap := HcMap(m.hcons);
    var idmap := IdMap(m.rels, first);
    var ivmap := IvMap(m.rels, first);
    var top :- TopOf(m.top, hcmap, reps, idmap);
    var index :- IndexOf(m.index, ivmap);
    var links :- LinksSpec(m.rels, args, ivmap, reps, hcmap, idmap);
    Success(Dmrs(top, index, NodesSpec(m.rels, first, sortOf, propsOf), links))
  }

  /** `from_mrs(m)`, with `m.arguments()`, `scope.representatives(m)`,
      the first node id, the variable sort and the variable properties
      given. */
  method FromMrs(m: Mrs, args: Arguments, reps: Reps, first: int, sortOf: string -> string,
                 propsOf: string -> Dict<string, string>) returns (r: Result<Dmrs, ConvError>)
    ensures r == FromMrsSpec(m, args, reps, first, sortOf, propsOf)
  {
    var hcmap := HcMap(m.hcons);
    var idmap := IdMap(m.rels, first);
    var ivmap := IvMap(m.rels, first);
    var top := TopOf(m.top, hcmap, reps, idmap);
    if top.Failure? {
      return Failure(top.error);
    }
    var index := IndexOf(m.index, ivmap);
    if index.Failure? {
      return Failure(index.error);
    }
    var nodes := ToNodes(m.rels, first, sortOf, propsOf);
    var links := ToLinks(m.rels, args, ivmap, reps, hcmap, idmap);
    if links.Failure? {
      return Failure(links.error);
    }
    assert nodes == NodesSpec(m.rels, first, sortOf, propsOf);
    return Success(Dmrs(top.value, index.value, nodes, links.value));
  }

  // ---------------------------------------------------------------------
  // Properties of the links

  /** The post of an argument link tells what its target is: EQ or NEQ for
      the intrinsic variable of an EP that is not a quantifier (EQ exactly
      when source and target EP share a label), HEQ for a label with
      representatives, H for the `hi` of a handle constraint. */
  lemma ArgLinkKinds(rels: seq<EP>, first: int, src: string, start: int, role: string, tgt: string, reps: Reps,
                     hcmap: Dict<string, HCons>)
    requires ArgLink(rels, src, start, role, tgt, IvMap(rels, first), reps, hcmap, IdMap(rels, first)).Success?
    ensures var l := ArgLink(rels, src, start, role, tgt, IvMap(rels, first), reps, hcmap, IdMap(rels, first)).value;
      var isIv := exists e :: e in rels && !e.isQuantifier && e.iv == tgt;
      (l.Some? ==> l.value.start == start && l.value.role == ArgRole(role)) &&
      (isIv ==> l.Some? && (l.value.post == EqPost || l.value.post == NeqPost) &&
                (l.value.post == EqPost <==> EpById(rels, src).value.lbl == EpById(rels, tgt).value.lbl)) &&
      (l.Some? && l.value.post == HeqPost ==> !isIv && Get(reps, tgt).Some? && Get(reps, tgt).value != []) &&
      (l.Some? && l.value.post == HPost ==> !isIv && Get(hcmap, tgt).Some?) &&
      (l.None? ==> !isIv && Get(hcmap, tgt).None? && (Get(reps, tgt).None? || Get(reps, tgt).value == []))
  {
    IvMapKeys(rels, first, tgt);
  }

  /** Where an argument link ends, and which of the source's checks picks
      its kind: an intrinsic variable goes to its node in `iv_to_nid` (with
      distinct EP identifiers, `first` plus the position of the last EP, not
      a quantifier, having it); otherwise a label with representatives gives
      HEQ to its first representative's node, and failing that the `hi` of
      a handle constraint gives H to the node of the first representative
      of its `lo`. */
  lemma ArgLinkEnds(rels: seq<EP>, first: int, src: string, start: int, role: string, tgt: string, reps: Reps,
                    hcmap: Dict<string, HCons>)
    requires ArgLink(rels, src, start, role, tgt, IvMap(rels, first), reps, hcmap, IdMap(rels, first)).Success?
    ensures var l := ArgLink(rels, src, start, role, tgt, IvMap(rels, first), reps, hcmap, IdMap(rels, first)).value;
      var isIv := exists e :: e in rels && !e.isQuantifier && e.iv == tgt;
      var hasReps := Get(reps, tgt).Some? && Get(reps, tgt).value != [];
      (isIv ==> l.Some? && Get(IvMap(rels, first), tgt) == Some(l.value.end)) &&
      (!isIv && hasReps ==>
         l.Some? && l.value.post == HeqPost && Get(IdMap(rels, first), Get(reps, tgt).value[0]) == Some(l.value.end)) &&
      (!isIv && !hasReps && Get(hcmap, tgt).Some? ==>
         l.Some? && l.value.post == HPost &&
         Get(reps, Get(hcmap, tgt).value.lo).Some? && Get(reps, Get(hcmap, tgt).value.lo).value != [] &&
         Get(IdMap(rels, first), Get(reps, Get(hcmap, tgt).value.lo).value[0]) == Some(l.value.end))
  {
    IvMapKeys(rels, first, tgt);
  }

  /** With distinct EP identifiers, an argument that is the intrinsic
      variable of the `k`-th EP (the last one, not a quantifier, having it)
      links to node `first + k`. */
  lemma ArgLinkIvNode(rels: seq<EP>, first: int, src: string, start: int, role: string, reps: Reps,
                      hcmap: Dict<string, HCons>, k: nat)
    requires DistinctIds(rels) && k < |rels| && !rels[k].isQuantifier && LastIvAt(rels, k)
    requires ArgLink(rels, src, start, role, rels[k].iv, IvMap(rels, first), reps, hcmap, IdMap(rels, first)).Success?
    ensures var l := ArgLink(rels, src, start, role, rels[k].iv, IvMap(rels, first), reps, hcmap, IdMap(rels, first)).value;
      l.Some? && l.value.end == first + k
  {
    IvMapGet(rels, first, k);
  }

  /** One EP's argument links all start at that EP's node and carry one of
      its roles; there are at most as many as it has arguments. */
  lemma {:induction false} ArgLinksForShape(rels: seq<EP>, src: string, start: int, roleargs: Dict<string, string>,
                                            ivmap: Dict<string, int>, reps: Reps, hcmap: Dict<string, HCons>,
                                            idmap: Dict<string, int>)
    requires ArgLinksFor(rels, src, start, roleargs, ivmap, reps, hcmap, idmap).Success?
    ensures var links := ArgLinksFor(rels, src, start, roleargs, ivmap, reps, hcmap, idmap).value;
      |links| <= |roleargs| &&
      forall i :: 0 <= i < |links| ==>
        links[i].start == start && links[i].role.ArgRole? && HasKey(roleargs, links[i].role.role)
  {
    if roleargs != [] {
      var n := |roleargs| - 1;
      ArgLinksForShape(rels, src, start, roleargs[..n], ivmap, reps, hcmap, idmap);
      var prev := ArgLinksFor(rels, src, start, roleargs[..n], ivmap, reps, hcmap, idmap).value;
      var l := ArgLink(rels, src, start, roleargs[n].0, roleargs[n].1, ivmap, reps, hcmap, idmap).value;
      var links := prev + if l.Some? then [l.value] else [];
      forall i | 0 <= i < |links|
        ensures links[i].start == start && links[i].role.ArgRole? && HasKey(roleargs, links[i].role.role)
      {
        if i < |prev| {
          var j :| 0 <= j < n && roleargs[..n][j].0 == prev[i].role.role;
          assert roleargs[j].0 == prev[i].role.role;
        } else {
          assert roleargs[n].0 == links[i].role.role;
        }
      }
    }
  }

  /** For a label with several representatives, one link runs from each
      later representative's node to the first one's node, in order. */
  lemma {:induction false} BareLinksShape(srcs: seq<string>, end: int, idmap: Dict<string, int>)
    requires BareLinks(srcs, end, idmap).Success?
    ensures var links := BareLinks(srcs, end, idmap).value;
      |links| == |srcs| &&
      forall i :: 0 <= i < |srcs| ==>
        Get(idmap, srcs[i]).Some? && links[i] == Link(Get(idmap, srcs[i]).value, end, BareEqRole, EqPost)
  {
    if srcs != [] {
      var n := |srcs| - 1;
      BareLinksShape(srcs[..n], end, idmap);
      assert forall i :: 0 <= i < n ==> srcs[..n][i] == srcs[i];
    }
  }

  lemma LabelLinksShape(ids: seq<string>, idmap: Dict<string, int>)
    requires RepLinksFor(ids, idmap).Success? && |ids| > 1
    ensures var links := RepLinksFor(ids, idmap).value;
      |links| == |ids| - 1 && Get(idmap, ids[0]).Some? &&
      forall i :: 1 <= i < |ids| ==>
        Get(idmap, ids[i]).Some? && links[i - 1] == Link(Get(idmap, ids[i]).value, Get(idmap, ids[0]).value, BareEqRole, EqPost)
  {
    BareLinksShape(ids[1..], Get(idmap, ids[0]).value, idmap);
    assert forall i :: 1 <= i < |ids| ==> ids[1..][i - 1] == ids[i];
  }

  /** The number of links between shared-label EPs: one fewer than the
      representatives of each label that has several. */
  function SharedCount(reps: Reps): nat {
    if reps == [] then 0
    else
      var n := |reps| - 1;
      SharedCount(reps[..n]) + if |reps[n].1| > 1 then |reps[n].1| - 1 else 0
  }

  lemma {:induction false} RepLinksCount(reps: Reps, idmap: Dict<string, int>)
    requires RepLinks(reps, idmap).Success?
    ensures |RepLinks(reps, idmap).value| == SharedCount(reps)
    ensures forall l :: l in RepLinks(reps, idmap).value ==> l.role == BareEqRole && l.post == EqPost
  {
    if reps != [] {
      var n := |reps| - 1;
      RepLinksCount(reps[..n], idmap);
      var ids := reps[n].1;
      if |ids| > 1 {
        LabelLinksShape(ids, idmap);
        var more := RepLinksFor(ids, idmap).value;
        forall l | l in more ensures l.role == BareEqRole && l.post == EqPost {
          var i :| 0 <= i < |more| && more[i] == l;
          assert Get(idmap, ids[i + 1]).Some? && more[(i + 1) - 1] == l;
        }
      }
    }
  }

  // ---------------------------------------------------------------------
  // Failures propagate

  lemma {:induction false} ArgLinksForFailsFrom(rels: seq<EP>, src: string, start: int, roleargs: Dict<string, string>,
                                                ivmap: Dict<string, int>, reps: Reps, hcmap: Dict<string, HCons>,
                                                idmap: Dict<string, int>, k: nat, e: ConvError)
    requires k <= |roleargs|
    requires ArgLinksFor(rels, src, start, roleargs[..k], ivmap, reps, hcmap, idmap) == Failure(e)
    ensures ArgLinksFor(rels, src, start, roleargs, ivmap, reps, hcmap, idmap) == Failure(e)
    decreases |roleargs| - k
  {
    if k < |roleargs| {
      assert roleargs[..k + 1][..k] == roleargs[..k];
      ArgLinksForFailsFrom(rels, src, start, roleargs, ivmap, reps, hcmap, idmap, k + 1, e);
    } else {
      assert roleargs[..k] == roleargs;
    }
  }

  lemma {:induction false} ArgLinksFailsFrom(rels: seq<EP>, args: Arguments, ivmap: Dict<string, int>, reps: Reps,
                                             hcmap: Dict<string, HCons>, idmap: Dict<string, int>, k: nat, e: ConvError)
    requires k <= |args|
    requires ArgLinks(rels, args[..k], ivmap, reps, hcmap, idmap) == Failure(e)
    ensures ArgLinks(rels, args, ivmap, reps, hcmap, idmap) == Failure(e)
    ensures LinksSpec(rels, args, ivmap, reps, hcmap, idmap) == Failure(e)
    decreases |args| - k
  {
    if k < |args| {
      assert args[..k + 1][..k] == args[..k];
      ArgLinksFailsFrom(rels, args, ivmap, reps, hcmap, idmap, k + 1, e);
    } else {
      assert args[..k] == args;
    }
  }

  lemma {:induction false} BareLinksFailsFrom(srcs: seq<string>, end: int, idmap: Dict<string, int>, k: nat, e: ConvError)
    requires k <= |srcs|
    requires BareLinks(srcs[..k], end, idmap) == Failure(e)
    ensures BareLinks(srcs, end, idmap) == Failure(e)
    decreases |srcs| - k
  {
    if k < |srcs| {
      assert srcs[..k + 1][..k] == srcs[..k];
      BareLinksFailsFrom(srcs, end, idmap, k + 1, e);
    } else {
      assert srcs[..k] == srcs;
    }
  }

  lemma {:induction false} RepLinksFailsFrom(reps: Reps, idmap: Dict<string, int>, k: nat, e: ConvError)
    requires k <= |reps|
    requires RepLinks(reps[..k], idmap) == Failure(e)
    ensures RepLinks(reps, idmap) == Failure(e)
    decreases |reps| - k
  {
    if k < |reps| {
      assert reps[..k + 1][..k] == reps[..k];
      RepLinksFailsFrom(reps, idmap, k + 1, e);
    } else {
      assert reps[..k] == reps;
    }
  }
}
