/**
 * The graph store: the node list, the edge list and the id counter of the
 * editor's shared state, with the edit operations that change them and the
 * lookups by node id and by unordered endpoint pair.
 */
module GraphStore {
  import opened Wrappers

  /** A node of the canvas; `x`, `y` are its position, `inS` says it is settled. */
  datatype Node = Node(id: nat, x: real, y: real, inS: bool)

  /** An undirected edge; `inS` says it is drawn as part of the shortest-path tree. */
  datatype Edge = Edge(src: nat, dst: nat, cost: nat, inS: bool)

  /** The edge joins `a` and `b`, in either orientation. */
  predicate Joins(e: Edge, a: nat, b: nat)
  {
    (e.src == a && e.dst == b) || (e.src == b && e.dst == a)
  }

  /** The ids of the nodes, in list order. */
  function Ids(ns: seq<Node>): (r: seq<nat>)
    ensures |r| == |ns|
    ensures forall i :: 0 <= i < |ns| ==> r[i] == ns[i].id
  {
    seq(|ns|, i requires 0 <= i < |ns| => ns[i].id)
  }

  /** `nodeId2Obj`: the position of the first node with this id. */
  function FindNode(ns: seq<Node>, id: nat): (r: Option<nat>)
    ensures r.Some? ==> r.value < |ns| && ns[r.value].id == id
    ensures r.Some? ==> forall j :: 0 <= j < r.value ==> ns[j].id != id
    ensures r.None? ==> forall j :: 0 <= j < |ns| ==> ns[j].id != id
  {
    if ns == [] then None
    else if ns[0].id == id then Some(0)
    else match FindNode(ns[1..], id)
      case None => None
      case Some(i) => Some(i + 1)
  }

  /** `edgeId2Obj`: the position of the first edge joining `a` and `b`, in either orientation. */
  function FindEdge(es: seq<Edge>, a: nat, b: nat): (r: Option<nat>)
    ensures r.Some? ==> r.value < |es| && Joins(es[r.value], a, b)
    ensures r.Some? ==> forall j :: 0 <= j < r.value ==> !Joins(es[j], a, b)
    ensures r.None? ==> forall j :: 0 <= j < |es| ==> !Joins(es[j], a, b)
  {
    if es == [] then None
    else if Joins(es[0], a, b) then Some(0)
    else match FindEdge(es[1..], a, b)
      case None => None
      case Some(i) => Some(i + 1)
  }

  /** The pair lookup does not depend on the order in which the endpoints are given. */
  lemma {:induction false} FindEdgeSymmetric(es: seq<Edge>, a: nat, b: nat)
    ensures FindEdge(es, a, b) == FindEdge(es, b, a)
  {
    if es != [] && !Joins(es[0], a, b) {
      FindEdgeSymmetric(es[1..], a, b);
    }
  }

  /** Deleting the node `id` from the node list: the nodes that stay, in their order. */
  function RemoveNodeId(ns: seq<Node>, id: nat): (r: seq<Node>)
    ensures forall n :: n in r <==> n in ns && n.id != id
    ensures |r| <= |ns|
  {
    if ns == [] then []
    else if ns[0].id == id then RemoveNodeId(ns[1..], id)
    else [ns[0]] + RemoveNodeId(ns[1..], id)
  }

  /** Deleting every edge with `id` as an endpoint: the edges that stay, in their order. */
  function RemoveIncident(es: seq<Edge>, id: nat): (r: seq<Edge>)
    ensures forall e :: e in r <==> e in es && e.src != id && e.dst != id
    ensures |r| <= |es|
  {
    if es == [] then []
    else if es[0].src == id || es[0].dst == id then RemoveIncident(es[1..], id)
    else [es[0]] + RemoveIncident(es[1..], id)
  }

  /** Removing keeps the relative order: the survivors of a concatenation are the concatenated survivors. */
  lemma {:induction false} RemoveNodeIdConcat(a: seq<Node>, b: seq<Node>, id: nat)
    ensures RemoveNodeId(a + b, id) == RemoveNodeId(a, id) + RemoveNodeId(b, id)
  {
    if a != [] {
      assert (a + b)[1..] == a[1..] + b;
      RemoveNodeIdConcat(a[1..], b, id);
    } else {
      assert a + b == b;
    }
  }

  /** Removing keeps the relative order of the edges that stay. */
  lemma {:induction false} RemoveIncidentConcat(a: seq<Edge>, b: seq<Edge>, id: nat)
    ensures RemoveIncident(a + b, id) == RemoveIncident(a, id) + RemoveIncident(b, id)
  {
    if a != [] {
      assert (a + b)[0] == a[0] && (a + b)[1..] == a[1..] + b;
      RemoveIncidentConcat(a[1..], b, id);
      if a[0].src == id || a[0].dst == id {
        assert RemoveIncident(a + b, id) == RemoveIncident(a[1..] + b, id);
      } else {
        assert RemoveIncident(a + b, id) == [a[0]] + RemoveIncident(a[1..] + b, id);
      }
    } else {
      assert a + b == b;
    }
  }

  /** Ids strictly increase along the node list, so no id occurs twice. */
  predicate IdsIncreasing(ns: seq<Node>)
  {
    forall i, j :: 0 <= i < j < |ns| ==> ns[i].id < ns[j].id
  }

  /** Every id handed out so far is at most the counter. */
  predicate IdsBelow(ns: seq<Node>, lastNodeId: int)
  {
    forall i :: 0 <= i < |ns| ==> ns[i].id <= lastNodeId
  }

  predicate NoSelfLoops(es: seq<Edge>)
  {
    forall i :: 0 <= i < |es| ==> es[i].src != es[i].dst
  }

  /** No two edges join the same unordered pair. */
  predicate NoDuplicatePairs(es: seq<Edge>)
  {
    forall i, j :: 0 <= i < j < |es| ==> !Joins(es[j], es[i].src, es[i].dst)
  }

  /** Every edge joins two nodes that are on the canvas. */
  predicate EndpointsExist(ns: seq<Node>, es: seq<Edge>)
  {
    forall i :: 0 <= i < |es| ==> es[i].src in Ids(ns) && es[i].dst in Ids(ns)
  }

  /** The structural invariant of the store. */
  predicate WellFormed(ns: seq<Node>, es: seq<Edge>, lastNodeId: int)
  {
    lastNodeId >= -1 &&
    IdsBelow(ns, lastNodeId) && IdsIncreasing(ns) &&
    NoSelfLoops(es) && NoDuplicatePairs(es) && EndpointsExist(ns, es)
  }

  /** Under the invariant, a pair is joined by at most one edge: the one the lookup finds. */
  lemma UniqueEdge(es: seq<Edge>, a: nat, b: nat, k: nat)
    requires NoDuplicatePairs(es)
    requires k < |es| && Joins(es[k], a, b)
    ensures FindEdge(es, a, b) == Some(k)
  {
    var r := FindEdge(es, a, b);
    if r.value < k {
      assert Joins(es[k], es[r.value].src, es[r.value].dst);
    }
  }

  /** The same records with every settled flag cleared. */
  function UnflaggedNodes(ns: seq<Node>): (r: seq<Node>)
  {
    seq(|ns|, i requires 0 <= i < |ns| => ns[i].(inS := false))
  }

  function UnflaggedEdges(es: seq<Edge>): (r: seq<Edge>)
  {
    seq(|es|, i requires 0 <= i < |es| => es[i].(inS := false))
  }

  /** Flags play no part in the pair lookup. */
  lemma {:induction false} FindEdgeIgnoresFlags(es1: seq<Edge>, es2: seq<Edge>, a: nat, b: nat)
    requires UnflaggedEdges(es1) == UnflaggedEdges(es2)
    ensures FindEdge(es1, a, b) == FindEdge(es2, a, b)
  {
    assert |es1| == |UnflaggedEdges(es1)| == |es2|;
    forall j | 0 <= j < |es1| ensures Joins(es1[j], a, b) == Joins(es2[j], a, b) {
      assert UnflaggedEdges(es1)[j] == UnflaggedEdges(es2)[j];
    }
  }

  /** Flags play no part in the structural invariant. */
  lemma WellFormedIgnoresFlags(ns1: seq<Node>, es1: seq<Edge>, ns2: seq<Node>, es2: seq<Edge>, lastNodeId: int)
    requires UnflaggedNodes(ns1) == UnflaggedNodes(ns2) && UnflaggedEdges(es1) == UnflaggedEdges(es2)
    requires WellFormed(ns1, es1, lastNodeId)
    ensures WellFormed(ns2, es2, lastNodeId)
  {
    assert |ns1| == |UnflaggedNodes(ns1)| == |ns2|;
    assert |es1| == |UnflaggedEdges(es1)| == |es2|;
    forall i | 0 <= i < |ns1| ensures ns1[i].id == ns2[i].id {
      assert UnflaggedNodes(ns1)[i] == UnflaggedNodes(ns2)[i];
    }
    forall i | 0 <= i < |es1| ensures es1[i].src == es2[i].src && es1[i].dst == es2[i].dst {
      assert UnflaggedEdges(es1)[i] == UnflaggedEdges(es2)[i];
    }
    assert Ids(ns1) == Ids(ns2);
  }

  /** Lists that differ only in flags hold the same node records position by position. */
  lemma SameNodeRecords(ns1: seq<Node>, ns2: seq<Node>)
    requires UnflaggedNodes(ns1) == UnflaggedNodes(ns2)
    ensures |ns1| == |ns2|
    ensures forall i :: 0 <= i < |ns1| ==> ns1[i].id == ns2[i].id && ns1[i].x == ns2[i].x && ns1[i].y == ns2[i].y
  {
    assert |ns1| == |UnflaggedNodes(ns1)| == |ns2|;
    forall i | 0 <= i < |ns1| ensures ns1[i].id == ns2[i].id && ns1[i].x == ns2[i].x && ns1[i].y == ns2[i].y {
      assert UnflaggedNodes(ns1)[i] == UnflaggedNodes(ns2)[i];
    }
  }

  /** Lists that differ only in flags hold the same edge records position by position. */
  lemma SameEdgeRecords(es1: seq<Edge>, es2: seq<Edge>)
    requires UnflaggedEdges(es1) == UnflaggedEdges(es2)
    ensures |es1| == |es2|
    ensures forall i :: 0 <= i < |es1| ==> es1[i].src == es2[i].src && es1[i].dst == es2[i].dst && es1[i].cost == es2[i].cost
  {
    assert |es1| == |UnflaggedEdges(es1)| == |es2|;
    forall i | 0 <= i < |es1| ensures es1[i].src == es2[i].src && es1[i].dst == es2[i].dst && es1[i].cost == es2[i].cost {
      assert UnflaggedEdges(es1)[i] == UnflaggedEdges(es2)[i];
    }
  }

  /** Sets the settled flag of the node the id lookup finds. */
  function MarkNode(ns: seq<Node>, id: nat, flag: bool): (r: seq<Node>)
    ensures UnflaggedNodes(r) == UnflaggedNodes(ns)
    ensures forall i :: 0 <= i < |ns| ==>
      r[i].inS == (if FindNode(ns, id) == Some(i) then flag else ns[i].inS)
  {
    match FindNode(ns, id)
    case None => ns
    case Some(i) => ns[i := ns[i].(inS := flag)]
  }

  /** Sets the tree flag of the edge the pair lookup finds. */
  function MarkEdge(es: seq<Edge>, a: nat, b: nat, flag: bool): (r: seq<Edge>)
    ensures UnflaggedEdges(r) == UnflaggedEdges(es)
    ensures forall i :: 0 <= i < |es| ==>
      r[i].inS == (if FindEdge(es, a, b) == Some(i) then flag else es[i].inS)
  {
    match FindEdge(es, a, b)
    case None => es
    case Some(i) => es[i := es[i].(inS := flag)]
  }

  /**
   * The graph part of the editor's state: the node list, the edge list and
   * the counter of the last id handed out (-1 before the first node).
   */
  class Graph {
    var nodes: seq<Node>
    var edges: seq<Edge>
    var lastNodeId: int

    ghost predicate Valid()
      reads this
    {
      WellFormed(nodes, edges, lastNodeId)
    }

    /** The empty canvas. */
    constructor ()
      ensures Valid()
      ensures nodes == [] && edges == [] && lastNodeId == -1
    {
      nodes, edges, lastNodeId := [], [], -1;
    }

    /** `addNode`: the new node takes the next id; ids are never handed out twice. */
    method AddNode(x: real, y: real)
      requires Valid()
      modifies this
      ensures Valid()
      ensures lastNodeId == old(lastNodeId) + 1
      ensures nodes == old(nodes) + [Node(lastNodeId, x, y, false)]
      ensures forall i :: 0 <= i < |old(nodes)| ==> old(nodes)[i].id < lastNodeId
      ensures edges == old(edges)
    {
      lastNodeId := lastNodeId + 1;
      nodes := nodes + [Node(lastNodeId, x, y, false)];
      assert forall i :: 0 <= i < |old(nodes)| ==> nodes[i] == old(nodes)[i];
      forall i | 0 <= i < |edges| ensures edges[i].src in Ids(nodes) && edges[i].dst in Ids(nodes) {
        assert edges[i].src in Ids(old(nodes)) && edges[i].dst in Ids(old(nodes));
        assert Ids(nodes) == Ids(old(nodes)) + [lastNodeId];
      }
    }

    /**
     * `addEdge`: nothing happens for a self-loop or for a pair that is already
     * joined in either orientation; otherwise exactly one edge is appended.
     */
    method AddEdge(src: nat, dst: nat, cost: nat)
      requires Valid()
      requires src in Ids(nodes) && dst in Ids(nodes)
      modifies this
      ensures Valid()
      ensures nodes == old(nodes) && lastNodeId == old(lastNodeId)
      ensures src == dst || FindEdge(old(edges), src, dst).Some? ==> edges == old(edges)
      ensures src != dst && FindEdge(old(edges), src, dst).None? ==>
        edges == old(edges) + [Edge(src, dst, cost, false)]
    {
      if src == dst {
        return;
      }
      if FindEdge(edges, src, dst).Some? {
        return;
      }
      edges := edges + [Edge(src, dst, cost, false)];
    }

    /** `setEdgeCost`: overwrites the cost of the edge joining the pair, and nothing else. */
    method SetEdgeCost(src: nat, dst: nat, cost: nat)
      requires Valid()
      requires FindEdge(edges, src, dst).Some?
      modifies this
      ensures Valid()
      ensures nodes == old(nodes) && lastNodeId == old(lastNodeId)
      ensures |edges| == |old(edges)|
      ensures forall i :: 0 <= i < |edges| ==>
        edges[i] == if Joins(old(edges)[i], src, dst) then old(edges)[i].(cost := cost) else old(edges)[i]
    {
      var i := FindEdge(edges, src, dst).value;
      forall j | 0 <= j < |edges| && Joins(edges[j], src, dst) ensures j == i {
        UniqueEdge(edges, src, dst, j);
      }
      edges := edges[i := edges[i].(cost := cost)];
    }

    /**
     * The delete key on a selected node: the node goes, and with it exactly the
     * edges that touch it; everything else stays, in order. The counter is kept,
     * so the id is not handed out again.
     */
    method RemoveNode(id: nat)
      requires Valid()
      modifies this
      ensures Valid()
      ensures lastNodeId == old(lastNodeId)
      ensures nodes == RemoveNodeId(old(nodes), id)
      ensures edges == RemoveIncident(old(edges), id)
    {
      var ns, es := RemoveNodeId(nodes, id), RemoveIncident(edges, id);
      RemoveKeepsWellFormed(nodes, edges, lastNodeId, id);
      nodes, edges := ns, es;
    }

    /** `restart`: clears every settled flag and changes nothing else. */
    method Restart()
      requires Valid()
      modifies this
      ensures Valid()
      ensures lastNodeId == old(lastNodeId)
      ensures nodes == UnflaggedNodes(old(nodes)) && edges == UnflaggedEdges(old(edges))
      ensures forall i :: 0 <= i < |nodes| ==> !nodes[i].inS
      ensures forall i :: 0 <= i < |edges| ==> !edges[i].inS
    {
      var k := 0;
      while k < |nodes|
        invariant 0 <= k <= |nodes| == |old(nodes)|
        invariant forall i :: 0 <= i < k ==> nodes[i] == old(nodes)[i].(inS := false)
        invariant forall i :: k <= i < |nodes| ==> nodes[i] == old(nodes)[i]
        invariant edges == old(edges) && lastNodeId == old(lastNodeId)
      {
        nodes := nodes[k := nodes[k].(inS := false)];
        k := k + 1;
      }
      assert nodes == UnflaggedNodes(old(nodes));
      k := 0;
      while k < |edges|
        invariant 0 <= k <= |edges| == |old(edges)|
        invariant forall i :: 0 <= i < k ==> edges[i] == old(edges)[i].(inS := false)
        invariant forall i :: k <= i < |edges| ==> edges[i] == old(edges)[i]
        invariant nodes == UnflaggedNodes(old(nodes)) && lastNodeId == old(lastNodeId)
      {
        edges := edges[k := edges[k].(inS := false)];
        k := k + 1;
      }
      assert edges == UnflaggedEdges(old(edges));
      assert UnflaggedNodes(nodes) == UnflaggedNodes(old(nodes));
      assert UnflaggedEdges(edges) == UnflaggedEdges(old(edges));
      WellFormedIgnoresFlags(old(nodes), old(edges), nodes, edges, lastNodeId);
    }
  }

  /** A subsequence of an increasing list is increasing. */
  lemma {:induction false} RemoveNodeIdIncreasing(ns: seq<Node>, id: nat)
    requires IdsIncreasing(ns)
    ensures IdsIncreasing(RemoveNodeId(ns, id))
  {
    if ns != [] {
      RemoveNodeIdIncreasing(ns[1..], id);
      var rest := RemoveNodeId(ns[1..], id);
      forall j | 0 <= j < |rest| ensures ns[0].id < rest[j].id {
        assert rest[j] in ns[1..];
      }
    }
  }

  lemma {:induction false} RemoveNoDuplicates(es: seq<Edge>, id: nat)
    requires NoDuplicatePairs(es)
    ensures NoDuplicatePairs(RemoveIncident(es, id))
  {
    if es != [] {
      RemoveNoDuplicates(es[1..], id);
      var rest := RemoveIncident(es[1..], id);
      forall j | 0 <= j < |rest| ensures !Joins(rest[j], es[0].src, es[0].dst) {
        assert rest[j] in es[1..];
      }
    }
  }

  /** Removing a node together with its incident edges keeps the store well formed. */
  lemma RemoveKeepsWellFormed(ns: seq<Node>, es: seq<Edge>, lastNodeId: int, id: nat)
    requires WellFormed(ns, es, lastNodeId)
    ensures WellFormed(RemoveNodeId(ns, id), RemoveIncident(es, id), lastNodeId)
  {
    var ns', es' := RemoveNodeId(ns, id), RemoveIncident(es, id);
    RemoveNodeIdIncreasing(ns, id);
    RemoveNoDuplicates(es, id);
    forall i | 0 <= i < |ns'| ensures ns'[i].id <= lastNodeId {
      assert ns'[i] in ns;
    }
    forall i | 0 <= i < |es'| ensures es'[i].src != es'[i].dst {
      assert es'[i] in es;
    }
    RemoveKeepsEndpoints(ns, es, id);
  }

  /** Dropping a node together with its incident edges leaves every remaining edge's endpoints in place. */
  lemma RemoveKeepsEndpoints(ns: seq<Node>, es: seq<Edge>, id: nat)
    requires EndpointsExist(ns, es)
    ensures EndpointsExist(RemoveNodeId(ns, id), RemoveIncident(es, id))
  {
    var ns', es' := RemoveNodeId(ns, id), RemoveIncident(es, id);
    forall i | 0 <= i < |es'| ensures es'[i].src in Ids(ns') && es'[i].dst in Ids(ns') {
      var e := es'[i];
      assert e in es;
      var k :| 0 <= k < |es| && es[k] == e;
      var a :| 0 <= a < |ns| && ns[a].id == e.src;
      var b :| 0 <= b < |ns| && ns[b].id == e.dst;
      assert ns[a] in ns';
      assert ns[b] in ns';
      var a' :| 0 <= a' < |ns'| && ns'[a'] == ns[a];
      var b' :| 0 <= b' < |ns'| && ns'[b'] == ns[b];
      assert Ids(ns')[a'] == e.src && Ids(ns')[b'] == e.dst;
    }
  }
}
