/**
 * The animation sequencer, reduced to what it does to the store: every
 * awaited animation of a run is an event in a log, and when the animation
 * ends it commits a settled flag to the node or edge it animated.
 */
module Animation {
  import opened Wrappers
  import opened GraphStore

  /**
   * `NodeSettled(u)`: the node-join animation of `u`.
   * `EdgeAdded(src, dst)`: the growth animation of the tree edge `src`-`dst`.
   * `EdgeReplaced(retracted, src, dst)`: the retraction of the tree edge
   * `retracted`-`dst` and, concurrently, the growth of `src`-`dst`.
   */
  datatype Event =
    | NodeSettled(node: nat)
    | EdgeAdded(src: nat, dst: nat)
    | EdgeReplaced(retracted: nat, src: nat, dst: nat)

  /** What the end of the event's animation(s) commits to the node list. */
  function EventNodes(ns: seq<Node>, e: Event): (r: seq<Node>)
    ensures UnflaggedNodes(r) == UnflaggedNodes(ns)
    // only the node a settle event names turns green
    ensures forall i :: 0 <= i < |ns| ==>
      r[i].inS == (if e.NodeSettled? && FindNode(ns, e.node) == Some(i) then true else ns[i].inS)
  {
    match e
    case NodeSettled(u) => MarkNode(ns, u, true)
    case _ => ns
  }

  /** What the end of the event's animation(s) commits to the edge list. */
  function EventEdges(es: seq<Edge>, e: Event): (r: seq<Edge>)
    ensures UnflaggedEdges(r) == UnflaggedEdges(es)
    // the edge of an edge event turns red; the retracted edge of a replacement turns back
    ensures forall i :: 0 <= i < |es| ==>
      r[i].inS == (if !e.NodeSettled? && FindEdge(es, e.src, e.dst) == Some(i) then true
                   else if e.EdgeReplaced? && FindEdge(es, e.retracted, e.dst) == Some(i) then false
                   else es[i].inS)
  {
    match e
    case NodeSettled(_) => es
    case EdgeAdded(u, v) => MarkEdge(es, u, v, true)
    case EdgeReplaced(p, u, v) =>
      var es1 := MarkEdge(es, p, v, false);
      FindEdgeIgnoresFlags(es1, es, u, v);
      MarkEdge(es1, u, v, true)
  }

  /** The node list after the events of a log have all been committed, in order. */
  function ReplayNodes(ns: seq<Node>, evs: seq<Event>): (r: seq<Node>)
  {
    if evs == [] then ns else EventNodes(ReplayNodes(ns, evs[..|evs| - 1]), evs[|evs| - 1])
  }

  /** The edge list after the events of a log have all been committed, in order. */
  function ReplayEdges(es: seq<Edge>, evs: seq<Event>): (r: seq<Edge>)
  {
    if evs == [] then es else EventEdges(ReplayEdges(es, evs[..|evs| - 1]), evs[|evs| - 1])
  }

  /** Replaying one more event commits it on top of the earlier ones. */
  lemma ReplayAppend(ns: seq<Node>, es: seq<Edge>, evs: seq<Event>, e: Event)
    ensures ReplayNodes(ns, evs + [e]) == EventNodes(ReplayNodes(ns, evs), e)
    ensures ReplayEdges(es, evs + [e]) == EventEdges(ReplayEdges(es, evs), e)
  {
    assert (evs + [e])[..|evs|] == evs;
  }

  /** The nodes settled by a log, in the order of their `NodeSettled` events. */
  function SettledOrder(evs: seq<Event>): (r: seq<nat>)
  {
    if evs == [] then []
    else SettledOrder(evs[..|evs| - 1]) + (if evs[|evs| - 1].NodeSettled? then [evs[|evs| - 1].node] else [])
  }

  lemma SettledOrderAppend(evs: seq<Event>, e: Event)
    ensures SettledOrder(evs + [e]) == SettledOrder(evs) + (if e.NodeSettled? then [e.node] else [])
  {
    assert (evs + [e])[..|evs|] == evs;
  }
  /**
   * The event comes in its place in a run: a settle event anywhere, an edge
   * event only from the node settled last, into a node not yet settled.
   */
  predicate FromLastSettled(order: seq<nat>, e: Event)
  {
    e.NodeSettled? || (|order| > 0 && order[|order| - 1] == e.src && e.dst !in order)
  }

  /** Every event of the log comes in its place, given the nodes settled before it. */
  predicate PassesInOrder(evs: seq<Event>)
  {
    forall i :: 0 <= i < |evs| ==> FromLastSettled(SettledOrder(evs[..i]), evs[i])
  }

  /** A node a log settles is in the log's settling order. */
  lemma {:induction false} SettledOrderHas(evs: seq<Event>, j: nat)
    requires j < |evs| && evs[j].NodeSettled?
    ensures evs[j].node in SettledOrder(evs)
  {
    var init := evs[..|evs| - 1];
    if j < |evs| - 1 {
      SettledOrderHas(init, j);
    }
  }

  /** In a log in order, no edge event comes into a node after that node was settled. */
  lemma NoEdgeIntoSettled(evs: seq<Event>, j: nat, i: nat)
    requires PassesInOrder(evs)
    requires j < i < |evs| && evs[j].NodeSettled? && !evs[i].NodeSettled?
    ensures evs[i].dst != evs[j].node
  {
    assert evs[..i][j] == evs[j];
    SettledOrderHas(evs[..i], j);
  }

  /** An event that comes in its place after the log keeps the log in order. */
  lemma PassesInOrderAppend(evs: seq<Event>, e: Event)
    requires PassesInOrder(evs) && FromLastSettled(SettledOrder(evs), e)
    ensures PassesInOrder(evs + [e])
  {
    assert (evs + [e])[..|evs|] == evs;
    forall i | 0 <= i < |evs| ensures (evs + [e])[..i] == evs[..i] && (evs + [e])[i] == evs[i] { }
  }

  /**
   * Within each pass the edge events go to nodes of strictly increasing id:
   * of two adjacent edge events, the later one grows an edge into a larger id.
   */
  predicate TargetsAscend(evs: seq<Event>)
  {
    forall i :: 0 < i < |evs| && !evs[i - 1].NodeSettled? && !evs[i].NodeSettled? ==> evs[i - 1].dst < evs[i].dst
  }

  /** Joining two logs keeps the targets ascending when the join does not break a pass's ascent. */
  lemma TargetsAscendConcat(a: seq<Event>, b: seq<Event>)
    requires TargetsAscend(a) && TargetsAscend(b)
    requires a == [] || b == [] || a[|a| - 1].NodeSettled? || b[0].NodeSettled? || a[|a| - 1].dst < b[0].dst
    ensures TargetsAscend(a + b)
  {
    var ab := a + b;
    forall i | 0 < i < |ab| && !ab[i - 1].NodeSettled? && !ab[i].NodeSettled? ensures ab[i - 1].dst < ab[i].dst {
      if i < |a| {
        assert ab[i - 1] == a[i - 1] && ab[i] == a[i];
      } else if i > |a| {
        assert ab[i - 1] == b[i - 1 - |a|] && ab[i] == b[i - |a|];
      } else {
        assert ab[i - 1] == a[|a| - 1] && ab[i] == b[0];
      }
    }
  }


  /** Replaying a log changes settled flags and nothing else. */
  lemma {:induction false} ReplayKeepsRecords(ns: seq<Node>, es: seq<Edge>, evs: seq<Event>)
    ensures UnflaggedNodes(ReplayNodes(ns, evs)) == UnflaggedNodes(ns)
    ensures UnflaggedEdges(ReplayEdges(es, evs)) == UnflaggedEdges(es)
  {
    if evs != [] {
      ReplayKeepsRecords(ns, es, evs[..|evs| - 1]);
    }
  }

  /**
   * The two halves of an `EdgeReplaced` event run concurrently, so either may
   * end first: when the two edges differ the final flags are the same in both
   * orders.
   */
  lemma PairedCommitsCommute(es: seq<Edge>, p: nat, u: nat, v: nat)
    requires p != u
    ensures MarkEdge(MarkEdge(es, p, v, false), u, v, true) == MarkEdge(MarkEdge(es, u, v, true), p, v, false)
  {
    var es1 := MarkEdge(es, p, v, false);
    var es2 := MarkEdge(es, u, v, true);
    FindEdgeIgnoresFlags(es1, es, u, v);
    FindEdgeIgnoresFlags(es2, es, p, v);
    var a, b := FindEdge(es, p, v), FindEdge(es, u, v);
    assert a.Some? && b.Some? ==> a.value != b.value;
    var l, r := MarkEdge(es1, u, v, true), MarkEdge(es2, p, v, false);
    assert |l| == |UnflaggedEdges(l)| == |UnflaggedEdges(r)| == |r|;
    forall i | 0 <= i < |l| ensures l[i] == r[i] {
      assert UnflaggedEdges(l)[i] == UnflaggedEdges(r)[i];
    }
  }

  /** The edges an edge event animates are edges of the store; a replacement retracts another edge than it grows. */
  predicate EdgeEventOk(es: seq<Edge>, e: Event)
  {
    match e
    case NodeSettled(_) => true
    case EdgeAdded(u, v) => FindEdge(es, u, v).Some?
    case EdgeReplaced(p, u, v) => p != u && FindEdge(es, p, v).Some? && FindEdge(es, u, v).Some?
  }

  /** The predecessor map the edge events of a log have drawn: each makes its source the predecessor of its target. */
  function TreeOf(evs: seq<Event>): (r: map<nat, nat>)
  {
    if evs == [] then map[]
    else
      var e := evs[|evs| - 1];
      if e.NodeSettled? then TreeOf(evs[..|evs| - 1]) else TreeOf(evs[..|evs| - 1])[e.dst := e.src]
  }

  /** `v` is no node's predecessor in `t`. */
  predicate NotAParent(t: map<nat, nat>, v: nat)
  {
    forall w :: w in t ==> t[w] != v
  }

  /**
   * An event fits the tree drawn so far: a new tree edge goes into a node that
   * has none yet, a replacement retracts exactly the current tree edge of its
   * target, and the target is no node's predecessor.
   */
  predicate Fits(t: map<nat, nat>, e: Event)
  {
    match e
    case NodeSettled(_) => true
    case EdgeAdded(u, v) => v !in t && NotAParent(t, v)
    case EdgeReplaced(p, u, v) => v in t && t[v] == p && p != u && NotAParent(t, v)
  }

  /** Every event of the log fits the tree drawn by the events before it. */
  predicate TreeLog(evs: seq<Event>)
  {
    forall i :: 0 <= i < |evs| ==> Fits(TreeOf(evs[..i]), evs[i])
  }

  lemma TreeLogAppend(evs: seq<Event>, e: Event)
    requires TreeLog(evs) && Fits(TreeOf(evs), e)
    ensures TreeLog(evs + [e])
    ensures TreeOf(evs + [e]) == if e.NodeSettled? then TreeOf(evs) else TreeOf(evs)[e.dst := e.src]
  {
    assert (evs + [e])[..|evs|] == evs;
    forall i | 0 <= i < |evs| ensures (evs + [e])[..i] == evs[..i] && (evs + [e])[i] == evs[i] { }
  }

  /** The edge events of a log that draw a tree edge into `v`, in order. */
  function EventsInto(evs: seq<Event>, v: nat): (r: seq<Event>)
  {
    if evs == [] then []
    else
      var e := evs[|evs| - 1];
      EventsInto(evs[..|evs| - 1], v) + (if !e.NodeSettled? && e.dst == v then [e] else [])
  }

  lemma EventsIntoAppend(evs: seq<Event>, e: Event)
    ensures forall v :: EventsInto(evs + [e], v) == EventsInto(evs, v) + (if !e.NodeSettled? && e.dst == v then [e] else [])
  {
    assert (evs + [e])[..|evs|] == evs;
  }

  /** The edge is flagged exactly when it joins some node to its predecessor in `t`. */
  ghost predicate ShowsTreeAt(e: Edge, t: map<nat, nat>)
  {
    e.inS <==> exists w :: w in t && Joins(e, t[w], w)
  }

  /** Each edge is flagged exactly when it joins some node to its predecessor in `t`. */
  ghost predicate FlagsShowTree(es: seq<Edge>, t: map<nat, nat>)
  {
    forall k :: 0 <= k < |es| ==> ShowsTreeAt(es[k], t)
  }

  /** One edge through the commit of `EdgeAdded(u, v)`: only the edge joining `u` and `v` changes, and it is flagged. */
  lemma AddedShowsTreeAt(e0: Edge, e1: Edge, t: map<nat, nat>, u: nat, v: nat, found: bool)
    requires ShowsTreeAt(e0, t) && v !in t
    requires e1.src == e0.src && e1.dst == e0.dst
    requires found ==> Joins(e0, u, v) && e1.inS
    requires !found ==> !Joins(e0, u, v) && e1.inS == e0.inS
    ensures ShowsTreeAt(e1, t[v := u])
  {
    var t' := t[v := u];
    if found {
      assert v in t' && Joins(e1, t'[v], v);
    } else {
      if e1.inS {
        var w :| w in t && Joins(e0, t[w], w);
        assert w in t' && Joins(e1, t'[w], w);
      }
      if exists w :: w in t' && Joins(e1, t'[w], w) {
        var w :| w in t' && Joins(e1, t'[w], w);
        assert w in t && Joins(e0, t[w], w);
      }
    }
  }

  /**
   * One edge through the commit of `EdgeReplaced(p, u, v)`: the edge joining `u`
   * and `v` is flagged, the one joining `p` and `v` is cleared, the others keep
   * their flags.
   */
  lemma ReplacedShowsTreeAt(e0: Edge, e1: Edge, t: map<nat, nat>, p: nat, u: nat, v: nat)
    requires ShowsTreeAt(e0, t)
    requires v in t && t[v] == p && p != u && NotAParent(t, v)
    requires e1.src == e0.src && e1.dst == e0.dst
    requires Joins(e0, u, v) ==> e1.inS
    requires Joins(e0, p, v) ==> !e1.inS
    requires !Joins(e0, u, v) && !Joins(e0, p, v) ==> e1.inS == e0.inS
    ensures ShowsTreeAt(e1, t[v := u])
  {
    var t' := t[v := u];
    if Joins(e0, u, v) {
      assert v in t' && Joins(e1, t'[v], v);
    } else if Joins(e0, p, v) {
      if exists w :: w in t' && Joins(e1, t'[w], w) {
        var w :| w in t' && Joins(e1, t'[w], w);
        assert w != v && t[w] != v;
      }
    } else {
      if e1.inS {
        var w :| w in t && Joins(e0, t[w], w);
        assert w in t' && Joins(e1, t'[w], w);
      }
      if exists w :: w in t' && Joins(e1, t'[w], w) {
        var w :| w in t' && Joins(e1, t'[w], w);
        assert w in t && Joins(e0, t[w], w);
      }
    }
  }

  /** Committing an edge event that fits the tree keeps the edge flags showing the tree. */
  lemma CommitShowsTree(es: seq<Edge>, t: map<nat, nat>, e: Event)
    requires NoDuplicatePairs(es)
    requires FlagsShowTree(es, t)
    requires Fits(t, e) && EdgeEventOk(es, e)
    ensures FlagsShowTree(EventEdges(es, e), if e.NodeSettled? then t else t[e.dst := e.src])
  {
    match e
    case NodeSettled(_) =>
    case EdgeAdded(u, v) =>
      var r := EventEdges(es, e);
      var f := FindEdge(es, u, v).value;
      SameEdgeRecords(es, r);
      forall k | 0 <= k < |r| ensures ShowsTreeAt(r[k], t[v := u]) {
        if Joins(es[k], u, v) {
          UniqueEdge(es, u, v, k);
        }
        AddedShowsTreeAt(es[k], r[k], t, u, v, k == f);
      }
    case EdgeReplaced(p, u, v) =>
      var es1 := MarkEdge(es, p, v, false);
      var r := EventEdges(es, e);
      FindEdgeIgnoresFlags(es1, es, u, v);
      SameEdgeRecords(es, es1);
      SameEdgeRecords(es, r);
      forall k | 0 <= k < |r| ensures ShowsTreeAt(r[k], t[v := u]) {
        if Joins(es[k], u, v) {
          UniqueEdge(es, u, v, k);
        }
        if Joins(es[k], p, v) {
          UniqueEdge(es, p, v, k);
        }
        ReplacedShowsTreeAt(es[k], r[k], t, p, u, v);
      }
  }

  /**
   * Replaying a log whose events fit the tree, from unflagged edges, leaves
   * flagged exactly the edges of the tree the log has drawn.
   */
  lemma {:induction false} ReplayShowsTree(es: seq<Edge>, evs: seq<Event>)
    requires NoDuplicatePairs(es)
    requires forall k :: 0 <= k < |es| ==> !es[k].inS
    requires TreeLog(evs)
    requires forall i :: 0 <= i < |evs| ==> EdgeEventOk(es, evs[i])
    ensures FlagsShowTree(ReplayEdges(es, evs), TreeOf(evs))
  {
    if evs != [] {
      var init, e := evs[..|evs| - 1], evs[|evs| - 1];
      assert TreeLog(init) by {
        forall i | 0 <= i < |init| ensures Fits(TreeOf(init[..i]), init[i]) {
          assert init[..i] == evs[..i];
        }
      }
      ReplayShowsTree(es, init);
      var es' := ReplayEdges(es, init);
      ReplayKeepsRecords([], es, init);
      SameEdgeRecords(es, es');
      if !e.NodeSettled? {
        FindEdgeIgnoresFlags(es', es, e.src, e.dst);
      }
      if e.EdgeReplaced? {
        FindEdgeIgnoresFlags(es', es, e.retracted, e.dst);
      }
      assert Fits(TreeOf(init), e) by {
        assert evs[..|evs| - 1] == init;
      }
      CommitShowsTree(es', TreeOf(init), e);
    }
  }

  /**
   * Replaying a log from unflagged nodes with distinct ids leaves flagged
   * exactly the nodes the log settled.
   */
  lemma {:induction false} ReplayShowsSettled(ns: seq<Node>, evs: seq<Event>)
    requires IdsIncreasing(ns)
    requires forall i :: 0 <= i < |ns| ==> !ns[i].inS
    ensures |ReplayNodes(ns, evs)| == |ns|
    ensures forall i :: 0 <= i < |ns| ==>
      ReplayNodes(ns, evs)[i].id == ns[i].id && (ReplayNodes(ns, evs)[i].inS <==> ns[i].id in SettledOrder(evs))
  {
    if evs != [] {
      var init, e := evs[..|evs| - 1], evs[|evs| - 1];
      ReplayShowsSettled(ns, init);
      var ns' := ReplayNodes(ns, init);
      if e.NodeSettled? {
        var r := MarkNode(ns', e.node, true);
        SameNodeRecords(ns', r);
        forall i | 0 <= i < |ns| ensures r[i].inS <==> ns[i].id in SettledOrder(evs) {
          if ns[i].id == e.node {
            var j := FindNode(ns', e.node).value;
            assert ns'[j].id == ns[j].id;
            assert j == i;
          }
        }
      }
    }
  }

  /** The end of an event's animation(s): the flag commits at app.js:73, app.js:98 and app.js:117. */
  method Commit(g: Graph, e: Event)
    modifies g
    ensures g.nodes == EventNodes(old(g.nodes), e)
    ensures g.edges == EventEdges(old(g.edges), e)
    ensures g.lastNodeId == old(g.lastNodeId)
  {
    match e
    case NodeSettled(u) =>
      g.nodes := MarkNode(g.nodes, u, true);
    case EdgeAdded(u, v) =>
      g.edges := MarkEdge(g.edges, u, v, true);
    case EdgeReplaced(p, u, v) =>
      g.edges := MarkEdge(g.edges, p, v, false);
      g.edges := MarkEdge(g.edges, u, v, true);
  }

  /**
   * The sequencer's dispatch of one event: the event joins the log, and when
   * its animation(s) end the flags are committed, before anything else runs.
   */
  method Animate(g: Graph, log: seq<Event>, e: Event, ghost ns0: seq<Node>, ghost es0: seq<Edge>)
    returns (log': seq<Event>)
    requires g.nodes == ReplayNodes(ns0, log) && g.edges == ReplayEdges(es0, log)
    modifies g
    ensures log' == log + [e]
    ensures g.nodes == ReplayNodes(ns0, log') && g.edges == ReplayEdges(es0, log')
    ensures g.lastNodeId == old(g.lastNodeId)
    ensures SettledOrder(log') == SettledOrder(log) + (if e.NodeSettled? then [e.node] else [])
  {
    Commit(g, e);
    ReplayAppend(ns0, es0, log, e);
    SettledOrderAppend(log, e);
    log' := log + [e];
  }
}
