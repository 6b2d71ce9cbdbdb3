/**
 * The shortest-path engine behind the start button: Dijkstra's method over
 * the dense cost matrix of the current graph, from the selected node, with
 * every awaited animation recorded as an event and committed to the store.
 */
module Dijkstra {
  import opened Wrappers
  import opened ExtNats
  import opened GraphStore
  import opened Animation
  import opened Paths

  /** Every node with a finite distance has a walk from the source of exactly that cost. */
  ghost predicate Witnessed(es: seq<Edge>, ids: seq<nat>, s: nat, dist: map<nat, ExtNat>, paths: map<nat, seq<nat>>)
  {
    forall v :: v in ids && v in dist && dist[v].Fin? ==>
      v in paths && IsPath(ids, s, v, paths[v]) && PathCost(es, paths[v]) == dist[v]
  }

  /**
   * The predecessor map is a tree over the settled nodes: each improved node's
   * distance is its predecessor's plus the edge between them, and every node
   * with a finite distance other than the source has a predecessor.
   */
  ghost predicate Tree(es: seq<Edge>, ids: seq<nat>, s: nat, R: set<nat>, dist: map<nat, ExtNat>, prev: map<nat, nat>)
  {
    (forall v :: v in prev ==>
       v in ids && v in dist && prev[v] in R && prev[v] in dist && dist[v].Fin? &&
       dist[v] == Add(dist[prev[v]], MatrixWeight(es, prev[v], v))) &&
    (forall v :: v in ids && v in dist && dist[v].Fin? && v != s ==> v in prev)
  }

  /** Builds the `(lastNodeId + 1)`-square cost matrix `G` of the edges, `Inf` where no edge is. */
  method BuildMatrix(n: nat, es: seq<Edge>) returns (G: array2<ExtNat>)
    requires forall i :: 0 <= i < |es| ==> es[i].src < n && es[i].dst < n
    ensures fresh(G) && G.Length0 == n && G.Length1 == n
    ensures forall a, b :: 0 <= a < n && 0 <= b < n ==> G[a, b] == MatrixWeight(es, a, b)
  {
    G := new ExtNat[n, n]((a, b) => Inf);
    var k := 0;
    while k < |es|
      invariant 0 <= k <= |es|
      invariant forall a, b :: 0 <= a < n && 0 <= b < n ==> G[a, b] == MatrixWeight(es[..k], a, b)
    {
      var e := es[k];
      assert es[..k + 1][..k] == es[..k];
      G[e.src, e.dst] := Fin(e.cost);
      G[e.dst, e.src] := Fin(e.cost);
      k := k + 1;
    }
    assert es[..k] == es;
  }

  /** `G` is the cost matrix of the edges `es`, and every id of `ids` indexes it. */
  ghost predicate IsMatrixOf(G: array2<ExtNat>, es: seq<Edge>, ids: seq<nat>)
    reads G
  {
    G.Length0 == G.Length1 &&
    (forall v :: v in ids ==> v < G.Length0) &&
    (forall a, b :: 0 <= a < G.Length0 && 0 <= b < G.Length1 ==> G[a, b] == MatrixWeight(es, a, b))
  }

  /** `allNodeId`: the node ids in list order. */
  method CollectIds(ns: seq<Node>) returns (ids: seq<nat>)
    ensures ids == Ids(ns)
  {
    ids := [];
    for k := 0 to |ns|
      invariant |ids| == k
      invariant forall i :: 0 <= i < k ==> ids[i] == ns[i].id
    {
      ids := ids + [ns[k].id];
    }
  }

  /** `distant`: every node at `Inf`, then the source at 0. */
  method InitDistances(ns: seq<Node>, entry: nat) returns (dist: map<nat, ExtNat>)
    ensures forall v :: v in dist <==> v in Ids(ns) || v == entry
    ensures forall v :: v in dist ==> dist[v] == if v == entry then Fin(0) else Inf
  {
    dist := map[];
    for k := 0 to |ns|
      invariant forall v :: v in dist <==> exists i :: 0 <= i < k && ns[i].id == v
      invariant forall v :: v in dist ==> dist[v] == Inf
    {
      dist := dist[ns[k].id := Inf];
    }
    dist := dist[entry := Fin(0)];
    forall v | v in Ids(ns) ensures v in dist {
      var i :| 0 <= i < |ns| && Ids(ns)[i] == v;
    }
  }

  /**
   * The scan for the next node to settle: the unsettled node of least distance,
   * `Inf` if every unsettled node is at `Inf`. Because the scan compares with
   * `<=`, ties go to the last candidate in list order.
   */
  method SelectMin(ids: seq<nat>, R: set<nat>, dist: map<nat, ExtNat>) returns (u: Option<nat>, minD: ExtNat)
    requires forall v :: v in ids ==> v in dist
    ensures u.None? ==> minD == Inf
    ensures u.None? <==> forall v :: v in ids ==> v in R
    ensures u.Some? ==> u.value in ids && u.value !in R && dist[u.value] == minD
    ensures forall v :: v in ids && v !in R ==> Le(minD, dist[v])
    ensures u.Some? ==>
      exists k :: (0 <= k < |ids| && ids[k] == u.value &&
                   forall j :: k < j < |ids| && ids[j] !in R ==> Lt(minD, dist[ids[j]]))
  {
    u, minD := None, Inf;
    ghost var pos := 0;
    for i := 0 to |ids|
      invariant u.None? ==> minD == Inf && forall j :: 0 <= j < i ==> ids[j] in R
      invariant u.Some? ==> 0 <= pos < i && ids[pos] == u.value && u.value !in R && dist[u.value] == minD
      invariant forall j :: 0 <= j < i && ids[j] !in R ==> Le(minD, dist[ids[j]])
      invariant u.Some? ==> forall j :: pos < j < i && ids[j] !in R ==> Lt(minD, dist[ids[j]])
    {
      var v := ids[i];
      if v !in R && Le(dist[v], minD) {
        u, minD := Some(v), dist[v];
        pos := i;
      }
    }
  }

  /** Through the relaxation pass over `u`, `y` kept its distance, predecessor and witness walk. */
  ghost predicate Kept(y: nat, dist0: map<nat, ExtNat>, prev0: map<nat, nat>, paths0: map<nat, seq<nat>>,
                       dist: map<nat, ExtNat>, prev: map<nat, nat>, paths: map<nat, seq<nat>>)
  {
    y in dist0 && y in dist && dist[y] == dist0[y] &&
    (y in prev <==> y in prev0) && (y in prev ==> prev[y] == prev0[y]) &&
    (y in paths <==> y in paths0) && (y in paths ==> paths[y] == paths0[y])
  }

  /**
   * Through the relaxation pass over `u`, the unsettled `y` strictly improved to
   * `dist[u] + G[u][y]`, with `u` as its predecessor and `u`'s walk extended by `y`.
   */
  ghost predicate ImprovedVia(es: seq<Edge>, ids: seq<nat>, R: set<nat>, u: nat, y: nat,
                              dist0: map<nat, ExtNat>, paths0: map<nat, seq<nat>>,
                              dist: map<nat, ExtNat>, prev: map<nat, nat>, paths: map<nat, seq<nat>>)
  {
    u in dist0 && u in paths0 && y in dist0 && y in ids && y !in R &&
    y in dist && dist[y] == Add(dist0[u], MatrixWeight(es, u, y)) && Lt(dist[y], dist0[y]) &&
    y in prev && prev[y] == u && y in paths && paths[y] == paths0[u] + [y]
  }

  /** Every event of `added` is an edge event growing an edge from `u`. */
  predicate EdgeEventsFrom(es: seq<Edge>, u: nat, added: seq<Event>)
  {
    forall i :: 0 <= i < |added| ==> !added[i].NodeSettled? && added[i].src == u && EdgeEventOk(es, added[i])
  }

  /** The tree-edge event for `v` improving via `u`: a first tree edge, or the replacement of `prev[v]`'s. */
  function TreeEvent(prev: map<nat, nat>, u: nat, v: nat): (r: Event)
  {
    if v in prev then EdgeReplaced(prev[v], u, v) else EdgeAdded(u, v)
  }

  /**
   * Through the pass over `u`, the events drawing into `y` are none when `y`
   * kept its distance and exactly its tree-edge event when it improved.
   */
  ghost predicate AnnouncedOnce(added: seq<Event>, u: nat, prev0: map<nat, nat>,
                                dist0: map<nat, ExtNat>, dist: map<nat, ExtNat>)
  {
    forall y :: y in dist0 && y in dist ==>
      EventsInto(added, y) == if dist[y] == dist0[y] then [] else [TreeEvent(prev0, u, y)]
  }

  /** The ids strictly increase, as the ids of a well-formed node list do, so none occurs twice. */
  predicate Increasing(ids: seq<nat>)
  {
    forall i, j :: 0 <= i < j < |ids| ==> ids[i] < ids[j]
  }

  /**
   * The events the pass over `u` logs while it visits the nodes `vs` in order:
   * the tree-edge event of each node whose distance improved from `dist0` to `dist`.
   */
  function PassEvents(vs: seq<nat>, u: nat, prev0: map<nat, nat>,
                      dist0: map<nat, ExtNat>, dist: map<nat, ExtNat>): (r: seq<Event>)
    ensures forall i :: 0 <= i < |r| ==> !r[i].NodeSettled? && r[i].src == u && r[i].dst in vs
  {
    if vs == [] then []
    else
      var v := vs[|vs| - 1];
      PassEvents(vs[..|vs| - 1], u, prev0, dist0, dist) +
      if v in dist0 && v in dist && dist[v] != dist0[v] then [TreeEvent(prev0, u, v)] else []
  }

  /** The events over `vs` read only the distances of the nodes of `vs`. */
  lemma {:induction false} PassEventsFrame(vs: seq<nat>, u: nat, prev0: map<nat, nat>,
                                          dist0: map<nat, ExtNat>, dist: map<nat, ExtNat>, v: nat, d: ExtNat)
    requires v !in vs
    ensures PassEvents(vs, u, prev0, dist0, dist[v := d]) == PassEvents(vs, u, prev0, dist0, dist)
  {
    if vs != [] {
      PassEventsFrame(vs[..|vs| - 1], u, prev0, dist0, dist, v, d);
    }
  }

  /** Visiting the nodes in increasing id order, the pass logs its edge events into increasing ids. */
  lemma {:induction false} PassEventsAscend(vs: seq<nat>, u: nat, prev0: map<nat, nat>,
                                           dist0: map<nat, ExtNat>, dist: map<nat, ExtNat>)
    requires Increasing(vs)
    ensures TargetsAscend(PassEvents(vs, u, prev0, dist0, dist))
  {
    if vs != [] {
      var init, v := vs[..|vs| - 1], vs[|vs| - 1];
      PassEventsAscend(init, u, prev0, dist0, dist);
      var a := PassEvents(init, u, prev0, dist0, dist);
      var b := if v in dist0 && v in dist && dist[v] != dist0[v] then [TreeEvent(prev0, u, v)] else [];
      if a != [] && b != [] {
        var j :| 0 <= j < |init| && init[j] == a[|a| - 1].dst;
        assert a[|a| - 1].dst < b[0].dst;
      }
      TargetsAscendConcat(a, b);
    }
  }

  /**
   * The log of the pass over `u` after its first `k` steps, in order: exactly
   * the events of the first `k` nodes, with the nodes still to come untouched.
   */
  ghost predicate PassOrder(ids: seq<nat>, u: nat, k: nat, prev0: map<nat, nat>,
                            dist0: map<nat, ExtNat>, dist: map<nat, ExtNat>, added: seq<Event>)
  {
    k <= |ids| &&
    (forall j :: k <= j < |ids| ==> ids[j] in dist0 && ids[j] in dist && dist[ids[j]] == dist0[ids[j]]) &&
    added == PassEvents(ids[..k], u, prev0, dist0, dist)
  }

  /** One step of the pass appends the event of `ids[k]`, if any, after those of the nodes before it. */
  lemma StepOrder(ids: seq<nat>, R: set<nat>, u: nat, k: nat, alt: ExtNat,
                  prev0: map<nat, nat>, dist0: map<nat, ExtNat>, dist: map<nat, ExtNat>,
                  added: seq<Event>, dist': map<nat, ExtNat>, added': seq<Event>)
    requires k < |ids| && Increasing(ids)
    requires PassOrder(ids, u, k, prev0, dist0, dist, added)
    requires var v := ids[k];
      if v !in R && Lt(alt, dist[v]) then
        dist' == dist[v := alt] && added' == added + [TreeEvent(prev0, u, v)]
      else
        dist' == dist && added' == added
    ensures PassOrder(ids, u, k + 1, prev0, dist0, dist', added')
  {
    var v := ids[k];
    assert ids[..k + 1][..k] == ids[..k] && ids[..k + 1][k] == v;
    if v !in R && Lt(alt, dist[v]) {
      assert v !in ids[..k];
      PassEventsFrame(ids[..k], u, prev0, dist0, dist, v, alt);
    }
  }

  /**
   * What the relaxation pass over the settled `u` does to the distances:
   * settled ones are unchanged, and each unsettled `y` keeps its distance or
   * takes `dist[u] + G[u][y]`, whichever is less.
   */
  ghost predicate PassOver(es: seq<Edge>, ids: seq<nat>, R: set<nat>, u: nat,
                           dist0: map<nat, ExtNat>, dist: map<nat, ExtNat>)
  {
    u in dist0 &&
    (forall v :: v in dist <==> v in dist0) &&
    (forall x :: x in R && x in dist0 ==> dist[x] == dist0[x]) &&
    (forall y :: y in ids && y !in R && y in dist0 ==>
       Le(dist[y], dist0[y]) && Le(dist[y], Add(dist0[u], MatrixWeight(es, u, y))) &&
       (dist[y] == dist0[y] || dist[y] == Add(dist0[u], MatrixWeight(es, u, y))))
  }

  /**
   * The relaxation pass after settling `u`: every unsettled `v` whose distance
   * `dist[u] + G[u][v]` improves takes it; a first improvement emits
   * `EdgeAdded(u, v)`, a later one the paired `EdgeReplaced(prev[v], u, v)`,
   * and either way `prev[v]` becomes `u`. Distances never increase.
   */
  method Relax(g: Graph, G: array2<ExtNat>, ids: seq<nat>, R: set<nat>, u: nat,
               dist0: map<nat, ExtNat>, prev0: map<nat, nat>, events0: seq<Event>,
               ghost es: seq<Edge>, ghost ns0: seq<Node>, ghost entry: nat, ghost paths0: map<nat, seq<nat>>)
    returns (dist: map<nat, ExtNat>, prev: map<nat, nat>, events: seq<Event>, ghost paths: map<nat, seq<nat>>)
    requires IsMatrixOf(G, es, ids)
    requires forall v :: v in ids ==> v in dist0
    requires u in R && forall x :: x in R ==> x in ids
    requires dist0[u].Fin?
    requires Tree(es, ids, entry, R, dist0, prev0)
    requires Witnessed(es, ids, entry, dist0, paths0)
    requires g.nodes == ReplayNodes(ns0, events0) && g.edges == ReplayEdges(es, events0)
    requires forall i :: 0 <= i < |events0| ==> EdgeEventOk(es, events0[i])
    requires prev0 == TreeOf(events0) && TreeLog(events0)
    // `u` was settled last, and the log so far is in order
    requires SettledLast(events0, u, R) && PassesInOrder(events0)
    // `allNodeId` is visited in node-list order, which is increasing id order
    requires Increasing(ids)
    modifies g
    ensures g.lastNodeId == old(g.lastNodeId)
    ensures g.nodes == ReplayNodes(ns0, events) && g.edges == ReplayEdges(es, events)
    ensures PassesInOrder(events)
    // the pass logs exactly the tree-edge events of the nodes it improves, in the order it visits them
    ensures |events| >= |events0| && events[|events0|..] == PassEvents(ids, u, prev0, dist0, dist)
    ensures PassOver(es, ids, R, u, dist0, dist)
    ensures prev == TreeOf(events) && TreeLog(events)
    // each node that improved gets `u` as predecessor and exactly one event; the others none
    ensures |events| >= |events0| && AnnouncedOnce(events[|events0|..], u, prev0, dist0, dist)
    ensures forall y :: y in dist0 && dist[y] != dist0[y] ==> y in prev && prev[y] == u
    ensures forall x :: x in R ==> (x in prev <==> x in prev0) && (x in prev ==> prev[x] == prev0[x])
    ensures Tree(es, ids, entry, R, dist, prev)
    ensures Witnessed(es, ids, entry, dist, paths)
    ensures |events| >= |events0| && events[..|events0|] == events0
    ensures EdgeEventsFrom(es, u, events[|events0|..])
    ensures SettledOrder(events) == SettledOrder(events0)
    ensures forall i :: 0 <= i < |events| ==> EdgeEventOk(es, events[i])
  {
    dist, prev, events, paths := dist0, prev0, events0, paths0;
    ghost var added: seq<Event> := [];
    PassStart(es, ids, entry, R, u, dist0, prev0, paths0, events0);
    for k := 0 to |ids|
      invariant g.lastNodeId == old(g.lastNodeId)
      invariant g.nodes == ReplayNodes(ns0, events) && g.edges == ReplayEdges(es, events)
      invariant PassState(es, ids, R, u, k, dist0, prev0, paths0, events0, dist, prev, paths, events, added)
      invariant PassOrder(ids, u, k, prev0, dist0, dist, added)
    {
      ghost var dist_, added_ := dist, added;
      dist, prev, events, added, paths :=
        RelaxAt(g, G, ids, R, u, k, dist, prev, events, es, ns0, entry, dist0, prev0, paths0, events0, added, paths);
      StepOrder(ids, R, u, k, Add(dist0[u], MatrixWeight(es, u, ids[k])), prev0, dist0, dist_, added_, dist, added);
    }
    PassDone(es, ids, entry, R, u, dist0, prev0, paths0, events0, dist, prev, paths, events, added);
  }

  /** Before its first step the pass has changed nothing and logged nothing. */
  lemma PassStart(es: seq<Edge>, ids: seq<nat>, s: nat, R: set<nat>, u: nat,
                  dist0: map<nat, ExtNat>, prev0: map<nat, nat>, paths0: map<nat, seq<nat>>, events0: seq<Event>)
    requires u in dist0 && forall v :: v in ids ==> v in dist0
    requires Tree(es, ids, s, R, dist0, prev0)
    requires prev0 == TreeOf(events0) && TreeLog(events0)
    requires SettledLast(events0, u, R) && PassesInOrder(events0)
    ensures PassState(es, ids, R, u, 0, dist0, prev0, paths0, events0, dist0, prev0, paths0, events0, [])
    ensures PassOrder(ids, u, 0, prev0, dist0, dist0, [])
  {
    assert events0 + [] == events0;
    assert ids[..0] == [];
  }

  /** After its last step the pass has relaxed every unsettled node over `u` and logged one event per improvement. */
  lemma PassDone(es: seq<Edge>, ids: seq<nat>, s: nat, R: set<nat>, u: nat,
                 dist0: map<nat, ExtNat>, prev0: map<nat, nat>, paths0: map<nat, seq<nat>>, events0: seq<Event>,
                 dist: map<nat, ExtNat>, prev: map<nat, nat>, paths: map<nat, seq<nat>>,
                 events: seq<Event>, added: seq<Event>)
    requires forall v :: v in ids ==> v in dist0
    requires u in R && forall x :: x in R ==> x in ids
    requires dist0[u].Fin?
    requires Tree(es, ids, s, R, dist0, prev0)
    requires Witnessed(es, ids, s, dist0, paths0)
    requires forall i :: 0 <= i < |events0| ==> EdgeEventOk(es, events0[i])
    requires PassState(es, ids, R, u, |ids|, dist0, prev0, paths0, events0, dist, prev, paths, events, added)
    requires PassOrder(ids, u, |ids|, prev0, dist0, dist, added)
    ensures PassOver(es, ids, R, u, dist0, dist)
    ensures prev == TreeOf(events) && TreeLog(events)
    ensures |events| >= |events0| && AnnouncedOnce(events[|events0|..], u, prev0, dist0, dist)
    ensures forall y :: y in dist0 && dist[y] != dist0[y] ==> y in prev && prev[y] == u
    ensures forall x :: x in R ==> (x in prev <==> x in prev0) && (x in prev ==> prev[x] == prev0[x])
    ensures Tree(es, ids, s, R, dist, prev)
    ensures Witnessed(es, ids, s, dist, paths)
    ensures events[..|events0|] == events0
    ensures EdgeEventsFrom(es, u, events[|events0|..])
    ensures SettledOrder(events) == SettledOrder(events0) && PassesInOrder(events)
    ensures forall i :: 0 <= i < |events| ==> EdgeEventOk(es, events[i])
    ensures events[|events0|..] == PassEvents(ids, u, prev0, dist0, dist)
  {
    assert events[|events0|..] == added;
    assert ids[..|ids|] == ids;
    assert events[..|events0|] == events0;
    RelaxDistances(es, ids, R, u, dist0, prev0, paths0, dist, prev, paths);
    RelaxKeepsTree(es, ids, s, R, u, dist0, prev0, paths0, dist, prev, paths);
    RelaxKeepsWitnessed(es, ids, s, R, u, dist0, prev0, paths0, dist, prev, paths);
    RelaxPrev(es, ids, R, u, dist0, prev0, paths0, dist, prev, paths);
    forall i | 0 <= i < |events| ensures EdgeEventOk(es, events[i]) {
      if i >= |events0| {
        assert events[i] == added[i - |events0|];
      }
    }
  }

  /**
   * The state of the pass over `u` after its first `k` steps: the events added
   * so far are edge events from `u` that fit the tree they draw, each node kept
   * its distance or improved strictly via `u` (and then has exactly one event),
   * and the first `k` nodes are relaxed over `u`.
   */
  ghost predicate PassState(es: seq<Edge>, ids: seq<nat>, R: set<nat>, u: nat, k: nat,
                            dist0: map<nat, ExtNat>, prev0: map<nat, nat>, paths0: map<nat, seq<nat>>,
                            events0: seq<Event>, dist: map<nat, ExtNat>, prev: map<nat, nat>,
                            paths: map<nat, seq<nat>>, events: seq<Event>, added: seq<Event>)
  {
    PassMaps(es, ids, R, u, k, dist0, prev0, paths0, dist, prev, paths) &&
    PassLog(es, R, u, prev0, dist0, events0, dist, prev, events, added)
  }

  /** The maps of the pass: each node kept its distance or improved via `u`, and the first `k` are relaxed over `u`. */
  ghost predicate PassMaps(es: seq<Edge>, ids: seq<nat>, R: set<nat>, u: nat, k: nat,
                           dist0: map<nat, ExtNat>, prev0: map<nat, nat>, paths0: map<nat, seq<nat>>,
                           dist: map<nat, ExtNat>, prev: map<nat, nat>, paths: map<nat, seq<nat>>)
  {
    k <= |ids| && u in dist0 && (forall v :: v in ids ==> v in dist0) &&
    (forall v :: v in dist <==> v in dist0) &&
    (forall y :: y in prev ==> y in dist0) &&
    (forall y :: y in dist0 ==>
       Kept(y, dist0, prev0, paths0, dist, prev, paths) || ImprovedVia(es, ids, R, u, y, dist0, paths0, dist, prev, paths)) &&
    (forall j :: 0 <= j < k && ids[j] !in R ==> Le(dist[ids[j]], Add(dist0[u], MatrixWeight(es, u, ids[j]))))
  }

  /** The log of the pass: edge events from `u` that draw `prev`, one for each node that improved. */
  ghost predicate PassLog(es: seq<Edge>, R: set<nat>, u: nat, prev0: map<nat, nat>, dist0: map<nat, ExtNat>,
                          events0: seq<Event>, dist: map<nat, ExtNat>, prev: map<nat, nat>,
                          events: seq<Event>, added: seq<Event>)
  {
    SettledLast(events0, u, R) &&
    events == events0 + added && EdgeEventsFrom(es, u, added) &&
    SettledOrder(events) == SettledOrder(events0) && PassesInOrder(events) &&
    prev == TreeOf(events) && TreeLog(events) &&
    AnnouncedOnce(added, u, prev0, dist0, dist)
  }

  /** `u` is the node the log settled last, and every node it settled is in `R`. */
  ghost predicate SettledLast(events: seq<Event>, u: nat, R: set<nat>)
  {
    var order := SettledOrder(events);
    |order| > 0 && order[|order| - 1] == u && forall x :: x in order ==> x in R
  }


  /** One step of the relaxation pass: `v = ids[k]` improves via `u` when it is unsettled and strictly closer. */
  method RelaxAt(g: Graph, G: array2<ExtNat>, ids: seq<nat>, R: set<nat>, u: nat, k: nat,
                 dist: map<nat, ExtNat>, prev: map<nat, nat>, events: seq<Event>,
                 ghost es: seq<Edge>, ghost ns0: seq<Node>, ghost entry: nat,
                 ghost dist0: map<nat, ExtNat>, ghost prev0: map<nat, nat>, ghost paths0: map<nat, seq<nat>>,
                 ghost events0: seq<Event>, ghost added: seq<Event>, ghost paths: map<nat, seq<nat>>)
    returns (dist': map<nat, ExtNat>, prev': map<nat, nat>, events': seq<Event>,
             ghost added': seq<Event>, ghost paths': map<nat, seq<nat>>)
    requires k < |ids| && Increasing(ids)
    requires IsMatrixOf(G, es, ids)
    requires forall v :: v in ids ==> v in dist0
    requires u in R && u in ids && u in dist0 && u in paths0 && dist0[u].Fin?
    requires Tree(es, ids, entry, R, dist0, prev0)
    requires g.nodes == ReplayNodes(ns0, events) && g.edges == ReplayEdges(es, events)
    requires PassState(es, ids, R, u, k, dist0, prev0, paths0, events0, dist, prev, paths, events, added)
    modifies g
    ensures g.lastNodeId == old(g.lastNodeId)
    ensures g.nodes == ReplayNodes(ns0, events') && g.edges == ReplayEdges(es, events')
    ensures PassState(es, ids, R, u, k + 1, dist0, prev0, paths0, events0, dist', prev', paths', events', added')
    // the step improves `v` only when it is unsettled and strictly closer via `u`; a first
    // improvement grows a tree edge, a later one replaces the tree edge from `prev[v]`
    ensures var v, alt := ids[k], Add(dist0[u], MatrixWeight(es, u, ids[k]));
      v in dist &&
      if v !in R && Lt(alt, dist[v]) then
        dist' == dist[v := alt] && prev' == prev[v := u] &&
        events' == events + [TreeEvent(prev, u, v)] && added' == added + [TreeEvent(prev0, u, v)]
      else
        dist' == dist && prev' == prev && events' == events && added' == added
  {
    dist', prev', events', added', paths' := dist, prev, events, added, paths;
    var v := ids[k];
    PassFacts(es, ids, R, u, k, dist0, prev0, paths0, events0, dist, prev, paths, events, added);
    assert v in ids;
    var alt := Add(dist[u], G[u, v]);
    if v !in R && Lt(alt, dist[v]) {
      var e := if v in prev then EdgeReplaced(prev[v], u, v) else EdgeAdded(u, v);
      events' := Animate(g, events, e, ns0, es);
      added' := added + [e];
      dist' := dist[v := alt];
      prev' := prev[v := u];
      paths' := paths[v := paths[u] + [v]];
    }
    assert PassState(es, ids, R, u, k + 1, dist0, prev0, paths0, events0, dist', prev', paths', events', added') by {
      StepState(es, ids, entry, R, u, k, dist0, prev0, paths0, events0, dist, prev, paths, events, added,
                dist', prev', paths', events', added');
    }
  }

  /** What one step of the pass reads from its state: `u` kept its distance and walk, and `ids[k]` has a distance. */
  lemma PassFacts(es: seq<Edge>, ids: seq<nat>, R: set<nat>, u: nat, k: nat,
                  dist0: map<nat, ExtNat>, prev0: map<nat, nat>, paths0: map<nat, seq<nat>>,
                  events0: seq<Event>, dist: map<nat, ExtNat>, prev: map<nat, nat>,
                  paths: map<nat, seq<nat>>, events: seq<Event>, added: seq<Event>)
    requires k < |ids|
    requires forall v :: v in ids ==> v in dist0
    requires u in R && u in dist0 && u in paths0
    requires PassState(es, ids, R, u, k, dist0, prev0, paths0, events0, dist, prev, paths, events, added)
    ensures Kept(u, dist0, prev0, paths0, dist, prev, paths) && u in paths
    ensures ids[k] in dist
    ensures ids[k] !in R && Lt(Add(dist0[u], MatrixWeight(es, u, ids[k])), dist[ids[k]]) ==>
      Kept(ids[k], dist0, prev0, paths0, dist, prev, paths)
  {
    assert ids[k] in dist0;
  }

  /** One step of the pass keeps its state, one node further on. */
  lemma StepState(es: seq<Edge>, ids: seq<nat>, s: nat, R: set<nat>, u: nat, k: nat,
                  dist0: map<nat, ExtNat>, prev0: map<nat, nat>, paths0: map<nat, seq<nat>>, events0: seq<Event>,
                  dist: map<nat, ExtNat>, prev: map<nat, nat>, paths: map<nat, seq<nat>>,
                  events: seq<Event>, added: seq<Event>,
                  dist': map<nat, ExtNat>, prev': map<nat, nat>, paths': map<nat, seq<nat>>,
                  events': seq<Event>, added': seq<Event>)
    requires k < |ids|
    requires forall v :: v in ids ==> v in dist0
    requires u in R && u in dist0 && u in paths0 && dist0[u].Fin?
    requires Tree(es, ids, s, R, dist0, prev0)
    requires PassState(es, ids, R, u, k, dist0, prev0, paths0, events0, dist, prev, paths, events, added)
    requires Kept(u, dist0, prev0, paths0, dist, prev, paths)
    requires var v, alt := ids[k], Add(dist0[u], MatrixWeight(es, u, ids[k]));
      v in dist &&
      if v !in R && Lt(alt, dist[v]) then
        dist' == dist[v := alt] && prev' == prev[v := u] && paths' == paths[v := paths[u] + [v]] &&
        events' == events + [TreeEvent(prev, u, v)] && added' == added + [TreeEvent(prev, u, v)]
      else
        dist' == dist && prev' == prev && paths' == paths && events' == events && added' == added
    ensures PassState(es, ids, R, u, k + 1, dist0, prev0, paths0, events0, dist', prev', paths', events', added')
  {
    StepMaps(es, ids, R, u, k, dist0, prev0, paths0, dist, prev, paths, dist', prev', paths');
    StepLog(es, ids, s, R, u, k, dist0, prev0, paths0, events0, dist, prev, paths, events, added, dist', prev', events', added');
  }

  /** One step of the pass keeps its log an account of the tree, one node further on. */
  lemma StepLog(es: seq<Edge>, ids: seq<nat>, s: nat, R: set<nat>, u: nat, k: nat,
                dist0: map<nat, ExtNat>, prev0: map<nat, nat>, paths0: map<nat, seq<nat>>, events0: seq<Event>,
                dist: map<nat, ExtNat>, prev: map<nat, nat>, paths: map<nat, seq<nat>>,
                events: seq<Event>, added: seq<Event>,
                dist': map<nat, ExtNat>, prev': map<nat, nat>, events': seq<Event>, added': seq<Event>)
    requires k < |ids|
    requires forall v :: v in ids ==> v in dist0
    requires u in R && u in dist0
    requires Tree(es, ids, s, R, dist0, prev0)
    requires PassMaps(es, ids, R, u, k, dist0, prev0, paths0, dist, prev, paths)
    requires PassLog(es, R, u, prev0, dist0, events0, dist, prev, events, added)
    requires var v, alt := ids[k], Add(dist0[u], MatrixWeight(es, u, ids[k]));
      if v !in R && Lt(alt, dist[v]) then
        dist' == dist[v := alt] && prev' == prev[v := u] &&
        events' == events + [TreeEvent(prev, u, v)] && added' == added + [TreeEvent(prev, u, v)]
      else
        dist' == dist && prev' == prev && events' == events && added' == added
    ensures PassLog(es, R, u, prev0, dist0, events0, dist', prev', events', added')
  {
    var v, alt := ids[k], Add(dist0[u], MatrixWeight(es, u, ids[k]));
    if v !in R && Lt(alt, dist[v]) {
      assert Kept(v, dist0, prev0, paths0, dist, prev, paths);
      StepEvent(es, ids, s, R, u, v, dist0, prev0, events0, dist, prev, events, added);
    }
    LogStep(es, ids, s, R, u, k, dist0, prev0, paths0, dist, prev, paths, events, added, dist', prev', events', added');
  }

  /** The event of an improving step is an edge event from `u` on the store, and leaves the settled order alone. */
  lemma StepEvent(es: seq<Edge>, ids: seq<nat>, s: nat, R: set<nat>, u: nat, v: nat,
                  dist0: map<nat, ExtNat>, prev0: map<nat, nat>, events0: seq<Event>,
                  dist: map<nat, ExtNat>, prev: map<nat, nat>, events: seq<Event>, added: seq<Event>)
    requires u in dist0 && v in dist0 && v in dist
    requires Tree(es, ids, s, R, dist0, prev0)
    requires dist[v] == dist0[v] && (v in prev <==> v in prev0) && (v in prev ==> prev[v] == prev0[v])
    requires Lt(Add(dist0[u], MatrixWeight(es, u, v)), dist[v])
    requires v !in R && SettledLast(events0, u, R)
    requires events == events0 + added && EdgeEventsFrom(es, u, added)
    requires SettledOrder(events) == SettledOrder(events0) && PassesInOrder(events)
    ensures EdgeEventsFrom(es, u, added + [TreeEvent(prev, u, v)])
    ensures PassesInOrder(events + [TreeEvent(prev, u, v)])
    ensures events + [TreeEvent(prev, u, v)] == events0 + (added + [TreeEvent(prev, u, v)])
    ensures SettledOrder(events + [TreeEvent(prev, u, v)]) == SettledOrder(events0)
  {
    var e := TreeEvent(prev, u, v);
    FiniteWeightHasEdge(es, u, v);
    if v in prev {
      ReplacedEdgeOk(es, ids, s, R, dist0, prev0, u, v);
    }
    EdgeEventsAppend(es, u, added, e);
    SettledOrderAppend(events, e);
    PassesInOrderAppend(events, e);
  }

  /**
   * The log after one step of the pass: it still draws `prev`, each event fits
   * the tree drawn before it, and each node has the events its distance calls for.
   */
  lemma LogStep(es: seq<Edge>, ids: seq<nat>, s: nat, R: set<nat>, u: nat, k: nat,
                dist0: map<nat, ExtNat>, prev0: map<nat, nat>, paths0: map<nat, seq<nat>>,
                dist: map<nat, ExtNat>, prev: map<nat, nat>, paths: map<nat, seq<nat>>,
                events: seq<Event>, added: seq<Event>,
                dist': map<nat, ExtNat>, prev': map<nat, nat>, events': seq<Event>, added': seq<Event>)
    requires k < |ids|
    requires forall v :: v in ids ==> v in dist0
    requires u in R && u in dist0
    requires Tree(es, ids, s, R, dist0, prev0)
    requires forall v :: v in dist <==> v in dist0
    requires forall y :: y in prev ==> y in dist0
    requires forall y :: y in dist0 ==>
      Kept(y, dist0, prev0, paths0, dist, prev, paths) || ImprovedVia(es, ids, R, u, y, dist0, paths0, dist, prev, paths)
    requires prev == TreeOf(events) && TreeLog(events)
    requires AnnouncedOnce(added, u, prev0, dist0, dist)
    requires var v, alt := ids[k], Add(dist0[u], MatrixWeight(es, u, ids[k]));
      if v !in R && Lt(alt, dist[v]) then
        dist' == dist[v := alt] && prev' == prev[v := u] &&
        events' == events + [TreeEvent(prev, u, v)] && added' == added + [TreeEvent(prev, u, v)]
      else
        dist' == dist && prev' == prev && events' == events && added' == added
    ensures prev' == TreeOf(events') && TreeLog(events')
    ensures AnnouncedOnce(added', u, prev0, dist0, dist')
  {
    var v, alt := ids[k], Add(dist0[u], MatrixWeight(es, u, ids[k]));
    if v !in R && Lt(alt, dist[v]) {
      var e := TreeEvent(prev, u, v);
      assert Kept(v, dist0, prev0, paths0, dist, prev, paths);
      ImprovedNotAParent(es, ids, R, u, v, dist0, prev0, paths0, dist, prev, paths);
      TreeLogAppend(events, e);
      AnnounceStep(added, e, u, v, alt, prev0, dist0, dist);
    }
  }

  /** An unsettled node is no node's predecessor: predecessors are settled. */
  lemma ImprovedNotAParent(es: seq<Edge>, ids: seq<nat>, R: set<nat>, u: nat, v: nat,
                           dist0: map<nat, ExtNat>, prev0: map<nat, nat>, paths0: map<nat, seq<nat>>,
                           dist: map<nat, ExtNat>, prev: map<nat, nat>, paths: map<nat, seq<nat>>)
    requires u in R && v !in R
    requires forall w :: w in prev0 ==> prev0[w] in R
    requires forall y :: y in prev ==> y in dist0
    requires forall y :: y in dist0 ==>
      Kept(y, dist0, prev0, paths0, dist, prev, paths) || ImprovedVia(es, ids, R, u, y, dist0, paths0, dist, prev, paths)
    ensures NotAParent(prev, v)
  {
    forall w | w in prev ensures prev[w] != v {
      if Kept(w, dist0, prev0, paths0, dist, prev, paths) {
        assert prev0[w] in R;
      }
    }
  }

  /** The first improvement of `v` in the pass appends its tree-edge event and no other. */
  lemma AnnounceStep(added: seq<Event>, e: Event, u: nat, v: nat, alt: ExtNat,
                     prev0: map<nat, nat>, dist0: map<nat, ExtNat>, dist: map<nat, ExtNat>)
    requires AnnouncedOnce(added, u, prev0, dist0, dist)
    requires v in dist0 && v in dist && dist[v] == dist0[v] && alt != dist0[v]
    requires e == TreeEvent(prev0, u, v)
    ensures AnnouncedOnce(added + [e], u, prev0, dist0, dist[v := alt])
  {
    EventsIntoAppend(added, e);
  }

  /** After the pass, improved nodes have `u` as predecessor and settled nodes keep theirs. */
  lemma RelaxPrev(es: seq<Edge>, ids: seq<nat>, R: set<nat>, u: nat,
                  dist0: map<nat, ExtNat>, prev0: map<nat, nat>, paths0: map<nat, seq<nat>>,
                  dist: map<nat, ExtNat>, prev: map<nat, nat>, paths: map<nat, seq<nat>>)
    requires forall v :: v in ids ==> v in dist0
    requires forall x :: x in R ==> x in ids
    requires forall y :: y in dist0 ==>
      Kept(y, dist0, prev0, paths0, dist, prev, paths) || ImprovedVia(es, ids, R, u, y, dist0, paths0, dist, prev, paths)
    ensures forall y :: y in dist0 && y in dist && dist[y] != dist0[y] ==> y in prev && prev[y] == u
    ensures forall x :: x in R ==> (x in prev <==> x in prev0) && (x in prev ==> prev[x] == prev0[x])
  {
    forall x | x in R ensures (x in prev <==> x in prev0) && (x in prev ==> prev[x] == prev0[x]) {
      assert Kept(x, dist0, prev0, paths0, dist, prev, paths);
    }
  }

  /**
   * The maps after one step of the pass: `ids[k]` improves via `u` exactly
   * when it is unsettled and strictly closer through `u`.
   */
  lemma StepMaps(es: seq<Edge>, ids: seq<nat>, R: set<nat>, u: nat, k: nat,
                 dist0: map<nat, ExtNat>, prev0: map<nat, nat>, paths0: map<nat, seq<nat>>,
                 dist: map<nat, ExtNat>, prev: map<nat, nat>, paths: map<nat, seq<nat>>,
                 dist': map<nat, ExtNat>, prev': map<nat, nat>, paths': map<nat, seq<nat>>)
    requires k < |ids|
    requires forall v :: v in ids ==> v in dist0
    requires u in R && u in dist0 && u in paths0
    requires forall v :: v in dist <==> v in dist0
    requires forall y :: y in prev ==> y in dist0
    requires forall y :: y in dist0 ==>
      Kept(y, dist0, prev0, paths0, dist, prev, paths) || ImprovedVia(es, ids, R, u, y, dist0, paths0, dist, prev, paths)
    requires forall j :: 0 <= j < k && ids[j] !in R ==> Le(dist[ids[j]], Add(dist0[u], MatrixWeight(es, u, ids[j])))
    requires Kept(u, dist0, prev0, paths0, dist, prev, paths)
    requires var v, alt := ids[k], Add(dist0[u], MatrixWeight(es, u, ids[k]));
      if v !in R && Lt(alt, dist[v]) then
        dist' == dist[v := alt] && prev' == prev[v := u] && paths' == paths[v := paths[u] + [v]]
      else
        dist' == dist && prev' == prev && paths' == paths
    ensures forall v :: v in dist' <==> v in dist0
    ensures forall y :: y in prev' ==> y in dist0
    ensures forall y :: y in dist0 ==>
      Kept(y, dist0, prev0, paths0, dist', prev', paths') || ImprovedVia(es, ids, R, u, y, dist0, paths0, dist', prev', paths')
    ensures forall j :: 0 <= j < k + 1 && ids[j] !in R ==> Le(dist'[ids[j]], Add(dist0[u], MatrixWeight(es, u, ids[j])))
  {
    var v, alt := ids[k], Add(dist0[u], MatrixWeight(es, u, ids[k]));
    if v !in R && Lt(alt, dist[v]) {
      assert Kept(v, dist0, prev0, paths0, dist, prev, paths);
      RelaxStep(es, ids, R, u, v, dist0, prev0, paths0, dist, prev, paths);
    } else if v !in R {
      LtIsNotLe(alt, dist[v]);
    }
    BoundStep(es, ids, R, u, k, dist0[u], dist, dist');
  }

  /** One more node of `ids` has its distance bounded by the walk through `u`, and the earlier ones keep theirs. */
  lemma BoundStep(es: seq<Edge>, ids: seq<nat>, R: set<nat>, u: nat, k: nat, du: ExtNat,
                  dist: map<nat, ExtNat>, dist': map<nat, ExtNat>)
    requires k < |ids|
    requires forall v :: v in ids ==> v in dist
    requires forall y :: y in dist ==> y in dist' && Le(dist'[y], dist[y])
    requires forall j :: 0 <= j < k && ids[j] !in R ==> Le(dist[ids[j]], Add(du, MatrixWeight(es, u, ids[j])))
    requires ids[k] !in R ==> Le(dist'[ids[k]], Add(du, MatrixWeight(es, u, ids[k])))
    ensures forall j :: 0 <= j < k + 1 && ids[j] !in R ==> Le(dist'[ids[j]], Add(du, MatrixWeight(es, u, ids[j])))
  {
    forall j | 0 <= j < k + 1 && ids[j] !in R ensures Le(dist'[ids[j]], Add(du, MatrixWeight(es, u, ids[j]))) {
      if j < k {
        assert Le(dist'[ids[j]], dist[ids[j]]);
      }
    }
  }

  /** The replaced tree edge of a node about to improve via `u` is an edge of the store, and not `u`'s. */
  lemma ReplacedEdgeOk(es: seq<Edge>, ids: seq<nat>, s: nat, R: set<nat>, dist0: map<nat, ExtNat>,
                       prev0: map<nat, nat>, u: nat, v: nat)
    requires Tree(es, ids, s, R, dist0, prev0)
    requires u in dist0 && v in prev0
    requires Lt(Add(dist0[u], MatrixWeight(es, u, v)), dist0[v])
    ensures prev0[v] != u && FindEdge(es, prev0[v], v).Some?
  {
    FiniteWeightHasEdge(es, prev0[v], v);
  }

  lemma EdgeEventsAppend(es: seq<Edge>, u: nat, added: seq<Event>, e: Event)
    requires EdgeEventsFrom(es, u, added)
    requires !e.NodeSettled? && e.src == u && EdgeEventOk(es, e)
    ensures EdgeEventsFrom(es, u, added + [e])
  {
  }

  /** Improving `v` via `u` keeps every node kept or improved. */
  lemma RelaxStep(es: seq<Edge>, ids: seq<nat>, R: set<nat>, u: nat, v: nat,
                  dist0: map<nat, ExtNat>, prev0: map<nat, nat>, paths0: map<nat, seq<nat>>,
                  dist: map<nat, ExtNat>, prev: map<nat, nat>, paths: map<nat, seq<nat>>)
    requires u in R && u in dist0 && u in paths0 && v in ids && v !in R
    requires Kept(u, dist0, prev0, paths0, dist, prev, paths) && Kept(v, dist0, prev0, paths0, dist, prev, paths)
    requires Lt(Add(dist0[u], MatrixWeight(es, u, v)), dist0[v])
    requires forall y :: y in dist0 ==>
      Kept(y, dist0, prev0, paths0, dist, prev, paths) || ImprovedVia(es, ids, R, u, y, dist0, paths0, dist, prev, paths)
    ensures forall y :: y in dist0 ==>
      Kept(y, dist0, prev0, paths0, dist[v := Add(dist[u], MatrixWeight(es, u, v))], prev[v := u], paths[v := paths[u] + [v]]) ||
      ImprovedVia(es, ids, R, u, y, dist0, paths0, dist[v := Add(dist[u], MatrixWeight(es, u, v))], prev[v := u], paths[v := paths[u] + [v]])
  {
    var d, p, w := dist[v := Add(dist[u], MatrixWeight(es, u, v))], prev[v := u], paths[v := paths[u] + [v]];
    forall y | y in dist0
      ensures Kept(y, dist0, prev0, paths0, d, p, w) || ImprovedVia(es, ids, R, u, y, dist0, paths0, d, p, w)
    {
      if y == v {
        assert ImprovedVia(es, ids, R, u, y, dist0, paths0, d, p, w);
      } else if Kept(y, dist0, prev0, paths0, dist, prev, paths) {
        assert Kept(y, dist0, prev0, paths0, d, p, w);
      } else {
        assert ImprovedVia(es, ids, R, u, y, dist0, paths0, d, p, w);
      }
    }
  }

  /** After the pass over `u`, settled distances are unchanged and unsettled ones only improved via `u`. */
  lemma RelaxDistances(es: seq<Edge>, ids: seq<nat>, R: set<nat>, u: nat,
                       dist0: map<nat, ExtNat>, prev0: map<nat, nat>, paths0: map<nat, seq<nat>>,
                       dist: map<nat, ExtNat>, prev: map<nat, nat>, paths: map<nat, seq<nat>>)
    requires forall v :: v in ids ==> v in dist0
    requires u in dist0 && forall x :: x in R ==> x in ids
    requires forall y :: y in dist0 ==>
      Kept(y, dist0, prev0, paths0, dist, prev, paths) || ImprovedVia(es, ids, R, u, y, dist0, paths0, dist, prev, paths)
    requires forall v :: v in dist <==> v in dist0
    requires forall j :: 0 <= j < |ids| && ids[j] !in R ==> Le(dist[ids[j]], Add(dist0[u], MatrixWeight(es, u, ids[j])))
    ensures PassOver(es, ids, R, u, dist0, dist)
  {
    forall x | x in R ensures x in dist && dist[x] == dist0[x] {
      assert Kept(x, dist0, prev0, paths0, dist, prev, paths);
    }
    forall y | y in ids && y !in R && y in dist0
      ensures Le(dist[y], dist0[y]) && Le(dist[y], Add(dist0[u], MatrixWeight(es, u, y)))
      ensures dist[y] == dist0[y] || dist[y] == Add(dist0[u], MatrixWeight(es, u, y))
    {
      var j :| 0 <= j < |ids| && ids[j] == y;
      if !Kept(y, dist0, prev0, paths0, dist, prev, paths) {
        LtIsNotLe(dist[y], dist0[y]);
        assert Lt(dist[y], dist0[y]);
      }
    }
  }

  /** The pass over the settled `u` keeps the predecessor map a tree over the settled nodes. */
  lemma RelaxKeepsTree(es: seq<Edge>, ids: seq<nat>, s: nat, R: set<nat>, u: nat,
                       dist0: map<nat, ExtNat>, prev0: map<nat, nat>, paths0: map<nat, seq<nat>>,
                       dist: map<nat, ExtNat>, prev: map<nat, nat>, paths: map<nat, seq<nat>>)
    requires u in R && u in dist0
    requires Tree(es, ids, s, R, dist0, prev0)
    requires forall v :: v in dist <==> v in dist0
    requires forall y :: y in prev ==> y in dist0
    requires forall y :: y in dist0 ==>
      Kept(y, dist0, prev0, paths0, dist, prev, paths) || ImprovedVia(es, ids, R, u, y, dist0, paths0, dist, prev, paths)
    ensures Tree(es, ids, s, R, dist, prev)
  {
    assert Kept(u, dist0, prev0, paths0, dist, prev, paths);
    forall v | v in prev
      ensures v in ids && v in dist && prev[v] in R && prev[v] in dist && dist[v].Fin?
      ensures dist[v] == Add(dist[prev[v]], MatrixWeight(es, prev[v], v))
    {
      if Kept(v, dist0, prev0, paths0, dist, prev, paths) {
        assert Kept(prev0[v], dist0, prev0, paths0, dist, prev, paths);
      }
    }
    forall v | v in ids && v in dist && dist[v].Fin? && v != s ensures v in prev {
      if Kept(v, dist0, prev0, paths0, dist, prev, paths) {
        assert v in prev0;
      }
    }
  }

  /** The pass over `u` keeps a witness walk for every finite distance. */
  lemma RelaxKeepsWitnessed(es: seq<Edge>, ids: seq<nat>, s: nat, R: set<nat>, u: nat,
                            dist0: map<nat, ExtNat>, prev0: map<nat, nat>, paths0: map<nat, seq<nat>>,
                            dist: map<nat, ExtNat>, prev: map<nat, nat>, paths: map<nat, seq<nat>>)
    requires u in ids && u in dist0 && dist0[u].Fin?
    requires Witnessed(es, ids, s, dist0, paths0)
    requires forall v :: v in dist <==> v in dist0
    requires forall y :: y in dist0 ==>
      Kept(y, dist0, prev0, paths0, dist, prev, paths) || ImprovedVia(es, ids, R, u, y, dist0, paths0, dist, prev, paths)
    ensures Witnessed(es, ids, s, dist, paths)
  {
    forall v | v in ids && v in dist && dist[v].Fin?
      ensures v in paths && IsPath(ids, s, v, paths[v]) && PathCost(es, paths[v]) == dist[v]
    {
      if !Kept(v, dist0, prev0, paths0, dist, prev, paths) {
        PathExtend(es, ids, s, u, paths0[u], v);
      }
    }
  }

  /** Every unsettled node's distance is relaxed over every settled node. */
  ghost predicate Relaxed(es: seq<Edge>, ids: seq<nat>, R: set<nat>, dist: map<nat, ExtNat>)
    requires forall v :: v in ids ==> v in dist
    requires forall x :: x in R ==> x in dist
  {
    forall x, y :: x in R && y in ids && y !in R ==> Le(dist[y], Add(dist[x], MatrixWeight(es, x, y)))
  }

  /** No settled node is farther than an unsettled one. */
  ghost predicate Ordered(ids: seq<nat>, R: set<nat>, dist: map<nat, ExtNat>)
    requires forall v :: v in ids ==> v in dist
    requires forall x :: x in R ==> x in dist
  {
    forall x, y :: x in R && y in ids && y !in R ==> Le(dist[x], dist[y])
  }

  /** `order` lists the settled set `R` once each, in non-decreasing order of distance. */
  ghost predicate SettledInOrder(order: seq<nat>, R: set<nat>, dist: map<nat, ExtNat>)
  {
    (forall x :: x in R <==> x in order) &&
    (forall i, j :: 0 <= i < j < |order| ==> order[i] != order[j]) &&
    (forall i, j :: 0 <= i < j < |order| ==> order[i] in dist && order[j] in dist && Le(dist[order[i]], dist[order[j]]))
  }

  /** The invariant of the main loop of Dijkstra's method from `s`. */
  ghost predicate Inv(es: seq<Edge>, ids: seq<nat>, s: nat, R: set<nat>, dist: map<nat, ExtNat>, order: seq<nat>)
  {
    (forall v :: v in dist <==> v in ids) && s in ids && dist[s] == Fin(0) &&
    (forall x :: x in R ==> x in ids) && (R != {} ==> s in R) &&
    (forall x :: x in R ==> dist[x].Fin? && Optimal(es, ids, s, x, dist[x])) &&
    Relaxed(es, ids, R, dist) && Ordered(ids, R, dist) &&
    SettledInOrder(order, R, dist)
  }

  /**
   * One round of the main loop once `u` has been selected: settle `u`, announce
   * it with `NodeSettled(u)`, then relax its neighbours.
   */
  method Settle(g: Graph, G: array2<ExtNat>, ids: seq<nat>, R0: set<nat>, u: nat,
                dist0: map<nat, ExtNat>, prev0: map<nat, nat>, events0: seq<Event>,
                ghost es: seq<Edge>, ghost ns0: seq<Node>, ghost entry: nat,
                ghost paths0: map<nat, seq<nat>>, ghost order0: seq<nat>)
    returns (R: set<nat>, dist: map<nat, ExtNat>, prev: map<nat, nat>, events: seq<Event>,
             ghost paths: map<nat, seq<nat>>, ghost order: seq<nat>)
    requires IsMatrixOf(G, es, ids)
    requires Inv(es, ids, entry, R0, dist0, order0)
    requires Tree(es, ids, entry, R0, dist0, prev0) && Witnessed(es, ids, entry, dist0, paths0)
    requires u in ids && u !in R0 && dist0[u].Fin?
    requires forall y :: y in ids && y !in R0 ==> Le(dist0[u], dist0[y])
    requires g.nodes == ReplayNodes(ns0, events0) && g.edges == ReplayEdges(es, events0)
    requires order0 == SettledOrder(events0)
    requires forall i :: 0 <= i < |events0| ==> EdgeEventOk(es, events0[i])
    requires prev0 == TreeOf(events0) && TreeLog(events0)
    requires PrevBefore(order0, prev0)
    requires PassesInOrder(events0) && TargetsAscend(events0)
    requires Increasing(ids)
    modifies g
    ensures R == R0 + {u} && order == order0 + [u]
    // the log grows by the settle event of `u` followed by the pass over `u`,
    // which logs one edge event from `u` for each node it improves, in node-list order
    ensures |events| > |events0| && events[..|events0|] == events0 && events[|events0|] == NodeSettled(u)
    ensures events[|events0| + 1..] == PassEvents(ids, u, prev0, dist0, dist)
    ensures EdgeEventsFrom(es, u, events[|events0| + 1..])
    ensures AnnouncedOnce(events[|events0| + 1..], u, prev0, dist0, dist)
    ensures PassesInOrder(events) && TargetsAscend(events)
    ensures Inv(es, ids, entry, R, dist, order)
    ensures Tree(es, ids, entry, R, dist, prev) && Witnessed(es, ids, entry, dist, paths)
    ensures g.lastNodeId == old(g.lastNodeId)
    ensures g.nodes == ReplayNodes(ns0, events) && g.edges == ReplayEdges(es, events)
    ensures order == SettledOrder(events)
    ensures forall i :: 0 <= i < |events| ==> EdgeEventOk(es, events[i])
    ensures prev == TreeOf(events) && TreeLog(events)
    ensures PrevBefore(order, prev)
  {
    R := R0 + {u};
    var events1 := Animate(g, events0, NodeSettled(u), ns0, es);
    order := order0 + [u];
    SettleReady(es, ids, entry, R0, u, dist0, prev0, events0);
    dist, prev, events, paths := Relax(g, G, ids, R, u, dist0, prev0, events1, es, ns0, entry, paths0);
    SettleShape(events0, NodeSettled(u), events);
    assert TargetsAscend(events) by {
      SettleAscends(events0, NodeSettled(u), events, ids, u, prev0, dist0, dist);
    }
    SettleDone(es, ids, entry, R0, u, dist0, prev0, paths0, order0, dist, prev);
  }

  /** The settle event keeps the log an account of the tree, which still fits the larger settled set. */
  lemma SettleReady(es: seq<Edge>, ids: seq<nat>, s: nat, R0: set<nat>, u: nat,
                    dist0: map<nat, ExtNat>, prev0: map<nat, nat>, events0: seq<Event>)
    requires Tree(es, ids, s, R0, dist0, prev0)
    requires forall i :: 0 <= i < |events0| ==> EdgeEventOk(es, events0[i])
    requires prev0 == TreeOf(events0) && TreeLog(events0)
    requires PassesInOrder(events0) && forall x :: x in SettledOrder(events0) ==> x in R0
    ensures Tree(es, ids, s, R0 + {u}, dist0, prev0)
    ensures SettledLast(events0 + [NodeSettled(u)], u, R0 + {u}) && PassesInOrder(events0 + [NodeSettled(u)])
    ensures forall i :: 0 <= i < |events0 + [NodeSettled(u)]| ==> EdgeEventOk(es, (events0 + [NodeSettled(u)])[i])
    ensures prev0 == TreeOf(events0 + [NodeSettled(u)]) && TreeLog(events0 + [NodeSettled(u)])
  {
    EventsOkAppend(es, events0, NodeSettled(u));
    TreeLogAppend(events0, NodeSettled(u));
    TreeGrows(es, ids, s, R0, u, dist0, prev0);
    SettledOrderAppend(events0, NodeSettled(u));
    PassesInOrderAppend(events0, NodeSettled(u));
  }

  /** A log that extends `events0 + [e]` keeps `events0` as its prefix, with `e` next. */
  lemma SettleShape(events0: seq<Event>, e: Event, events: seq<Event>)
    requires |events| >= |events0| + 1 && events[..|events0| + 1] == events0 + [e]
    ensures events[..|events0|] == events0 && events[|events0|] == e
  {
    assert events[..|events0|] == events[..|events0| + 1][..|events0|];
    assert events[|events0|] == events[..|events0| + 1][|events0|];
  }

  /** A settle event followed by a pass over ids in increasing order keeps the targets of each pass ascending. */
  lemma SettleAscends(events0: seq<Event>, e: Event, events: seq<Event>, ids: seq<nat>, u: nat,
                      prev0: map<nat, nat>, dist0: map<nat, ExtNat>, dist: map<nat, ExtNat>)
    requires TargetsAscend(events0) && e.NodeSettled? && Increasing(ids)
    requires |events| >= |events0| + 1 && events[..|events0| + 1] == events0 + [e]
    requires events[|events0| + 1..] == PassEvents(ids, u, prev0, dist0, dist)
    ensures TargetsAscend(events)
  {
    var added := events[|events0| + 1..];
    PassEventsAscend(ids, u, prev0, dist0, dist);
    TargetsAscendConcat([e], added);
    TargetsAscendConcat(events0, [e] + added);
    assert events == events[..|events0| + 1] + added;
  }

  /** After the pass over `u`, the loop invariant holds with `u` settled last. */
  lemma SettleDone(es: seq<Edge>, ids: seq<nat>, s: nat, R0: set<nat>, u: nat,
                   dist0: map<nat, ExtNat>, prev0: map<nat, nat>, paths0: map<nat, seq<nat>>,
                   order0: seq<nat>, dist: map<nat, ExtNat>, prev: map<nat, nat>)
    requires Inv(es, ids, s, R0, dist0, order0) && Tree(es, ids, s, R0, dist0, prev0)
    requires Witnessed(es, ids, s, dist0, paths0)
    requires u in ids && u !in R0 && dist0[u].Fin?
    requires forall y :: y in ids && y !in R0 ==> Le(dist0[u], dist0[y])
    requires PrevBefore(order0, prev0)
    requires PassOver(es, ids, R0 + {u}, u, dist0, dist)
    requires forall x :: x in R0 + {u} ==> (x in prev <==> x in prev0) && (x in prev ==> prev[x] == prev0[x])
    ensures Inv(es, ids, s, R0 + {u}, dist, order0 + [u])
    ensures PrevBefore(order0 + [u], prev)
  {
    SettleIsOptimal(es, ids, s, R0, dist0, prev0, paths0, u);
    SettleKeepsInv(es, ids, s, R0, u, dist0, order0, dist);
    SettleKeepsPrevBefore(order0, R0, u, prev0, prev);
  }

  /**
   * Every node with a predecessor was settled after it: following `prev` from
   * a settled node walks strictly back in settling order, so the tree has no cycle.
   */
  ghost predicate PrevBefore(order: seq<nat>, prev: map<nat, nat>)
  {
    forall j :: 0 <= j < |order| && order[j] in prev ==> prev[order[j]] in order[..j]
  }

  /** Settling `u` after its predecessor, and keeping the predecessors of settled nodes, keeps the order. */
  lemma SettleKeepsPrevBefore(order0: seq<nat>, R0: set<nat>, u: nat, prev0: map<nat, nat>, prev: map<nat, nat>)
    requires PrevBefore(order0, prev0)
    requires forall x :: x in R0 <==> x in order0
    requires u in prev0 ==> prev0[u] in R0
    requires forall x :: x in R0 + {u} ==> (x in prev <==> x in prev0) && (x in prev ==> prev[x] == prev0[x])
    ensures PrevBefore(order0 + [u], prev)
  {
    var order := order0 + [u];
    forall j | 0 <= j < |order| && order[j] in prev ensures prev[order[j]] in order[..j] {
      if j < |order0| {
        assert order[j] == order0[j] && order[..j] == order0[..j];
        assert order0[j] in R0;
      } else {
        assert order[..j] == order0;
      }
    }
  }

  /** Appending an acceptable event to a log of acceptable events. */
  lemma EventsOkAppend(es: seq<Edge>, evs: seq<Event>, e: Event)
    requires forall i :: 0 <= i < |evs| ==> EdgeEventOk(es, evs[i])
    requires EdgeEventOk(es, e)
    ensures forall i :: 0 <= i < |evs + [e]| ==> EdgeEventOk(es, (evs + [e])[i])
  {
  }

  /** A predecessor tree over `R` is one over any larger settled set. */
  lemma TreeGrows(es: seq<Edge>, ids: seq<nat>, s: nat, R: set<nat>, u: nat,
                  dist: map<nat, ExtNat>, prev: map<nat, nat>)
    requires Tree(es, ids, s, R, dist, prev)
    ensures Tree(es, ids, s, R + {u}, dist, prev)
  {
  }

  /** Settling the least unsettled node and relaxing over it keeps the loop invariant. */
  lemma SettleKeepsInv(es: seq<Edge>, ids: seq<nat>, s: nat, R0: set<nat>, u: nat,
                       dist0: map<nat, ExtNat>, order0: seq<nat>, dist: map<nat, ExtNat>)
    requires Inv(es, ids, s, R0, dist0, order0)
    requires u in ids && u !in R0 && dist0[u].Fin?
    requires forall y :: y in ids && y !in R0 ==> Le(dist0[u], dist0[y])
    // what settling the least unsettled node guarantees
    requires Optimal(es, ids, s, u, dist0[u]) && (R0 == {} ==> u == s)
    // what the relaxation pass over u guarantees
    requires PassOver(es, ids, R0 + {u}, u, dist0, dist)
    ensures Inv(es, ids, s, R0 + {u}, dist, order0 + [u])
  {
    SettleKeepsRelaxed(es, ids, R0, u, dist0, dist);
    SettleKeepsOrdered(es, ids, R0, u, dist0, dist);
    assert forall x :: x in R0 ==> x in dist0 && Le(dist0[x], dist0[u]);
    SettleKeepsOrder(es, ids, R0, u, dist0, order0, dist);
    SettleKeepsOptimal(es, ids, s, R0, u, dist0, dist);
    assert s in R0 + {u} && dist[s] == Fin(0);
  }


  /** The settled distances, now including `u`'s, stay exact through the pass over `u`. */
  lemma SettleKeepsOptimal(es: seq<Edge>, ids: seq<nat>, s: nat, R0: set<nat>, u: nat,
                           dist0: map<nat, ExtNat>, dist: map<nat, ExtNat>)
    requires forall x :: x in R0 ==> x in dist0 && dist0[x].Fin? && Optimal(es, ids, s, x, dist0[x])
    requires u in dist0 && dist0[u].Fin? && Optimal(es, ids, s, u, dist0[u])
    requires PassOver(es, ids, R0 + {u}, u, dist0, dist)
    ensures forall x :: x in R0 + {u} ==> x in dist && dist[x].Fin? && Optimal(es, ids, s, x, dist[x])
  {
    forall x | x in R0 + {u} ensures x in dist && dist[x].Fin? && Optimal(es, ids, s, x, dist[x]) {
      assert dist[x] == dist0[x];
    }
  }

  /** Relaxing over the newly settled `u` keeps every unsettled distance relaxed over the settled set. */
  lemma SettleKeepsRelaxed(es: seq<Edge>, ids: seq<nat>, R0: set<nat>, u: nat,
                           dist0: map<nat, ExtNat>, dist: map<nat, ExtNat>)
    requires forall v :: v in dist0 <==> v in ids
    requires forall x :: x in R0 ==> x in ids
    requires u in ids
    requires Relaxed(es, ids, R0, dist0)
    requires PassOver(es, ids, R0 + {u}, u, dist0, dist)
    ensures Relaxed(es, ids, R0 + {u}, dist)
  {
    var R := R0 + {u};
    forall x, y | x in R && y in ids && y !in R ensures Le(dist[y], Add(dist[x], MatrixWeight(es, x, y))) {
      if x != u {
        assert Le(dist0[y], Add(dist0[x], MatrixWeight(es, x, y)));
      }
    }
  }

  /** Settling the least unsettled `u` keeps every settled node no farther than the unsettled ones. */
  lemma SettleKeepsOrdered(es: seq<Edge>, ids: seq<nat>, R0: set<nat>, u: nat,
                           dist0: map<nat, ExtNat>, dist: map<nat, ExtNat>)
    requires forall v :: v in dist0 <==> v in ids
    requires forall x :: x in R0 ==> x in ids
    requires u in ids && u !in R0
    requires Ordered(ids, R0, dist0)
    requires forall y :: y in ids && y !in R0 ==> Le(dist0[u], dist0[y])
    requires PassOver(es, ids, R0 + {u}, u, dist0, dist)
    ensures Ordered(ids, R0 + {u}, dist)
  {
    var R := R0 + {u};
    forall x, y | x in R && y in ids && y !in R ensures Le(dist[x], dist[y]) {
      assert Le(dist0[x], dist0[u]);
    }
  }

  /** Appending the least unsettled `u` to the settling order keeps it free of repeats and sorted by distance. */
  lemma SettleKeepsOrder(es: seq<Edge>, ids: seq<nat>, R0: set<nat>, u: nat,
                         dist0: map<nat, ExtNat>, order0: seq<nat>, dist: map<nat, ExtNat>)
    requires SettledInOrder(order0, R0, dist0)
    requires u !in R0 && u in dist0
    requires forall x :: x in R0 ==> x in dist0 && Le(dist0[x], dist0[u])
    requires PassOver(es, ids, R0 + {u}, u, dist0, dist)
    ensures SettledInOrder(order0 + [u], R0 + {u}, dist)
  {
    var order := order0 + [u];
    forall i, j | 0 <= i < j < |order| ensures order[i] != order[j] && Le(dist[order[i]], dist[order[j]]) {
      if j < |order0| {
        assert order[i] == order0[i] && order[j] == order0[j];
      } else {
        assert order[i] == order0[i] && order0[i] in R0;
      }
    }
  }

  /**
   * `onstart`: clears the settled flags, then, when a node is selected, runs
   * Dijkstra's method from it. Returns the log of awaited animations, the
   * settled set, the distances and the predecessors. Each node is settled at
   * most once, in non-decreasing order of distance, at its shortest-path
   * distance; the nodes left unsettled are those no walk reaches.
   */
  method Run(g: Graph, selected: Option<nat>)
    returns (events: seq<Event>, reached: set<nat>, dist: map<nat, ExtNat>, prev: map<nat, nat>)
    requires g.Valid()
    requires selected.Some? ==> selected.value in Ids(g.nodes)
    modifies g
    ensures g.Valid() && g.lastNodeId == old(g.lastNodeId)
    ensures g.nodes == ReplayNodes(UnflaggedNodes(old(g.nodes)), events)
    ensures g.edges == ReplayEdges(UnflaggedEdges(old(g.edges)), events)
    ensures selected.None? ==> events == [] && reached == {} && prev == map[]
    ensures selected.Some? ==> RunCorrect(old(g.edges), Ids(old(g.nodes)), selected.value, events, reached, dist, prev)
    // the canvas the run leaves shows the outcome: the settled nodes, and the edges of the tree
    ensures forall i :: 0 <= i < |g.nodes| ==> (g.nodes[i].inS <==> g.nodes[i].id in reached)
    ensures FlagsShowTree(g.edges, prev)
  {
    g.Restart();
    if selected.None? {
      events, reached, dist, prev := [], {}, map[], map[];
      return;
    }
    ghost var ns0, es := g.nodes, g.edges;
    assert Ids(old(g.nodes)) == Ids(ns0) by {
      assert UnflaggedNodes(old(g.nodes)) == ns0;
    }
    events, reached, dist, prev := Search(g, selected.value, ns0, es);
    RunFlags(ns0, es, events, reached, prev);
    RunCorrectIgnoresFlags(es, old(g.edges), Ids(ns0), selected.value, events, reached, dist, prev);
    ReplayKeepsRecords(ns0, es, events);
    WellFormedIgnoresFlags(ns0, es, g.nodes, g.edges, g.lastNodeId);
  }

  /**
   * The search proper, from `entry` over the store as it stands: build the
   * cost matrix, then settle the nearest unsettled node and relax over it
   * until every unsettled node is at `Inf`.
   */
  method Search(g: Graph, entry: nat, ghost ns0: seq<Node>, ghost es: seq<Edge>)
    returns (events: seq<Event>, reached: set<nat>, dist: map<nat, ExtNat>, prev: map<nat, nat>)
    requires g.Valid() && g.nodes == ns0 && g.edges == es
    requires entry in Ids(ns0)
    modifies g
    ensures g.lastNodeId == old(g.lastNodeId)
    ensures g.nodes == ReplayNodes(ns0, events) && g.edges == ReplayEdges(es, events)
    ensures RunCorrect(es, Ids(ns0), entry, events, reached, dist, prev)
  {
    ghost var last := g.lastNodeId;
    var n := g.lastNodeId + 1;
    MatrixBounds(ns0, es, last);
    var G := BuildMatrix(n, g.edges);
    var ids := CollectIds(g.nodes);
    assert Increasing(ids);
    dist := InitDistances(g.nodes, entry);
    ghost var paths: map<nat, seq<nat>>;
    ghost var order: seq<nat>;
    InitInv(es, ns0, ids, entry, dist);
    reached, dist, prev, events, paths, order := SettleAll(g, G, ids, entry, dist, es, ns0);
    RunOutcome(es, ids, entry, reached, dist, prev, paths, order, events);
  }

  /**
   * The main loop: while some unsettled node has a finite distance, settle the
   * nearest (the last of them in list order) and relax over it.
   */
  method SettleAll(g: Graph, G: array2<ExtNat>, ids: seq<nat>, entry: nat, dist0: map<nat, ExtNat>,
                   ghost es: seq<Edge>, ghost ns0: seq<Node>)
    returns (R: set<nat>, dist: map<nat, ExtNat>, prev: map<nat, nat>, events: seq<Event>,
             ghost paths: map<nat, seq<nat>>, ghost order: seq<nat>)
    requires IsMatrixOf(G, es, ids)
    requires g.nodes == ns0 && g.edges == es
    requires Inv(es, ids, entry, {}, dist0, [])
    requires Tree(es, ids, entry, {}, dist0, map[]) && Witnessed(es, ids, entry, dist0, map[entry := [entry]])
    requires Increasing(ids)
    modifies g
    ensures g.lastNodeId == old(g.lastNodeId)
    ensures g.nodes == ReplayNodes(ns0, events) && g.edges == ReplayEdges(es, events)
    ensures Inv(es, ids, entry, R, dist, order)
    ensures Tree(es, ids, entry, R, dist, prev) && Witnessed(es, ids, entry, dist, paths)
    ensures order == SettledOrder(events)
    ensures forall i :: 0 <= i < |events| ==> EdgeEventOk(es, events[i])
    ensures prev == TreeOf(events) && TreeLog(events)
    ensures PrevBefore(order, prev)
    ensures PassesInOrder(events) && TargetsAscend(events)
    ensures forall y :: y in ids && y !in R ==> dist[y] == Inf
  {
    R, dist, prev, events := {}, dist0, map[], [];
    order, paths := [], map[entry := [entry]];
    ghost var V := set v | v in ids;
    while true
      invariant g.lastNodeId == old(g.lastNodeId)
      invariant g.nodes == ReplayNodes(ns0, events) && g.edges == ReplayEdges(es, events)
      invariant Inv(es, ids, entry, R, dist, order)
      invariant Tree(es, ids, entry, R, dist, prev) && Witnessed(es, ids, entry, dist, paths)
      invariant order == SettledOrder(events)
      invariant forall i :: 0 <= i < |events| ==> EdgeEventOk(es, events[i])
      invariant prev == TreeOf(events) && TreeLog(events)
      invariant PrevBefore(order, prev)
      invariant PassesInOrder(events) && TargetsAscend(events)
      decreases V - R
    {
      var found, minD := SelectMin(ids, R, dist);
      if minD.Inf? {
        assert forall y :: y in ids && y !in R ==> dist[y] == Inf;
        break;
      }
      var u := found.value;
      ghost var R0 := R;
      R, dist, prev, events, paths, order := Settle(g, G, ids, R, u, dist, prev, events, es, ns0, entry, paths, order);
      assert V - R < V - R0 by {
        assert u in V - R0;
      }
    }
  }

  /** Before the first round: nothing settled, the source at 0, everything else at `Inf`. */
  lemma InitInv(es: seq<Edge>, ns: seq<Node>, ids: seq<nat>, s: nat, dist: map<nat, ExtNat>)
    requires ids == Ids(ns) && s in ids
    requires forall v :: v in dist <==> v in Ids(ns) || v == s
    requires forall v :: v in dist ==> dist[v] == if v == s then Fin(0) else Inf
    ensures Inv(es, ids, s, {}, dist, [])
    ensures Tree(es, ids, s, {}, dist, map[])
    ensures Witnessed(es, ids, s, dist, map[s := [s]])
  {
    assert IsPath(ids, s, s, [s]);
  }

  /** When no unsettled node has a finite distance, the loop invariant gives the promised outcome. */
  lemma RunOutcome(es: seq<Edge>, ids: seq<nat>, s: nat, R: set<nat>, dist: map<nat, ExtNat>,
                   prev: map<nat, nat>, paths: map<nat, seq<nat>>, order: seq<nat>, events: seq<Event>)
    requires Inv(es, ids, s, R, dist, order)
    requires Tree(es, ids, s, R, dist, prev) && Witnessed(es, ids, s, dist, paths)
    requires order == SettledOrder(events)
    requires forall i :: 0 <= i < |events| ==> EdgeEventOk(es, events[i])
    requires prev == TreeOf(events) && TreeLog(events)
    requires PrevBefore(order, prev)
    requires PassesInOrder(events) && TargetsAscend(events)
    requires forall y :: y in ids && y !in R ==> dist[y] == Inf
    ensures RunCorrect(es, ids, s, events, R, dist, prev)
  {
    assert RunDistances(es, ids, s, R, dist, prev) by {
      FinalState(es, ids, s, R, dist, prev, paths);
    }
  }

  /** Every id of a well-formed store, and so every edge endpoint, indexes the cost matrix. */
  lemma MatrixBounds(ns: seq<Node>, es: seq<Edge>, lastNodeId: int)
    requires WellFormed(ns, es, lastNodeId)
    ensures forall v :: v in Ids(ns) ==> v < lastNodeId + 1
    ensures forall i :: 0 <= i < |es| ==> es[i].src < lastNodeId + 1 && es[i].dst < lastNodeId + 1
  {
    forall v | v in Ids(ns) ensures v < lastNodeId + 1 {
      var a :| 0 <= a < |ns| && Ids(ns)[a] == v;
    }
  }

  /** What a run from `s` promises about its outcome, for the costs of the edges `es`. */
  ghost predicate RunCorrect(es: seq<Edge>, ids: seq<nat>, s: nat, events: seq<Event>,
                             reached: set<nat>, dist: map<nat, ExtNat>, prev: map<nat, nat>)
  {
    RunDistances(es, ids, s, reached, dist, prev) && RunLog(es, events, reached, dist, prev)
  }

  /** The distances and the tree a run from `s` ends with. */
  ghost predicate RunDistances(es: seq<Edge>, ids: seq<nat>, s: nat,
                               reached: set<nat>, dist: map<nat, ExtNat>, prev: map<nat, nat>)
  {
    // the source is settled, and only nodes of the canvas are
    s in reached && (forall v :: v in reached ==> v in ids && v in dist) &&
    // each at its shortest-path distance, which is finite
    (forall v :: v in reached ==> dist[v].Fin? && ShortestDistance(es, ids, s, v, dist[v])) &&
    // and the nodes left unsettled are unreachable
    (forall v, p :: v in ids && v !in reached && IsPath(ids, s, v, p) ==> PathCost(es, p) == Inf) &&
    // the predecessors form a shortest-path tree over the settled nodes
    (forall v :: v in prev ==>
       v in reached && prev[v] in reached && dist[v] == Add(dist[prev[v]], MatrixWeight(es, prev[v], v))) &&
    (forall v :: v in reached && v != s ==> v in prev)
  }

  /** The event log a run emits, and what it says about the outcome. */
  ghost predicate RunLog(es: seq<Edge>, events: seq<Event>,
                         reached: set<nat>, dist: map<nat, ExtNat>, prev: map<nat, nat>)
  {
    var order := SettledOrder(events);
    // each settled node is announced exactly once, in non-decreasing order of distance
    SettledInOrder(order, reached, dist) &&
    // the predecessors are the tree the edge events draw, each event fitting the tree drawn before it
    prev == TreeOf(events) && TreeLog(events) &&
    // each predecessor settled before its node, so following `prev` ends at the source
    PrevBefore(order, prev) &&
    // each edge event comes from the node settled last before it, into a node not yet settled
    PassesInOrder(events) &&
    // and within each pass the edge events come in node-list order, which is increasing id order
    TargetsAscend(events) &&
    // and every edge event animates edges of the store
    (forall i :: 0 <= i < |events| ==> EdgeEventOk(es, events[i]))
  }


  /**
   * The flags of the canvas a run leaves: a node is marked exactly when it was
   * settled, an edge exactly when it joins a node to its predecessor.
   */
  lemma RunFlags(ns: seq<Node>, es: seq<Edge>, events: seq<Event>, reached: set<nat>, prev: map<nat, nat>)
    requires IdsIncreasing(ns) && forall i :: 0 <= i < |ns| ==> !ns[i].inS
    requires NoDuplicatePairs(es) && forall k :: 0 <= k < |es| ==> !es[k].inS
    requires prev == TreeOf(events) && TreeLog(events)
    requires forall i :: 0 <= i < |events| ==> EdgeEventOk(es, events[i])
    requires forall x :: x in reached <==> x in SettledOrder(events)
    ensures forall i :: 0 <= i < |ReplayNodes(ns, events)| ==>
      (ReplayNodes(ns, events)[i].inS <==> ReplayNodes(ns, events)[i].id in reached)
    ensures FlagsShowTree(ReplayEdges(es, events), prev)
  {
    ReplayShowsSettled(ns, events);
    ReplayShowsTree(es, events);
  }

  /** Settling the unsettled node of least finite distance settles it at its shortest-path distance. */
  lemma SettleIsOptimal(es: seq<Edge>, ids: seq<nat>, s: nat, R: set<nat>, dist: map<nat, ExtNat>,
                        prev: map<nat, nat>, paths: map<nat, seq<nat>>, u: nat)
    requires forall v :: v in ids ==> v in dist
    requires s in ids && dist[s] == Fin(0)
    requires R != {} ==> s in R
    requires forall x :: x in R ==> x in ids && Optimal(es, ids, s, x, dist[x])
    requires forall x, y :: x in R && y in ids && y !in R ==> Le(dist[y], Add(dist[x], MatrixWeight(es, x, y)))
    requires Tree(es, ids, s, R, dist, prev)
    requires u in ids && u !in R && dist[u].Fin?
    requires forall y :: y in ids && y !in R ==> Le(dist[u], dist[y])
    requires Witnessed(es, ids, s, dist, paths)
    ensures ShortestDistance(es, ids, s, u, dist[u])
    ensures R == {} ==> u == s
  {
    assert IsPath(ids, s, u, paths[u]) && PathCost(es, paths[u]) == dist[u];
    if s in R {
      forall p | IsPath(ids, s, u, p) ensures Le(dist[u], PathCost(es, p)) {
        CrossingBound(es, ids, s, R, dist, u, p, dist[u]);
      }
    }
  }

  /** When the loop stops, the run's outcome is as promised. */
  lemma FinalState(es: seq<Edge>, ids: seq<nat>, s: nat, R: set<nat>, dist: map<nat, ExtNat>,
                   prev: map<nat, nat>, paths: map<nat, seq<nat>>)
    requires forall v :: v in dist <==> v in ids
    requires s in ids && dist[s] == Fin(0)
    requires R != {} ==> s in R
    requires forall x :: x in R ==> x in ids && dist[x].Fin? && Optimal(es, ids, s, x, dist[x])
    requires forall x, y :: x in R && y in ids && y !in R ==> Le(dist[y], Add(dist[x], MatrixWeight(es, x, y)))
    requires forall y :: y in ids && y !in R ==> dist[y] == Inf
    requires Witnessed(es, ids, s, dist, paths)
    requires Tree(es, ids, s, R, dist, prev)
    ensures s in R
    ensures forall v :: v in R ==> ShortestDistance(es, ids, s, v, dist[v])
    ensures forall v, p :: v in ids && v !in R && IsPath(ids, s, v, p) ==> PathCost(es, p) == Inf
    ensures forall v :: v in prev ==> v in R
  {
    forall v | v in R ensures ShortestDistance(es, ids, s, v, dist[v]) {
      assert IsPath(ids, s, v, paths[v]) && PathCost(es, paths[v]) == dist[v];
    }
    forall v, p | v in ids && v !in R && IsPath(ids, s, v, p) ensures PathCost(es, p) == Inf {
      CrossingBound(es, ids, s, R, dist, v, p, Inf);
    }
  }

  /** The cost of a walk does not depend on the flags of the edges. */
  lemma {:induction false} PathCostIgnoresFlags(es1: seq<Edge>, es2: seq<Edge>, p: seq<nat>)
    requires UnflaggedEdges(es1) == UnflaggedEdges(es2)
    ensures PathCost(es1, p) == PathCost(es2, p)
  {
    if |p| > 1 {
      PathCostIgnoresFlags(es1, es2, p[..|p| - 1]);
      MatrixWeightIgnoresFlags(es1, es2, p[|p| - 2], p[|p| - 1]);
    }
  }

  lemma RunCorrectIgnoresFlags(es1: seq<Edge>, es2: seq<Edge>, ids: seq<nat>, s: nat, events: seq<Event>,
                               reached: set<nat>, dist: map<nat, ExtNat>, prev: map<nat, nat>)
    requires UnflaggedEdges(es1) == UnflaggedEdges(es2)
    requires RunCorrect(es1, ids, s, events, reached, dist, prev)
    ensures RunCorrect(es2, ids, s, events, reached, dist, prev)
  {
    RunDistancesIgnoresFlags(es1, es2, ids, s, reached, dist, prev);
    forall i | 0 <= i < |events| ensures EdgeEventOk(es2, events[i]) {
      assert EdgeEventOk(es1, events[i]);
      if !events[i].NodeSettled? {
        FindEdgeIgnoresFlags(es1, es2, events[i].src, events[i].dst);
      }
      if events[i].EdgeReplaced? {
        FindEdgeIgnoresFlags(es1, es2, events[i].retracted, events[i].dst);
      }
    }
  }

  /** Distances and the tree a run ends with do not depend on the flags. */
  lemma RunDistancesIgnoresFlags(es1: seq<Edge>, es2: seq<Edge>, ids: seq<nat>, s: nat,
                                 reached: set<nat>, dist: map<nat, ExtNat>, prev: map<nat, nat>)
    requires UnflaggedEdges(es1) == UnflaggedEdges(es2)
    requires RunDistances(es1, ids, s, reached, dist, prev)
    ensures RunDistances(es2, ids, s, reached, dist, prev)
  {
    forall p ensures PathCost(es1, p) == PathCost(es2, p) {
      PathCostIgnoresFlags(es1, es2, p);
    }
    forall a, b ensures MatrixWeight(es1, a, b) == MatrixWeight(es2, a, b) {
      MatrixWeightIgnoresFlags(es1, es2, a, b);
    }
    forall v | v in reached ensures ShortestDistance(es2, ids, s, v, dist[v]) {
      var p :| IsPath(ids, s, v, p) && PathCost(es1, p) == dist[v];
      assert PathCost(es2, p) == dist[v];
    }
  }

}
