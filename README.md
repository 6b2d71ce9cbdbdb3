# Dijkstra algorithm animation — a verified model

The application is a small browser editor for undirected weighted graphs.
The user places nodes on a canvas and draws edges between them. Each node is
labelled A, B, …, Z, A', B', …. A click on an edge edits its cost. With one
node selected, the start button runs Dijkstra's method from that node and
animates it. Each node is coloured as it joins the settled set. Each edge of
the shortest-path tree is drawn as it is found, and an edge is retracted when
a shorter route replaces it.

This project models the application's core in `app.js`:

- the graph store: the node list, the edge list and the id counter, with the
  edit operations on them;
- the label function `id2alpha`;
- the search behind the start button, `onstart`.

The modules follow the program's structure:

- `Wrappers`: `Option`, for lookups that may find nothing.
- `ExtNats`: distances that are a natural number or `Inf`. `Add`, `Le` and
  `Lt` behave like the program's arithmetic on `Infinity`: `Inf + x = Inf`,
  `Inf <= Inf` holds, and `Inf < Inf` does not.
- `Labels`: `id2alpha`, and its inverse `Alpha2Id`, which serves as the
  partner of the round-trip and injectivity lemmas.
- `GraphStore`: `Node` and `Edge` records, the lookups `nodeId2Obj` and
  `edgeId2Obj`, the removal filters, and the store invariant `WellFormed`.
  The invariant says:
  - ids strictly increase along the node list and never exceed the counter;
  - there are no self-loops;
  - no unordered pair is joined twice;
  - every endpoint is a current node.

  The class `Graph` holds the three mutable fields of the editor state and
  has one method per edit operation.
- `Animation`: each awaited animation of a run is an `Event` in a log. When an
  animation ends, it commits a flag to the store:
  - `NodeSettled(u)` sets the node's `inS`;
  - `EdgeAdded(u, v)` sets the edge's `inS`;
  - `EdgeReplaced(p, u, v)` clears the flag of edge `p`-`v` and sets the flag
    of edge `u`-`v`. These are the two concurrent animations of
    `Promise.all`.

  `ReplayNodes` and `ReplayEdges` give the store after a log has been
  committed.
- `Paths`: the dense cost matrix as a function of the edge list
  (`MatrixWeight`, where the last edge written wins). Also walks over node
  ids, their costs, optimal distances and the crossing argument behind
  Dijkstra's method.
- `Dijkstra`: the search. It builds the matrix, collects the ids and sets the
  initial distances. Its main loop selects the minimum, settles that node and
  relaxes its neighbours. Every await becomes an event that is committed to
  the `Graph`. `Run` is `onstart`. Its contract `RunCorrect` states the
  following:
  - every settled node is announced exactly once;
  - nodes are announced in non-decreasing order of distance;
  - each settled node gets its shortest-path distance;
  - the nodes left unsettled are exactly those that no walk of finite cost
    reaches;
  - each settled node gets a finite distance;
  - the predecessor map is a shortest-path tree: each predecessor was settled
    before its node, so following it always ends at the source;
  - the predecessor map is the tree the edge events draw, each event fitting
    the tree before it;
  - each edge event comes from the node settled last before it, and goes
    into a node not yet settled;
  - within each pass the edge events come in node-list order, which is
    increasing id order;
  - every edge event animates an edge of the store.

  `Run` also states the flags of the canvas it leaves: exactly the settled
  nodes, and exactly the edges that join a node to its predecessor.

## Model

| member | source | states |
|---|---|---|
| GraphStore.Ids | app.js:259-260 | the id list has one entry per node, in list order |
| GraphStore.FindNode | app.js:48 | the result is the first node with the id; `None` exactly when no node has it |
| GraphStore.FindEdge | app.js:49-52 | the result is the first edge that joins the pair in either orientation; `None` exactly when no edge does |
| GraphStore.FindEdgeSymmetric | app.js:49-52 | the pair lookup gives the same result whichever endpoint comes first |
| GraphStore.UniqueEdge | app.js:30-36 | in a store without duplicate pairs, any edge joining a pair is the one the lookup finds |
| GraphStore.RemoveNodeId | app.js:224 | a node remains exactly when it was present and has a different id |
| GraphStore.RemoveIncident | app.js:225 | an edge remains exactly when it was present and touches neither endpoint of the deleted id |
| GraphStore.RemoveNodeIdConcat | app.js:224 | node removal keeps the relative order of the remaining nodes (it distributes over concatenation) |
| GraphStore.RemoveIncidentConcat | app.js:225 | edge removal keeps the relative order of the remaining edges |
| GraphStore.RemoveNodeIdIncreasing | app.js:224 | removing a node keeps the ids strictly increasing |
| GraphStore.RemoveNoDuplicates | app.js:225 | removing edges never creates a duplicate pair |
| GraphStore.RemoveKeepsEndpoints | app.js:223-225 | after the cascade, every remaining edge has both endpoints among the remaining nodes |
| GraphStore.RemoveKeepsWellFormed | app.js:223-225 | deleting a node with its incident edges keeps the store invariant |
| GraphStore.FindEdgeIgnoresFlags | app.js:49-52 | the pair lookup does not depend on the settled flags |
| GraphStore.WellFormedIgnoresFlags | app.js:295-300 | the store invariant does not depend on the settled flags |
| GraphStore.MarkNode | app.js:98 | only the flag of the node the lookup finds changes; every other field and node stays as it was |
| GraphStore.MarkEdge | app.js:73 | only the flag of the edge the pair lookup finds changes; every other field and edge stays as it was |
| GraphStore.Graph.constructor | app.js:4-11 | the store starts empty, with the counter at -1, and satisfies the invariant |
| GraphStore.Graph.AddNode | app.js:24-29 | the counter goes up by one; the new node gets the new id, which is larger than every earlier id; edges are unchanged; the invariant holds |
| GraphStore.Graph.AddEdge | app.js:30-36 | a self-loop or an already-joined pair (either orientation) leaves the edges unchanged; otherwise exactly that edge is appended; no self-loop or duplicate ever enters the store |
| GraphStore.Graph.SetEdgeCost | app.js:37-40 | the edge joining the pair gets the new cost; every other edge, all nodes and the counter are unchanged |
| GraphStore.Graph.RemoveNode | app.js:221-226 | the nodes and edges become the two filtered lists; the counter is kept; the invariant holds |
| GraphStore.Graph.Restart | app.js:295-300 | every node and edge flag is cleared; nothing else changes |
| Labels.Apostrophes | app.js:45 | a run of `k` apostrophes has length `k` |
| Labels.Id2Alpha | app.js:43-46 | a label has length `1 + num / 26`; its first character is letter `num % 26` of A..Z; the rest are apostrophes |
| Labels.Alpha2Id | app.js:43-46 | a text that reads back as an id starts with a capital letter |
| Labels.Id2AlphaRoundTrip | app.js:43-46 | every label reads back as the id it was made from |
| Labels.Alpha2IdRoundTrip | app.js:43-46 | every text that reads back as an id is exactly that id's label |
| Labels.Id2AlphaInjective | app.js:43-46 | distinct ids get distinct labels |
| ExtNats.LeTotalOrder | app.js:271 | `<=` with `Infinity` is reflexive, total, antisymmetric and transitive, with `Infinity` above every distance |
| ExtNats.AddMonotone | app.js:280 | `+` with `Infinity` is commutative, has `0` as identity, is absorbed by `Infinity`, never shortens a distance and keeps the order of distances |
| ExtNats.LtIsNotLe | app.js:280 | with `Infinity`, `a < b` holds exactly when `b <= a` does not |
| Animation.EventNodes | app.js:98 | a settle event turns on the flag of the node the id lookup finds and of no other; ids and positions are untouched |
| Animation.EventEdges | app.js:70-121 | an edge event turns on the flag of the edge its pair lookup finds; a replacement also turns off the flag of the retracted edge; no other flag, endpoint or cost changes |
| Animation.ReplayAppend | app.js:278 | replaying one more event commits it on top of the earlier ones |
| Animation.SettledOrderAppend | app.js:278 | a `NodeSettled` event appends its node to the settling order; other events leave the order unchanged |
| Animation.ReplayKeepsRecords | app.js:70-121 | committing a log changes only flags: ids, positions, endpoints and costs are untouched |
| Animation.PairedCommitsCommute | app.js:286 | the two concurrent commits of a replacement give the same store in either completion order |
| Animation.Commit | app.js:70-121 | the store becomes the event's commit applied to the old store; the counter is kept |
| Animation.Animate | app.js:277-288 | the event joins the log; the store equals the replay of the log; a `NodeSettled` event extends the settling order |
| Animation.SettledOrderHas | app.js:277-278 | every node a log settles appears in the log's settling order |
| Animation.NoEdgeIntoSettled | app.js:277-288 | in a log in order, no edge event goes into a node after that node's settle event |
| Animation.PassesInOrderAppend | app.js:277-288 | an event that comes from the node settled last, into an unsettled node, keeps the log in order; a settle event always does |
| Animation.TargetsAscendConcat | app.js:277-288 | joining two logs whose passes visit ids in increasing order keeps that order, when the join falls at a settle event or continues the ascent |
| Animation.TreeLogAppend | app.js:282-287 | an event that fits the tree drawn so far keeps the log well formed; an edge event redraws the predecessor of its target |
| Animation.EventsIntoAppend | app.js:282-287 | an edge event into `v` adds exactly one entry to `v`'s list of incoming edge events, and to no other node's |
| Animation.AddedShowsTreeAt | app.js:73 | after growing the tree edge `u`-`v`, an edge is flagged exactly when it joins a node to its new predecessor |
| Animation.ReplacedShowsTreeAt | app.js:286 | after retracting `p`-`v` and growing `u`-`v`, an edge is flagged exactly when it joins a node to its new predecessor |
| Animation.CommitShowsTree | app.js:70-121 | committing an event that fits the tree keeps the edge flags showing exactly the tree edges |
| Animation.ReplayShowsTree | app.js:279-290 | after a well-formed log, the flagged edges are exactly those joining a node to its predecessor in the tree the log draws |
| Animation.ReplayShowsSettled | app.js:95-99 | after a log, a node is flagged exactly when the log settled it |
| Paths.MatrixWeightIsLastJoin | app.js:252-257 | a matrix entry is `Inf` exactly when no edge joins the pair, and otherwise the cost of the last edge in list order that does |
| Paths.MatrixWeightIsEdgeCost | app.js:250-257 | the matrix entry of a pair is the cost of the edge joining it, or `Inf` when no edge does |
| Paths.FiniteWeightHasEdge | app.js:250-257 | a finite matrix entry means an edge joins the pair |
| Paths.MatrixWeightSymmetric | app.js:253-256 | the matrix is symmetric |
| Paths.MatrixWeightIgnoresFlags | app.js:250-257 | the matrix does not depend on the flags |
| Paths.PathExtend | app.js:280-281 | extending a walk to `u` by the edge `u`-`v` gives a walk to `v` that costs `u`'s walk plus the matrix entry |
| Paths.PrefixCost | app.js:280-281 | a prefix of a walk costs no more than the whole walk |
| Paths.FirstExit | app.js:267-291 | a walk that starts inside a set and ends outside it has a first step that leaves the set |
| Paths.ExitStepCost | app.js:267-291 | the prefix that ends with the exit step costs the prefix's cost plus that step, and no more than the walk |
| Paths.CrossingBound | app.js:267-291 | when every node outside the settled set is relaxed over the settled set, any walk from the source to an unsettled node costs at least the least unsettled distance |
| Dijkstra.BuildMatrix | app.js:250-257 | the `(lastNodeId + 1)`-square matrix holds the edge cost of every pair, `Inf` elsewhere |
| Dijkstra.CollectIds | app.js:259-260 | the collected ids are the node ids in list order |
| Dijkstra.InitDistances | app.js:262-264 | every node is at `Inf` except the source, which is at 0 |
| Dijkstra.SelectMin | app.js:268-275 | the selection is an unsettled node of least distance, the last such in list order (the scan compares with `<=`); `None` only when every node is settled |
| Dijkstra.RelaxAt | app.js:280-288 | `v` improves only when it is unsettled and `dist[u] + G[u][v] < dist[v]`; a first improvement emits `EdgeAdded(u, v)`, a later one `EdgeReplaced(prev[v], u, v)`; `prev[v]` becomes `u`; the state of the pass moves on by one node |
| Dijkstra.PassEvents | app.js:279-288 | the events of a pass over the nodes visited so far, in visiting order, are edge events from `u` into visited nodes |
| Dijkstra.PassEventsFrame | app.js:279-288 | the events of the nodes visited so far do not depend on the distance of a node not yet visited |
| Dijkstra.PassEventsAscend | app.js:279 | visiting ids in increasing order, the pass logs its edge events into increasing ids |
| Dijkstra.StepOrder | app.js:279-288 | one step appends the event of the visited node, if it improved, after the events of the nodes before it, and leaves the nodes still to come untouched |
| Dijkstra.PassStart | app.js:279 | before the pass nothing has changed and nothing is logged, and no node has been visited |
| Dijkstra.StepState | app.js:280-288 | one step keeps the state of the pass, one node further on |
| Dijkstra.StepLog | app.js:280-288 | one step keeps the log of the pass: edge events from `u` that draw the predecessor map, one per improved node |
| Dijkstra.StepEvent | app.js:282-287 | the event of an improving step animates edges of the store, leaves the settling order alone, and keeps the log in order: it comes from `u`, the node settled last, into an unsettled node |
| Dijkstra.LogStep | app.js:282-287 | the log after one step still draws the predecessor map, each event fits the tree before it, and each improved node has exactly one event |
| Dijkstra.ImprovedNotAParent | app.js:280-287 | a node that is about to improve is no node's predecessor, as predecessors are settled |
| Dijkstra.AnnounceStep | app.js:282-287 | a node's first improvement in the pass logs exactly one event into it |
| Dijkstra.RelaxPrev | app.js:279-290 | after the pass, improved nodes have `u` as predecessor and settled nodes keep theirs |
| Dijkstra.PassDone | app.js:279-290 | after the last step, every unsettled node is relaxed over `u`, the tree and walks are kept, and the log added exactly the tree-edge events of the improved nodes, in node-list order |
| Dijkstra.StepMaps | app.js:280-288 | after one step, each node either kept its distance, predecessor and walk, or improved strictly via `u` |
| Dijkstra.BoundStep | app.js:280-281 | one more node's distance is bounded by the route through `u` |
| Dijkstra.ReplacedEdgeOk | app.js:285-287 | the tree edge being replaced is an edge of the store and is not `u`'s |
| Dijkstra.RelaxStep | app.js:281-287 | improving one node keeps every node kept or improved |
| Dijkstra.RelaxDistances | app.js:279-290 | after the pass, settled distances are unchanged; every unsettled distance is the smaller of its old value and the route through `u` |
| Dijkstra.RelaxKeepsTree | app.js:279-290 | the pass keeps every predecessor settled, with each node's distance equal to its predecessor's plus the edge between them |
| Dijkstra.RelaxKeepsWitnessed | app.js:279-290 | every finite distance keeps a walk of exactly that cost |
| Dijkstra.Relax | app.js:279-290 | the pass relaxes every unsettled node over `u`; the old log is kept as a prefix and the added events are exactly the tree-edge events of the improved nodes in node-list order (`PassEvents`), each an edge event from `u` into an unsettled node; each improved node gets `u` as predecessor and exactly one edge event, the others none; the log still draws the predecessor map; settled nodes keep their predecessors; the settling order is unchanged |
| Dijkstra.Settle | app.js:277-290 | one round settles `u` and relaxes over it: the log grows by `NodeSettled(u)` followed by exactly the tree-edge events from `u` of the nodes whose distance improved, in node-list order; the settling order grows by `u`; the loop invariant holds, the log stays in order, each pass's targets ascend, the log draws the predecessor map, and every predecessor is settled before its node |
| Dijkstra.SettleAscends | app.js:277-290 | a settle event followed by a pass over increasing ids keeps each pass's targets ascending |
| Dijkstra.SettleShape | app.js:277-278 | a log that extends the old log and the settle event keeps the old log as its prefix, with the settle event next |
| Dijkstra.SettleReady | app.js:277-278 | the settle event keeps the log in order and drawing the same tree, and makes `u` the node settled last |
| Dijkstra.SettleDone | app.js:267-291 | after the pass over `u`, the loop invariant holds with `u` settled last, and predecessors still come before their nodes |
| Dijkstra.SettleKeepsPrevBefore | app.js:277-290 | settling `u` after its predecessor, with settled predecessors unchanged, keeps every predecessor earlier in the settling order |
| Dijkstra.SettleIsOptimal | app.js:268-277 | the unsettled node of least finite distance has its shortest-path distance: a walk costs exactly that and none costs less; the first node settled is the source |
| Dijkstra.SettleKeepsInv | app.js:267-291 | settling the least node and relaxing over it keeps the loop invariant |
| Dijkstra.SettleKeepsOptimal | app.js:277-290 | settled distances stay exact through the pass |
| Dijkstra.SettleKeepsRelaxed | app.js:279-290 | after the pass, every unsettled node is relaxed over every settled node |
| Dijkstra.SettleKeepsOrdered | app.js:277 | no settled node is farther than an unsettled one |
| Dijkstra.SettleKeepsOrder | app.js:277-278 | the settling order stays free of repeats and non-decreasing in distance |
| Dijkstra.InitInv | app.js:262-265 | the initial distances satisfy the loop invariant, with the source at 0 witnessed by the one-node walk |
| Dijkstra.SettleAll | app.js:267-291 | the loop ends (the settled set grows each round) with every unsettled node at `Inf`, the invariant intact, the log in order with each pass's edge events in node-list order, the log drawing the predecessor map, and every predecessor settled before its node |
| Dijkstra.MatrixBounds | app.js:250-257 | every node id and edge endpoint of a well-formed store indexes the matrix |
| Dijkstra.FinalState | app.js:276 | when the loop stops, settled nodes have shortest-path distances, unsettled ones are unreachable, and the source is settled |
| Dijkstra.RunOutcome | app.js:276 | the final loop state meets `RunCorrect`: settled nodes have finite shortest-path distances; the predecessor map is the tree the log draws, with each predecessor settled first; each edge event comes from the node settled last before it, into an unsettled node, and within a pass in node-list order |
| Dijkstra.Search | app.js:249-291 | the search from the selected node meets `RunCorrect` (shortest distances and tree; the log settles in distance order, each edge event from the last settled node into an unsettled one, in node-list order within each pass), and the store equals the replay of its event log |
| Dijkstra.RunFlags | app.js:242-293 | after the run's log, a node is flagged exactly when it was settled, and an edge exactly when it joins a node to its predecessor |
| Dijkstra.PathCostIgnoresFlags | app.js:243 | walk costs do not depend on the flags that the restart clears |
| Dijkstra.RunDistancesIgnoresFlags | app.js:243 | the distances and tree promised by a run do not depend on the flags |
| Dijkstra.RunCorrectIgnoresFlags | app.js:243 | the outcome promise does not depend on the flags |
| Dijkstra.Run | app.js:242-293 | flags are cleared first; with no selection there are no events; otherwise `RunCorrect` holds for the edges as they were; the store stays well formed and equals the replay of the cleared store under the log; on the canvas left behind, exactly the settled nodes and the tree edges are flagged |

## Left out

- Rendering with d3, the mouse and keyboard handlers, dragging, and selection
  state are not modelled. The edit operations are methods. The selected node
  is an `Option` of its id, passed to `Dijkstra.Run`.
- Animation timing, transitions and durations are not modelled. Each awaited
  animation is one event whose commit happens before the next statement of the
  search runs. The two animations started by `Promise.all` are one event;
  `Animation.PairedCommitsCommute` shows that their completion order does not
  matter.
- Dijkstra.Run: the search runs to its end with no other operation between its
  steps. In the program every `await` yields to the browser, so the user can
  add or delete nodes, draw edges, edit costs or press start again while a run
  is animating. The nodes and edges the search sees would then change under it,
  and a second run would interleave its flags with the first. None of this
  interleaving is modelled.
- Coordinates are `real` and play no part. The Euclidean length, and the cost
  `Math.floor(length / 30)` derived from it when an edge is drawn, are not
  modelled: costs enter as natural numbers.
- GraphStore.Graph.SetEdgeCost: a cost edited through the prompt is a
  string in the program, and the later `+` in the search would then
  concatenate rather than add. Costs here are natural numbers, so that
  behaviour is not captured. The alert and the prompt dialogs themselves are
  not modelled.
- GraphStore.Graph.SetEdgeCost requires an edge joining the pair. The program
  dereferences the lookup's result (app.js:38) and throws when there is no
  edge, and the program can reach that case. The repaint binds edges to their
  groups by position, with no key (app.js:331), and the paths keep the edge
  they were created with, because `merged.selectAll('path')` (app.js:339)
  does not pass the group's new edge down. With edges `0-1` and `1-2`,
  deleting node 0 (app.js:224-225) leaves the first group bound to `1-2` but
  its path still bound to `0-1`. A click on that path calls `setEdgeCost(0, 1,
  …)` (app.js:174-183), which finds no edge. The model excludes this stale
  path case through the requires.
- Costs are natural numbers, so the non-negative costs that Dijkstra's method
  assumes are built into the type. The program's check of an edited cost
  before it is stored is not modelled.
- GraphStore.Graph.AddEdge requires both endpoints to be current nodes, and
  the store invariant `EndpointsExist` keeps every edge between current nodes.
  The program does not guarantee this. A mouse-down on a node records it as
  the drag source (app.js:155). Pressing Delete while the button is still held
  removes that node (app.js:223-225) but leaves the drag source set. A
  mouse-up over another node then calls `addEdge` with the deleted id
  (app.js:165-171), which stores an edge to a missing node (app.js:34), and
  the next repaint fails on its lookup (app.js:343). The model excludes this
  delete-during-drag case through the requires.
- Dijkstra.Run requires the selected id to be a current node. A deleted node
  is deselected by the delete handler.
- Nodes and edges are values in sequences, not shared objects. Aliasing
  between the selection state and the lists is not captured.
- A node (app.js:27) and an edge (app.js:34) are created with their flag
  `false`; the program leaves the property undefined, which behaves the same
  in every check of the flag the program makes (app.js:314, 340).
- Dijkstra.RunCorrect: over the whole log, the contract fixes the settling
  order, where each edge event comes from, the node-list order of the edge
  events within a pass, and the tree they draw. It does not fix which edge
  events each pass emits, because that depends on the distances before the
  pass, which the log alone does not carry. Round by round it is stated
  exactly: `Dijkstra.Settle` promises that the events after `NodeSettled(u)`
  are `PassEvents` of the node list.
- Dijkstra.SettleAll: over the whole log, the same gap as `RunCorrect`: which
  edge events each pass emits is stated per round by `Dijkstra.Settle`, not
  for the loop as a whole.
- Dijkstra.Search: promises `RunCorrect`, so it has the same gap over the
  whole log.
- Dijkstra.Run: promises `RunCorrect`, so it has the same gap over the whole
  log.
- The final `console.log` of the settled set is not modelled; `Dijkstra.Run`
  returns the set instead.
- Distances in the program are floating-point numbers. Here they are unbounded
  naturals, so no rounding or overflow is modelled.
