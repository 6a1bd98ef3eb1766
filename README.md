# CRNSA graph analyses, modelled and verified in Dafny

This project models the analysis routines of CRNSA, a Rust crate of network-analysis tools
built on petgraph, and proves what they compute. The modelled routines are:

- the Leiden-style community detection engine of `src/leiden.rs`:
  - singleton start;
  - modularity gain;
  - local moving to a fixed point;
  - coarsening into a community graph;
  - the ten-round driver;
- bridge detection (`src/bed.rs`);
- k-core pruning (`algo_repo/kcore.rs`);
- label propagation (`algo_repo/LPA.rs`);
- the degree histogram and clustering coefficient (`src/network_analysis.rs`);
- degree assortativity (`src/assort.rs`);
- the core/periphery split (`src/cpa.rs`);
- grouping of nodes into components by payload (`src/cca.rs`);
- degree centrality on a `GraphMap` (`src/centrality.rs`).

Files, one module each:

- `graphs.dfy` (`Graphs`): the shared graph value. A petgraph `Graph` is its node payloads in index order plus its edges `(u, v, w)` in insertion order. `Incident(g, x)` is petgraph's undirected adjacency walk: edges whose first endpoint is `x`, newest first, then edges whose second endpoint is `x`, newest first. A self loop appears once. Neighbour order, degrees and tie-breaks all follow this walk.
- `leiden.dfy` (`Leiden`): the community engine. The assignment is a `map<nat, nat>`.
  - Local moving is a method that updates the map in place, pass after pass. It is proved equal to a functional pass in which later nodes see earlier moves.
  - Refinement is a method building the coarse graph. It is proved equal to a function whose numbering, edge merging and relabelling are specified by lemmas.
  - The driver keeps the map keyed by the original node ids across rounds, as the source does, and proves that every lookup of a coarse node still succeeds.
- `bridges.dfy` (`Bridges`): the explicit-stack search with `low`, `disc` and `parent` as arrays, and petgraph's DFS iterator as a method over a visited bit set. A node can be pushed as `Enter` more than once, exactly as in the source.
- `kcore.dfy` (`KCore`): the pruning loop over a `degrees` array with petgraph's swap-remove. The degrees are indexed by position and go stale after a removal, as in the source. A corrected pruning `Peel` is proved to keep every k-dense node set.
- `lpa.dfy` (`Lpa`) and `grouping.dfy` (`Grouping`): in-place label propagation and the HashMap grouping shared with `cca`.
- `network_analysis.dfy`, `assort.dfy`, `cpa.dfy`, `cca.dfy`, `centrality.dfy`: the degree statistics. Each is an imperative method proved against a specification function.

Floating-point values are exact `real`s. The three places where the source computes a NaN or divides by zero are modelled explicitly:

- a zero node weight in `modularity_delta` (as NaN only, see "Left out");
- a zero denominator in the assortativity coefficient;
- an empty graph in `clustering_coefficient`.

## Model

| member | source | states |
|---|---|---|
| Leiden.InitialCommunityAssignments | src/leiden.rs:42-58 | the map has exactly the keys `0..n-1` and sends every node to itself |
| Leiden.StartIsSingletons | src/leiden.rs:231-240 | on the four-node test graph the start map is `{0:0, 1:1, 2:2, 3:3}` |
| Leiden.WeightSplit | src/leiden.rs:124-145 | `WTotal`, `WFrom` and `WTo` are `node_weight` and the two community weights: every incident edge counts in `node_weight` and in at most one of the `from` and `to` weights (the `else if`); with non-negative weights both are non-negative and together at most `node_weight` |
| Leiden.GainBounds | src/leiden.rs:114-148 | `Gain` (`modularity_delta`'s result): with non-negative weights, the gain is undefined (the source's NaN) exactly when the node's edge weight is 0, and otherwise lies in [-1, 1] |
| Leiden.CancellingIncident | src/leiden.rs:129 | node 0's walk in the graph with edges 0-1 (weight 1) and 0-2 (weight -1) visits the newer edge first |
| Leiden.CancellingGain | src/leiden.rs:133-148 | in that graph, with node 0 in community 0 and node 1 in community 1, the node weight is 0, the from-weight -1 and the to-weight 1, where the source's division gives +inf; the model's gain is undefined |
| Leiden.CancellingStays | src/leiden.rs:85-107 | in that graph node 0 stays in community 0, while the source moves it on the +inf gain |
| Leiden.ModularityDelta | src/leiden.rs:114-152 | the three-accumulator loop over `edges(node)` returns `(w_to - w_from) / w_total`, and no value when `w_total` is 0 |
| Leiden.ScanChoice | src/leiden.rs:76-101 | `Scan` (`best_community`, `best_delta_modularity`): after scanning the first K neighbours, either the node keeps its own community with gain 0 and no neighbour has positive gain, or the pick is the differing community of a neighbour j with positive gain d, no earlier neighbour reaches d and no later one exceeds it (first of equal best gains wins) |
| Leiden.BestMoves | src/leiden.rs:76-104 | `Best`: a node's best community differs from its own exactly when some neighbour community has strictly positive gain, and then it is a neighbour's community |
| Leiden.BestCommunity | src/leiden.rs:74-101 | the imperative neighbour scan returns the best community defined by `Best` |
| Leiden.SweepFrame | src/leiden.rs:72-107 | a pass prefix keeps the key set and leaves every node not yet visited as it was |
| Leiden.SweepOther | src/leiden.rs:104-105 | visiting a node writes no other node's entry |
| Leiden.SweepLast | src/leiden.rs:104-105 | the visited node's entry becomes the rule's choice against the map as it stood |
| Leiden.SweepWritten | src/leiden.rs:72-108 | `Sweep` (the node loop): the entry written for node j is the choice against the map left by nodes `0..j-1` (later nodes see earlier moves) and survives the rest of the pass |
| Leiden.PassPrefix | src/leiden.rs:72-108 | after i nodes of a pass the key set is unchanged, every node still has an entry, and nodes from i on are untouched |
| Leiden.PassPrefixNext | src/leiden.rs:104-105 | iteration i sets node i to its best community against the map so far and changes nothing else |
| Leiden.PassPrefixWritten | src/leiden.rs:74-105 | in a pass, node j ends in its best community computed against the map the pass had reached at j |
| Leiden.Pass | src/leiden.rs:72-108 | a full pass never adds or removes keys |
| Leiden.PassFixedPoint | src/leiden.rs:67-109 | a pass leaves the map unchanged if and only if no node has a neighbour community with strictly positive gain |
| Leiden.UnchangedPrefix | src/leiden.rs:72-108 | when a whole pass changes nothing, every prefix of it changed nothing |
| Leiden.StablePrefix | src/leiden.rs:96-107 | on a locally optimal map no step of a pass moves a node |
| Leiden.MovePass | src/leiden.rs:69-108 | the in-place pass yields the functional pass, and the `improvement` flag is set exactly when the map changed |
| Leiden.LocalMove | src/leiden.rs:62-110 | local moving never adds or removes keys |
| Leiden.LocalMoveAdvance | src/leiden.rs:64-69 | one more pass either stops with convergence (nothing moved) or continues from the new map |
| Leiden.LocalMoveStep | src/leiden.rs:64-69 | the outer loop's invariant survives one pass |
| Leiden.LocalMoving | src/leiden.rs:62-110 | the in-place loop computes `LocalMove`: its final map, and whether the last pass changed nothing |
| Leiden.LocalMoveConverged | src/leiden.rs:64-107 | when local moving stops because a pass changed nothing, the map is locally optimal: no node has a neighbour community with strictly positive gain |
| Leiden.LocalMoveStable | src/leiden.rs:64-107 | local moving leaves a locally optimal map as it is, and reports convergence whenever at least one pass runs |
| Leiden.NumberingSeen | src/leiden.rs:164-172 | `Numbering` (the `mapping` loop): the numbered communities are exactly the community values met while walking the map |
| Leiden.NumberingInjective | src/leiden.rs:169-171 | distinct communities get distinct new nodes, and new node `mapping[c]` carries payload `(c, 0.0)` |
| Leiden.NumberingOnto | src/leiden.rs:169-171 | every new node index `0..k-1` is some community's number, and there are as many new nodes as communities |
| Leiden.NumberingKeys | src/leiden.rs:164-172 | walking every key numbers exactly the set of community values |
| Leiden.NumberCommunities | src/leiden.rs:164-172 | the imperative `entry().or_insert_with` loop computes `Numbering` |
| Leiden.FindEdge | src/leiden.rs:189 | `find_edge_undirected` returns the lowest-index edge joining the two nodes in either orientation, and none exactly when no edge joins them |
| Leiden.AccumulateKeeps | src/leiden.rs:189-194 | `Accumulate` and `UpdateEdge` (`find_edge_undirected`, then `update_edge`): adding a weight keeps every existing edge's endpoints and either updates an existing joining edge or appends a new one |
| Leiden.CoarsenNoLoops | src/leiden.rs:181-195 | the coarse graph has no self loop: intra-community edges are dropped |
| Leiden.CoarsenNoParallel | src/leiden.rs:188-194 | the coarse graph has at most one edge between any two coarse nodes |
| Leiden.CoarsenComplete | src/leiden.rs:175-196 | `Coarsen` (the edge loop): every inter-community edge is represented by a coarse edge between the two communities' nodes |
| Leiden.CoarsenSound | src/leiden.rs:175-196 | conversely, every coarse edge runs from the node of one community to the node of another, as the image of some original edge between those two communities |
| Leiden.CrossWeightZero | src/leiden.rs:181-194 | a pair of communities linked by no edge gets no weight |
| Leiden.CoarsenWeights | src/leiden.rs:186-194 | each coarse edge weighs the sum of all original edges between its two communities |
| Leiden.CoarsenTotal | src/leiden.rs:175-196 | the coarse graph's total weight equals the inter-community weight of the original |
| Leiden.WeightPartition | src/leiden.rs:175-181 | every edge is either inter- or intra-community: the two weights sum to the total |
| Leiden.CoarseEdges | src/leiden.rs:175-196 | the imperative edge loop computes `Coarsen` |
| Leiden.Reassign | src/leiden.rs:198-202 | every node of the map is sent to `mapping[its community]` |
| Leiden.RefineNodes | src/leiden.rs:164-172 | the coarse graph has one node per distinct community, numbered injectively onto `0..k-1`, and k is at most the number of keys |
| Leiden.RefineEdges | src/leiden.rs:175-196 | `Refine`: the coarse graph is well formed, loop-free and without parallel edges, represents every inter-community edge, and carries the summed weights and the inter-community total |
| Leiden.RefineAssignment | src/leiden.rs:198-202 | the new map has the same keys, sends each node to `mapping[a[node]]`, a valid coarse node, and two nodes share a new community exactly when they shared the old one |
| Leiden.RefineWeightDrops | src/leiden.rs:175-196 | with non-negative weights, the coarse total plus the dropped intra weight is the original total, so the total never grows |
| Leiden.Refinement | src/leiden.rs:157-206 | the imperative refinement returns the coarse graph, the new map and the mapping of `Refine` |
| Leiden.Round | src/leiden.rs:23-30 | after a round the map still has exactly the original keys and covers every node of the coarse graph, so the next round's lookups succeed |
| Leiden.LeidenRound | src/leiden.rs:23-30 | the loop body computes `Round` |
| Leiden.Leiden | src/leiden.rs:21-34 | the driver's map keeps exactly the original node ids as keys |
| Leiden.LeidenCommunities | src/leiden.rs:10-38 | exactly ten rounds from the singleton map, keys exactly `0..n-1` |
| Leiden.UniformOptimal | src/leiden.rs:85 | a map with one community for all nodes is locally optimal: no neighbour community differs |
| Leiden.CoarsenIntra | src/leiden.rs:181 | when every edge is intra-community the coarse graph has no edges |
| Leiden.UniformRefine | src/leiden.rs:164-202 | refining a one-community map gives a single node with payload `(c, 0.0)`, no edges, and every node in community 0 |
| Leiden.UniformRound | src/leiden.rs:23-30 | a round on a one-community map collapses to a single node with all nodes in community 0 |
| Leiden.LeidenUniform | src/leiden.rs:21-34 | once all nodes share a community, every later round keeps them all in community 0 |
| Leiden.TestIncident | src/leiden.rs:215-229 | the neighbour walks of the square with diagonal in petgraph's order |
| Leiden.TestWeights0 | src/leiden.rs:129-145 | on the test graph node 0 has weight 3 and weight 1 toward each neighbour |
| Leiden.TestCandidates0 | src/leiden.rs:87-93 | every neighbour community of node 0 offers gain 1/3 |
| Leiden.TestBest0 | src/leiden.rs:76-101 | node 0 moves to community 2, the first neighbour in its walk |
| Leiden.TestBest1 | src/leiden.rs:76-101 | node 1 then moves to community 2 |
| Leiden.TestBest2 | src/leiden.rs:76-101 | node 2 stays in community 2 |
| Leiden.TestBest3 | src/leiden.rs:76-101 | node 3 moves to community 2 |
| Leiden.TestHalfPass | src/leiden.rs:72-108 | after two nodes of the first pass the map is `{0:2, 1:2, 2:2, 3:3}` |
| Leiden.TestFullPass | src/leiden.rs:72-108 | after the first pass every node is in community 2 |
| Leiden.TestPass | src/leiden.rs:72-108 | the first full pass puts all four nodes in community 2 |
| Leiden.GatheredMove | src/leiden.rs:64-69 | a first pass that gathers all nodes hands the loop the uniform map |
| Leiden.UniformStays | src/leiden.rs:64-107 | local moving leaves a uniform map as it is |
| Leiden.PassGathers | src/leiden.rs:64-107 | if the first pass gathers all nodes into one community, local moving ends there |
| Leiden.LeidenGathered | src/leiden.rs:21-34 | if the first local moving gathers all nodes, the driver returns every node in community 0 |
| Leiden.LeidenOnePass | src/leiden.rs:21-34 | if the first pass gathers all nodes, the driver returns every node in community 0 |
| Leiden.TestLeiden | src/leiden.rs:242-257 | on the test graph the driver puts all four nodes in one community, whatever the HashMap orders |
| Leiden.EdgelessOptimal | src/leiden.rs:80-101 | on an edgeless graph no node has a neighbour, so every map is locally optimal |
| Leiden.EdgelessRound | src/leiden.rs:23-30 | on an edgeless graph a round keeps the graph edgeless and distinct nodes in distinct communities |
| Leiden.LeidenEdgeless | src/leiden.rs:21-34 | on an edgeless graph the driver leaves every node in a community of its own |
| Bridges.FreshSpec | src/bed.rs:73-77 | the neighbours pushed as `Enter` are exactly those whose `disc` is 0 at the moment of the push |
| Bridges.SetParents | src/bed.rs:76 | each pushed neighbour gets the entered node as parent; other parents are unchanged |
| Bridges.LowScan | src/bed.rs:78-80 | lowering by a discovered non-parent neighbour's `disc` never raises `low` |
| Bridges.EnterNode | src/bed.rs:63-83 | entering `u` increments `time`, sets `disc[u]` to it, pushes `Exit(u)` and then `Enter` for every undiscovered neighbour, sets their parents, and lowers `low[u]` to the least `disc` of discovered non-parent neighbours |
| Bridges.ScanNeighbors | src/bed.rs:73-82 | the neighbour loop updates only `low[u]` and the parents of pushed neighbours, and pushes exactly the undiscovered ones |
| Bridges.ScanNeighbor | src/bed.rs:74-81 | one neighbour of the loop keeps the scan invariant |
| Bridges.PushNeighbor | src/bed.rs:74-77 | an undiscovered neighbour is pushed and parented |
| Bridges.LowerLink | src/bed.rs:78-80 | a discovered non-parent neighbour lowers `low[u]` by `min` |
| Bridges.ExitNode | src/bed.rs:84-94 | leaving `u` with a parent `p` sets `low[p]` to `min(low[p], low[u])` and reports `(p, u)` exactly when `low[u] > disc[p]`; without a parent nothing changes |
| Bridges.EnterConsistent | src/bed.rs:65-80 | entering a node keeps `low <= disc <= time` for every node, and every parent is a distinct node joined by an edge |
| Bridges.FreshNeighbour | src/bed.rs:73-80 | a node pushed when `u` is entered is a neighbour of `u` joined by an edge, and not `u` itself |
| Bridges.EnterClosed | src/bed.rs:70-77 | after entering, every neighbour of a discovered node is discovered or waits on the stack as `Enter` |
| Bridges.EnterMeasure | src/bed.rs:63-83 | entering a node either discovers a new node or lowers the stack weight, so the search terminates even when a node is pushed twice |
| Bridges.StepKeeps | src/bed.rs:61-95 | one pop keeps the arrays consistent and every stacked node in range, and either discovers a node or lowers the stack weight, so the search ends |
| Bridges.Run | src/bed.rs:58-96 | the loop run until the stack is empty keeps `low <= disc <= time` and every parent a distinct neighbour |
| Bridges.RunKeeps | src/bed.rs:63-67 | a search forgets no discovered node |
| Bridges.RunDiscovers | src/bed.rs:58-67 | a search started from `x` discovers `x` |
| Bridges.BridgeStep | src/bed.rs:61-95 | one pop keeps the search invariant, lowers the termination measure, and leaves the state `Step` gives |
| Bridges.EnterStep | src/bed.rs:63-83 | an `Enter` pop keeps the search invariant, lowers the measure, and leaves the state `Entered` gives |
| Bridges.EnteredIs | src/bed.rs:63-83 | the arrays, counter and stack an `Enter` pop leaves are those of `Entered` |
| Bridges.EnterSearching | src/bed.rs:63-83 | the array updates of an `Enter` keep the search invariant over sequences |
| Bridges.ExitStep | src/bed.rs:84-94 | an `Exit` pop keeps the search invariant, shrinks the stack weight, and leaves the state `Exited` gives |
| Bridges.ExitKeeps | src/bed.rs:84-94 | popping an `Exit` keeps every discovered node's neighbours accounted for |
| Bridges.BridgeDfs | src/bed.rs:42-97 | the search discovers `start`, advances `time`, keeps `low <= disc <= time`, forgets no discovered node, reports only edges of the graph, and leaves every neighbour of a discovered node discovered; its final arrays, counter and reported set are those of `Run` from the stack `[Enter(start)]` |
| Bridges.SearchCoversComponent | src/bed.rs:58-96 | after a search every node reachable by a walk from a discovered node is discovered: the whole component of `start` is searched |
| Bridges.UnseenSpec | src/bed.rs:31 | petgraph's DFS pushes exactly the neighbours not yet visited |
| Bridges.DfsNext | src/bed.rs:31 | the DFS iterator pops visited nodes, hands out the top unvisited node, marks it and pushes its unvisited neighbours; it returns none only when the stack has run dry; the result is `Next` |
| Bridges.PopMarked | src/bed.rs:31 | popping leaves a prefix of the stack whose top is unvisited, all popped nodes were visited, and the result is `Popped` |
| Bridges.Popped | src/bed.rs:31 | the popped stack is a prefix of the stack whose top, if any, is unvisited |
| Bridges.Next | src/bed.rs:31 | `Dfs::next` keeps the marks and the stack within the graph, and handing out a node marks one more node |
| Bridges.Initial | src/bed.rs:24-28 | the all-zero arrays, no parents and `time` 0 satisfy the search invariant |
| Bridges.Visit | src/bed.rs:31-35 | the outer loop keeps the search invariant and ends with an empty stack |
| Bridges.VisitSome | src/bed.rs:31-35 | one round: a node handed out with `disc` 0 starts a search, then `Dfs` hands out the next node |
| Bridges.SearchFrom | src/bed.rs:32-34 | a node with `disc` 0 starts `Run` from `[Enter(x)]`; a discovered node changes nothing |
| Bridges.VisitAll | src/bed.rs:31-35 | the loop over petgraph's `Dfs` computes `Visit` |
| Bridges.VisitDone | src/bed.rs:31-35 | once every node is discovered, the remaining rounds change nothing |
| Bridges.OneSearch | src/bed.rs:13-39 | when the search from node 0 discovers every node, find_bridge_edges returns what that search reported |
| Bridges.PushUnseen | src/bed.rs:31 | the unvisited neighbours are pushed in walk order |
| Bridges.FindBridgeEdges | src/bed.rs:13-39 | an empty graph yields no bridges, every reported pair is an edge of the graph between two distinct nodes, and the result is `BridgeEdges`: petgraph's `Dfs` from node 0, with a search from every node it hands out that is still undiscovered |
| Bridges.TwoTrianglesNeighbors | src/bed.rs:107-120 | the neighbour walks of the two-triangle test graph in petgraph's order |
| Bridges.TwoTrianglesRun | src/bed.rs:42-97 | on the two-triangle graph the search from node 0 enters nodes 1 and 4 twice, ends at time 8 and reports only 1-3 |
| Bridges.TwoTrianglesBridges | src/bed.rs:122-131 | find_bridge_edges on the two-triangle graph returns exactly {(1, 3)} |
| Bridges.TriangleNeighbors | src/bed.rs:142-147 | the neighbour walks of the triangle in petgraph's order |
| Bridges.TriangleRun | src/bed.rs:42-97 | on the triangle the search from node 0 enters node 1 twice, ends at time 4 and reports nothing |
| Bridges.TriangleBridges | src/bed.rs:140-151 | find_bridge_edges on the triangle returns no bridges |
| Bridges.EdgelessWalk | src/bed.rs:9-12 | in a graph without edges no walk takes a step |
| Bridges.DisconnectedBridge | src/bed.rs:9-12 | in the graph of nodes 0, 1, 2 and the single edge 1-2, that edge is a bridge: without it no walk joins 1 and 2 |
| Bridges.DisconnectedDfs | src/bed.rs:22-31 | on that graph petgraph's `Dfs` from node 0 hands out node 0 and then runs dry |
| Bridges.DisconnectedFirstRun | src/bed.rs:42-97 | on that graph the search from node 0 discovers node 0 only |
| Bridges.MissedBridge | src/bed.rs:13-39 | on that graph 1-2 is a bridge, yet find_bridge_edges returns no bridges |
| Bridges.SearchAll | src/bed.rs:31-35 | a search from every undiscovered node in index order keeps the search invariant |
| Bridges.SearchAllCovers | src/bed.rs:31-35 | searching from every node from `v` on leaves every node discovered |
| Bridges.AllSearched | src/bed.rs:9-35 | the corrected find_bridge_edges discovers every node of the graph, whatever its components |
| Bridges.DisconnectedSecondRun | src/bed.rs:42-97 | on the disconnected graph the search from node 1 reports 1-2 |
| Bridges.FoundBridge | src/bed.rs:9-12 | the corrected find_bridge_edges reports exactly {(1, 2)} on the disconnected graph |
| Bridges.FindAllBridgeEdges | src/bed.rs:13-39 | the corrected method reports only edges, and its result is `AllBridgeEdges` |
| KCore.RemoveNode | algo_repo/kcore.rs:51 | swap-remove drops one node and keeps the graph well formed; removing a missing node changes nothing |
| KCore.RemoveNodePayload | algo_repo/kcore.rs:51 | after removing `a`, every other node's payload sits at its new position (the last node moves into `a`'s place) |
| KCore.CandidatesSpec | algo_repo/kcore.rs:30-34 | `Candidates`: the candidates are exactly the positions of the pruned graph whose recorded degree is below k, in increasing order |
| KCore.DecrementSpec | algo_repo/kcore.rs:43-48 | `Decrement`: the guarded decrements never raise a recorded degree and touch only neighbours |
| KCore.Decrement | algo_repo/kcore.rs:43-48 | the decremented degree list has one entry per position, like the input |
| KCore.KCore | algo_repo/kcore.rs:10-73 | what `k_core_decomposition` returns is well formed when the input is and never has more nodes than it |
| KCore.RemoveAll | algo_repo/kcore.rs:42-52 | a non-empty round whose first candidate is a valid position removes at least one node |
| KCore.RemoveAllSpec | algo_repo/kcore.rs:42-52 | a removal round never raises a recorded degree and keeps the graph well formed |
| KCore.Prune | algo_repo/kcore.rs:25-53 | the loop never grows the graph and terminates because every non-empty round shrinks it |
| KCore.PruneSpec | algo_repo/kcore.rs:25-53 | when the loop exits, every remaining position has recorded degree at least k, and the graph is well formed |
| KCore.InitDegrees | algo_repo/kcore.rs:17-22 | `degrees[i]` starts as node i's neighbour count |
| KCore.CollectCandidates | algo_repo/kcore.rs:27-34 | the collecting loop computes the candidate list |
| KCore.DecrementNeighbors | algo_repo/kcore.rs:43-48 | the decrement loop computes `Decrement` on the array |
| KCore.RemoveCandidates | algo_repo/kcore.rs:42-52 | the removal loop computes one round of `RemoveAll` on the graph and the degree array |
| KCore.Rebuild | algo_repo/kcore.rs:56-69 | the result has the pruned graph's payloads and edges, in index order |
| KCore.KCoreDecomposition | algo_repo/kcore.rs:10-73 | the method returns the as-written pruning `KCore` as a well-formed graph; with k = 0 the result is the input |
| KCore.Peel | algo_repo/kcore.rs:25-53 | pruning with degrees recomputed after every removal leaves only nodes of degree at least k |
| KCore.RemoveKeepsDense | algo_repo/kcore.rs:51 | removing a node outside a k-dense set keeps the renamed set k-dense |
| KCore.PeelKeepsDense | algo_repo/kcore.rs:25-53 | the corrected pruning keeps every node of every set in which each node has at least k neighbours, so it computes the k-core |
| KCore.ExamplePrune | algo_repo/kcore.rs:25-53 | on nodes 0, 1, 2 with the single edge 1-2 and k = 1, the as-written pruning removes every node |
| KCore.ExamplePruneRounds | algo_repo/kcore.rs:25-53 | on that example the pruning rounds, started from the recorded degrees [0, 1, 1], each remove position 0 until the graph is empty |
| KCore.ExampleDiscrepancy | algo_repo/kcore.rs:31-51 | on that graph {1, 2} is a 1-core that `Peel` keeps, while the as-written result is empty |
| Lpa.Initial | algo_repo/LPA.rs:9-13 | every node has a label, and node i's label is i |
| Lpa.NeighbourLabels | algo_repo/LPA.rs:21-24 | one label per entry of the node's edge walk |
| Lpa.CountLabels | algo_repo/LPA.rs:20-24 | the counts have a key for each label among the node's neighbours, and each count is that label's multiplicity |
| Lpa.MostFrequent | algo_repo/LPA.rs:26-29 | with no counts the node keeps its own label; otherwise the pick is a label with maximal count |
| Lpa.NewLabel | algo_repo/LPA.rs:20-29 | the new label is a most frequent neighbour label, or the node's own when it has no edges |
| Lpa.LabelFromNeighbour | algo_repo/LPA.rs:26-29 | `Choice`: a chosen label is a node index, and a node without edges keeps its label |
| Lpa.IsolatedSettled | algo_repo/LPA.rs:26-29 | `Settled` and `Choice`: a node without edges is settled under any labels, and its own label is the only one `Choice` allows it |
| Lpa.Sweep | algo_repo/LPA.rs:19-35 | writing each node's pick in index order keeps every node labelled |
| Lpa.SweepHolds | algo_repo/LPA.rs:31-33 | after a sweep every visited node holds the label it took and every other node its old label |
| Lpa.SweepSnoc | algo_repo/LPA.rs:31-33 | one more node writes its pick into its own entry and nothing else |
| Lpa.AdmissibleSnoc | algo_repo/LPA.rs:19-33 | a label `Choice` allows against the map the sweep has reached keeps the pick list admissible, and the sweep writes it into that node's entry |
| Lpa.AdmissibleAt | algo_repo/LPA.rs:19-35 | in an admissible pass, node i took a label `Choice` allows against the map the nodes before it had left |
| Lpa.SweepWritten | algo_repo/LPA.rs:19-35 | after an admissible pass, node x holds a label `Choice` allows against the map as the pass reached x: later nodes see earlier moves |
| Lpa.Passes | algo_repo/LPA.rs:16-36 | the map after a sequence of passes keeps every node labelled |
| Lpa.ChainedAt | algo_repo/LPA.rs:16-36 | in a chain, pass k is admissible against the map the passes before it left |
| Lpa.ChainedSnoc | algo_repo/LPA.rs:16-36 | one more admissible pass extends the chain, and the map becomes that pass's sweep |
| Lpa.Pass | algo_repo/LPA.rs:17-35 | a pass keeps every node labelled with node indices, `changed` is set exactly when the map changed, isolated nodes keep their label, after a pass that changed nothing every node holds a most frequent neighbour label, and the new map is the sweep of an admissible list of picks: each node took a label `Choice` allows against the map the earlier nodes had left |
| Lpa.TracedPass | algo_repo/LPA.rs:15-36 | one iteration of the `while changed` loop: the pass's guarantees, with the new map the sweep of one more admissible pick list appended to the trace of passes |
| Lpa.Propagate | algo_repo/LPA.rs:9-36 | after the loop every node is labelled, isolated nodes keep their own index, and on convergence every node holds a most frequent neighbour label; the labels are reached from the start map by a chain of admissible passes, at most `fuel` of them, the last of which changed nothing when the loop converged |
| Lpa.LabelPropagation | algo_repo/LPA.rs:8-44 | the groups partition the nodes by final label, one group per label: every node is in exactly one group, only nodes appear, no group is empty; the labels carry the guarantees of `Propagate`, including the chain of admissible passes from the start map |
| Grouping.MembersSpec | algo_repo/LPA.rs:39-41 | `Members`: a group holds exactly the walked nodes with its key, without repetition |
| Grouping.GroupedPartition | algo_repo/LPA.rs:38-43 | a node is in some group exactly when it has a key, and in at most one group |
| Grouping.GroupCount | algo_repo/LPA.rs:38-43 | there is one group per distinct key |
| Grouping.MembersGrouped | src/cca.rs:19-29 | collecting members per key in walk order yields a grouping |
| Grouping.Collect | src/cca.rs:19-25 | the HashMap of vectors holds, under each key met, the nodes with that key in walk order |
| Grouping.Emit | src/cca.rs:29 | the vectors come out once each, in some order |
| Grouping.GroupByKey | algo_repo/LPA.rs:38-43 | grouping yields one group per key, each the nodes with that key in walk order, and the groups cover exactly the keyed nodes |
| NetworkAnalysis.MaxOf | src/network_analysis.rs:13 | the maximum degree is one of the degrees and bounds them all; an empty list is excluded (the source panics) |
| NetworkAnalysis.HistogramSpec | src/network_analysis.rs:18-20 | `Histogram`: entry d counts the occurrences of d, and the entries sum to the number of values |
| NetworkAnalysis.Histogram | src/network_analysis.rs:14-20 | the distribution has one entry per degree 0..len-1 |
| NetworkAnalysis.HistogramToMax | src/network_analysis.rs:13-20 | with length max + 1 every degree fits, and the last entry is at least 1 |
| NetworkAnalysis.Tally | src/network_analysis.rs:15-20 | the increment loop fills the array with the histogram |
| NetworkAnalysis.DegreeDistribution | src/network_analysis.rs:9-24 | length is max degree + 1, entry d is the number of nodes of degree d, the entries sum to the node count, and the last entry is at least 1; an empty graph is excluded (`max().unwrap()` panics) |
| NetworkAnalysis.LinkedBound | src/network_analysis.rs:47-53 | the pair loop counts at most k(k-1)/2 connected pairs |
| NetworkAnalysis.LocalBounds | src/network_analysis.rs:42-57 | `Local`: each node's coefficient `2c / (k(k-1))` lies in [0, 1] |
| NetworkAnalysis.TotalBounds | src/network_analysis.rs:35-59 | `Total`: the total over n nodes lies in [0, n] |
| NetworkAnalysis.AverageBounds | src/network_analysis.rs:62 | the average over a non-empty graph lies in [0, 1] |
| NetworkAnalysis.ConnectedNeighbors | src/network_analysis.rs:44-53 | the nested loop counts the connected neighbour pairs, at most k(k-1)/2 of them |
| NetworkAnalysis.ClusteringCoefficient | src/network_analysis.rs:28-63 | the result is undefined (the source's 0/0) exactly for the empty graph; otherwise it is the total over the nodes divided by their count, in [0, 1] |
| NetworkAnalysis.PathClustering | src/network_analysis.rs:95-101 | the path a-b-c has clustering coefficient 0 |
| Assortativity.EndDegrees | src/assort.rs:16-18 | one pair of endpoint degrees per edge |
| Assortativity.SumOrder | src/assort.rs:20-22 | `Products`, `Totals` and `Squares` (`sum1`, `sum2`, `sum3`): the product sum is at most the square sum, and the squared per-edge degree totals sum to at most twice their sum |
| Assortativity.CauchySchwarz | src/assort.rs:21-24 | the squared degree total is at most m times the sum of squared pair totals |
| Assortativity.CoefficientBounds | src/assort.rs:28-37 | `Coefficient`: the numerator lies between minus and plus the denominator, so the coefficient lies in [-1, 1] |
| Assortativity.Accumulate | src/assort.rs:10-25 | the loop's four accumulators are the product, total and square sums of the endpoint degrees and the edge count |
| Assortativity.Combine | src/assort.rs:28-37 | numerator `m*sum1 - (sum2/2)^2`, denominator `m*sum3 - (sum2/2)^2`, their quotient, or 0 when the denominator is 0 |
| Assortativity.AssortativityCoefficient | src/assort.rs:7-38 | the coefficient of the endpoint degrees, in [-1, 1], and 0 for a graph without edges (the empty and single-node tests) |
| Assortativity.ThreeSums | src/assort.rs:16-25 | the three sums over a three-edge list, term by term |
| Assortativity.LineDegrees | src/assort.rs:46-58 | the path n1-n2-n3-n4 has endpoint degrees (1,2), (2,2), (2,1) |
| Assortativity.StarDegrees | src/assort.rs:60-72 | the three-leaf star has endpoint degrees (3,1) three times |
| Assortativity.LineSums | src/assort.rs:20-22 | on the path the sums are 8, 10 and 18 |
| Assortativity.StarSums | src/assort.rs:20-22 | on the star the sums are 9, 12 and 30 |
| Assortativity.LineCoefficient | src/assort.rs:89-94 | the path's coefficient is exactly -1/29 |
| Assortativity.StarCoefficient | src/assort.rs:96-101 | the star's coefficient is exactly -1/6 |
| CorePeriphery.Core | src/cpa.rs:16-21 | a node is core exactly when its neighbour count reaches the threshold |
| CorePeriphery.Periphery | src/cpa.rs:16-24 | a node is periphery exactly when its neighbour count is below the threshold |
| CorePeriphery.CorePeripheryAnalysis | src/cpa.rs:8-29 | the insertion loop returns exactly the core and periphery sets |
| CorePeriphery.Partition | src/cpa.rs:16-25 | the two sets are disjoint, their union is the node set, and their sizes add up to the node count |
| CorePeriphery.ThresholdZero | src/cpa.rs:20-24 | with threshold 0 every node is core and the periphery is empty |
| CorePeriphery.Monotone | src/cpa.rs:20 | raising the threshold shrinks the core and grows the periphery |
| CorePeriphery.Path5Degrees | src/cpa.rs:39-49 | on the five-node path the ends have degree 1 and the inner nodes degree 2 |
| CorePeriphery.Path5Split | src/cpa.rs:51-55 | with threshold 2 the core is {b, c, d} and the periphery {a, e} |
| ConnectedComponents.Key | src/cca.rs:23 | `y as usize` saturates at the largest `usize` |
| ConnectedComponents.KeyFloor | src/cca.rs:23 | in range, `y as usize` is the integer part of y |
| ConnectedComponents.KeyOfWhole | src/cca.rs:23 | a whole number converts to itself |
| ConnectedComponents.ComponentKeys | src/cca.rs:22-24 | every node is keyed by its payload's second coordinate as `usize` |
| ConnectedComponents.Indices | src/cca.rs:22 | the node walk lists each node index once |
| ConnectedComponents.InsertionPoint | src/cca.rs:30 | the insertion point is after all groups at least as large and before all smaller ones |
| ConnectedComponents.PermutationInsert | src/cca.rs:30 | inserting the next index keeps a permutation |
| ConnectedComponents.BySizeInsert | src/cca.rs:30 | inserting at the insertion point keeps the order by non-increasing size |
| ConnectedComponents.StableInsert | src/cca.rs:30 | groups of equal size keep their relative order |
| ConnectedComponents.InsertNext | src/cca.rs:30 | one insertion step keeps the sort invariant: a stable permutation ordered by size |
| ConnectedComponents.SortBySize | src/cca.rs:30 | `sort_by` with the reversed length comparison returns a stable permutation of the groups ordered by non-increasing size |
| ConnectedComponents.PermutedGrouped | src/cca.rs:29-30 | reordering the groups keeps them a grouping |
| ConnectedComponents.AnalyzeConnectedComponents | src/cca.rs:12-34 | the count is passed through; the groups partition the nodes by payload key, one group per key, each in node order, sorted by non-increasing size |
| ConnectedComponents.EmptyGraph | src/cca.rs:96-103 | the empty graph yields no groups |
| ConnectedComponents.GroupSize | src/cca.rs:21-25 | a group's size is the number of nodes with its key |
| ConnectedComponents.Graph1Groups | src/cca.rs:75-83 | the two-node test graph yields one group of two |
| ConnectedComponents.Graph3Keys | src/cca.rs:63-73 | in the four-node test graph, a and b have key 0 and c and d key 1 |
| ConnectedComponents.Graph3Groups | src/cca.rs:85-94 | the four-node test graph yields two groups of two |
| ConnectedComponents.Graph2Keys | src/cca.rs:52-61 | in the three-node path, a and b have key 0 and c has key 1 |
| ConnectedComponents.Graph2Groups | src/cca.rs:52-61 | the connected three-node path yields two groups, of sizes 2 and 1, because grouping follows payloads and not edges |
| Centrality.AddNodeSpec | src/centrality.rs:43-47 | `AddNode`: adding a node keeps the map well formed, gives a new node no neighbours, and leaves the others alone |
| Centrality.AddNode | src/centrality.rs:43-47 | after `add_node(n)` the map has an entry for n |
| Centrality.LinkSpec | src/centrality.rs:43-47 | `Link`: linking two present nodes adds each to the other's neighbour list and nothing else |
| Centrality.AddEdgeSpec | src/centrality.rs:43-47 | `AddEdge`: `add_edge` adds missing endpoints and makes them neighbours; a repeated edge adds no second entry |
| Centrality.DegreeCountsAdjacent | src/centrality.rs:23 | `Degree`: `neighbors(node).count()` is the number of distinct neighbours |
| Centrality.DegreeCentrality | src/centrality.rs:16-31 | one entry per node of the graph, equal to its neighbour count |
| Centrality.IsolatedNode | src/centrality.rs:23-26 | a node added without edges has centrality 0 |
| Centrality.TestCentrality | src/centrality.rs:40-57 | on edges 0-1, 0-2, 1-2, 1-3 the values are 2, 3, 2 and 1 |
| Graphs.Degrees | src/network_analysis.rs:11 | node i's degree is the length of its neighbour walk |
| Graphs.Neighbors | src/leiden.rs:80 | `neighbors(x)` has one entry per step of `Incident(g, x)`, petgraph's walk (its order is stated by `AdjSnoc`) |
| Graphs.AdjSnoc | src/bed.rs:73 | the walk is newest first: adding an edge puts its view from each of its endpoints at the front of that endpoint's out- or in-list, and a self loop only in the out-list |
| Graphs.NeighborEdge | src/network_analysis.rs:37 | every step of a node's walk follows an edge at that node |
| Graphs.IncidentBelow | src/leiden.rs:129 | in a well-formed graph every node the walk reaches is a node of the graph |
| Graphs.DegreeBound | src/centrality.rs:23 | `neighbors(x).count()`, the `Degree`, is at most twice the number of edges |

## Left out

- Floating point: weights, gains and coefficients are exact `real`s. IEEE rounding is not modelled, and `powi(2)` is a product.
- NaN: `modularity_delta` with a node weight of 0 returns `None`, which never passes the `> 0.0` test, so the node stays where it is. This matches the source when the weights into both communities are also 0 (0/0 gives NaN), which is always the case with non-negative weights. `clustering_coefficient` on an empty graph returns `None` for the 0/0 result.
- Leiden.ModularityDelta: with negative weights that cancel, the node weight can be 0 while a community weight is not. The source then computes an infinite gain (+inf moves the node, -inf does not), and `best_delta_modularity` can become +inf. The model returns `None` for every zero node weight and keeps the node where it is. `Leiden.CancellingGain` and `Leiden.CancellingStays` show such an input; infinities are not modelled.
- HashMap iteration order is a parameter or an arbitrary choice. In Leiden refinement it is `order`, an enumeration of the keys per round. In grouping, the walk order is `order` and the order the groups come out in is `:|`. In LPA, ties between equally frequent labels are also `:|`.
- Leiden.LocalMoving and Lpa.Propagate: the source loops until a pass changes nothing, without bound. The model stops after `fuel` passes and reports whether it converged.
- Lpa.LabelPropagation: the test's expected communities ({0,1,2}, {3,4,5}) depend on HashMap tie-breaking and are not proved.
- Leiden.Sweep writes the visited node's entry on every iteration, while the source inserts only when the community changes; both leave the same map.
- Leiden.FindEdge: petgraph's `find_edge_undirected` is modelled as the lowest-index joining edge. `update_edge` then rewrites that edge's weight.
- Leiden.Refinement: the returned graph's node payload is `(community as f64, 0.0)`, modelled as `(c as real, 0.0)`.
- Bridges.FindBridgeEdges: the result is pinned down as `BridgeEdges`, the search run on values, and both source tests are proved on it. That a reported edge is a bridge, and that every bridge of a searched component is reported, is not proved for all graphs: it is Tarjan's theorem about DFS trees, and the search here enters some nodes twice.
- Bridges: parallel edges are not told apart. The parent check compares nodes, not edges, so two parallel edges between a node and its parent can be reported as a bridge.
- Bridges: `time` is a `nat`; `usize` overflow after 2^64 entries is not modelled.
- KCore: petgraph's edge order after `remove_node` is modelled as the kept edges in their original order with the moved node renamed. Removal of an edge also swaps the last edge into its place, which is not modelled.
- KCore.KCoreDecomposition: the node indices in `nodes_to_remove` are used after earlier removals in the same round have moved nodes. The model keeps this.
- Assortativity: the model covers undirected graphs, which is how the crate calls it; directed-graph neighbour counts are not modelled.
- ConnectedComponents: the component count comes from petgraph's `connected_components`, a library call, and is an input. The grouping follows the payload's second coordinate, not the edges.
- ConnectedComponents.SortBySize is an insertion sort on sequence values; the source's in-place `sort_by` is not modelled as an array algorithm.
- Centrality: edge weights of the `GraphMap` play no part and are left out.
- `network_density` (src/network_analysis.rs:67-74) is a single floating-point formula and is left out.
- Not part of this model: `src/pagerank.rs`, `src/shortest_path.rs`, `algo_repo/graph_embeddings.rs`, `graph_export/export.rs`, `src/data.rs`, `src/main.rs` and `src/centrality_analysis.rs`. They cover floating-point iteration, randomness, file I/O, JSON, printing, and a one-line delegation to `degree_centrality`.

## Findings

| source | as written | input that shows it | evidently intended | confidence | as-written member | corrected member |
|---|---|---|---|---|---|---|
| algo_repo/kcore.rs:31-51 | `degrees` is indexed by position and not moved when `remove_node` swaps the last node into the freed position, so a moved node inherits the removed node's recorded degree | nodes 0, 1, 2, one edge 1-2, k = 1: node 0 (degree 0) is removed, node 2 moves to position 0 and reads degree 0, and in the end every node is removed | the k-core: remove nodes whose current degree is below k until none is left; here {1, 2} | not executed | KCore.ExampleDiscrepancy | KCore.PeelKeepsDense |
| src/bed.rs:21-35 | petgraph's `Dfs` starts at node 0 and hands out only node 0's component, so no search starts in another component | nodes 0, 1, 2 and the single edge 1-2: the edge 1-2 is a bridge, and the result is empty | a bridge search from every node still undiscovered, as the comment at src/bed.rs:9-12 promises; here {(1, 2)} | not executed | Bridges.MissedBridge | Bridges.AllSearched |
