/**
  k-core pruning of algo_repo/kcore.rs.

  The input graph is copied, every node's neighbour count is recorded in a `degrees` vector
  indexed by position, and rounds follow: collect, in index order, the positions of the pruned
  graph whose recorded degree is below `k`; stop if there are none; otherwise, for each
  collected position in turn, decrement (never below 0) the recorded degree of each of its
  current neighbours and remove the node at that position. Finally the pruned graph is copied
  node by node and edge by edge into a fresh graph.

  petgraph removes a node by swap-remove: the last node moves into the freed position. The
  `degrees` vector is not moved along, and the collected positions are not adjusted, so after a
  removal both can refer to a different node than before. The functional model `Prune` keeps
  that behaviour; `Peel` is the pruning with degrees computed afresh, whose maximality is proved
  and which the as-written pruning is shown to miss on a three-node graph.
*/
module KCore {
  import opened Graphs

  // ---------------------------------------------------------------------------
  // petgraph's remove_node
  // ---------------------------------------------------------------------------

  /** Where node `v` ends up when node `a` is removed and `last` moves into its place. */
  function Moved(v: nat, a: nat, last: nat): nat {
    if v == last then a else v
  }

  function MovedEdge(e: Edge, a: nat, last: nat): Edge {
    Edge(Moved(e.u, a, last), Moved(e.v, a, last), e.w)
  }

  /** The edges that do not touch `a`, in their order, with `last` renamed to `a`. */
  function Kept(es: seq<Edge>, a: nat, last: nat): (r: seq<Edge>)
    ensures |r| <= |es|
    ensures EndpointsBelow(es, last + 1) && a <= last ==> EndpointsBelow(r, last)
    decreases |es|
  {
    if es == [] then []
    else
      var e := es[|es| - 1];
      Kept(es[..|es| - 1], a, last) + (if e.u == a || e.v == a then [] else [MovedEdge(e, a, last)])
  }

  /** `graph.remove_node(a)`: nothing happens when `a` is not a node; otherwise its edges go,
      the last node takes its position and the edges of that node are renamed. */
  function RemoveNode<P>(g: Graph<P>, a: nat): (r: Graph<P>)
    ensures a < g.N() ==> r.N() == g.N() - 1
    ensures a >= g.N() ==> r == g
    ensures g.Valid() ==> r.Valid()
  {
    if a >= g.N() then g
    else
      var last := g.N() - 1;
      Graph(g.nodes[a := g.nodes[last]][..last], Kept(g.edges, a, last))
  }

  /** Every node other than the removed one keeps its payload at its new position. */
  lemma RemoveNodePayload<P>(g: Graph<P>, a: nat, v: nat)
    requires a < g.N() && v < g.N() && v != a
    ensures Moved(v, a, g.N() - 1) < g.N() - 1
    ensures RemoveNode(g, a).nodes[Moved(v, a, g.N() - 1)] == g.nodes[v]
  {
  }

  // ---------------------------------------------------------------------------
  // the as-written pruning
  // ---------------------------------------------------------------------------

  /** Positions below `n`, in increasing order, whose recorded degree is below `k`. */
  function Candidates(deg: seq<nat>, n: nat, k: nat): seq<nat>
    requires n <= |deg|
  {
    if n == 0 then []
    else Candidates(deg, n - 1, k) + (if deg[n - 1] < k then [n - 1] else [])
  }

  /** The candidates are exactly the positions below `n` with recorded degree below `k`, in
      increasing order. */
  lemma {:induction false} CandidatesSpec(deg: seq<nat>, n: nat, k: nat)
    requires n <= |deg|
    ensures var r := Candidates(deg, n, k);
      && (forall i :: 0 <= i < |r| ==> r[i] < n && deg[r[i]] < k)
      && (forall v :: 0 <= v < n && deg[v] < k ==> v in r)
      && (forall i, j :: 0 <= i < j < |r| ==> r[i] < r[j])
  {
    if n > 0 {
      CandidatesSpec(deg, n - 1, k);
      var prev := Candidates(deg, n - 1, k);
      var r := Candidates(deg, n, k);
      assert r == prev + (if deg[n - 1] < k then [n - 1] else []);
      forall i | 0 <= i < |r|
        ensures r[i] < n && deg[r[i]] < k
      {
        if i < |prev| {
          assert r[i] == prev[i];
        }
      }
      forall i, j | 0 <= i < j < |r|
        ensures r[i] < r[j]
      {
        assert r[i] == prev[i];
      }
      forall v | 0 <= v < n && deg[v] < k
        ensures v in r
      {
        if v < n - 1 {
          assert v in prev;
        } else {
          assert r[|prev|] == v;
        }
      }
    }
  }

  /** Recorded degrees after one decrement per listed neighbour, skipping those already at 0. */
  function Decrement(deg: seq<nat>, nbrs: seq<nat>): (r: seq<nat>)
    ensures |r| == |deg|
    decreases |nbrs|
  {
    if nbrs == [] then deg
    else
      var d := Decrement(deg, nbrs[..|nbrs| - 1]);
      var w := nbrs[|nbrs| - 1];
      if w < |d| && d[w] > 0 then d[w := d[w] - 1] else d
  }

  /** A decrement never raises a recorded degree and leaves unlisted positions alone. */
  lemma {:induction false} DecrementSpec(deg: seq<nat>, nbrs: seq<nat>)
    ensures forall i :: 0 <= i < |deg| ==> Decrement(deg, nbrs)[i] <= deg[i]
    ensures forall i :: 0 <= i < |deg| && i !in nbrs ==> Decrement(deg, nbrs)[i] == deg[i]
    decreases |nbrs|
  {
    if nbrs != [] {
      DecrementSpec(deg, nbrs[..|nbrs| - 1]);
    }
  }

  /** The pruned graph and the recorded degrees. */
  datatype Pruning<P> = Pruning(core: Graph<P>, degrees: seq<nat>)

  /** One round's removals: for each collected position in turn, decrement its neighbours'
      recorded degrees, then remove the node at that position. */
  function RemoveAll<P>(s: Pruning<P>, cs: seq<nat>): (r: Pruning<P>)
    ensures |r.degrees| == |s.degrees| && r.core.N() <= s.core.N()
    ensures |cs| > 0 && cs[0] < s.core.N() ==> r.core.N() < s.core.N()
    decreases |cs|
  {
    if cs == [] then s
    else
      var t := RemoveAll(s, cs[..|cs| - 1]);
      var c := cs[|cs| - 1];
      Pruning(RemoveNode(t.core, c), Decrement(t.degrees, Neighbors(t.core, c)))
  }

  /** Rounds until no position has a recorded degree below `k`. */
  function Prune<P>(s: Pruning<P>, k: nat): (r: Pruning<P>)
    requires |s.degrees| >= s.core.N()
    ensures |r.degrees| == |s.degrees| && r.core.N() <= s.core.N()
    decreases s.core.N()
  {
    var cands := Candidates(s.degrees, s.core.N(), k);
    CandidatesSpec(s.degrees, s.core.N(), k);
    if cands == [] then s
    else Prune(RemoveAll(s, cands), k)
  }

  /** A round's removals never raise a recorded degree and keep the graph well formed. */
  lemma {:induction false} RemoveAllSpec<P>(s: Pruning<P>, cs: seq<nat>)
    ensures forall i :: 0 <= i < |s.degrees| ==> RemoveAll(s, cs).degrees[i] <= s.degrees[i]
    ensures s.core.Valid() ==> RemoveAll(s, cs).core.Valid()
    decreases |cs|
  {
    if cs != [] {
      var t := RemoveAll(s, cs[..|cs| - 1]);
      RemoveAllSpec(s, cs[..|cs| - 1]);
      DecrementSpec(t.degrees, Neighbors(t.core, cs[|cs| - 1]));
    }
  }

  /** When the pruning stops, every remaining position has a recorded degree of at least `k`;
      recorded degrees never rise and the graph stays well formed. */
  lemma {:induction false} PruneSpec<P>(s: Pruning<P>, k: nat)
    requires |s.degrees| >= s.core.N()
    ensures forall v :: 0 <= v < Prune(s, k).core.N() ==> Prune(s, k).degrees[v] >= k
    ensures forall i :: 0 <= i < |s.degrees| ==> Prune(s, k).degrees[i] <= s.degrees[i]
    ensures s.core.Valid() ==> Prune(s, k).core.Valid()
    decreases s.core.N()
  {
    var cands := Candidates(s.degrees, s.core.N(), k);
    CandidatesSpec(s.degrees, s.core.N(), k);
    if cands != [] {
      RemoveAllSpec(s, cands);
      PruneSpec(RemoveAll(s, cands), k);
    }
  }

  /** What k_core_decomposition returns: a well-formed graph no larger than the input. */
  function KCore<P>(g: Graph<P>, k: nat): (r: Graph<P>)
    ensures r.N() <= g.N()
    ensures g.Valid() ==> r.Valid()
  {
    PruneSpec(Pruning(g, Degrees(g)), k);
    Prune(Pruning(g, Degrees(g)), k).core
  }

  // ---------------------------------------------------------------------------
  // the imperative pruning
  // ---------------------------------------------------------------------------

  /** The degree initialisation of algo_repo/kcore.rs:17-22. */
  method InitDegrees<P>(g: Graph<P>, degrees: array<nat>)
    requires degrees.Length == g.N()
    modifies degrees
    ensures degrees[..] == Degrees(g)
  {
    for i := 0 to g.N()
      invariant forall j :: 0 <= j < i ==> degrees[j] == Degree(g, j)
    {
      degrees[i] := |Neighbors(g, i)|;
    }
  }

  /** The candidate scan of algo_repo/kcore.rs:27-34. */
  method CollectCandidates<P>(core: Graph<P>, degrees: array<nat>, k: nat) returns (cands: seq<nat>)
    requires core.N() <= degrees.Length
    ensures cands == Candidates(degrees[..], core.N(), k)
  {
    cands := [];
    for i := 0 to core.N()
      invariant cands == Candidates(degrees[..], i, k)
    {
      if degrees[i] < k {
        cands := cands + [i];
      }
    }
  }

  /** The guarded decrements of algo_repo/kcore.rs:43-48. */
  method DecrementNeighbors(nbrs: seq<nat>, degrees: array<nat>)
    requires forall i :: 0 <= i < |nbrs| ==> nbrs[i] < degrees.Length
    modifies degrees
    ensures degrees[..] == Decrement(old(degrees[..]), nbrs)
  {
    for i := 0 to |nbrs|
      invariant degrees[..] == Decrement(old(degrees[..]), nbrs[..i])
    {
      assert nbrs[..i + 1][..i] == nbrs[..i];
      var w := nbrs[i];
      if degrees[w] > 0 {
        degrees[w] := degrees[w] - 1;
      }
    }
    assert nbrs[..|nbrs|] == nbrs;
  }

  /** The removal loop of algo_repo/kcore.rs:42-52. */
  method RemoveCandidates<P>(core: Graph<P>, degrees: array<nat>, cands: seq<nat>) returns (r: Graph<P>)
    requires core.Valid() && core.N() <= degrees.Length
    modifies degrees
    ensures Pruning(r, degrees[..]) == RemoveAll(Pruning(core, old(degrees[..])), cands)
  {
    r := core;
    for i := 0 to |cands|
      invariant Pruning(r, degrees[..]) == RemoveAll(Pruning(core, old(degrees[..])), cands[..i])
      invariant r.Valid() && r.N() <= core.N()
    {
      assert cands[..i + 1][..i] == cands[..i];
      var node := cands[i];
      IncidentBelow(r, node);
      DecrementNeighbors(Neighbors(r, node), degrees);
      r := RemoveNode(r, node);
    }
    assert cands[..|cands|] == cands;
  }

  /** The copy of algo_repo/kcore.rs:56-69: payloads in index order, then edges in index order
      with their endpoints and weights. */
  method Rebuild<P>(core: Graph<P>) returns (r: Graph<P>)
    ensures r.nodes == core.nodes && r.edges == core.edges
  {
    var nodes := [];
    for i := 0 to core.N()
      invariant nodes == core.nodes[..i]
    {
      nodes := nodes + [core.nodes[i]];
    }
    var edges := [];
    for i := 0 to |core.edges|
      invariant edges == core.edges[..i]
    {
      var e := core.edges[i];
      edges := edges + [Edge(e.u, e.v, e.w)];
    }
    r := Graph(nodes, edges);
  }

  /** k_core_decomposition (algo_repo/kcore.rs:10-73). With `k = 0` nothing is removed. */
  method KCoreDecomposition<P>(g: Graph<P>, k: nat) returns (r: Graph<P>)
    requires g.Valid()
    ensures r == KCore(g, k) && r.Valid()
    ensures k == 0 ==> r == g
  {
    var core := g;
    var degrees := new nat[g.N()](_ => 0);
    InitDegrees(g, degrees);
    while true
      invariant degrees.Length == g.N() && core.N() <= g.N() && core.Valid()
      invariant Prune(Pruning(core, degrees[..]), k) == Prune(Pruning(g, Degrees(g)), k)
      invariant k == 0 ==> core == g
      decreases core.N()
    {
      var cands := CollectCandidates(core, degrees, k);
      CandidatesSpec(degrees[..], core.N(), k);
      if cands == [] {
        break;
      }
      RemoveAllSpec(Pruning(core, degrees[..]), cands);
      core := RemoveCandidates(core, degrees, cands);
    }
    r := Rebuild(core);
  }

  // ---------------------------------------------------------------------------
  // pruning with fresh degrees, and its maximality
  // ---------------------------------------------------------------------------

  /** Remove the first node whose degree in the current graph is below `k`, until there is
      none. */
  function Peel<P>(g: Graph<P>, k: nat): (r: Graph<P>)
    ensures r.N() <= g.N()
    ensures forall v :: 0 <= v < r.N() ==> Degree(r, v) >= k
    decreases g.N()
  {
    var cands := Candidates(Degrees(g), g.N(), k);
    CandidatesSpec(Degrees(g), g.N(), k);
    if cands == [] then g
    else Peel(RemoveNode(g, cands[0]), k)
  }

  /** Entries of an adjacency walk whose node lies in `s`. */
  function CountIn(adj: seq<Adj>, s: set<nat>): (r: nat)
    ensures r <= |adj|
  {
    if adj == [] then 0
    else (if adj[0].node in s then 1 else 0) + CountIn(adj[1..], s)
  }

  lemma {:induction false} CountInConcat(a: seq<Adj>, b: seq<Adj>, s: set<nat>)
    ensures CountIn(a + b, s) == CountIn(a, s) + CountIn(b, s)
    decreases |a|
  {
    if a == [] {
      assert a + b == b;
    } else {
      assert (a + b)[0] == a[0];
      assert (a + b)[1..] == a[1..] + b;
      CountInConcat(a[1..], b, s);
    }
  }

  /** Every node of `s` has at least `k` steps of its walk leading into `s`. */
  predicate Dense<P>(g: Graph<P>, s: set<nat>, k: nat) {
    forall v :: v in s ==> v < g.N() && CountIn(Incident(g, v), s) >= k
  }

  /** Removing a node outside `s` keeps every walk step of the rest into `s`, renamed. */
  lemma {:induction false} OutKept(es: seq<Edge>, a: nat, last: nat, x: nat, s: set<nat>, s': set<nat>)
    requires x != a && a !in s && forall w :: w in s ==> Moved(w, a, last) in s'
    ensures CountIn(OutAdj(Kept(es, a, last), Moved(x, a, last)), s') >= CountIn(OutAdj(es, x), s)
    decreases |es|
  {
    if es != [] {
      var init := es[..|es| - 1];
      var e := es[|es| - 1];
      OutKept(init, a, last, x, s, s');
      assert es == init + [e];
      AdjSnoc(init, e);
      CountInConcat(if e.u == x then [Adj(e.v, e.w)] else [], OutAdj(init, x), s);
      var mx := Moved(x, a, last);
      if e.u != a && e.v != a {
        var m := MovedEdge(e, a, last);
        assert Kept(es, a, last) == Kept(init, a, last) + [m];
        AdjSnoc(Kept(init, a, last), m);
        CountInConcat(if m.u == mx then [Adj(m.v, m.w)] else [], OutAdj(Kept(init, a, last), mx), s');
      } else {
        assert Kept(es, a, last) == Kept(init, a, last);
      }
    }
  }

  lemma {:induction false} InKept(es: seq<Edge>, a: nat, last: nat, x: nat, s: set<nat>, s': set<nat>)
    requires x != a && a !in s && forall w :: w in s ==> Moved(w, a, last) in s'
    ensures CountIn(InAdj(Kept(es, a, last), Moved(x, a, last)), s') >= CountIn(InAdj(es, x), s)
    decreases |es|
  {
    if es != [] {
      var init := es[..|es| - 1];
      var e := es[|es| - 1];
      InKept(init, a, last, x, s, s');
      assert es == init + [e];
      AdjSnoc(init, e);
      CountInConcat(if e.v == x && e.u != x then [Adj(e.u, e.w)] else [], InAdj(init, x), s);
      var mx := Moved(x, a, last);
      if e.u != a && e.v != a {
        var m := MovedEdge(e, a, last);
        assert Kept(es, a, last) == Kept(init, a, last) + [m];
        AdjSnoc(Kept(init, a, last), m);
        CountInConcat(if m.v == mx && m.u != mx then [Adj(m.u, m.w)] else [], InAdj(Kept(init, a, last), mx), s');
      } else {
        assert Kept(es, a, last) == Kept(init, a, last);
      }
    }
  }

  /** The positions of the nodes of `s` once `a` is removed and `last` moved into its place. */
  function Renamed(s: set<nat>, a: nat, last: nat): set<nat> {
    set v | v in s :: Moved(v, a, last)
  }

  /** Removing a node outside a dense set leaves the renamed set dense. */
  lemma RemoveKeepsDense<P>(g: Graph<P>, a: nat, s: set<nat>, k: nat)
    requires a < g.N() && a !in s && Dense(g, s, k)
    ensures Dense(RemoveNode(g, a), Renamed(s, a, g.N() - 1), k)
  {
    var last := g.N() - 1;
    var s' := Renamed(s, a, last);
    var g' := RemoveNode(g, a);
    forall v' | v' in s'
      ensures v' < g'.N() && CountIn(Incident(g', v'), s') >= k
    {
      var v :| v in s && Moved(v, a, last) == v';
      assert v != a;
      RemoveNodePayload(g, a, v);
      assert g'.edges == Kept(g.edges, a, last);
      OutKept(g.edges, a, last, v, s, s');
      InKept(g.edges, a, last, v, s, s');
      CountInConcat(OutAdj(g.edges, v), InAdj(g.edges, v), s);
      CountInConcat(OutAdj(g'.edges, v'), InAdj(g'.edges, v'), s');
      assert CountIn(Incident(g, v), s) >= k;
    }
  }

  /** A node of degree below `k` is in no dense set. */
  lemma Outside<P>(g: Graph<P>, s: set<nat>, k: nat, a: nat)
    requires Dense(g, s, k) && Degree(g, a) < k
    ensures a !in s
  {
  }

  /** The first candidate of a peeling step exists and has degree below `k`. */
  lemma PeelFirst<P>(g: Graph<P>, k: nat)
    requires Candidates(Degrees(g), g.N(), k) != []
    ensures var a := Candidates(Degrees(g), g.N(), k)[0];
      a < g.N() && Degree(g, a) < k && Peel(g, k) == Peel(RemoveNode(g, a), k)
  {
    CandidatesSpec(Degrees(g), g.N(), k);
  }

  /** Maximality of `Peel`: every node of a set in which each node has at least `k` steps of
      its walk inside the set survives, with its payload. */
  lemma {:induction false} PeelKeepsDense<P>(g: Graph<P>, k: nat, s: set<nat>)
    requires Dense(g, s, k)
    ensures forall v :: v in s ==> g.nodes[v] in Peel(g, k).nodes
    decreases g.N()
  {
    var cands := Candidates(Degrees(g), g.N(), k);
    if cands != [] {
      var a := cands[0];
      PeelFirst(g, k);
      Outside(g, s, k, a);
      var last := g.N() - 1;
      RemoveKeepsDense(g, a, s, k);
      var s' := Renamed(s, a, last);
      PeelKeepsDense(RemoveNode(g, a), k, s');
      forall v | v in s
        ensures g.nodes[v] in Peel(g, k).nodes
      {
        RemoveNodePayload(g, a, v);
        assert Moved(v, a, last) in s';
      }
    }
  }

  // ---------------------------------------------------------------------------
  // a three-node graph on which the two part ways
  // ---------------------------------------------------------------------------

  /** Nodes 0, 1, 2 (payloads equal to their positions) and one edge between 1 and 2. */
  function Example(): Graph<nat> {
    Graph([0, 1, 2], [Edge(1, 2, 1.0)])
  }

  lemma ExampleDegrees()
    ensures Degrees(Example()) == [0, 1, 1]
  {
    var g := Example();
    assert OutAdj(g.edges, 0) == [] && InAdj(g.edges, 0) == [];
    assert OutAdj(g.edges, 1) == [Adj(2, 1.0)] && InAdj(g.edges, 1) == [];
    assert OutAdj(g.edges, 2) == [] && InAdj(g.edges, 2) == [Adj(1, 1.0)];
  }

  /** After removing node 0, node 2 sits at position 0 and the edge is renamed. */
  lemma ExampleFirstRemoval()
    ensures RemoveNode(Example(), 0) == Graph([2, 1], [Edge(1, 0, 1.0)])
  {
    var es := Example().edges;
    assert es[..0] == [];
    assert Kept(es, 0, 2) == [Edge(1, 0, 1.0)];
  }

  lemma ExampleSecondRemoval()
    ensures RemoveNode(Graph([2, 1], [Edge(1, 0, 1.0)]), 0) == Graph([1], [])
  {
    var es := [Edge(1, 0, 1.0)];
    assert es[..0] == [];
    assert Kept(es, 0, 1) == [];
  }

  lemma ExamplePrune()
    ensures KCore(Example(), 1) == Graph([], [])
  {
    ExampleDegrees();
    ExamplePruneRounds();
  }

  /** The three pruning rounds on the example, each removing position 0. */
  lemma ExamplePruneRounds()
    ensures Prune(Pruning(Example(), [0, 1, 1]), 1).core == Graph([], [])
  {
    var g := Example();
    var s0 := Pruning(g, [0, 1, 1]);
    assert Candidates([0, 1, 1], 3, 1) == [0];
    ExampleFirstRemoval();
    var g1 := Graph([2, 1], [Edge(1, 0, 1.0)]);
    assert Neighbors(g, 0) == [];
    assert Decrement([0, 1, 1], []) == [0, 1, 1];
    assert [0][..0] == [];
    var s1 := Pruning(g1, [0, 1, 1]);
    assert RemoveAll(s0, [0]) == s1;
    assert Prune(s0, 1) == Prune(s1, 1);
    assert Candidates([0, 1, 1], 2, 1) == [0];
    ExampleSecondRemoval();
    assert OutAdj(g1.edges, 0) == [] && InAdj(g1.edges, 0) == [Adj(1, 1.0)];
    assert Neighbors(g1, 0) == [1];
    assert [1][..0] == [];
    assert Decrement([0, 1, 1], [1]) == [0, 0, 1];
    var s2 := Pruning(Graph([1], []), [0, 0, 1]);
    assert RemoveAll(s1, [0]) == s2;
    assert Prune(s1, 1) == Prune(s2, 1);
    assert Candidates([0, 0, 1], 1, 1) == [0];
    var s3 := Pruning(Graph([], []), [0, 0, 1]);
    assert RemoveAll(s2, [0]) == s3;
    assert Prune(s2, 1) == Prune(s3, 1);
  }

  /** Nodes 1 and 2 form a 1-core of the example, which `Peel` keeps and the as-written
      pruning empties: after the first removal the recorded degree 0 of the removed node is
      read for node 2, which moved into its position. */
  lemma ExampleDiscrepancy()
    ensures Dense(Example(), {1, 2}, 1)
    ensures 1 in Peel(Example(), 1).nodes && 2 in Peel(Example(), 1).nodes
    ensures KCore(Example(), 1).nodes == []
  {
    var g := Example();
    assert OutAdj(g.edges, 1) == [Adj(2, 1.0)] && InAdj(g.edges, 1) == [];
    assert OutAdj(g.edges, 2) == [] && InAdj(g.edges, 2) == [Adj(1, 1.0)];
    assert Incident(g, 1) == [Adj(2, 1.0)] && Incident(g, 2) == [Adj(1, 1.0)];
    assert Dense(g, {1, 2}, 1);
    PeelKeepsDense(g, 1, {1, 2});
    assert g.nodes[1] == 1 && g.nodes[2] == 2;
    ExamplePrune();
  }
}
