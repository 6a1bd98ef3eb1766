/**
  Degree centrality of src/centrality.rs, on petgraph's undirected `GraphMap`.

  A `GraphMap` keeps its nodes in insertion order and, per node, the list of its neighbours.
  Adding an edge that is already there only replaces its weight, so a neighbour is listed
  once however often the edge is added, and a self-loop lists the node once in its own list.
  Edge weights play no part in the centrality and are left out.
*/
module Centrality {
  import opened Graphs

  /** Nodes in insertion order, and each node's neighbours in the order the edges came. */
  datatype UnGraphMap = UnGraphMap(nodes: seq<nat>, adj: map<nat, seq<nat>>)

  /** The shape every `GraphMap` has: the node list and the adjacency keys agree. */
  ghost predicate WellFormed(g: UnGraphMap) {
    Distinct(g.nodes) && forall n: nat :: n in g.nodes <==> n in g.adj
  }

  /** Adjacency is symmetric and no neighbour is listed twice. */
  ghost predicate Valid(g: UnGraphMap) {
    && WellFormed(g)
    && (forall a :: a in g.adj ==> Distinct(g.adj[a]))
    && (forall a, b :: a in g.adj && b in g.adj[a] ==> b in g.adj && a in g.adj[b])
  }

  function Empty(): (g: UnGraphMap)
    ensures Valid(g)
  {
    UnGraphMap([], map[])
  }

  /** `add_node`: a node not yet present is appended without neighbours. */
  function AddNode(g: UnGraphMap, n: nat): (r: UnGraphMap)
    ensures n in r.adj
  {
    if n in g.adj then g else UnGraphMap(g.nodes + [n], g.adj[n := []])
  }

  /** The second half of `add_edge`, once both ends are nodes: a new edge appends `b` to `a`'s
      list and, for `a != b`, `a` to `b`'s list; an edge already there changes no list. */
  function Link(g: UnGraphMap, a: nat, b: nat): UnGraphMap
    requires a in g.adj && b in g.adj
  {
    if b in g.adj[a] then g
    else
      var adj := g.adj[a := g.adj[a] + [b]];
      UnGraphMap(g.nodes, if a == b then adj else adj[b := adj[b] + [a]])
  }

  /** `add_edge`: both ends are added as nodes, then joined. */
  function AddEdge(g: UnGraphMap, a: nat, b: nat): UnGraphMap {
    var g1 := AddNode(AddNode(g, a), b);
    Link(g1, a, b)
  }

  /** The nodes sharing an edge with `n`. */
  function Adjacent(g: UnGraphMap, n: nat): set<nat>
    requires n in g.adj
  {
    Elements(g.adj[n])
  }

  /** `graph.neighbors(node).count()`. */
  function Degree(g: UnGraphMap, n: nat): nat
    requires n in g.adj
  {
    |g.adj[n]|
  }

  /** Adding a node keeps a graph valid; a new node has no neighbours, and every other list is
      unchanged. */
  lemma AddNodeSpec(g: UnGraphMap, n: nat)
    requires Valid(g)
    ensures var r := AddNode(g, n);
      && Valid(r) && (n !in g.adj ==> r.adj[n] == [])
      && (forall x :: x in r.adj <==> x in g.adj || x == n)
      && (forall x :: x in g.adj ==> r.adj[x] == g.adj[x])
  {
    if n !in g.adj {
      var r := AddNode(g, n);
      assert forall x: nat :: x in r.nodes <==> x in g.nodes || x == n;
    }
  }

  /** Joining two nodes makes them adjacent and changes no other adjacency. */
  lemma LinkAdjacency(g: UnGraphMap, a: nat, b: nat)
    requires Valid(g) && a in g.adj && b in g.adj
    ensures var r := Link(g, a, b);
      && r.nodes == g.nodes && r.adj.Keys == g.adj.Keys && b in r.adj[a] && a in r.adj[b]
      && (forall x, y :: x in g.adj ==> (y in r.adj[x] <==> y in g.adj[x] || (x == a && y == b) || (x == b && y == a)))
  {
  }

  /** Joining two nodes of a valid graph lists no neighbour twice. */
  lemma LinkDistinct(g: UnGraphMap, a: nat, b: nat)
    requires Valid(g) && a in g.adj && b in g.adj
    ensures forall x :: x in Link(g, a, b).adj ==> Distinct(Link(g, a, b).adj[x])
  {
    var r := Link(g, a, b);
    if b !in g.adj[a] {
      assert a !in g.adj[b];
      forall x | x in r.adj
        ensures Distinct(r.adj[x])
      {
        assert Distinct(g.adj[x]);
      }
    }
  }

  /** Joining two nodes keeps a graph valid. */
  lemma LinkSpec(g: UnGraphMap, a: nat, b: nat)
    requires Valid(g) && a in g.adj && b in g.adj
    ensures var r := Link(g, a, b);
      && Valid(r) && r.adj.Keys == g.adj.Keys && b in r.adj[a] && a in r.adj[b]
      && (forall x, y :: x in g.adj ==> (y in r.adj[x] <==> y in g.adj[x] || (x == a && y == b) || (x == b && y == a)))
  {
    LinkAdjacency(g, a, b);
    LinkDistinct(g, a, b);
  }

  /** Adding an edge keeps a graph valid, joins its ends, and changes no other adjacency. */
  lemma AddEdgeSpec(g: UnGraphMap, a: nat, b: nat)
    requires Valid(g)
    ensures var r := AddEdge(g, a, b);
      && Valid(r) && a in r.adj && b in r.adj && b in Adjacent(r, a) && a in Adjacent(r, b)
      && (forall n :: n in r.adj <==> n in g.adj || n == a || n == b)
      && (forall n, m :: n in g.adj ==>
            (m in Adjacent(r, n) <==> m in Adjacent(g, n) || (n == a && m == b) || (n == b && m == a)))
  {
    var g0 := AddNode(g, a);
    AddNodeSpec(g, a);
    var g1 := AddNode(g0, b);
    AddNodeSpec(g0, b);
    LinkSpec(g1, a, b);
  }

  /** In a valid graph the neighbour count is the number of distinct adjacent nodes. */
  lemma DegreeCountsAdjacent(g: UnGraphMap, n: nat)
    requires Valid(g) && n in g.adj
    ensures Degree(g, n) == |Adjacent(g, n)|
  {
    DistinctCard(g.adj[n]);
  }

  /** degree_centrality (src/centrality.rs:16-31): one entry per node, its neighbour count. */
  method DegreeCentrality(g: UnGraphMap) returns (centrality: map<nat, real>)
    requires WellFormed(g)
    ensures forall n :: n in centrality <==> n in g.adj
    ensures forall n :: n in centrality ==> centrality[n] == Degree(g, n) as real
  {
    centrality := map[];
    for i := 0 to |g.nodes|
      invariant forall n :: n in centrality <==> n in g.nodes[..i]
      invariant forall n :: n in centrality ==> n in g.adj && centrality[n] == Degree(g, n) as real
    {
      var node := g.nodes[i];
      assert g.nodes[..i + 1] == g.nodes[..i] + [node];
      var degree := |g.adj[node]|;
      centrality := centrality[node := degree as real];
    }
    assert g.nodes[..|g.nodes|] == g.nodes;
  }

  /** A node added without edges has centrality 0. */
  lemma IsolatedNode(g: UnGraphMap, n: nat)
    requires n !in g.adj
    ensures Degree(AddNode(g, n), n) == 0
  {
  }

  /** The source's test graph: edges 0-1, 0-2, 1-2, 1-3. */
  function TestGraph(): UnGraphMap {
    AddEdge(AddEdge(AddEdge(AddEdge(Empty(), 0, 1), 0, 2), 1, 2), 1, 3)
  }

  /** The test graph is a valid `GraphMap`, so its centralities are its neighbour counts. */
  lemma TestGraphValid()
    ensures Valid(TestGraph())
  {
    var g1 := AddEdge(Empty(), 0, 1);
    AddEdgeSpec(Empty(), 0, 1);
    var g2 := AddEdge(g1, 0, 2);
    AddEdgeSpec(g1, 0, 2);
    var g3 := AddEdge(g2, 1, 2);
    AddEdgeSpec(g2, 1, 2);
    AddEdgeSpec(g3, 1, 3);
  }

  /** A new edge between two new nodes `a != b`: lists `[b]` and `[a]`. */
  lemma AddEdgeFresh(g: UnGraphMap, a: nat, b: nat)
    requires a !in g.adj && b !in g.adj && a != b
    ensures AddEdge(g, a, b).adj == g.adj[a := [b]][b := [a]]
  {
    assert [] + [b] == [b] && [] + [a] == [a];
  }

  /** A new edge from the node `a` to a new node `b`. */
  lemma AddEdgeToFresh(g: UnGraphMap, a: nat, b: nat)
    requires a in g.adj && b !in g.adj && b !in g.adj[a]
    ensures AddEdge(g, a, b).adj == g.adj[a := g.adj[a] + [b]][b := [a]]
  {
    assert [] + [a] == [a];
  }

  /** A new edge between the nodes `a != b`. */
  lemma AddEdgeBetween(g: UnGraphMap, a: nat, b: nat)
    requires a in g.adj && b in g.adj && a != b && b !in g.adj[a]
    ensures AddEdge(g, a, b).adj == g.adj[a := g.adj[a] + [b]][b := g.adj[b] + [a]]
  {
  }

  /** Centralities 2, 3, 2 and 1. */
  lemma TestCentrality()
    ensures var g := TestGraph();
      0 in g.adj && 1 in g.adj && 2 in g.adj && 3 in g.adj
      && Degree(g, 0) == 2 && Degree(g, 1) == 3 && Degree(g, 2) == 2 && Degree(g, 3) == 1
  {
    var g1 := AddEdge(Empty(), 0, 1);
    AddEdgeFresh(Empty(), 0, 1);
    var g2 := AddEdge(g1, 0, 2);
    AddEdgeToFresh(g1, 0, 2);
    assert g2.adj[0] == [1, 2] && g2.adj[1] == [0] && g2.adj[2] == [0];
    var g3 := AddEdge(g2, 1, 2);
    AddEdgeBetween(g2, 1, 2);
    assert g3.adj[0] == [1, 2] && g3.adj[1] == [0, 2] && g3.adj[2] == [0, 1];
    AddEdgeToFresh(g3, 1, 3);
  }
}
