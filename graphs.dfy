/**
  The graph value every analysis works on: a petgraph `Graph<N, f64, Undirected>` seen as its
  node payloads in index order and its edges in edge-index (insertion) order.

  `Incident(g, x)` is petgraph's undirected adjacency walk for node `x`, which both
  `neighbors(x)` and `edges(x)` follow: first the edges whose first endpoint is `x`, newest
  first, then the edges whose second endpoint is `x`, newest first, skipping self loops there
  so that a self loop is reported once.
*/
module Graphs {

  datatype Option<T> = None | Some(value: T)

  /** An undirected edge as stored: first endpoint, second endpoint, weight. */
  datatype Edge = Edge(u: nat, v: nat, w: real)

  datatype Graph<P> = Graph(nodes: seq<P>, edges: seq<Edge>)
  {
    function N(): nat { |nodes| }

    /** Every edge joins two existing nodes. */
    predicate Valid() {
      forall i :: 0 <= i < |edges| ==> edges[i].u < |nodes| && edges[i].v < |nodes|
    }
  }

  /** One step of an adjacency walk: the node at the other end and the edge's weight. */
  datatype Adj = Adj(node: nat, w: real)

  /** The node indices `0..n-1`. */
  function Range(n: nat): (r: set<nat>)
    ensures forall x: nat :: x in r <==> x < n
    ensures |r| == n
  {
    if n == 0 then {} else Range(n - 1) + {n - 1}
  }

  /** Edges whose first endpoint is `x`, newest first, seen from `x`. */
  function OutAdj(es: seq<Edge>, x: nat): seq<Adj>
    decreases |es|
  {
    if es == [] then []
    else
      var e := es[|es| - 1];
      (if e.u == x then [Adj(e.v, e.w)] else []) + OutAdj(es[..|es| - 1], x)
  }

  /** Edges whose second endpoint is `x` (self loops excluded), newest first, seen from `x`. */
  function InAdj(es: seq<Edge>, x: nat): seq<Adj>
    decreases |es|
  {
    if es == [] then []
    else
      var e := es[|es| - 1];
      (if e.v == x && e.u != x then [Adj(e.u, e.w)] else []) + InAdj(es[..|es| - 1], x)
  }

  /** The adjacency walk of `x` in petgraph's order. */
  function Incident<P>(g: Graph<P>, x: nat): seq<Adj> {
    OutAdj(g.edges, x) + InAdj(g.edges, x)
  }

  /** `graph.neighbors(x).collect()`. */
  function Neighbors<P>(g: Graph<P>, x: nat): (r: seq<nat>)
    ensures |r| == |Incident(g, x)|
  {
    var inc := Incident(g, x);
    seq(|inc|, k requires 0 <= k < |inc| => inc[k].node)
  }

  /** `graph.neighbors(x).count()`. */
  function Degree<P>(g: Graph<P>, x: nat): nat {
    |Incident(g, x)|
  }

  /** The neighbour count of every node, by position. */
  function Degrees<P>(g: Graph<P>): (r: seq<nat>)
    ensures |r| == g.N() && forall i :: 0 <= i < g.N() ==> r[i] == Degree(g, i)
  {
    seq(g.N(), i requires 0 <= i < g.N() => Degree(g, i))
  }

  predicate Distinct(s: seq<nat>) {
    forall i, j :: 0 <= i < j < |s| ==> s[i] != s[j]
  }

  /** The set of the elements of `s`. */
  function Elements(s: seq<nat>): (r: set<nat>)
    ensures forall x :: x in r <==> x in s
    decreases |s|
  {
    if s == [] then {} else Elements(s[..|s| - 1]) + {s[|s| - 1]}
  }

  /** A sequence without repeats is as long as the set of its elements is large. */
  lemma {:induction false} DistinctCard(s: seq<nat>)
    requires Distinct(s)
    ensures |Elements(s)| == |s|
    decreases |s|
  {
    if s != [] {
      var init := s[..|s| - 1];
      DistinctCard(init);
      assert s[|s| - 1] !in Elements(init);
    }
  }

  predicate EndpointsBelow(es: seq<Edge>, n: nat) {
    forall i :: 0 <= i < |es| ==> es[i].u < n && es[i].v < n
  }

  lemma {:induction false} OutAdjBelow(es: seq<Edge>, x: nat, n: nat)
    requires EndpointsBelow(es, n)
    ensures forall k :: 0 <= k < |OutAdj(es, x)| ==> OutAdj(es, x)[k].node < n
    decreases |es|
  {
    if es != [] {
      OutAdjBelow(es[..|es| - 1], x, n);
    }
  }

  lemma {:induction false} InAdjBelow(es: seq<Edge>, x: nat, n: nat)
    requires EndpointsBelow(es, n)
    ensures forall k :: 0 <= k < |InAdj(es, x)| ==> InAdj(es, x)[k].node < n
    decreases |es|
  {
    if es != [] {
      InAdjBelow(es[..|es| - 1], x, n);
    }
  }

  /** Every node the walk reaches exists in the graph. */
  lemma IncidentBelow<P>(g: Graph<P>, x: nat)
    requires g.Valid()
    ensures forall k :: 0 <= k < |Incident(g, x)| ==> Incident(g, x)[k].node < g.N()
  {
    OutAdjBelow(g.edges, x, g.N());
    InAdjBelow(g.edges, x, g.N());
  }

  predicate NonNegativeWeights<P>(g: Graph<P>) {
    forall i :: 0 <= i < |g.edges| ==> g.edges[i].w >= 0.0
  }

  predicate NonNegativeAdj(adj: seq<Adj>) {
    forall k :: 0 <= k < |adj| ==> adj[k].w >= 0.0
  }

  lemma {:induction false} OutAdjNonNegative(es: seq<Edge>, x: nat)
    requires forall i :: 0 <= i < |es| ==> es[i].w >= 0.0
    ensures NonNegativeAdj(OutAdj(es, x))
    decreases |es|
  {
    if es != [] {
      OutAdjNonNegative(es[..|es| - 1], x);
    }
  }

  lemma {:induction false} InAdjNonNegative(es: seq<Edge>, x: nat)
    requires forall i :: 0 <= i < |es| ==> es[i].w >= 0.0
    ensures NonNegativeAdj(InAdj(es, x))
    decreases |es|
  {
    if es != [] {
      InAdjNonNegative(es[..|es| - 1], x);
    }
  }

  /** The walk of a node only carries weights of the graph, so they are non-negative too. */
  lemma IncidentNonNegative<P>(g: Graph<P>, x: nat)
    requires NonNegativeWeights(g)
    ensures NonNegativeAdj(Incident(g, x))
  {
    OutAdjNonNegative(g.edges, x);
    InAdjNonNegative(g.edges, x);
  }

  /** Edge `e` joins `a` and `b`, in either orientation. */
  predicate Joins(e: Edge, a: nat, b: nat) {
    (e.u == a && e.v == b) || (e.u == b && e.v == a)
  }

  /** `graph.contains_edge(a, b)` on an undirected graph. */
  predicate HasEdge<P>(g: Graph<P>, a: nat, b: nat) {
    exists i :: 0 <= i < |g.edges| && Joins(g.edges[i], a, b)
  }

  /** Sum of the weights of an edge list. */
  function TotalWeight(es: seq<Edge>): real
    decreases |es|
  {
    if es == [] then 0.0 else TotalWeight(es[..|es| - 1]) + es[|es| - 1].w
  }

  /** Appending an edge puts its view from `x`, if any, at the front of `x`'s lists. */
  lemma AdjSnoc(es: seq<Edge>, e: Edge)
    ensures forall x :: OutAdj(es + [e], x) == (if e.u == x then [Adj(e.v, e.w)] else []) + OutAdj(es, x)
    ensures forall x :: InAdj(es + [e], x) == (if e.v == x && e.u != x then [Adj(e.u, e.w)] else []) + InAdj(es, x)
  {
    assert (es + [e])[..|es|] == es;
  }

  lemma {:induction false} OutAdjEdge(es: seq<Edge>, x: nat, k: nat)
    requires k < |OutAdj(es, x)|
    ensures exists i :: 0 <= i < |es| && Joins(es[i], x, OutAdj(es, x)[k].node)
    decreases |es|
  {
    var init := es[..|es| - 1];
    var e := es[|es| - 1];
    if e.u == x && k == 0 {
      assert Joins(es[|es| - 1], x, OutAdj(es, x)[k].node);
    } else {
      var k' := if e.u == x then k - 1 else k;
      OutAdjEdge(init, x, k');
      var i :| 0 <= i < |init| && Joins(init[i], x, OutAdj(init, x)[k'].node);
      assert es[i] == init[i];
    }
  }

  lemma {:induction false} InAdjEdge(es: seq<Edge>, x: nat, k: nat)
    requires k < |InAdj(es, x)|
    ensures exists i :: 0 <= i < |es| && Joins(es[i], x, InAdj(es, x)[k].node)
    decreases |es|
  {
    var init := es[..|es| - 1];
    var e := es[|es| - 1];
    if e.v == x && e.u != x && k == 0 {
      assert Joins(es[|es| - 1], x, InAdj(es, x)[k].node);
    } else {
      var k' := if e.v == x && e.u != x then k - 1 else k;
      InAdjEdge(init, x, k');
      var i :| 0 <= i < |init| && Joins(init[i], x, InAdj(init, x)[k'].node);
      assert es[i] == init[i];
    }
  }

  /** Every step of the walk of `x` follows an edge at `x`. */
  lemma NeighborEdge<P>(g: Graph<P>, x: nat, k: nat)
    requires k < |Neighbors(g, x)|
    ensures HasEdge(g, x, Neighbors(g, x)[k])
  {
    var out := OutAdj(g.edges, x);
    if k < |out| {
      OutAdjEdge(g.edges, x, k);
    } else {
      InAdjEdge(g.edges, x, k - |out|);
    }
  }

  lemma {:induction false} AdjLength(es: seq<Edge>, x: nat)
    ensures |OutAdj(es, x)| <= |es| && |InAdj(es, x)| <= |es|
    decreases |es|
  {
    if es != [] {
      AdjLength(es[..|es| - 1], x);
    }
  }

  /** A node has at most twice as many neighbours as the graph has edges. */
  lemma DegreeBound<P>(g: Graph<P>, x: nat)
    ensures |Neighbors(g, x)| <= 2 * |g.edges|
  {
    AdjLength(g.edges, x);
  }
}
