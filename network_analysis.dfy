/**
  Degree statistics of src/network_analysis.rs: the degree histogram and the average local
  clustering coefficient.

  The coefficient is a floating-point average in the source and an exact `real` here. On a
  graph without nodes the source divides 0.0 by 0.0 and returns NaN; here that result is
  `None`.
*/
module NetworkAnalysis {
  import opened Graphs

  // ---------------------------------------------------------------------------
  // degree distribution
  // ---------------------------------------------------------------------------

  /** `iter().max().unwrap()` on a non-empty sequence. */
  function MaxOf(s: seq<nat>): (m: nat)
    requires s != []
    ensures m in s && forall x :: x in s ==> x <= m
    decreases |s|
  {
    if |s| == 1 then s[0]
    else
      var m := MaxOf(s[..|s| - 1]);
      assert forall x :: x in s ==> x in s[..|s| - 1] || x == s[|s| - 1];
      if s[|s| - 1] > m then s[|s| - 1] else m
  }

  /** The counting array of length `len` after incrementing entry `d` once for every `d` in
      `s`, in order. */
  function Histogram(s: seq<nat>, len: nat): (r: seq<nat>)
    requires forall i :: 0 <= i < |s| ==> s[i] < len
    ensures |r| == len
    decreases |s|
  {
    if s == [] then seq(len, _ => 0)
    else
      var h := Histogram(s[..|s| - 1], len);
      var d := s[|s| - 1];
      h[d := h[d] + 1]
  }

  function Sum(s: seq<nat>): nat
    decreases |s|
  {
    if s == [] then 0 else Sum(s[..|s| - 1]) + s[|s| - 1]
  }

  lemma {:induction false} SumZeros(len: nat)
    ensures Sum(seq(len, _ => 0)) == 0
    decreases len
  {
    if len > 0 {
      assert seq(len, _ => 0)[..len - 1] == seq(len - 1, _ => 0);
      SumZeros(len - 1);
    }
  }

  /** Incrementing one entry raises the sum by one. */
  lemma {:induction false} SumIncrement(s: seq<nat>, d: nat)
    requires d < |s|
    ensures Sum(s[d := s[d] + 1]) == Sum(s) + 1
    decreases |s|
  {
    var t := s[d := s[d] + 1];
    if d < |s| - 1 {
      assert t[..|t| - 1] == s[..|s| - 1][d := s[d] + 1];
      SumIncrement(s[..|s| - 1], d);
    } else {
      assert t[..|t| - 1] == s[..|s| - 1];
    }
  }

  /** Entry `d` of the histogram is the number of occurrences of `d`, and the entries add up
      to the number of counted values. */
  lemma {:induction false} HistogramSpec(s: seq<nat>, len: nat)
    requires forall i :: 0 <= i < |s| ==> s[i] < len
    ensures forall d :: 0 <= d < len ==> Histogram(s, len)[d] == multiset(s)[d]
    ensures Sum(Histogram(s, len)) == |s|
    decreases |s|
  {
    if s == [] {
      SumZeros(len);
    } else {
      var init := s[..|s| - 1];
      assert s == init + [s[|s| - 1]];
      HistogramSpec(init, len);
      SumIncrement(Histogram(init, len), s[|s| - 1]);
    }
  }

  /** A histogram reaching up to the largest value: its last entry counts that value. */
  lemma HistogramToMax(s: seq<nat>)
    requires s != []
    ensures forall i :: 0 <= i < |s| ==> s[i] < MaxOf(s) + 1
    ensures var h := Histogram(s, MaxOf(s) + 1);
      && (forall d :: 0 <= d < |h| ==> h[d] == multiset(s)[d])
      && Sum(h) == |s| && h[|h| - 1] >= 1
  {
    assert forall i :: 0 <= i < |s| ==> s[i] in s;
    HistogramSpec(s, MaxOf(s) + 1);
  }

  /** The counting loop: a zeroed array of length `len`, one increment per value of `s`. */
  method Tally(s: seq<nat>, len: nat) returns (distribution: array<nat>)
    requires forall i :: 0 <= i < |s| ==> s[i] < len
    ensures distribution.Length == len
    ensures distribution[..] == Histogram(s, len)
  {
    distribution := new nat[len](_ => 0);
    assert distribution[..] == Histogram([], len);
    for i := 0 to |s|
      invariant distribution[..] == Histogram(s[..i], len)
    {
      assert s[..i + 1][..i] == s[..i];
      var d := s[i];
      distribution[d] := distribution[d] + 1;
    }
    assert s[..|s|] == s;
  }

  /** degree_distribution (src/network_analysis.rs:9-24): entry `d` counts the nodes of
      degree `d`, the array ends at the largest degree, whose entry is therefore at least 1,
      and the entries add up to the number of nodes. An empty graph makes the source panic. */
  method DegreeDistribution<P>(g: Graph<P>) returns (distribution: array<nat>)
    requires g.N() > 0
    ensures distribution.Length == MaxOf(Degrees(g)) + 1
    ensures forall d :: 0 <= d < distribution.Length ==> distribution[d] == multiset(Degrees(g))[d]
    ensures Sum(distribution[..]) == g.N()
    ensures distribution[distribution.Length - 1] >= 1
  {
    var degrees := Degrees(g);
    var maxDegree := MaxOf(degrees);
    HistogramToMax(degrees);
    distribution := Tally(degrees, maxDegree + 1);
  }

  // ---------------------------------------------------------------------------
  // clustering coefficient
  // ---------------------------------------------------------------------------

  /** Positions `j` in `i+1 .. hi-1` whose node is joined by an edge to the node at `i`. */
  function LinkedFrom<P>(g: Graph<P>, nbrs: seq<nat>, i: nat, hi: nat): nat
    requires i < hi <= |nbrs|
    decreases hi
  {
    if hi == i + 1 then 0
    else LinkedFrom(g, nbrs, i, hi - 1) + (if HasEdge(g, nbrs[i], nbrs[hi - 1]) then 1 else 0)
  }

  /** Joined pairs of positions `i < j` in `nbrs` with `i < n`: `connected_neighbors` after
      the outer loop has done `n` rounds. */
  function Linked<P>(g: Graph<P>, nbrs: seq<nat>, n: nat): nat
    requires n <= |nbrs|
  {
    if n == 0 then 0 else Linked(g, nbrs, n - 1) + LinkedFrom(g, nbrs, n - 1, |nbrs|)
  }

  lemma {:induction false} LinkedFromBound<P>(g: Graph<P>, nbrs: seq<nat>, i: nat, hi: nat)
    requires i < hi <= |nbrs|
    ensures LinkedFrom(g, nbrs, i, hi) <= hi - i - 1
    decreases hi
  {
    if hi > i + 1 {
      LinkedFromBound(g, nbrs, i, hi - 1);
    }
  }

  /** At most `n(2k-n-1)/2` pairs start below `n`; for `n = k` that is `k(k-1)/2`, every pair. */
  lemma {:induction false} LinkedBound<P>(g: Graph<P>, nbrs: seq<nat>, n: nat)
    requires n <= |nbrs|
    ensures 2 * Linked(g, nbrs, n) <= n * (2 * |nbrs| - n - 1)
    decreases n
  {
    if n > 0 {
      var k := |nbrs|;
      LinkedBound(g, nbrs, n - 1);
      LinkedFromBound(g, nbrs, n - 1, k);
      assert (n - 1) * (2 * k - n) + 2 * (k - n) == n * (2 * k - n - 1);
    }
  }

  /** The local coefficient of `x`: the share of pairs of walk positions whose nodes are
      joined, `2c / (k(k-1))`; 0 below degree 2. */
  function Local<P>(g: Graph<P>, x: nat): real {
    var nbrs := Neighbors(g, x);
    var k := |nbrs|;
    if k > 1 then 2.0 * Linked(g, nbrs, k) as real / (k * (k - 1)) as real else 0.0
  }

  /** A local coefficient lies between 0 and 1. */
  lemma LocalBounds<P>(g: Graph<P>, x: nat)
    ensures 0.0 <= Local(g, x) <= 1.0
  {
    var nbrs := Neighbors(g, x);
    var k := |nbrs|;
    if k > 1 {
      LinkedBound(g, nbrs, k);
      var c := Linked(g, nbrs, k);
      assert 2 * c <= k * (k - 1);
      assert k * (k - 1) > 0;
      Ratio(2.0 * c as real, (k * (k - 1)) as real);
    }
  }

  lemma Ratio(a: real, b: real)
    requires 0.0 <= a <= b && b > 0.0
    ensures 0.0 <= a / b <= 1.0
  {
  }

  /** `total_coefficient` after the first `n` nodes. */
  function Total<P>(g: Graph<P>, n: nat): real {
    if n == 0 then 0.0 else Total(g, n - 1) + Local(g, n - 1)
  }

  lemma {:induction false} TotalBounds<P>(g: Graph<P>, n: nat)
    ensures 0.0 <= Total(g, n) <= n as real
    decreases n
  {
    if n > 0 {
      TotalBounds(g, n - 1);
      LocalBounds(g, n - 1);
    }
  }

  /** The average over all nodes lies between 0 and 1. */
  lemma AverageBounds<P>(g: Graph<P>)
    requires g.N() > 0
    ensures 0.0 <= Total(g, g.N()) / g.N() as real <= 1.0
  {
    TotalBounds(g, g.N());
  }

  /** The nested loops counting `connected_neighbors`: every pair of walk positions `i < j`
      whose nodes are joined by an edge. */
  method ConnectedNeighbors<P>(g: Graph<P>, neighbors: seq<nat>) returns (connected: nat)
    ensures connected == Linked(g, neighbors, |neighbors|)
    ensures 2 * connected <= |neighbors| * (|neighbors| - 1)
  {
    var k := |neighbors|;
    connected := 0;
    for i := 0 to k
      invariant connected == Linked(g, neighbors, i)
    {
      for j := i + 1 to k
        invariant connected == Linked(g, neighbors, i) + LinkedFrom(g, neighbors, i, j)
      {
        if HasEdge(g, neighbors[i], neighbors[j]) {
          connected := connected + 1;
        }
      }
    }
    LinkedBound(g, neighbors, k);
  }

  /** clustering_coefficient (src/network_analysis.rs:28-63): the average of the local
      coefficients, and `None` where the source's 0/0 gives NaN. */
  method ClusteringCoefficient<P>(g: Graph<P>) returns (r: Option<real>)
    ensures g.N() == 0 <==> r == None
    ensures r.Some? ==> r.value == Total(g, g.N()) / g.N() as real && 0.0 <= r.value <= 1.0
  {
    var total := 0.0;
    for node := 0 to g.N()
      invariant total == Total(g, node)
    {
      var neighbors := Neighbors(g, node);
      var k := |neighbors|;
      if k > 1 {
        var connected := ConnectedNeighbors(g, neighbors);
        var coefficient := 2.0 * connected as real / (k * (k - 1)) as real;
        total := total + coefficient;
      }
    }
    if g.N() == 0 {
      r := None;
    } else {
      AverageBounds(g);
      r := Some(total / g.N() as real);
    }
  }

  /** The path a-b-c of the source's test: no node has two joined neighbours. */
  function Path(): Graph<(real, real)> {
    Graph([(0.0, 0.0), (1.0, 0.0), (1.0, 1.0)], [Edge(0, 1, 1.0), Edge(1, 2, 1.0)])
  }

  lemma PathClustering()
    ensures Total(Path(), 3) / 3.0 == 0.0
  {
    var g := Path();
    assert [Edge(0, 1, 1.0), Edge(1, 2, 1.0)][..1] == [Edge(0, 1, 1.0)];
    assert [Edge(0, 1, 1.0)][..0] == [];
    assert OutAdj(g.edges, 0) == [Adj(1, 1.0)] && InAdj(g.edges, 0) == [];
    assert OutAdj(g.edges, 1) == [Adj(2, 1.0)] && InAdj(g.edges, 1) == [Adj(0, 1.0)];
    assert OutAdj(g.edges, 2) == [] && InAdj(g.edges, 2) == [Adj(1, 1.0)];
    assert Neighbors(g, 1) == [2, 0];
    assert !Joins(g.edges[0], 2, 0) && !Joins(g.edges[1], 2, 0);
    assert !HasEdge(g, 2, 0);
    assert Linked(g, [2, 0], 2) == 0;
  }
}
