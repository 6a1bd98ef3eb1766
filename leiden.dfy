/**
  The multi-level community-detection engine of src/leiden.rs.

  A partition is a map from node index to community id. Each round runs the local mover to a
  fixed point (`LocalMoving`), then coarsens the graph so that each community becomes one node
  (`Refinement`). The driver runs exactly `Rounds` rounds.

  The map stays keyed by the ORIGINAL node indices across rounds, while later local moves scan
  the node indices of the coarse graph. This is the source's behaviour and it is kept here.
  It is safe because a coarse graph never has more nodes than the original one
  (the ensures of `Round`).

  Two things are parameters. The HashMap iteration order that numbers the coarse nodes is
  `order`, one enumeration of the keys per round. The bound on local-moving passes is `fuel`,
  which the source does not have.
*/
module Leiden {
  import opened Graphs

  type Point = (real, real)
  type Assignment = map<nat, nat>

  /** The driver's hard round count (src/leiden.rs:21). */
  const Rounds: nat := 10

  /** Every node of a graph with `n` nodes has an entry. */
  predicate Covers(a: Assignment, n: nat) {
    forall x: nat :: x < n ==> x in a
  }

  /** Every node an adjacency walk reaches has an entry. */
  predicate Known(adj: seq<Adj>, a: Assignment) {
    forall k :: 0 <= k < |adj| ==> adj[k].node in a
  }

  lemma IncidentKnown(g: Graph<Point>, a: Assignment, x: nat)
    requires g.Valid() && Covers(a, g.N())
    ensures Known(Incident(g, x), a)
  {
    IncidentBelow(g, x);
  }

  // ---------------------------------------------------------------------------
  // modularity_delta
  // ---------------------------------------------------------------------------

  /** `node_weight`: the weight of every edge of the walk. */
  function WTotal(adj: seq<Adj>): real
    decreases |adj|
  {
    if adj == [] then 0.0 else WTotal(adj[..|adj| - 1]) + adj[|adj| - 1].w
  }

  /** `from_community_weight`: the weight of the edges into community `from`. */
  function WFrom(adj: seq<Adj>, a: Assignment, from: nat): real
    requires Known(adj, a)
    decreases |adj|
  {
    if adj == [] then 0.0
    else
      var e := adj[|adj| - 1];
      WFrom(adj[..|adj| - 1], a, from) + (if a[e.node] == from then e.w else 0.0)
  }

  /** `to_community_weight`: the weight of the edges into community `to`, counted only when
      the edge did not already count for `from` (the source's `else if`). */
  function WTo(adj: seq<Adj>, a: Assignment, from: nat, to: nat): real
    requires Known(adj, a)
    decreases |adj|
  {
    if adj == [] then 0.0
    else
      var e := adj[|adj| - 1];
      WTo(adj[..|adj| - 1], a, from, to) + (if a[e.node] != from && a[e.node] == to then e.w else 0.0)
  }

  /** The gain of moving node `x` from community `from` to community `to`. `None` stands for
      the NaN the source computes when `x` has no edge weight at all (0.0 / 0.0). */
  function Gain(g: Graph<Point>, a: Assignment, x: nat, from: nat, to: nat): Option<real>
    requires g.Valid() && Covers(a, g.N())
  {
    var adj := Incident(g, x);
    IncidentKnown(g, a, x);
    var total := WTotal(adj);
    if total == 0.0 then None
    else Some(WTo(adj, a, from, to) / total - WFrom(adj, a, from) / total)
  }

  /** Each edge is counted in the total and in at most one of the two community weights. */
  lemma {:induction false} WeightSplit(adj: seq<Adj>, a: Assignment, from: nat, to: nat)
    requires Known(adj, a) && NonNegativeAdj(adj)
    ensures 0.0 <= WFrom(adj, a, from) && 0.0 <= WTo(adj, a, from, to)
    ensures WFrom(adj, a, from) + WTo(adj, a, from, to) <= WTotal(adj)
    decreases |adj|
  {
    if adj != [] {
      WeightSplit(adj[..|adj| - 1], a, from, to);
    }
  }

  /** A part of a positive whole is a share between 0 and 1. */
  lemma UnitShare(part: real, whole: real)
    requires 0.0 <= part <= whole && whole > 0.0
    ensures 0.0 <= part / whole <= 1.0
  {
  }

  /** With non-negative weights the gain is a number exactly when the node has some edge
      weight, and then it lies in [-1, 1]. */
  lemma GainBounds(g: Graph<Point>, a: Assignment, x: nat, from: nat, to: nat)
    requires g.Valid() && Covers(a, g.N()) && NonNegativeWeights(g)
    ensures Gain(g, a, x, from, to).None? <==> WTotal(Incident(g, x)) == 0.0
    ensures Gain(g, a, x, from, to).Some? ==>
      -1.0 <= Gain(g, a, x, from, to).value <= 1.0
  {
    var adj := Incident(g, x);
    IncidentKnown(g, a, x);
    IncidentNonNegative(g, x);
    WeightSplit(adj, a, from, to);
    var total, f, t := WTotal(adj), WFrom(adj, a, from), WTo(adj, a, from, to);
    if total != 0.0 {
      assert total > 0.0;
      UnitShare(t, total);
      UnitShare(f, total);
    }
  }

  /** modularity_delta (src/leiden.rs:114-152): one pass over the node's edges with three
      accumulators. */
  method ModularityDelta(g: Graph<Point>, a: Assignment, x: nat, from: nat, to: nat)
    returns (delta: Option<real>)
    requires g.Valid() && Covers(a, g.N())
    ensures delta == Gain(g, a, x, from, to)
  {
    var adj := Incident(g, x);
    IncidentKnown(g, a, x);
    var fromWeight, toWeight, nodeWeight := 0.0, 0.0, 0.0;
    for k := 0 to |adj|
      invariant nodeWeight == WTotal(adj[..k])
      invariant fromWeight == WFrom(adj[..k], a, from)
      invariant toWeight == WTo(adj[..k], a, from, to)
    {
      assert adj[..k + 1][..k] == adj[..k];
      var community := a[adj[k].node];
      nodeWeight := nodeWeight + adj[k].w;
      if community == from {
        fromWeight := fromWeight + adj[k].w;
      } else if community == to {
        toWeight := toWeight + adj[k].w;
      }
    }
    assert adj[..|adj|] == adj;
    if nodeWeight == 0.0 {
      delta := None;
    } else {
      delta := Some(toWeight / nodeWeight - fromWeight / nodeWeight);
    }
  }

  /** Three nodes, the edges 0-1 of weight 1 and 0-2 of weight -1, and node 0 in community 0
      with node 2. */
  function CancellingWeights(): Graph<Point> {
    Graph([(0.0, 0.0), (0.0, 0.0), (0.0, 0.0)], [Edge(0, 1, 1.0), Edge(0, 2, -1.0)])
  }

  /** Node 0's walk: the newer edge first. */
  lemma CancellingIncident()
    ensures Incident(CancellingWeights(), 0) == [Adj(2, -1.0), Adj(1, 1.0)]
  {
    var es := CancellingWeights().edges;
    assert es[..1] == [Edge(0, 1, 1.0)];
    assert es[..1][..0] == [];
    assert OutAdj(es, 0) == [Adj(2, -1.0), Adj(1, 1.0)];
    assert InAdj(es, 0) == [];
  }

  /** With weights that cancel, node 0's edge weight is 0 while the weights into communities
      0 and 1 are not: the source divides them by zero and gets -inf and +inf, a gain of
      +inf. Here the gain is `None`. */
  lemma CancellingGain()
    ensures var g, a := CancellingWeights(), map[0 := 0, 1 := 1, 2 := 0];
      && Ready(g, a) && Known(Incident(g, 0), a)
      && WTotal(Incident(g, 0)) == 0.0
      && WFrom(Incident(g, 0), a, 0) == -1.0 && WTo(Incident(g, 0), a, 0, 1) == 1.0
      && Gain(g, a, 0, 0, 1) == None
  {
    var g, a := CancellingWeights(), map[0 := 0, 1 := 1, 2 := 0];
    CancellingIncident();
    IncidentKnown(g, a, 0);
    var adj := Incident(g, 0);
    assert adj[..1] == [Adj(2, -1.0)] && adj[..1][..0] == [];
    assert WTotal(adj[..1]) == -1.0;
    assert a[2] == 0 && a[1] == 1;
    assert WFrom(adj[..1], a, 0) == -1.0;
    assert WTo(adj[..1][..0], a, 0, 1) == 0.0;
    assert WTo(adj[..1], a, 0, 1) == 0.0;
  }

  /** So where the source moves node 0 to community 1, the model keeps it in community 0. */
  lemma CancellingStays()
    ensures var g, a := CancellingWeights(), map[0 := 0, 1 := 1, 2 := 0];
      Ready(g, a) && Best(g, a, 0) == 0
  {
    var g, a := CancellingWeights(), map[0 := 0, 1 := 1, 2 := 0];
    CancellingIncident();
    CancellingGain();
    assert NeighbourCommunity(g, a, 0, 0) == 0;
    assert NeighbourCommunity(g, a, 0, 1) == 1;
    assert Candidate(g, a, 0, 0) == None;
    assert Candidate(g, a, 0, 1) == None;
  }

  // ---------------------------------------------------------------------------
  // local_moving
  // ---------------------------------------------------------------------------

  /** What the source's graph-wide lookups need: a valid graph whose every node has an entry. */
  predicate Ready(g: Graph<Point>, a: Assignment) {
    g.Valid() && Covers(a, g.N())
  }

  /** The community of the `k`-th neighbour in `x`'s walk. */
  function NeighbourCommunity(g: Graph<Point>, a: Assignment, x: nat, k: nat): nat
    requires Ready(g, a) && k < |Incident(g, x)|
  {
    IncidentKnown(g, a, x);
    a[Incident(g, x)[k].node]
  }

  /** The gain the scan of node `x` computes for its `k`-th neighbour: none when that
      neighbour is already in `x`'s community. */
  function Candidate(g: Graph<Point>, a: Assignment, x: nat, k: nat): Option<real>
    requires Ready(g, a) && x < g.N() && k < |Incident(g, x)|
  {
    var c := NeighbourCommunity(g, a, x, k);
    if c != a[x] then Gain(g, a, x, a[x], c) else None
  }

  /** The `k`-th neighbour offers a gain strictly above `d`. */
  predicate Beats(g: Graph<Point>, a: Assignment, x: nat, k: nat, d: real)
    requires Ready(g, a) && x < g.N() && k < |Incident(g, x)|
  {
    Candidate(g, a, x, k).Some? && Candidate(g, a, x, k).value > d
  }

  /** The `k`-th neighbour offers a gain of at least `d`. */
  predicate Reaches(g: Graph<Point>, a: Assignment, x: nat, k: nat, d: real)
    requires Ready(g, a) && x < g.N() && k < |Incident(g, x)|
  {
    Candidate(g, a, x, k).Some? && Candidate(g, a, x, k).value >= d
  }

  /** `(best_community, best_delta_modularity)` after scanning the first `k` neighbours
      of `x`, starting from staying put with gain 0. */
  function Scan(g: Graph<Point>, a: Assignment, x: nat, k: nat): (nat, real)
    requires Ready(g, a) && x < g.N() && k <= |Incident(g, x)|
  {
    if k == 0 then (a[x], 0.0)
    else
      var prev := Scan(g, a, x, k - 1);
      if Beats(g, a, x, k - 1, prev.1) then (NeighbourCommunity(g, a, x, k - 1), Candidate(g, a, x, k - 1).value)
      else prev
  }

  /** The community node `x` moves to: the outcome of a full scan of its neighbours. */
  function Best(g: Graph<Point>, a: Assignment, x: nat): nat
    requires Ready(g, a) && x < g.N()
  {
    Scan(g, a, x, |Incident(g, x)|).0
  }

  /** The scan either stays (no neighbour beats gain 0) or picks the community of the FIRST
      neighbour reaching the best gain, which is strictly positive, and no later neighbour
      beats it. */
  lemma {:induction false} ScanChoice(g: Graph<Point>, a: Assignment, x: nat, K: nat)
    requires Ready(g, a) && x < g.N() && K <= |Incident(g, x)|
    ensures var (c, d) := Scan(g, a, x, K);
      (c == a[x] && d == 0.0 && forall k :: 0 <= k < K ==> !Beats(g, a, x, k, 0.0))
      || (exists j :: 0 <= j < K && Candidate(g, a, x, j) == Some(d) && d > 0.0
            && c == NeighbourCommunity(g, a, x, j) && c != a[x]
            && (forall i :: 0 <= i < j ==> !Reaches(g, a, x, i, d))
            && (forall i :: j < i < K ==> !Beats(g, a, x, i, d)))
  {
    if K > 0 {
      ScanChoice(g, a, x, K - 1);
      var (c0, d0) := Scan(g, a, x, K - 1);
      if Beats(g, a, x, K - 1, d0) {
        var d := Candidate(g, a, x, K - 1).value;
        if c0 == a[x] && d0 == 0.0 && forall k :: 0 <= k < K - 1 ==> !Beats(g, a, x, k, 0.0) {
          forall i | 0 <= i < K - 1 ensures !Reaches(g, a, x, i, d) {
            assert !Beats(g, a, x, i, 0.0);
          }
          assert Candidate(g, a, x, K - 1) == Some(d);
        } else {
          var j :| 0 <= j < K - 1 && Candidate(g, a, x, j) == Some(d0) && d0 > 0.0
            && c0 == NeighbourCommunity(g, a, x, j) && c0 != a[x]
            && (forall i :: 0 <= i < j ==> !Reaches(g, a, x, i, d0))
            && (forall i :: j < i < K - 1 ==> !Beats(g, a, x, i, d0));
          assert forall i :: 0 <= i < K - 1 ==> !Reaches(g, a, x, i, d) by {
            forall i | 0 <= i < K - 1 ensures !Reaches(g, a, x, i, d) {
              if i < j {
                assert !Reaches(g, a, x, i, d0);
              } else if i > j {
                assert !Beats(g, a, x, i, d0);
              }
            }
          }
        }
      } else {
        if c0 == a[x] && d0 == 0.0 && forall k :: 0 <= k < K - 1 ==> !Beats(g, a, x, k, 0.0) {
        } else {
          var j :| 0 <= j < K - 1 && Candidate(g, a, x, j) == Some(d0) && d0 > 0.0
            && c0 == NeighbourCommunity(g, a, x, j) && c0 != a[x]
            && (forall i :: 0 <= i < j ==> !Reaches(g, a, x, i, d0))
            && (forall i :: j < i < K - 1 ==> !Beats(g, a, x, i, d0));
          assert forall i :: j < i < K ==> !Beats(g, a, x, i, d0);
        }
      }
    }
  }

  /** A node moves exactly when some neighbour's differing community offers a strictly
      positive gain; it then moves into the community of one of its neighbours. */
  lemma BestMoves(g: Graph<Point>, a: Assignment, x: nat)
    requires Ready(g, a) && x < g.N()
    ensures Best(g, a, x) != a[x] <==> exists k :: 0 <= k < |Incident(g, x)| && Beats(g, a, x, k, 0.0)
    ensures Best(g, a, x) != a[x] ==>
      exists k :: 0 <= k < |Incident(g, x)| && Best(g, a, x) == NeighbourCommunity(g, a, x, k)
  {
    var K := |Incident(g, x)|;
    ScanChoice(g, a, x, K);
    var (c, d) := Scan(g, a, x, K);
    if c == a[x] && d == 0.0 && forall k :: 0 <= k < K ==> !Beats(g, a, x, k, 0.0) {
    } else {
      var j :| 0 <= j < K && Candidate(g, a, x, j) == Some(d) && d > 0.0
        && c == NeighbourCommunity(g, a, x, j) && c != a[x];
      assert Beats(g, a, x, j, 0.0);
    }
  }

  /** The node loop of one pass under any rule `choose` for a node's new community: after
      `i` iterations nodes `0 .. i - 1` have been visited in order, each one judged against
      the map the earlier ones left. The source writes an entry only when it changes, which
      leaves the same map as writing it unconditionally. */
  function Sweep(a: Assignment, i: nat, choose: (Assignment, nat) -> nat): (r: Assignment)
    decreases i
  {
    if i == 0 then a
    else
      var p := Sweep(a, i - 1, choose);
      p[i - 1 := choose(p, i - 1)]
  }

  /** A sweep over nodes that all have an entry keeps the key set, and leaves the entries
      from `i` on as they were. */
  lemma {:induction false} SweepFrame(a: Assignment, i: nat, choose: (Assignment, nat) -> nat)
    requires Covers(a, i)
    ensures Sweep(a, i, choose).Keys == a.Keys
    ensures forall y :: y in a && y >= i ==> Sweep(a, i, choose)[y] == a[y]
    decreases i
  {
    if i > 0 {
      SweepFrame(a, i - 1, choose);
    }
  }

  /** One iteration writes only the entry of the node it visits. */
  lemma SweepOther(a: Assignment, i: nat, j: nat, choose: (Assignment, nat) -> nat)
    requires j + 1 < i && j in Sweep(a, i - 1, choose)
    ensures j in Sweep(a, i, choose) && Sweep(a, i, choose)[j] == Sweep(a, i - 1, choose)[j]
  {
  }

  /** The entry of the node just visited is the rule's choice against the map before it. */
  lemma SweepLast(a: Assignment, i: nat, choose: (Assignment, nat) -> nat)
    requires i > 0
    ensures i - 1 in Sweep(a, i, choose)
    ensures Sweep(a, i, choose)[i - 1] == choose(Sweep(a, i - 1, choose), i - 1)
  {
  }

  /** The entry written for node `j` is the rule's choice against the map reached before it,
      and it survives the rest of the loop. */
  lemma {:induction false} SweepWritten(a: Assignment, i: nat, j: nat, choose: (Assignment, nat) -> nat)
    requires j < i
    ensures j in Sweep(a, i, choose) && Sweep(a, i, choose)[j] == choose(Sweep(a, j, choose), j)
    decreases i
  {
    if j + 1 < i {
      SweepWritten(a, i - 1, j, choose);
      SweepOther(a, i, j, choose);
    } else {
      SweepLast(a, i, choose);
    }
  }

  /** The rule of `local_moving`: a node takes its best community against the current map. */
  function BestRule(g: Graph<Point>): (Assignment, nat) -> nat {
    (m: Assignment, x: nat) => if Ready(g, m) && x < g.N() then Best(g, m, x) else 0
  }

  /** The map after the first `i` iterations of one pass. Later nodes see earlier moves. */
  function PassPrefix(g: Graph<Point>, a: Assignment, i: nat): (r: Assignment)
    requires Ready(g, a) && i <= g.N()
    ensures r.Keys == a.Keys && Ready(g, r)
    ensures forall y :: y in a && y >= i ==> r[y] == a[y]
  {
    SweepFrame(a, i, BestRule(g));
    Sweep(a, i, BestRule(g))
  }

  /** Iteration `i` of a pass writes node `i`'s best community against the map so far. */
  lemma PassPrefixNext(g: Graph<Point>, a: Assignment, i: nat, b: Assignment, c: nat)
    requires Ready(g, a) && i < g.N() && PassPrefix(g, a, i) == b && Best(g, b, i) == c
    ensures PassPrefix(g, a, i + 1) == b[i := c]
  {
    assert Sweep(a, i + 1, BestRule(g)) == b[i := BestRule(g)(b, i)];
  }

  /** One full pass over the nodes. */
  function Pass(g: Graph<Point>, a: Assignment): (r: Assignment)
    requires Ready(g, a)
    ensures r.Keys == a.Keys
  {
    PassPrefix(g, a, g.N())
  }

  /** The convergence condition: no node has a neighbour community with positive gain. */
  predicate LocallyOptimal(g: Graph<Point>, a: Assignment)
    requires Ready(g, a)
  {
    forall x: nat, k: nat :: x < g.N() && k < |Incident(g, x)| ==> !Beats(g, a, x, k, 0.0)
  }

  /** The entry written for node `j` during a pass is the best community against the map the
      pass had reached by then, and it survives the rest of the pass. */
  lemma PassPrefixWritten(g: Graph<Point>, a: Assignment, i: nat, j: nat)
    requires Ready(g, a) && j < i <= g.N()
    ensures PassPrefix(g, a, i)[j] == Best(g, PassPrefix(g, a, j), j)
  {
    SweepWritten(a, i, j, BestRule(g));
  }

  /** A pass leaves the map unchanged exactly when the map is locally optimal. */
  lemma {:induction false} PassFixedPoint(g: Graph<Point>, a: Assignment)
    requires Ready(g, a)
    ensures Pass(g, a) == a <==> LocallyOptimal(g, a)
  {
    if Pass(g, a) == a {
      forall x: nat, k: nat | x < g.N() && k < |Incident(g, x)| ensures !Beats(g, a, x, k, 0.0) {
        UnchangedPrefix(g, a, x);
        PassPrefixWritten(g, a, g.N(), x);
        BestMoves(g, a, x);
      }
    } else if LocallyOptimal(g, a) {
      StablePrefix(g, a, g.N());
    }
  }

  /** When the whole pass changes nothing, no prefix of it did either. */
  lemma {:induction false} UnchangedPrefix(g: Graph<Point>, a: Assignment, j: nat)
    requires Ready(g, a) && j < g.N() && Pass(g, a) == a
    ensures PassPrefix(g, a, j) == a
  {
    var p := PassPrefix(g, a, j);
    forall y | y in a ensures p[y] == a[y] {
      if y < j {
        PassPrefixWritten(g, a, j, y);
        PassPrefixWritten(g, a, g.N(), y);
        UnchangedPrefix(g, a, y);
      }
    }
  }

  /** On a locally optimal map no step of a pass moves anything. */
  lemma {:induction false} StablePrefix(g: Graph<Point>, a: Assignment, i: nat)
    requires Ready(g, a) && i <= g.N() && LocallyOptimal(g, a)
    ensures PassPrefix(g, a, i) == a
  {
    if i > 0 {
      StablePrefix(g, a, i - 1);
      BestMoves(g, a, i - 1);
      PassPrefixNext(g, a, i - 1, a, a[i - 1]);
      assert a[i - 1 := a[i - 1]] == a;
    }
  }

  /** local_moving with at most `fuel` passes: the final map, and whether the loop ended the
      source's way, by a pass that moved nothing. */
  function LocalMove(g: Graph<Point>, a: Assignment, fuel: nat): (r: (Assignment, bool))
    requires Ready(g, a)
    ensures r.0.Keys == a.Keys
    decreases fuel
  {
    if fuel == 0 then (a, false)
    else
      var next := Pass(g, a);
      if next == a then (a, true) else LocalMove(g, next, fuel - 1)
  }

  /** When local moving reports convergence, its map is locally optimal: no node has a
      neighbour community with strictly positive gain. */
  lemma {:induction false} LocalMoveConverged(g: Graph<Point>, a: Assignment, fuel: nat)
    requires Ready(g, a)
    ensures LocalMove(g, a, fuel).1 ==> LocallyOptimal(g, LocalMove(g, a, fuel).0)
    decreases fuel
  {
    if fuel > 0 {
      PassFixedPoint(g, a);
      if Pass(g, a) != a {
        LocalMoveConverged(g, Pass(g, a), fuel - 1);
      }
    }
  }

  /** A locally optimal map is left as it is. */
  lemma LocalMoveStable(g: Graph<Point>, a: Assignment, fuel: nat)
    requires Ready(g, a) && LocallyOptimal(g, a)
    ensures LocalMove(g, a, fuel) == (a, fuel > 0)
  {
    PassFixedPoint(g, a);
  }

  /** The neighbour scan of one node (src/leiden.rs:74-101): the best community starts as the
      node's own with gain 0 and is replaced only by a strictly larger gain. */
  method BestCommunity(g: Graph<Point>, a: Assignment, x: nat) returns (best: nat)
    requires Ready(g, a) && x < g.N()
    ensures best == Best(g, a, x)
  {
    var community := a[x];
    var bestDelta := 0.0;
    best := community;
    var adj := Incident(g, x);
    IncidentKnown(g, a, x);
    for k := 0 to |adj|
      invariant (best, bestDelta) == Scan(g, a, x, k)
    {
      var neighbourCommunity := a[adj[k].node];
      if neighbourCommunity != community {
        var delta := ModularityDelta(g, a, x, community, neighbourCommunity);
        if delta.Some? && delta.value > bestDelta {
          best, bestDelta := neighbourCommunity, delta.value;
        }
      }
    }
  }

  /** One pass of the node loop (src/leiden.rs:69-108), updating the map in place; the flag
      records whether any node moved. */
  method MovePass(g: Graph<Point>, a: Assignment) returns (r: Assignment, improvement: bool)
    requires Ready(g, a)
    ensures r == Pass(g, a)
    ensures improvement <==> r != a
  {
    r, improvement := a, false;
    for x := 0 to g.N()
      invariant r.Keys == a.Keys
      invariant r == PassPrefix(g, a, x)
      invariant improvement <==> r != a
    {
      var community := r[x];
      var best := BestCommunity(g, r, x);
      PassPrefixNext(g, a, x, r, best);
      if best != community {
        r := r[x := best];
        improvement := true;
      }
    }
  }

  /** One more pass of local moving, as the loop of `LocalMoving` takes it. */
  lemma LocalMoveAdvance(g: Graph<Point>, a: Assignment, fuel: nat, next: Assignment, moved: bool)
    requires Ready(g, a) && fuel > 0
    requires next == Pass(g, a) && (moved <==> next != a)
    ensures Ready(g, next)
    ensures LocalMove(g, a, fuel) == if moved then LocalMove(g, next, fuel - 1) else (next, true)
  {
  }

  /** The loop invariant of `LocalMoving` carried over one pass. */
  lemma LocalMoveStep(g: Graph<Point>, a: Assignment, fuel: nat, prev: Assignment, left: nat,
                      next: Assignment, moved: bool)
    requires Ready(g, a) && Ready(g, prev) && left > 0
    requires LocalMove(g, a, fuel) == LocalMove(g, prev, left)
    requires next == Pass(g, prev) && (moved <==> next != prev)
    ensures Ready(g, next)
    ensures LocalMove(g, a, fuel) == if moved then LocalMove(g, next, left - 1) else (next, true)
  {
    LocalMoveAdvance(g, prev, left, next, moved);
  }

  /** local_moving (src/leiden.rs:62-110): passes over all nodes until one changes nothing.
      The source loops without bound; here at most `fuel` passes run. */
  method LocalMoving(g: Graph<Point>, a: Assignment, fuel: nat) returns (r: Assignment, converged: bool)
    requires Ready(g, a)
    ensures (r, converged) == LocalMove(g, a, fuel)
  {
    r := a;
    var improvement := true;
    var left := fuel;
    while improvement && left > 0
      invariant Ready(g, r)
      invariant LocalMove(g, a, fuel) == if improvement then LocalMove(g, r, left) else (r, true)
    {
      ghost var prev := r;
      r, improvement := MovePass(g, r);
      LocalMoveStep(g, a, fuel, prev, left, r, improvement);
      left := left - 1;
    }
    converged := !improvement;
  }

  // ---------------------------------------------------------------------------
  // refinement
  // ---------------------------------------------------------------------------

  /** `order` is the HashMap's iteration order: it lists keys of `a`, and every key. */
  predicate Enumerates(order: seq<nat>, a: Assignment) {
    (forall i :: 0 <= i < |order| ==> order[i] in a) && (forall x :: x in a ==> x in order)
  }

  /** The first loop of refinement: walking the keys in `order`, each community seen for the
      first time gets the next new node, whose payload is `(community, 0.0)`. */
  function Numbering(a: Assignment, order: seq<nat>): (r: (map<nat, nat>, seq<Point>))
    requires forall i :: 0 <= i < |order| ==> order[i] in a
    decreases |order|
  {
    if order == [] then (map[], [])
    else
      var (m, nodes) := Numbering(a, order[..|order| - 1]);
      var c := a[order[|order| - 1]];
      if c in m then (m, nodes) else (m[c := |nodes|], nodes + [(c as real, 0.0)])
  }

  /** The numbered communities are exactly the communities met along `order`. */
  lemma {:induction false} NumberingSeen(a: Assignment, order: seq<nat>)
    requires forall i :: 0 <= i < |order| ==> order[i] in a
    ensures forall c :: c in Numbering(a, order).0 <==> exists i :: 0 <= i < |order| && a[order[i]] == c
    decreases |order|
  {
    if order != [] {
      var init := order[..|order| - 1];
      NumberingSeen(a, init);
      var m0 := Numbering(a, init).0;
      var c := a[order[|order| - 1]];
      var m := Numbering(a, order).0;
      forall d ensures d in m <==> exists i :: 0 <= i < |order| && a[order[i]] == d {
        if d in m0 {
          var i :| 0 <= i < |init| && a[init[i]] == d;
          assert order[i] == init[i];
        } else if d == c {
          assert a[order[|order| - 1]] == d;
        }
        if exists i :: 0 <= i < |order| && a[order[i]] == d {
          var i :| 0 <= i < |order| && a[order[i]] == d;
          if i < |init| {
            assert init[i] == order[i];
          }
        }
      }
    }
  }

  predicate Injective(m: map<nat, nat>) {
    forall c, d :: c in m && d in m && c != d ==> m[c] != m[d]
  }

  /** Distinct communities get distinct new nodes, and new node `m[c]` carries payload
      `(c, 0.0)`. */
  predicate WellNumbered(m: map<nat, nat>, nodes: seq<Point>) {
    && (forall c :: c in m ==> m[c] < |nodes| && nodes[m[c]] == (c as real, 0.0))
    && Injective(m)
  }

  lemma {:induction false} NumberingInjective(a: Assignment, order: seq<nat>)
    requires forall i :: 0 <= i < |order| ==> order[i] in a
    ensures WellNumbered(Numbering(a, order).0, Numbering(a, order).1)
    decreases |order|
  {
    if order != [] {
      var init := order[..|order| - 1];
      NumberingInjective(a, init);
      var m0, nodes0 := Numbering(a, init).0, Numbering(a, init).1;
      var c := a[order[|order| - 1]];
      var m, nodes := Numbering(a, order).0, Numbering(a, order).1;
      if c !in m0 {
        assert m == m0[c := |nodes0|] && nodes == nodes0 + [(c as real, 0.0)];
        forall d | d in m ensures m[d] < |nodes| && nodes[m[d]] == (d as real, 0.0) {
          if d != c {
            assert nodes[m0[d]] == nodes0[m0[d]];
          }
        }
      }
    }
  }

  /** Every new node is the image of a community, and there are as many new nodes as
      communities. */
  lemma {:induction false} NumberingOnto(a: Assignment, order: seq<nat>)
    requires forall i :: 0 <= i < |order| ==> order[i] in a
    ensures var (m, nodes) := Numbering(a, order);
      (forall p :: 0 <= p < |nodes| ==> p in m.Values) && |m.Keys| == |nodes|
    decreases |order|
  {
    if order != [] {
      var init := order[..|order| - 1];
      NumberingOnto(a, init);
      var (m0, nodes0) := Numbering(a, init);
      var c := a[order[|order| - 1]];
      var (m, nodes) := Numbering(a, order);
      if c !in m0 {
        assert m.Keys == m0.Keys + {c};
        forall p | 0 <= p < |nodes| ensures p in m.Values {
          if p == |nodes0| {
            assert m[c] == p;
          } else {
            assert p in m0.Values;
            var e :| e in m0 && m0[e] == p;
            assert m[e] == p;
          }
        }
      }
    }
  }

  /** Under an enumerating order, the numbered communities are exactly the map's values. */
  lemma NumberingKeys(a: Assignment, order: seq<nat>)
    requires Enumerates(order, a)
    ensures Numbering(a, order).0.Keys == a.Values
  {
    NumberingSeen(a, order);
    var m := Numbering(a, order).0;
    forall c ensures c in m <==> c in a.Values {
      if c in a.Values {
        var x :| x in a && a[x] == c;
        var i :| 0 <= i < |order| && order[i] == x;
      }
    }
  }

  /** `find_edge_undirected`: the first edge joining `s` and `t`, in either orientation. */
  function FindEdge(es: seq<Edge>, s: nat, t: nat): (r: Option<nat>)
    ensures r.Some? ==> r.value < |es| && Joins(es[r.value], s, t)
    ensures r.Some? ==> forall i :: 0 <= i < r.value ==> !Joins(es[i], s, t)
    ensures r.None? ==> forall i :: 0 <= i < |es| ==> !Joins(es[i], s, t)
    decreases |es|
  {
    if es == [] then None
    else if Joins(es[0], s, t) then Some(0)
    else
      match FindEdge(es[1..], s, t)
      case None => None
      case Some(j) => Some(j + 1)
  }

  /** `update_edge(s, t, w)`: overwrite the weight of the edge joining `s` and `t`, or add
      the edge `(s, t)` when there is none. */
  function UpdateEdge(es: seq<Edge>, s: nat, t: nat, w: real): seq<Edge> {
    match FindEdge(es, s, t)
    case Some(j) => es[j := Edge(es[j].u, es[j].v, w)]
    case None => es + [Edge(s, t, w)]
  }

  /** One inter-community edge of weight `w` added to the coarse edges (src/leiden.rs:189-194). */
  function Accumulate(es: seq<Edge>, s: nat, t: nat, w: real): seq<Edge> {
    var newWeight := match FindEdge(es, s, t) case Some(j) => es[j].w + w case None => w;
    UpdateEdge(es, s, t, newWeight)
  }

  predicate EdgesKnown(es: seq<Edge>, a: Assignment) {
    forall i :: 0 <= i < |es| ==> es[i].u in a && es[i].v in a
  }

  /** The edges `es` share their endpoints' communities. */
  predicate Intra(e: Edge, a: Assignment)
    requires e.u in a && e.v in a
  {
    a[e.u] == a[e.v]
  }

  /** The second loop of refinement: the coarse edge list built from `es`. */
  function Coarsen(es: seq<Edge>, a: Assignment, m: map<nat, nat>): seq<Edge>
    requires EdgesKnown(es, a) && a.Values <= m.Keys
    decreases |es|
  {
    if es == [] then []
    else
      var acc := Coarsen(es[..|es| - 1], a, m);
      var e := es[|es| - 1];
      if Intra(e, a) then acc else Accumulate(acc, m[a[e.u]], m[a[e.v]], e.w)
  }

  /** refinement's result: the coarse graph, the new map and the numbering. */
  function Refine(g: Graph<Point>, a: Assignment, order: seq<nat>): (Graph<Point>, Assignment, map<nat, nat>)
    requires Ready(g, a) && Enumerates(order, a)
  {
    var m := Numbering(a, order).0;
    NumberingKeys(a, order);
    assert EdgesKnown(g.edges, a);
    (Graph(Numbering(a, order).1, Coarsen(g.edges, a, m)), map x | x in a :: m[a[x]], m)
  }

  /** Edge `e` crosses communities and its image in the coarse graph joins `p` and `q`. */
  predicate Links(e: Edge, a: Assignment, m: map<nat, nat>, p: nat, q: nat)
    requires e.u in a && e.v in a && a.Values <= m.Keys
  {
    !Intra(e, a) && Joins(Edge(m[a[e.u]], m[a[e.v]], e.w), p, q)
  }

  /** Total weight of the edges of `es` whose image joins coarse nodes `p` and `q`. */
  function CrossWeight(es: seq<Edge>, a: Assignment, m: map<nat, nat>, p: nat, q: nat): real
    requires EdgesKnown(es, a) && a.Values <= m.Keys
    decreases |es|
  {
    if es == [] then 0.0
    else
      var e := es[|es| - 1];
      CrossWeight(es[..|es| - 1], a, m, p, q) + (if Links(e, a, m, p, q) then e.w else 0.0)
  }

  /** Total weight of the edges of `es` between different communities. */
  function InterWeight(es: seq<Edge>, a: Assignment): real
    requires EdgesKnown(es, a)
    decreases |es|
  {
    if es == [] then 0.0
    else
      var e := es[|es| - 1];
      InterWeight(es[..|es| - 1], a) + (if Intra(e, a) then 0.0 else e.w)
  }

  /** Total weight of the edges of `es` inside one community. */
  function IntraWeight(es: seq<Edge>, a: Assignment): real
    requires EdgesKnown(es, a)
    decreases |es|
  {
    if es == [] then 0.0
    else
      var e := es[|es| - 1];
      IntraWeight(es[..|es| - 1], a) + (if Intra(e, a) then e.w else 0.0)
  }

  /** `Accumulate` keeps the endpoints of every existing edge and leaves an edge joining
      `s` and `t`: either an existing one, or a new last edge `(s, t)` when none joined them. */
  lemma AccumulateKeeps(es: seq<Edge>, s: nat, t: nat, w: real)
    ensures var r := Accumulate(es, s, t, w);
      && (forall i :: 0 <= i < |es| ==> r[i].u == es[i].u && r[i].v == es[i].v)
      && (FindEdge(es, s, t).Some? ==> |r| == |es|)
      && (FindEdge(es, s, t).None? ==> |r| == |es| + 1 && r[|es|].u == s && r[|es|].v == t)
      && exists j :: 0 <= j < |r| && Joins(r[j], s, t)
  {
    var r := Accumulate(es, s, t, w);
    match FindEdge(es, s, t)
    case Some(j) => assert Joins(r[j], s, t);
    case None => assert Joins(r[|es|], s, t);
  }

  /** Every edge joins two distinct nodes of the numbering's image. */
  predicate NoLoops(ce: seq<Edge>, m: map<nat, nat>) {
    forall i :: 0 <= i < |ce| ==> ce[i].u in m.Values && ce[i].v in m.Values && ce[i].u != ce[i].v
  }

  /** The coarse edges join distinct coarse nodes. */
  lemma {:induction false} CoarsenNoLoops(es: seq<Edge>, a: Assignment, m: map<nat, nat>)
    requires EdgesKnown(es, a) && a.Values <= m.Keys && Injective(m)
    ensures NoLoops(Coarsen(es, a, m), m)
    decreases |es|
  {
    if es != [] {
      var e := es[|es| - 1];
      CoarsenNoLoops(es[..|es| - 1], a, m);
      var acc := Coarsen(es[..|es| - 1], a, m);
      if !Intra(e, a) {
        var s, t := m[a[e.u]], m[a[e.v]];
        AccumulateKeeps(acc, s, t, e.w);
        assert s in m.Values && t in m.Values && s != t;
        var ce := Coarsen(es, a, m);
        assert ce == Accumulate(acc, s, t, e.w);
        forall i | 0 <= i < |ce| ensures ce[i].u in m.Values && ce[i].v in m.Values && ce[i].u != ce[i].v {
          if i < |acc| {
            assert ce[i].u == acc[i].u && ce[i].v == acc[i].v;
            assert acc[i].u in m.Values;
            assert acc[i].v in m.Values;
            assert acc[i].u != acc[i].v;
          } else {
            assert FindEdge(acc, s, t).None?;
            assert ce[i].u == s;
          }
        }
      } else {
        assert Coarsen(es, a, m) == acc;
      }
    }
  }

  /** No two edges join the same pair of nodes. */
  predicate NoParallel(ce: seq<Edge>) {
    forall i, j :: 0 <= i < j < |ce| ==> !Joins(ce[j], ce[i].u, ce[i].v)
  }

  /** No two coarse edges join the same pair of coarse nodes. */
  lemma {:induction false} CoarsenNoParallel(es: seq<Edge>, a: Assignment, m: map<nat, nat>)
    requires EdgesKnown(es, a) && a.Values <= m.Keys
    ensures NoParallel(Coarsen(es, a, m))
    decreases |es|
  {
    if es != [] {
      var e := es[|es| - 1];
      CoarsenNoParallel(es[..|es| - 1], a, m);
      var acc := Coarsen(es[..|es| - 1], a, m);
      if !Intra(e, a) {
        var s, t := m[a[e.u]], m[a[e.v]];
        AccumulateKeeps(acc, s, t, e.w);
        var ce := Coarsen(es, a, m);
        assert ce == Accumulate(acc, s, t, e.w);
        forall i, j | 0 <= i < j < |ce| ensures !Joins(ce[j], ce[i].u, ce[i].v) {
          assert ce[i].u == acc[i].u && ce[i].v == acc[i].v;
          if j < |acc| {
            assert ce[j].u == acc[j].u && ce[j].v == acc[j].v;
          } else {
            assert FindEdge(acc, s, t).None?;
            assert !Joins(acc[i], s, t);
          }
        }
      }
    }
  }

  /** Every edge of `es` between communities has an edge of `ce` joining the images of its
      endpoints' communities. */
  predicate Represents(es: seq<Edge>, a: Assignment, m: map<nat, nat>, ce: seq<Edge>)
    requires EdgesKnown(es, a) && a.Values <= m.Keys
  {
    forall i :: 0 <= i < |es| && !Intra(es[i], a) ==>
      exists j :: 0 <= j < |ce| && Joins(ce[j], m[a[es[i].u]], m[a[es[i].v]])
  }

  /** Every inter-community edge is represented by a coarse edge joining the images of its
      endpoints' communities. */
  lemma {:induction false} CoarsenComplete(es: seq<Edge>, a: Assignment, m: map<nat, nat>)
    requires EdgesKnown(es, a) && a.Values <= m.Keys
    ensures Represents(es, a, m, Coarsen(es, a, m))
    decreases |es|
  {
    if es != [] {
      var init := es[..|es| - 1];
      var e := es[|es| - 1];
      CoarsenComplete(init, a, m);
      var acc := Coarsen(init, a, m);
      var ce := Coarsen(es, a, m);
      if !Intra(e, a) {
        AccumulateKeeps(acc, m[a[e.u]], m[a[e.v]], e.w);
        assert ce == Accumulate(acc, m[a[e.u]], m[a[e.v]], e.w);
      } else {
        assert ce == acc;
      }
      forall i | 0 <= i < |es| && !Intra(es[i], a)
        ensures exists j :: 0 <= j < |ce| && Joins(ce[j], m[a[es[i].u]], m[a[es[i].v]])
      {
        if i < |init| {
          assert es[i] == init[i];
          var j :| 0 <= j < |acc| && Joins(acc[j], m[a[init[i].u]], m[a[init[i].v]]);
          assert Joins(ce[j], m[a[es[i].u]], m[a[es[i].v]]);
        } else {
          assert es[i] == e;
        }
      }
    }
  }

  /** Every edge of `ce` is the image of an edge of `es` between communities: it runs from the
      image of that edge's first endpoint's community to the image of its second's. */
  predicate Sourced(es: seq<Edge>, a: Assignment, m: map<nat, nat>, ce: seq<Edge>)
    requires EdgesKnown(es, a) && a.Values <= m.Keys
  {
    forall j :: 0 <= j < |ce| ==>
      exists i :: 0 <= i < |es| && !Intra(es[i], a) && ce[j].u == m[a[es[i].u]] && ce[j].v == m[a[es[i].v]]
  }

  /** Every coarse edge comes from an inter-community edge of the original graph. */
  lemma {:induction false} CoarsenSound(es: seq<Edge>, a: Assignment, m: map<nat, nat>)
    requires EdgesKnown(es, a) && a.Values <= m.Keys
    ensures Sourced(es, a, m, Coarsen(es, a, m))
    decreases |es|
  {
    if es != [] {
      var init := es[..|es| - 1];
      var e := es[|es| - 1];
      CoarsenSound(init, a, m);
      var acc := Coarsen(init, a, m);
      var ce := Coarsen(es, a, m);
      if !Intra(e, a) {
        AccumulateKeeps(acc, m[a[e.u]], m[a[e.v]], e.w);
        assert ce == Accumulate(acc, m[a[e.u]], m[a[e.v]], e.w);
      } else {
        assert ce == acc;
      }
      forall j | 0 <= j < |ce|
        ensures exists i :: 0 <= i < |es| && !Intra(es[i], a) && ce[j].u == m[a[es[i].u]] && ce[j].v == m[a[es[i].v]]
      {
        if j < |acc| {
          var i :| 0 <= i < |init| && !Intra(init[i], a) && acc[j].u == m[a[init[i].u]] && acc[j].v == m[a[init[i].v]];
          assert es[i] == init[i];
        } else {
          assert es[|es| - 1] == e;
        }
      }
    }
  }

  /** An edge list none of whose edges links `p` and `q` gives them no weight. */
  lemma {:induction false} CrossWeightZero(es: seq<Edge>, a: Assignment, m: map<nat, nat>, p: nat, q: nat)
    requires EdgesKnown(es, a) && a.Values <= m.Keys
    requires forall i :: 0 <= i < |es| ==> !Links(es[i], a, m, p, q)
    ensures CrossWeight(es, a, m, p, q) == 0.0
    decreases |es|
  {
    if es != [] {
      CrossWeightZero(es[..|es| - 1], a, m, p, q);
    }
  }

  /** Each coarse edge weighs the sum of the weights of the original edges it represents. */
  lemma {:induction false} CoarsenWeights(es: seq<Edge>, a: Assignment, m: map<nat, nat>)
    requires EdgesKnown(es, a) && a.Values <= m.Keys && Injective(m)
    ensures forall i :: 0 <= i < |Coarsen(es, a, m)| ==>
      Coarsen(es, a, m)[i].w == CrossWeight(es, a, m, Coarsen(es, a, m)[i].u, Coarsen(es, a, m)[i].v)
    decreases |es|
  {
    if es != [] {
      var init := es[..|es| - 1];
      var e := es[|es| - 1];
      CoarsenWeights(init, a, m);
      CoarsenNoParallel(init, a, m);
      CoarsenComplete(init, a, m);
      var acc := Coarsen(init, a, m);
      var ce := Coarsen(es, a, m);
      if !Intra(e, a) {
        var s, t := m[a[e.u]], m[a[e.v]];
        match FindEdge(acc, s, t)
        case Some(j) =>
          forall i | 0 <= i < |ce| ensures ce[i].w == CrossWeight(es, a, m, ce[i].u, ce[i].v) {
            if i != j {
              assert !Joins(acc[i], s, t) by {
                if i < j { assert !Joins(acc[j], acc[i].u, acc[i].v); }
                else { assert !Joins(acc[i], acc[j].u, acc[j].v); }
              }
            }
          }
        case None =>
          forall i | 0 <= i < |init| ensures !Links(init[i], a, m, s, t) {
            if !Intra(init[i], a) {
              var j :| 0 <= j < |acc| && Joins(acc[j], m[a[init[i].u]], m[a[init[i].v]]);
              assert !Joins(acc[j], s, t);
            }
          }
          CrossWeightZero(init, a, m, s, t);
      }
    }
  }

  /** Sum of a list after one weight is replaced. */
  lemma {:induction false} TotalWeightUpdate(es: seq<Edge>, j: nat, e: Edge)
    requires j < |es|
    ensures TotalWeight(es[j := e]) == TotalWeight(es) - es[j].w + e.w
    decreases |es|
  {
    if j < |es| - 1 {
      TotalWeightUpdate(es[..|es| - 1], j, e);
      assert es[j := e][..|es| - 1] == es[..|es| - 1][j := e];
    } else {
      assert es[j := e][..|es| - 1] == es[..|es| - 1];
    }
  }

  /** The coarse graph carries exactly the inter-community weight of the original. */
  lemma {:induction false} CoarsenTotal(es: seq<Edge>, a: Assignment, m: map<nat, nat>)
    requires EdgesKnown(es, a) && a.Values <= m.Keys
    ensures TotalWeight(Coarsen(es, a, m)) == InterWeight(es, a)
    decreases |es|
  {
    if es != [] {
      var init := es[..|es| - 1];
      var e := es[|es| - 1];
      CoarsenTotal(init, a, m);
      var acc := Coarsen(init, a, m);
      if !Intra(e, a) {
        var s, t := m[a[e.u]], m[a[e.v]];
        match FindEdge(acc, s, t)
        case Some(j) =>
          TotalWeightUpdate(acc, j, Edge(acc[j].u, acc[j].v, acc[j].w + e.w));
        case None =>
          assert (acc + [Edge(s, t, e.w)])[..|acc|] == acc;
      }
    }
  }

  /** Every edge is either inside a community or between two. */
  lemma {:induction false} WeightPartition(es: seq<Edge>, a: Assignment)
    requires EdgesKnown(es, a)
    ensures InterWeight(es, a) + IntraWeight(es, a) == TotalWeight(es)
    decreases |es|
  {
    if es != [] {
      WeightPartition(es[..|es| - 1], a);
    }
  }

  lemma SubsetCard(x: set<nat>, y: set<nat>)
    requires x <= y
    ensures |x| <= |y|
    decreases y
  {
    if x != {} {
      var e :| e in x;
      SubsetCard(x - {e}, y - {e});
    }
  }

  /** A map has no more distinct values than keys. */
  lemma {:induction false} ValuesCard(a: map<nat, nat>)
    ensures |a.Values| <= |a.Keys|
    decreases |a.Keys|
  {
    if a != map[] {
      var k :| k in a;
      var rest := a - {k};
      ValuesCard(rest);
      forall v | v in a.Values ensures v in rest.Values + {a[k]} {
        var x :| x in a && a[x] == v;
        if x != k {
          assert rest[x] == v;
        }
      }
      SubsetCard(a.Values, rest.Values + {a[k]});
      assert a.Keys == rest.Keys + {k};
    }
  }

  /** The coarse nodes are the communities of `a`, numbered bijectively by the mapping and
      carrying their community id; there are at most as many as there were keys. */
  lemma RefineNodes(g: Graph<Point>, a: Assignment, order: seq<nat>)
    requires Ready(g, a) && Enumerates(order, a)
    ensures Refine(g, a, order).2.Keys == a.Values
    ensures WellNumbered(Refine(g, a, order).2, Refine(g, a, order).0.nodes)
    ensures forall p :: 0 <= p < Refine(g, a, order).0.N() ==> p in Refine(g, a, order).2.Values
    ensures Refine(g, a, order).0.N() == |a.Values| <= |a.Keys|
  {
    NumberingKeys(a, order);
    NumberingInjective(a, order);
    NumberingOnto(a, order);
    ValuesCard(a);
  }

  /** The coarse edges form a simple graph over the coarse nodes, represent every edge between
      communities, each weighs the sum of the edges it represents, and together they carry
      exactly the inter-community weight. */
  lemma RefineEdges(g: Graph<Point>, a: Assignment, order: seq<nat>)
    requires Ready(g, a) && Enumerates(order, a)
    ensures Refine(g, a, order).0.Valid()
    ensures NoLoops(Refine(g, a, order).0.edges, Refine(g, a, order).2)
    ensures NoParallel(Refine(g, a, order).0.edges)
    ensures EdgesKnown(g.edges, a) && Refine(g, a, order).2.Keys == a.Values
    ensures Represents(g.edges, a, Refine(g, a, order).2, Refine(g, a, order).0.edges)
    ensures forall i :: 0 <= i < |Refine(g, a, order).0.edges| ==>
      var e := Refine(g, a, order).0.edges[i];
      e.w == CrossWeight(g.edges, a, Refine(g, a, order).2, e.u, e.v)
    ensures TotalWeight(Refine(g, a, order).0.edges) == InterWeight(g.edges, a)
  {
    var m := Refine(g, a, order).2;
    RefineNodes(g, a, order);
    assert EdgesKnown(g.edges, a);
    CoarsenNoLoops(g.edges, a, m);
    CoarsenNoParallel(g.edges, a, m);
    CoarsenComplete(g.edges, a, m);
    CoarsenWeights(g.edges, a, m);
    CoarsenTotal(g.edges, a, m);
    var g2 := Refine(g, a, order).0;
    forall i | 0 <= i < |g2.edges| ensures g2.edges[i].u < g2.N() && g2.edges[i].v < g2.N() {
      var cu :| cu in m && m[cu] == g2.edges[i].u;
      var cv :| cv in m && m[cv] == g2.edges[i].v;
    }
  }

  /** The new map keeps the keys, sends every node to the coarse node of its community, and
      groups nodes exactly as before. */
  lemma RefineAssignment(g: Graph<Point>, a: Assignment, order: seq<nat>)
    requires Ready(g, a) && Enumerates(order, a)
    ensures Refine(g, a, order).1.Keys == a.Keys && Refine(g, a, order).2.Keys == a.Values
    ensures forall x :: x in a ==> Refine(g, a, order).1[x] == Refine(g, a, order).2[a[x]] < Refine(g, a, order).0.N()
    ensures forall x, y :: x in a && y in a ==>
      (Refine(g, a, order).1[x] == Refine(g, a, order).1[y] <==> a[x] == a[y])
  {
    RefineNodes(g, a, order);
  }

  /** Removing edges inside communities loses exactly the intra-community weight, so with
      non-negative weights coarsening never increases the total weight. */
  lemma RefineWeightDrops(g: Graph<Point>, a: Assignment, order: seq<nat>)
    requires Ready(g, a) && Enumerates(order, a) && NonNegativeWeights(g)
    ensures TotalWeight(Refine(g, a, order).0.edges) + IntraWeight(g.edges, a) == TotalWeight(g.edges)
    ensures TotalWeight(Refine(g, a, order).0.edges) <= TotalWeight(g.edges)
  {
    RefineEdges(g, a, order);
    WeightPartition(g.edges, a);
    IntraNonNegative(g.edges, a);
  }

  lemma {:induction false} IntraNonNegative(es: seq<Edge>, a: Assignment)
    requires EdgesKnown(es, a) && forall i :: 0 <= i < |es| ==> es[i].w >= 0.0
    ensures IntraWeight(es, a) >= 0.0
    decreases |es|
  {
    if es != [] {
      IntraNonNegative(es[..|es| - 1], a);
    }
  }

  /** The first loop of refinement: number the communities in iteration order. */
  method NumberCommunities(a: Assignment, order: seq<nat>) returns (mapping: map<nat, nat>, nodes: seq<Point>)
    requires Enumerates(order, a)
    ensures (mapping, nodes) == Numbering(a, order)
  {
    nodes := [];
    mapping := map[];
    for i := 0 to |order|
      invariant (mapping, nodes) == Numbering(a, order[..i])
    {
      assert order[..i + 1][..i] == order[..i];
      var community := a[order[i]];
      if community !in mapping {
        mapping := mapping[community := |nodes|];
        nodes := nodes + [(community as real, 0.0)];
      }
    }
    assert order[..|order|] == order;
  }

  /** The second loop of refinement: fold the edges between communities into coarse edges. */
  method CoarseEdges(es: seq<Edge>, a: Assignment, mapping: map<nat, nat>) returns (edges: seq<Edge>)
    requires EdgesKnown(es, a) && a.Values <= mapping.Keys
    ensures edges == Coarsen(es, a, mapping)
  {
    edges := [];
    for i := 0 to |es|
      invariant edges == Coarsen(es[..i], a, mapping)
    {
      assert es[..i + 1][..i] == es[..i];
      var e := es[i];
      var sourceCommunity, targetCommunity := a[e.u], a[e.v];
      if sourceCommunity != targetCommunity {
        var s, t := mapping[sourceCommunity], mapping[targetCommunity];
        var newWeight := match FindEdge(edges, s, t) case Some(j) => edges[j].w + e.w case None => e.w;
        edges := UpdateEdge(edges, s, t, newWeight);
      }
    }
    assert es[..|es|] == es;
  }

  /** The third loop of refinement: every key now maps to its community's coarse node. */
  method Reassign(a: Assignment, order: seq<nat>, mapping: map<nat, nat>) returns (assignment: Assignment)
    requires Enumerates(order, a) && a.Values <= mapping.Keys
    ensures assignment == map x | x in a :: mapping[a[x]]
  {
    assignment := map[];
    for i := 0 to |order|
      invariant forall x :: x in assignment <==> x in order[..i]
      invariant forall x :: x in assignment ==> assignment[x] == mapping[a[x]]
    {
      assignment := assignment[order[i] := mapping[a[order[i]]]];
    }
  }

  /** refinement (src/leiden.rs:157-206): number the communities in iteration order `order`,
      fold the edges between communities into the coarse graph, and re-key the map. */
  method Refinement(g: Graph<Point>, a: Assignment, order: seq<nat>)
    returns (coarse: Graph<Point>, assignment: Assignment, mapping: map<nat, nat>)
    requires Ready(g, a) && Enumerates(order, a)
    ensures (coarse, assignment, mapping) == Refine(g, a, order)
  {
    var nodes;
    mapping, nodes := NumberCommunities(a, order);
    NumberingKeys(a, order);
    assert EdgesKnown(g.edges, a);
    var edges := CoarseEdges(g.edges, a, mapping);
    coarse := Graph(nodes, edges);
    assignment := Reassign(a, order, mapping);
    assert mapping == Refine(g, a, order).2;
    assert coarse == Refine(g, a, order).0;
    assert assignment == Refine(g, a, order).1;
  }

  // ---------------------------------------------------------------------------
  // driver
  // ---------------------------------------------------------------------------

  /** `order` lists node indices below `n`, and every one of them. */
  predicate Lists(order: seq<nat>, n: nat) {
    (forall i :: 0 <= i < |order| ==> order[i] < n) && (forall x: nat :: x < n ==> x in order)
  }

  /** Every node in its own community. */
  function Singletons(n: nat): Assignment {
    map x | x in Range(n) :: x
  }

  /** initial_community_assignments (src/leiden.rs:42-58). */
  method InitialCommunityAssignments(g: Graph<Point>) returns (a: Assignment)
    ensures a.Keys == Range(g.N())
    ensures forall x :: x in a ==> a[x] == x
  {
    a := map[];
    for node := 0 to g.N()
      invariant forall x: nat :: x in a <==> x < node
      invariant forall x :: x in a ==> a[x] == x
    {
      a := a[node := node];
    }
    assert a.Keys == Range(g.N());
  }

  /** One round of the driver: local moving, then refinement. The new map still has a key for
      every original node, and every node of the coarse graph has an entry in it, so the next
      round's lookups succeed. */
  function Round(g: Graph<Point>, a: Assignment, n: nat, order: seq<nat>, fuel: nat): (r: (Graph<Point>, Assignment))
    requires Ready(g, a) && a.Keys == Range(n) && Lists(order, n)
    ensures Ready(r.0, r.1) && r.1.Keys == Range(n)
  {
    var moved := LocalMove(g, a, fuel).0;
    RefineNodes(g, moved, order);
    RefineEdges(g, moved, order);
    RefineAssignment(g, moved, order);
    (Refine(g, moved, order).0, Refine(g, moved, order).1)
  }

  /** The driver's result after one round per element of `orders`. */
  function Leiden(g: Graph<Point>, a: Assignment, n: nat, orders: seq<seq<nat>>, fuel: nat): (r: Assignment)
    requires Ready(g, a) && a.Keys == Range(n)
    requires forall i :: 0 <= i < |orders| ==> Lists(orders[i], n)
    ensures r.Keys == Range(n)
    decreases |orders|
  {
    if orders == [] then a
    else
      var next := Round(g, a, n, orders[0], fuel);
      Leiden(next.0, next.1, n, orders[1..], fuel)
  }

  /** The driver's loop body (src/leiden.rs:23-30): local moving, then refinement. */
  method LeidenRound(g: Graph<Point>, a: Assignment, n: nat, order: seq<nat>, fuel: nat)
    returns (coarse: Graph<Point>, assignment: Assignment)
    requires Ready(g, a) && a.Keys == Range(n) && Lists(order, n)
    ensures (coarse, assignment) == Round(g, a, n, order, fuel)
  {
    var moved, converged := LocalMoving(g, a, fuel);
    var mapping;
    coarse, assignment, mapping := Refinement(g, moved, order);
  }

  /** leiden_communities (src/leiden.rs:10-38): `Rounds` rounds from the singleton partition,
      round `i` numbering coarse nodes in order `orders[i]`. */
  method LeidenCommunities(g0: Graph<Point>, orders: seq<seq<nat>>, fuel: nat) returns (a: Assignment)
    requires g0.Valid() && |orders| == Rounds
    requires forall i :: 0 <= i < |orders| ==> Lists(orders[i], g0.N())
    ensures a == Leiden(g0, Singletons(g0.N()), g0.N(), orders, fuel)
    ensures a.Keys == Range(g0.N())
  {
    var n := g0.N();
    var g := g0;
    a := InitialCommunityAssignments(g);
    assert a == Singletons(n);
    var iterations := 0;
    while iterations < 10
      invariant iterations <= Rounds
      invariant Ready(g, a) && a.Keys == Range(n)
      invariant Leiden(g0, Singletons(n), n, orders, fuel) == Leiden(g, a, n, orders[iterations..], fuel)
    {
      var coarse, assignment := LeidenRound(g, a, n, orders[iterations], fuel);
      assert orders[iterations..][1..] == orders[iterations + 1..];
      g, a := coarse, assignment;
      iterations := iterations + 1;
    }
  }

  // ---------------------------------------------------------------------------
  // scenarios
  // ---------------------------------------------------------------------------

  /** Every node below `n` in community `c`. */
  function Uniform(n: nat, c: nat): Assignment {
    map x | x in Range(n) :: c
  }

  /** When every node shares one community, no neighbour offers a different one. */
  lemma UniformOptimal(g: Graph<Point>, a: Assignment, c: nat)
    requires Ready(g, a) && forall x :: x in a ==> a[x] == c
    ensures LocallyOptimal(g, a)
  {
    forall x: nat, k: nat | x < g.N() && k < |Incident(g, x)| ensures !Beats(g, a, x, k, 0.0) {
      IncidentKnown(g, a, x);
      assert NeighbourCommunity(g, a, x, k) == c;
    }
  }

  /** Edges that all lie inside communities leave no coarse edge. */
  lemma {:induction false} CoarsenIntra(es: seq<Edge>, a: Assignment, m: map<nat, nat>)
    requires EdgesKnown(es, a) && a.Values <= m.Keys
    requires forall i :: 0 <= i < |es| ==> Intra(es[i], a)
    ensures Coarsen(es, a, m) == []
    decreases |es|
  {
    if es != [] {
      CoarsenIntra(es[..|es| - 1], a, m);
    }
  }

  /** Refining a partition with a single community collapses the graph to one isolated node
      carrying that community, and puts every node in community 0. */
  lemma UniformRefine(g: Graph<Point>, a: Assignment, n: nat, order: seq<nat>, c: nat)
    requires Ready(g, a) && a.Keys == Range(n) && Lists(order, n) && n > 0
    requires forall x :: x in a ==> a[x] == c
    ensures Refine(g, a, order).0 == Graph([(c as real, 0.0)], [])
    ensures Refine(g, a, order).1 == Uniform(n, 0)
  {
    RefineNodes(g, a, order);
    RefineAssignment(g, a, order);
    assert 0 in a;
    assert a.Values == {c};
    var r := Refine(g, a, order);
    assert r.2[c] == 0;
    assert r.0.nodes == [(c as real, 0.0)];
    assert EdgesKnown(g.edges, a);
    CoarsenIntra(g.edges, a, r.2);
    assert r.1 == Uniform(n, 0);
  }

  /** A round on a partition with a single community moves nobody, then collapses the graph
      as `UniformRefine` says. */
  lemma UniformRound(g: Graph<Point>, a: Assignment, n: nat, order: seq<nat>, fuel: nat, c: nat)
    requires Ready(g, a) && a.Keys == Range(n) && Lists(order, n) && n > 0
    requires forall x :: x in a ==> a[x] == c
    ensures Round(g, a, n, order, fuel) == (Graph([(c as real, 0.0)], []), Uniform(n, 0))
  {
    UniformOptimal(g, a, c);
    LocalMoveStable(g, a, fuel);
    assert LocalMove(g, a, fuel).0 == a;
    UniformRefine(g, a, n, order, c);
  }

  /** Once every node shares one community, every further round keeps them together, so the
      driver ends with every node in community 0. */
  lemma {:induction false} LeidenUniform(g: Graph<Point>, a: Assignment, n: nat, orders: seq<seq<nat>>, fuel: nat, c: nat)
    requires Ready(g, a) && a.Keys == Range(n) && n > 0 && orders != []
    requires forall i :: 0 <= i < |orders| ==> Lists(orders[i], n)
    requires forall x :: x in a ==> a[x] == c
    ensures Leiden(g, a, n, orders, fuel) == Uniform(n, 0)
    decreases |orders|
  {
    UniformRound(g, a, n, orders[0], fuel, c);
    var next := Round(g, a, n, orders[0], fuel);
    if |orders| > 1 {
      LeidenUniform(next.0, next.1, n, orders[1..], fuel, 0);
    }
  }

  /** The square with one diagonal used by the source's tests (src/leiden.rs:215-229). */
  function TestGraph(): Graph<Point> {
    Graph([(0.0, 0.0), (1.0, 0.0), (1.0, 1.0), (0.0, 1.0)],
          [Edge(0, 1, 1.0), Edge(1, 2, 1.0), Edge(2, 3, 1.0), Edge(3, 0, 1.0), Edge(0, 2, 1.0)])
  }

  lemma TestIncident()
    ensures Incident(TestGraph(), 0) == [Adj(2, 1.0), Adj(1, 1.0), Adj(3, 1.0)]
    ensures Incident(TestGraph(), 1) == [Adj(2, 1.0), Adj(0, 1.0)]
    ensures Incident(TestGraph(), 2) == [Adj(3, 1.0), Adj(0, 1.0), Adj(1, 1.0)]
    ensures Incident(TestGraph(), 3) == [Adj(0, 1.0), Adj(2, 1.0)]
  {
    var e0, e1, e2, e3, e4 := Edge(0, 1, 1.0), Edge(1, 2, 1.0), Edge(2, 3, 1.0), Edge(3, 0, 1.0), Edge(0, 2, 1.0);
    AdjSnoc([], e0);
    assert [] + [e0] == [e0];
    AdjSnoc([e0], e1);
    assert [e0] + [e1] == [e0, e1];
    AdjSnoc([e0, e1], e2);
    assert [e0, e1] + [e2] == [e0, e1, e2];
    AdjSnoc([e0, e1, e2], e3);
    assert [e0, e1, e2] + [e3] == [e0, e1, e2, e3];
    AdjSnoc([e0, e1, e2, e3], e4);
    assert [e0, e1, e2, e3] + [e4] == TestGraph().edges;
  }

  /** The singleton partition of the test graph's four nodes. */
  function Start(): Assignment {
    map[0 := 0, 1 := 1, 2 := 2, 3 := 3]
  }

  lemma StartIsSingletons()
    ensures Start() == Singletons(4)
  {
    assert Singletons(4).Keys == Start().Keys;
  }

  /** The three weights of a walk grow by its last step. */
  lemma WeightsSnoc(adj: seq<Adj>, e: Adj, a: Assignment)
    requires Known(adj + [e], a)
    ensures Known(adj, a)
    ensures WTotal(adj + [e]) == WTotal(adj) + e.w
    ensures forall from :: WFrom(adj + [e], a, from) == WFrom(adj, a, from) + (if a[e.node] == from then e.w else 0.0)
    ensures forall from, to ::
      WTo(adj + [e], a, from, to) == WTo(adj, a, from, to) + (if a[e.node] != from && a[e.node] == to then e.w else 0.0)
  {
    assert (adj + [e])[..|adj|] == adj;
    assert forall k :: 0 <= k < |adj| ==> adj[k] == (adj + [e])[k];
  }

  /** The weights node 0 of the test graph sees from the singleton partition. */
  lemma TestWeights0()
    ensures Known(Incident(TestGraph(), 0), Start())
    ensures WTotal(Incident(TestGraph(), 0)) == 3.0
    ensures WFrom(Incident(TestGraph(), 0), Start(), 0) == 0.0
    ensures forall c :: 1 <= c <= 3 ==> WTo(Incident(TestGraph(), 0), Start(), 0, c) == 1.0
  {
    var a := Start();
    TestIncident();
    var p1 := [Adj(2, 1.0)];
    var p2 := p1 + [Adj(1, 1.0)];
    var p3 := p2 + [Adj(3, 1.0)];
    assert p3 == Incident(TestGraph(), 0);
    WeightsSnoc(p2, Adj(3, 1.0), a);
    WeightsSnoc(p1, Adj(1, 1.0), a);
    assert [] + [Adj(2, 1.0)] == p1;
    WeightsSnoc([], Adj(2, 1.0), a);
  }

  /** Every neighbour of node 0 offers gain 1/3 from the singleton partition. */
  lemma TestCandidates0()
    ensures Ready(TestGraph(), Start()) && |Incident(TestGraph(), 0)| == 3
    ensures forall k :: 0 <= k < 3 ==> Candidate(TestGraph(), Start(), 0, k) == Some(1.0 / 3.0)
  {
    var g, a := TestGraph(), Start();
    TestWeights0();
    TestIncident();
    forall k | 0 <= k < 3 ensures Candidate(g, a, 0, k) == Some(1.0 / 3.0) {
      assert 1 <= NeighbourCommunity(g, a, 0, k) <= 3;
    }
  }

  /** Node 0 of the test graph, alone in its community, joins node 2's community: all three
      neighbours offer the same gain and the first one seen wins. */
  lemma TestBest0()
    ensures Ready(TestGraph(), Start())
    ensures Best(TestGraph(), Start(), 0) == 2
  {
    var g, a := TestGraph(), Start();
    TestCandidates0();
    TestIncident();
    assert Scan(g, a, 0, 1) == (2, 1.0 / 3.0);
    assert Scan(g, a, 0, 2) == (2, 1.0 / 3.0);
    assert Scan(g, a, 0, 3) == (2, 1.0 / 3.0);
  }

  /** Node 1 of the test graph, once node 0 has joined community 2, follows it: both its
      neighbours are in community 2. */
  lemma TestBest1()
    ensures Ready(TestGraph(), map[0 := 2, 1 := 1, 2 := 2, 3 := 3])
    ensures Best(TestGraph(), map[0 := 2, 1 := 1, 2 := 2, 3 := 3], 1) == 2
  {
    var g, a := TestGraph(), map[0 := 2, 1 := 1, 2 := 2, 3 := 3];
    TestIncident();
    var p1 := [Adj(2, 1.0)];
    assert [] + [Adj(2, 1.0)] == p1;
    WeightsSnoc([], Adj(2, 1.0), a);
    WeightsSnoc(p1, Adj(0, 1.0), a);
    assert p1 + [Adj(0, 1.0)] == Incident(g, 1);
    assert Candidate(g, a, 1, 0) == Some(1.0);
    assert Candidate(g, a, 1, 1) == Some(1.0);
    assert Scan(g, a, 1, 1) == (2, 1.0);
    assert Scan(g, a, 1, 2) == (2, 1.0);
  }

  /** Node 2 stays: its only other neighbour community, 3, has a negative gain. */
  lemma TestBest2()
    ensures Ready(TestGraph(), map[0 := 2, 1 := 2, 2 := 2, 3 := 3])
    ensures Best(TestGraph(), map[0 := 2, 1 := 2, 2 := 2, 3 := 3], 2) == 2
  {
    var g, a := TestGraph(), map[0 := 2, 1 := 2, 2 := 2, 3 := 3];
    TestIncident();
    var p1 := [Adj(3, 1.0)];
    var p2 := p1 + [Adj(0, 1.0)];
    assert [] + [Adj(3, 1.0)] == p1;
    WeightsSnoc([], Adj(3, 1.0), a);
    WeightsSnoc(p1, Adj(0, 1.0), a);
    WeightsSnoc(p2, Adj(1, 1.0), a);
    assert p2 + [Adj(1, 1.0)] == Incident(g, 2);
    assert Candidate(g, a, 2, 0) == Some(1.0 / 3.0 - 2.0 / 3.0);
    assert Candidate(g, a, 2, 1) == None;
    assert Candidate(g, a, 2, 2) == None;
    assert Scan(g, a, 2, 1) == (2, 0.0);
    assert Scan(g, a, 2, 2) == (2, 0.0);
    assert Scan(g, a, 2, 3) == (2, 0.0);
  }

  /** Node 3 follows its two neighbours into community 2. */
  lemma TestBest3()
    ensures Ready(TestGraph(), map[0 := 2, 1 := 2, 2 := 2, 3 := 3])
    ensures Best(TestGraph(), map[0 := 2, 1 := 2, 2 := 2, 3 := 3], 3) == 2
  {
    var g, a := TestGraph(), map[0 := 2, 1 := 2, 2 := 2, 3 := 3];
    TestIncident();
    var p1 := [Adj(0, 1.0)];
    assert [] + [Adj(0, 1.0)] == p1;
    WeightsSnoc([], Adj(0, 1.0), a);
    WeightsSnoc(p1, Adj(2, 1.0), a);
    assert p1 + [Adj(2, 1.0)] == Incident(g, 3);
    assert Candidate(g, a, 3, 0) == Some(1.0);
    assert Candidate(g, a, 3, 1) == Some(1.0);
    assert Scan(g, a, 3, 1) == (2, 1.0);
    assert Scan(g, a, 3, 2) == (2, 1.0);
  }

  /** Nodes 0 and 1 of the test graph move to community 2. */
  lemma TestHalfPass()
    ensures Ready(TestGraph(), Start())
    ensures PassPrefix(TestGraph(), Start(), 2) == map[0 := 2, 1 := 2, 2 := 2, 3 := 3]
  {
    var g := TestGraph();
    var a1 := map[0 := 2, 1 := 1, 2 := 2, 3 := 3];
    TestBest0();
    PassPrefixNext(g, Start(), 0, Start(), 2);
    assert Start()[0 := 2] == a1;
    TestBest1();
    PassPrefixNext(g, Start(), 1, a1, 2);
  }

  /** Node 2 stays and node 3 moves to community 2. */
  lemma TestFullPass()
    ensures Ready(TestGraph(), Start())
    ensures PassPrefix(TestGraph(), Start(), 4) == map[0 := 2, 1 := 2, 2 := 2, 3 := 2]
  {
    var g := TestGraph();
    var a2 := map[0 := 2, 1 := 2, 2 := 2, 3 := 3];
    TestHalfPass();
    TestBest2();
    PassPrefixNext(g, Start(), 2, a2, 2);
    assert a2[2 := 2] == a2;
    TestBest3();
    PassPrefixNext(g, Start(), 3, a2, 2);
  }

  /** The first pass over the test graph puts all four nodes in community 2. */
  lemma TestPass()
    ensures Ready(TestGraph(), Start())
    ensures Pass(TestGraph(), Start()) == Uniform(4, 2)
  {
    TestFullPass();
    UniformFour(2);
  }

  lemma UniformFour(c: nat)
    ensures Uniform(4, c) == map[0 := c, 1 := c, 2 := c, 3 := c]
  {
    assert Uniform(4, c).Keys == {0, 1, 2, 3};
  }

  /** When one pass gathers every node into community `c`, local moving continues from there. */
  lemma GatheredMove(g: Graph<Point>, a: Assignment, n: nat, fuel: nat, c: nat)
    requires Ready(g, a) && fuel >= 1
    requires Pass(g, a) == Uniform(n, c) != a
    ensures Ready(g, Uniform(n, c))
    ensures LocalMove(g, a, fuel) == LocalMove(g, Uniform(n, c), fuel - 1)
  {
    LocalMoveAdvance(g, a, fuel, Uniform(n, c), true);
  }

  /** Local moving leaves a single community as it is. */
  lemma UniformStays(g: Graph<Point>, n: nat, fuel: nat, c: nat)
    requires Ready(g, Uniform(n, c))
    ensures LocalMove(g, Uniform(n, c), fuel).0 == Uniform(n, c)
  {
    UniformOptimal(g, Uniform(n, c), c);
    LocalMoveStable(g, Uniform(n, c), fuel);
  }

  /** When local moving gathers every node of a non-empty graph into community `c`, the
      driver ends with every node in community 0. */
  lemma LeidenGathered(g: Graph<Point>, a: Assignment, n: nat, orders: seq<seq<nat>>, fuel: nat, c: nat)
    requires Ready(g, a) && a.Keys == Range(n) && n > 0 && orders != []
    requires forall i :: 0 <= i < |orders| ==> Lists(orders[i], n)
    requires LocalMove(g, a, fuel).0 == Uniform(n, c)
    ensures Leiden(g, a, n, orders, fuel) == Uniform(n, 0)
  {
    var u := Uniform(n, c);
    assert Ready(g, u);
    UniformRefine(g, u, n, orders[0], c);
    var next := Round(g, a, n, orders[0], fuel);
    assert next == (Graph([(c as real, 0.0)], []), Uniform(n, 0));
    if |orders| > 1 {
      LeidenUniform(next.0, next.1, n, orders[1..], fuel, 0);
    }
  }

  /** When the first pass gathers every node into community `c`, so does local moving. */
  lemma PassGathers(g: Graph<Point>, a: Assignment, n: nat, fuel: nat, c: nat)
    requires Ready(g, a) && fuel >= 1
    requires Pass(g, a) == Uniform(n, c) != a
    ensures LocalMove(g, a, fuel).0 == Uniform(n, c)
  {
    GatheredMove(g, a, n, fuel, c);
    UniformStays(g, n, fuel - 1, c);
  }

  /** When the first pass gathers every node of a non-empty graph into community `c`, the
      driver ends with every node in community 0. */
  lemma LeidenOnePass(g: Graph<Point>, a: Assignment, n: nat, orders: seq<seq<nat>>, fuel: nat, c: nat)
    requires Ready(g, a) && a.Keys == Range(n) && n > 0 && orders != [] && fuel >= 1
    requires forall i :: 0 <= i < |orders| ==> Lists(orders[i], n)
    requires Pass(g, a) == Uniform(n, c) != a
    ensures Leiden(g, a, n, orders, fuel) == Uniform(n, 0)
  {
    PassGathers(g, a, n, fuel, c);
    LeidenGathered(g, a, n, orders, fuel, c);
  }

  /** The source's test of the driver (src/leiden.rs:242-257): on the square with a diagonal,
      whatever the HashMap orders and given at least one local-moving pass, all four nodes end
      in one community. */
  lemma TestLeiden(orders: seq<seq<nat>>, fuel: nat)
    requires |orders| == Rounds && fuel >= 1
    requires forall i :: 0 <= i < |orders| ==> Lists(orders[i], 4)
    ensures TestGraph().Valid()
    ensures Leiden(TestGraph(), Singletons(4), 4, orders, fuel) == Uniform(4, 0)
  {
    StartIsSingletons();
    TestPass();
    UniformFour(2);
    LeidenOnePass(TestGraph(), Start(), 4, orders, fuel, 2);
  }

  /** In a graph without edges nobody can move. */
  lemma EdgelessOptimal(g: Graph<Point>, a: Assignment)
    requires Ready(g, a) && g.edges == []
    ensures LocallyOptimal(g, a)
  {
    forall x: nat | x < g.N() ensures |Incident(g, x)| == 0 {
    }
  }

  /** A round on a graph without edges keeps it edgeless and keeps distinct nodes in distinct
      communities. */
  lemma EdgelessRound(g: Graph<Point>, a: Assignment, n: nat, order: seq<nat>, fuel: nat)
    requires Ready(g, a) && a.Keys == Range(n) && Lists(order, n) && g.edges == [] && Injective(a)
    ensures Round(g, a, n, order, fuel).0.edges == []
    ensures Injective(Round(g, a, n, order, fuel).1)
  {
    EdgelessOptimal(g, a);
    LocalMoveStable(g, a, fuel);
    RefineAssignment(g, a, order);
  }

  /** On a graph without edges the driver leaves every node in a community of its own. */
  lemma {:induction false} LeidenEdgeless(g: Graph<Point>, a: Assignment, n: nat, orders: seq<seq<nat>>, fuel: nat)
    requires Ready(g, a) && a.Keys == Range(n) && g.edges == [] && Injective(a)
    requires forall i :: 0 <= i < |orders| ==> Lists(orders[i], n)
    ensures Injective(Leiden(g, a, n, orders, fuel))
    decreases |orders|
  {
    if orders != [] {
      EdgelessRound(g, a, n, orders[0], fuel);
      var next := Round(g, a, n, orders[0], fuel);
      LeidenEdgeless(next.0, next.1, n, orders[1..], fuel);
    }
  }
}
