/**
  Core-periphery split of src/cpa.rs: a node whose neighbour count reaches the threshold is
  core, every other node is periphery. The neighbour count is the length of petgraph's
  undirected walk, so a parallel edge counts twice and a self-loop once.
*/
module CorePeriphery {
  import opened Graphs

  /** The nodes whose neighbour count is at least `threshold`. */
  function Core<P>(g: Graph<P>, threshold: nat): (r: set<nat>)
    ensures forall v: nat :: v in r <==> v < g.N() && Degree(g, v) >= threshold
  {
    set v | v in Range(g.N()) && Degree(g, v) >= threshold
  }

  /** The nodes whose neighbour count is below `threshold`. */
  function Periphery<P>(g: Graph<P>, threshold: nat): (r: set<nat>)
    ensures forall v: nat :: v in r <==> v < g.N() && Degree(g, v) < threshold
  {
    set v | v in Range(g.N()) && Degree(g, v) < threshold
  }

  /** core_periphery_analysis (src/cpa.rs:8-29): one pass over the nodes, inserting each into
      the core set or the periphery set. */
  method CorePeripheryAnalysis<P>(g: Graph<P>, threshold: nat) returns (core: set<nat>, periphery: set<nat>)
    ensures core == Core(g, threshold) && periphery == Periphery(g, threshold)
  {
    core, periphery := {}, {};
    for node := 0 to g.N()
      invariant forall v: nat :: v in core <==> v < node && Degree(g, v) >= threshold
      invariant forall v: nat :: v in periphery <==> v < node && Degree(g, v) < threshold
    {
      var degree := |Neighbors(g, node)|;
      if degree >= threshold {
        core := core + {node};
      } else {
        periphery := periphery + {node};
      }
    }
  }

  /** The two sets partition the nodes: disjoint, and together every node. */
  lemma Partition<P>(g: Graph<P>, threshold: nat)
    ensures Core(g, threshold) * Periphery(g, threshold) == {}
    ensures Core(g, threshold) + Periphery(g, threshold) == Range(g.N())
    ensures |Core(g, threshold)| + |Periphery(g, threshold)| == g.N()
  {
    var c, p := Core(g, threshold), Periphery(g, threshold);
    assert c * p == {} by {
      forall v | v in c * p
        ensures false
      {
      }
    }
    assert c + p == Range(g.N());
  }

  /** With threshold 0 every node is core. */
  lemma ThresholdZero<P>(g: Graph<P>)
    ensures Core(g, 0) == Range(g.N()) && Periphery(g, 0) == {}
  {
    assert forall v :: v !in Periphery(g, 0);
  }

  /** Raising the threshold moves nodes from the core to the periphery and never back. */
  lemma Monotone<P>(g: Graph<P>, t1: nat, t2: nat)
    requires t1 <= t2
    ensures Core(g, t2) <= Core(g, t1) && Periphery(g, t1) <= Periphery(g, t2)
  {
  }

  /** The source's test graph: the path a-b-c-d-e. */
  function Path5(): Graph<(real, real)> {
    Graph([(0.0, 0.0), (1.0, 1.0), (2.0, 2.0), (3.0, 3.0), (4.0, 4.0)],
          [Edge(0, 1, 1.0), Edge(1, 2, 1.0), Edge(2, 3, 1.0), Edge(3, 4, 1.0)])
  }

  /** The ends of the path have one neighbour, the inner nodes two. */
  lemma Path5Degrees()
    ensures forall v :: 0 <= v < 5 ==> Degree(Path5(), v) == if v == 0 || v == 4 then 1 else 2
  {
    var es := Path5().edges;
    AdjSnoc([], es[0]);
    AdjSnoc(es[..1], es[1]);
    AdjSnoc(es[..2], es[2]);
    AdjSnoc(es[..3], es[3]);
    assert [] + [es[0]] == es[..1] && es[..1] + [es[1]] == es[..2];
    assert es[..2] + [es[2]] == es[..3] && es[..3] + [es[3]] == es;
  }

  /** With threshold 2 the inner nodes b, c, d are core and the ends a, e periphery. */
  lemma Path5Split()
    ensures Core(Path5(), 2) == {1, 2, 3} && Periphery(Path5(), 2) == {0, 4}
  {
    Path5Degrees();
  }
}
