/**
  Label propagation of algo_repo/LPA.rs.

  Every node starts with its own index as label. A pass visits the nodes in index order and
  gives each one a most frequent label among its neighbours, reading the labels as they stand
  at that moment, so a node sees the moves made earlier in the same pass. Passes repeat until
  one changes nothing; the nodes are then grouped by label.

  Two HashMap iteration orders decide details the source leaves to chance. Which of several
  equally frequent labels wins is an arbitrary choice here (`:|`), and so is the order in which
  the groups come out. The order in which the nodes are walked while grouping, which fixes
  the order of the nodes inside a group, is the parameter `order`. The number of passes is
  bounded by `fuel`, which the source does not have.
*/
module Lpa {
  import opened Graphs
  import opened Grouping

  /** Node index to label. */
  type Labels = Keying

  /** Every node of `g`, and nothing else, has a label. */
  ghost predicate Labelled<P>(g: Graph<P>, labels: Labels) {
    forall v: nat :: v in labels <==> v < g.N()
  }

  /** Every label is the index of a node of `g`. */
  predicate LabelsBelow<P>(g: Graph<P>, labels: Labels) {
    forall v :: v in labels ==> labels[v] < g.N()
  }

  /** The starting map: node `i` has label `i`. */
  function Initial<P>(g: Graph<P>): (r: Labels)
    ensures Labelled(g, r) && LabelsBelow(g, r)
    ensures forall v :: v in r ==> r[v] == v
  {
    map v | v in Range(g.N()) :: v
  }

  /** The labels met along `x`'s walk, one per step, so a label counts once per edge. */
  function NeighbourLabels<P>(g: Graph<P>, labels: Labels, x: nat): (r: seq<nat>)
    requires g.Valid() && Labelled(g, labels)
    ensures |r| == |Neighbors(g, x)|
  {
    IncidentBelow(g, x);
    var nbrs := Neighbors(g, x);
    seq(|nbrs|, k requires 0 <= k < |nbrs| => labels[nbrs[k]])
  }

  /** `l` occurs in `ls` and no label occurs more often. */
  predicate IsMode(ls: seq<nat>, l: nat) {
    l in ls && forall l' :: l' in ls ==> multiset(ls)[l'] <= multiset(ls)[l]
  }

  /** The labels a node may take: its own when it has no neighbours, otherwise a most
      frequent label among them. */
  predicate Choice(ls: seq<nat>, own: nat, l: nat) {
    if ls == [] then l == own else IsMode(ls, l)
  }

  /** Node `x` would keep its label in a pass that reached it with these labels. */
  predicate Settled<P>(g: Graph<P>, labels: Labels, x: nat)
    requires g.Valid() && Labelled(g, labels) && x < g.N()
  {
    Choice(NeighbourLabels(g, labels, x), labels[x], labels[x])
  }

  /** The map a pass leaves after nodes `0..|picks|-1` have taken the labels `picks`, in
      index order. */
  function Sweep<P>(g: Graph<P>, labels: Labels, picks: seq<nat>): (r: Labels)
    requires Labelled(g, labels) && |picks| <= g.N()
    ensures Labelled(g, r)
    decreases |picks|
  {
    if picks == [] then labels
    else Sweep(g, labels, picks[..|picks| - 1])[|picks| - 1 := picks[|picks| - 1]]
  }

  /** Each node of the pass took a label `Choice` allows against the map as the nodes before
      it had left it: later nodes see earlier moves. */
  ghost predicate Admissible<P>(g: Graph<P>, labels: Labels, picks: seq<nat>)
    requires g.Valid() && Labelled(g, labels) && |picks| <= g.N()
    decreases |picks|
  {
    picks == [] ||
      var init := picks[..|picks| - 1];
      && Admissible(g, labels, init)
      && Choice(NeighbourLabels(g, Sweep(g, labels, init), |init|), Sweep(g, labels, init)[|init|], picks[|picks| - 1])
  }

  /** The map after the passes of `trace`, each listing the label every node took. */
  function Passes<P>(g: Graph<P>, start: Labels, trace: seq<seq<nat>>): (r: Labels)
    requires Labelled(g, start) && forall k :: 0 <= k < |trace| ==> |trace[k]| == g.N()
    ensures Labelled(g, r)
    decreases |trace|
  {
    if trace == [] then start
    else Sweep(g, Passes(g, start, trace[..|trace| - 1]), trace[|trace| - 1])
  }

  /** Every pass of `trace` is admissible against the map the passes before it left. */
  ghost predicate Chained<P>(g: Graph<P>, start: Labels, trace: seq<seq<nat>>)
    requires g.Valid() && Labelled(g, start) && forall k :: 0 <= k < |trace| ==> |trace[k]| == g.N()
    decreases |trace|
  {
    trace == [] ||
      var init := trace[..|trace| - 1];
      Chained(g, start, init) && Admissible(g, Passes(g, start, init), trace[|trace| - 1])
  }

  /** After a sweep, every visited node holds the label it took (no later node writes it),
      and every node not yet visited holds its old label. */
  lemma {:induction false} SweepHolds<P>(g: Graph<P>, labels: Labels, picks: seq<nat>)
    requires Labelled(g, labels) && |picks| <= g.N()
    ensures forall i :: 0 <= i < |picks| ==> Sweep(g, labels, picks)[i] == picks[i]
    ensures forall v :: |picks| <= v < g.N() ==> Sweep(g, labels, picks)[v] == labels[v]
    decreases |picks|
  {
    if picks != [] {
      var init := picks[..|picks| - 1];
      SweepHolds(g, labels, init);
      forall i | 0 <= i < |init|
        ensures init[i] == picks[i]
      {
      }
    }
  }

  /** One more node: the sweep extended by its pick writes that pick into its entry. */
  lemma SweepSnoc<P>(g: Graph<P>, labels: Labels, picks: seq<nat>, l: nat)
    requires Labelled(g, labels) && |picks| < g.N()
    ensures Sweep(g, labels, picks + [l]) == Sweep(g, labels, picks)[|picks| := l]
  {
    assert (picks + [l])[..|picks|] == picks;
  }

  /** One more node: a label `Choice` allows against the map the sweep has reached keeps the
      pick list admissible, and the sweep writes it into that node's entry. */
  lemma AdmissibleSnoc<P>(g: Graph<P>, labels: Labels, picks: seq<nat>, l: nat)
    requires g.Valid() && Labelled(g, labels) && |picks| < g.N() && Admissible(g, labels, picks)
    requires Choice(NeighbourLabels(g, Sweep(g, labels, picks), |picks|), Sweep(g, labels, picks)[|picks|], l)
    ensures Admissible(g, labels, picks + [l])
    ensures Sweep(g, labels, picks + [l]) == Sweep(g, labels, picks)[|picks| := l]
  {
    assert (picks + [l])[..|picks|] == picks;
  }

  /** In an admissible pass, node `i` took a label `Choice` allows against the map the nodes
      before it had left. */
  lemma {:induction false} AdmissibleAt<P>(g: Graph<P>, labels: Labels, picks: seq<nat>, i: nat)
    requires g.Valid() && Labelled(g, labels) && |picks| <= g.N() && Admissible(g, labels, picks)
    requires i < |picks|
    ensures Choice(NeighbourLabels(g, Sweep(g, labels, picks[..i]), i), Sweep(g, labels, picks[..i])[i], picks[i])
    decreases |picks|
  {
    var init := picks[..|picks| - 1];
    if i < |init| {
      AdmissibleAt(g, labels, init, i);
      assert init[..i] == picks[..i] && init[i] == picks[i];
    } else {
      assert picks[..i] == init;
    }
  }

  /** After an admissible pass, node `x` holds the label it took, and that label is one
      `Choice` allows against the map as the pass reached `x`. */
  lemma SweepWritten<P>(g: Graph<P>, labels: Labels, picks: seq<nat>, x: nat)
    requires g.Valid() && Labelled(g, labels) && |picks| <= g.N() && Admissible(g, labels, picks)
    requires x < |picks|
    ensures Sweep(g, labels, picks)[x] == picks[x]
    ensures Choice(NeighbourLabels(g, Sweep(g, labels, picks[..x]), x), Sweep(g, labels, picks[..x])[x],
                   Sweep(g, labels, picks)[x])
  {
    SweepHolds(g, labels, picks);
    AdmissibleAt(g, labels, picks, x);
  }

  /** In a chain, pass `k` is admissible against the map the passes before it left. */
  lemma {:induction false} ChainedAt<P>(g: Graph<P>, start: Labels, trace: seq<seq<nat>>, k: nat)
    requires g.Valid() && Labelled(g, start) && forall k :: 0 <= k < |trace| ==> |trace[k]| == g.N()
    requires Chained(g, start, trace) && k < |trace|
    ensures Admissible(g, Passes(g, start, trace[..k]), trace[k])
    decreases |trace|
  {
    var init := trace[..|trace| - 1];
    if k < |init| {
      ChainedAt(g, start, init, k);
      assert init[..k] == trace[..k] && init[k] == trace[k];
    } else {
      assert trace[..k] == init;
    }
  }

  /** One more admissible pass extends the chain, and the map is that pass's sweep. */
  lemma ChainedSnoc<P>(g: Graph<P>, start: Labels, trace: seq<seq<nat>>, picks: seq<nat>)
    requires g.Valid() && Labelled(g, start) && forall k :: 0 <= k < |trace| ==> |trace[k]| == g.N()
    requires Chained(g, start, trace) && |picks| == g.N() && Admissible(g, Passes(g, start, trace), picks)
    ensures Chained(g, start, trace + [picks])
    ensures Passes(g, start, trace + [picks]) == Sweep(g, Passes(g, start, trace), picks)
  {
    assert (trace + [picks])[..|trace|] == trace;
  }

  // ---------------------------------------------------------------------------
  // one node
  // ---------------------------------------------------------------------------

  /** The `neighbor_labels` tally: for each label met along `x`'s walk, how often. */
  method CountLabels<P>(g: Graph<P>, labels: Labels, x: nat) returns (counts: map<nat, nat>)
    requires g.Valid() && Labelled(g, labels)
    ensures forall l :: l in counts <==> l in NeighbourLabels(g, labels, x)
    ensures forall l :: l in counts ==> counts[l] == multiset(NeighbourLabels(g, labels, x))[l]
  {
    IncidentBelow(g, x);
    var nbrs := Neighbors(g, x);
    ghost var ls := NeighbourLabels(g, labels, x);
    counts := map[];
    for k := 0 to |nbrs|
      invariant forall l :: l in counts <==> l in ls[..k]
      invariant forall l :: l in counts ==> counts[l] == multiset(ls[..k])[l]
    {
      var lab := labels[nbrs[k]];
      assert ls[..k + 1] == ls[..k] + [lab];
      var c := if lab in counts then counts[lab] else 0;
      counts := counts[lab := c + 1];
    }
    assert ls[..|nbrs|] == ls;
  }

  /** `max_by_key` over the tally, visiting its entries in an arbitrary order and keeping the
      last entry of largest count; `own` when the tally is empty. */
  method MostFrequent(counts: map<nat, nat>, own: nat) returns (l: nat)
    ensures counts == map[] ==> l == own
    ensures counts != map[] ==> l in counts && forall l' :: l' in counts ==> counts[l'] <= counts[l]
  {
    l := own;
    var found := false;
    var best := 0;
    var rest := counts.Keys;
    while rest != {}
      invariant rest <= counts.Keys
      invariant !found ==> l == own && rest == counts.Keys
      invariant found ==> l in counts && best == counts[l]
      invariant forall l' :: l' in counts && l' !in rest ==> found && counts[l'] <= best
      decreases rest
    {
      var c :| c in rest;
      if !found || counts[c] >= best {
        l, best := c, counts[c];
        found := true;
      }
      rest := rest - {c};
    }
    assert counts != map[] ==> exists c :: c in counts;
  }

  /** The label the source computes for `x`: any of the labels `Choice` allows. */
  method NewLabel<P>(g: Graph<P>, labels: Labels, x: nat) returns (l: nat)
    requires g.Valid() && Labelled(g, labels) && x < g.N()
    ensures Choice(NeighbourLabels(g, labels, x), labels[x], l)
  {
    var counts := CountLabels(g, labels, x);
    l := MostFrequent(counts, labels[x]);
    ghost var ls := NeighbourLabels(g, labels, x);
    if ls != [] {
      assert ls[0] in counts;
    }
  }

  // ---------------------------------------------------------------------------
  // passes
  // ---------------------------------------------------------------------------

  /** One pass of the `while changed` loop. Only the scanned node's entry is ever written, and
      only with a different label; a node without neighbours keeps its label. `changed` tells
      whether the map differs afterwards, and a pass that changes nothing has found every node
      settled. */
  method Pass<P>(g: Graph<P>, labels0: Labels) returns (labels: Labels, changed: bool, ghost picks: seq<nat>)
    requires g.Valid() && Labelled(g, labels0) && LabelsBelow(g, labels0)
    ensures Labelled(g, labels) && LabelsBelow(g, labels)
    ensures changed <==> labels != labels0
    ensures forall v: nat :: v < g.N() && Degree(g, v) == 0 ==> labels[v] == labels0[v]
    ensures !changed ==> forall v: nat :: v < g.N() ==> Settled(g, labels, v)
    ensures |picks| == g.N() && Admissible(g, labels0, picks) && labels == Sweep(g, labels0, picks)
  {
    labels := labels0;
    changed := false;
    picks := [];
    for x := 0 to g.N()
      invariant Labelled(g, labels) && LabelsBelow(g, labels)
      invariant forall v :: x <= v < g.N() ==> labels[v] == labels0[v]
      invariant forall v: nat :: v < g.N() && Degree(g, v) == 0 ==> labels[v] == labels0[v]
      invariant changed <==> labels != labels0
      invariant !changed ==> forall v :: 0 <= v < x ==> Settled(g, labels, v)
      invariant |picks| == x && Admissible(g, labels0, picks) && labels == Sweep(g, labels0, picks)
    {
      var l := NewLabel(g, labels, x);
      LabelFromNeighbour(g, labels, x, l);
      AdmissibleSnoc(g, labels0, picks, l);
      picks := picks + [l];
      if l != labels[x] {
        labels := labels[x := l];
        changed := true;
      } else {
        assert labels[x := l] == labels;
        if !changed {
          SettledUpTo(g, labels, x);
        }
      }
    }
  }

  /** A node without edges is settled whatever the labels: the empty tally leaves it its own. */
  lemma IsolatedSettled<P>(g: Graph<P>, labels: Labels, x: nat)
    requires g.Valid() && Labelled(g, labels) && x < g.N() && Degree(g, x) == 0
    ensures Settled(g, labels, x)
    ensures forall l :: Choice(NeighbourLabels(g, labels, x), labels[x], l) <==> l == labels[x]
  {
    assert NeighbourLabels(g, labels, x) == [];
  }

  /** A node that keeps its label joins the settled prefix. */
  lemma SettledUpTo<P>(g: Graph<P>, labels: Labels, x: nat)
    requires g.Valid() && Labelled(g, labels) && x < g.N()
    requires forall v :: 0 <= v < x ==> Settled(g, labels, v)
    requires Choice(NeighbourLabels(g, labels, x), labels[x], labels[x])
    ensures forall v :: 0 <= v < x + 1 ==> Settled(g, labels, v)
  {
  }

  /** A chosen label is the node's own or a neighbour's, so labels stay node indices. */
  lemma LabelFromNeighbour<P>(g: Graph<P>, labels: Labels, x: nat, l: nat)
    requires g.Valid() && Labelled(g, labels) && LabelsBelow(g, labels) && x < g.N()
    requires Choice(NeighbourLabels(g, labels, x), labels[x], l)
    ensures l < g.N()
    ensures Degree(g, x) == 0 ==> l == labels[x]
  {
    var ls := NeighbourLabels(g, labels, x);
    if ls != [] {
      var k :| 0 <= k < |ls| && ls[k] == l;
      IncidentBelow(g, x);
    }
  }

  /** One pass of the `while changed` loop, extending the trace of the passes so far. */
  method TracedPass<P>(g: Graph<P>, labels0: Labels, ghost trace0: seq<seq<nat>>)
    returns (labels: Labels, changed: bool, ghost trace: seq<seq<nat>>)
    requires g.Valid() && Labelled(g, labels0) && LabelsBelow(g, labels0)
    requires forall k :: 0 <= k < |trace0| ==> |trace0[k]| == g.N()
    requires Chained(g, Initial(g), trace0) && labels0 == Passes(g, Initial(g), trace0)
    ensures Labelled(g, labels) && LabelsBelow(g, labels)
    ensures changed <==> labels != labels0
    ensures forall v: nat :: v < g.N() && Degree(g, v) == 0 ==> labels[v] == labels0[v]
    ensures !changed ==> forall v: nat :: v < g.N() ==> Settled(g, labels, v)
    ensures |trace| == |trace0| + 1 && trace[..|trace0|] == trace0
    ensures forall k :: 0 <= k < |trace| ==> |trace[k]| == g.N()
    ensures Chained(g, Initial(g), trace) && labels == Passes(g, Initial(g), trace)
  {
    ghost var picks;
    labels, changed, picks := Pass(g, labels0);
    ChainedSnoc(g, Initial(g), trace0, picks);
    trace := trace0 + [picks];
    assert trace[..|trace0|] == trace0;
  }

  /** The `while changed` loop, at most `fuel` passes. On convergence every node is settled;
      a node without neighbours ends with its own index as label. */
  method Propagate<P>(g: Graph<P>, fuel: nat) returns (labels: Labels, converged: bool, ghost trace: seq<seq<nat>>)
    requires g.Valid()
    ensures Labelled(g, labels) && LabelsBelow(g, labels)
    ensures forall v: nat :: v < g.N() && Degree(g, v) == 0 ==> labels[v] == v
    ensures converged ==> forall v: nat :: v < g.N() ==> Settled(g, labels, v)
    ensures fuel == 0 ==> !converged && labels == Initial(g)
    ensures |trace| <= fuel && (!converged ==> |trace| == fuel)
    ensures forall k :: 0 <= k < |trace| ==> |trace[k]| == g.N()
    ensures Chained(g, Initial(g), trace) && labels == Passes(g, Initial(g), trace)
    ensures converged ==> trace != [] && Passes(g, Initial(g), trace[..|trace| - 1]) == labels
  {
    labels := Initial(g);
    var changed := true;
    var passes := 0;
    trace := [];
    while changed && passes < fuel
      invariant passes == |trace| <= fuel
      invariant Labelled(g, labels) && LabelsBelow(g, labels)
      invariant forall v: nat :: v < g.N() && Degree(g, v) == 0 ==> labels[v] == v
      invariant !changed ==> forall v: nat :: v < g.N() ==> Settled(g, labels, v)
      invariant trace == [] ==> changed && labels == Initial(g)
      invariant forall k :: 0 <= k < |trace| ==> |trace[k]| == g.N()
      invariant Chained(g, Initial(g), trace) && labels == Passes(g, Initial(g), trace)
      invariant !changed ==> trace != [] && Passes(g, Initial(g), trace[..|trace| - 1]) == labels
      decreases fuel - passes
    {
      labels, changed, trace := TracedPass(g, labels, trace);
      passes := passes + 1;
    }
    converged := !changed;
  }

  /** `order` lists every node of `g` exactly once. */
  ghost predicate Lists<P>(order: seq<nat>, g: Graph<P>) {
    Distinct(order) && forall v: nat :: v in order <==> v < g.N()
  }

  /** label_propagation: the labels after at most `fuel` passes, grouped. */
  method LabelPropagation<P>(g: Graph<P>, order: seq<nat>, fuel: nat)
    returns (communities: seq<seq<nat>>, converged: bool, ghost labels: Labels, ghost ls: seq<nat>,
             ghost trace: seq<seq<nat>>)
    requires g.Valid() && Lists(order, g)
    ensures Labelled(g, labels) && LabelsBelow(g, labels) && Grouped(communities, labels, ls)
    ensures |trace| <= fuel && forall k :: 0 <= k < |trace| ==> |trace[k]| == g.N()
    ensures Chained(g, Initial(g), trace) && labels == Passes(g, Initial(g), trace)
    ensures forall v: nat :: v < g.N() && Degree(g, v) == 0 ==> labels[v] == v
    ensures converged ==> forall v: nat :: v < g.N() ==> Settled(g, labels, v)
    ensures forall v :: v in order <==> exists i :: 0 <= i < |communities| && v in communities[i]
    ensures forall v, i, j ::
      0 <= i < |communities| && 0 <= j < |communities| && v in communities[i] && v in communities[j] ==> i == j
    ensures forall i :: 0 <= i < |communities| ==> communities[i] != []
  {
    var final;
    final, converged, trace := Propagate(g, fuel);
    labels := final;
    communities, ls := GroupByKey(final, order);
    GroupedPartition(communities, labels, ls);
  }
}
