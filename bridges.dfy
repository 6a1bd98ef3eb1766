/**
  Bridge detection of src/bed.rs.

  petgraph's depth-first iterator, started at node 0, hands out nodes; each one whose discovery
  time is still 0 starts `BridgeDfs`, an explicit-stack search that keeps discovery times,
  low-links and parents in arrays indexed by node and a shared `time` counter. The check
  `disc == 0` is made when a neighbour is pushed, not when it is popped, so a node can be pushed
  twice and entered twice; the model keeps that, and `time` can then grow past the node count.
*/
module Bridges {
  import opened Graphs

  datatype State = Enter(node: nat) | Exit(node: nat)

  /** What the search arrays keep: low-link at most discovery time at most `time`, and every
      parent is a different node joined to its child by an edge. */
  predicate Consistent<P>(g: Graph<P>, low: seq<nat>, disc: seq<nat>, parent: seq<Option<nat>>, time: nat) {
    && |low| == g.N() && |disc| == g.N() && |parent| == g.N()
    && (forall v :: 0 <= v < g.N() ==> low[v] <= disc[v] <= time)
    && (forall v :: 0 <= v < g.N() && parent[v].Some? ==>
          parent[v].value < g.N() && parent[v].value != v && HasEdge(g, parent[v].value, v))
  }

  /** Every reported pair is an edge of the graph between two distinct nodes. */
  predicate AreEdges<P>(g: Graph<P>, bridges: set<(nat, nat)>) {
    forall b :: b in bridges ==> b.0 < g.N() && b.1 < g.N() && b.0 != b.1 && HasEdge(g, b.0, b.1)
  }

  /** Every neighbour of a discovered node is discovered too, or waits on the stack to be
      entered. */
  predicate ClosedUpTo<P>(g: Graph<P>, disc: seq<nat>, stack: seq<State>) {
    forall v, w :: 0 <= v < |disc| && disc[v] > 0 && w in Neighbors(g, v) ==>
      (w < |disc| && disc[w] > 0) || Enter(w) in stack
  }

  predicate NodesBelow(stack: seq<State>, n: nat) {
    forall i :: 0 <= i < |stack| ==> stack[i].node < n
  }

  // ---------------------------------------------------------------------------
  // the termination measure of the search
  // ---------------------------------------------------------------------------

  /** Number of nodes not discovered yet. */
  function Undiscovered(disc: seq<nat>): nat
    decreases |disc|
  {
    if disc == [] then 0
    else Undiscovered(disc[..|disc| - 1]) + (if disc[|disc| - 1] == 0 then 1 else 0)
  }

  /** Stack weight: `b` for an `Enter` of a discovered node, which may push every neighbour
      again, and 1 for anything else. */
  function Weight(stack: seq<State>, disc: seq<nat>, b: nat): nat
    decreases |stack|
  {
    if stack == [] then 0
    else
      var top := stack[|stack| - 1];
      Weight(stack[..|stack| - 1], disc, b) + (if top.Enter? && top.node < |disc| && disc[top.node] > 0 then b else 1)
  }

  predicate SameStatus(d: seq<nat>, d': seq<nat>) {
    |d| == |d'| && forall i :: 0 <= i < |d| ==> (d[i] == 0 <==> d'[i] == 0)
  }

  lemma {:induction false} WeightStatus(stack: seq<State>, d: seq<nat>, d': seq<nat>, b: nat)
    requires SameStatus(d, d')
    ensures Weight(stack, d, b) == Weight(stack, d', b)
    decreases |stack|
  {
    if stack != [] {
      WeightStatus(stack[..|stack| - 1], d, d', b);
    }
  }

  /** Discovering one node lowers the count of undiscovered ones by one. */
  lemma {:induction false} UndiscoveredDrops(d: seq<nat>, u: nat, t: nat)
    requires u < |d| && d[u] == 0 && t > 0
    ensures Undiscovered(d[u := t]) < Undiscovered(d)
    decreases |d|
  {
    var d' := d[u := t];
    if u < |d| - 1 {
      assert d'[..|d| - 1] == d[..|d| - 1][u := t];
      UndiscoveredDrops(d[..|d| - 1], u, t);
    } else {
      assert d'[..|d| - 1] == d[..|d| - 1];
    }
  }

  /** One more state adds its own weight. */
  lemma WeightSnoc(stack: seq<State>, s: State, d: seq<nat>, b: nat)
    ensures Weight(stack + [s], d, b) == Weight(stack, d, b) + (if s.Enter? && s.node < |d| && d[s.node] > 0 then b else 1)
  {
    assert (stack + [s])[..|stack|] == stack;
  }

  /** Pushing `Enter`s of undiscovered nodes adds one per push. */
  lemma {:induction false} WeightPushes(stack: seq<State>, ws: seq<nat>, d: seq<nat>, b: nat)
    requires forall i :: 0 <= i < |ws| ==> ws[i] < |d| && d[ws[i]] == 0
    ensures Weight(stack + Enters(ws), d, b) == Weight(stack, d, b) + |ws|
    decreases |ws|
  {
    if ws != [] {
      var init, w := ws[..|ws| - 1], ws[|ws| - 1];
      WeightPushes(stack, init, d, b);
      assert ws == init + [w];
      EntersSnoc(init, w);
      assert stack + Enters(ws) == (stack + Enters(init)) + [Enter(w)];
      WeightSnoc(stack + Enters(init), Enter(w), d, b);
    } else {
      assert stack + Enters(ws) == stack;
    }
  }

  // ---------------------------------------------------------------------------
  // one Enter step
  // ---------------------------------------------------------------------------

  /** `w` if its discovery time is 0, else nothing. */
  function Pushed(w: nat, disc: seq<nat>): seq<nat> {
    if w < |disc| && disc[w] == 0 then [w] else []
  }

  /** The neighbours, in walk order, whose discovery time is 0. */
  function Fresh(nbrs: seq<nat>, disc: seq<nat>): (r: seq<nat>)
    ensures |r| <= |nbrs|
    decreases |nbrs|
  {
    if nbrs == [] then []
    else Fresh(nbrs[..|nbrs| - 1], disc) + Pushed(nbrs[|nbrs| - 1], disc)
  }

  /** `Fresh` keeps exactly the neighbours with discovery time 0. */
  lemma {:induction false} FreshSpec(nbrs: seq<nat>, disc: seq<nat>)
    ensures var r := Fresh(nbrs, disc);
      && (forall i :: 0 <= i < |r| ==> r[i] in nbrs && (r[i] < |disc| ==> disc[r[i]] == 0))
      && (forall w :: w in nbrs && w < |disc| && disc[w] == 0 ==> w in r)
    decreases |nbrs|
  {
    if nbrs != [] {
      var init := nbrs[..|nbrs| - 1];
      FreshSpec(init, disc);
      assert forall w :: w in nbrs <==> w in init || w == nbrs[|nbrs| - 1];
    }
  }

  function Enters(ws: seq<nat>): (r: seq<State>)
    ensures |r| == |ws| && forall i :: 0 <= i < |ws| ==> r[i] == Enter(ws[i])
  {
    seq(|ws|, i requires 0 <= i < |ws| => Enter(ws[i]))
  }

  /** The low-link of `u` after scanning `nbrs`: lowered to the discovery time of every
      discovered neighbour other than `u`'s parent. */
  function LowScan(nbrs: seq<nat>, disc: seq<nat>, parentU: Option<nat>, low: nat): (r: nat)
    ensures r <= low
    decreases |nbrs|
  {
    if nbrs == [] then low
    else Lowered(LowScan(nbrs[..|nbrs| - 1], disc, parentU, low), nbrs[|nbrs| - 1], disc, parentU)
  }

  /** `l` lowered to the discovery time of `w` when `w` is discovered and not the parent. */
  function Lowered(l: nat, w: nat, disc: seq<nat>, parentU: Option<nat>): nat {
    if w < |disc| && disc[w] != 0 && parentU != Some(w) && disc[w] < l then disc[w] else l
  }

  /** The parent array after every node of `ws` has been given parent `u`. */
  function SetParents(parent: seq<Option<nat>>, ws: seq<nat>, u: nat): (r: seq<Option<nat>>)
    ensures |r| == |parent|
    ensures forall v :: 0 <= v < |r| ==> r[v] == (if v in ws then Some(u) else parent[v])
    decreases |ws|
  {
    if ws == [] then parent
    else
      var w := ws[|ws| - 1];
      var p := SetParents(parent, ws[..|ws| - 1], u);
      if w < |p| then p[w := Some(u)] else p
  }

  /** Entering `u` (src/bed.rs:63-83): stamp it with the next time, push its exit, push every
      undiscovered neighbour with `u` as its parent, and lower `u`'s low-link to the discovery
      time of every other discovered neighbour except its parent. */
  method EnterNode<P>(g: Graph<P>, u: nat, low: array<nat>, disc: array<nat>, parent: array<Option<nat>>,
                      time0: nat, stack0: seq<State>) returns (time: nat, stack: seq<State>)
    requires g.Valid() && u < g.N() && low != disc
    requires low.Length == g.N() && disc.Length == g.N() && parent.Length == g.N()
    modifies low, disc, parent
    ensures time == time0 + 1
    ensures disc[..] == old(disc[..])[u := time]
    ensures low[..] == old(low[..])[u := LowScan(Neighbors(g, u), disc[..], old(parent[u]), time)]
    ensures parent[..] == SetParents(old(parent[..]), Fresh(Neighbors(g, u), disc[..]), u)
    ensures stack == stack0 + [Exit(u)] + Enters(Fresh(Neighbors(g, u), disc[..]))
  {
    time := time0 + 1;
    disc[u] := time;
    low[u] := time;
    ghost var low1 := low[..];
    assert low1 == old(low[..])[u := time];
    assert disc[..] == old(disc[..])[u := time];
    assert parent[..] == old(parent[..]);
    IncidentBelow(g, u);
    stack := ScanNeighbors(g, u, Neighbors(g, u), low, disc, parent, stack0 + [Exit(u)]);
    assert low[..] == low1[u := LowScan(Neighbors(g, u), disc[..], old(parent[u]), time)];
  }

  /** The state after the first `k` neighbours of `u` have been scanned, from low-links
      `low0`, parents `parent0` and stack `stack0`, with discovery times `d`. */
  ghost predicate Scanned(u: nat, nbrs: seq<nat>, k: nat, d: seq<nat>, low: array<nat>, parent: array<Option<nat>>,
                          stack: seq<State>, low0: seq<nat>, parent0: seq<Option<nat>>, stack0: seq<State>)
    reads low, parent
  {
    && k <= |nbrs| && u < |low0| == low.Length && u < |parent0| == parent.Length
    && low[u] == LowScan(nbrs[..k], d, parent0[u], low0[u])
    && (forall v :: 0 <= v < low.Length && v != u ==> low[v] == low0[v])
    && (forall v :: 0 <= v < parent.Length ==>
          parent[v] == if v in Fresh(nbrs[..k], d) then Some(u) else parent0[v])
    && stack == stack0 + Enters(Fresh(nbrs[..k], d))
  }

  /** The neighbour loop of src/bed.rs:73-82 over the neighbours `nbrs` of the entered node `u`. */
  method ScanNeighbors<P>(g: Graph<P>, u: nat, nbrs: seq<nat>, low: array<nat>, disc: array<nat>,
                          parent: array<Option<nat>>, stack0: seq<State>) returns (stack: seq<State>)
    requires u < g.N() && low != disc && forall i :: 0 <= i < |nbrs| ==> nbrs[i] < g.N()
    requires low.Length == g.N() && disc.Length == g.N() && parent.Length == g.N()
    requires disc[u] > 0
    modifies low, parent
    ensures low[..] == old(low[..])[u := LowScan(nbrs, disc[..], old(parent[u]), old(low[u]))]
    ensures parent[..] == SetParents(old(parent[..]), Fresh(nbrs, disc[..]), u)
    ensures stack == stack0 + Enters(Fresh(nbrs, disc[..]))
  {
    stack := stack0;
    ghost var d := disc[..];
    ghost var low0 := low[..];
    ghost var parent0 := parent[..];
    assert stack0 + Enters(Fresh(nbrs[..0], d)) == stack0;
    for k := 0 to |nbrs|
      invariant Scanned(u, nbrs, k, d, low, parent, stack, low0, parent0, stack0)
    {
      stack := ScanNeighbor(g, u, nbrs, k, low, disc, parent, stack, low0, parent0, stack0);
    }
    assert nbrs[..|nbrs|] == nbrs;
    assert low[..] == old(low[..])[u := low[u]];
    assert parent[..] == SetParents(old(parent[..]), Fresh(nbrs, d), u);
  }

  /** One pass of the neighbour loop of src/bed.rs:73-82: an undiscovered neighbour is pushed
      with `u` as its parent, a discovered one other than `u`'s parent lowers `u`'s low-link. */
  method ScanNeighbor<P>(g: Graph<P>, u: nat, nbrs: seq<nat>, k: nat, low: array<nat>, disc: array<nat>,
                         parent: array<Option<nat>>, stack1: seq<State>,
                         ghost low0: seq<nat>, ghost parent0: seq<Option<nat>>, ghost stack0: seq<State>)
    returns (stack: seq<State>)
    requires u < g.N() && k < |nbrs| && nbrs[k] < g.N() && low != disc
    requires low.Length == g.N() && disc.Length == g.N() && parent.Length == g.N()
    requires disc[u] > 0
    requires Scanned(u, nbrs, k, disc[..], low, parent, stack1, low0, parent0, stack0)
    modifies low, parent
    ensures Scanned(u, nbrs, k + 1, disc[..], low, parent, stack, low0, parent0, stack0)
  {
    var neighbor := nbrs[k];
    if disc[neighbor] == 0 {
      stack := PushNeighbor(u, nbrs, k, disc[..], low, parent, stack1, low0, parent0, stack0);
    } else {
      LowerLink(u, nbrs, k, disc[..], low, parent, stack1, low0, parent0, stack0);
      stack := stack1;
    }
  }

  method PushNeighbor(u: nat, nbrs: seq<nat>, k: nat, d: seq<nat>, low: array<nat>,
                      parent: array<Option<nat>>, stack1: seq<State>,
                      ghost low0: seq<nat>, ghost parent0: seq<Option<nat>>, ghost stack0: seq<State>)
    returns (stack: seq<State>)
    requires k < |nbrs| && nbrs[k] < |d| == parent.Length && u < |d| && d[u] > 0 && d[nbrs[k]] == 0
    requires Scanned(u, nbrs, k, d, low, parent, stack1, low0, parent0, stack0)
    modifies parent
    ensures Scanned(u, nbrs, k + 1, d, low, parent, stack, low0, parent0, stack0)
  {
    var neighbor := nbrs[k];
    FreshStep(nbrs, k, d);
    LowScanStep(nbrs, k, d, parent0[u], low0[u]);
    ghost var pushed := Fresh(nbrs[..k], d);
    parent[neighbor] := Some(u);
    stack := stack1 + [Enter(neighbor)];
    EntersSnoc(pushed, neighbor);
    assert stack == (stack0 + Enters(pushed)) + [Enter(neighbor)];
  }

  method LowerLink(u: nat, nbrs: seq<nat>, k: nat, d: seq<nat>, low: array<nat>,
                   parent: array<Option<nat>>, stack1: seq<State>,
                   ghost low0: seq<nat>, ghost parent0: seq<Option<nat>>, ghost stack0: seq<State>)
    requires k < |nbrs| && nbrs[k] < |d| == parent.Length && u < |d| && d[u] > 0 && d[nbrs[k]] != 0
    requires Scanned(u, nbrs, k, d, low, parent, stack1, low0, parent0, stack0)
    modifies low
    ensures Scanned(u, nbrs, k + 1, d, low, parent, stack1, low0, parent0, stack0)
  {
    var neighbor := nbrs[k];
    FreshStep(nbrs, k, d);
    LowScanStep(nbrs, k, d, parent0[u], low0[u]);
    assert parent[u] == parent0[u] by {
      FreshSpec(nbrs[..k], d);
      assert u !in Fresh(nbrs[..k], d);
    }
    if parent[u] != Some(neighbor) {
      low[u] := if low[u] <= d[neighbor] then low[u] else d[neighbor];
    }
  }

  lemma FreshStep(nbrs: seq<nat>, k: nat, d: seq<nat>)
    requires k < |nbrs|
    ensures nbrs[k] < |d| && d[nbrs[k]] == 0 ==> Fresh(nbrs[..k + 1], d) == Fresh(nbrs[..k], d) + [nbrs[k]]
    ensures !(nbrs[k] < |d| && d[nbrs[k]] == 0) ==> Fresh(nbrs[..k + 1], d) == Fresh(nbrs[..k], d)
  {
    assert nbrs[..k + 1][..k] == nbrs[..k];
    assert Fresh(nbrs[..k], d) + [] == Fresh(nbrs[..k], d);
  }

  lemma LowScanStep(nbrs: seq<nat>, k: nat, d: seq<nat>, parentU: Option<nat>, low: nat)
    requires k < |nbrs|
    ensures LowScan(nbrs[..k + 1], d, parentU, low)
      == var l := LowScan(nbrs[..k], d, parentU, low);
         var w := nbrs[k];
         if w < |d| && d[w] != 0 && parentU != Some(w) then (if d[w] < l then d[w] else l) else l
  {
    assert nbrs[..k + 1][..k] == nbrs[..k];
  }

  lemma EntersSnoc(ws: seq<nat>, w: nat)
    ensures Enters(ws + [w]) == Enters(ws) + [Enter(w)]
  {
  }

  /** Leaving `u` (src/bed.rs:84-94): its parent's low-link drops to `u`'s, and the edge to the
      parent is a bridge when `u`'s low-link is above the parent's discovery time. */
  method ExitNode<P>(g: Graph<P>, u: nat, low: array<nat>, disc: array<nat>, parent: array<Option<nat>>,
                     bridges0: set<(nat, nat)>) returns (bridges: set<(nat, nat)>)
    requires low.Length == g.N() && disc.Length == g.N() && parent.Length == g.N()
    requires u < g.N() && low != disc
    requires parent[u].Some? ==> parent[u].value < g.N() && parent[u].value != u
    modifies low
    ensures parent[u].None? ==> low[..] == old(low[..]) && bridges == bridges0
    ensures parent[u].Some? ==>
      var p := parent[u].value;
      && low[..] == old(low[..])[p := if old(low[p]) <= old(low[u]) then old(low[p]) else old(low[u])]
      && bridges == bridges0 + (if old(low[u]) > disc[p] then {(p, u)} else {})
  {
    bridges := bridges0;
    match parent[u]
    case None =>
    case Some(p) =>
      low[p] := if low[p] <= low[u] then low[p] else low[u];
      if low[u] > disc[p] {
        bridges := bridges + {(p, u)};
      }
  }

  // ---------------------------------------------------------------------------
  // the search as a function of its state
  // ---------------------------------------------------------------------------

  /** Everything bridge_dfs reads and writes: the three arrays, the counter, the reported
      pairs and the explicit stack. */
  datatype Search = Search(low: seq<nat>, disc: seq<nat>, parent: seq<Option<nat>>, time: nat,
                           bridges: set<(nat, nat)>, stack: seq<State>)

  /** The arrays are consistent and every stacked state names a node of the graph. */
  predicate Inv<P>(g: Graph<P>, s: Search) {
    Consistent(g, s.low, s.disc, s.parent, s.time) && NodesBelow(s.stack, g.N())
  }

  /** Entering `u` with `rest` left on the stack, on values (src/bed.rs:63-83). */
  function Entered<P>(g: Graph<P>, s: Search, u: nat, rest: seq<State>): Search
    requires u < |s.disc| && u < |s.low| && u < |s.parent|
  {
    var d := s.disc[u := s.time + 1];
    var pushed := Fresh(Neighbors(g, u), d);
    Search(s.low[u := LowScan(Neighbors(g, u), d, s.parent[u], s.time + 1)], d,
           SetParents(s.parent, pushed, u), s.time + 1, s.bridges, rest + [Exit(u)] + Enters(pushed))
  }

  /** Leaving `u` with `rest` left on the stack, on values (src/bed.rs:84-94). */
  function Exited(s: Search, u: nat, rest: seq<State>): Search
    requires u < |s.parent| && u < |s.low|
    requires s.parent[u].Some? ==> s.parent[u].value < |s.low| && s.parent[u].value < |s.disc|
  {
    match s.parent[u]
    case None => s.(stack := rest)
    case Some(p) =>
      s.(low := s.low[p := if s.low[p] <= s.low[u] then s.low[p] else s.low[u]],
         bridges := s.bridges + (if s.low[u] > s.disc[p] then {(p, u)} else {}),
         stack := rest)
  }

  /** Node `u` and its parent index the arrays. */
  predicate Fits(s: Search, u: nat) {
    && u < |s.low| && u < |s.disc| && u < |s.parent|
    && (s.parent[u].Some? ==> s.parent[u].value < |s.low| && s.parent[u].value < |s.disc|)
  }

  /** One pop of the loop of src/bed.rs:61-95. */
  function Step<P>(g: Graph<P>, s: Search): Search
    requires s.stack != [] && Fits(s, s.stack[|s.stack| - 1].node)
  {
    var rest := s.stack[..|s.stack| - 1];
    match s.stack[|s.stack| - 1]
    case Enter(u) => Entered(g, s, u, rest)
    case Exit(u) => Exited(s, u, rest)
  }

  /** One pop keeps `Inv` and lowers the termination measure. */
  lemma StepKeeps<P>(g: Graph<P>, s: Search)
    requires g.Valid() && Inv(g, s) && s.stack != []
    ensures Inv(g, Step(g, s))
    ensures var s' := Step(g, s);
      || Undiscovered(s'.disc) < Undiscovered(s.disc)
      || (Undiscovered(s'.disc) == Undiscovered(s.disc)
          && Weight(s'.stack, s'.disc, Bound(g)) < Weight(s.stack, s.disc, Bound(g)))
  {
    var rest := s.stack[..|s.stack| - 1];
    var top := s.stack[|s.stack| - 1];
    assert s.stack == rest + [top];
    assert top.node < g.N();
    match top
    case Enter(u) =>
      EnterConsistent(g, u, s.low, s.disc, s.parent, s.time);
      EnterMeasure(g, u, s.disc, s.time, rest);
      EnterNodesBelow(g, u, s.disc[u := s.time + 1], rest);
    case Exit(u) =>
      WeightSnoc(rest, top, s.disc, Bound(g));
      assert NodesBelow(rest, g.N()) by {
        forall i | 0 <= i < |rest|
          ensures rest[i].node < g.N()
        {
          assert rest[i] == s.stack[i];
        }
      }
  }

  /** bridge_dfs's loop run to the empty stack. */
  function Run<P>(g: Graph<P>, s: Search): (r: Search)
    requires g.Valid() && Inv(g, s)
    ensures Inv(g, r) && r.stack == []
    decreases Undiscovered(s.disc), Weight(s.stack, s.disc, Bound(g))
  {
    if s.stack == [] then s
    else
      StepKeeps(g, s);
      Run(g, Step(g, s))
  }

  // ---------------------------------------------------------------------------
  // what one step of the search keeps
  // ---------------------------------------------------------------------------

  /** The weight of an `Enter` of an already discovered node: more than it can push. */
  function Bound<P>(g: Graph<P>): nat {
    2 * |g.edges| + 2
  }

  lemma {:induction false} UndiscoveredStatus(d: seq<nat>, d': seq<nat>)
    requires SameStatus(d, d')
    ensures Undiscovered(d) == Undiscovered(d')
    decreases |d|
  {
    if d != [] {
      UndiscoveredStatus(d[..|d| - 1], d'[..|d| - 1]);
    }
  }

  /** Entering a node keeps the arrays consistent: its low-link stays below its new discovery
      time and every node it adopts is its neighbour. */
  lemma EnterConsistent<P>(g: Graph<P>, u: nat, low: seq<nat>, disc: seq<nat>, parent: seq<Option<nat>>, time: nat)
    requires g.Valid() && u < g.N() && Consistent(g, low, disc, parent, time)
    ensures var d := disc[u := time + 1];
      Consistent(g, low[u := LowScan(Neighbors(g, u), d, parent[u], time + 1)], d,
                 SetParents(parent, Fresh(Neighbors(g, u), d), u), time + 1)
  {
    var d := disc[u := time + 1];
    var nbrs := Neighbors(g, u);
    var l := low[u := LowScan(nbrs, d, parent[u], time + 1)];
    forall v | 0 <= v < g.N()
      ensures l[v] <= d[v] <= time + 1
    {
      if v == u {
        assert l[v] == LowScan(nbrs, d, parent[u], time + 1);
      }
    }
    var p := SetParents(parent, Fresh(nbrs, d), u);
    forall v | 0 <= v < g.N() && p[v].Some?
      ensures p[v].value < g.N() && p[v].value != v && HasEdge(g, p[v].value, v)
    {
      if v in Fresh(nbrs, d) {
        FreshNeighbour(g, u, d, v);
      }
    }
  }

  /** A node pushed when `u` is entered is a neighbour of `u` other than `u` itself. */
  lemma FreshNeighbour<P>(g: Graph<P>, u: nat, d: seq<nat>, v: nat)
    requires u < |d| && d[u] > 0 && v in Fresh(Neighbors(g, u), d)
    ensures v != u && HasEdge(g, u, v)
  {
    var nbrs := Neighbors(g, u);
    FreshSpec(nbrs, d);
    var i :| 0 <= i < |Fresh(nbrs, d)| && Fresh(nbrs, d)[i] == v;
    assert v in nbrs;
    var k :| 0 <= k < |nbrs| && nbrs[k] == v;
    NeighborEdge(g, u, k);
  }

  /** Entering a node keeps every discovered node's neighbours discovered or waiting. */
  lemma EnterClosed<P>(g: Graph<P>, u: nat, disc: seq<nat>, time: nat, stack: seq<State>)
    requires g.Valid() && u < g.N() == |disc| && ClosedUpTo(g, disc, stack + [Enter(u)])
    ensures var d := disc[u := time + 1];
      ClosedUpTo(g, d, stack + [Exit(u)] + Enters(Fresh(Neighbors(g, u), d)))
  {
    var d := disc[u := time + 1];
    var stack' := stack + [Exit(u)] + Enters(Fresh(Neighbors(g, u), d));
    FreshSpec(Neighbors(g, u), d);
    forall v, w | 0 <= v < |d| && d[v] > 0 && w in Neighbors(g, v)
      ensures (w < |d| && d[w] > 0) || Enter(w) in stack'
    {
      IncidentBelow(g, v);
      if v == u {
        if d[w] == 0 {
          var i :| 0 <= i < |Fresh(Neighbors(g, u), d)| && Fresh(Neighbors(g, u), d)[i] == w;
          assert stack'[|stack| + 1 + i] == Enter(w);
        }
      } else if w != u && Enter(w) in stack + [Enter(u)] {
        var i :| 0 <= i < |stack| + 1 && (stack + [Enter(u)])[i] == Enter(w);
        assert stack'[i] == Enter(w);
      }
    }
  }

  /** Entering a node either discovers it, or re-enters it and pushes fewer states than the
      weight its `Enter` carried. */
  lemma EnterMeasure<P>(g: Graph<P>, u: nat, disc: seq<nat>, time: nat, stack: seq<State>)
    requires g.Valid() && u < g.N() == |disc|
    ensures var d := disc[u := time + 1];
      var stack' := stack + [Exit(u)] + Enters(Fresh(Neighbors(g, u), d));
      || Undiscovered(d) < Undiscovered(disc)
      || (Undiscovered(d) == Undiscovered(disc) && Weight(stack', d, Bound(g)) < Weight(stack + [Enter(u)], disc, Bound(g)))
  {
    var d := disc[u := time + 1];
    var pushed := Fresh(Neighbors(g, u), d);
    FreshSpec(Neighbors(g, u), d);
    if disc[u] == 0 {
      UndiscoveredDrops(disc, u, time + 1);
    } else {
      assert SameStatus(disc, d);
      UndiscoveredStatus(disc, d);
      IncidentBelow(g, u);
      WeightPushes(stack + [Exit(u)], pushed, d, Bound(g));
      assert (stack + [Exit(u)])[..|stack|] == stack;
      assert (stack + [Enter(u)])[..|stack|] == stack;
      WeightStatus(stack, disc, d, Bound(g));
      DegreeBound(g, u);
    }
  }

  /** The invariant of one search from `start`: the arrays stay consistent, reported pairs are
      edges, the stack holds nodes of the graph, discovered nodes are closed up to the stack,
      nothing discovered before the search is forgotten, and once the first state is popped the
      start node is discovered. */
  predicate Searching<P>(g: Graph<P>, start: nat, low: seq<nat>, disc: seq<nat>, parent: seq<Option<nat>>,
                         time: nat, bridges: set<(nat, nat)>, stack: seq<State>,
                         disc0: seq<nat>, time0: nat, bridges0: set<(nat, nat)>)
  {
    && Consistent(g, low, disc, parent, time) && AreEdges(g, bridges)
    && bridges0 <= bridges && time0 <= time
    && NodesBelow(stack, g.N()) && ClosedUpTo(g, disc, stack)
    && |disc0| == |disc| && (forall v :: 0 <= v < |disc0| && disc0[v] > 0 ==> disc[v] > 0)
    && ((time0 < time && start < |disc| && disc[start] > 0) || stack == [Enter(start)])
  }

  /** One iteration of the loop of src/bed.rs:61-95: pop a state and enter or leave its node. */
  method BridgeStep<P>(g: Graph<P>, start: nat, low: array<nat>, disc: array<nat>, parent: array<Option<nat>>,
                       time1: nat, bridges1: set<(nat, nat)>, stack1: seq<State>,
                       ghost disc0: seq<nat>, ghost time0: nat, ghost bridges0: set<(nat, nat)>)
    returns (time: nat, bridges: set<(nat, nat)>, stack: seq<State>)
    requires g.Valid() && low != disc && stack1 != []
    requires Searching(g, start, low[..], disc[..], parent[..], time1, bridges1, stack1, disc0, time0, bridges0)
    modifies low, disc, parent
    ensures Searching(g, start, low[..], disc[..], parent[..], time, bridges, stack, disc0, time0, bridges0)
    ensures || Undiscovered(disc[..]) < Undiscovered(old(disc[..]))
            || (Undiscovered(disc[..]) == Undiscovered(old(disc[..]))
                && Weight(stack, disc[..], Bound(g)) < Weight(stack1, old(disc[..]), Bound(g)))
    ensures Search(low[..], disc[..], parent[..], time, bridges, stack)
      == Step(g, Search(old(low[..]), old(disc[..]), old(parent[..]), time1, bridges1, stack1))
  {
    var state := stack1[|stack1| - 1];
    stack := stack1[..|stack1| - 1];
    assert stack1 == stack + [state];
    match state
    case Enter(u) =>
      time, stack := EnterStep(g, start, u, low, disc, parent, time1, bridges1, stack, disc0, time0, bridges0);
      bridges := bridges1;
    case Exit(u) =>
      bridges := ExitStep(g, start, u, low, disc, parent, time1, bridges1, stack, disc0, time0, bridges0);
      time := time1;
  }

  /** The `Enter` case of one iteration. */
  method EnterStep<P>(g: Graph<P>, start: nat, u: nat, low: array<nat>, disc: array<nat>, parent: array<Option<nat>>,
                      time1: nat, bridges: set<(nat, nat)>, stack1: seq<State>,
                      ghost disc0: seq<nat>, ghost time0: nat, ghost bridges0: set<(nat, nat)>)
    returns (time: nat, stack: seq<State>)
    requires g.Valid() && low != disc
    requires Searching(g, start, low[..], disc[..], parent[..], time1, bridges, stack1 + [Enter(u)], disc0, time0, bridges0)
    modifies low, disc, parent
    ensures Searching(g, start, low[..], disc[..], parent[..], time, bridges, stack, disc0, time0, bridges0)
    ensures || Undiscovered(disc[..]) < Undiscovered(old(disc[..]))
            || (Undiscovered(disc[..]) == Undiscovered(old(disc[..]))
                && Weight(stack, disc[..], Bound(g)) < Weight(stack1 + [Enter(u)], old(disc[..]), Bound(g)))
    ensures u < g.N()
    ensures Search(low[..], disc[..], parent[..], time, bridges, stack)
      == Entered(g, Search(old(low[..]), old(disc[..]), old(parent[..]), time1, bridges, stack1 + [Enter(u)]), u, stack1)
  {
    ghost var l1, d1, p1 := low[..], disc[..], parent[..];
    EnterSearching(g, start, u, l1, d1, p1, time1, bridges, stack1, disc0, time0, bridges0);
    time, stack := EnterNode(g, u, low, disc, parent, time1, stack1);
    assert disc[..] == d1[u := time];
    EnteredIs(g, Search(l1, d1, p1, time1, bridges, stack1 + [Enter(u)]), u, stack1, low[..], disc[..], parent[..], stack);
  }

  /** The state `EnterNode` leaves is `Entered`'s. */
  lemma EnteredIs<P>(g: Graph<P>, s: Search, u: nat, rest: seq<State>,
                     low: seq<nat>, disc: seq<nat>, parent: seq<Option<nat>>, stack: seq<State>)
    requires u < |s.disc| && u < |s.low| && u < |s.parent|
    requires disc == s.disc[u := s.time + 1]
    requires low == s.low[u := LowScan(Neighbors(g, u), disc, s.parent[u], s.time + 1)]
    requires parent == SetParents(s.parent, Fresh(Neighbors(g, u), disc), u)
    requires stack == rest + [Exit(u)] + Enters(Fresh(Neighbors(g, u), disc))
    ensures Search(low, disc, parent, s.time + 1, s.bridges, stack) == Entered(g, s, u, rest)
  {
  }

  /** Entering `u` keeps the invariant of the search and lowers its measure. */
  lemma EnterSearching<P>(g: Graph<P>, start: nat, u: nat, low: seq<nat>, disc: seq<nat>, parent: seq<Option<nat>>,
                          time1: nat, bridges: set<(nat, nat)>, stack1: seq<State>,
                          disc0: seq<nat>, time0: nat, bridges0: set<(nat, nat)>)
    requires g.Valid()
    requires Searching(g, start, low, disc, parent, time1, bridges, stack1 + [Enter(u)], disc0, time0, bridges0)
    ensures u < g.N()
    ensures var d := disc[u := time1 + 1];
      var stack := stack1 + [Exit(u)] + Enters(Fresh(Neighbors(g, u), d));
      && Searching(g, start, low[u := LowScan(Neighbors(g, u), d, parent[u], time1 + 1)], d,
                   SetParents(parent, Fresh(Neighbors(g, u), d), u), time1 + 1, bridges, stack, disc0, time0, bridges0)
      && (|| Undiscovered(d) < Undiscovered(disc)
          || (Undiscovered(d) == Undiscovered(disc) && Weight(stack, d, Bound(g)) < Weight(stack1 + [Enter(u)], disc, Bound(g))))
  {
    assert (stack1 + [Enter(u)])[|stack1|].node < g.N();
    EnterConsistent(g, u, low, disc, parent, time1);
    EnterClosed(g, u, disc, time1, stack1);
    EnterMeasure(g, u, disc, time1, stack1);
    EnterNodesBelow(g, u, disc[u := time1 + 1], stack1);
  }

  /** The states pushed on entering a node of `g` are about nodes of `g`. */
  lemma EnterNodesBelow<P>(g: Graph<P>, u: nat, d: seq<nat>, stack1: seq<State>)
    requires g.Valid() && NodesBelow(stack1 + [Enter(u)], g.N())
    ensures NodesBelow(stack1 + [Exit(u)] + Enters(Fresh(Neighbors(g, u), d)), g.N())
  {
    var stack := stack1 + [Exit(u)] + Enters(Fresh(Neighbors(g, u), d));
    assert (stack1 + [Enter(u)])[|stack1|].node < g.N();
    IncidentBelow(g, u);
    FreshSpec(Neighbors(g, u), d);
    forall i | 0 <= i < |stack|
      ensures stack[i].node < g.N()
    {
      if i < |stack1| {
        assert stack[i] == (stack1 + [Enter(u)])[i];
      }
    }
  }

  /** The `Exit` case of one iteration. */
  method ExitStep<P>(g: Graph<P>, start: nat, u: nat, low: array<nat>, disc: array<nat>, parent: array<Option<nat>>,
                     time: nat, bridges1: set<(nat, nat)>, stack: seq<State>,
                     ghost disc0: seq<nat>, ghost time0: nat, ghost bridges0: set<(nat, nat)>)
    returns (bridges: set<(nat, nat)>)
    requires g.Valid() && low != disc
    requires Searching(g, start, low[..], disc[..], parent[..], time, bridges1, stack + [Exit(u)], disc0, time0, bridges0)
    modifies low
    ensures Searching(g, start, low[..], disc[..], parent[..], time, bridges, stack, disc0, time0, bridges0)
    ensures Weight(stack, disc[..], Bound(g)) < Weight(stack + [Exit(u)], disc[..], Bound(g))
    ensures u < g.N()
    ensures Search(low[..], disc[..], parent[..], time, bridges, stack)
      == Exited(Search(old(low[..]), disc[..], parent[..], time, bridges1, stack + [Exit(u)]), u, stack)
  {
    assert (stack + [Exit(u)])[|stack|].node < g.N();
    assert NodesBelow(stack, g.N()) by {
      forall i | 0 <= i < |stack|
        ensures stack[i].node < g.N()
      {
        assert stack[i] == (stack + [Exit(u)])[i];
      }
    }
    ExitKeeps(g, u, stack, disc[..]);
    bridges := ExitNode(g, u, low, disc, parent, bridges1);
  }

  /** Leaving a node pops a weight of one and leaves the `Enter`s on the stack as they were. */
  lemma ExitKeeps<P>(g: Graph<P>, u: nat, stack: seq<State>, disc: seq<nat>)
    requires ClosedUpTo(g, disc, stack + [Exit(u)])
    ensures ClosedUpTo(g, disc, stack)
    ensures Weight(stack, disc, Bound(g)) < Weight(stack + [Exit(u)], disc, Bound(g))
  {
    assert (stack + [Exit(u)])[..|stack|] == stack;
    forall v, w | 0 <= v < |disc| && disc[v] > 0 && w in Neighbors(g, v)
      ensures (w < |disc| && disc[w] > 0) || Enter(w) in stack
    {
      if Enter(w) in stack + [Exit(u)] {
        var i :| 0 <= i < |stack| + 1 && (stack + [Exit(u)])[i] == Enter(w);
        assert stack[i] == Enter(w);
      }
    }
  }

  /** bridge_dfs (src/bed.rs:42-97): search from `start` with an explicit stack of `Enter` and
      `Exit` states until it is empty. */
  method BridgeDfs<P>(g: Graph<P>, start: nat, low: array<nat>, disc: array<nat>, parent: array<Option<nat>>,
                      time0: nat, bridges0: set<(nat, nat)>) returns (time: nat, bridges: set<(nat, nat)>)
    requires g.Valid() && start < g.N() && low != disc
    requires Consistent(g, low[..], disc[..], parent[..], time0) && AreEdges(g, bridges0)
    requires ClosedUpTo(g, disc[..], [])
    modifies low, disc, parent
    ensures Consistent(g, low[..], disc[..], parent[..], time) && AreEdges(g, bridges)
    ensures time0 < time && bridges0 <= bridges && disc[start] > 0
    ensures ClosedUpTo(g, disc[..], [])
    ensures forall v :: 0 <= v < disc.Length && old(disc[v]) > 0 ==> disc[v] > 0
    ensures Search(low[..], disc[..], parent[..], time, bridges, [])
      == Run(g, Search(old(low[..]), old(disc[..]), old(parent[..]), time0, bridges0, [Enter(start)]))
  {
    time, bridges := time0, bridges0;
    var stack := [Enter(start)];
    ghost var disc0 := disc[..];
    ghost var s0 := Search(low[..], disc[..], parent[..], time, bridges, stack);
    while stack != []
      invariant Searching(g, start, low[..], disc[..], parent[..], time, bridges, stack, disc0, time0, bridges0)
      invariant Run(g, Search(low[..], disc[..], parent[..], time, bridges, stack)) == Run(g, s0)
      decreases Undiscovered(disc[..]), Weight(stack, disc[..], Bound(g))
    {
      ghost var s := Search(low[..], disc[..], parent[..], time, bridges, stack);
      time, bridges, stack := BridgeStep(g, start, low, disc, parent, time, bridges, stack, disc0, time0, bridges0);
      assert Run(g, s) == Run(g, Step(g, s));
    }
  }

  // ---------------------------------------------------------------------------
  // reachability
  // ---------------------------------------------------------------------------

  /** A walk: consecutive nodes are neighbours. */
  predicate Walk<P>(g: Graph<P>, path: seq<nat>) {
    forall i :: 0 <= i < |path| - 1 ==> path[i + 1] in Neighbors(g, path[i])
  }

  /** With nothing left on the stack, every node a walk from a discovered node reaches is
      discovered: a search from `start` covers the whole component of `start`. */
  lemma {:induction false} SearchCoversComponent<P>(g: Graph<P>, disc: seq<nat>, path: seq<nat>)
    requires g.Valid() && |disc| == g.N() && ClosedUpTo(g, disc, [])
    requires |path| > 0 && path[0] < |disc| && disc[path[0]] > 0 && Walk(g, path)
    ensures forall i :: 0 <= i < |path| ==> path[i] < |disc| && disc[path[i]] > 0
    decreases |path|
  {
    if |path| > 1 {
      var init := path[..|path| - 1];
      assert Walk(g, init) by {
        forall i | 0 <= i < |init| - 1
          ensures init[i + 1] in Neighbors(g, init[i])
        {
          assert path[i + 1] in Neighbors(g, path[i]);
        }
      }
      SearchCoversComponent(g, disc, init);
      forall i | 0 <= i < |path|
        ensures path[i] < |disc| && disc[path[i]] > 0
      {
        if i < |path| - 1 {
          assert path[i] == init[i];
        } else {
          assert path[i] in Neighbors(g, path[i - 1]);
          assert path[i - 1] == init[i - 1];
        }
      }
    }
  }

  // ---------------------------------------------------------------------------
  // petgraph's depth-first iterator and find_bridge_edges
  // ---------------------------------------------------------------------------

  /** Number of unmarked entries of a bit set. */
  function Unmarked(bits: seq<bool>): nat
    decreases |bits|
  {
    if bits == [] then 0
    else Unmarked(bits[..|bits| - 1]) + (if bits[|bits| - 1] then 0 else 1)
  }

  /** Marking an unmarked entry lowers the count of unmarked ones. */
  lemma {:induction false} MarkDrops(bits: seq<bool>, v: nat)
    requires v < |bits| && !bits[v]
    ensures Unmarked(bits[v := true]) < Unmarked(bits)
    decreases |bits|
  {
    var bits' := bits[v := true];
    if v < |bits| - 1 {
      assert bits'[..|bits| - 1] == bits[..|bits| - 1][v := true];
      MarkDrops(bits[..|bits| - 1], v);
    } else {
      assert bits'[..|bits| - 1] == bits[..|bits| - 1];
    }
  }

  /** The neighbours, in walk order, not yet marked. */
  function Unseen(nbrs: seq<nat>, visited: seq<bool>): seq<nat>
    decreases |nbrs|
  {
    if nbrs == [] then []
    else
      var w := nbrs[|nbrs| - 1];
      Unseen(nbrs[..|nbrs| - 1], visited) + (if w < |visited| && !visited[w] then [w] else [])
  }

  /** `Unseen` keeps exactly the neighbours not marked yet. */
  lemma {:induction false} UnseenSpec(nbrs: seq<nat>, visited: seq<bool>)
    ensures var r := Unseen(nbrs, visited);
      && (forall i :: 0 <= i < |r| ==> r[i] in nbrs && r[i] < |visited| && !visited[r[i]])
      && (forall w :: w in nbrs && w < |visited| && !visited[w] ==> w in r)
    decreases |nbrs|
  {
    if nbrs != [] {
      var init := nbrs[..|nbrs| - 1];
      UnseenSpec(init, visited);
      assert forall w :: w in nbrs <==> w in init || w == nbrs[|nbrs| - 1];
    }
  }

  /** Every node `Unseen` keeps indexes `visited`. */
  lemma {:induction false} UnseenBelow(nbrs: seq<nat>, visited: seq<bool>)
    ensures forall i :: 0 <= i < |Unseen(nbrs, visited)| ==> Unseen(nbrs, visited)[i] < |visited|
    decreases |nbrs|
  {
    if nbrs != [] {
      UnseenBelow(nbrs[..|nbrs| - 1], visited);
    }
  }

  /** One more neighbour: `Unseen` grows by it exactly when it is unmarked. */
  lemma UnseenStep(nbrs: seq<nat>, k: nat, visited: seq<bool>)
    requires k < |nbrs|
    ensures Unseen(nbrs[..k + 1], visited)
      == Unseen(nbrs[..k], visited) + (if nbrs[k] < |visited| && !visited[nbrs[k]] then [nbrs[k]] else [])
  {
    assert nbrs[..k + 1][..k] == nbrs[..k];
  }

  /** What `PopMarked` leaves: the stack with its marked top entries dropped. */
  function Popped(visited: seq<bool>, stack: seq<nat>): (r: seq<nat>)
    requires forall i :: 0 <= i < |stack| ==> stack[i] < |visited|
    ensures |r| <= |stack| && r == stack[..|r|]
    ensures r != [] ==> !visited[r[|r| - 1]]
    decreases |stack|
  {
    if stack == [] || !visited[stack[|stack| - 1]] then stack
    else Popped(visited, stack[..|stack| - 1])
  }

  /** The node `Dfs::next` hands out, with the marks and the stack it leaves. */
  datatype DfsState = DfsState(next: Option<nat>, visited: seq<bool>, stack: seq<nat>)

  /** `Dfs::next` as a function of the marks and the stack. */
  function Next<P>(g: Graph<P>, visited: seq<bool>, stack: seq<nat>): (r: DfsState)
    requires g.Valid() && |visited| == g.N() && forall i :: 0 <= i < |stack| ==> stack[i] < g.N()
    ensures |r.visited| == g.N() && forall i :: 0 <= i < |r.stack| ==> r.stack[i] < g.N()
    ensures r.next.Some? ==> r.next.value < g.N() && Unmarked(r.visited) < Unmarked(visited)
  {
    var rest := Popped(visited, stack);
    if rest == [] then DfsState(None, visited, [])
    else
      var node := rest[|rest| - 1];
      var marked := visited[node := true];
      MarkDrops(visited, node);
      IncidentBelow(g, node);
      UnseenBelow(Neighbors(g, node), marked);
      DfsState(Some(node), marked, rest[..|rest| - 1] + Unseen(Neighbors(g, node), marked))
  }

  /** No node discovered yet and nothing reported. */
  function Initial<P>(g: Graph<P>): (s: Search)
    ensures Inv(g, s)
  {
    Search(seq(g.N(), _ => 0), seq(g.N(), _ => 0), seq(g.N(), _ => None), 0, {}, [])
  }

  /** Every node `Dfs` hands out from `node` on starts a search when it is still undiscovered
      (the loop of src/bed.rs:31-35). */
  function Visit<P>(g: Graph<P>, node: Option<nat>, visited: seq<bool>, dfsStack: seq<nat>, s: Search): (r: Search)
    requires g.Valid() && Inv(g, s) && s.stack == []
    requires |visited| == g.N() && forall i :: 0 <= i < |dfsStack| ==> dfsStack[i] < g.N()
    requires node.Some? ==> node.value < g.N()
    ensures Inv(g, r) && r.stack == []
    decreases Unmarked(visited) + (if node.Some? then 1 else 0)
  {
    if node.None? then s
    else
      var s' := if s.disc[node.value] == 0 then Run(g, s.(stack := [Enter(node.value)])) else s;
      var n := Next(g, visited, dfsStack);
      Visit(g, n.next, n.visited, n.stack, s')
  }

  /** One round of the loop of src/bed.rs:31-35. */
  lemma VisitSome<P>(g: Graph<P>, x: nat, visited: seq<bool>, dfsStack: seq<nat>, s: Search, s': Search)
    requires g.Valid() && Inv(g, s) && s.stack == [] && x < g.N()
    requires |visited| == g.N() && forall i :: 0 <= i < |dfsStack| ==> dfsStack[i] < g.N()
    requires s' == if s.disc[x] == 0 then Run(g, s.(stack := [Enter(x)])) else s
    ensures var n := Next(g, visited, dfsStack);
      Visit(g, Some(x), visited, dfsStack, s) == Visit(g, n.next, n.visited, n.stack, s')
  {
  }

  /** What find_bridge_edges returns (src/bed.rs:13-39). */
  function BridgeEdges<P>(g: Graph<P>): set<(nat, nat)>
    requires g.Valid()
  {
    if g.N() == 0 then {}
    else
      var n := Next(g, seq(g.N(), _ => false), [0]);
      Visit(g, n.next, n.visited, n.stack, Initial(g)).bridges
  }

  /** `Dfs::next` of petgraph: pop nodes until an unmarked one turns up, mark it, push its
      unmarked neighbours and hand it out; `None` once the stack runs dry. */
  method DfsNext<P>(g: Graph<P>, visited0: seq<bool>, stack0: seq<nat>)
    returns (next: Option<nat>, visited: seq<bool>, stack: seq<nat>)
    requires g.Valid() && |visited0| == g.N() && forall i :: 0 <= i < |stack0| ==> stack0[i] < g.N()
    ensures |visited| == g.N() && forall i :: 0 <= i < |stack| ==> stack[i] < g.N()
    ensures next.None? ==> visited == visited0 && stack == [] && forall i :: 0 <= i < |stack0| ==> visited0[stack0[i]]
    ensures next.Some? ==>
      && next.value < g.N() && !visited0[next.value] && visited == visited0[next.value := true]
      && Unmarked(visited) < Unmarked(visited0)
      && exists j :: 0 <= j < |stack0| && stack0[j] == next.value
           && (forall i :: j < i < |stack0| ==> visited0[stack0[i]])
           && stack == stack0[..j] + Unseen(Neighbors(g, next.value), visited)
    ensures DfsState(next, visited, stack) == Next(g, visited0, stack0)
  {
    visited := visited0;
    stack := PopMarked(visited0, stack0);
    if stack == [] {
      next := None;
      return;
    }
    var node := stack[|stack| - 1];
    ghost var j := |stack| - 1;
    stack := stack[..|stack| - 1];
    visited := visited[node := true];
    MarkDrops(visited0, node);
    IncidentBelow(g, node);
    ghost var popped := stack;
    stack := PushUnseen(Neighbors(g, node), visited, stack);
    UnseenBelow(Neighbors(g, node), visited);
    assert forall i :: 0 <= i < |popped| ==> stack[i] == popped[i];
    next := Some(node);
    assert 0 <= j < |stack0| && stack0[j] == node && forall i :: j < i < |stack0| ==> visited0[stack0[i]];
  }

  /** The popping loop of `Dfs::next`: drop marked nodes from the top of the stack. */
  method PopMarked(visited: seq<bool>, stack0: seq<nat>) returns (stack: seq<nat>)
    requires forall i :: 0 <= i < |stack0| ==> stack0[i] < |visited|
    ensures |stack| <= |stack0| && stack == stack0[..|stack|]
    ensures forall i :: |stack| <= i < |stack0| ==> visited[stack0[i]]
    ensures stack != [] ==> !visited[stack[|stack| - 1]]
    ensures stack == Popped(visited, stack0)
  {
    stack := stack0;
    while stack != [] && visited[stack[|stack| - 1]]
      invariant |stack| <= |stack0| && stack == stack0[..|stack|]
      invariant forall i :: |stack| <= i < |stack0| ==> visited[stack0[i]]
      invariant Popped(visited, stack) == Popped(visited, stack0)
    {
      stack := stack[..|stack| - 1];
    }
  }

  /** The neighbour loop of `Dfs::next`: push every neighbour not marked yet. */
  method PushUnseen(nbrs: seq<nat>, visited: seq<bool>, stack0: seq<nat>) returns (stack: seq<nat>)
    requires forall i :: 0 <= i < |nbrs| ==> nbrs[i] < |visited|
    ensures stack == stack0 + Unseen(nbrs, visited)
  {
    stack := stack0;
    for k := 0 to |nbrs|
      invariant stack == stack0 + Unseen(nbrs[..k], visited)
    {
      UnseenStep(nbrs, k, visited);
      if !visited[nbrs[k]] {
        stack := stack + [nbrs[k]];
      }
    }
    assert nbrs[..|nbrs|] == nbrs;
  }

  /** The body of the loop of src/bed.rs:31-35: a node still undiscovered starts a search. */
  method SearchFrom<P>(g: Graph<P>, x: nat, low: array<nat>, disc: array<nat>, parent: array<Option<nat>>,
                       time0: nat, bridges0: set<(nat, nat)>) returns (time: nat, bridges: set<(nat, nat)>)
    requires g.Valid() && x < g.N() && low != disc
    requires Consistent(g, low[..], disc[..], parent[..], time0) && AreEdges(g, bridges0)
    requires ClosedUpTo(g, disc[..], [])
    modifies low, disc, parent
    ensures Consistent(g, low[..], disc[..], parent[..], time) && AreEdges(g, bridges)
    ensures ClosedUpTo(g, disc[..], [])
    ensures Search(low[..], disc[..], parent[..], time, bridges, [])
      == if old(disc[x]) == 0 then Run(g, Search(old(low[..]), old(disc[..]), old(parent[..]), time0, bridges0, [Enter(x)]))
         else Search(old(low[..]), old(disc[..]), old(parent[..]), time0, bridges0, [])
  {
    time, bridges := time0, bridges0;
    if disc[x] == 0 {
      time, bridges := BridgeDfs(g, x, low, disc, parent, time, bridges);
    }
  }

  /** find_bridge_edges (src/bed.rs:13-39): an empty graph has no bridges; otherwise petgraph's
      depth-first iterator walks from node 0 and every node it hands out that has no discovery
      time yet starts a search. Every pair reported is an edge of the graph. */
  method FindBridgeEdges<P>(g: Graph<P>) returns (bridges: set<(nat, nat)>)
    requires g.Valid()
    ensures g.N() == 0 ==> bridges == {}
    ensures AreEdges(g, bridges)
    ensures bridges == BridgeEdges(g)
  {
    bridges := {};
    if g.N() == 0 {
      return;
    }
    var low := new nat[g.N()](_ => 0);
    var disc := new nat[g.N()](_ => 0);
    var parent := new Option<nat>[g.N()](_ => None);
    var node, visited, dfsStack := DfsNext(g, seq(g.N(), _ => false), [0]);
    assert Search(low[..], disc[..], parent[..], 0, bridges, []) == Initial(g);
    bridges := VisitAll(g, node, visited, dfsStack, low, disc, parent, 0, bridges);
  }

  /** The loop of src/bed.rs:31-35, from the node `Dfs` handed out last. */
  method VisitAll<P>(g: Graph<P>, node0: Option<nat>, visited0: seq<bool>, dfsStack0: seq<nat>,
                     low: array<nat>, disc: array<nat>, parent: array<Option<nat>>,
                     time0: nat, bridges0: set<(nat, nat)>) returns (bridges: set<(nat, nat)>)
    requires g.Valid() && low != disc
    requires |visited0| == g.N() && forall i :: 0 <= i < |dfsStack0| ==> dfsStack0[i] < g.N()
    requires node0.Some? ==> node0.value < g.N()
    requires Consistent(g, low[..], disc[..], parent[..], time0) && AreEdges(g, bridges0)
    requires ClosedUpTo(g, disc[..], [])
    modifies low, disc, parent
    ensures AreEdges(g, bridges)
    ensures bridges == Visit(g, node0, visited0, dfsStack0, Search(old(low[..]), old(disc[..]), old(parent[..]), time0, bridges0, [])).bridges
  {
    var node: Option<nat>, visited: seq<bool>, dfsStack: seq<nat>, time: nat := node0, visited0, dfsStack0, time0;
    bridges := bridges0;
    ghost var result := Visit(g, node0, visited0, dfsStack0, Search(low[..], disc[..], parent[..], time0, bridges0, [])).bridges;
    while node.Some?
      invariant |visited| == g.N() && forall i :: 0 <= i < |dfsStack| ==> dfsStack[i] < g.N()
      invariant node.Some? ==> node.value < g.N()
      invariant Consistent(g, low[..], disc[..], parent[..], time) && AreEdges(g, bridges)
      invariant ClosedUpTo(g, disc[..], [])
      invariant Visit(g, node, visited, dfsStack, Search(low[..], disc[..], parent[..], time, bridges, [])).bridges == result
      decreases Unmarked(visited) + (if node.Some? then 1 else 0)
    {
      ghost var s := Search(low[..], disc[..], parent[..], time, bridges, []);
      time, bridges := SearchFrom(g, node.value, low, disc, parent, time, bridges);
      VisitSome(g, node.value, visited, dfsStack, s, Search(low[..], disc[..], parent[..], time, bridges, []));
      node, visited, dfsStack := DfsNext(g, visited, dfsStack);
    }
  }

  // ---------------------------------------------------------------------------
  // graphs that are not connected
  // ---------------------------------------------------------------------------

  /** The graph with its edge at index `i` removed. */
  function Without<P>(g: Graph<P>, i: nat): (h: Graph<P>)
    requires i < |g.edges|
    ensures h.nodes == g.nodes && |h.edges| == |g.edges| - 1
  {
    Graph(g.nodes, g.edges[..i] + g.edges[i + 1..])
  }

  /** Some walk leads from `a` to `b`. */
  ghost predicate Connected<P>(g: Graph<P>, a: nat, b: nat) {
    exists path: seq<nat> :: |path| > 0 && path[0] == a && path[|path| - 1] == b && Walk(g, path)
  }

  /** A bridge as src/bed.rs:9-12 defines it: an edge between `a` and `b` whose removal leaves
      no walk from `a` to `b`, so that the number of components grows. */
  ghost predicate IsBridge<P>(g: Graph<P>, a: nat, b: nat) {
    exists i :: 0 <= i < |g.edges|
      && ((g.edges[i].u == a && g.edges[i].v == b) || (g.edges[i].u == b && g.edges[i].v == a))
      && !Connected(Without(g, i), a, b)
  }

  /** Three nodes and the single edge 1-2: node 0 is a component of its own. */
  function Disconnected(): Graph<(real, real)> {
    Graph([(0.0, 0.0), (0.0, 0.0), (0.0, 0.0)], [Edge(1, 2, 1.0)])
  }

  lemma DisconnectedNeighbors()
    ensures Disconnected().Valid() && Disconnected().N() == 3
    ensures Neighbors(Disconnected(), 0) == []
    ensures Neighbors(Disconnected(), 1) == [2]
    ensures Neighbors(Disconnected(), 2) == [1]
  {
    AdjSnoc([], Edge(1, 2, 1.0));
    assert [] + [Edge(1, 2, 1.0)] == Disconnected().edges;
  }

  /** In a graph without edges no walk takes a step. */
  lemma EdgelessWalk<P>(h: Graph<P>, path: seq<nat>)
    requires h.edges == []
    ensures |path| > 1 ==> !Walk(h, path)
  {
    if |path| > 1 {
      assert Neighbors(h, path[0]) == [];
      assert path[1] !in Neighbors(h, path[0]);
    }
  }

  /** The edge 1-2 of `Disconnected()` is a bridge: without it no node has a neighbour. */
  lemma DisconnectedBridge()
    ensures IsBridge(Disconnected(), 1, 2)
  {
    var h := Without(Disconnected(), 0);
    assert h.edges == [];
    forall path: seq<nat>
      ensures !(|path| > 0 && path[0] == 1 && path[|path| - 1] == 2 && Walk(h, path))
    {
      EdgelessWalk(h, path);
    }
  }

  /** Scanning a walk of one neighbour. */
  lemma Walk1(a: nat, disc: seq<nat>, parentU: Option<nat>, low: nat)
    ensures Fresh([a], disc) == Pushed(a, disc)
    ensures LowScan([a], disc, parentU, low) == Lowered(low, a, disc, parentU)
  {
    assert [a][..0] == [];
  }

  lemma DisconnectedStep0<P>(g: Graph<P>)
    requires Neighbors(g, 0) == []
    ensures Step(g, Search([0, 0, 0], [0, 0, 0], [None, None, None], 0, {}, [Enter(0)]))
      == Search([1, 0, 0], [1, 0, 0], [None, None, None], 1, {}, [Exit(0)])
  {
    assert Fresh([], [1, 0, 0]) == [];
    EnterIs(g, Search([0, 0, 0], [0, 0, 0], [None, None, None], 0, {}, [Enter(0)]), 0, [],
            [], [1, 0, 0], 1, [], [None, None, None], [Exit(0)]);
  }

  lemma DisconnectedStep1<P>(g: Graph<P>)
    ensures Step(g, Search([1, 0, 0], [1, 0, 0], [None, None, None], 1, {}, [Exit(0)]))
      == Search([1, 0, 0], [1, 0, 0], [None, None, None], 1, {}, [])
  {
  }

  /** The search from node 0 of `Disconnected()`: node 0 has no neighbour, so the search
      discovers it alone. */
  lemma DisconnectedFirstRun<P>(g: Graph<P>)
    requires g.Valid() && g.N() == 3 && Neighbors(g, 0) == []
    ensures Run(g, Initial(g).(stack := [Enter(0)]))
      == Search([1, 0, 0], [1, 0, 0], [None, None, None], 1, {}, [])
  {
    assert Initial(g).(stack := [Enter(0)]) == Search([0, 0, 0], [0, 0, 0], [None, None, None], 0, {}, [Enter(0)]);
    DisconnectedStep0(g);
    RunStep(g, Search([0, 0, 0], [0, 0, 0], [None, None, None], 0, {}, [Enter(0)]),
            Search([1, 0, 0], [1, 0, 0], [None, None, None], 1, {}, [Exit(0)]));
    DisconnectedStep1(g);
    RunStep(g, Search([1, 0, 0], [1, 0, 0], [None, None, None], 1, {}, [Exit(0)]),
            Search([1, 0, 0], [1, 0, 0], [None, None, None], 1, {}, []));
  }

  /** petgraph's `Dfs` on `Disconnected()` from node 0 hands out node 0 and then runs dry. */
  lemma DisconnectedDfs()
    ensures Next(Disconnected(), seq(3, _ => false), [0]) == DfsState(Some(0), [true, false, false], [])
    ensures Next(Disconnected(), [true, false, false], []) == DfsState(None, [true, false, false], [])
  {
    DisconnectedNeighbors();
    assert seq(3, _ => false) == [false, false, false];
    assert Popped([false, false, false], [0]) == [0];
    assert Unseen([], [true, false, false]) == [];
  }

  /** find_bridge_edges as written on `Disconnected()`: petgraph's `Dfs` from node 0 never
      hands out nodes 1 and 2, so the bridge 1-2 goes unreported. */
  lemma MissedBridge()
    ensures IsBridge(Disconnected(), 1, 2) && (1, 2) !in BridgeEdges(Disconnected())
    ensures BridgeEdges(Disconnected()) == {}
  {
    DisconnectedBridge();
    DisconnectedNeighbors();
    DisconnectedFirstRun(Disconnected());
    DisconnectedDfs();
    VisitSome(Disconnected(), 0, [true, false, false], [], Initial(Disconnected()),
              Search([1, 0, 0], [1, 0, 0], [None, None, None], 1, {}, []));
  }

  /** The intended find_bridge_edges: a search from every node still undiscovered, in index
      order, from node `v` on. */
  function SearchAll<P>(g: Graph<P>, v: nat, s: Search): (r: Search)
    requires g.Valid() && Inv(g, s) && s.stack == [] && v <= g.N()
    ensures Inv(g, r) && r.stack == []
    decreases g.N() - v
  {
    if v == g.N() then s
    else SearchAll(g, v + 1, if s.disc[v] == 0 then Run(g, s.(stack := [Enter(v)])) else s)
  }

  /** The bridges the intended find_bridge_edges reports. */
  function AllBridgeEdges<P>(g: Graph<P>): set<(nat, nat)>
    requires g.Valid()
  {
    SearchAll(g, 0, Initial(g)).bridges
  }

  /** A search forgets no discovered node. */
  lemma {:induction false} RunKeeps<P>(g: Graph<P>, s: Search, w: nat)
    requires g.Valid() && Inv(g, s) && w < |s.disc| && s.disc[w] > 0
    ensures w < |Run(g, s).disc| && Run(g, s).disc[w] > 0
    decreases Undiscovered(s.disc), Weight(s.stack, s.disc, Bound(g))
  {
    if s.stack != [] {
      StepKeeps(g, s);
      var s' := Step(g, s);
      assert w < |s'.disc| && s'.disc[w] > 0;
      RunKeeps(g, s', w);
    }
  }

  /** A search from `x` discovers `x`. */
  lemma RunDiscovers<P>(g: Graph<P>, s: Search, x: nat)
    requires g.Valid() && Inv(g, s) && s.stack == [Enter(x)]
    ensures x < |Run(g, s).disc| && Run(g, s).disc[x] > 0
  {
    StepKeeps(g, s);
    assert s.stack[..0] == [];
    RunKeeps(g, Step(g, s), x);
  }

  /** Every node from `v` on ends up discovered, and so does every node discovered before. */
  lemma {:induction false} SearchAllCovers<P>(g: Graph<P>, v: nat, s: Search)
    requires g.Valid() && Inv(g, s) && s.stack == [] && v <= g.N()
    requires forall w :: 0 <= w < v ==> s.disc[w] > 0
    ensures forall w :: 0 <= w < g.N() ==> SearchAll(g, v, s).disc[w] > 0
    decreases g.N() - v
  {
    if v < g.N() {
      var s' := if s.disc[v] == 0 then Run(g, s.(stack := [Enter(v)])) else s;
      forall w | 0 <= w < v + 1
        ensures s'.disc[w] > 0
      {
        if s.disc[v] == 0 {
          if w == v {
            RunDiscovers(g, s.(stack := [Enter(v)]), v);
          } else {
            RunKeeps(g, s.(stack := [Enter(v)]), w);
          }
        }
      }
      SearchAllCovers(g, v + 1, s');
    }
  }

  /** The intended find_bridge_edges searches every component: every node is discovered. */
  lemma AllSearched<P>(g: Graph<P>)
    requires g.Valid()
    ensures forall w :: 0 <= w < g.N() ==> SearchAll(g, 0, Initial(g)).disc[w] > 0
  {
    SearchAllCovers(g, 0, Initial(g));
  }

  lemma DisconnectedStep2<P>(g: Graph<P>)
    requires Neighbors(g, 1) == [2]
    ensures Step(g, Search([1, 0, 0], [1, 0, 0], [None, None, None], 1, {}, [Enter(1)]))
      == Search([1, 2, 0], [1, 2, 0], [None, None, Some(1)], 2, {}, [Exit(1), Enter(2)])
  {
    Walk1(2, [1, 2, 0], None, 2);
    Adopt([None, None, None], [2], 1, [None, None, Some(1)]);
    EnterIs(g, Search([1, 0, 0], [1, 0, 0], [None, None, None], 1, {}, [Enter(1)]), 1, [],
            [2], [1, 2, 0], 2, [2], [None, None, Some(1)], [Exit(1), Enter(2)]);
  }

  lemma DisconnectedStep3<P>(g: Graph<P>)
    requires Neighbors(g, 2) == [1]
    ensures Step(g, Search([1, 2, 0], [1, 2, 0], [None, None, Some(1)], 2, {}, [Exit(1), Enter(2)]))
      == Search([1, 2, 3], [1, 2, 3], [None, None, Some(1)], 3, {}, [Exit(1), Exit(2)])
  {
    Walk1(1, [1, 2, 3], Some(1), 3);
    Adopt([None, None, Some(1)], [], 2, [None, None, Some(1)]);
    EnterIs(g, Search([1, 2, 0], [1, 2, 0], [None, None, Some(1)], 2, {}, [Exit(1), Enter(2)]), 2, [Exit(1)],
            [1], [1, 2, 3], 3, [], [None, None, Some(1)], [Exit(1), Exit(2)]);
  }

  lemma DisconnectedStep4<P>(g: Graph<P>)
    ensures Step(g, Search([1, 2, 3], [1, 2, 3], [None, None, Some(1)], 3, {}, [Exit(1), Exit(2)]))
      == Search([1, 2, 3], [1, 2, 3], [None, None, Some(1)], 3, {(1, 2)}, [Exit(1)])
  {
  }

  lemma DisconnectedStep5<P>(g: Graph<P>)
    ensures Step(g, Search([1, 2, 3], [1, 2, 3], [None, None, Some(1)], 3, {(1, 2)}, [Exit(1)]))
      == Search([1, 2, 3], [1, 2, 3], [None, None, Some(1)], 3, {(1, 2)}, [])
  {
  }

  /** The search from node 1 of `Disconnected()` reports 1-2. */
  lemma DisconnectedSecondRun<P>(g: Graph<P>)
    requires g.Valid() && g.N() == 3 && Neighbors(g, 1) == [2] && Neighbors(g, 2) == [1]
    requires Inv(g, Search([1, 0, 0], [1, 0, 0], [None, None, None], 1, {}, []))
    ensures Run(g, Search([1, 0, 0], [1, 0, 0], [None, None, None], 1, {}, [Enter(1)]))
      == Search([1, 2, 3], [1, 2, 3], [None, None, Some(1)], 3, {(1, 2)}, [])
  {
    assert Inv(g, Search([1, 0, 0], [1, 0, 0], [None, None, None], 1, {}, [Enter(1)]));
    DisconnectedStep2(g);
    RunStep(g, Search([1, 0, 0], [1, 0, 0], [None, None, None], 1, {}, [Enter(1)]),
            Search([1, 2, 0], [1, 2, 0], [None, None, Some(1)], 2, {}, [Exit(1), Enter(2)]));
    DisconnectedStep3(g);
    RunStep(g, Search([1, 2, 0], [1, 2, 0], [None, None, Some(1)], 2, {}, [Exit(1), Enter(2)]),
            Search([1, 2, 3], [1, 2, 3], [None, None, Some(1)], 3, {}, [Exit(1), Exit(2)]));
    DisconnectedStep4(g);
    RunStep(g, Search([1, 2, 3], [1, 2, 3], [None, None, Some(1)], 3, {}, [Exit(1), Exit(2)]),
            Search([1, 2, 3], [1, 2, 3], [None, None, Some(1)], 3, {(1, 2)}, [Exit(1)]));
    DisconnectedStep5(g);
    RunStep(g, Search([1, 2, 3], [1, 2, 3], [None, None, Some(1)], 3, {(1, 2)}, [Exit(1)]),
            Search([1, 2, 3], [1, 2, 3], [None, None, Some(1)], 3, {(1, 2)}, []));
  }

  /** The intended find_bridge_edges on `Disconnected()` reports its bridge 1-2. */
  lemma FoundBridge()
    ensures AllBridgeEdges(Disconnected()) == {(1, 2)}
  {
    var g := Disconnected();
    DisconnectedNeighbors();
    DisconnectedFirstRun(g);
    var s1 := Search([1, 0, 0], [1, 0, 0], [None, None, None], 1, {}, []);
    var s2 := Search([1, 2, 3], [1, 2, 3], [None, None, Some(1)], 3, {(1, 2)}, []);
    assert Inv(g, s1);
    DisconnectedSecondRun(g);
    assert SearchAll(g, 0, Initial(g)) == SearchAll(g, 1, s1);
    assert s1.(stack := [Enter(1)]) == Search([1, 0, 0], [1, 0, 0], [None, None, None], 1, {}, [Enter(1)]);
    assert SearchAll(g, 1, s1) == SearchAll(g, 2, s2);
    assert SearchAll(g, 2, s2) == SearchAll(g, 3, s2);
  }

  /** find_bridge_edges with a search from every node still undiscovered, in index order,
      in place of petgraph's `Dfs` from node 0. */
  method FindAllBridgeEdges<P>(g: Graph<P>) returns (bridges: set<(nat, nat)>)
    requires g.Valid()
    ensures AreEdges(g, bridges)
    ensures bridges == AllBridgeEdges(g)
  {
    bridges := {};
    var low := new nat[g.N()](_ => 0);
    var disc := new nat[g.N()](_ => 0);
    var parent := new Option<nat>[g.N()](_ => None);
    var time: nat := 0;
    assert Search(low[..], disc[..], parent[..], time, bridges, []) == Initial(g);
    for x := 0 to g.N()
      invariant Consistent(g, low[..], disc[..], parent[..], time) && AreEdges(g, bridges)
      invariant ClosedUpTo(g, disc[..], [])
      invariant SearchAll(g, x, Search(low[..], disc[..], parent[..], time, bridges, [])) == SearchAll(g, 0, Initial(g))
    {
      time, bridges := SearchFrom(g, x, low, disc, parent, time, bridges);
    }
  }

  // ---------------------------------------------------------------------------
  // the source tests
  // ---------------------------------------------------------------------------

  /** A pop that leads to `s'` leaves the rest of the search to `s'`. */
  lemma RunStep<P>(g: Graph<P>, s: Search, s': Search)
    requires g.Valid() && Inv(g, s) && s.stack != [] && Step(g, s) == s'
    ensures Inv(g, s') && Run(g, s) == Run(g, s')
  {
    StepKeeps(g, s);
  }

  /** Once every node is discovered, no node `Dfs` hands out starts another search. */
  lemma {:induction false} VisitDone<P>(g: Graph<P>, node: Option<nat>, visited: seq<bool>, dfsStack: seq<nat>, s: Search)
    requires g.Valid() && Inv(g, s) && s.stack == []
    requires |visited| == g.N() && forall i :: 0 <= i < |dfsStack| ==> dfsStack[i] < g.N()
    requires node.Some? ==> node.value < g.N()
    requires forall v :: 0 <= v < g.N() ==> s.disc[v] > 0
    ensures Visit(g, node, visited, dfsStack, s) == s
    decreases Unmarked(visited) + (if node.Some? then 1 else 0)
  {
    if node.Some? {
      var n := Next(g, visited, dfsStack);
      VisitDone(g, n.next, n.visited, n.stack, s);
    }
  }

  /** On a graph whose search from node 0 discovers every node, find_bridge_edges reports what
      that one search reports. */
  lemma OneSearch<P>(g: Graph<P>, s: Search)
    requires g.Valid() && g.N() > 0
    requires s == Run(g, Initial(g).(stack := [Enter(0)]))
    requires forall v :: 0 <= v < g.N() ==> s.disc[v] > 0
    ensures BridgeEdges(g) == s.bridges
  {
    var n := Next(g, seq(g.N(), _ => false), [0]);
    assert Popped(seq(g.N(), _ => false), [0]) == [0];
    VisitDone(g, Next(g, n.visited, n.stack).next, Next(g, n.visited, n.stack).visited, Next(g, n.visited, n.stack).stack, s);
  }

  /** Entering `u`, given each part of the new state. */
  lemma EnterIs<P>(g: Graph<P>, s: Search, u: nat, rest: seq<State>, nbrs: seq<nat>, d: seq<nat>, lowU: nat,
                   pushed: seq<nat>, parent: seq<Option<nat>>, stack: seq<State>)
    requires s.stack == rest + [Enter(u)] && Fits(s, u)
    requires Neighbors(g, u) == nbrs && d == s.disc[u := s.time + 1]
    requires LowScan(nbrs, d, s.parent[u], s.time + 1) == lowU && Fresh(nbrs, d) == pushed
    requires SetParents(s.parent, pushed, u) == parent && rest + [Exit(u)] + Enters(pushed) == stack
    ensures Step(g, s) == Search(s.low[u := lowU], d, parent, s.time + 1, s.bridges, stack)
  {
    assert s.stack[..|s.stack| - 1] == rest;
  }

  /** Scanning a walk of two neighbours. */
  lemma Walk2(a: nat, b: nat, disc: seq<nat>, parentU: Option<nat>, low: nat)
    ensures Fresh([a, b], disc) == Pushed(a, disc) + Pushed(b, disc)
    ensures LowScan([a, b], disc, parentU, low) == Lowered(Lowered(low, a, disc, parentU), b, disc, parentU)
  {
    assert [a, b][..1] == [a];
    assert [a][..0] == [];
    assert LowScan([a], disc, parentU, low) == Lowered(low, a, disc, parentU);
    assert Fresh([a], disc) == Pushed(a, disc);
  }

  /** Scanning a walk of three neighbours. */
  lemma Walk3(a: nat, b: nat, c: nat, disc: seq<nat>, parentU: Option<nat>, low: nat)
    ensures Fresh([a, b, c], disc) == Pushed(a, disc) + Pushed(b, disc) + Pushed(c, disc)
    ensures LowScan([a, b, c], disc, parentU, low)
      == Lowered(Lowered(Lowered(low, a, disc, parentU), b, disc, parentU), c, disc, parentU)
  {
    assert [a, b, c][..2] == [a, b];
    Walk2(a, b, disc, parentU, low);
  }

  /** The parents after adoption, given entry by entry. */
  lemma Adopt(parent: seq<Option<nat>>, ws: seq<nat>, u: nat, r: seq<Option<nat>>)
    requires |r| == |parent| && forall v :: 0 <= v < |r| ==> r[v] == (if v in ws then Some(u) else parent[v])
    ensures SetParents(parent, ws, u) == r
  {
  }

  /** The triangle of the source tests. */
  function Triangle(): Graph<(real, real)> {
    Graph([(0.0, 0.0), (0.0, 0.0), (0.0, 0.0)],
          [Edge(0, 1, 1.0), Edge(1, 2, 1.0), Edge(2, 0, 1.0)])
  }

  lemma TriangleIncident()
    ensures Incident(Triangle(), 0) == [Adj(1, 1.0), Adj(2, 1.0)]
    ensures Incident(Triangle(), 1) == [Adj(2, 1.0), Adj(0, 1.0)]
    ensures Incident(Triangle(), 2) == [Adj(0, 1.0), Adj(1, 1.0)]
  {
    var e0, e1, e2 := Edge(0, 1, 1.0), Edge(1, 2, 1.0), Edge(2, 0, 1.0);
    AdjSnoc([], e0);
    assert [] + [e0] == [e0];
    AdjSnoc([e0], e1);
    assert [e0] + [e1] == [e0, e1];
    AdjSnoc([e0, e1], e2);
    assert [e0, e1] + [e2] == Triangle().edges;
  }

  lemma TriangleNeighbors()
    ensures Triangle().Valid() && Triangle().N() == 3
    ensures Neighbors(Triangle(), 0) == [1, 2]
    ensures Neighbors(Triangle(), 1) == [2, 0]
    ensures Neighbors(Triangle(), 2) == [0, 1]
  {
    TriangleIncident();
  }

  /** The search of the triangle from node 0: node 1 is pushed twice and entered twice, and
      nothing is reported. */
  lemma TriangleRun<P>(g: Graph<P>)
    requires g.Valid() && g.N() == 3
    requires Neighbors(g, 0) == [1, 2]
    requires Neighbors(g, 1) == [2, 0]
    requires Neighbors(g, 2) == [0, 1]
    ensures Run(g, Initial(g).(stack := [Enter(0)]))
      == Search([1, 1, 1], [1, 4, 2], [None, Some(2), Some(0)], 4, {}, [])
  {
    assert Initial(g).(stack := [Enter(0)]) == Search([0, 0, 0], [0, 0, 0], [None, None, None], 0, {}, [Enter(0)]);
    TriangleStep0(g);
    RunStep(g, Search([0, 0, 0], [0, 0, 0], [None, None, None], 0, {}, [Enter(0)]),
            Search([1, 0, 0], [1, 0, 0], [None, Some(0), Some(0)], 1, {}, [Exit(0), Enter(1), Enter(2)]));
    TriangleStep1(g);
    RunStep(g, Search([1, 0, 0], [1, 0, 0], [None, Some(0), Some(0)], 1, {}, [Exit(0), Enter(1), Enter(2)]),
            Search([1, 0, 2], [1, 0, 2], [None, Some(2), Some(0)], 2, {}, [Exit(0), Enter(1), Exit(2), Enter(1)]));
    TriangleStep2(g);
    RunStep(g, Search([1, 0, 2], [1, 0, 2], [None, Some(2), Some(0)], 2, {}, [Exit(0), Enter(1), Exit(2), Enter(1)]),
            Search([1, 1, 2], [1, 3, 2], [None, Some(2), Some(0)], 3, {}, [Exit(0), Enter(1), Exit(2), Exit(1)]));
    TriangleStep3(g);
    RunStep(g, Search([1, 1, 2], [1, 3, 2], [None, Some(2), Some(0)], 3, {}, [Exit(0), Enter(1), Exit(2), Exit(1)]),
            Search([1, 1, 1], [1, 3, 2], [None, Some(2), Some(0)], 3, {}, [Exit(0), Enter(1), Exit(2)]));
    TriangleStep4(g);
    RunStep(g, Search([1, 1, 1], [1, 3, 2], [None, Some(2), Some(0)], 3, {}, [Exit(0), Enter(1), Exit(2)]),
            Search([1, 1, 1], [1, 3, 2], [None, Some(2), Some(0)], 3, {}, [Exit(0), Enter(1)]));
    TriangleStep5(g);
    RunStep(g, Search([1, 1, 1], [1, 3, 2], [None, Some(2), Some(0)], 3, {}, [Exit(0), Enter(1)]),
            Search([1, 1, 1], [1, 4, 2], [None, Some(2), Some(0)], 4, {}, [Exit(0), Exit(1)]));
    TriangleStep6(g);
    RunStep(g, Search([1, 1, 1], [1, 4, 2], [None, Some(2), Some(0)], 4, {}, [Exit(0), Exit(1)]),
            Search([1, 1, 1], [1, 4, 2], [None, Some(2), Some(0)], 4, {}, [Exit(0)]));
    TriangleStep7(g);
    RunStep(g, Search([1, 1, 1], [1, 4, 2], [None, Some(2), Some(0)], 4, {}, [Exit(0)]),
            Search([1, 1, 1], [1, 4, 2], [None, Some(2), Some(0)], 4, {}, []));
  }

  lemma TriangleStep0<P>(g: Graph<P>)
    requires Neighbors(g, 0) == [1, 2]
    ensures Step(g, Search([0, 0, 0], [0, 0, 0], [None, None, None], 0, {}, [Enter(0)]))
      == Search([1, 0, 0], [1, 0, 0], [None, Some(0), Some(0)], 1, {}, [Exit(0), Enter(1), Enter(2)])
  {
    Walk2(1, 2, [1, 0, 0], None, 1);
    Adopt([None, None, None], [1, 2], 0, [None, Some(0), Some(0)]);
    EnterIs(g, Search([0, 0, 0], [0, 0, 0], [None, None, None], 0, {}, [Enter(0)]), 0, [],
            [1, 2], [1, 0, 0], 1, [1, 2], [None, Some(0), Some(0)], [Exit(0), Enter(1), Enter(2)]);
  }

  lemma TriangleStep1<P>(g: Graph<P>)
    requires Neighbors(g, 2) == [0, 1]
    ensures Step(g, Search([1, 0, 0], [1, 0, 0], [None, Some(0), Some(0)], 1, {}, [Exit(0), Enter(1), Enter(2)]))
      == Search([1, 0, 2], [1, 0, 2], [None, Some(2), Some(0)], 2, {}, [Exit(0), Enter(1), Exit(2), Enter(1)])
  {
    Walk2(0, 1, [1, 0, 2], Some(0), 2);
    Adopt([None, Some(0), Some(0)], [1], 2, [None, Some(2), Some(0)]);
    EnterIs(g, Search([1, 0, 0], [1, 0, 0], [None, Some(0), Some(0)], 1, {}, [Exit(0), Enter(1), Enter(2)]), 2, [Exit(0), Enter(1)],
            [0, 1], [1, 0, 2], 2, [1], [None, Some(2), Some(0)], [Exit(0), Enter(1), Exit(2), Enter(1)]);
  }

  lemma TriangleStep2<P>(g: Graph<P>)
    requires Neighbors(g, 1) == [2, 0]
    ensures Step(g, Search([1, 0, 2], [1, 0, 2], [None, Some(2), Some(0)], 2, {}, [Exit(0), Enter(1), Exit(2), Enter(1)]))
      == Search([1, 1, 2], [1, 3, 2], [None, Some(2), Some(0)], 3, {}, [Exit(0), Enter(1), Exit(2), Exit(1)])
  {
    Walk2(2, 0, [1, 3, 2], Some(2), 3);
    Adopt([None, Some(2), Some(0)], [], 1, [None, Some(2), Some(0)]);
    EnterIs(g, Search([1, 0, 2], [1, 0, 2], [None, Some(2), Some(0)], 2, {}, [Exit(0), Enter(1), Exit(2), Enter(1)]), 1, [Exit(0), Enter(1), Exit(2)],
            [2, 0], [1, 3, 2], 1, [], [None, Some(2), Some(0)], [Exit(0), Enter(1), Exit(2), Exit(1)]);
  }

  lemma TriangleStep3<P>(g: Graph<P>)
    ensures Step(g, Search([1, 1, 2], [1, 3, 2], [None, Some(2), Some(0)], 3, {}, [Exit(0), Enter(1), Exit(2), Exit(1)]))
      == Search([1, 1, 1], [1, 3, 2], [None, Some(2), Some(0)], 3, {}, [Exit(0), Enter(1), Exit(2)])
  {
  }

  lemma TriangleStep4<P>(g: Graph<P>)
    ensures Step(g, Search([1, 1, 1], [1, 3, 2], [None, Some(2), Some(0)], 3, {}, [Exit(0), Enter(1), Exit(2)]))
      == Search([1, 1, 1], [1, 3, 2], [None, Some(2), Some(0)], 3, {}, [Exit(0), Enter(1)])
  {
  }

  lemma TriangleStep5<P>(g: Graph<P>)
    requires Neighbors(g, 1) == [2, 0]
    ensures Step(g, Search([1, 1, 1], [1, 3, 2], [None, Some(2), Some(0)], 3, {}, [Exit(0), Enter(1)]))
      == Search([1, 1, 1], [1, 4, 2], [None, Some(2), Some(0)], 4, {}, [Exit(0), Exit(1)])
  {
    Walk2(2, 0, [1, 4, 2], Some(2), 4);
    Adopt([None, Some(2), Some(0)], [], 1, [None, Some(2), Some(0)]);
    EnterIs(g, Search([1, 1, 1], [1, 3, 2], [None, Some(2), Some(0)], 3, {}, [Exit(0), Enter(1)]), 1, [Exit(0)],
            [2, 0], [1, 4, 2], 1, [], [None, Some(2), Some(0)], [Exit(0), Exit(1)]);
  }

  lemma TriangleStep6<P>(g: Graph<P>)
    ensures Step(g, Search([1, 1, 1], [1, 4, 2], [None, Some(2), Some(0)], 4, {}, [Exit(0), Exit(1)]))
      == Search([1, 1, 1], [1, 4, 2], [None, Some(2), Some(0)], 4, {}, [Exit(0)])
  {
  }

  lemma TriangleStep7<P>(g: Graph<P>)
    ensures Step(g, Search([1, 1, 1], [1, 4, 2], [None, Some(2), Some(0)], 4, {}, [Exit(0)]))
      == Search([1, 1, 1], [1, 4, 2], [None, Some(2), Some(0)], 4, {}, [])
  {
  }

  /** The source test on the triangle (src/bed.rs:140-151): no bridges. */
  lemma TriangleBridges()
    ensures BridgeEdges(Triangle()) == {}
  {
    var s := Search([1, 1, 1], [1, 4, 2], [None, Some(2), Some(0)], 4, {}, []);
    assert forall v :: 0 <= v < 3 ==> s.disc[v] > 0;
    var g := Triangle();
    TriangleNeighbors();
    TriangleRun(g);
    OneSearch(g, s);
  }

  /** The graph of the source tests: triangles 0-1-2 and 3-4-5 joined by the edge 1-3. */
  function TwoTriangles(): Graph<(real, real)> {
    Graph([(0.0, 0.0), (0.0, 0.0), (0.0, 0.0), (0.0, 0.0), (0.0, 0.0), (0.0, 0.0)],
          [Edge(0, 1, 1.0), Edge(1, 2, 1.0), Edge(2, 0, 1.0), Edge(1, 3, 1.0), Edge(3, 4, 1.0), Edge(4, 5, 1.0), Edge(5, 3, 1.0)])
  }

  lemma TwoTrianglesIncident()
    ensures Incident(TwoTriangles(), 0) == [Adj(1, 1.0), Adj(2, 1.0)]
    ensures Incident(TwoTriangles(), 1) == [Adj(3, 1.0), Adj(2, 1.0), Adj(0, 1.0)]
    ensures Incident(TwoTriangles(), 2) == [Adj(0, 1.0), Adj(1, 1.0)]
    ensures Incident(TwoTriangles(), 3) == [Adj(4, 1.0), Adj(5, 1.0), Adj(1, 1.0)]
    ensures Incident(TwoTriangles(), 4) == [Adj(5, 1.0), Adj(3, 1.0)]
    ensures Incident(TwoTriangles(), 5) == [Adj(3, 1.0), Adj(4, 1.0)]
  {
    var e0, e1, e2, e3, e4, e5, e6 := Edge(0, 1, 1.0), Edge(1, 2, 1.0), Edge(2, 0, 1.0), Edge(1, 3, 1.0), Edge(3, 4, 1.0), Edge(4, 5, 1.0), Edge(5, 3, 1.0);
    AdjSnoc([], e0);
    assert [] + [e0] == [e0];
    AdjSnoc([e0], e1);
    assert [e0] + [e1] == [e0, e1];
    AdjSnoc([e0, e1], e2);
    assert [e0, e1] + [e2] == [e0, e1, e2];
    AdjSnoc([e0, e1, e2], e3);
    assert [e0, e1, e2] + [e3] == [e0, e1, e2, e3];
    AdjSnoc([e0, e1, e2, e3], e4);
    assert [e0, e1, e2, e3] + [e4] == [e0, e1, e2, e3, e4];
    AdjSnoc([e0, e1, e2, e3, e4], e5);
    assert [e0, e1, e2, e3, e4] + [e5] == [e0, e1, e2, e3, e4, e5];
    AdjSnoc([e0, e1, e2, e3, e4, e5], e6);
    assert [e0, e1, e2, e3, e4, e5] + [e6] == TwoTriangles().edges;
  }

  lemma TwoTrianglesNeighbors()
    ensures TwoTriangles().Valid() && TwoTriangles().N() == 6
    ensures Neighbors(TwoTriangles(), 0) == [1, 2]
    ensures Neighbors(TwoTriangles(), 1) == [3, 2, 0]
    ensures Neighbors(TwoTriangles(), 2) == [0, 1]
    ensures Neighbors(TwoTriangles(), 3) == [4, 5, 1]
    ensures Neighbors(TwoTriangles(), 4) == [5, 3]
    ensures Neighbors(TwoTriangles(), 5) == [3, 4]
  {
    TwoTrianglesIncident();
  }

  /** The search of the two triangles from node 0: nodes 1 and 4 are entered twice, and only
      the edge 1-3 is reported. */
  lemma TwoTrianglesRun<P>(g: Graph<P>)
    requires g.Valid() && g.N() == 6
    requires Neighbors(g, 0) == [1, 2]
    requires Neighbors(g, 1) == [3, 2, 0]
    requires Neighbors(g, 2) == [0, 1]
    requires Neighbors(g, 3) == [4, 5, 1]
    requires Neighbors(g, 4) == [5, 3]
    requires Neighbors(g, 5) == [3, 4]
    ensures Run(g, Initial(g).(stack := [Enter(0)]))
      == Search([1, 1, 1, 4, 4, 4], [1, 8, 2, 4, 7, 5], [None, Some(2), Some(0), Some(1), Some(5), Some(3)], 8, {(1, 3)}, [])
  {
    assert Initial(g).(stack := [Enter(0)]) == Search([0, 0, 0, 0, 0, 0], [0, 0, 0, 0, 0, 0], [None, None, None, None, None, None], 0, {}, [Enter(0)]);
    TwoTrianglesStep0(g);
    RunStep(g, Search([0, 0, 0, 0, 0, 0], [0, 0, 0, 0, 0, 0], [None, None, None, None, None, None], 0, {}, [Enter(0)]),
            Search([1, 0, 0, 0, 0, 0], [1, 0, 0, 0, 0, 0], [None, Some(0), Some(0), None, None, None], 1, {}, [Exit(0), Enter(1), Enter(2)]));
    TwoTrianglesStep1(g);
    RunStep(g, Search([1, 0, 0, 0, 0, 0], [1, 0, 0, 0, 0, 0], [None, Some(0), Some(0), None, None, None], 1, {}, [Exit(0), Enter(1), Enter(2)]),
            Search([1, 0, 2, 0, 0, 0], [1, 0, 2, 0, 0, 0], [None, Some(2), Some(0), None, None, None], 2, {}, [Exit(0), Enter(1), Exit(2), Enter(1)]));
    TwoTrianglesStep2(g);
    RunStep(g, Search([1, 0, 2, 0, 0, 0], [1, 0, 2, 0, 0, 0], [None, Some(2), Some(0), None, None, None], 2, {}, [Exit(0), Enter(1), Exit(2), Enter(1)]),
            Search([1, 1, 2, 0, 0, 0], [1, 3, 2, 0, 0, 0], [None, Some(2), Some(0), Some(1), None, None], 3, {}, [Exit(0), Enter(1), Exit(2), Exit(1), Enter(3)]));
    TwoTrianglesStep3(g);
    RunStep(g, Search([1, 1, 2, 0, 0, 0], [1, 3, 2, 0, 0, 0], [None, Some(2), Some(0), Some(1), None, None], 3, {}, [Exit(0), Enter(1), Exit(2), Exit(1), Enter(3)]),
            Search([1, 1, 2, 4, 0, 0], [1, 3, 2, 4, 0, 0], [None, Some(2), Some(0), Some(1), Some(3), Some(3)], 4, {}, [Exit(0), Enter(1), Exit(2), Exit(1), Exit(3), Enter(4), Enter(5)]));
    TwoTrianglesStep4(g);
    RunStep(g, Search([1, 1, 2, 4, 0, 0], [1, 3, 2, 4, 0, 0], [None, Some(2), Some(0), Some(1), Some(3), Some(3)], 4, {}, [Exit(0), Enter(1), Exit(2), Exit(1), Exit(3), Enter(4), Enter(5)]),
            Search([1, 1, 2, 4, 0, 5], [1, 3, 2, 4, 0, 5], [None, Some(2), Some(0), Some(1), Some(5), Some(3)], 5, {}, [Exit(0), Enter(1), Exit(2), Exit(1), Exit(3), Enter(4), Exit(5), Enter(4)]));
    TwoTrianglesStep5(g);
    RunStep(g, Search([1, 1, 2, 4, 0, 5], [1, 3, 2, 4, 0, 5], [None, Some(2), Some(0), Some(1), Some(5), Some(3)], 5, {}, [Exit(0), Enter(1), Exit(2), Exit(1), Exit(3), Enter(4), Exit(5), Enter(4)]),
            Search([1, 1, 2, 4, 4, 5], [1, 3, 2, 4, 6, 5], [None, Some(2), Some(0), Some(1), Some(5), Some(3)], 6, {}, [Exit(0), Enter(1), Exit(2), Exit(1), Exit(3), Enter(4), Exit(5), Exit(4)]));
    TwoTrianglesStep6(g);
    RunStep(g, Search([1, 1, 2, 4, 4, 5], [1, 3, 2, 4, 6, 5], [None, Some(2), Some(0), Some(1), Some(5), Some(3)], 6, {}, [Exit(0), Enter(1), Exit(2), Exit(1), Exit(3), Enter(4), Exit(5), Exit(4)]),
            Search([1, 1, 2, 4, 4, 4], [1, 3, 2, 4, 6, 5], [None, Some(2), Some(0), Some(1), Some(5), Some(3)], 6, {}, [Exit(0), Enter(1), Exit(2), Exit(1), Exit(3), Enter(4), Exit(5)]));
    TwoTrianglesStep7(g);
    RunStep(g, Search([1, 1, 2, 4, 4, 4], [1, 3, 2, 4, 6, 5], [None, Some(2), Some(0), Some(1), Some(5), Some(3)], 6, {}, [Exit(0), Enter(1), Exit(2), Exit(1), Exit(3), Enter(4), Exit(5)]),
            Search([1, 1, 2, 4, 4, 4], [1, 3, 2, 4, 6, 5], [None, Some(2), Some(0), Some(1), Some(5), Some(3)], 6, {}, [Exit(0), Enter(1), Exit(2), Exit(1), Exit(3), Enter(4)]));
    TwoTrianglesStep8(g);
    RunStep(g, Search([1, 1, 2, 4, 4, 4], [1, 3, 2, 4, 6, 5], [None, Some(2), Some(0), Some(1), Some(5), Some(3)], 6, {}, [Exit(0), Enter(1), Exit(2), Exit(1), Exit(3), Enter(4)]),
            Search([1, 1, 2, 4, 4, 4], [1, 3, 2, 4, 7, 5], [None, Some(2), Some(0), Some(1), Some(5), Some(3)], 7, {}, [Exit(0), Enter(1), Exit(2), Exit(1), Exit(3), Exit(4)]));
    TwoTrianglesStep9(g);
    RunStep(g, Search([1, 1, 2, 4, 4, 4], [1, 3, 2, 4, 7, 5], [None, Some(2), Some(0), Some(1), Some(5), Some(3)], 7, {}, [Exit(0), Enter(1), Exit(2), Exit(1), Exit(3), Exit(4)]),
            Search([1, 1, 2, 4, 4, 4], [1, 3, 2, 4, 7, 5], [None, Some(2), Some(0), Some(1), Some(5), Some(3)], 7, {}, [Exit(0), Enter(1), Exit(2), Exit(1), Exit(3)]));
    TwoTrianglesStep10(g);
    RunStep(g, Search([1, 1, 2, 4, 4, 4], [1, 3, 2, 4, 7, 5], [None, Some(2), Some(0), Some(1), Some(5), Some(3)], 7, {}, [Exit(0), Enter(1), Exit(2), Exit(1), Exit(3)]),
            Search([1, 1, 2, 4, 4, 4], [1, 3, 2, 4, 7, 5], [None, Some(2), Some(0), Some(1), Some(5), Some(3)], 7, {(1, 3)}, [Exit(0), Enter(1), Exit(2), Exit(1)]));
    TwoTrianglesStep11(g);
    RunStep(g, Search([1, 1, 2, 4, 4, 4], [1, 3, 2, 4, 7, 5], [None, Some(2), Some(0), Some(1), Some(5), Some(3)], 7, {(1, 3)}, [Exit(0), Enter(1), Exit(2), Exit(1)]),
            Search([1, 1, 1, 4, 4, 4], [1, 3, 2, 4, 7, 5], [None, Some(2), Some(0), Some(1), Some(5), Some(3)], 7, {(1, 3)}, [Exit(0), Enter(1), Exit(2)]));
    TwoTrianglesStep12(g);
    RunStep(g, Search([1, 1, 1, 4, 4, 4], [1, 3, 2, 4, 7, 5], [None, Some(2), Some(0), Some(1), Some(5), Some(3)], 7, {(1, 3)}, [Exit(0), Enter(1), Exit(2)]),
            Search([1, 1, 1, 4, 4, 4], [1, 3, 2, 4, 7, 5], [None, Some(2), Some(0), Some(1), Some(5), Some(3)], 7, {(1, 3)}, [Exit(0), Enter(1)]));
    TwoTrianglesStep13(g);
    RunStep(g, Search([1, 1, 1, 4, 4, 4], [1, 3, 2, 4, 7, 5], [None, Some(2), Some(0), Some(1), Some(5), Some(3)], 7, {(1, 3)}, [Exit(0), Enter(1)]),
            Search([1, 1, 1, 4, 4, 4], [1, 8, 2, 4, 7, 5], [None, Some(2), Some(0), Some(1), Some(5), Some(3)], 8, {(1, 3)}, [Exit(0), Exit(1)]));
    TwoTrianglesStep14(g);
    RunStep(g, Search([1, 1, 1, 4, 4, 4], [1, 8, 2, 4, 7, 5], [None, Some(2), Some(0), Some(1), Some(5), Some(3)], 8, {(1, 3)}, [Exit(0), Exit(1)]),
            Search([1, 1, 1, 4, 4, 4], [1, 8, 2, 4, 7, 5], [None, Some(2), Some(0), Some(1), Some(5), Some(3)], 8, {(1, 3)}, [Exit(0)]));
    TwoTrianglesStep15(g);
    RunStep(g, Search([1, 1, 1, 4, 4, 4], [1, 8, 2, 4, 7, 5], [None, Some(2), Some(0), Some(1), Some(5), Some(3)], 8, {(1, 3)}, [Exit(0)]),
            Search([1, 1, 1, 4, 4, 4], [1, 8, 2, 4, 7, 5], [None, Some(2), Some(0), Some(1), Some(5), Some(3)], 8, {(1, 3)}, []));
  }

  /** Entering node 0 of the two triangles: both neighbours are pushed with parent 0. */
  lemma TwoTrianglesEnter0()
    ensures Fresh([1, 2], [1, 0, 0, 0, 0, 0]) == [1, 2]
    ensures LowScan([1, 2], [1, 0, 0, 0, 0, 0], None, 1) == 1
    ensures SetParents([None, None, None, None, None, None], [1, 2], 0) == [None, Some(0), Some(0), None, None, None]
  {
    Walk2(1, 2, [1, 0, 0, 0, 0, 0], None, 1);
    Adopt([None, None, None, None, None, None], [1, 2], 0, [None, Some(0), Some(0), None, None, None]);
  }

  lemma TwoTrianglesStep0<P>(g: Graph<P>)
    requires Neighbors(g, 0) == [1, 2]
    ensures Step(g, Search([0, 0, 0, 0, 0, 0], [0, 0, 0, 0, 0, 0], [None, None, None, None, None, None], 0, {}, [Enter(0)]))
      == Search([1, 0, 0, 0, 0, 0], [1, 0, 0, 0, 0, 0], [None, Some(0), Some(0), None, None, None], 1, {}, [Exit(0), Enter(1), Enter(2)])
  {
    TwoTrianglesEnter0();
    EnterIs(g, Search([0, 0, 0, 0, 0, 0], [0, 0, 0, 0, 0, 0], [None, None, None, None, None, None], 0, {}, [Enter(0)]), 0, [],
            [1, 2], [1, 0, 0, 0, 0, 0], 1, [1, 2], [None, Some(0), Some(0), None, None, None], [Exit(0), Enter(1), Enter(2)]);
  }

  lemma TwoTrianglesStep1<P>(g: Graph<P>)
    requires Neighbors(g, 2) == [0, 1]
    ensures Step(g, Search([1, 0, 0, 0, 0, 0], [1, 0, 0, 0, 0, 0], [None, Some(0), Some(0), None, None, None], 1, {}, [Exit(0), Enter(1), Enter(2)]))
      == Search([1, 0, 2, 0, 0, 0], [1, 0, 2, 0, 0, 0], [None, Some(2), Some(0), None, None, None], 2, {}, [Exit(0), Enter(1), Exit(2), Enter(1)])
  {
    Walk2(0, 1, [1, 0, 2, 0, 0, 0], Some(0), 2);
    Adopt([None, Some(0), Some(0), None, None, None], [1], 2, [None, Some(2), Some(0), None, None, None]);
    EnterIs(g, Search([1, 0, 0, 0, 0, 0], [1, 0, 0, 0, 0, 0], [None, Some(0), Some(0), None, None, None], 1, {}, [Exit(0), Enter(1), Enter(2)]), 2, [Exit(0), Enter(1)],
            [0, 1], [1, 0, 2, 0, 0, 0], 2, [1], [None, Some(2), Some(0), None, None, None], [Exit(0), Enter(1), Exit(2), Enter(1)]);
  }

  lemma TwoTrianglesStep2<P>(g: Graph<P>)
    requires Neighbors(g, 1) == [3, 2, 0]
    ensures Step(g, Search([1, 0, 2, 0, 0, 0], [1, 0, 2, 0, 0, 0], [None, Some(2), Some(0), None, None, None], 2, {}, [Exit(0), Enter(1), Exit(2), Enter(1)]))
      == Search([1, 1, 2, 0, 0, 0], [1, 3, 2, 0, 0, 0], [None, Some(2), Some(0), Some(1), None, None], 3, {}, [Exit(0), Enter(1), Exit(2), Exit(1), Enter(3)])
  {
    Walk3(3, 2, 0, [1, 3, 2, 0, 0, 0], Some(2), 3);
    Adopt([None, Some(2), Some(0), None, None, None], [3], 1, [None, Some(2), Some(0), Some(1), None, None]);
    EnterIs(g, Search([1, 0, 2, 0, 0, 0], [1, 0, 2, 0, 0, 0], [None, Some(2), Some(0), None, None, None], 2, {}, [Exit(0), Enter(1), Exit(2), Enter(1)]), 1, [Exit(0), Enter(1), Exit(2)],
            [3, 2, 0], [1, 3, 2, 0, 0, 0], 1, [3], [None, Some(2), Some(0), Some(1), None, None], [Exit(0), Enter(1), Exit(2), Exit(1), Enter(3)]);
  }

  lemma TwoTrianglesStep3<P>(g: Graph<P>)
    requires Neighbors(g, 3) == [4, 5, 1]
    ensures Step(g, Search([1, 1, 2, 0, 0, 0], [1, 3, 2, 0, 0, 0], [None, Some(2), Some(0), Some(1), None, None], 3, {}, [Exit(0), Enter(1), Exit(2), Exit(1), Enter(3)]))
      == Search([1, 1, 2, 4, 0, 0], [1, 3, 2, 4, 0, 0], [None, Some(2), Some(0), Some(1), Some(3), Some(3)], 4, {}, [Exit(0), Enter(1), Exit(2), Exit(1), Exit(3), Enter(4), Enter(5)])
  {
    Walk3(4, 5, 1, [1, 3, 2, 4, 0, 0], Some(1), 4);
    Adopt([None, Some(2), Some(0), Some(1), None, None], [4, 5], 3, [None, Some(2), Some(0), Some(1), Some(3), Some(3)]);
    EnterIs(g, Search([1, 1, 2, 0, 0, 0], [1, 3, 2, 0, 0, 0], [None, Some(2), Some(0), Some(1), None, None], 3, {}, [Exit(0), Enter(1), Exit(2), Exit(1), Enter(3)]), 3, [Exit(0), Enter(1), Exit(2), Exit(1)],
            [4, 5, 1], [1, 3, 2, 4, 0, 0], 4, [4, 5], [None, Some(2), Some(0), Some(1), Some(3), Some(3)], [Exit(0), Enter(1), Exit(2), Exit(1), Exit(3), Enter(4), Enter(5)]);
  }

  lemma TwoTrianglesStep4<P>(g: Graph<P>)
    requires Neighbors(g, 5) == [3, 4]
    ensures Step(g, Search([1, 1, 2, 4, 0, 0], [1, 3, 2, 4, 0, 0], [None, Some(2), Some(0), Some(1), Some(3), Some(3)], 4, {}, [Exit(0), Enter(1), Exit(2), Exit(1), Exit(3), Enter(4), Enter(5)]))
      == Search([1, 1, 2, 4, 0, 5], [1, 3, 2, 4, 0, 5], [None, Some(2), Some(0), Some(1), Some(5), Some(3)], 5, {}, [Exit(0), Enter(1), Exit(2), Exit(1), Exit(3), Enter(4), Exit(5), Enter(4)])
  {
    Walk2(3, 4, [1, 3, 2, 4, 0, 5], Some(3), 5);
    Adopt([None, Some(2), Some(0), Some(1), Some(3), Some(3)], [4], 5, [None, Some(2), Some(0), Some(1), Some(5), Some(3)]);
    EnterIs(g, Search([1, 1, 2, 4, 0, 0], [1, 3, 2, 4, 0, 0], [None, Some(2), Some(0), Some(1), Some(3), Some(3)], 4, {}, [Exit(0), Enter(1), Exit(2), Exit(1), Exit(3), Enter(4), Enter(5)]), 5, [Exit(0), Enter(1), Exit(2), Exit(1), Exit(3), Enter(4)],
            [3, 4], [1, 3, 2, 4, 0, 5], 5, [4], [None, Some(2), Some(0), Some(1), Some(5), Some(3)], [Exit(0), Enter(1), Exit(2), Exit(1), Exit(3), Enter(4), Exit(5), Enter(4)]);
  }

  lemma TwoTrianglesStep5<P>(g: Graph<P>)
    requires Neighbors(g, 4) == [5, 3]
    ensures Step(g, Search([1, 1, 2, 4, 0, 5], [1, 3, 2, 4, 0, 5], [None, Some(2), Some(0), Some(1), Some(5), Some(3)], 5, {}, [Exit(0), Enter(1), Exit(2), Exit(1), Exit(3), Enter(4), Exit(5), Enter(4)]))
      == Search([1, 1, 2, 4, 4, 5], [1, 3, 2, 4, 6, 5], [None, Some(2), Some(0), Some(1), Some(5), Some(3)], 6, {}, [Exit(0), Enter(1), Exit(2), Exit(1), Exit(3), Enter(4), Exit(5), Exit(4)])
  {
    Walk2(5, 3, [1, 3, 2, 4, 6, 5], Some(5), 6);
    Adopt([None, Some(2), Some(0), Some(1), Some(5), Some(3)], [], 4, [None, Some(2), Some(0), Some(1), Some(5), Some(3)]);
    EnterIs(g, Search([1, 1, 2, 4, 0, 5], [1, 3, 2, 4, 0, 5], [None, Some(2), Some(0), Some(1), Some(5), Some(3)], 5, {}, [Exit(0), Enter(1), Exit(2), Exit(1), Exit(3), Enter(4), Exit(5), Enter(4)]), 4, [Exit(0), Enter(1), Exit(2), Exit(1), Exit(3), Enter(4), Exit(5)],
            [5, 3], [1, 3, 2, 4, 6, 5], 4, [], [None, Some(2), Some(0), Some(1), Some(5), Some(3)], [Exit(0), Enter(1), Exit(2), Exit(1), Exit(3), Enter(4), Exit(5), Exit(4)]);
  }

  lemma TwoTrianglesStep6<P>(g: Graph<P>)
    ensures Step(g, Search([1, 1, 2, 4, 4, 5], [1, 3, 2, 4, 6, 5], [None, Some(2), Some(0), Some(1), Some(5), Some(3)], 6, {}, [Exit(0), Enter(1), Exit(2), Exit(1), Exit(3), Enter(4), Exit(5), Exit(4)]))
      == Search([1, 1, 2, 4, 4, 4], [1, 3, 2, 4, 6, 5], [None, Some(2), Some(0), Some(1), Some(5), Some(3)], 6, {}, [Exit(0), Enter(1), Exit(2), Exit(1), Exit(3), Enter(4), Exit(5)])
  {
  }

  lemma TwoTrianglesStep7<P>(g: Graph<P>)
    ensures Step(g, Search([1, 1, 2, 4, 4, 4], [1, 3, 2, 4, 6, 5], [None, Some(2), Some(0), Some(1), Some(5), Some(3)], 6, {}, [Exit(0), Enter(1), Exit(2), Exit(1), Exit(3), Enter(4), Exit(5)]))
      == Search([1, 1, 2, 4, 4, 4], [1, 3, 2, 4, 6, 5], [None, Some(2), Some(0), Some(1), Some(5), Some(3)], 6, {}, [Exit(0), Enter(1), Exit(2), Exit(1), Exit(3), Enter(4)])
  {
  }

  lemma TwoTrianglesStep8<P>(g: Graph<P>)
    requires Neighbors(g, 4) == [5, 3]
    ensures Step(g, Search([1, 1, 2, 4, 4, 4], [1, 3, 2, 4, 6, 5], [None, Some(2), Some(0), Some(1), Some(5), Some(3)], 6, {}, [Exit(0), Enter(1), Exit(2), Exit(1), Exit(3), Enter(4)]))
      == Search([1, 1, 2, 4, 4, 4], [1, 3, 2, 4, 7, 5], [None, Some(2), Some(0), Some(1), Some(5), Some(3)], 7, {}, [Exit(0), Enter(1), Exit(2), Exit(1), Exit(3), Exit(4)])
  {
    Walk2(5, 3, [1, 3, 2, 4, 7, 5], Some(5), 7);
    Adopt([None, Some(2), Some(0), Some(1), Some(5), Some(3)], [], 4, [None, Some(2), Some(0), Some(1), Some(5), Some(3)]);
    EnterIs(g, Search([1, 1, 2, 4, 4, 4], [1, 3, 2, 4, 6, 5], [None, Some(2), Some(0), Some(1), Some(5), Some(3)], 6, {}, [Exit(0), Enter(1), Exit(2), Exit(1), Exit(3), Enter(4)]), 4, [Exit(0), Enter(1), Exit(2), Exit(1), Exit(3)],
            [5, 3], [1, 3, 2, 4, 7, 5], 4, [], [None, Some(2), Some(0), Some(1), Some(5), Some(3)], [Exit(0), Enter(1), Exit(2), Exit(1), Exit(3), Exit(4)]);
  }

  lemma TwoTrianglesStep9<P>(g: Graph<P>)
    ensures Step(g, Search([1, 1, 2, 4, 4, 4], [1, 3, 2, 4, 7, 5], [None, Some(2), Some(0), Some(1), Some(5), Some(3)], 7, {}, [Exit(0), Enter(1), Exit(2), Exit(1), Exit(3), Exit(4)]))
      == Search([1, 1, 2, 4, 4, 4], [1, 3, 2, 4, 7, 5], [None, Some(2), Some(0), Some(1), Some(5), Some(3)], 7, {}, [Exit(0), Enter(1), Exit(2), Exit(1), Exit(3)])
  {
  }

  lemma TwoTrianglesStep10<P>(g: Graph<P>)
    ensures Step(g, Search([1, 1, 2, 4, 4, 4], [1, 3, 2, 4, 7, 5], [None, Some(2), Some(0), Some(1), Some(5), Some(3)], 7, {}, [Exit(0), Enter(1), Exit(2), Exit(1), Exit(3)]))
      == Search([1, 1, 2, 4, 4, 4], [1, 3, 2, 4, 7, 5], [None, Some(2), Some(0), Some(1), Some(5), Some(3)], 7, {(1, 3)}, [Exit(0), Enter(1), Exit(2), Exit(1)])
  {
  }

  lemma TwoTrianglesStep11<P>(g: Graph<P>)
    ensures Step(g, Search([1, 1, 2, 4, 4, 4], [1, 3, 2, 4, 7, 5], [None, Some(2), Some(0), Some(1), Some(5), Some(3)], 7, {(1, 3)}, [Exit(0), Enter(1), Exit(2), Exit(1)]))
      == Search([1, 1, 1, 4, 4, 4], [1, 3, 2, 4, 7, 5], [None, Some(2), Some(0), Some(1), Some(5), Some(3)], 7, {(1, 3)}, [Exit(0), Enter(1), Exit(2)])
  {
  }

  lemma TwoTrianglesStep12<P>(g: Graph<P>)
    ensures Step(g, Search([1, 1, 1, 4, 4, 4], [1, 3, 2, 4, 7, 5], [None, Some(2), Some(0), Some(1), Some(5), Some(3)], 7, {(1, 3)}, [Exit(0), Enter(1), Exit(2)]))
      == Search([1, 1, 1, 4, 4, 4], [1, 3, 2, 4, 7, 5], [None, Some(2), Some(0), Some(1), Some(5), Some(3)], 7, {(1, 3)}, [Exit(0), Enter(1)])
  {
  }

  lemma TwoTrianglesStep13<P>(g: Graph<P>)
    requires Neighbors(g, 1) == [3, 2, 0]
    ensures Step(g, Search([1, 1, 1, 4, 4, 4], [1, 3, 2, 4, 7, 5], [None, Some(2), Some(0), Some(1), Some(5), Some(3)], 7, {(1, 3)}, [Exit(0), Enter(1)]))
      == Search([1, 1, 1, 4, 4, 4], [1, 8, 2, 4, 7, 5], [None, Some(2), Some(0), Some(1), Some(5), Some(3)], 8, {(1, 3)}, [Exit(0), Exit(1)])
  {
    Walk3(3, 2, 0, [1, 8, 2, 4, 7, 5], Some(2), 8);
    Adopt([None, Some(2), Some(0), Some(1), Some(5), Some(3)], [], 1, [None, Some(2), Some(0), Some(1), Some(5), Some(3)]);
    EnterIs(g, Search([1, 1, 1, 4, 4, 4], [1, 3, 2, 4, 7, 5], [None, Some(2), Some(0), Some(1), Some(5), Some(3)], 7, {(1, 3)}, [Exit(0), Enter(1)]), 1, [Exit(0)],
            [3, 2, 0], [1, 8, 2, 4, 7, 5], 1, [], [None, Some(2), Some(0), Some(1), Some(5), Some(3)], [Exit(0), Exit(1)]);
  }

  lemma TwoTrianglesStep14<P>(g: Graph<P>)
    ensures Step(g, Search([1, 1, 1, 4, 4, 4], [1, 8, 2, 4, 7, 5], [None, Some(2), Some(0), Some(1), Some(5), Some(3)], 8, {(1, 3)}, [Exit(0), Exit(1)]))
      == Search([1, 1, 1, 4, 4, 4], [1, 8, 2, 4, 7, 5], [None, Some(2), Some(0), Some(1), Some(5), Some(3)], 8, {(1, 3)}, [Exit(0)])
  {
  }

  lemma TwoTrianglesStep15<P>(g: Graph<P>)
    ensures Step(g, Search([1, 1, 1, 4, 4, 4], [1, 8, 2, 4, 7, 5], [None, Some(2), Some(0), Some(1), Some(5), Some(3)], 8, {(1, 3)}, [Exit(0)]))
      == Search([1, 1, 1, 4, 4, 4], [1, 8, 2, 4, 7, 5], [None, Some(2), Some(0), Some(1), Some(5), Some(3)], 8, {(1, 3)}, [])
  {
  }

  /** The source test on the two triangles (src/bed.rs:122-131): the one bridge is 1-3. */
  lemma TwoTrianglesBridges()
    ensures BridgeEdges(TwoTriangles()) == {(1, 3)}
  {
    var s := Search([1, 1, 1, 4, 4, 4], [1, 8, 2, 4, 7, 5], [None, Some(2), Some(0), Some(1), Some(5), Some(3)], 8, {(1, 3)}, []);
    assert forall v :: 0 <= v < 6 ==> s.disc[v] > 0;
    var g := TwoTriangles();
    TwoTrianglesNeighbors();
    TwoTrianglesRun(g);
    OneSearch(g, s);
  }
}
