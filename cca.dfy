/**
  Connected-component grouping of src/cca.rs.

  The component of a node is read from its payload: the second coordinate, converted with
  Rust's saturating `as usize`. The edges play no part in the grouping, and the number of
  components, which the source obtains from a library call, is an input here. The groups come
  out of a HashMap in an arbitrary order and are then sorted by non-increasing size with a
  stable sort, so groups of equal size keep the order they came out in.
*/
module ConnectedComponents {
  import opened Graphs
  import opened Grouping

  /** The largest `usize` on a 64-bit target. */
  const UsizeMax: nat := 0xFFFF_FFFF_FFFF_FFFF

  /** `y as usize`: the integer part of `y`, 0 for values below 1 (negative ones included),
      and `UsizeMax` for values beyond it. */
  function Key(y: real): (k: nat)
    ensures k <= UsizeMax
  {
    if y < 1.0 then 0 else if y.Floor >= UsizeMax then UsizeMax else y.Floor
  }

  /** Within range, the key is the integer part: `k <= y < k + 1`. */
  lemma KeyFloor(y: real)
    requires 0.0 <= y < UsizeMax as real
    ensures Key(y) as real <= y < Key(y) as real + 1.0
  {
  }

  /** A whole number within range is its own key. */
  lemma KeyOfWhole(n: nat)
    requires n <= UsizeMax
    ensures Key(n as real) == n
  {
  }

  /** The component id of every node. */
  function ComponentKeys(g: Graph<(real, real)>): (r: Keying)
    ensures forall v: nat :: v in r <==> v < g.N()
    ensures forall v :: v in r ==> r[v] == Key(g.nodes[v].1)
  {
    map v | v in Range(g.N()) :: Key(g.nodes[v].1)
  }

  /** `node_indices()`: 0, 1, ..., n-1. */
  function Indices(n: nat): (r: seq<nat>)
    ensures |r| == n && Distinct(r)
    ensures forall v: nat :: v in r <==> v < n
  {
    if n == 0 then []
    else
      var s := Indices(n - 1);
      assert forall i :: 0 <= i < |s| ==> s[i] in s;
      s + [n - 1]
  }

  // ---------------------------------------------------------------------------
  // sorting by size
  // ---------------------------------------------------------------------------

  /** Sizes never grow along `groups`. */
  predicate BySize(groups: seq<seq<nat>>) {
    forall a, b :: 0 <= a < b < |groups| ==> |groups[a]| >= |groups[b]|
  }

  /** `perm` lists every index below `n` exactly once. */
  ghost predicate Permutation(perm: seq<nat>, n: nat) {
    && |perm| == n && Distinct(perm)
    && (forall k :: 0 <= k < n ==> perm[k] < n)
    && (forall j: nat :: j < n ==> j in perm)
  }

  /** The insertion point of a group of size `size`: after every group at least as large. */
  method InsertionPoint(sorted: seq<seq<nat>>, size: nat) returns (p: nat)
    requires BySize(sorted)
    ensures p <= |sorted|
    ensures forall a :: 0 <= a < p ==> |sorted[a]| >= size
    ensures forall a :: p <= a < |sorted| ==> |sorted[a]| < size
  {
    p := 0;
    while p < |sorted| && |sorted[p]| >= size
      invariant p <= |sorted|
      invariant forall a :: 0 <= a < p ==> |sorted[a]| >= size
    {
      p := p + 1;
    }
  }

  /** The entries of `s` with `x` inserted at position `p`. */
  lemma InsertAt<T>(s: seq<T>, p: nat, x: T)
    requires p <= |s|
    ensures var r := s[..p] + [x] + s[p..];
      && |r| == |s| + 1 && r[p] == x
      && (forall k :: 0 <= k < p ==> r[k] == s[k])
      && (forall k :: p < k <= |s| ==> r[k] == s[k - 1])
  {
  }

  /** Inserting the new index `n` anywhere extends a permutation of `n` to one of `n + 1`. */
  lemma PermutationInsert(perm: seq<nat>, p: nat, n: nat)
    requires Permutation(perm, n) && p <= n
    ensures Permutation(perm[..p] + [n] + perm[p..], n + 1)
  {
    var r := perm[..p] + [n] + perm[p..];
    InsertAt(perm, p, n);
    forall a, b | 0 <= a < b < |r|
      ensures r[a] != r[b]
    {
      var a' := if a < p then a else a - 1;
      var b' := if b < p then b else b - 1;
      if a != p && b != p {
        assert r[a] == perm[a'] && r[b] == perm[b'] && a' < b';
      }
    }
    forall j: nat | j < n + 1
      ensures j in r
    {
      if j < n {
        assert j in perm;
        var k :| 0 <= k < |perm| && perm[k] == j;
        assert r[if k < p then k else k + 1] == j;
      } else {
        assert r[p] == j;
      }
    }
  }

  /** A group placed after the larger ones and before the smaller ones keeps the order. */
  lemma BySizeInsert(sorted: seq<seq<nat>>, p: nat, x: seq<nat>)
    requires BySize(sorted) && p <= |sorted|
    requires forall a :: 0 <= a < p ==> |sorted[a]| >= |x|
    requires forall a :: p <= a < |sorted| ==> |sorted[a]| < |x|
    ensures BySize(sorted[..p] + [x] + sorted[p..])
  {
    InsertAt(sorted, p, x);
  }

  /** Inserting the newest group after every group of its size keeps equal sizes in arrival
      order. */
  lemma StableInsert(sorted: seq<seq<nat>>, perm: seq<nat>, p: nat, x: seq<nat>, n: nat)
    requires |sorted| == |perm| == n && p <= n && Permutation(perm, n)
    requires forall a :: p <= a < n ==> |sorted[a]| < |x|
    requires forall a, b :: 0 <= a < b < n && |sorted[a]| == |sorted[b]| ==> perm[a] < perm[b]
    ensures var s, q := sorted[..p] + [x] + sorted[p..], perm[..p] + [n] + perm[p..];
      forall a, b :: 0 <= a < b < n + 1 && |s[a]| == |s[b]| ==> q[a] < q[b]
  {
    InsertAt(sorted, p, x);
    InsertAt(perm, p, n);
  }

  /** One insertion step: `groups[i]` goes in at its insertion point, and `perm` records where
      every placed group came from. */
  method InsertNext(groups: seq<seq<nat>>, i: nat, sorted0: seq<seq<nat>>, ghost perm0: seq<nat>)
    returns (sorted: seq<seq<nat>>, ghost perm: seq<nat>)
    requires i < |groups| && Permutation(perm0, i) && BySize(sorted0)
    requires |sorted0| == i && forall k :: 0 <= k < i ==> sorted0[k] == groups[perm0[k]]
    requires forall a, b :: 0 <= a < b < i && |sorted0[a]| == |sorted0[b]| ==> perm0[a] < perm0[b]
    ensures Permutation(perm, i + 1) && BySize(sorted)
    ensures |sorted| == i + 1 && forall k :: 0 <= k < i + 1 ==> sorted[k] == groups[perm[k]]
    ensures forall a, b :: 0 <= a < b < i + 1 && |sorted[a]| == |sorted[b]| ==> perm[a] < perm[b]
  {
    var p := InsertionPoint(sorted0, |groups[i]|);
    sorted := sorted0[..p] + [groups[i]] + sorted0[p..];
    perm := perm0[..p] + [i] + perm0[p..];
    InsertAt(sorted0, p, groups[i]);
    InsertAt(perm0, p, i);
    PermutationInsert(perm0, p, i);
    BySizeInsert(sorted0, p, groups[i]);
    StableInsert(sorted0, perm0, p, groups[i], i);
  }

  /** `sort_by(|a, b| b.len().cmp(&a.len()))`: a stable sort by non-increasing size. `perm`
      is the permutation it applies, and groups of equal size keep their relative order. */
  method SortBySize(groups: seq<seq<nat>>) returns (sorted: seq<seq<nat>>, ghost perm: seq<nat>)
    ensures Permutation(perm, |groups|) && BySize(sorted)
    ensures |sorted| == |groups| && forall k :: 0 <= k < |sorted| ==> sorted[k] == groups[perm[k]]
    ensures forall a, b :: 0 <= a < b < |sorted| && |sorted[a]| == |sorted[b]| ==> perm[a] < perm[b]
  {
    sorted, perm := [], [];
    for i := 0 to |groups|
      invariant Permutation(perm, i) && BySize(sorted)
      invariant |sorted| == i && forall k :: 0 <= k < i ==> sorted[k] == groups[perm[k]]
      invariant forall a, b :: 0 <= a < b < i && |sorted[a]| == |sorted[b]| ==> perm[a] < perm[b]
    {
      sorted, perm := InsertNext(groups, i, sorted, perm);
    }
  }

  /** Reordering the groups, and their keys with them, keeps them `Grouped`. */
  lemma PermutedGrouped(groups: seq<seq<nat>>, key: Keying, ks: seq<nat>, perm: seq<nat>, sorted: seq<seq<nat>>)
    requires Grouped(groups, key, ks) && Permutation(perm, |groups|)
    requires |sorted| == |groups| && forall k :: 0 <= k < |sorted| ==> sorted[k] == groups[perm[k]]
    ensures Grouped(sorted, key, seq(|perm|, k requires 0 <= k < |perm| => ks[perm[k]]))
  {
    var ks' := seq(|perm|, k requires 0 <= k < |perm| => ks[perm[k]]);
    forall l
      ensures l in ks' <==> l in key.Values
    {
      if l in ks {
        var j :| 0 <= j < |ks| && ks[j] == l;
        assert j in perm;
        var k :| 0 <= k < |perm| && perm[k] == j;
        assert ks'[k] == l;
      }
    }
    forall a, b | 0 <= a < b < |ks'|
      ensures ks'[a] != ks'[b]
    {
      assert perm[a] != perm[b];
    }
  }

  // ---------------------------------------------------------------------------
  // the analysis
  // ---------------------------------------------------------------------------

  /** analyze_connected_components (src/cca.rs:12-34): the component count, passed through,
      and the nodes grouped by payload key, each group in index order, largest groups first. */
  method AnalyzeConnectedComponents(g: Graph<(real, real)>, count: nat)
    returns (numComponents: nat, components: seq<seq<nat>>, ghost ks: seq<nat>)
    ensures numComponents == count
    ensures Grouped(components, ComponentKeys(g), ks) && BySize(components)
    ensures forall i :: 0 <= i < |components| ==> components[i] == Members(Indices(g.N()), ComponentKeys(g), ks[i])
  {
    numComponents := count;
    var keys := ComponentKeys(g);
    var order := Indices(g.N());
    var unsorted;
    ghost var ks0;
    unsorted, ks0 := GroupByKey(keys, order);
    ghost var perm;
    components, perm := SortBySize(unsorted);
    PermutedGrouped(unsorted, keys, ks0, perm, components);
    ks := seq(|perm|, k requires 0 <= k < |perm| => ks0[perm[k]]);
  }

  // ---------------------------------------------------------------------------
  // the source's test graphs
  // ---------------------------------------------------------------------------

  /** No nodes, no groups. */
  lemma EmptyGraph(components: seq<seq<nat>>, ks: seq<nat>)
    requires Grouped(components, ComponentKeys(Graph([], [])), ks)
    ensures components == []
  {
    var keys := ComponentKeys(Graph([], []));
    assert keys == map[];
    GroupCount(components, keys, ks);
  }

  /** The group of key `ks[i]` has as many entries as there are nodes with that key. */
  lemma GroupSize(groups: seq<seq<nat>>, key: Keying, ks: seq<nat>, i: nat, members: set<nat>)
    requires Grouped(groups, key, ks) && i < |groups|
    requires forall v :: v in key && key[v] == ks[i] <==> v in members
    ensures |groups[i]| == |members|
  {
    var group := groups[i];
    assert Distinct(group);
    assert forall v :: v in group <==> v in members;
    DistinctCard(group);
    assert Elements(group) == members;
  }

  /** Two nodes a-b, both with key 0: one group of two. */
  function Graph1(): Graph<(real, real)> {
    Graph([(0.0, 0.0), (1.0, 0.0)], [Edge(0, 1, 1.0)])
  }

  lemma Graph1Groups(components: seq<seq<nat>>, ks: seq<nat>)
    requires Grouped(components, ComponentKeys(Graph1()), ks)
    ensures |components| == 1 && |components[0]| == 2
  {
    var g := Graph1();
    var keys := ComponentKeys(g);
    assert g.N() == 2 && 0 in keys && 1 in keys;
    assert keys[0] == 0 && keys[1] == 0;
    assert keys.Values == {0};
    GroupCount(components, keys, ks);
    assert ks[0] in ks;
    GroupSize(components, keys, ks, 0, {0, 1});
  }

  /** Two separate edges a-b and c-d, keyed 0, 0, 1, 1: two groups of two. */
  function Graph3(): Graph<(real, real)> {
    Graph([(0.0, 0.0), (1.0, 0.0), (2.0, 1.0), (3.0, 1.0)], [Edge(0, 1, 1.0), Edge(2, 3, 1.0)])
  }

  lemma Graph3Keys()
    ensures var keys := ComponentKeys(Graph3());
      && keys.Values == {0, 1}
      && (forall v :: v in keys && keys[v] == 0 <==> v in {0, 1})
      && (forall v :: v in keys && keys[v] == 1 <==> v in {2, 3})
  {
    var g := Graph3();
    var keys := ComponentKeys(g);
    assert g.N() == 4 && 0 in keys && 1 in keys && 2 in keys && 3 in keys;
    assert keys[0] == 0 && keys[1] == 0 && keys[2] == 1 && keys[3] == 1;
  }

  lemma Graph3Groups(components: seq<seq<nat>>, ks: seq<nat>)
    requires Grouped(components, ComponentKeys(Graph3()), ks)
    ensures |components| == 2 && |components[0]| == 2 && |components[1]| == 2
  {
    var keys := ComponentKeys(Graph3());
    Graph3Keys();
    GroupCount(components, keys, ks);
    forall i | 0 <= i < 2
      ensures |components[i]| == 2
    {
      assert ks[i] in ks;
      if ks[i] == 0 {
        GroupSize(components, keys, ks, i, {0, 1});
      } else {
        GroupSize(components, keys, ks, i, {2, 3});
      }
    }
  }

  /** The path a-b-c, keyed 0, 0, 1: connected, yet split into two groups, since the grouping
      reads the payload and not the edges. */
  function Graph2(): Graph<(real, real)> {
    Graph([(0.0, 0.0), (1.0, 0.0), (2.0, 1.0)], [Edge(0, 1, 1.0), Edge(1, 2, 1.0)])
  }

  lemma Graph2Keys()
    ensures var keys := ComponentKeys(Graph2());
      && keys.Values == {0, 1}
      && (forall v :: v in keys && keys[v] == 0 <==> v in {0, 1})
      && (forall v :: v in keys && keys[v] == 1 <==> v in {2})
  {
    var g := Graph2();
    var keys := ComponentKeys(g);
    assert g.N() == 3 && 0 in keys && 1 in keys && 2 in keys;
    assert keys[0] == 0 && keys[1] == 0 && keys[2] == 1;
  }

  lemma Graph2Groups(components: seq<seq<nat>>, ks: seq<nat>)
    requires Grouped(components, ComponentKeys(Graph2()), ks) && BySize(components)
    ensures |components| == 2 && |components[0]| == 2 && |components[1]| == 1
  {
    var keys := ComponentKeys(Graph2());
    Graph2Keys();
    GroupCount(components, keys, ks);
    forall i | 0 <= i < 2
      ensures |components[i]| == if ks[i] == 0 then 2 else 1
    {
      assert ks[i] in ks;
      if ks[i] == 0 {
        GroupSize(components, keys, ks, i, {0, 1});
      } else {
        GroupSize(components, keys, ks, i, {2});
      }
    }
  }
}
