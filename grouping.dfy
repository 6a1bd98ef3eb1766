/**
  Grouping nodes by a key, as label_propagation (algo_repo/LPA.rs) and
  analyze_connected_components (src/cca.rs) both do: walk the nodes in some order, append each
  one to the vector stored under its key in a HashMap, then take the vectors out in the
  HashMap's iteration order.

  The walk order is the parameter `order`; the order in which the vectors come out is an
  arbitrary choice (`:|`).
*/
module Grouping {
  import opened Graphs

  /** Node to key. */
  type Keying = map<nat, nat>

  /** The nodes of `vs` with key `l`, in the order of `vs`. */
  function Members(vs: seq<nat>, key: Keying, l: nat): seq<nat>
    requires forall v :: v in vs ==> v in key
    decreases |vs|
  {
    if vs == [] then []
    else
      var v := vs[|vs| - 1];
      Members(vs[..|vs| - 1], key, l) + (if key[v] == l then [v] else [])
  }

  /** A group holds exactly the listed nodes with its key, each as often as it is listed. */
  lemma {:induction false} MembersSpec(vs: seq<nat>, key: Keying, l: nat)
    requires forall v :: v in vs ==> v in key
    ensures forall v :: v in Members(vs, key, l) <==> v in vs && key[v] == l
    ensures Distinct(vs) ==> Distinct(Members(vs, key, l))
    decreases |vs|
  {
    if vs != [] {
      var init := vs[..|vs| - 1];
      assert forall v :: v in vs <==> v in init || v == vs[|vs| - 1];
      MembersSpec(init, key, l);
      if Distinct(vs) {
        assert vs[|vs| - 1] !in init;
      }
    }
  }

  /** `groups[i]` holds, each once, exactly the nodes keyed `ks[i]`; the key `ks` are
      distinct and are all the key in use. */
  ghost predicate Grouped(groups: seq<seq<nat>>, key: Keying, ks: seq<nat>) {
    && |groups| == |ks| && Distinct(ks)
    && (forall l :: l in ks <==> l in key.Values)
    && (forall i :: 0 <= i < |groups| ==> groups[i] != [] && Distinct(groups[i]))
    && (forall i, v :: 0 <= i < |groups| ==> (v in groups[i] <==> v in key && key[v] == ks[i]))
  }

  /** Grouped nodes form a partition: every keyed node lies in exactly one group. */
  lemma GroupedPartition(groups: seq<seq<nat>>, key: Keying, ks: seq<nat>)
    requires Grouped(groups, key, ks)
    ensures forall v :: v in key <==> exists i :: 0 <= i < |groups| && v in groups[i]
    ensures forall v, i, j :: 0 <= i < |groups| && 0 <= j < |groups| && v in groups[i] && v in groups[j] ==> i == j
  {
    forall v | v in key
      ensures exists i :: 0 <= i < |groups| && v in groups[i]
    {
      assert key[v] in key.Values;
      var i :| 0 <= i < |ks| && ks[i] == key[v];
      assert v in groups[i];
    }
    forall v, i, j | 0 <= i < |groups| && 0 <= j < |groups| && v in groups[i] && v in groups[j]
      ensures i == j
    {
      assert ks[i] == key[v] == ks[j];
    }
  }

  /** There is one group per key in use. */
  lemma GroupCount(groups: seq<seq<nat>>, key: Keying, ks: seq<nat>)
    requires Grouped(groups, key, ks)
    ensures |groups| == |key.Values|
  {
    DistinctCard(ks);
    assert Elements(ks) == key.Values;
  }

  /** Groups built with `Members` from the distinct key in use are `Grouped`. */
  lemma MembersGrouped(order: seq<nat>, key: Keying, ks: seq<nat>, groups: seq<seq<nat>>)
    requires Distinct(order) && forall v :: v in order <==> v in key
    requires Distinct(ks) && forall l :: l in ks <==> l in key.Values
    requires |groups| == |ks| && forall i :: 0 <= i < |ks| ==> groups[i] == Members(order, key, ks[i])
    ensures Grouped(groups, key, ks)
  {
    forall i | 0 <= i < |ks|
      ensures groups[i] != [] && Distinct(groups[i])
      ensures forall v :: v in groups[i] <==> v in key && key[v] == ks[i]
    {
      MembersSpec(order, key, ks[i]);
      assert ks[i] in key.Values;
      var v :| v in key && key[v] == ks[i];
      assert v in groups[i];
    }
  }

  /** The first loop of the grouping: walking the nodes in `order`, append each to the group
      of its key. */
  method Collect(key: Keying, order: seq<nat>) returns (communities: map<nat, seq<nat>>)
    requires forall v :: v in order ==> v in key
    ensures forall l :: l in communities <==> Members(order, key, l) != []
    ensures forall l :: l in communities ==> communities[l] == Members(order, key, l)
  {
    communities := map[];
    for i := 0 to |order|
      invariant forall l :: l in communities <==> Members(order[..i], key, l) != []
      invariant forall l :: l in communities ==> communities[l] == Members(order[..i], key, l)
    {
      var v := order[i];
      var l := key[v];
      assert order[..i + 1][..i] == order[..i];
      var group := if l in communities then communities[l] else [];
      communities := communities[l := group + [v]];
    }
    assert order[..|order|] == order;
  }

  /** `communities.into_iter()`: the groups in an arbitrary order; `ks[i]` is the key of the
      `i`th. */
  method Emit(communities: map<nat, seq<nat>>) returns (groups: seq<seq<nat>>, ghost ks: seq<nat>)
    ensures |ks| == |groups| && Distinct(ks)
    ensures forall l :: l in ks <==> l in communities
    ensures forall i :: 0 <= i < |groups| ==> ks[i] in communities && groups[i] == communities[ks[i]]
  {
    groups, ks := [], [];
    var rest := communities.Keys;
    while rest != {}
      invariant rest <= communities.Keys
      invariant |ks| == |groups| && Distinct(ks)
      invariant forall l :: l in ks <==> l in communities && l !in rest
      invariant forall i :: 0 <= i < |groups| ==> ks[i] in communities && groups[i] == communities[ks[i]]
      decreases rest
    {
      var l :| l in rest;
      groups, ks := groups + [communities[l]], ks + [l];
      rest := rest - {l};
    }
  }

  /** The whole grouping: the groups, in an arbitrary order, each listing the nodes of one key
      in walk order. */
  method GroupByKey(key: Keying, order: seq<nat>) returns (groups: seq<seq<nat>>, ghost ks: seq<nat>)
    requires Distinct(order) && forall v :: v in order <==> v in key
    ensures Grouped(groups, key, ks)
    ensures forall i :: 0 <= i < |groups| ==> groups[i] == Members(order, key, ks[i])
    ensures forall v :: v in key <==> exists i :: 0 <= i < |groups| && v in groups[i]
  {
    var communities := Collect(key, order);
    forall l
      ensures l in communities <==> l in key.Values
    {
      MembersSpec(order, key, l);
      var m := Members(order, key, l);
      if m != [] {
        assert m[0] in m;
      }
      if l in key.Values {
        var v :| v in key && key[v] == l;
        assert v in m;
      }
    }
    groups, ks := Emit(communities);
    MembersGrouped(order, key, ks, groups);
    GroupedPartition(groups, key, ks);
  }
}
