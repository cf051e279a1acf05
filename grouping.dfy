/** Edge grouping of `Dot.buildNode`: the regular edges of a node are split
    by `noAdvance` into two buckets, and each bucket is a JavaScript `Map`
    from target node to the edges that reach it.  A `Map` iterates in the
    order its keys were first set, so it is modelled as a sequence of groups
    in that order. */
module Grouping {
  import opened Graph

  /** One entry of an edge map: a target and its edges, in insertion order. */
  datatype Group = Group(target: nat, edges: seq<Edge>)

  /** The edges of `es` whose `noAdvance` flag is `noAdvance`, in order. */
  function Bucket(es: seq<Edge>, noAdvance: bool): seq<Edge>
  {
    if es == [] then []
    else
      var e := es[|es| - 1];
      Bucket(es[..|es| - 1], noAdvance) + (if e.noAdvance == noAdvance then [e] else [])
  }

  /** The edges of `es` that reach `t`, in order. */
  function EdgesTo(es: seq<Edge>, t: nat): seq<Edge>
  {
    if es == [] then []
    else
      var e := es[|es| - 1];
      EdgesTo(es[..|es| - 1], t) + (if e.target == t then [e] else [])
  }

  /** The position of the first occurrence of `t` in `ts`, or `|ts|` when
      there is none. */
  function IndexOf(ts: seq<nat>, t: nat): (k: nat)
    ensures k <= |ts|
    ensures k < |ts| ==> ts[k] == t
    ensures forall i :: 0 <= i < k ==> ts[i] != t
  {
    if ts == [] then 0
    else if ts[0] == t then 0
    else 1 + IndexOf(ts[1..], t)
  }

  /** The targets of the groups of an edge map, in order. */
  function Targets(gs: seq<Group>): (ts: seq<nat>)
    ensures |ts| == |gs|
    ensures forall i :: 0 <= i < |gs| ==> ts[i] == gs[i].target
  {
    seq(|gs|, i requires 0 <= i < |gs| => gs[i].target)
  }

  /** The position of the first edge of `es` that reaches `t`, or `|es|`
      when none does. */
  function FirstIndex(es: seq<Edge>, t: nat): (k: nat)
    ensures k <= |es|
    ensures k < |es| ==> es[k].target == t
    ensures forall i :: 0 <= i < k ==> es[i].target != t
  {
    IndexOf(TargetsOf(es), t)
  }

  /** `Map.has`/`Map.get`: the position of the group for `t`, or `|gs|`
      when the map has no such key. */
  function Find(gs: seq<Group>, t: nat): (k: nat)
    ensures k <= |gs|
    ensures k < |gs| ==> gs[k].target == t
    ensures forall i :: 0 <= i < k ==> gs[i].target != t
  {
    IndexOf(Targets(gs), t)
  }

  /** One step of the grouping loop: push `e` onto the list of its target,
      or set a new one-edge list at the end of the map. */
  function Insert(gs: seq<Group>, e: Edge): seq<Group>
  {
    var k := Find(gs, e.target);
    if k < |gs| then gs[k := Group(gs[k].target, gs[k].edges + [e])]
    else gs + [Group(e.target, [e])]
  }

  /** The edge map built from `es` by inserting its edges in order. */
  function GroupByTarget(es: seq<Edge>): seq<Group>
  {
    if es == [] then []
    else Insert(GroupByTarget(es[..|es| - 1]), es[|es| - 1])
  }

  /** All edges of an edge map, group after group. */
  function Flatten(gs: seq<Group>): seq<Edge>
  {
    if gs == [] then [] else gs[0].edges + Flatten(gs[1..])
  }

  lemma {:induction false} FirstIndexAppend(p: seq<Edge>, e: Edge, t: nat)
    ensures FirstIndex(p + [e], t) ==
      if FirstIndex(p, t) < |p| then FirstIndex(p, t)
      else if e.target == t then |p| else |p| + 1
  {
    var es := p + [e];
    var k, k' := FirstIndex(es, t), FirstIndex(p, t);
    if k' < |p| {
      assert es[k'] == p[k'];
    } else {
      assert es[|p|] == e;
    }
  }

  /** Two maps with the same keys in the same order answer `has` alike. */
  lemma {:induction false} FindSameTargets(gs: seq<Group>, hs: seq<Group>, t: nat)
    requires |gs| == |hs|
    requires forall i :: 0 <= i < |gs| ==> gs[i].target == hs[i].target
    ensures Find(gs, t) == Find(hs, t)
  {
  }

  lemma {:induction false} FindAppend(gs: seq<Group>, g: Group, t: nat)
    ensures Find(gs + [g], t) ==
      if Find(gs, t) < |gs| then Find(gs, t)
      else if g.target == t then |gs| else |gs| + 1
  {
    var hs := gs + [g];
    var k, k' := Find(hs, t), Find(gs, t);
    if k' < |gs| {
      assert hs[k'] == gs[k'];
    } else {
      assert hs[|gs|] == g;
    }
  }

  lemma {:induction false} EdgesToAbsent(es: seq<Edge>, t: nat)
    requires FirstIndex(es, t) == |es|
    ensures EdgesTo(es, t) == []
  {
    if es != [] {
      var p := es[..|es| - 1];
      assert es == p + [es[|es| - 1]];
      FirstIndexAppend(p, es[|es| - 1], t);
      EdgesToAbsent(p, t);
    }
  }

  /** `r` has a group for a target exactly when some edge of `es` reaches
      it. */
  ghost predicate SameKeys(es: seq<Edge>, r: seq<Group>)
  {
    forall t :: Find(r, t) < |r| <==> FirstIndex(es, t) < |es|
  }

  /** Each group of `r` holds every edge of `es` to its target and no
      other, in their original order. */
  ghost predicate ExactEntries(es: seq<Edge>, r: seq<Group>)
  {
    forall k :: 0 <= k < |r| ==> r[k].edges == EdgesTo(es, r[k].target)
  }

  /** Every group of `r` is for a target that some edge of `es` reaches. */
  ghost predicate KeysOccur(es: seq<Edge>, r: seq<Group>)
  {
    forall k :: 0 <= k < |r| ==> FirstIndex(es, r[k].target) < |es|
  }

  /** The groups of `r` are ordered by the first edge to their target, so
      no target has two groups. */
  ghost predicate FirstOrder(es: seq<Edge>, r: seq<Group>)
  {
    forall i, j :: 0 <= i < j < |r| ==> FirstIndex(es, r[i].target) < FirstIndex(es, r[j].target)
  }

  /** `r` is the edge map of `es` (see the four parts above). */
  ghost predicate GroupsOf(es: seq<Edge>, r: seq<Group>)
  {
    SameKeys(es, r) && ExactEntries(es, r) && KeysOccur(es, r) && FirstOrder(es, r)
  }

  /** Edges to other targets than the appended edge's are unchanged. */
  lemma EdgesToOther(p: seq<Edge>, e: Edge, t: nat)
    ensures EdgesTo(p + [e], t) == EdgesTo(p, t) + (if e.target == t then [e] else [])
  {
    assert (p + [e])[..|p|] == p;
  }

  /** First positions of targets already reached are unchanged, the
      appended edge's target is reached, and no other. */
  lemma ReachedAppend(p: seq<Edge>, e: Edge)
    ensures forall t :: FirstIndex(p, t) < |p| ==> FirstIndex(p + [e], t) == FirstIndex(p, t)
    ensures forall t :: FirstIndex(p + [e], t) < |p + [e]| <==> FirstIndex(p, t) < |p| || t == e.target
  {
    forall t ensures FirstIndex(p, t) < |p| ==> FirstIndex(p + [e], t) == FirstIndex(p, t) {
      FirstIndexAppend(p, e, t);
    }
    forall t ensures FirstIndex(p + [e], t) < |p + [e]| <==> FirstIndex(p, t) < |p| || t == e.target {
      FirstIndexAppend(p, e, t);
    }
  }

  /** Appending an edge to an existing group keeps the keys. */
  lemma {:induction false} ExistingKeys(p: seq<Edge>, e: Edge, r': seq<Group>)
    requires SameKeys(p, r') && Find(r', e.target) < |r'|
    ensures SameKeys(p + [e], Insert(r', e))
  {
    var r := Insert(r', e);
    ReachedAppend(p, e);
    forall t ensures Find(r, t) == Find(r', t) {
      FindSameTargets(r, r', t);
    }
  }

  /** Appending an edge to an existing group keeps every group exact. */
  lemma {:induction false} ExistingEntries(p: seq<Edge>, e: Edge, r': seq<Group>)
    requires ExactEntries(p, r') && FirstOrder(p, r') && Find(r', e.target) < |r'|
    ensures ExactEntries(p + [e], Insert(r', e))
  {
    var es, r, k := p + [e], Insert(r', e), Find(r', e.target);
    forall j | 0 <= j < |r| ensures r[j].edges == EdgesTo(es, r[j].target) {
      EdgesToOther(p, e, r[j].target);
      if j < k {
        assert FirstIndex(p, r'[j].target) < FirstIndex(p, r'[k].target);
      } else if k < j {
        assert FirstIndex(p, r'[k].target) < FirstIndex(p, r'[j].target);
      }
    }
  }

  /** Appending an edge to an existing group keeps the keys' first
      positions and their order. */
  lemma {:induction false} ExistingOrder(p: seq<Edge>, e: Edge, r': seq<Group>)
    requires KeysOccur(p, r') && FirstOrder(p, r') && Find(r', e.target) < |r'|
    ensures KeysOccur(p + [e], Insert(r', e)) && FirstOrder(p + [e], Insert(r', e))
  {
    var r := Insert(r', e);
    ReachedAppend(p, e);
    assert forall j :: 0 <= j < |r| ==> r[j].target == r'[j].target;
  }

  /** Appending an edge to an existing group keeps the edge map exact. */
  lemma {:induction false} InsertExisting(p: seq<Edge>, e: Edge, r': seq<Group>)
    requires GroupsOf(p, r') && Find(r', e.target) < |r'|
    ensures GroupsOf(p + [e], Insert(r', e))
  {
    ExistingKeys(p, e, r');
    ExistingEntries(p, e, r');
    ExistingOrder(p, e, r');
  }

  /** After a new target's edge, the map has a group for it too. */
  lemma {:induction false} NewKeys(p: seq<Edge>, e: Edge, r': seq<Group>)
    requires SameKeys(p, r') && Find(r', e.target) == |r'|
    ensures SameKeys(p + [e], Insert(r', e))
  {
    var r := Insert(r', e);
    ReachedAppend(p, e);
    forall t ensures Find(r, t) < |r| <==> Find(r', t) < |r'| || t == e.target {
      FindAppend(r', Group(e.target, [e]), t);
    }
  }

  /** A new one-edge group is exact, and the old groups stay exact. */
  lemma {:induction false} NewEntries(p: seq<Edge>, e: Edge, r': seq<Group>)
    requires ExactEntries(p, r') && Find(r', e.target) == |r'| && FirstIndex(p, e.target) == |p|
    ensures ExactEntries(p + [e], Insert(r', e))
  {
    var es, r := p + [e], Insert(r', e);
    assert r == r' + [Group(e.target, [e])];
    forall k | 0 <= k < |r| ensures r[k].edges == EdgesTo(es, r[k].target) {
      EdgesToOther(p, e, r[k].target);
      if k == |r'| {
        EdgesToAbsent(p, e.target);
      } else {
        assert r[k] == r'[k];
      }
    }
  }

  /** A new group comes after the old ones, as its target is reached
      last. */
  lemma {:induction false} NewOrder(p: seq<Edge>, e: Edge, r': seq<Group>)
    requires KeysOccur(p, r') && FirstOrder(p, r') && FirstIndex(p, e.target) == |p|
    requires Find(r', e.target) == |r'|
    ensures KeysOccur(p + [e], Insert(r', e)) && FirstOrder(p + [e], Insert(r', e))
  {
    var es, r := p + [e], Insert(r', e);
    assert r == r' + [Group(e.target, [e])];
    ReachedAppend(p, e);
    FirstIndexAppend(p, e, e.target);
    forall k | 0 <= k < |r| ensures FirstIndex(es, r[k].target) < |es| {
      if k < |r'| {
        assert r[k] == r'[k];
      }
    }
    forall i, j | 0 <= i < j < |r|
      ensures FirstIndex(es, r[i].target) < FirstIndex(es, r[j].target)
    {
      assert r[i] == r'[i];
      if j < |r'| {
        assert r[j] == r'[j];
      }
    }
  }

  /** Setting a new one-edge group at the end keeps the edge map exact. */
  lemma {:induction false} InsertNew(p: seq<Edge>, e: Edge, r': seq<Group>)
    requires GroupsOf(p, r') && Find(r', e.target) == |r'|
    ensures GroupsOf(p + [e], Insert(r', e))
  {
    assert FirstIndex(p, e.target) == |p|;
    NewKeys(p, e, r');
    NewEntries(p, e, r');
    NewOrder(p, e, r');
  }

  /** The edge map built by the grouping loop is exact (see `GroupsOf`). */
  lemma {:induction false} GroupByTargetSpec(es: seq<Edge>)
    ensures GroupsOf(es, GroupByTarget(es))
  {
    if es != [] {
      var p, e := es[..|es| - 1], es[|es| - 1];
      assert es == p + [e];
      GroupByTargetSpec(p);
      if Find(GroupByTarget(p), e.target) < |GroupByTarget(p)| {
        InsertExisting(p, e, GroupByTarget(p));
      } else {
        InsertNew(p, e, GroupByTarget(p));
      }
    }
  }

  lemma {:induction false} FlattenAppend(gs: seq<Group>, g: Group)
    ensures Flatten(gs + [g]) == Flatten(gs) + g.edges
  {
    if gs != [] {
      assert (gs + [g])[1..] == gs[1..] + [g];
      FlattenAppend(gs[1..], g);
    }
  }

  lemma {:induction false} FlattenUpdate(gs: seq<Group>, k: nat, g: Group)
    requires k < |gs|
    ensures multiset(Flatten(gs[k := g])) + multiset(gs[k].edges) ==
            multiset(Flatten(gs)) + multiset(g.edges)
  {
    var hs := gs[k := g];
    if k > 0 {
      assert hs[0] == gs[0] && hs[1..] == gs[1..][k - 1 := g];
      assert gs[1..][k - 1] == gs[k];
      FlattenUpdate(gs[1..], k - 1, g);
      calc {
        multiset(Flatten(hs)) + multiset(gs[k].edges);
        multiset(gs[0].edges) + (multiset(Flatten(hs[1..])) + multiset(gs[1..][k - 1].edges));
        multiset(gs[0].edges) + (multiset(Flatten(gs[1..])) + multiset(g.edges));
        multiset(Flatten(gs)) + multiset(g.edges);
      }
    } else {
      assert hs[1..] == gs[1..];
    }
  }

  /** Grouping loses and duplicates no edge. */
  lemma {:induction false} GroupByTargetPermutes(es: seq<Edge>)
    ensures multiset(Flatten(GroupByTarget(es))) == multiset(es)
  {
    if es != [] {
      var p, e := es[..|es| - 1], es[|es| - 1];
      assert es == p + [e];
      GroupByTargetPermutes(p);
      var r' := GroupByTarget(p);
      var k := Find(r', e.target);
      assert GroupByTarget(es) == Insert(r', e);
      if k < |r'| {
        FlattenUpdate(r', k, Group(r'[k].target, r'[k].edges + [e]));
        var x, a, f := multiset(Flatten(Insert(r', e))), multiset(r'[k].edges), multiset(Flatten(r'));
        assert x + a == f + (a + multiset{e});
        assert x == f + multiset{e} by {
          forall y ensures x[y] == (f + multiset{e})[y] {
            assert (x + a)[y] == (f + (a + multiset{e}))[y];
          }
        }
      } else {
        FlattenAppend(r', Group(e.target, [e]));
      }
    }
  }

  /** Every regular edge lands in exactly one of the two buckets. */
  lemma {:induction false} BucketsPartition(es: seq<Edge>)
    ensures multiset(Bucket(es, false)) + multiset(Bucket(es, true)) == multiset(es)
    ensures forall e :: e in Bucket(es, false) ==> !e.noAdvance
    ensures forall e :: e in Bucket(es, true) ==> e.noAdvance
  {
    if es != [] {
      var p := es[..|es| - 1];
      assert es == p + [es[|es| - 1]];
      BucketsPartition(p);
    }
  }

  /** Every edge of the node lands in exactly one group of exactly one of the
      two edge maps. */
  lemma {:induction false} SplitPartition(es: seq<Edge>)
    ensures multiset(Flatten(GroupByTarget(Bucket(es, false)))) +
            multiset(Flatten(GroupByTarget(Bucket(es, true)))) == multiset(es)
  {
    BucketsPartition(es);
    GroupByTargetPermutes(Bucket(es, false));
    GroupByTargetPermutes(Bucket(es, true));
  }

  /** A bucket holds exactly the node's edges with its flag. */
  lemma {:induction false} BucketMembers(es: seq<Edge>, noAdvance: bool)
    ensures forall e :: e in Bucket(es, noAdvance) <==> e in es && e.noAdvance == noAdvance
  {
    if es != [] {
      var p := es[..|es| - 1];
      BucketMembers(p, noAdvance);
      assert es == p + [es[|es| - 1]];
    }
  }

  /** `EdgesTo` holds exactly the edges that reach its target. */
  lemma {:induction false} EdgesToMembers(es: seq<Edge>, t: nat)
    ensures forall e :: e in EdgesTo(es, t) <==> e in es && e.target == t
  {
    if es != [] {
      var p := es[..|es| - 1];
      EdgesToMembers(p, t);
      assert es == p + [es[|es| - 1]];
    }
  }

  /** Every entry of the edge map is keyed by the target of some edge. */
  lemma GroupTargetsOccur(es: seq<Edge>)
    ensures forall k :: 0 <= k < |GroupByTarget(es)| ==>
      FirstIndex(es, GroupByTarget(es)[k].target) < |es|
  {
    GroupByTargetSpec(es);
  }
}
