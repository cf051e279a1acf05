/** Reachability enumeration (`Dot.enumerateNodes`): a work-list traversal
    that pops from the end of a stack and records each node the first time it
    is popped, in a set that keeps insertion order. */
module Traversal {
  import opened Graph

  predicate AllBelow(s: seq<nat>, n: nat)
  {
    forall i :: 0 <= i < |s| ==> s[i] < n
  }

  predicate Distinct(s: seq<nat>)
  {
    forall i, j :: 0 <= i < j < |s| ==> s[i] != s[j]
  }

  /** The nodes not yet recorded: the traversal's measure. */
  ghost function Unvisited(g: Graph, seen: seq<nat>): set<nat>
  {
    set i: nat | i < |g| && i !in seen
  }

  /** What the traversal returns when it resumes with work list `queue` and
      the nodes `seen` recorded so far (in insertion order). */
  function Visit(g: Graph, queue: seq<nat>, seen: seq<nat>): (r: seq<nat>)
    requires WellFormed(g) && AllBelow(queue, |g|) && AllBelow(seen, |g|)
    ensures AllBelow(r, |g|)
    decreases Unvisited(g, seen), |queue|
  {
    if queue == [] then seen
    else
      var n := queue[|queue| - 1];
      var rest := queue[..|queue| - 1];
      assert queue == rest + [n];
      if n in seen then Visit(g, rest, seen)
      else
        assert n in Unvisited(g, seen) - Unvisited(g, seen + [n]);
        SuccessorsIn(g, n);
        Visit(g, rest + Successors(g, n), seen + [n])
  }

  /** The order in which the traversal records the nodes reachable from
      `root`. */
  function Enumerate(g: Graph, root: nat): (order: seq<nat>)
    requires WellFormed(g) && root < |g|
    ensures AllBelow(order, |g|)
  {
    Visit(g, [root], [])
  }

  /** Every successor of a recorded node is recorded or still on the work
      list. */
  ghost predicate Closed(g: Graph, seen: seq<nat>, queue: seq<nat>)
  {
    forall x, y :: x in seen && x < |g| && y in Successors(g, x) ==> y in seen || y in queue
  }

  /** Recording a node that was not yet recorded and pushing its successors
      keeps the traversal's invariant. */
  lemma {:induction false} VisitStep(g: Graph, root: nat, rest: seq<nat>, n: nat, seen: seq<nat>)
    requires WellFormed(g) && n < |g| && AllBelow(rest, |g|) && AllBelow(seen, |g|)
    requires n !in seen && Distinct(seen) && Closed(g, seen, rest + [n])
    requires forall x :: x in seen ==> Reachable(g, root, x)
    requires Reachable(g, root, n)
    ensures var queue', seen' := rest + Successors(g, n), seen + [n];
      AllBelow(queue', |g|) && AllBelow(seen', |g|) && Distinct(seen') && Closed(g, seen', queue') &&
      (forall x :: x in seen' ==> Reachable(g, root, x)) &&
      (forall x :: x in Successors(g, n) ==> Reachable(g, root, x))
  {
    var queue', seen' := rest + Successors(g, n), seen + [n];
    SuccessorsIn(g, n);
    forall y | y in Successors(g, n) ensures Reachable(g, root, y) {
      ReachableStep(g, root, n, y);
    }
    assert Closed(g, seen', queue') by {
      forall x, y | x in seen' && x < |g| && y in Successors(g, x) ensures y in seen' || y in queue' {
        if x != n {
          assert y in seen || y in rest + [n];
        }
      }
    }
  }

  lemma {:induction false} VisitSpec(g: Graph, root: nat, queue: seq<nat>, seen: seq<nat>)
    requires WellFormed(g) && AllBelow(queue, |g|) && AllBelow(seen, |g|)
    requires Distinct(seen) && Closed(g, seen, queue)
    requires forall x :: x in seen ==> Reachable(g, root, x)
    requires forall x :: x in queue ==> Reachable(g, root, x)
    ensures var r := Visit(g, queue, seen);
      Distinct(r) && AllBelow(r, |g|) && seen <= r &&
      (forall x :: x in queue ==> x in r) &&
      Closed(g, r, []) &&
      (forall x :: x in r ==> Reachable(g, root, x))
    decreases Unvisited(g, seen), |queue|
  {
    if queue != [] {
      var n := queue[|queue| - 1];
      var rest := queue[..|queue| - 1];
      assert queue == rest + [n];
      if n in seen {
        assert Closed(g, seen, rest);
        VisitSpec(g, root, rest, seen);
      } else {
        assert n in Unvisited(g, seen) - Unvisited(g, seen + [n]);
        VisitStep(g, root, rest, n, seen);
        VisitSpec(g, root, rest + Successors(g, n), seen + [n]);
      }
    }
  }

  /** The enumeration starts at the root, records no node twice, and
      records exactly the nodes reachable from the root. */
  lemma {:induction false} EnumerateSpec(g: Graph, root: nat)
    requires WellFormed(g) && root < |g|
    ensures var r := Enumerate(g, root);
      |r| > 0 && r[0] == root && Distinct(r) && AllBelow(r, |g|) &&
      (forall n :: n in r <==> Reachable(g, root, n))
  {
    RootReachable(g, root);
    var r := Enumerate(g, root);
    VisitSpec(g, root, [root], []);
    var r1 := Visit(g, Successors(g, root), [root]);
    assert [root][..0] == [] && [] + [root] == [root];
    assert [] + Successors(g, root) == Successors(g, root);
    assert r == r1;
    VisitSpec(g, root, Successors(g, root), [root]);
    forall n | Reachable(g, root, n) ensures n in r {
      var p :| IsPath(g, p) && p[0] == root && p[|p| - 1] == n;
      PathStaysInside(g, r, p);
    }
  }

  /** Popping a node already recorded drops it. */
  lemma VisitSkip(g: Graph, rest: seq<nat>, n: nat, seen: seq<nat>)
    requires WellFormed(g) && n < |g| && AllBelow(rest, |g|) && AllBelow(seen, |g|) && n in seen
    ensures Visit(g, rest + [n], seen) == Visit(g, rest, seen)
  {
    assert (rest + [n])[..|rest|] == rest;
  }

  /** Popping a node not yet recorded records it and pushes its
      successors. */
  lemma VisitRecord(g: Graph, rest: seq<nat>, n: nat, seen: seq<nat>)
    requires WellFormed(g) && n < |g| && AllBelow(rest, |g|) && AllBelow(seen, |g|) && n !in seen
    ensures AllBelow(rest + Successors(g, n), |g|) && AllBelow(seen + [n], |g|)
    ensures Visit(g, rest + [n], seen) == Visit(g, rest + Successors(g, n), seen + [n])
  {
    SuccessorsIn(g, n);
    assert (rest + [n])[..|rest|] == rest;
  }

  /** The pushes of one visit: the target of every regular edge, in order,
      then that of the otherwise edge. */
  method PushSuccessors(g: Graph, node: nat, queue: seq<nat>) returns (queue': seq<nat>)
    requires node < |g|
    ensures queue' == queue + Successors(g, node)
  {
    queue' := queue;
    var edges := g[node].edges;
    var i := 0;
    while i < |edges|
      invariant i <= |edges|
      invariant queue' == queue + TargetsOf(edges[..i])
    {
      queue' := queue' + [edges[i].target];
      i := i + 1;
      assert TargetsOf(edges[..i]) == TargetsOf(edges[..i - 1]) + [edges[i - 1].target];
    }
    assert edges[..i] == edges;

    var otherwise := g[node].otherwise;
    if otherwise.Some? {
      queue' := queue' + [otherwise.value.target];
    }
  }

  /** The work-list loop of `enumerateNodes`. */
  method EnumerateNodes(g: Graph, root: nat) returns (order: seq<nat>)
    requires WellFormed(g) && root < |g|
    ensures order == Enumerate(g, root)
    ensures |order| > 0 && order[0] == root && Distinct(order)
    ensures forall n :: n in order <==> Reachable(g, root, n)
  {
    var queue := [root];
    var seen: seq<nat> := [];
    while queue != []
      invariant AllBelow(queue, |g|) && AllBelow(seen, |g|)
      invariant Visit(g, queue, seen) == Enumerate(g, root)
      decreases Unvisited(g, seen), |queue|
    {
      var node := queue[|queue| - 1];
      assert queue == queue[..|queue| - 1] + [node];
      queue := queue[..|queue| - 1];
      if node in seen {
        VisitSkip(g, queue, node, seen);
        continue;
      }
      VisitRecord(g, queue, node, seen);
      assert node in Unvisited(g, seen) - Unvisited(g, seen + [node]);
      seen := seen + [node];
      queue := PushSuccessors(g, node, queue);
    }
    order := seen;
    EnumerateSpec(g, root);
  }
}
