/** The state-machine graph that the renderer reads.  The builder's node
    objects become indices into a sequence of node records; an edge names its
    target by index. */
module Graph {
  import opened Wrappers

  newtype byte = x: int | 0 <= x < 256

  /** The key of an edge: none (only meaningful on the otherwise edge), an
      invocation code, or a byte sequence to match. */
  datatype Key = NoKey | Code(code: int) | Bytes(bytes: seq<byte>)

  datatype Edge = Edge(target: nat, key: Key, noAdvance: bool)

  /** A node: its display name, its regular edges in the order the builder
      added them, and the optional otherwise edge. */
  datatype NodeRec = NodeRec(name: string, edges: seq<Edge>, otherwise: Option<Edge>)

  type Graph = seq<NodeRec>

  /** Every edge of the sequence points at a node of `g`. */
  predicate EdgesIn(g: Graph, es: seq<Edge>)
  {
    forall e :: e in es ==> e.target < |g|
  }

  /** Every edge of every node points at a node of the graph, as object
      references always do. */
  predicate WellFormed(g: Graph)
  {
    forall n :: 0 <= n < |g| ==>
      EdgesIn(g, g[n].edges) &&
      (g[n].otherwise.Some? ==> g[n].otherwise.value.target < |g|)
  }

  lemma OtherwiseIn(g: Graph, n: nat)
    requires WellFormed(g) && n < |g|
    ensures g[n].otherwise.Some? ==> g[n].otherwise.value.target < |g|
  {
  }

  /** The targets of a sequence of edges, in order. */
  function TargetsOf(es: seq<Edge>): (ts: seq<nat>)
    ensures |ts| == |es|
    ensures forall i :: 0 <= i < |es| ==> ts[i] == es[i].target
  {
    seq(|es|, i requires 0 <= i < |es| => es[i].target)
  }

  /** The nodes one step away from `n`: the targets of its regular edges,
      then the target of its otherwise edge. */
  function Successors(g: Graph, n: nat): seq<nat>
    requires n < |g|
  {
    TargetsOf(g[n].edges) +
    (match g[n].otherwise
     case Some(e) => [e.target]
     case None => [])
  }

  lemma {:induction false} SuccessorsIn(g: Graph, n: nat)
    requires WellFormed(g) && n < |g|
    ensures forall y :: y in Successors(g, n) ==> y < |g|
  {
    forall y | y in Successors(g, n) ensures y < |g| {
      var k :| 0 <= k < |Successors(g, n)| && Successors(g, n)[k] == y;
      if k < |g[n].edges| {
        assert g[n].edges[k] in g[n].edges;
      }
    }
  }

  /** A non-empty walk through the graph along regular and otherwise edges. */
  ghost predicate IsPath(g: Graph, p: seq<nat>)
  {
    |p| > 0 &&
    (forall i :: 0 <= i < |p| ==> p[i] < |g|) &&
    (forall i :: 0 <= i < |p| - 1 ==> p[i + 1] in Successors(g, p[i]))
  }

  ghost predicate Reachable(g: Graph, root: nat, n: nat)
  {
    exists p :: IsPath(g, p) && p[0] == root && p[|p| - 1] == n
  }

  lemma {:induction false} RootReachable(g: Graph, root: nat)
    requires root < |g|
    ensures Reachable(g, root, root)
  {
    assert IsPath(g, [root]);
  }

  /** One more step keeps a node reachable. */
  lemma {:induction false} ReachableStep(g: Graph, root: nat, x: nat, y: nat)
    requires WellFormed(g) && x < |g|
    requires Reachable(g, root, x)
    requires y in Successors(g, x)
    ensures Reachable(g, root, y)
  {
    var p :| IsPath(g, p) && p[0] == root && p[|p| - 1] == x;
    var q := p + [y];
    var k :| 0 <= k < |Successors(g, x)| && Successors(g, x)[k] == y;
    if k < |g[x].edges| {
      assert g[x].edges[k] in g[x].edges;
    }
    assert IsPath(g, q);
  }

  /** A set of nodes closed under the successor relation holds the end of
      every path that starts inside it. */
  lemma {:induction false} PathStaysInside(g: Graph, s: seq<nat>, p: seq<nat>)
    requires IsPath(g, p) && p[0] in s
    requires forall x, y :: x in s && x < |g| && y in Successors(g, x) ==> y in s
    ensures p[|p| - 1] in s
  {
    if |p| > 1 {
      var q := p[..|p| - 1];
      assert IsPath(g, q);
      PathStaysInside(g, s, q);
      assert p[|p| - 2] == q[|q| - 1];
    }
  }
}
