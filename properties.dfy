/** What the rendered document says about the graph: when rendering fails,
    and which statements the text of a node holds. */
module Properties {
  import opened Wrappers
  import opened Graph
  import opened Traversal
  import opened Grouping
  import opened Classification
  import opened Ranges
  import opened DotText
  import opened Rendering

  /** An edge map fails exactly when one of its groups holds a key-less
      edge, always with the assertion's message. */
  lemma {:induction false} EdgeMapFails(g: Graph, n: nat, gs: seq<Group>, kind: EdgeKind)
    requires n < |g| && TargetsIn(g, gs)
    requires kind == Advance || kind == NoAdvance
    ensures EdgeMapLines(g, n, gs, kind).Failure? <==> HasKeyless(Flatten(gs))
    ensures EdgeMapLines(g, n, gs, kind).Failure? ==>
      EdgeMapLines(g, n, gs, kind).message == UnexpectedOtherwise
    decreases |gs|
  {
    if gs == [] {
      assert !HasKeyless([]);
    } else {
      ClassifySpec(gs[0].edges);
      EdgeMapFails(g, n, gs[1..], kind);
      HasKeylessAppend(gs[0].edges, Flatten(gs[1..]));
    }
  }

  /** Rendering a node fails exactly when one of its regular edges has no
      key. */
  lemma NodeFails(g: Graph, n: nat)
    requires WellFormed(g) && n < |g|
    ensures NodeLines(g, n).Failure? <==> HasKeyless(g[n].edges)
    ensures NodeLines(g, n).Failure? ==> NodeLines(g, n).message == UnexpectedOtherwise
  {
    var es := g[n].edges;
    GroupTargetsIn(g, es, false);
    GroupTargetsIn(g, es, true);
    var a := GroupByTarget(Bucket(es, false));
    var b := GroupByTarget(Bucket(es, true));
    EdgeMapFails(g, n, a, Advance);
    EdgeMapFails(g, n, b, NoAdvance);
    SplitPartition(es);
    HasKeylessAppend(Flatten(a), Flatten(b));
    HasKeylessPermutation(Flatten(a) + Flatten(b), es);
  }

  /** A list of nodes fails exactly when one of them has a key-less
      regular edge. */
  lemma {:induction false} NodesFail(g: Graph, ns: seq<nat>)
    requires WellFormed(g) && AllBelow(ns, |g|)
    ensures NodesLines(g, ns).Failure? <==>
      exists i :: 0 <= i < |ns| && HasKeyless(g[ns[i]].edges)
    ensures NodesLines(g, ns).Failure? ==> NodesLines(g, ns).message == UnexpectedOtherwise
    decreases |ns|
  {
    if ns != [] {
      NodeFails(g, ns[0]);
      NodesFail(g, ns[1..]);
      if exists i :: 0 <= i < |ns| && HasKeyless(g[ns[i]].edges) {
        var i :| 0 <= i < |ns| && HasKeyless(g[ns[i]].edges);
        if i > 0 {
          assert ns[1..][i - 1] == ns[i];
        }
      }
      if exists i :: 0 <= i < |ns[1..]| && HasKeyless(g[ns[1..][i]].edges) {
        var i :| 0 <= i < |ns[1..]| && HasKeyless(g[ns[1..][i]].edges);
        assert ns[i + 1] == ns[1..][i];
      }
    }
  }

  /** Rendering fails exactly when a node reachable from the root has a
      regular edge without a key, and then with the assertion's message;
      nodes that cannot be reached are never looked at. */
  lemma DocumentFails(g: Graph, root: nat)
    requires WellFormed(g) && root < |g|
    ensures Document(g, root).Failure? <==>
      exists n :: 0 <= n < |g| && Reachable(g, root, n) && HasKeyless(g[n].edges)
    ensures Document(g, root).Failure? ==> Document(g, root).message == UnexpectedOtherwise
  {
    EnumerateSpec(g, root);
    var order := Enumerate(g, root);
    NodesFail(g, order);
    if Document(g, root).Failure? {
      var i :| 0 <= i < |order| && HasKeyless(g[order[i]].edges);
      assert order[i] in order;
    }
    if exists n :: 0 <= n < |g| && Reachable(g, root, n) && HasKeyless(g[n].edges) {
      var n :| 0 <= n < |g| && Reachable(g, root, n) && HasKeyless(g[n].edges);
      var i :| 0 <= i < |order| && order[i] == n;
    }
  }

  /** `line` is an edge statement from `source` to `target` drawn in one
      of `colors`. */
  predicate Says(line: string, source: string, target: string, colors: set<string>)
  {
    var st := ParseLine(line);
    st.Some? && st.value.source == source && st.value.target == target && st.value.color in colors
  }

  const AllColors: set<string> := {ColorAdvance, ColorNoAdvance, ColorInvoke}

  /** Every statement of `ls` goes from `source` to `target` in one of
      `colors`. */
  predicate AllSay(ls: seq<string>, source: string, target: string, colors: set<string>)
  {
    forall i :: 0 <= i < |ls| ==> Says(ls[i], source, target, colors)
  }

  lemma AllSayAppend(a: seq<string>, b: seq<string>, source: string, target: string, colors: set<string>)
    requires AllSay(a, source, target, colors) && AllSay(b, source, target, colors)
    ensures AllSay(a + b, source, target, colors)
  {
    forall i | 0 <= i < |a + b| ensures Says((a + b)[i], source, target, colors) {
      if i >= |a| {
        assert (a + b)[i] == b[i - |a|];
      }
    }
  }

  lemma RangeLinesSay(source: string, target: string, rs: seq<Range>, kind: EdgeKind, colors: set<string>)
    requires KindColor(kind) in colors
    ensures AllSay(RangeLines(source, target, rs, kind), source, target, colors)
  {
    forall i | 0 <= i < |rs|
      ensures Says(RangeLines(source, target, rs, kind)[i], source, target, colors)
    {
      BuildRangeReadsBack(source, target, rs[i], kind);
    }
  }

  lemma EdgeLinesSay(source: string, target: string, es: seq<Edge>, kind: EdgeKind, colors: set<string>)
    requires kind != Otherwise
    requires forall i :: 0 <= i < |es| ==> Fits(es[i], kind)
    requires if kind == Invoke then ColorInvoke in colors else KindColor(kind) in colors
    ensures AllSay(EdgeLines(source, target, es, kind), source, target, colors)
  {
    forall i | 0 <= i < |es|
      ensures Says(EdgeLines(source, target, es, kind)[i], source, target, colors)
    {
      BuildEdgeReadsBack(source, target, es[i], kind);
    }
  }

  /** Every statement of an edge-map entry goes from the node to the
      entry's target, in the map's colour or, for invocations, green. */
  lemma GroupSays(g: Graph, n: nat, grp: Group, kind: EdgeKind)
    requires n < |g| && grp.target < |g|
    requires kind == Advance || kind == NoAdvance
    ensures GroupLines(g, n, grp, kind).Ok? ==>
      AllSay(GroupLines(g, n, grp, kind).value, g[n].name, g[grp.target].name, {KindColor(kind), ColorInvoke})
  {
    ClassifySpec(grp.edges);
    if Classify(grp.edges).Ok? {
      var c := Classify(grp.edges).value;
      var source, target := g[n].name, g[grp.target].name;
      var cs := {KindColor(kind), ColorInvoke};
      var r := RangeLines(source, target, Compress(SingleKeys(c.single)), kind);
      var q := EdgeLines(source, target, c.sequence, kind);
      var k := EdgeLines(source, target, c.code, Invoke);
      assert GroupLines(g, n, grp, kind).value == r + q + k;
      RangeLinesSay(source, target, Compress(SingleKeys(c.single)), kind, cs);
      EdgeLinesSay(source, target, c.sequence, kind, cs);
      EdgeLinesSay(source, target, c.code, Invoke, cs);
      AllSayAppend(r, q, source, target, cs);
      AllSayAppend(r + q, k, source, target, cs);
    }
  }

  /** The targets of the entries of an edge map. */
  function MapTargets(gs: seq<Group>): set<nat>
  {
    set k | 0 <= k < |gs| :: gs[k].target
  }

  /** `line` is an edge statement from node `n` to one of the nodes `ts`,
      drawn in one of `colors`. */
  predicate SaysTo(g: Graph, n: nat, ts: set<nat>, line: string, colors: set<string>)
    requires n < |g|
  {
    exists t :: t in ts && t < |g| && Says(line, g[n].name, g[t].name, colors)
  }

  /** Every line of `ls` is an edge statement from node `n` to one of the
      nodes `ts`, drawn in one of `colors`. */
  predicate AllSayTo(g: Graph, n: nat, ts: set<nat>, ls: seq<string>, colors: set<string>)
    requires n < |g|
  {
    forall i :: 0 <= i < |ls| ==> SaysTo(g, n, ts, ls[i], colors)
  }

  /** Every statement of an edge map goes from the node to the target of
      one of the map's entries. */
  lemma {:induction false} EdgeMapSays(g: Graph, n: nat, gs: seq<Group>, kind: EdgeKind)
    requires n < |g| && TargetsIn(g, gs)
    requires kind == Advance || kind == NoAdvance
    ensures EdgeMapLines(g, n, gs, kind).Ok? ==>
      AllSayTo(g, n, MapTargets(gs), EdgeMapLines(g, n, gs, kind).value, {KindColor(kind), ColorInvoke})
    decreases |gs|
  {
    if gs != [] && EdgeMapLines(g, n, gs, kind).Ok? {
      var x := GroupLines(g, n, gs[0], kind);
      var y := EdgeMapLines(g, n, gs[1..], kind);
      assert EdgeMapLines(g, n, gs, kind) == Both(x, y);
      assert x.Ok? && y.Ok?;
      var first, rest := x.value, y.value;
      var ls := first + rest;
      assert EdgeMapLines(g, n, gs, kind).value == ls;
      GroupSays(g, n, gs[0], kind);
      EdgeMapSays(g, n, gs[1..], kind);
      assert gs[0].target in MapTargets(gs);
      assert MapTargets(gs[1..]) <= MapTargets(gs) by {
        forall t | t in MapTargets(gs[1..]) ensures t in MapTargets(gs) {
          var k :| 0 <= k < |gs[1..]| && gs[1..][k].target == t;
          assert gs[k + 1].target == t;
        }
      }
      var cs := {KindColor(kind), ColorInvoke};
      assert AllSayTo(g, n, MapTargets(gs[1..]), rest, cs);
      forall i | 0 <= i < |ls| ensures SaysTo(g, n, MapTargets(gs), ls[i], cs) {
        if i < |first| {
          assert Says(ls[i], g[n].name, g[gs[0].target].name, cs);
        } else {
          assert ls[i] == rest[i - |first|];
          assert SaysTo(g, n, MapTargets(gs[1..]), rest[i - |first|], cs);
          var t :| t in MapTargets(gs[1..]) && t < |g| && Says(ls[i], g[n].name, g[t].name, cs);
          assert t in MapTargets(gs);
        }
      }
    }
  }

  /** The entries of a node's edge maps are keyed by successors of the
      node. */
  lemma GroupTargetsAreSuccessors(g: Graph, n: nat, noAdvance: bool)
    requires n < |g|
    ensures var gs := GroupByTarget(Bucket(g[n].edges, noAdvance));
      forall k :: 0 <= k < |gs| ==> gs[k].target in Successors(g, n)
  {
    var es := g[n].edges;
    var b := Bucket(es, noAdvance);
    var gs := GroupByTarget(b);
    GroupTargetsOccur(b);
    BucketMembers(es, noAdvance);
    forall k | 0 <= k < |gs| ensures gs[k].target in Successors(g, n) {
      var i := FirstIndex(b, gs[k].target);
      assert b[i] in b;
      var j :| 0 <= j < |es| && es[j] == b[i];
      assert Successors(g, n)[j] == TargetsOf(es)[j];
    }
  }

  /** `line` is an edge statement from node `n` to one of its successors. */
  predicate ToSuccessor(g: Graph, n: nat, line: string)
    requires n < |g|
  {
    exists t :: t in Successors(g, n) && t < |g| && Says(line, g[n].name, g[t].name, AllColors)
  }

  /** Every statement of one of a node's edge maps goes to a successor. */
  lemma EdgeMapToSuccessors(g: Graph, n: nat, noAdvance: bool, kind: EdgeKind)
    requires n < |g| && EdgesIn(g, g[n].edges)
    requires kind == (if noAdvance then NoAdvance else Advance)
    ensures var gs := GroupByTarget(Bucket(g[n].edges, noAdvance));
      TargetsIn(g, gs) &&
      (EdgeMapLines(g, n, gs, kind).Ok? ==>
        forall i :: 0 <= i < |EdgeMapLines(g, n, gs, kind).value| ==>
          ToSuccessor(g, n, EdgeMapLines(g, n, gs, kind).value[i]))
  {
    var gs := GroupByTarget(Bucket(g[n].edges, noAdvance));
    GroupTargetsIn(g, g[n].edges, noAdvance);
    EdgeMapSays(g, n, gs, kind);
    GroupTargetsAreSuccessors(g, n, noAdvance);
    if EdgeMapLines(g, n, gs, kind).Ok? {
      var ls := EdgeMapLines(g, n, gs, kind).value;
      assert AllSayTo(g, n, MapTargets(gs), ls, {KindColor(kind), ColorInvoke});
      forall i | 0 <= i < |ls| ensures ToSuccessor(g, n, ls[i]) {
        assert SaysTo(g, n, MapTargets(gs), ls[i], {KindColor(kind), ColorInvoke});
        var t :| t in MapTargets(gs) && t < |g| &&
          Says(ls[i], g[n].name, g[t].name, {KindColor(kind), ColorInvoke});
        var k :| 0 <= k < |gs| && gs[k].target == t;
        assert t in Successors(g, n);
      }
    }
  }

  /** Every statement of a node goes from the node to one of its
      successors. */
  lemma NodeSays(g: Graph, n: nat)
    requires WellFormed(g) && n < |g|
    ensures NodeLines(g, n).Ok? ==>
      forall i :: 0 <= i < |NodeLines(g, n).value| ==> ToSuccessor(g, n, NodeLines(g, n).value[i])
  {
    var es := g[n].edges;
    var a := GroupByTarget(Bucket(es, false));
    var b := GroupByTarget(Bucket(es, true));
    assert EdgesIn(g, es);
    EdgeMapToSuccessors(g, n, false, Advance);
    EdgeMapToSuccessors(g, n, true, NoAdvance);
    if NodeLines(g, n).Ok? {
      var x := EdgeMapLines(g, n, a, Advance);
      var y := EdgeMapLines(g, n, b, NoAdvance);
      var lo := OtherwiseLines(g, n);
      assert NodeLines(g, n) == Both(x, Both(y, Ok(lo)));
      assert x.Ok? && y.Ok?;
      var ls := x.value + (y.value + lo);
      assert NodeLines(g, n).value == ls;
      forall i | 0 <= i < |ls| ensures ToSuccessor(g, n, ls[i]) {
        if i < |x.value| {
        } else if i < |x.value| + |y.value| {
          assert ls[i] == y.value[i - |x.value|];
        } else {
          OtherwiseIn(g, n);
          var e := g[n].otherwise.value;
          assert ls[i] == BuildEdge(g[n].name, g[e.target].name, e, Otherwise);
          BuildEdgeReadsBack(g[n].name, g[e.target].name, e, Otherwise);
          assert Successors(g, n)[|Successors(g, n)| - 1] == e.target;
        }
      }
    }
  }

  /** `line` is an edge statement from one of the nodes `ns` to one of
      that node's successors. */
  predicate FromOneOf(g: Graph, ns: seq<nat>, line: string)
  {
    exists m :: m in ns && m < |g| && ToSuccessor(g, m, line)
  }

  lemma {:induction false} NodesSay(g: Graph, ns: seq<nat>)
    requires WellFormed(g) && AllBelow(ns, |g|)
    ensures NodesLines(g, ns).Ok? ==>
      forall i :: 0 <= i < |NodesLines(g, ns).value| ==> FromOneOf(g, ns, NodesLines(g, ns).value[i])
    decreases |ns|
  {
    if ns != [] && NodesLines(g, ns).Ok? {
      var x := NodeLines(g, ns[0]);
      var y := NodesLines(g, ns[1..]);
      assert NodesLines(g, ns) == Both(x, y);
      assert x.Ok? && y.Ok?;
      var ls := x.value + y.value;
      assert NodesLines(g, ns).value == ls;
      NodeSays(g, ns[0]);
      NodesSay(g, ns[1..]);
      forall i | 0 <= i < |ls| ensures FromOneOf(g, ns, ls[i]) {
        if i < |x.value| {
          assert ToSuccessor(g, ns[0], ls[i]);
          assert ns[0] in ns;
        } else {
          assert ls[i] == y.value[i - |x.value|];
          assert FromOneOf(g, ns[1..], y.value[i - |x.value|]);
          var m :| m in ns[1..] && m < |g| && ToSuccessor(g, m, ls[i]);
          assert m in ns;
        }
      }
    }
  }

  /** A rendered document is the header, a list of edge statements and the
      closing brace, and every statement goes from a node reachable from
      the root to one of that node's successors. */
  lemma DocumentSays(g: Graph, root: nat)
    requires WellFormed(g) && root < |g|
    ensures Document(g, root).Ok? ==>
      var body := NodesLines(g, Enumerate(g, root));
      body.Ok? && Document(g, root).value == Header + Concat(body.value) + Footer &&
      forall i :: 0 <= i < |body.value| ==>
        exists m :: 0 <= m < |g| && Reachable(g, root, m) && ToSuccessor(g, m, body.value[i])
  {
    EnumerateSpec(g, root);
    var order := Enumerate(g, root);
    var body := NodesLines(g, order);
    if Document(g, root).Ok? {
      NodesSay(g, order);
      forall i | 0 <= i < |body.value|
        ensures exists m :: 0 <= m < |g| && Reachable(g, root, m) && ToSuccessor(g, m, body.value[i])
      {
        assert FromOneOf(g, order, body.value[i]);
        var m :| m in order && m < |g| && ToSuccessor(g, m, body.value[i]);
        assert Reachable(g, root, m);
      }
    }
  }

  /** The label `caption` gives back the key of regular edge `e`: its
      invocation code, a range holding its single byte, or a single-quoted
      text that gives back its byte sequence when the bytes are ASCII. */
  predicate Covers(caption: string, e: Edge)
  {
    match e.key
    case NoKey => false
    case Code(c) => ReadCode(caption) == Some(c)
    case Bytes(b) =>
      if |b| == 1 then
        ReadRange(caption).Some? && ReadRange(caption).value.start <= b[0] <= ReadRange(caption).value.end
      else SingleQuoted(caption) && (Ascii(b) ==> ReadBuffer(caption) == Some(b))
  }

  /** The colour a regular edge is drawn in. */
  function RegularColor(e: Edge): string
  {
    if e.key.Code? then ColorInvoke else if e.noAdvance then ColorNoAdvance else ColorAdvance
  }

  /** `line` is a statement that draws regular edge `e` from `source` to
      `target`. */
  predicate DrawsLine(line: string, source: string, target: string, e: Edge)
  {
    var st := ParseLine(line);
    st.Some? && st.value.source == source && st.value.target == target &&
    Covers(st.value.caption, e) && st.value.color == RegularColor(e)
  }

  /** Some statement of `ls` draws regular edge `e` from `source` to
      `target`. */
  predicate Draws(ls: seq<string>, source: string, target: string, e: Edge)
  {
    exists i :: 0 <= i < |ls| && DrawsLine(ls[i], source, target, e)
  }

  lemma DrawsAppend(a: seq<string>, b: seq<string>, source: string, target: string, e: Edge)
    ensures Draws(a, source, target, e) ==> Draws(a + b, source, target, e)
    ensures Draws(b, source, target, e) ==> Draws(a + b, source, target, e)
  {
    if Draws(a, source, target, e) {
      var i :| 0 <= i < |a| && DrawsLine(a[i], source, target, e);
      assert (a + b)[i] == a[i];
    }
    if Draws(b, source, target, e) {
      var i :| 0 <= i < |b| && DrawsLine(b[i], source, target, e);
      assert (a + b)[|a| + i] == b[i];
    }
  }

  /** The edges of an entry all reach its target and all sit in the map of
      their flag. */
  predicate EntryOf(grp: Group, kind: EdgeKind)
  {
    forall e :: e in grp.edges ==> e.target == grp.target && (e.noAdvance <==> kind == NoAdvance)
  }

  /** A range holding the byte of a single-byte edge draws it. */
  lemma RangeDraws(source: string, target: string, r: Range, e: Edge, kind: EdgeKind)
    requires e.key.Bytes? && |e.key.bytes| == 1 && r.start <= e.key.bytes[0] <= r.end
    requires kind == Advance || kind == NoAdvance
    requires e.noAdvance <==> kind == NoAdvance
    ensures DrawsLine(BuildRange(source, target, r, kind), source, target, e)
  {
    BuildRangeReadsBack(source, target, r, kind);
  }

  /** The statement of a byte-sequence edge or an invocation draws it. */
  lemma EdgeDraws(source: string, target: string, e: Edge, kind: EdgeKind)
    requires (e.key.Bytes? && |e.key.bytes| != 1 && (kind == Advance || kind == NoAdvance)) ||
             (e.key.Code? && kind == Invoke)
    requires kind != Invoke ==> (e.noAdvance <==> kind == NoAdvance)
    ensures DrawsLine(BuildEdge(source, target, e, kind), source, target, e)
  {
    BuildEdgeReadsBack(source, target, e, kind);
  }

  /** A single-byte edge of a group is drawn by the range holding its
      byte. */
  lemma SingleDrawn(source: string, target: string, c: Classes, e: Edge, kind: EdgeKind)
    requires AllSingle(c.single) && e in c.single
    requires kind == Advance || kind == NoAdvance
    requires e.noAdvance <==> kind == NoAdvance
    ensures Draws(RangeLines(source, target, Compress(SingleKeys(c.single)), kind), source, target, e)
  {
    var keys := SingleKeys(c.single);
    var rs := Compress(keys);
    CompressSpec(keys);
    var j :| 0 <= j < |c.single| && c.single[j] == e;
    assert ExpandAll(rs)[j] == keys[j];
    ExpandAllMember(rs, j);
    var q :| 0 <= q < |rs| && rs[q].start <= ExpandAll(rs)[j] <= rs[q].end;
    var ls := RangeLines(source, target, rs, kind);
    RangeDraws(source, target, rs[q], e, kind);
    assert DrawsLine(ls[q], source, target, e);
  }

  /** Every edge of a group is drawn by one of the group's statements. */
  lemma GroupDraws(g: Graph, n: nat, grp: Group, kind: EdgeKind)
    requires n < |g| && grp.target < |g|
    requires kind == Advance || kind == NoAdvance
    requires EntryOf(grp, kind)
    ensures GroupLines(g, n, grp, kind).Ok? ==>
      forall e :: e in grp.edges ==> Draws(GroupLines(g, n, grp, kind).value, g[n].name, g[grp.target].name, e)
  {
    ClassifySpec(grp.edges);
    if Classify(grp.edges).Ok? {
      var c := Classify(grp.edges).value;
      var source, target := g[n].name, g[grp.target].name;
      var r := RangeLines(source, target, Compress(SingleKeys(c.single)), kind);
      var q := EdgeLines(source, target, c.sequence, kind);
      var k := EdgeLines(source, target, c.code, Invoke);
      assert GroupLines(g, n, grp, kind).value == r + q + k;
      forall e | e in grp.edges ensures Draws(r + q + k, source, target, e) {
        GroupMemberDrawn(source, target, c, grp.edges, e, kind);
      }
    }
  }

  /** One edge of a classified group is drawn by the group's statements. */
  lemma GroupMemberDrawn(source: string, target: string, c: Classes, es: seq<Edge>, e: Edge, kind: EdgeKind)
    requires multiset(c.single) + multiset(c.sequence) + multiset(c.code) == multiset(es)
    requires AllSingle(c.single)
    requires forall x :: x in c.sequence ==> x.key.Bytes? && |x.key.bytes| != 1
    requires forall x :: x in c.code ==> x.key.Code?
    requires kind == Advance || kind == NoAdvance
    requires e in es && (e.noAdvance <==> kind == NoAdvance)
    ensures Draws(RangeLines(source, target, Compress(SingleKeys(c.single)), kind) +
                  EdgeLines(source, target, c.sequence, kind) +
                  EdgeLines(source, target, c.code, Invoke), source, target, e)
  {
    var r := RangeLines(source, target, Compress(SingleKeys(c.single)), kind);
    var q := EdgeLines(source, target, c.sequence, kind);
    var k := EdgeLines(source, target, c.code, Invoke);
    assert e in multiset(es);
    if e in c.single {
      SingleDrawn(source, target, c, e, kind);
      DrawsAppend(r, q, source, target, e);
    } else if e in c.sequence {
      var j :| 0 <= j < |c.sequence| && c.sequence[j] == e;
      EdgeDraws(source, target, e, kind);
      assert DrawsLine(q[j], source, target, e);
      DrawsAppend(r, q, source, target, e);
    } else {
      assert e in c.code;
      var j :| 0 <= j < |c.code| && c.code[j] == e;
      EdgeDraws(source, target, e, Invoke);
      assert DrawsLine(k[j], source, target, e);
    }
    DrawsAppend(r + q, k, source, target, e);
  }

  /** Every entry of a map gathers edges to its own target with the map's
      flag. */
  predicate EntriesOf(gs: seq<Group>, kind: EdgeKind)
  {
    forall k :: 0 <= k < |gs| ==> EntryOf(gs[k], kind)
  }

  /** Every edge of every entry of an edge map is drawn by one of the map's
      statements. */
  lemma {:induction false} EdgeMapDraws(g: Graph, n: nat, gs: seq<Group>, kind: EdgeKind)
    requires n < |g| && TargetsIn(g, gs)
    requires kind == Advance || kind == NoAdvance
    requires EntriesOf(gs, kind)
    ensures EdgeMapLines(g, n, gs, kind).Ok? ==>
      forall k, e :: 0 <= k < |gs| && e in gs[k].edges ==>
        Draws(EdgeMapLines(g, n, gs, kind).value, g[n].name, g[gs[k].target].name, e)
    decreases |gs|
  {
    if gs != [] && EdgeMapLines(g, n, gs, kind).Ok? {
      var x := GroupLines(g, n, gs[0], kind);
      var y := EdgeMapLines(g, n, gs[1..], kind);
      assert EdgeMapLines(g, n, gs, kind) == Both(x, y);
      assert x.Ok? && y.Ok?;
      assert EntryOf(gs[0], kind);
      assert EntriesOf(gs[1..], kind) by {
        forall k | 0 <= k < |gs[1..]| ensures EntryOf(gs[1..][k], kind) {
          assert gs[1..][k] == gs[k + 1];
        }
      }
      GroupDraws(g, n, gs[0], kind);
      EdgeMapDraws(g, n, gs[1..], kind);
      forall k, e | 0 <= k < |gs| && e in gs[k].edges
        ensures Draws(x.value + y.value, g[n].name, g[gs[k].target].name, e)
      {
        if k == 0 {
          DrawsAppend(x.value, y.value, g[n].name, g[gs[k].target].name, e);
        } else {
          assert gs[k] == gs[1..][k - 1];
          DrawsAppend(x.value, y.value, g[n].name, g[gs[k].target].name, e);
        }
      }
    }
  }

  /** The entries of a node's edge map gather the node's edges to their
      target with the map's flag, and every such edge is in the entry for
      its target. */
  lemma MapEntries(es: seq<Edge>, noAdvance: bool, kind: EdgeKind)
    requires kind == (if noAdvance then NoAdvance else Advance)
    ensures var gs := GroupByTarget(Bucket(es, noAdvance));
      EntriesOf(gs, kind) &&
      forall e :: e in es && e.noAdvance == noAdvance ==>
        Find(gs, e.target) < |gs| && e in gs[Find(gs, e.target)].edges
  {
    var b := Bucket(es, noAdvance);
    var gs := GroupByTarget(b);
    GroupByTargetSpec(b);
    BucketMembers(es, noAdvance);
    forall k | 0 <= k < |gs| ensures EntryOf(gs[k], kind) {
      EdgesToMembers(b, gs[k].target);
    }
    forall e | e in es && e.noAdvance == noAdvance
      ensures Find(gs, e.target) < |gs| && e in gs[Find(gs, e.target)].edges
    {
      assert e in b;
      var i :| 0 <= i < |b| && b[i] == e;
      assert FirstIndex(b, e.target) <= i;
      EdgesToMembers(b, e.target);
    }
  }

  /** `line` is the statement of otherwise edge `e` from `source` to
      `target`: labelled "otherwise" and blue when it does not advance,
      "skipTo" and black when it does. */
  predicate OtherwiseLine(line: string, source: string, target: string, e: Edge)
  {
    ParseLine(line) == Some(Statement(source, target,
      if e.noAdvance then "otherwise" else "skipTo",
      if e.noAdvance then ColorNoAdvance else ColorAdvance))
  }

  /** Every edge of node `n`, the otherwise edge included, is drawn by a
      statement of `ls`. */
  predicate NodeDrawn(g: Graph, n: nat, ls: seq<string>)
    requires WellFormed(g) && n < |g|
  {
    (forall e :: e in g[n].edges ==> Draws(ls, g[n].name, g[e.target].name, e)) &&
    (g[n].otherwise.Some? ==>
      exists i :: 0 <= i < |ls| &&
        OtherwiseLine(ls[i], g[n].name, g[g[n].otherwise.value.target].name, g[n].otherwise.value))
  }

  /** The statements of a node are its two edge maps' statements followed
      by that of its otherwise edge. */
  lemma NodeParts(g: Graph, n: nat)
    requires WellFormed(g) && n < |g| && NodeLines(g, n).Ok?
    ensures var es := g[n].edges;
      var a, b := GroupByTarget(Bucket(es, false)), GroupByTarget(Bucket(es, true));
      TargetsIn(g, a) && TargetsIn(g, b) &&
      EdgeMapLines(g, n, a, Advance).Ok? && EdgeMapLines(g, n, b, NoAdvance).Ok? &&
      NodeLines(g, n).value ==
        EdgeMapLines(g, n, a, Advance).value + EdgeMapLines(g, n, b, NoAdvance).value + OtherwiseLines(g, n)
  {
    var es := g[n].edges;
    assert EdgesIn(g, es);
    GroupTargetsIn(g, es, false);
    GroupTargetsIn(g, es, true);
  }

  /** Every regular edge of node `n` is drawn from the node to its target. */
  lemma RegularEdgesDrawn(g: Graph, n: nat)
    requires WellFormed(g) && n < |g| && NodeLines(g, n).Ok?
    ensures forall e :: e in g[n].edges ==> Draws(NodeLines(g, n).value, g[n].name, g[e.target].name, e)
  {
    NodeParts(g, n);
    var es := g[n].edges;
    var a, b := GroupByTarget(Bucket(es, false)), GroupByTarget(Bucket(es, true));
    var x, y := EdgeMapLines(g, n, a, Advance).value, EdgeMapLines(g, n, b, NoAdvance).value;
    var lo := OtherwiseLines(g, n);
    MapEntries(es, false, Advance);
    MapEntries(es, true, NoAdvance);
    EdgeMapDraws(g, n, a, Advance);
    EdgeMapDraws(g, n, b, NoAdvance);
    forall e | e in es ensures Draws(x + y + lo, g[n].name, g[e.target].name, e) {
      if e.noAdvance {
        var k := Find(b, e.target);
        assert Draws(y, g[n].name, g[b[k].target].name, e);
        DrawsAppend(x, y, g[n].name, g[e.target].name, e);
      } else {
        var k := Find(a, e.target);
        assert Draws(x, g[n].name, g[a[k].target].name, e);
        DrawsAppend(x, y, g[n].name, g[e.target].name, e);
      }
      DrawsAppend(x + y, lo, g[n].name, g[e.target].name, e);
    }
  }

  /** Every regular edge of node `n` is drawn from the node to its target,
      and so is its otherwise edge, if any. */
  lemma NodeDraws(g: Graph, n: nat)
    requires WellFormed(g) && n < |g|
    ensures NodeLines(g, n).Ok? ==> NodeDrawn(g, n, NodeLines(g, n).value)
  {
    if NodeLines(g, n).Ok? {
      RegularEdgesDrawn(g, n);
      NodeParts(g, n);
      var ls := NodeLines(g, n).value;
      if g[n].otherwise.Some? {
        OtherwiseIn(g, n);
        var e := g[n].otherwise.value;
        var i := |ls| - 1;
        assert ls[i] == BuildEdge(g[n].name, g[e.target].name, e, Otherwise);
        BuildEdgeReadsBack(g[n].name, g[e.target].name, e, Otherwise);
        assert OtherwiseLine(ls[i], g[n].name, g[e.target].name, e);
      }
    }
  }

  lemma NodeDrawnAppend(g: Graph, n: nat, a: seq<string>, b: seq<string>)
    requires WellFormed(g) && n < |g|
    ensures NodeDrawn(g, n, a) ==> NodeDrawn(g, n, a + b)
    ensures NodeDrawn(g, n, b) ==> NodeDrawn(g, n, a + b)
  {
    forall e | e in g[n].edges {
      DrawsAppend(a, b, g[n].name, g[e.target].name, e);
    }
    if g[n].otherwise.Some? {
      var o := g[n].otherwise.value;
      var source, target := g[n].name, g[o.target].name;
      if NodeDrawn(g, n, a) {
        var i :| 0 <= i < |a| && OtherwiseLine(a[i], source, target, o);
        assert (a + b)[i] == a[i];
      }
      if NodeDrawn(g, n, b) {
        var i :| 0 <= i < |b| && OtherwiseLine(b[i], source, target, o);
        assert (a + b)[|a| + i] == b[i];
      }
    }
  }

  /** The statements of a list of nodes draw every edge of each of them. */
  lemma {:induction false} NodesDraw(g: Graph, ns: seq<nat>)
    requires WellFormed(g) && AllBelow(ns, |g|)
    ensures NodesLines(g, ns).Ok? ==>
      forall i :: 0 <= i < |ns| ==> NodeDrawn(g, ns[i], NodesLines(g, ns).value)
    decreases |ns|
  {
    if ns != [] && NodesLines(g, ns).Ok? {
      var x := NodeLines(g, ns[0]);
      var y := NodesLines(g, ns[1..]);
      assert NodesLines(g, ns) == Both(x, y);
      assert x.Ok? && y.Ok?;
      NodeDraws(g, ns[0]);
      NodesDraw(g, ns[1..]);
      forall i | 0 <= i < |ns| ensures NodeDrawn(g, ns[i], x.value + y.value) {
        NodeDrawnAppend(g, ns[i], x.value, y.value);
        if i > 0 {
          assert ns[i] == ns[1..][i - 1];
        }
      }
    }
  }

  /** A rendered document draws every edge of every node reachable from the
      root: each regular edge by a statement whose label gives back its key
      and whose colour gives its kind, and each otherwise edge by a statement
      whose label and colour say whether it advances. */
  lemma DocumentDraws(g: Graph, root: nat)
    requires WellFormed(g) && root < |g|
    ensures Document(g, root).Ok? ==>
      var body := NodesLines(g, Enumerate(g, root));
      body.Ok? && Document(g, root).value == Header + Concat(body.value) + Footer &&
      forall m :: 0 <= m < |g| && Reachable(g, root, m) ==> NodeDrawn(g, m, body.value)
  {
    EnumerateSpec(g, root);
    var order := Enumerate(g, root);
    if Document(g, root).Ok? {
      NodesDraw(g, order);
      forall m | 0 <= m < |g| && Reachable(g, root, m) ensures NodeDrawn(g, m, NodesLines(g, order).value) {
        var i :| 0 <= i < |order| && order[i] == m;
      }
    }
  }
}
