/** The renderer itself, step by step as it builds its text: the
    classification and range loops of one edge-map entry, the loop over an
    edge map, the bucketing loop of a node, and the document loop. Each
    method is proved to produce the text `Rendering` defines. */
module Dot {
  import opened Wrappers
  import opened Graph
  import opened Traversal
  import opened Grouping
  import opened Classification
  import opened Ranges
  import opened DotText
  import opened Rendering

  /** The classification loop of one edge-map entry: fails on the first
      key-less edge, else sorts the edges into the three lists. */
  method ClassifyEdges(es: seq<Edge>) returns (r: Result<Classes>)
    ensures r == Classify(es)
  {
    var single: seq<Edge> := [];
    var sequence: seq<Edge> := [];
    var code: seq<Edge> := [];
    for i := 0 to |es|
      invariant !HasKeyless(es[..i])
      invariant single == OfShape(es[..i], SingleByte)
      invariant sequence == OfShape(es[..i], ByteSequence)
      invariant code == OfShape(es[..i], InvokeCode)
    {
      var edge := es[i];
      assert es[..i + 1][..i] == es[..i];
      if edge.key.NoKey? {
        return Failure(UnexpectedOtherwise);
      } else if edge.key.Code? {
        code := code + [edge];
      } else if |edge.key.bytes| == 1 {
        single := single + [edge];
      } else {
        sequence := sequence + [edge];
      }
      assert es[..i + 1] == es[..i] + [edge];
      HasKeylessAppend(es[..i], [edge]);
    }
    assert es[..|es|] == es;
    return Ok(Classes(single, sequence, code));
  }

  /** The range loop: `firstKey` and `lastKey` delimit the open range; a
      key one above `lastKey` extends it, any other key closes it and opens
      a new one; the open range is closed at the end. */
  method CompressKeys(single: seq<Edge>) returns (ranges: seq<Range>)
    requires AllSingle(single)
    ensures ranges == Compress(SingleKeys(single))
  {
    ranges := [];
    var firstKey: Option<byte> := None;
    var lastKey: Option<byte> := None;
    for i := 0 to |single|
      invariant firstKey.Some? == lastKey.Some?
      invariant lastKey.None? ==> ranges == [] && Compress(SingleKeys(single[..i])) == []
      invariant lastKey.Some? ==>
        Compress(SingleKeys(single[..i])) == ranges + [Range(firstKey.value, lastKey.value)]
    {
      assert single[i] in single;
      var key := single[i].key.bytes[0];
      ghost var keys := SingleKeys(single[..i + 1]);
      assert keys[..|keys| - 1] == SingleKeys(single[..i]);
      assert keys[|keys| - 1] == key;
      if lastKey.Some? && lastKey.value as int == key as int - 1 {
        lastKey := Some(key);
        continue;
      }
      if lastKey.Some? {
        ranges := ranges + [Range(firstKey.value, lastKey.value)];
      }
      firstKey := Some(key);
      lastKey := Some(key);
    }
    assert single[..|single|] == single;
    if lastKey.Some? {
      ranges := ranges + [Range(firstKey.value, lastKey.value)];
    }
  }

  /** The loop writing the ranges of an entry. */
  method EmitRanges(text: string, source: string, target: string, ranges: seq<Range>, kind: EdgeKind)
    returns (res: string)
    ensures res == text + Concat(RangeLines(source, target, ranges, kind))
  {
    ghost var lines := RangeLines(source, target, ranges, kind);
    res := text;
    for i := 0 to |ranges|
      invariant res == text + Concat(lines[..i])
    {
      var line := BuildRange(source, target, ranges[i], kind);
      assert line == lines[i];
      ConcatExtend(text, lines, i, res);
      res := res + line;
    }
    assert lines[..|ranges|] == lines;
  }

  /** The loops writing the byte-sequence edges or the invocations of an
      entry. */
  method EmitEdges(text: string, source: string, target: string, es: seq<Edge>, kind: EdgeKind)
    returns (res: string)
    requires forall i :: 0 <= i < |es| ==> Fits(es[i], kind)
    ensures res == text + Concat(EdgeLines(source, target, es, kind))
  {
    ghost var lines := EdgeLines(source, target, es, kind);
    res := text;
    for i := 0 to |es|
      invariant res == text + Concat(lines[..i])
    {
      var line := BuildEdge(source, target, es[i], kind);
      assert line == lines[i];
      ConcatExtend(text, lines, i, res);
      res := res + line;
    }
    assert lines[..|es|] == lines;
  }

  /** One entry of an edge map: classify its edges, compress the
      single-byte keys into ranges, then write the ranges, the byte-sequence
      edges and the invocations. */
  method BuildGroup(g: Graph, n: nat, grp: Group, kind: EdgeKind) returns (res: Result<string>)
    requires n < |g| && grp.target < |g|
    requires kind == Advance || kind == NoAdvance
    ensures res == Joined(GroupLines(g, n, grp, kind))
  {
    var classes := ClassifyEdges(grp.edges);
    if classes.Failure? {
      return Failure(classes.message);
    }
    ClassifySpec(grp.edges);
    var c := classes.value;
    var ranges := CompressKeys(c.single);
    var source, target := g[n].name, g[grp.target].name;
    var t1 := EmitRanges("", source, target, ranges, kind);
    var t2 := EmitEdges(t1, source, target, c.sequence, kind);
    var text := EmitEdges(t2, source, target, c.code, Invoke);
    ConcatChain(t1, t2, text, RangeLines(source, target, ranges, kind),
      EdgeLines(source, target, c.sequence, kind), EdgeLines(source, target, c.code, Invoke));
    return Ok(text);
  }

  /** `buildEdgeMap`: the entries of the map in insertion order. */
  method BuildEdgeMap(g: Graph, n: nat, groups: seq<Group>, kind: EdgeKind) returns (res: Result<string>)
    requires n < |g| && TargetsIn(g, groups)
    requires kind == Advance || kind == NoAdvance
    ensures res == Joined(EdgeMapLines(g, n, groups, kind))
  {
    var text := "";
    assert groups[0..] == groups;
    PrefixedEmpty(Joined(EdgeMapLines(g, n, groups, kind)));
    for j := 0 to |groups|
      invariant Joined(EdgeMapLines(g, n, groups, kind))
        == Prefixed(text, Joined(EdgeMapLines(g, n, groups[j..], kind)))
    {
      var part := BuildGroup(g, n, groups[j], kind);
      assert groups[j..][1..] == groups[j + 1..];
      PrefixedBoth(text, GroupLines(g, n, groups[j], kind), EdgeMapLines(g, n, groups[j + 1..], kind));
      if part.Failure? {
        return Failure(part.message);
      }
      text := text + part.value;
    }
    assert groups[|groups|..] == [];
    PrefixedDone(text);
    return Ok(text);
  }

  /** The bucketing loop of `buildNode`: each edge goes to the advancing or
      the non-advancing edge map, onto the list of its target if the map
      has one, else into a new entry at the end. */
  method SplitEdges(es: seq<Edge>) returns (advance: seq<Group>, noAdvance: seq<Group>)
    ensures advance == GroupByTarget(Bucket(es, false))
    ensures noAdvance == GroupByTarget(Bucket(es, true))
  {
    advance := [];
    noAdvance := [];
    for i := 0 to |es|
      invariant advance == GroupByTarget(Bucket(es[..i], false))
      invariant noAdvance == GroupByTarget(Bucket(es[..i], true))
    {
      var edge := es[i];
      assert es[..i + 1][..i] == es[..i];
      var targets := if edge.noAdvance then noAdvance else advance;
      ghost var before := targets;
      var k := Find(targets, edge.target);
      if k < |targets| {
        targets := targets[k := Group(targets[k].target, targets[k].edges + [edge])];
      } else {
        targets := targets + [Group(edge.target, [edge])];
      }
      assert targets == Insert(before, edge);
      ghost var b := Bucket(es[..i + 1], edge.noAdvance);
      assert b == Bucket(es[..i], edge.noAdvance) + [edge];
      assert b[..|b| - 1] == Bucket(es[..i], edge.noAdvance);
      assert Bucket(es[..i + 1], !edge.noAdvance) == Bucket(es[..i], !edge.noAdvance);
      if edge.noAdvance {
        noAdvance := targets;
      } else {
        advance := targets;
      }
    }
    assert es[..|es|] == es;
  }

  /** The tail of `buildNode`: the statement of the otherwise edge, if the
      node has one. */
  method BuildOtherwise(g: Graph, n: nat) returns (res: string)
    requires WellFormed(g) && n < |g|
    ensures res == Concat(OtherwiseLines(g, n))
  {
    OtherwiseIn(g, n);
    res := "";
    if g[n].otherwise.Some? {
      var e := g[n].otherwise.value;
      res := res + BuildEdge(g[n].name, g[e.target].name, e, Otherwise);
      ConcatOne(res);
    }
  }

  /** `buildNode`: sorts the node's edges into its two edge maps, then
      writes both maps and the otherwise edge. */
  method BuildNode(g: Graph, n: nat) returns (res: Result<string>)
    requires WellFormed(g) && n < |g|
    ensures res == Joined(NodeLines(g, n))
  {
    var node := g[n];
    var advance, noAdvance := SplitEdges(node.edges);
    GroupTargetsIn(g, node.edges, false);
    GroupTargetsIn(g, node.edges, true);
    JoinedThree(EdgeMapLines(g, n, advance, Advance), EdgeMapLines(g, n, noAdvance, NoAdvance),
      OtherwiseLines(g, n));
    var a := BuildEdgeMap(g, n, advance, Advance);
    if a.Failure? {
      return Failure(a.message);
    }
    var b := BuildEdgeMap(g, n, noAdvance, NoAdvance);
    if b.Failure? {
      return Failure(b.message);
    }
    var other := BuildOtherwise(g, n);
    var text := a.value + b.value + other;
    return Ok(text);
  }

  /** `build`: the header, the statements of every node reachable from
      `root` in the order the work list discovers them, and the closing
      brace. */
  method Build(g: Graph, root: nat) returns (res: Result<string>)
    requires WellFormed(g) && root < |g|
    ensures res == Document(g, root)
  {
    var text := "";
    text := text + "digraph {\n";
    text := text + "rankdir=\"LR\"\n";
    text := text + "ranksep=\"1.0 equally\"\n";
    text := text + "overlap=\"false\"\n";
    text := text + "splines=\"true\"\n";
    text := text + "concentrate=\"true\"\n";
    assert text == Header;
    var order := EnumerateNodes(g, root);
    EnumerateSpec(g, root);
    assert order[0..] == order;
    for i := 0 to |order|
      invariant Document(g, root) == Wrapped(text, Joined(NodesLines(g, order[i..])), Footer)
    {
      var part := BuildNode(g, order[i]);
      assert order[i..][1..] == order[i + 1..];
      WrappedBoth(text, NodeLines(g, order[i]), NodesLines(g, order[i + 1..]), Footer);
      if part.Failure? {
        return Failure(part.message);
      }
      text := text + part.value;
    }
    assert order[|order|..] == [];
    WrappedDone(text, Footer);
    text := text + "}\n";
    return Ok(text);
  }
}
