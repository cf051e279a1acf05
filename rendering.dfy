/** What the renderer writes, as functions of the graph: the statement of
    each range and edge, the statements of a node, and the whole document.
    The imperative renderer in module `Dot` is proved to produce exactly
    these texts. */
module Rendering {
  import opened Wrappers
  import opened Graph
  import opened Traversal
  import opened Grouping
  import opened Classification
  import opened Ranges
  import opened Strings
  import opened DotText

  /** How an edge is drawn: as one of a node's advancing or non-advancing
      edges, as its otherwise edge, or as an invocation. */
  datatype EdgeKind = Advance | NoAdvance | Otherwise | Invoke

  const ColorAdvance: string := "black"
  const ColorNoAdvance: string := "blue"
  const ColorInvoke: string := "green"

  const Header: string :=
    "digraph {\n" + "rankdir=\"LR\"\n" + "ranksep=\"1.0 equally\"\n" +
    "overlap=\"false\"\n" + "splines=\"true\"\n" + "concentrate=\"true\"\n"
  const Footer: string := "}\n"

  /** The colour of ranges and byte-sequence edges of a map of `kind`. */
  function KindColor(kind: EdgeKind): string
  {
    if kind == NoAdvance then ColorNoAdvance else ColorAdvance
  }

  /** The key an edge must carry to be drawn as `kind`: a code for an
      invocation, bytes for a regular edge, anything for the otherwise
      edge. */
  predicate Fits(e: Edge, kind: EdgeKind)
  {
    match kind
    case Invoke => e.key.Code?
    case Otherwise => true
    case _ => e.key.Bytes?
  }

  /** The statement of a range of single-byte edges from `source` to
      `target`. */
  function BuildRange(source: string, target: string, r: Range, kind: EdgeKind): string
  {
    Line(source, target, BuildChar(r.start) + ":" + BuildChar(r.end), KindColor(kind))
  }

  /** The label text of an edge as written into the statement. */
  function EdgeLabel(e: Edge, kind: EdgeKind): string
    requires Fits(e, kind)
  {
    match kind
    case Invoke => CodeText(e.key.code)
    case Otherwise => if e.noAdvance then "otherwise" else "skipTo"
    case _ => BuildBuffer(e.key.bytes)
  }

  /** The label an edge's statement reads as, once unescaped. */
  function EdgeCaption(e: Edge, kind: EdgeKind): string
    requires Fits(e, kind)
  {
    match kind
    case Invoke => CodeText(e.key.code)
    case Otherwise => if e.noAdvance then "otherwise" else "skipTo"
    case _ => BufferText(e.key.bytes)
  }

  function EdgeColor(e: Edge, kind: EdgeKind): string
  {
    match kind
    case Invoke => ColorInvoke
    case Otherwise => if e.noAdvance then ColorNoAdvance else ColorAdvance
    case _ => KindColor(kind)
  }

  /** The statement of one edge from `source` to `target`. */
  function BuildEdge(source: string, target: string, e: Edge, kind: EdgeKind): string
    requires Fits(e, kind)
  {
    Line(source, target, EdgeLabel(e, kind), EdgeColor(e, kind))
  }

  /** The colours contain no character that needs escaping. */
  lemma ColorsPlain()
    ensures Plain(ColorAdvance) && Plain(ColorNoAdvance) && Plain(ColorInvoke)
  {
  }

  /** The colour of a map's ranges and byte-sequence edges is written as
      it is. */
  lemma KindColorPlain(kind: EdgeKind)
    ensures Escape(KindColor(kind)) == KindColor(kind)
  {
    ColorsPlain();
    EscapePlain(KindColor(kind));
  }

  lemma OtherwiseWordsPlain()
    ensures Plain("otherwise") && Plain("skipTo")
  {
  }

  /** A range label is the escaped form of the range's text. */
  lemma RangeLabelEscaped(r: Range)
    ensures BuildChar(r.start) + ":" + BuildChar(r.end) == Escape(RangeText(r))
  {
    BuildCharSpec(r.start);
    BuildCharSpec(r.end);
    EscapeAppend(CharText(r.start) + ":", CharText(r.end));
    EscapeAppend(CharText(r.start), ":");
    assert Escape(":") == ":";
  }

  /** A range statement reads back as an edge from `source` to `target`
      whose label gives back the range, in the colour of the map. */
  lemma BuildRangeReadsBack(source: string, target: string, r: Range, kind: EdgeKind)
    ensures ParseLine(BuildRange(source, target, r, kind))
      == Some(Statement(source, target, RangeText(r), KindColor(kind)))
    ensures ReadRange(RangeText(r)) == Some(r)
  {
    RangeLabelEscaped(r);
    KindColorPlain(kind);
    assert BuildRange(source, target, r, kind)
      == Line(source, target, Escape(RangeText(r)), Escape(KindColor(kind)));
    LineRoundTrip(source, target, RangeText(r), KindColor(kind));
    ReadRangeText(r);
  }

  /** An edge's label and colour are the escaped forms of what they read
      as. */
  lemma EdgeLabelEscaped(e: Edge, kind: EdgeKind)
    requires Fits(e, kind)
    ensures EdgeLabel(e, kind) == Escape(EdgeCaption(e, kind))
    ensures EdgeColor(e, kind) == Escape(EdgeColor(e, kind))
  {
    ColorsPlain();
    EscapePlain(EdgeColor(e, kind));
    match kind
    case Invoke =>
      CodeTextSpec(e.key.code);
    case Otherwise =>
      OtherwiseWordsPlain();
      EscapePlain(EdgeCaption(e, kind));
    case _ =>
      BuildBufferSpec(e.key.bytes);
  }

  /** An edge statement reads back as an edge from `source` to `target`
      whose label gives back the invocation code, is the single-quoted text
      of the byte sequence (which reads back as the bytes when they are
      ASCII), or names the otherwise edge; invocations are green, other
      edges blue exactly when they do not advance. */
  lemma BuildEdgeReadsBack(source: string, target: string, e: Edge, kind: EdgeKind)
    requires Fits(e, kind)
    ensures ParseLine(BuildEdge(source, target, e, kind))
      == Some(Statement(source, target, EdgeCaption(e, kind), EdgeColor(e, kind)))
    ensures kind == Invoke ==>
      ReadCode(EdgeCaption(e, kind)) == Some(e.key.code) && EdgeColor(e, kind) == ColorInvoke
    ensures (kind == Advance || kind == NoAdvance) ==>
      SingleQuoted(EdgeCaption(e, kind)) &&
      (Ascii(e.key.bytes) ==> ReadBuffer(EdgeCaption(e, kind)) == Some(e.key.bytes)) &&
      (EdgeColor(e, kind) == ColorNoAdvance <==> kind == NoAdvance)
    ensures kind == Otherwise ==>
      (EdgeCaption(e, kind) == "otherwise" <==> e.noAdvance) &&
      (EdgeColor(e, kind) == ColorNoAdvance <==> e.noAdvance)
  {
    EdgeLabelEscaped(e, kind);
    assert BuildEdge(source, target, e, kind)
      == Line(source, target, Escape(EdgeCaption(e, kind)), Escape(EdgeColor(e, kind)));
    LineRoundTrip(source, target, EdgeCaption(e, kind), EdgeColor(e, kind));
    if kind == Invoke {
      CodeTextSpec(e.key.code);
    } else if kind == Otherwise {
      assert "otherwise" != "skipTo" by { assert |"otherwise"| != |"skipTo"|; }
      assert ColorNoAdvance != ColorAdvance by { assert |ColorNoAdvance| != |ColorAdvance|; }
    } else {
      BuildBufferSpec(e.key.bytes);
      if Ascii(e.key.bytes) {
        BufferReadsBack(e.key.bytes);
      }
      assert ColorNoAdvance != ColorAdvance by { assert |ColorNoAdvance| != |ColorAdvance|; }
    }
  }

  /** The statements of a sequence of ranges, in order. */
  function RangeLines(source: string, target: string, rs: seq<Range>, kind: EdgeKind): seq<string>
  {
    seq(|rs|, i requires 0 <= i < |rs| => BuildRange(source, target, rs[i], kind))
  }

  /** The statements of a sequence of edges, in order. */
  function EdgeLines(source: string, target: string, es: seq<Edge>, kind: EdgeKind): seq<string>
    requires forall i :: 0 <= i < |es| ==> Fits(es[i], kind)
  {
    seq(|es|, i requires 0 <= i < |es| => BuildEdge(source, target, es[i], kind))
  }

  /** Lines joined into one text. */
  function Concat(ls: seq<string>): string
  {
    if ls == [] then "" else ls[0] + Concat(ls[1..])
  }

  lemma {:induction false} ConcatAppend(a: seq<string>, b: seq<string>)
    ensures Concat(a + b) == Concat(a) + Concat(b)
  {
    if a != [] {
      assert (a + b)[1..] == a[1..] + b;
      ConcatAppend(a[1..], b);
    } else {
      assert a + b == b;
    }
  }

  lemma ConcatOne(line: string)
    ensures Concat([line]) == line
  {
    assert [line][1..] == [];
  }

  lemma ConcatSnoc(ls: seq<string>, i: nat)
    requires i < |ls|
    ensures Concat(ls[..i + 1]) == Concat(ls[..i]) + ls[i]
  {
    assert ls[..i + 1] == ls[..i] + [ls[i]];
    ConcatAppend(ls[..i], [ls[i]]);
    assert [ls[i]][1..] == [];
  }

  /** One more line appended to a text built from the first `i` lines. */
  lemma ConcatExtend(text: string, lines: seq<string>, i: nat, res: string)
    requires i < |lines| && res == text + Concat(lines[..i])
    ensures res + lines[i] == text + Concat(lines[..i + 1])
  {
    ConcatSnoc(lines, i);
  }

  /** Two texts in order, the first failure winning. */
  function Both(x: Result<seq<string>>, y: Result<seq<string>>): Result<seq<string>>
  {
    var a :- x;
    var b :- y;
    Ok(a + b)
  }

  /** The lines of a result, joined. */
  function Joined(r: Result<seq<string>>): Result<string>
  {
    match r
    case Ok(ls) => Ok(Concat(ls))
    case Failure(m) => Failure(m)
  }

  /** `r` with `prefix` put in front of its text. */
  function Prefixed(prefix: string, r: Result<string>): Result<string>
  {
    match r
    case Ok(s) => Ok(prefix + s)
    case Failure(m) => Failure(m)
  }

  /** `r` with `prefix` in front of its text and `suffix` after it. */
  function Wrapped(prefix: string, r: Result<string>, suffix: string): Result<string>
  {
    match r
    case Ok(s) => Ok(prefix + s + suffix)
    case Failure(m) => Failure(m)
  }

  lemma PrefixedEmpty(r: Result<string>)
    ensures Prefixed("", r) == r
  {
    if r.Ok? {
      assert "" + r.value == r.value;
    }
  }

  lemma WrappedPrefixed(p: string, q: string, r: Result<string>, s: string)
    ensures Wrapped(p, Prefixed(q, r), s) == Wrapped(p + q, r, s)
  {
    if r.Ok? {
      assert p + (q + r.value) == p + q + r.value;
    }
  }

  lemma JoinedBoth(x: Result<seq<string>>, y: Result<seq<string>>)
    ensures x.Failure? ==> Joined(Both(x, y)) == Failure(x.message)
    ensures x.Ok? ==> Joined(Both(x, y)) == Prefixed(Concat(x.value), Joined(y))
  {
    if x.Ok? && y.Ok? {
      ConcatAppend(x.value, y.value);
    }
  }

  /** A text built from three lists of lines, one after the other, is the
      text of the three lists joined. */
  lemma ConcatChain(t1: string, t2: string, t3: string, r: seq<string>, s: seq<string>, k: seq<string>)
    requires t1 == "" + Concat(r) && t2 == t1 + Concat(s) && t3 == t2 + Concat(k)
    ensures t3 == Concat(r + s + k)
  {
    ConcatAppend(r + s, k);
    ConcatAppend(r, s);
  }

  /** One step of a loop that appends the text of `x` and goes on with
      `y`. */
  lemma PrefixedBoth(text: string, x: Result<seq<string>>, y: Result<seq<string>>)
    ensures x.Failure? ==> Prefixed(text, Joined(Both(x, y))) == Failure(x.message)
    ensures x.Ok? ==> Prefixed(text, Joined(Both(x, y))) == Prefixed(text + Concat(x.value), Joined(y))
  {
    JoinedBoth(x, y);
    if x.Ok? && y.Ok? {
      assert text + (Concat(x.value) + Concat(y.value)) == text + Concat(x.value) + Concat(y.value);
    }
  }

  lemma WrappedBoth(text: string, x: Result<seq<string>>, y: Result<seq<string>>, suffix: string)
    ensures x.Failure? ==> Wrapped(text, Joined(Both(x, y)), suffix) == Failure(x.message)
    ensures x.Ok? ==>
      Wrapped(text, Joined(Both(x, y)), suffix) == Wrapped(text + Concat(x.value), Joined(y), suffix)
  {
    JoinedBoth(x, y);
    if x.Ok? {
      WrappedPrefixed(text, Concat(x.value), Joined(y), suffix);
    }
  }

  lemma PrefixedDone(text: string)
    ensures Prefixed(text, Joined(Ok([]))) == Ok(text)
  {
    assert text + "" == text;
  }

  lemma WrappedDone(text: string, suffix: string)
    ensures Wrapped(text, Joined(Ok([])), suffix) == Ok(text + suffix)
  {
    assert text + "" + suffix == text + suffix;
  }

  /** The text of two results and a last list of lines. */
  lemma JoinedThree(x: Result<seq<string>>, y: Result<seq<string>>, z: seq<string>)
    ensures x.Failure? ==> Joined(Both(x, Both(y, Ok(z)))) == Failure(x.message)
    ensures x.Ok? && y.Failure? ==> Joined(Both(x, Both(y, Ok(z)))) == Failure(y.message)
    ensures x.Ok? && y.Ok? ==>
      Joined(Both(x, Both(y, Ok(z)))) == Ok(Concat(x.value) + Concat(y.value) + Concat(z))
  {
    if x.Ok? && y.Ok? {
      ConcatAppend(y.value, z);
      ConcatAppend(x.value, y.value + z);
      assert Concat(x.value) + (Concat(y.value) + Concat(z)) == Concat(x.value) + Concat(y.value) + Concat(z);
    }
  }

  /** The edge targets of a map all name nodes of `g`. */
  predicate TargetsIn(g: Graph, gs: seq<Group>)
  {
    forall k :: 0 <= k < |gs| ==> gs[k].target < |g|
  }

  /** The statements of one group of the edge map of node `n`: the ranges of
      its single-byte keys, then its byte-sequence edges, then its
      invocations; or the failure of a key-less edge. */
  function GroupLines(g: Graph, n: nat, grp: Group, kind: EdgeKind): Result<seq<string>>
    requires n < |g| && grp.target < |g|
    requires kind == Advance || kind == NoAdvance
  {
    ClassifySpec(grp.edges);
    var c :- Classify(grp.edges);
    var source, target := g[n].name, g[grp.target].name;
    Ok(RangeLines(source, target, Compress(SingleKeys(c.single)), kind) +
       EdgeLines(source, target, c.sequence, kind) +
       EdgeLines(source, target, c.code, Invoke))
  }

  /** The statements of an edge map, group after group in map order. */
  function EdgeMapLines(g: Graph, n: nat, gs: seq<Group>, kind: EdgeKind): Result<seq<string>>
    requires n < |g| && TargetsIn(g, gs)
    requires kind == Advance || kind == NoAdvance
    decreases |gs|
  {
    if gs == [] then Ok([])
    else Both(GroupLines(g, n, gs[0], kind), EdgeMapLines(g, n, gs[1..], kind))
  }

  /** The groups of a node's edges all point at nodes of the graph. */
  lemma GroupTargetsIn(g: Graph, es: seq<Edge>, noAdvance: bool)
    requires EdgesIn(g, es)
    ensures TargetsIn(g, GroupByTarget(Bucket(es, noAdvance)))
  {
    var b := Bucket(es, noAdvance);
    var gs := GroupByTarget(b);
    GroupByTargetSpec(b);
    BucketsPartition(es);
    forall k | 0 <= k < |gs| ensures gs[k].target < |g| {
      var i := FirstIndex(b, gs[k].target);
      assert b[i] in multiset(b);
      assert b[i] in multiset(es);
    }
  }

  /** The statement of the otherwise edge, if the node has one. */
  function OtherwiseLines(g: Graph, n: nat): seq<string>
    requires WellFormed(g) && n < |g|
  {
    match g[n].otherwise
    case None => []
    case Some(e) => [BuildEdge(g[n].name, g[e.target].name, e, Otherwise)]
  }

  /** The statements of node `n`: its advancing edge map, its non-advancing
      edge map, then its otherwise edge. */
  function NodeLines(g: Graph, n: nat): Result<seq<string>>
    requires WellFormed(g) && n < |g|
  {
    var es := g[n].edges;
    GroupTargetsIn(g, es, false);
    GroupTargetsIn(g, es, true);
    Both(EdgeMapLines(g, n, GroupByTarget(Bucket(es, false)), Advance),
      Both(EdgeMapLines(g, n, GroupByTarget(Bucket(es, true)), NoAdvance),
        Ok(OtherwiseLines(g, n))))
  }

  /** The statements of a list of nodes, node after node. */
  function NodesLines(g: Graph, ns: seq<nat>): Result<seq<string>>
    requires WellFormed(g) && AllBelow(ns, |g|)
    decreases |ns|
  {
    if ns == [] then Ok([])
    else Both(NodeLines(g, ns[0]), NodesLines(g, ns[1..]))
  }

  /** The document for the graph reachable from `root`: the header, the
      statements of every reachable node in discovery order, and the closing
      brace; or the failure of a key-less regular edge. */
  function Document(g: Graph, root: nat): Result<string>
    requires WellFormed(g) && root < |g|
  {
    EnumerateSpec(g, root);
    Wrapped(Header, Joined(NodesLines(g, Enumerate(g, root))), Footer)
  }
}
