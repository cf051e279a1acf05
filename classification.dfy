/** Key classification of `Dot.buildEdgeMap`: the edges of one target group
    are split by the shape of their key. */
module Classification {
  import opened Wrappers
  import opened Graph

  /** What a key makes of an edge: a single-byte match (a range candidate),
      a longer or empty byte sequence, or an invocation code. */
  datatype Shape = SingleByte | ByteSequence | InvokeCode

  /** The shape of a key; a missing key has none. */
  function ShapeOf(k: Key): Option<Shape>
  {
    match k
    case NoKey => None
    case Code(_) => Some(InvokeCode)
    case Bytes(b) => if |b| == 1 then Some(SingleByte) else Some(ByteSequence)
  }

  /** The edges of `es` whose key has shape `s`, in order. */
  function OfShape(es: seq<Edge>, s: Shape): seq<Edge>
  {
    if es == [] then []
    else
      var e := es[|es| - 1];
      OfShape(es[..|es| - 1], s) + (if ShapeOf(e.key) == Some(s) then [e] else [])
  }

  /** Some regular edge carries no key, which only the otherwise edge may do. */
  predicate HasKeyless(es: seq<Edge>)
  {
    exists i :: 0 <= i < |es| && es[i].key.NoKey?
  }

  /** The three lists the classification loop fills. */
  datatype Classes = Classes(single: seq<Edge>, sequence: seq<Edge>, code: seq<Edge>)

  /** The message of the assertion that rejects a key-less regular edge. */
  const UnexpectedOtherwise: string := "Unexpected otherwise edge"

  /** The classification of one group: the assertion failure if a key is
      missing, else the three lists in their original order. */
  function Classify(es: seq<Edge>): Result<Classes>
  {
    if HasKeyless(es) then Failure(UnexpectedOtherwise)
    else Ok(Classes(OfShape(es, SingleByte), OfShape(es, ByteSequence), OfShape(es, InvokeCode)))
  }

  /** Every edge of `s` has a one-byte key. */
  predicate AllSingle(s: seq<Edge>)
  {
    forall e :: e in s ==> e.key.Bytes? && |e.key.bytes| == 1
  }

  /** The byte values of single-byte edges, in order. */
  function SingleKeys(s: seq<Edge>): (keys: seq<byte>)
    requires AllSingle(s)
    ensures |keys| == |s|
    ensures forall i :: 0 <= i < |s| ==> s[i].key == Bytes([keys[i]])
  {
    seq(|s|, i requires 0 <= i < |s| => assert s[i] in s; s[i].key.bytes[0])
  }

  /** A list holds exactly the edges of the group whose key has its shape. */
  lemma {:induction false} OfShapeSpec(es: seq<Edge>, s: Shape)
    ensures forall e :: e in OfShape(es, s) <==> e in es && ShapeOf(e.key) == Some(s)
    ensures |OfShape(es, s)| <= |es|
  {
    if es != [] {
      var p := es[..|es| - 1];
      assert es == p + [es[|es| - 1]];
      OfShapeSpec(p, s);
    }
  }

  /** Selecting by shape works piece by piece, so each list keeps the order
      the edges had in the group. */
  lemma {:induction false} OfShapeAppend(a: seq<Edge>, b: seq<Edge>, s: Shape)
    ensures OfShape(a + b, s) == OfShape(a, s) + OfShape(b, s)
    decreases |b|
  {
    if b == [] {
      assert a + b == a;
    } else {
      var p := b[..|b| - 1];
      assert (a + b)[..|a + b| - 1] == a + p;
      assert (a + b)[|a + b| - 1] == b[|b| - 1];
      OfShapeAppend(a, p, s);
    }
  }

  lemma {:induction false} ShapesPartition(es: seq<Edge>)
    requires !HasKeyless(es)
    ensures multiset(OfShape(es, SingleByte)) + multiset(OfShape(es, ByteSequence)) +
            multiset(OfShape(es, InvokeCode)) == multiset(es)
  {
    if es != [] {
      var p := es[..|es| - 1];
      assert es == p + [es[|es| - 1]];
      assert !HasKeyless(p) by {
        forall i | 0 <= i < |p| ensures !p[i].key.NoKey? {
          assert p[i] == es[i];
        }
      }
      ShapesPartition(p);
      assert !es[|es| - 1].key.NoKey?;
    }
  }

  /** Classification fails exactly when some edge has no key; otherwise the
      three lists together hold every edge of the group exactly once, each in
      the list its key's shape selects. */
  lemma ClassifySpec(es: seq<Edge>)
    ensures Classify(es).Failure? <==> HasKeyless(es)
    ensures Classify(es).Ok? ==>
      var c := Classify(es).value;
      multiset(c.single) + multiset(c.sequence) + multiset(c.code) == multiset(es) &&
      AllSingle(c.single) &&
      (forall e :: e in c.sequence ==> e.key.Bytes? && |e.key.bytes| != 1) &&
      (forall e :: e in c.code ==> e.key.Code?)
  {
    if !HasKeyless(es) {
      ShapesPartition(es);
      OfShapeSpec(es, SingleByte);
      OfShapeSpec(es, ByteSequence);
      OfShapeSpec(es, InvokeCode);
    }
  }

  /** A concatenation has a key-less edge exactly when one of its parts has. */
  lemma HasKeylessAppend(a: seq<Edge>, b: seq<Edge>)
    ensures HasKeyless(a + b) <==> HasKeyless(a) || HasKeyless(b)
  {
    if HasKeyless(a + b) {
      var i :| 0 <= i < |a + b| && (a + b)[i].key.NoKey?;
      if i >= |a| {
        assert b[i - |a|].key.NoKey?;
      }
    }
    if HasKeyless(a) {
      var i :| 0 <= i < |a| && a[i].key.NoKey?;
      assert (a + b)[i].key.NoKey?;
    }
    if HasKeyless(b) {
      var i :| 0 <= i < |b| && b[i].key.NoKey?;
      assert (a + b)[|a| + i].key.NoKey?;
    }
  }

  /** Having a key-less edge does not depend on the order of the edges. */
  lemma HasKeylessPermutation(a: seq<Edge>, b: seq<Edge>)
    requires multiset(a) == multiset(b)
    ensures HasKeyless(a) <==> HasKeyless(b)
  {
    if HasKeyless(a) {
      var i :| 0 <= i < |a| && a[i].key.NoKey?;
      assert a[i] in multiset(b);
      var j :| 0 <= j < |b| && b[j] == a[i];
    }
    if HasKeyless(b) {
      var i :| 0 <= i < |b| && b[i].key.NoKey?;
      assert b[i] in multiset(a);
      var j :| 0 <= j < |a| && a[j] == b[i];
    }
  }
}
