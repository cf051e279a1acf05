/** Range compression of `Dot.buildEdgeMap`: the single-byte keys of one
    target group, in the order their edges were added, are merged into runs
    of consecutive values.  Only neighbours in that order are merged. */
module Ranges {
  import opened Graph

  /** An inclusive run of byte values.  The group's target, which every
      range of one group shares, is kept by the caller. */
  datatype Range = Range(start: byte, end: byte)

  /** The ranges of `keys`: a key one above the end of the last range
      extends it, any other key opens a new one-value range. */
  function Compress(keys: seq<byte>): seq<Range>
  {
    if keys == [] then []
    else
      var prev, key := Compress(keys[..|keys| - 1]), keys[|keys| - 1];
      if prev != [] && prev[|prev| - 1].end as int == key as int - 1 then
        prev[..|prev| - 1] + [Range(prev[|prev| - 1].start, key)]
      else
        prev + [Range(key, key)]
  }

  predicate Ascending(rs: seq<Range>)
  {
    forall i :: 0 <= i < |rs| ==> rs[i].start <= rs[i].end
  }

  /** The byte values a range stands for, from start to end. */
  function Expand(r: Range): (s: seq<byte>)
    requires r.start <= r.end
    ensures |s| == r.end as int - r.start as int + 1
    ensures forall i :: 0 <= i < |s| ==> s[i] as int == r.start as int + i
  {
    seq(r.end as int - r.start as int + 1, i requires 0 <= i <= r.end as int - r.start as int
      => (r.start as int + i) as byte)
  }

  /** All byte values of a list of ranges, in order. */
  function ExpandAll(rs: seq<Range>): seq<byte>
    requires Ascending(rs)
  {
    if rs == [] then []
    else ExpandAll(rs[..|rs| - 1]) + Expand(rs[|rs| - 1])
  }

  /** No range ends one below where the next one starts. */
  predicate Separated(rs: seq<Range>)
  {
    forall j :: 0 < j < |rs| ==> rs[j].start as int != rs[j - 1].end as int + 1
  }

  /** The number of positions where a new run starts: the first position,
      and every position whose key is not one above the key before it. */
  function RunStarts(keys: seq<byte>): nat
  {
    if keys == [] then 0
    else
      var p := keys[..|keys| - 1];
      RunStarts(p) +
        (if p != [] && p[|p| - 1] as int == keys[|keys| - 1] as int - 1 then 0 else 1)
  }

  lemma {:induction false} ExpandLast(r: Range)
    requires r.start < r.end
    ensures Expand(r) == Expand(Range(r.start, r.end - 1)) + [r.end]
  {
  }

  lemma {:induction false} ExpandAllSnoc(rs: seq<Range>, r: Range)
    requires Ascending(rs) && r.start <= r.end
    ensures Ascending(rs + [r])
    ensures ExpandAll(rs + [r]) == ExpandAll(rs) + Expand(r)
  {
    assert (rs + [r])[..|rs|] == rs;
  }

  /** Every expanded value lies in one of the ranges. */
  lemma {:induction false} ExpandAllMember(rs: seq<Range>, i: nat)
    requires Ascending(rs) && i < |ExpandAll(rs)|
    ensures exists q :: 0 <= q < |rs| && rs[q].start <= ExpandAll(rs)[i] <= rs[q].end
  {
    var p := rs[..|rs| - 1];
    var last := rs[|rs| - 1];
    assert Ascending(p);
    if i < |ExpandAll(p)| {
      ExpandAllMember(p, i);
      var q :| 0 <= q < |p| && p[q].start <= ExpandAll(p)[i] <= p[q].end;
      assert rs[q] == p[q];
    } else {
      var j := i - |ExpandAll(p)|;
      assert ExpandAll(rs)[i] == Expand(last)[j];
    }
  }

  /** `rs` is a correct compression of `keys`: every range is ascending,
      expanding the ranges in order gives back the keys, no two neighbouring
      ranges could have been merged, and a new range starts exactly at each
      run start. */
  predicate Compresses(keys: seq<byte>, rs: seq<Range>)
  {
    Ascending(rs) && ExpandAll(rs) == keys && Separated(rs) &&
    |rs| == RunStarts(keys) &&
    (rs != [] ==> keys != [] && rs[|rs| - 1].end == keys[|keys| - 1])
  }

  /** Widening the last range keeps the ranges separated. */
  lemma {:induction false} WidenSeparated(prev: seq<Range>, key: byte)
    requires Separated(prev) && prev != []
    ensures Separated(prev[..|prev| - 1] + [Range(prev[|prev| - 1].start, key)])
  {
    var rs := prev[..|prev| - 1] + [Range(prev[|prev| - 1].start, key)];
    forall j | 0 < j < |rs| ensures rs[j].start as int != rs[j - 1].end as int + 1 {
      assert rs[j].start == prev[j].start && rs[j - 1] == prev[j - 1];
    }
  }

  /** Widening the last range by the next value appends that value to the
      expansion. */
  lemma {:induction false} WidenExpand(prev: seq<Range>, key: byte)
    requires Ascending(prev) && prev != [] && prev[|prev| - 1].end as int == key as int - 1
    ensures var rs := prev[..|prev| - 1] + [Range(prev[|prev| - 1].start, key)];
      Ascending(rs) && ExpandAll(rs) == ExpandAll(prev) + [key]
  {
    var init, last := prev[..|prev| - 1], prev[|prev| - 1];
    assert prev == init + [last];
    var r := Range(last.start, key);
    assert Ascending(init);
    ExpandAllSnoc(init, last);
    ExpandAllSnoc(init, r);
    ExpandLast(r);
    assert Range(last.start, key - 1) == last;
  }

  /** A key one above the end of the last range extends it. */
  lemma {:induction false} ExtendStep(p: seq<byte>, key: byte, prev: seq<Range>)
    requires Compresses(p, prev)
    requires prev != [] && prev[|prev| - 1].end as int == key as int - 1
    ensures Compresses(p + [key], prev[..|prev| - 1] + [Range(prev[|prev| - 1].start, key)])
  {
    var keys := p + [key];
    assert keys[..|keys| - 1] == p;
    WidenSeparated(prev, key);
    WidenExpand(prev, key);
  }

  /** Opening a range for a key that does not follow the last range keeps
      the ranges separated. */
  lemma {:induction false} OpenSeparated(prev: seq<Range>, key: byte)
    requires Separated(prev)
    requires !(prev != [] && prev[|prev| - 1].end as int == key as int - 1)
    ensures Separated(prev + [Range(key, key)])
  {
    var rs := prev + [Range(key, key)];
    forall j | 0 < j < |rs| ensures rs[j].start as int != rs[j - 1].end as int + 1 {
      if j < |rs| - 1 {
        assert rs[j] == prev[j] && rs[j - 1] == prev[j - 1];
      }
    }
  }

  /** Any other key opens a new one-value range. */
  lemma {:induction false} OpenStep(p: seq<byte>, key: byte, prev: seq<Range>)
    requires Compresses(p, prev)
    requires !(prev != [] && prev[|prev| - 1].end as int == key as int - 1)
    ensures Compresses(p + [key], prev + [Range(key, key)])
  {
    var keys := p + [key];
    assert keys[..|keys| - 1] == p;
    ExpandAllSnoc(prev, Range(key, key));
    OpenSeparated(prev, key);
  }

  /** Compression is correct (see `Compresses`), and no keys give no
      ranges. */
  lemma {:induction false} CompressSpec(keys: seq<byte>)
    ensures Compresses(keys, Compress(keys))
    ensures Compress(keys) == [] <==> keys == []
  {
    if keys != [] {
      var p, key := keys[..|keys| - 1], keys[|keys| - 1];
      assert keys == p + [key];
      CompressSpec(p);
      var prev := Compress(p);
      if prev != [] && prev[|prev| - 1].end as int == key as int - 1 {
        ExtendStep(p, key, prev);
      } else {
        OpenStep(p, key, prev);
      }
    }
  }

  lemma {:induction false} SeparatedPrefix(rs: seq<Range>, n: nat)
    requires n <= |rs| && Separated(rs) && Ascending(rs)
    ensures Separated(rs[..n]) && Ascending(rs[..n])
  {
    assert forall j :: 0 <= j < n ==> rs[..n][j] == rs[j];
  }

  /** The correctness properties determine the ranges: any ascending,
      separated list of ranges that expands to `keys` is `Compress(keys)`. */
  lemma {:induction false} CompressUnique(keys: seq<byte>, rs: seq<Range>)
    requires Ascending(rs) && Separated(rs) && ExpandAll(rs) == keys
    ensures rs == Compress(keys)
    decreases |keys|, 1
  {
    if rs != [] {
      var init, last := rs[..|rs| - 1], rs[|rs| - 1];
      assert rs == init + [last];
      SeparatedPrefix(rs, |rs| - 1);
      ExpandAllSnoc(init, last);
      if last.start == last.end {
        UniqueSingletonLast(keys, rs);
      } else {
        UniqueLongerLast(keys, rs);
      }
    }
  }

  /** The last range holds one value: it was opened by the last key. */
  lemma {:induction false} UniqueSingletonLast(keys: seq<byte>, rs: seq<Range>)
    requires Ascending(rs) && Separated(rs) && ExpandAll(rs) == keys
    requires rs != [] && rs[|rs| - 1].start == rs[|rs| - 1].end
    ensures rs == Compress(keys)
    decreases |keys|, 0
  {
    var init, last := rs[..|rs| - 1], rs[|rs| - 1];
    assert rs == init + [last];
    SeparatedPrefix(rs, |rs| - 1);
    ExpandAllSnoc(init, last);
    assert Expand(last) == [last.end];
    var p := keys[..|keys| - 1];
    assert keys == p + [last.end];
    assert ExpandAll(init) == p;
    CompressUnique(p, init);
    if init != [] {
      assert init[|init| - 1] == rs[|rs| - 2];
    }
  }

  /** Dropping the last value of a list of ranges keeps it ascending and
      separated. */
  lemma {:induction false} ShrinkLast(rs: seq<Range>)
    requires Ascending(rs) && Separated(rs)
    requires rs != [] && rs[|rs| - 1].start < rs[|rs| - 1].end
    ensures var last := rs[|rs| - 1];
      var rs' := rs[..|rs| - 1] + [Range(last.start, last.end - 1)];
      Ascending(rs') && Separated(rs') && ExpandAll(rs') + [last.end] == ExpandAll(rs)
  {
    var init, last := rs[..|rs| - 1], rs[|rs| - 1];
    assert rs == init + [last];
    SeparatedPrefix(rs, |rs| - 1);
    var shorter := Range(last.start, last.end - 1);
    var rs' := init + [shorter];
    ExpandAllSnoc(init, last);
    ExpandLast(last);
    ExpandAllSnoc(init, shorter);
    assert Separated(rs') by {
      forall j | 0 < j < |rs'| ensures rs'[j].start as int != rs'[j - 1].end as int + 1 {
        assert rs'[j - 1] == rs[j - 1] && rs'[j].start == rs[j].start;
      }
    }
  }

  /** The last range holds several values: the last key extended it. */
  lemma {:induction false} UniqueLongerLast(keys: seq<byte>, rs: seq<Range>)
    requires Ascending(rs) && Separated(rs) && ExpandAll(rs) == keys
    requires rs != [] && rs[|rs| - 1].start < rs[|rs| - 1].end
    ensures rs == Compress(keys)
    decreases |keys|, 0
  {
    var init, last := rs[..|rs| - 1], rs[|rs| - 1];
    var rs' := init + [Range(last.start, last.end - 1)];
    ShrinkLast(rs);
    var p := keys[..|keys| - 1];
    assert keys == ExpandAll(rs') + [last.end];
    assert p == ExpandAll(rs');
    CompressUnique(p, rs');
    assert rs'[..|rs'| - 1] == init && rs'[|rs'| - 1].end as int == last.end as int - 1;
    assert Compress(keys) == init + [Range(last.start, last.end)];
    assert rs == init + [last];
  }

  /** The keys '0'..'5' become one range, as for the root node of the
      repository's test graph. */
  lemma DigitsExample()
    ensures Compress([48, 49, 50, 51, 52, 53]) == [Range(48, 53)]
  {
    CompressUnique([48, 49, 50, 51, 52, 53], [Range(48, 53)]);
  }

  /** Keys out of order or repeated are not merged. */
  lemma UnsortedExample()
    ensures Compress([50, 49, 49]) == [Range(50, 50), Range(49, 49), Range(49, 49)]
  {
    var rs := [Range(50, 50), Range(49, 49), Range(49, 49)];
    assert rs[..2][..1] == [Range(50, 50)] && rs[..2] == [Range(50, 50), Range(49, 49)];
    assert ExpandAll(rs[..2][..1]) == [50];
    assert ExpandAll(rs[..2]) == [50, 49];
    CompressUnique([50, 49, 49], rs);
  }
}
