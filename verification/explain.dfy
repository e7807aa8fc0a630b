/** Region extraction (app/engine/explain.py). The character diff itself
    comes from an external library, so the list of `(op, text)` pairs is an
    input: op 0 is an equal segment, -1 a deletion from the first text, and
    every other op an insertion into the second. */
module Explain {
  import opened PyBuiltins

  datatype Diff = Diff(op: int, text: string)

  /** `{"a_start", "a_end", "b_start", "b_end", "text"}`. */
  datatype Span = Span(aStart: int, aEnd: int, bStart: int, bEnd: int, text: string)

  /** `{"spans": ..., "raw_diffs": ...}`. */
  datatype Regions = Regions(spans: seq<Span>, rawDiffs: seq<Diff>)

  /** Equal segments shorter than this yield no span. */
  const MinSpanLength: int := 20
  /** A span's `text` keeps at most this many characters. */
  const MaxSpanText: int := 200

  /** What one diff contributes to the first text: equal and deleted segments. */
  function PartA(d: Diff): string { if d.op == 0 || d.op == -1 then d.text else [] }
  /** What one diff contributes to the second text: all but deletions. */
  function PartB(d: Diff): string { if d.op != -1 then d.text else [] }

  /** The first text as the diff describes it. */
  function TextA(diffs: seq<Diff>): string
  {
    if diffs == [] then [] else TextA(diffs[..|diffs| - 1]) + PartA(diffs[|diffs| - 1])
  }

  /** The second text as the diff describes it. */
  function TextB(diffs: seq<Diff>): string
  {
    if diffs == [] then [] else TextB(diffs[..|diffs| - 1]) + PartB(diffs[|diffs| - 1])
  }

  /** The span reported for diff `d`, placed at the offsets the diffs before
      it have reached in both texts. */
  function SpanAt(diffs: seq<Diff>, d: int): Span
    requires 0 <= d < |diffs|
  {
    var posA := |TextA(diffs[..d])|;
    var posB := |TextB(diffs[..d])|;
    var length := |diffs[d].text|;
    Span(posA, posA + length, posB, posB + length, Slice(diffs[d].text, 0, MaxSpanText))
  }

  predicate IsLongEqual(d: Diff) { d.op == 0 && |d.text| >= MinSpanLength }

  /** The spans of all long equal segments, in diff order. */
  function Spans(diffs: seq<Diff>): seq<Span>
  {
    if diffs == [] then []
    else
      var d := |diffs| - 1;
      Spans(diffs[..d]) + (if IsLongEqual(diffs[d]) then [SpanAt(diffs, d)] else [])
  }

  /** `highlight_similar_regions` on the diff it would compute, after the
      semantic cleanup. `threshold` is accepted and never used. */
  method HighlightSimilarRegions(diffs: seq<Diff>, threshold: real) returns (result: Regions)
    ensures result.spans == Spans(diffs)
    ensures result.rawDiffs == diffs
  {
    var spans: seq<Span> := [];
    var posA, posB := 0, 0;
    var i := 0;
    while i < |diffs|
      invariant 0 <= i <= |diffs|
      invariant posA == |TextA(diffs[..i])| && posB == |TextB(diffs[..i])|
      invariant spans == Spans(diffs[..i])
    {
      var op, data := diffs[i].op, diffs[i].text;
      var length := |data|;
      assert diffs[..i + 1][..i] == diffs[..i];
      if op == 0 {
        if length >= MinSpanLength {
          spans := spans + [Span(posA, posA + length, posB, posB + length, Slice(data, 0, MaxSpanText))];
        }
        posA := posA + length;
        posB := posB + length;
      } else if op == -1 {
        posA := posA + length;
      } else {
        posB := posB + length;
      }
      i := i + 1;
    }
    assert diffs[..|diffs|] == diffs;
    result := Regions(spans, diffs);
  }

  /** Span `s` lies within `ta` and `tb`, over the same characters in
      both, at least 20 of them, and `text` is the first `min(200, length)`. */
  ghost predicate SpanFits(s: Span, ta: string, tb: string)
  {
    0 <= s.aStart && s.aEnd - s.aStart == s.bEnd - s.bStart >= MinSpanLength &&
    s.aEnd <= |ta| && s.bEnd <= |tb| && 0 <= s.bStart &&
    ta[s.aStart..s.aEnd] == tb[s.bStart..s.bEnd] &&
    s.text == ta[s.aStart..Min(s.aEnd, s.aStart + MaxSpanText)]
  }

  /** A span that fits two texts still fits once both are extended. */
  lemma SpanFitsExtend(s: Span, ta: string, tb: string, xa: string, xb: string)
    requires SpanFits(s, ta, tb)
    ensures SpanFits(s, ta + xa, tb + xb)
  {
    assert (ta + xa)[s.aStart..s.aEnd] == ta[s.aStart..s.aEnd];
    assert (tb + xb)[s.bStart..s.bEnd] == tb[s.bStart..s.bEnd];
    assert (ta + xa)[s.aStart..Min(s.aEnd, s.aStart + MaxSpanText)] ==
           ta[s.aStart..Min(s.aEnd, s.aStart + MaxSpanText)];
  }

  /** Each span covers the same text in both documents: an equal segment of
      at least 20 characters, within bounds, whose `text` is its first
      `min(200, length)` characters. */
  lemma {:induction false} SpansMatchBothTexts(diffs: seq<Diff>)
    ensures forall k :: 0 <= k < |Spans(diffs)| ==>
      SpanFits(Spans(diffs)[k], TextA(diffs), TextB(diffs))
  {
    if diffs != [] {
      var d := |diffs| - 1;
      var pre := diffs[..d];
      SpansMatchBothTexts(pre);
      var ta, tb := TextA(diffs), TextB(diffs);
      assert ta == TextA(pre) + PartA(diffs[d]) && tb == TextB(pre) + PartB(diffs[d]);
      forall k | 0 <= k < |Spans(diffs)|
        ensures SpanFits(Spans(diffs)[k], ta, tb)
      {
        var s := Spans(diffs)[k];
        if k < |Spans(pre)| {
          assert s == Spans(pre)[k];
          SpanFitsExtend(s, TextA(pre), TextB(pre), PartA(diffs[d]), PartB(diffs[d]));
        } else {
          assert s == SpanAt(diffs, d);
          assert ta[s.aStart..s.aEnd] == diffs[d].text;
          assert tb[s.bStart..s.bEnd] == diffs[d].text;
        }
      }
    }
  }

  /** Spans come in document order and never overlap, in either text. */
  lemma {:induction false} SpansOrdered(diffs: seq<Diff>)
    ensures forall k, l :: 0 <= k < l < |Spans(diffs)| ==>
      Spans(diffs)[k].aEnd <= Spans(diffs)[l].aStart &&
      Spans(diffs)[k].bEnd <= Spans(diffs)[l].bStart
  {
    if diffs != [] {
      var d := |diffs| - 1;
      var pre := diffs[..d];
      SpansOrdered(pre);
      SpansMatchBothTexts(pre);
      var sp := Spans(diffs);
      forall k, l | 0 <= k < l < |sp|
        ensures sp[k].aEnd <= sp[l].aStart && sp[k].bEnd <= sp[l].bStart
      {
        assert sp[k] == Spans(pre)[k];
        if l < |Spans(pre)| {
          assert sp[l] == Spans(pre)[l];
        }
      }
    }
  }

  /** The positions of the long equal segments, in increasing order. */
  function LongEqualIndices(diffs: seq<Diff>): (ix: seq<int>)
    ensures forall k :: 0 <= k < |ix| ==> 0 <= ix[k] < |diffs| && IsLongEqual(diffs[ix[k]])
    ensures forall k, l :: 0 <= k < l < |ix| ==> ix[k] < ix[l]
    ensures forall d :: 0 <= d < |diffs| && IsLongEqual(diffs[d]) ==> d in ix
  {
    if diffs == [] then []
    else
      var n := |diffs| - 1;
      var pre := diffs[..n];
      assert forall d :: 0 <= d < n ==> pre[d] == diffs[d];
      LongEqualIndices(pre) + (if IsLongEqual(diffs[n]) then [n] else [])
  }

  lemma SpanAtPrefix(diffs: seq<Diff>, m: int, d: int)
    requires 0 <= d < m <= |diffs|
    ensures SpanAt(diffs[..m], d) == SpanAt(diffs, d)
  {
    assert diffs[..m][..d] == diffs[..d];
  }

  /** Exactly the long equal segments are reported, in order: span `k` is
      the span of the `k`-th equal segment of at least 20 characters. */
  lemma {:induction false} SpansAreLongEquals(diffs: seq<Diff>)
    ensures |Spans(diffs)| == |LongEqualIndices(diffs)|
    ensures forall k :: 0 <= k < |Spans(diffs)| ==>
      Spans(diffs)[k] == SpanAt(diffs, LongEqualIndices(diffs)[k])
  {
    if diffs != [] {
      var n := |diffs| - 1;
      var pre := diffs[..n];
      SpansAreLongEquals(pre);
      var ix := LongEqualIndices(diffs);
      forall k | 0 <= k < |Spans(diffs)|
        ensures Spans(diffs)[k] == SpanAt(diffs, ix[k])
      {
        if k < |Spans(pre)| {
          SpanAtPrefix(diffs, n, LongEqualIndices(pre)[k]);
        }
      }
    }
  }

  /** With the two texts the diff reconstructs, each span's regions hold the
      same characters, and `text` is the first `min(200, length)` of them. */
  lemma SpansInOriginals(a: string, b: string, diffs: seq<Diff>)
    requires TextA(diffs) == a && TextB(diffs) == b
    ensures forall s :: s in Spans(diffs) ==>
      0 <= s.aStart <= s.aEnd <= |a| && 0 <= s.bStart <= s.bEnd <= |b| &&
      a[s.aStart..s.aEnd] == b[s.bStart..s.bEnd] &&
      s.text == a[s.aStart..Min(s.aEnd, s.aStart + MaxSpanText)]
  {
    SpansMatchBothTexts(diffs);
  }
}
