/** The pure helpers of the Streamlit front end (streamlit_app.py): the
    upload filter `allowed_file`, the HTML highlighter `_build_marks`, and
    `render_highlights`, which picks the character ranges to highlight out of
    a spans dictionary. */
module Highlights {
  import opened PyBuiltins
  import opened Sorting

  // ---------------------------------------------------------------------
  // allowed_file

  function LowerChar(c: char): char
  {
    if 'A' <= c <= 'Z' then (c as int + 32) as char else c
  }

  /** `str.lower()` on ASCII letters. */
  function Lower(s: string): (r: string)
    ensures |r| == |s|
    ensures forall i :: 0 <= i < |s| ==> r[i] == LowerChar(s[i])
  {
    seq(|s|, i requires 0 <= i < |s| => LowerChar(s[i]))
  }

  /** Index of the last `c` in `s`, or -1. */
  function LastIndexOf(s: string, c: char): (i: int)
    ensures -1 <= i < |s|
    ensures i >= 0 ==> s[i] == c
    ensures forall j :: i < j < |s| ==> s[j] != c
  {
    if s == [] then -1
    else if s[|s| - 1] == c then |s| - 1
    else LastIndexOf(s[..|s| - 1], c)
  }

  /** `allowed_file(filename)` against the set of allowed extensions. */
  function AllowedFile(filename: string, allowed: set<string>): (ok: bool)
    ensures '.' !in filename ==> !ok
  {
    if '.' !in filename then false
    else
      var dot := LastIndexOf(filename, '.');
      "." + Lower(filename[dot + 1..]) in allowed
  }

  /** A name is accepted exactly when the text after its last dot, lower
      cased and prefixed with a dot, is an allowed extension. */
  lemma AllowedFileSplit(stem: string, ext: string, allowed: set<string>)
    requires '.' !in ext
    ensures AllowedFile(stem + "." + ext, allowed) <==> "." + Lower(ext) in allowed
  {
    var f := stem + "." + ext;
    assert f[|stem|] == '.';
    var dot := LastIndexOf(f, '.');
    assert forall j :: |stem| < j < |f| ==> f[j] == ext[j - |stem| - 1];
    assert dot == |stem|;
    assert f[dot + 1..] == ext;
  }

  // ---------------------------------------------------------------------
  // html.escape

  /** `html.escape` of one character, quotes included. */
  function EscapeChar(c: char): (r: string)
    ensures '<' !in r && '>' !in r
  {
    if c == '&' then "&amp;"
    else if c == '<' then "&lt;"
    else if c == '>' then "&gt;"
    else if c == '"' then "&quot;"
    else if c == '\'' then "&#x27;"
    else [c]
  }

  /** `html.escape(s)`: each character escaped on its own. */
  function Escape(s: string): (r: string)
    ensures '<' !in r && '>' !in r
    ensures |r| >= |s|
  {
    if s == [] then [] else EscapeChar(s[0]) + Escape(s[1..])
  }

  lemma {:induction false} EscapeAppend(a: string, b: string)
    ensures Escape(a + b) == Escape(a) + Escape(b)
  {
    if a == [] {
      assert a + b == b;
    } else {
      var ab := a + b;
      assert ab[0] == a[0] && ab[1..] == a[1..] + b;
      EscapeAppend(a[1..], b);
      Assoc(EscapeChar(a[0]), Escape(a[1..]), Escape(b));
    }
  }

  /** The inverse of `Escape`: the five entities back to their characters. */
  function Unescape(s: string): string
  {
    if s == [] then []
    else if StartsWith(s, "&amp;") then "&" + Unescape(s[5..])
    else if StartsWith(s, "&lt;") then "<" + Unescape(s[4..])
    else if StartsWith(s, "&gt;") then ">" + Unescape(s[4..])
    else if StartsWith(s, "&quot;") then "\"" + Unescape(s[6..])
    else if StartsWith(s, "&#x27;") then "'" + Unescape(s[6..])
    else [s[0]] + Unescape(s[1..])
  }

  /** The entity `e` (one of the five) does not start with any entity
      listed before it in `Unescape`. */
  lemma UnescapeEntity(e: string, c: char, rest: string)
    requires (e, c) in {("&amp;", '&'), ("&lt;", '<'), ("&gt;", '>'), ("&quot;", '"'), ("&#x27;", '\'')}
    ensures Unescape(e + rest) == [c] + Unescape(rest)
  {
    var t := e + rest;
    assert t[..|e|] == e && t[|e|..] == rest;
    assert t[1] == e[1];
  }

  lemma UnescapeCopy(s: string)
    requires s != [] && s[0] != '&'
    ensures Unescape(s) == [s[0]] + Unescape(s[1..])
  {
    forall e | e in ["&amp;", "&lt;", "&gt;", "&quot;", "&#x27;"] ensures !StartsWith(s, e) {
      assert e[0] == '&';
      if |e| <= |s| {
        assert s[..|e|][0] == s[0];
      }
    }
  }

  lemma UnescapeEscapeChar(c: char, rest: string)
    ensures Unescape(EscapeChar(c) + rest) == [c] + Unescape(rest)
  {
    if c == '&' {
      UnescapeEntity("&amp;", c, rest);
    } else if c == '<' {
      UnescapeEntity("&lt;", c, rest);
    } else if c == '>' {
      UnescapeEntity("&gt;", c, rest);
    } else if c == '"' {
      UnescapeEntity("&quot;", c, rest);
    } else if c == '\'' {
      UnescapeEntity("&#x27;", c, rest);
    } else {
      var t := [c] + rest;
      assert t[0] == c && t[1..] == rest;
      UnescapeCopy(t);
    }
  }

  /** Escaping loses nothing: `Unescape` recovers the original text. */
  lemma {:induction false} EscapeRoundTrip(s: string)
    ensures Unescape(Escape(s)) == s
  {
    if s != [] {
      EscapeRoundTrip(s[1..]);
      UnescapeEscapeChar(s[0], Escape(s[1..]));
    }
  }

  // ---------------------------------------------------------------------
  // _build_marks: normalising and merging ranges

  /** A character range `[start, end)` as a pair `(s, e)`. */
  type Range = (int, int)

  /** Whether `p` lies in one of the ranges. */
  ghost predicate Covers(rs: seq<Range>, p: int)
  {
    exists k :: 0 <= k < |rs| && rs[k].0 <= p < rs[k].1
  }

  /** The list comprehension: drop `e <= s` on the raw values, then clamp
      both ends below at 0. */
  function Normalize(ranges: seq<Range>): (r: seq<Range>)
    ensures |r| <= |ranges|
    ensures forall k :: 0 <= k < |r| ==> 0 <= r[k].0 <= r[k].1
  {
    if ranges == [] then []
    else
      var (s, e) := ranges[0];
      (if e > s then [(Max(0, s), Max(0, e))] else []) + Normalize(ranges[1..])
  }

  /** The normalised ranges are exactly the clamped non-empty input ranges. */
  lemma {:induction false} NormalizeMembers(ranges: seq<Range>)
    ensures forall y :: y in Normalize(ranges) <==>
      exists x :: x in ranges && x.0 < x.1 && y == (Max(0, x.0), Max(0, x.1))
  {
    if ranges != [] {
      NormalizeMembers(ranges[1..]);
      assert ranges == [ranges[0]] + ranges[1..];
      forall y | exists x :: x in ranges && x.0 < x.1 && y == (Max(0, x.0), Max(0, x.1))
        ensures y in Normalize(ranges)
      {
        var x :| x in ranges && x.0 < x.1 && y == (Max(0, x.0), Max(0, x.1));
        if x != ranges[0] {
          assert x in ranges[1..];
        }
      }
    }
  }

  /** A range lying wholly below 0 is not dropped: it becomes `(0, 0)`. */
  lemma WhollyNegativeSurvives(ranges: seq<Range>, x: Range)
    requires x in ranges && x.0 < x.1 <= 0
    ensures (0, 0) in Normalize(ranges)
  {
    NormalizeMembers(ranges);
    assert (Max(0, x.0), Max(0, x.1)) == (0, 0);
  }

  function StartKey(r: Range): real { r.0 as real }

  /** One round of the merge loop: start a new range, or stretch the last. */
  function MergeStep(merged: seq<Range>, r: Range): seq<Range>
  {
    if merged == [] || r.0 > merged[|merged| - 1].1 then merged + [r]
    else
      var last := merged[|merged| - 1];
      merged[|merged| - 1 := (last.0, Max(last.1, r.1))]
  }

  /** The merge loop over `xs`. */
  function Merge(xs: seq<Range>): seq<Range>
  {
    if xs == [] then [] else MergeStep(Merge(xs[..|xs| - 1]), xs[|xs| - 1])
  }

  /** Ranges with `0 <= start <= end`, each ending before the next starts. */
  predicate Separated(ms: seq<Range>)
  {
    (forall k :: 0 <= k < |ms| ==> 0 <= ms[k].0 <= ms[k].1) &&
    (forall i, j :: 0 <= i < j < |ms| ==> ms[i].1 < ms[j].0)
  }

  /** After merging, ranges are ordered by start and each start strictly
      exceeds the previous end: touching or overlapping ranges are fused. */
  lemma {:induction false} MergeSeparated(xs: seq<Range>)
    requires forall k :: 0 <= k < |xs| ==> 0 <= xs[k].0 <= xs[k].1
    ensures Separated(Merge(xs))
  {
    if xs != [] {
      var pre, r := xs[..|xs| - 1], xs[|xs| - 1];
      MergeSeparated(pre);
      var m := Merge(pre);
      if m != [] && r.0 <= m[|m| - 1].1 {
        var n := |m| - 1;
        var m' := Merge(xs);
        assert m' == m[n := (m[n].0, Max(m[n].1, r.1))];
        assert forall i :: 0 <= i < n ==> m'[i] == m[i];
      }
    }
  }

  lemma CoversAppend(ms: seq<Range>, r: Range, p: int)
    ensures Covers(ms + [r], p) <==> Covers(ms, p) || r.0 <= p < r.1
  {
    var t := ms + [r];
    if Covers(ms, p) {
      var k :| 0 <= k < |ms| && ms[k].0 <= p < ms[k].1;
      assert t[k] == ms[k];
    }
    if r.0 <= p < r.1 {
      assert t[|ms|] == r;
    }
    if Covers(t, p) {
      var k :| 0 <= k < |t| && t[k].0 <= p < t[k].1;
      if k < |ms| {
        assert t[k] == ms[k];
      }
    }
  }

  /** On ranges sorted by start, merging keeps exactly the covered points. */
  lemma SortedPrefix(xs: seq<Range>, n: int)
    requires SortedBy(xs, StartKey) && 0 <= n <= |xs|
    ensures SortedBy(xs[..n], StartKey)
  {
    var pre := xs[..n];
    forall i, j | 0 <= i < j < |pre| ensures StartKey(pre[i]) <= StartKey(pre[j]) {
      assert pre[i] == xs[i] && pre[j] == xs[j];
    }
  }

  /** On sorted input the last merged range starts no later than the last
      input range. */
  lemma {:induction false} MergeLastStart(xs: seq<Range>)
    requires SortedBy(xs, StartKey)
    ensures xs != [] ==> Merge(xs) != [] && Merge(xs)[|Merge(xs)| - 1].0 <= xs[|xs| - 1].0
  {
    if xs != [] {
      var pre, r := xs[..|xs| - 1], xs[|xs| - 1];
      SortedPrefix(xs, |xs| - 1);
      MergeLastStart(pre);
      if pre != [] {
        assert StartKey(xs[|pre| - 1]) <= StartKey(r);
      }
    }
  }

  /** On ranges sorted by start, merging keeps exactly the covered points. */
  lemma {:induction false} MergeCovers(xs: seq<Range>, p: int)
    requires SortedBy(xs, StartKey)
    ensures Covers(Merge(xs), p) <==> Covers(xs, p)
  {
    if xs != [] {
      var pre, r := xs[..|xs| - 1], xs[|xs| - 1];
      SortedPrefix(xs, |xs| - 1);
      MergeCovers(pre, p);
      assert xs == pre + [r];
      CoversAppend(pre, r, p);
      var m := Merge(pre);
      if m == [] || r.0 > m[|m| - 1].1 {
        CoversAppend(m, r, p);
      } else {
        var n := |m| - 1;
        var front := m[..n];
        MergeLastStart(pre);
        assert StartKey(xs[|pre| - 1]) <= StartKey(r);
        assert m == front + [m[n]];
        assert Merge(xs) == front + [(m[n].0, Max(m[n].1, r.1))];
        CoversAppend(front, m[n], p);
        CoversAppend(front, (m[n].0, Max(m[n].1, r.1)), p);
      }
    }
  }

  lemma CoversPermutation(xs: seq<Range>, ys: seq<Range>, p: int)
    requires multiset(xs) == multiset(ys)
    ensures Covers(xs, p) <==> Covers(ys, p)
  {
    if Covers(xs, p) {
      var k :| 0 <= k < |xs| && xs[k].0 <= p < xs[k].1;
      assert xs[k] in multiset(ys);
      var j :| 0 <= j < |ys| && ys[j] == xs[k];
    }
    if Covers(ys, p) {
      var k :| 0 <= k < |ys| && ys[k].0 <= p < ys[k].1;
      assert ys[k] in multiset(xs);
      var j :| 0 <= j < |xs| && xs[j] == ys[k];
    }
  }

  /** The ranges `_build_marks` highlights, after normalising, sorting by
      start (stably) and merging. */
  function MarkedRanges(ranges: seq<Range>): seq<Range>
  {
    Merge(SortBy(Normalize(ranges), StartKey))
  }

  lemma NormalizeSortedBounds(ranges: seq<Range>)
    ensures forall k :: 0 <= k < |SortBy(Normalize(ranges), StartKey)| ==>
      0 <= SortBy(Normalize(ranges), StartKey)[k].0 <= SortBy(Normalize(ranges), StartKey)[k].1
  {
    var norm := Normalize(ranges);
    var sorted := SortBy(norm, StartKey);
    forall k | 0 <= k < |sorted| ensures 0 <= sorted[k].0 <= sorted[k].1 {
      assert sorted[k] in multiset(norm);
    }
  }

  /** The highlighted ranges are ordered by start and separated: each
      starts after the previous one ends. */
  lemma MarkedRangesSeparated(ranges: seq<Range>)
    ensures Separated(MarkedRanges(ranges))
  {
    NormalizeSortedBounds(ranges);
    MergeSeparated(SortBy(Normalize(ranges), StartKey));
  }

  /** The highlighted ranges cover exactly the points of the normalised
      input ranges. */
  lemma MarkedRangesCover(ranges: seq<Range>)
    ensures forall p :: Covers(MarkedRanges(ranges), p) <==> Covers(Normalize(ranges), p)
  {
    var norm := Normalize(ranges);
    var sorted := SortBy(norm, StartKey);
    forall p ensures Covers(MarkedRanges(ranges), p) <==> Covers(norm, p) {
      MergeCovers(sorted, p);
      CoversPermutation(sorted, norm, p);
    }
  }

  // ---------------------------------------------------------------------
  // _build_marks: the HTML

  const MarkOpen: string := "<mark>"
  const MarkClose: string := "</mark>"
  const PreOpen: string := "<pre>"
  const PreClose: string := "</pre>"

  function LastEnd(ms: seq<Range>): int
  {
    if ms == [] then 0 else ms[|ms| - 1].1
  }

  /** The escaped text between the previous range's end and `start`. */
  function Gap(code: string, last: int, start: int): string
  {
    if last < start then Escape(Slice(code, last, start)) else []
  }

  /** One range, escaped and wrapped in a mark. */
  function MarkedText(code: string, r: Range): string
  {
    MarkOpen + Escape(Slice(code, r.0, r.1)) + MarkClose
  }

  /** What one merged range adds: the gap since `last`, then the mark. */
  function MarkPiece(code: string, last: int, r: Range): string
  {
    Gap(code, last, r.0) + MarkedText(code, r)
  }

  /** The pieces of all merged ranges, in order. */
  function RenderMarks(code: string, ms: seq<Range>): string
  {
    if ms == [] then []
    else
      var pre := ms[..|ms| - 1];
      RenderMarks(code, pre) + MarkPiece(code, LastEnd(pre), ms[|ms| - 1])
  }

  /** The escaped text after the last range, if any. */
  function Tail(code: string, last: int): string
  {
    if last < |code| then Escape(Slice(code, last, |code|)) else []
  }

  /** Everything between `<pre>` and `</pre>` for the merged ranges `ms`. */
  function Body(code: string, ms: seq<Range>): string
  {
    RenderMarks(code, ms) + Tail(code, LastEnd(ms))
  }

  /** The page `_build_marks(code, ranges)` produces. */
  function Marked(code: string, ranges: seq<Range>): string
  {
    PreOpen + ((if ranges == [] then Escape(code) else Body(code, MarkedRanges(ranges))) + PreClose)
  }

  lemma {:induction false} NormalizeDropsReversed(ranges: seq<Range>)
    requires forall k :: 0 <= k < |ranges| ==> ranges[k].1 <= ranges[k].0
    ensures Normalize(ranges) == []
  {
    if ranges != [] {
      NormalizeDropsReversed(ranges[1..]);
    }
  }

  /** Ranges that are all empty or reversed are all dropped, and the page is
      the same as for no ranges at all. */
  lemma NoUsableRanges(code: string, ranges: seq<Range>)
    requires forall k :: 0 <= k < |ranges| ==> ranges[k].1 <= ranges[k].0
    ensures Marked(code, ranges) == PreOpen + (Escape(code) + PreClose)
  {
    if ranges != [] {
      NormalizeDropsReversed(ranges);
      assert |SortBy(Normalize(ranges), StartKey)| == 0;
      var ms := MarkedRanges(ranges);
      assert ms == [];
      var b := Body(code, ms);
      assert b == Escape(code) by {
        assert RenderMarks(code, ms) == [] && LastEnd(ms) == 0;
        assert b == Tail(code, 0);
        if code != [] {
          assert Slice(code, 0, |code|) == code;
        }
      }
      assert Marked(code, ranges) == PreOpen + (b + PreClose);
    }
  }

  lemma MergePrefix(xs: seq<Range>, k: int)
    requires 0 <= k < |xs|
    ensures Merge(xs[..k + 1]) == MergeStep(Merge(xs[..k]), xs[k])
  {
    assert xs[..k + 1][..k] == xs[..k];
  }

  lemma RenderPrefix(code: string, ms: seq<Range>, k: int)
    requires 0 <= k < |ms|
    ensures RenderMarks(code, ms[..k + 1]) == RenderMarks(code, ms[..k]) + MarkPiece(code, LastEnd(ms[..k]), ms[k])
    ensures LastEnd(ms[..k + 1]) == ms[k].1
  {
    assert ms[..k + 1][..k] == ms[..k];
  }

  /** The merge loop of `_build_marks`, on ranges already sorted. The last
      merged range is stretched in place. */
  method MergeRanges(sorted: seq<Range>) returns (merged: seq<Range>)
    ensures merged == Merge(sorted)
  {
    merged := [];
    var k := 0;
    while k < |sorted|
      invariant 0 <= k <= |sorted|
      invariant merged == Merge(sorted[..k])
    {
      var (s, e) := sorted[k];
      MergePrefix(sorted, k);
      if merged == [] || s > merged[|merged| - 1].1 {
        merged := merged + [(s, e)];
      } else {
        var n := |merged| - 1;
        merged := merged[n := (merged[n].0, Max(merged[n].1, e))];
      }
      k := k + 1;
    }
    assert sorted[..|sorted|] == sorted;
  }

  /** Appending the gap (when there is one) and then the mark appends the
      piece of `RenderMarks`. */
  lemma AppendPiece(code: string, out: string, last: int, r: Range)
    ensures last < r.0 ==>
      (out + Escape(Slice(code, last, r.0))) + MarkedText(code, r) == out + MarkPiece(code, last, r)
    ensures last >= r.0 ==> out + MarkedText(code, r) == out + MarkPiece(code, last, r)
  {
    if last >= r.0 {
      assert MarkPiece(code, last, r) == MarkedText(code, r);
    }
  }

  lemma AppendTail(code: string, out: string, last: int)
    ensures last < |code| ==> out + Escape(Slice(code, last, |code|)) == out + Tail(code, last)
    ensures last >= |code| ==> out == out + Tail(code, last)
  {
  }

  /** The output loop of `_build_marks`: the text between `<pre>` and
      `</pre>`. */
  method RenderBody(code: string, merged: seq<Range>) returns (out: string)
    ensures out == Body(code, merged)
  {
    out := [];
    var last := 0;
    var k := 0;
    while k < |merged|
      invariant 0 <= k <= |merged|
      invariant out == RenderMarks(code, merged[..k])
      invariant last == LastEnd(merged[..k])
    {
      var s, e := merged[k].0, merged[k].1;
      RenderPrefix(code, merged, k);
      AppendPiece(code, out, last, merged[k]);
      if last < s {
        out := out + Escape(Slice(code, last, s));
      }
      out := out + MarkedText(code, merged[k]);
      last := e;
      k := k + 1;
    }
    assert merged[..|merged|] == merged;
    AppendTail(code, out, last);
    if last < |code| {
      out := out + Escape(Slice(code, last, |code|));
    }
  }

  /** `_build_marks(code, ranges)`. */
  method BuildMarks(code: string, ranges: seq<Range>) returns (html: string)
    ensures html == Marked(code, ranges)
    ensures ranges == [] ==> html == PreOpen + (Escape(code) + PreClose)
  {
    if ranges == [] {
      // Without ranges the code is only escaped.
      html := PreOpen + (Escape(code) + PreClose);
    } else {
      var sorted := SortBy(Normalize(ranges), StartKey);
      var merged := MergeRanges(sorted);
      var out := RenderBody(code, merged);
      html := PreOpen + (out + PreClose);
    }
  }

  // ---------------------------------------------------------------------
  // Removing the marks gives back the escaped code

  /** Length of the mark tag `s` starts with, or 0. */
  function TagAt(s: string): (n: nat)
    ensures n <= |s|
  {
    if StartsWith(s, MarkOpen) then |MarkOpen|
    else if StartsWith(s, MarkClose) then |MarkClose|
    else 0
  }

  /** Deletes every `<mark>` and `</mark>` tag, scanning left to right. */
  function RemoveMarks(s: string): string
    decreases |s|
  {
    if s == [] then []
    else if TagAt(s) > 0 then RemoveMarks(s[TagAt(s)..])
    else [s[0]] + RemoveMarks(s[1..])
  }

  /** Both tags start with '<', and differ from anything whose second
      character is neither 'm' nor '/'. */
  lemma NoTagAt(s: string)
    requires s != []
    requires s[0] != '<' || (|s| >= 2 && s[1] != 'm' && s[1] != '/')
    ensures TagAt(s) == 0
  {
    assert MarkOpen[0] == '<' && MarkClose[0] == '<';
    assert MarkOpen[1] == 'm' && MarkClose[1] == '/';
    if |MarkOpen| <= |s| {
      assert s[..|MarkOpen|][0] == s[0] && s[..|MarkOpen|][1] == s[1];
    }
    if |MarkClose| <= |s| {
      assert s[..|MarkClose|][0] == s[0] && s[..|MarkClose|][1] == s[1];
    }
  }

  /** Text without '<' is copied through. */
  lemma {:induction false} RemoveMarksPlain(u: string, t: string)
    requires '<' !in u
    ensures RemoveMarks(u + t) == u + RemoveMarks(t)
  {
    if u == [] {
      assert u + t == t;
    } else {
      var s := u + t;
      assert u[0] in u;
      assert s[0] == u[0] && s[1..] == u[1..] + t;
      NoTagAt(s);
      RemoveMarksPlain(u[1..], t);
      Assoc([u[0]], u[1..], RemoveMarks(t));
      assert [u[0]] + u[1..] == u;
    }
  }

  lemma RemoveMarksOpen(t: string)
    ensures RemoveMarks(MarkOpen + t) == RemoveMarks(t)
  {
    var s := MarkOpen + t;
    assert s[..|MarkOpen|] == MarkOpen;
    assert TagAt(s) == |MarkOpen|;
    assert s[|MarkOpen|..] == t;
  }

  lemma RemoveMarksClose()
    ensures RemoveMarks(MarkClose) == []
  {
    var s := MarkClose;
    assert !StartsWith(s, MarkOpen) by { assert s[1] != MarkOpen[1]; }
    assert s[..|MarkClose|] == MarkClose;
    assert TagAt(s) == |MarkClose|;
    assert s[|MarkClose|..] == [];
  }

  /** The opening `<pre>` tag is not a mark and stays. */
  lemma RemoveMarksPreOpen(t: string)
    ensures RemoveMarks(PreOpen + t) == PreOpen + RemoveMarks(t)
  {
    var s := PreOpen + t;
    assert s[0] == '<' && s[1] == 'p';
    NoTagAt(s);
    assert s[1..] == "pre>" + t;
    RemoveMarksPlain("pre>", t);
    Assoc(['<'], "pre>", RemoveMarks(t));
    assert ['<'] + "pre>" == PreOpen;
  }

  /** The closing `</pre>` tag is not a mark and stays. */
  lemma RemoveMarksPreClose()
    ensures RemoveMarks(PreClose) == PreClose
  {
    var c := PreClose;
    assert !StartsWith(c, MarkOpen) by { assert c[1] != MarkOpen[1]; }
    assert !StartsWith(c, MarkClose) by { assert |MarkClose| > |c|; }
    assert c[1..] == "/pre>" + [];
    RemoveMarksPlain("/pre>", []);
    assert ['<'] + "/pre>" == c;
  }

  /** A text ending in '>' starts with a tag exactly when it does after
      anything is appended, as each tag has '>' only as its last character. */
  lemma TagExtend(x: string, y: string, tag: string)
    requires x != [] && x[|x| - 1] == '>'
    requires tag != [] && '>' !in tag[..|tag| - 1]
    ensures StartsWith(x + y, tag) <==> StartsWith(x, tag)
  {
    var s := x + y;
    if |x| >= |tag| {
      assert s[..|tag|] == x[..|tag|];
    } else {
      assert !StartsWith(x, tag);
      assert s[|x| - 1] == '>';
      assert tag[..|tag| - 1][|x| - 1] == tag[|x| - 1];
    }
  }

  lemma TagAtExtend(x: string, y: string)
    requires x != [] && x[|x| - 1] == '>'
    ensures TagAt(x + y) == TagAt(x)
  {
    assert MarkOpen[..|MarkOpen| - 1] == "<mark";
    assert MarkClose[..|MarkClose| - 1] == "</mark";
    TagExtend(x, y, MarkOpen);
    TagExtend(x, y, MarkClose);
  }

  /** No tag straddles a boundary after a '>': tag removal works piecewise. */
  lemma {:induction false} RemoveMarksSplit(x: string, y: string)
    requires x == [] || x[|x| - 1] == '>'
    ensures RemoveMarks(x + y) == RemoveMarks(x) + RemoveMarks(y)
    decreases |x|
  {
    var s := x + y;
    if x == [] {
      assert s == y;
    } else {
      TagAtExtend(x, y);
      var n := TagAt(x);
      if n > 0 {
        assert s[n..] == x[n..] + y;
        RemoveMarksSplit(x[n..], y);
      } else {
        assert s[0] == x[0] && s[1..] == x[1..] + y;
        RemoveMarksSplit(x[1..], y);
        Assoc([x[0]], RemoveMarks(x[1..]), RemoveMarks(y));
      }
    }
  }

  /** Without its tags, one piece is the escaped text from `last` to the
      end of its range. */
  lemma RemoveMarksPiece(code: string, last: int, r: Range)
    requires 0 <= last <= r.0 <= r.1
    ensures RemoveMarks(MarkPiece(code, last, r)) == Escape(Slice(code, last, r.1))
    ensures MarkPiece(code, last, r)[|MarkPiece(code, last, r)| - 1] == '>'
  {
    var gap := Escape(Slice(code, last, r.0));
    var mid := Escape(Slice(code, r.0, r.1));
    assert last == r.0 ==> Slice(code, last, r.0) == [];
    assert Gap(code, last, r.0) == gap;
    var mark := MarkedText(code, r);
    Assoc(MarkOpen, mid, MarkClose);
    RemoveMarksPlain(gap, mark);
    RemoveMarksOpen(mid + MarkClose);
    RemoveMarksPlain(mid, MarkClose);
    RemoveMarksClose();
    assert mid + [] == mid;
    EscapeAppend(Slice(code, last, r.0), Slice(code, r.0, r.1));
    SliceConcat(code, last, r.0, r.1);
  }

  lemma {:induction false} RemoveMarksRender(code: string, ms: seq<Range>)
    requires Separated(ms)
    ensures RemoveMarks(RenderMarks(code, ms)) == Escape(Slice(code, 0, LastEnd(ms)))
    ensures ms == [] || RenderMarks(code, ms)[|RenderMarks(code, ms)| - 1] == '>'
    ensures 0 <= LastEnd(ms)
  {
    if ms != [] {
      var pre, r := ms[..|ms| - 1], ms[|ms| - 1];
      assert Separated(pre) by {
        assert forall k :: 0 <= k < |pre| ==> pre[k] == ms[k];
      }
      RemoveMarksRender(code, pre);
      var last := LastEnd(pre);
      assert pre != [] ==> last == ms[|pre| - 1].1 < r.0;
      RemoveMarksPiece(code, last, r);
      RemoveMarksSplit(RenderMarks(code, pre), MarkPiece(code, last, r));
      EscapeAppend(Slice(code, 0, last), Slice(code, last, r.1));
      SliceConcat(code, 0, last, r.1);
    }
  }

  /** Without its tags, the body is the escaped code. */
  lemma RemoveMarksBody(code: string, ranges: seq<Range>)
    requires ranges != []
    ensures RemoveMarks(Body(code, MarkedRanges(ranges)) + PreClose) == Escape(code) + PreClose
  {
    var ms := MarkedRanges(ranges);
    MarkedRangesSeparated(ranges);
    var body := RenderMarks(code, ms);
    var last := LastEnd(ms);
    var tail := Tail(code, last);
    var e0 := Escape(Slice(code, 0, last));
    RemoveMarksRender(code, ms);
    Assoc(body, tail, PreClose);
    RemoveMarksSplit(body, tail + PreClose);
    RemoveMarksPlain(tail, PreClose);
    RemoveMarksPreClose();
    assert RemoveMarks(Body(code, ms) + PreClose) == e0 + (tail + PreClose);
    Assoc(e0, tail, PreClose);
    if last < |code| {
      EscapeAppend(Slice(code, 0, last), Slice(code, last, |code|));
      SliceConcat(code, 0, last, |code|);
      assert Slice(code, 0, |code|) == code;
    } else {
      assert e0 + tail == e0;
      assert Slice(code, 0, last) == code;
    }
  }

  /** Deleting every mark tag from the page leaves `<pre>`, the escaped code
      and `</pre>`: no character is dropped or repeated. */
  lemma MarksOnlyAddTags(code: string, ranges: seq<Range>)
    ensures RemoveMarks(Marked(code, ranges)) == PreOpen + (Escape(code) + PreClose)
  {
    var inner := if ranges == [] then Escape(code) else Body(code, MarkedRanges(ranges));
    RemoveMarksPreOpen(inner + PreClose);
    RemoveMarksPreClose();
    if ranges == [] {
      RemoveMarksPlain(Escape(code), PreClose);
    } else {
      RemoveMarksBody(code, ranges);
    }
  }

  // ---------------------------------------------------------------------
  // render_highlights

  /** One entry of the `"spans"` list: its `"a"` and `"b"` lists, if any. */
  datatype PairItem = PairItem(a: Option<seq<int>>, b: Option<seq<int>>)

  /** The spans dictionary. A missing `"spans"` is the empty list; a missing
      `"spans1"` / `"spans2"` is None; a None dictionary is all three missing. */
  datatype SpansObj = SpansObj(spans: seq<PairItem>, spans1: Option<seq<Range>>, spans2: Option<seq<Range>>)

  datatype Side = A | B

  function Pick(item: PairItem, side: Side): Option<seq<int>>
  {
    if side == A then item.a else item.b
  }

  /** A usable pair: a list of exactly two numbers. */
  predicate IsPair(v: Option<seq<int>>)
  {
    v.Some? && |v.value| == 2
  }

  /** The range a usable pair stands for. */
  function PairOf(v: Option<seq<int>>): Range
    requires IsPair(v)
  {
    (v.value[0], v.value[1])
  }

  /** The ranges the pair loop collects for one side, in list order. */
  function PairRanges(items: seq<PairItem>, side: Side): (r: seq<Range>)
    ensures |r| <= |items|
  {
    if items == [] then []
    else
      var pre, v := items[..|items| - 1], Pick(items[|items| - 1], side);
      PairRanges(pre, side) + (if IsPair(v) then [PairOf(v)] else [])
  }

  /** The positions of the entries whose pair for `side` is usable, in
      increasing order. */
  function UsableIndices(items: seq<PairItem>, side: Side): (ix: seq<int>)
    ensures forall k :: 0 <= k < |ix| ==> 0 <= ix[k] < |items| && IsPair(Pick(items[ix[k]], side))
    ensures forall k, l :: 0 <= k < l < |ix| ==> ix[k] < ix[l]
    ensures forall i :: 0 <= i < |items| && IsPair(Pick(items[i], side)) ==> i in ix
  {
    if items == [] then []
    else
      var n := |items| - 1;
      var pre := items[..n];
      assert forall i :: 0 <= i < n ==> pre[i] == items[i];
      UsableIndices(pre, side) + (if IsPair(Pick(items[n], side)) then [n] else [])
  }

  /** Every usable pair contributes its range, in order, and nothing else
      does: the `k`-th range is the pair of the `k`-th usable entry. */
  lemma {:induction false} PairRangesSkips(items: seq<PairItem>, side: Side)
    ensures |PairRanges(items, side)| == |UsableIndices(items, side)|
    ensures forall k :: 0 <= k < |PairRanges(items, side)| ==>
      PairRanges(items, side)[k] == PairOf(Pick(items[UsableIndices(items, side)[k]], side))
  {
    if items != [] {
      var n := |items| - 1;
      var pre := items[..n];
      PairRangesSkips(pre, side);
      var ix := UsableIndices(items, side);
      forall k | 0 <= k < |PairRanges(items, side)|
        ensures PairRanges(items, side)[k] == PairOf(Pick(items[ix[k]], side))
      {
        if k < |PairRanges(pre, side)| {
          assert ix[k] == UsableIndices(pre, side)[k];
          assert pre[ix[k]] == items[ix[k]];
        }
      }
    }
  }

  function OrEmpty(v: Option<seq<Range>>): seq<Range>
  {
    if v.Some? then v.value else []
  }

  /** The ranges of one side: the explicit list when either explicit list
      is present, otherwise the pairs. */
  function SideRanges(obj: SpansObj, side: Side): seq<Range>
  {
    if obj.spans1.Some? || obj.spans2.Some? then
      OrEmpty(if side == A then obj.spans1 else obj.spans2)
    else PairRanges(obj.spans, side)
  }

  /** The loop over the `"spans"` entries: each side's pair, when it is a
      list of exactly two numbers, becomes a range. */
  method CollectPairs(items: seq<PairItem>) returns (aRanges: seq<Range>, bRanges: seq<Range>)
    ensures aRanges == PairRanges(items, A)
    ensures bRanges == PairRanges(items, B)
  {
    aRanges, bRanges := [], [];
    var i := 0;
    while i < |items|
      invariant 0 <= i <= |items|
      invariant aRanges == PairRanges(items[..i], A)
      invariant bRanges == PairRanges(items[..i], B)
    {
      var item := items[i];
      assert items[..i + 1][..i] == items[..i];
      if item.a.Some? && |item.a.value| == 2 {
        aRanges := aRanges + [(item.a.value[0], item.a.value[1])];
      }
      if item.b.Some? && |item.b.value| == 2 {
        bRanges := bRanges + [(item.b.value[0], item.b.value[1])];
      }
      i := i + 1;
    }
    assert items[..|items|] == items;
  }

  /** `render_highlights(code1, code2, spans_obj)`. */
  method RenderHighlights(code1: string, code2: string, obj: SpansObj) returns (html1: string, html2: string)
    ensures html1 == Marked(code1, SideRanges(obj, A))
    ensures html2 == Marked(code2, SideRanges(obj, B))
    ensures RemoveMarks(html1) == PreOpen + (Escape(code1) + PreClose)
    ensures RemoveMarks(html2) == PreOpen + (Escape(code2) + PreClose)
  {
    var aRanges: seq<Range>, bRanges: seq<Range>;
    if obj.spans1.Some? || obj.spans2.Some? {
      aRanges := OrEmpty(obj.spans1);
      bRanges := OrEmpty(obj.spans2);
    } else {
      aRanges, bRanges := CollectPairs(obj.spans);
    }
    html1 := BuildMarks(code1, aRanges);
    html2 := BuildMarks(code2, bRanges);
    MarksOnlyAddTags(code1, aRanges);
    MarksOnlyAddTags(code2, bRanges);
  }
}
