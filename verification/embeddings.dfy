/** Chunking and chunk matching (app/engine/embeddings.py). The sentence
    encoder is not modelled: `topk_chunk_matches` receives the matrix of
    chunk-to-chunk cosine similarities it would have computed. */
module Embeddings {
  import opened PyBuiltins
  import opened Sorting

  // ---------------------------------------------------------------------
  // `str.split()` with no separator

  /** A word of `str.split()`: non-empty and free of whitespace. */
  predicate IsWord(w: string)
  {
    w != [] && forall i :: 0 <= i < |w| ==> !IsSpace(w[i])
  }

  /** `s.split()`: the maximal runs of non-whitespace characters, in order. */
  function Words(s: string): (ws: seq<string>)
    ensures forall i :: 0 <= i < |ws| ==> IsWord(ws[i])
    decreases |s|
  {
    if s == [] then []
    else if IsSpace(s[0]) then Words(s[1..])
    else
      var n := LeadingRun(s, NotSpace);
      [s[..n]] + Words(s[n..])
  }

  lemma WordsOfOneWord(w: string, rest: string)
    requires IsWord(w)
    requires rest == [] || IsSpace(rest[0])
    ensures Words(w + rest) == [w] + Words(rest)
  {
    var s := w + rest;
    assert s[0] == w[0];
    LeadingRunOfPrefix(w, rest, NotSpace);
    assert s[..|w|] == w && s[|w|..] == rest;
  }

  /** Splitting the space-joined words gives the words back, so a chunk
      re-split yields exactly the tokens it was built from. */
  lemma {:induction false} WordsOfJoin(ws: seq<string>)
    requires forall i :: 0 <= i < |ws| ==> IsWord(ws[i])
    ensures Words(Join(ws, " ")) == ws
    decreases |ws|
  {
    if |ws| == 1 {
      WordsOfOneWord(ws[0], "");
      assert ws[0] + "" == ws[0];
    } else if |ws| > 1 {
      var rest := Join(ws[1..], " ");
      var spaced := " " + rest;
      WordsOfOneWord(ws[0], spaced);
      Assoc(ws[0], " ", rest);
      assert spaced[0] == ' ' && spaced[1..] == rest;
      WordsOfJoin(ws[1..]);
      assert ws == [ws[0]] + ws[1..];
    }
  }

  // ---------------------------------------------------------------------
  // `chunk_text`

  /** `ceil(a / s)` for `a >= 0` and `s > 0`. */
  function CeilDiv(a: nat, s: int): nat
    requires s > 0
  {
    (a + s - 1) / s
  }

  lemma MulMonotone(x: int, y: int, s: int)
    requires s > 0
    ensures x <= y ==> x * s <= y * s
    ensures x * s < y * s ==> x < y
  {
    assert y * s - x * s == (y - x) * s;
    if x <= y {
      assert (y - x) * s >= 0;
    } else {
      assert (x - y) * s >= 0;
    }
  }

  /** `ceil(a / s)` is the least `q` with `a <= q * s`. */
  lemma CeilDivBounds(a: nat, s: int, q: int)
    requires s > 0
    ensures q * s < a ==> q < CeilDiv(a, s)
    ensures a <= q * s ==> CeilDiv(a, s) <= q
  {
    var d := CeilDiv(a, s);
    assert d * s <= a + s - 1 < d * s + s;
    if q * s < a {
      assert a <= d * s;
      MulMonotone(q, d, s);
    }
    if a <= q * s {
      assert d * s < (q + 1) * s;
      MulMonotone(d, q + 1, s);
    }
  }

  /** Chunks produced for `n > 0` tokens with `max_tokens > 0` and
      `stride > 0`: windows start at 0, stride, 2*stride, ... and stop after
      the first window reaching the last token, or when a start passes it. */
  function ChunkCount(n: nat, maxTokens: int, stride: int): nat
    requires stride > 0
  {
    Min(CeilDiv(n, stride), 1 + CeilDiv(Max(0, n - maxTokens), stride))
  }

  /** Where chunk `c` starts, `c * stride`, one stride at a time as the loop
      advances it. */
  function Start(c: nat, stride: int): (i: int)
    ensures stride > 0 ==> i >= 0
  {
    if c == 0 then 0 else Start(c - 1, stride) + stride
  }

  lemma {:induction false} StartIsProduct(c: nat, stride: int)
    ensures Start(c, stride) == c * stride
  {
    if c > 0 {
      StartIsProduct(c - 1, stride);
    }
  }

  /** The token window of chunk `c`, `toks[c*stride : c*stride + max_tokens]`. */
  function Window(toks: seq<string>, maxTokens: int, stride: int, c: nat): seq<string>
  {
    Slice(toks, Start(c, stride), Start(c, stride) + maxTokens)
  }

  /** A non-empty first window that ends before the last token keeps the
      loop going. */
  lemma FirstRoundDoesNotStop(toks: seq<string>, maxTokens: int)
    ensures Slice(toks, 0, maxTokens) != [] && maxTokens < |toks| ==> !FirstRoundStops(|toks|, maxTokens)
  {
  }

  /** The first `k` chunks: each window's tokens joined by single spaces. */
  function JoinedWindows(toks: seq<string>, maxTokens: int, stride: int, k: nat): (r: seq<string>)
    ensures |r| == k
    ensures forall c :: 0 <= c < k ==> r[c] == Join(Window(toks, maxTokens, stride, c), " ")
  {
    if k == 0 then [] else JoinedWindows(toks, maxTokens, stride, k - 1) + [Join(Window(toks, maxTokens, stride, k - 1), " ")]
  }

  /** The loop's first round already ends it: no tokens, a window reaching
      the end, or an empty first window. */
  predicate FirstRoundStops(n: nat, maxTokens: int)
  {
    n == 0 || maxTokens >= n || SliceBound(maxTokens, n) == 0
  }

  /** What `chunk_text` promises about its result. */
  ghost predicate ChunksDone(text: string, maxTokens: int, stride: int, chunks: seq<string>)
  {
    var toks := Words(text);
    chunks != [] &&
    (toks == [] ==> chunks == [text]) &&
    (SliceBound(maxTokens, |toks|) == 0 ==> chunks == [text]) &&
    (SliceBound(maxTokens, |toks|) > 0 ==>
      forall c :: 0 <= c < |chunks| ==> chunks[c] == Join(Window(toks, maxTokens, stride, c), " ")) &&
    (0 < maxTokens && 0 < stride && toks != [] ==> |chunks| == ChunkCount(|toks|, maxTokens, stride))
  }

  /** The loop invariant of `chunk_text`: `i` is the start of the next
      window, the chunks so far are the joined windows before it, and the
      last of them did not reach the final token. */
  ghost predicate ChunkLoop(toks: seq<string>, maxTokens: int, stride: int, chunks: seq<string>, i: int)
  {
    i == Start(|chunks|, stride) &&
    (stride == 0 ==> chunks == []) &&
    chunks == JoinedWindows(toks, maxTokens, stride, |chunks|) &&
    (chunks != [] ==> i - stride + maxTokens < |toks| && i - stride < |toks| &&
                      SliceBound(maxTokens, |toks|) > 0)
  }

  /** `chunk_text(text, max_tokens, stride)`. With `stride == 0` the loop
      never ends unless its first round stops it; a negative stride walks
      the start back until its window is empty. */
  method ChunkText(text: string, maxTokens: int, stride: int) returns (chunks: seq<string>)
    requires stride != 0 || FirstRoundStops(|Words(text)|, maxTokens)
    ensures chunks != []
    ensures Words(text) == [] ==> chunks == [text]
    ensures SliceBound(maxTokens, |Words(text)|) == 0 ==> chunks == [text]
    ensures SliceBound(maxTokens, |Words(text)|) > 0 ==>
      forall c :: 0 <= c < |chunks| ==> chunks[c] == Join(Window(Words(text), maxTokens, stride, c), " ")
    ensures 0 < maxTokens && 0 < stride && Words(text) != [] ==>
      |chunks| == ChunkCount(|Words(text)|, maxTokens, stride)
  {
    var toks := Words(text);
    chunks := [];
    var i := 0;
    ghost var stopped := false;
    while i < |toks|
      invariant ChunkLoop(toks, maxTokens, stride, chunks, i)
      invariant !stopped
      decreases if stride > 0 then |toks| - i else i + maxTokens + |toks|
    {
      var chunk := Slice(toks, i, i + maxTokens);
      if chunk == [] {
        ExitAtEmptyWindow(text, maxTokens, stride, chunks, i);
        stopped := true;
        break;
      }
      ghost var before := chunks;
      chunks := chunks + [Join(chunk, " ")];
      if i + maxTokens >= |toks| {
        ExitAtLastWindow(text, maxTokens, stride, before, i);
        stopped := true;
        break;
      }
      NextWindow(toks, maxTokens, stride, before, i);
      i := i + stride;
    }
    if !stopped {
      ExitPastEnd(text, maxTokens, stride, chunks, i);
    }
    if chunks == [] {
      chunks := [text];
    }
  }

  lemma NextWindow(toks: seq<string>, maxTokens: int, stride: int, chunks: seq<string>, i: int)
    requires ChunkLoop(toks, maxTokens, stride, chunks, i)
    requires stride != 0 || FirstRoundStops(|toks|, maxTokens)
    requires i < |toks| && Slice(toks, i, i + maxTokens) != [] && i + maxTokens < |toks|
    ensures stride != 0
    ensures stride < 0 ==> i + maxTokens + |toks| > 0
    ensures ChunkLoop(toks, maxTokens, stride, chunks + [Join(Slice(toks, i, i + maxTokens), " ")], i + stride)
  {
    if stride == 0 {
      FirstRoundDoesNotStop(toks, maxTokens);
    }
    AppendWindow(toks, maxTokens, stride, chunks, i);
    assert chunks == [] ==> SliceBound(maxTokens, |toks|) > 0;
  }

  /** The loop's next chunk is the next joined window. */
  lemma AppendWindow(toks: seq<string>, maxTokens: int, stride: int, chunks: seq<string>, i: int)
    requires i == Start(|chunks|, stride) && chunks == JoinedWindows(toks, maxTokens, stride, |chunks|)
    ensures chunks + [Join(Slice(toks, i, i + maxTokens), " ")] ==
            JoinedWindows(toks, maxTokens, stride, |chunks| + 1)
  {
    assert Window(toks, maxTokens, stride, |chunks|) == Slice(toks, i, i + maxTokens);
  }

  lemma ExitPastEnd(text: string, maxTokens: int, stride: int, chunks: seq<string>, i: int)
    requires ChunkLoop(Words(text), maxTokens, stride, chunks, i)
    requires i >= |Words(text)|
    ensures ChunksDone(text, maxTokens, stride, if chunks == [] then [text] else chunks)
  {
    var toks := Words(text);
    var k := |chunks|;
    if chunks != [] && 0 < maxTokens && 0 < stride && toks != [] {
      assert Start(k, stride) == Start(k - 1, stride) + stride;
      if k >= 2 {
        assert Start(k - 1, stride) == Start(k - 2, stride) + stride;
      }
      ChunkCountAtExit(|toks|, maxTokens, stride, k, i - stride);
    }
  }

  lemma ExitAtEmptyWindow(text: string, maxTokens: int, stride: int, chunks: seq<string>, i: int)
    requires ChunkLoop(Words(text), maxTokens, stride, chunks, i)
    requires i < |Words(text)| && Slice(Words(text), i, i + maxTokens) == []
    ensures ChunksDone(text, maxTokens, stride, if chunks == [] then [text] else chunks)
  {
  }

  lemma ExitAtLastWindow(text: string, maxTokens: int, stride: int, chunks: seq<string>, i: int)
    requires ChunkLoop(Words(text), maxTokens, stride, chunks, i)
    requires 0 <= i < |Words(text)| && Slice(Words(text), i, i + maxTokens) != []
    requires i + maxTokens >= |Words(text)|
    ensures ChunksDone(text, maxTokens, stride, chunks + [Join(Slice(Words(text), i, i + maxTokens), " ")])
  {
    var toks := Words(text);
    var next := chunks + [Join(Slice(toks, i, i + maxTokens), " ")];
    AppendWindow(toks, maxTokens, stride, chunks, i);
    assert chunks == [] ==> SliceBound(maxTokens, |toks|) > 0;
    if 0 < maxTokens && 0 < stride {
      if |chunks| >= 1 {
        assert Start(|chunks|, stride) == Start(|chunks| - 1, stride) + stride;
      }
      ChunkCountAtExit(|toks|, maxTokens, stride, |next|, i);
    }
  }

  /** The two ways the loop ends after `k` chunks, the last one starting at
      `i`, both give `ChunkCount`. */
  lemma ChunkCountAtExit(n: nat, maxTokens: int, stride: int, k: nat, i: int)
    requires 0 < maxTokens && 0 < stride && 0 < n && 1 <= k
    requires i == Start(k - 1, stride) && 0 <= i < n
    requires k >= 2 ==> i - stride + maxTokens < n
    requires i + maxTokens >= n || (i + maxTokens < n && i + stride >= n)
    ensures k == ChunkCount(n, maxTokens, stride)
  {
    StartIsProduct(k - 1, stride);
    assert k * stride == i + stride;
    assert (k - 2) * stride == i - stride;
    CeilDivBounds(n, stride, k - 1);
    CeilDivBounds(n, stride, k);
    CeilDivBounds(Max(0, n - maxTokens), stride, k - 1);
    CeilDivBounds(Max(0, n - maxTokens), stride, k - 2);
  }

  /** With `stride <= max_tokens` no start passes the last token first, so
      the count is `1 + ceil((n - max_tokens) / stride)` (1 when the text fits
      in one window). */
  lemma ChunkCountWhenStrideFits(n: nat, maxTokens: int, stride: int)
    requires 0 < stride <= maxTokens && 0 < n
    ensures ChunkCount(n, maxTokens, stride) == 1 + CeilDiv(Max(0, n - maxTokens), stride)
    ensures n <= maxTokens ==> ChunkCount(n, maxTokens, stride) == 1
    ensures n == maxTokens + stride ==> ChunkCount(n, maxTokens, stride) == 2
  {
    var q := CeilDiv(Max(0, n - maxTokens), stride);
    CeilDivBounds(Max(0, n - maxTokens), stride, q - 1);
    assert (q - 1) * stride < Max(0, n - maxTokens) || q == 0;
    assert q * stride < n by {
      if q > 0 {
        assert (q - 1) * stride + stride <= n - maxTokens + stride;
      }
    }
    CeilDivBounds(n, stride, q);
    if n <= maxTokens {
      CeilDivBounds(0, stride, 0);
    }
    if n == maxTokens + stride {
      CeilDivBounds(stride, stride, 0);
      CeilDivBounds(stride, stride, 1);
    }
  }

  /** Every chunk's window starts inside the token list, holds at most
      `max_tokens` tokens, and all but the last are full. */
  lemma ChunkWindows(toks: seq<string>, maxTokens: int, stride: int, c: nat)
    requires 0 < maxTokens && 0 < stride && toks != []
    requires 0 <= c < ChunkCount(|toks|, maxTokens, stride)
    ensures c * stride < |toks|
    ensures Window(toks, maxTokens, stride, c) == toks[c * stride .. Min(c * stride + maxTokens, |toks|)]
    ensures 0 < |Window(toks, maxTokens, stride, c)| <= maxTokens
    ensures c + 1 < ChunkCount(|toks|, maxTokens, stride) ==>
      c * stride + maxTokens < |toks| && |Window(toks, maxTokens, stride, c)| == maxTokens
  {
    var n := |toks|;
    StartIsProduct(c, stride);
    CeilDivBounds(n, stride, c);
    if c + 1 < ChunkCount(n, maxTokens, stride) {
      CeilDivBounds(Max(0, n - maxTokens), stride, c);
    }
  }

  /** With `stride <= max_tokens` the last window ends at the last token,
      so every token is in some chunk. */
  lemma LastChunkReachesEnd(toks: seq<string>, maxTokens: int, stride: int)
    requires 0 < stride <= maxTokens && toks != []
    ensures var last := ChunkCount(|toks|, maxTokens, stride) - 1;
      last >= 0 && (last * stride + maxTokens >= |toks|) &&
      Window(toks, maxTokens, stride, last) == toks[last * stride..]
  {
    var n := |toks|;
    ChunkCountWhenStrideFits(n, maxTokens, stride);
    var last := ChunkCount(n, maxTokens, stride) - 1;
    CeilDivBounds(Max(0, n - maxTokens), stride, last);
    ChunkWindows(toks, maxTokens, stride, last);
  }

  /** Consecutive chunks share `max_tokens - stride` tokens: the stride is the
      step between windows, not their overlap. */
  lemma ConsecutiveChunksOverlap(toks: seq<string>, maxTokens: int, stride: int, c: nat)
    requires 0 < stride <= maxTokens && toks != []
    requires 0 <= c && c + 1 < ChunkCount(|toks|, maxTokens, stride)
    ensures |Window(toks, maxTokens, stride, c)| == maxTokens
    ensures |Window(toks, maxTokens, stride, c + 1)| >= maxTokens - stride &&
            Window(toks, maxTokens, stride, c)[stride..] ==
            Window(toks, maxTokens, stride, c + 1)[..maxTokens - stride]
  {
    ChunkWindows(toks, maxTokens, stride, c);
    ChunkWindows(toks, maxTokens, stride, c + 1);
    var a := Start(c, stride);
    var b := Start(c + 1, stride);
    assert b == a + stride;
    var w0 := toks[a..a + maxTokens];
    var w1 := toks[b..Min(b + maxTokens, |toks|)];
    assert Window(toks, maxTokens, stride, c) == w0;
    assert Window(toks, maxTokens, stride, c + 1) == w1;
    assert w0[stride..] == toks[b..a + maxTokens];
    assert w1[..maxTokens - stride] == toks[b..a + maxTokens];
  }

  /** A chunk re-split on whitespace gives back its window of tokens. */
  lemma ChunkTokens(text: string, maxTokens: int, stride: int, c: nat)
    ensures Words(Join(Window(Words(text), maxTokens, stride, c), " ")) ==
            Window(Words(text), maxTokens, stride, c)
  {
    var w := Window(Words(text), maxTokens, stride, c);
    forall i | 0 <= i < |w| ensures IsWord(w[i]) {
      var toks := Words(text);
      var a := SliceBound(Start(c, stride), |toks|);
      assert w[i] == toks[a + i];
    }
    WordsOfJoin(w);
  }

  // ---------------------------------------------------------------------
  // `topk_chunk_matches`

  /** One entry of the result: `{"chunk1_idx", "chunk2_idx", "score"}`. */
  datatype Match = Match(chunk1: int, chunk2: int, score: real)

  /** `torch.argmax` over a row: the first column holding the maximum. */
  function ArgMax(row: seq<real>): (j: nat)
    requires row != []
    ensures j < |row|
    ensures forall k :: 0 <= k < |row| ==> row[k] <= row[j]
    ensures forall k :: 0 <= k < j ==> row[k] < row[j]
  {
    if |row| == 1 then 0
    else
      var j := ArgMax(row[1..]);
      if row[0] >= row[1 + j] then 0 else 1 + j
  }

  predicate RowsNonEmpty(sims: seq<seq<real>>)
  {
    forall i :: 0 <= i < |sims| ==> sims[i] != []
  }

  /** The best match of chunk `i` of the first file. */
  function BestOfRow(sims: seq<seq<real>>, i: int): (m: Match)
    requires RowsNonEmpty(sims) && 0 <= i < |sims|
    ensures m.chunk1 == i && m.chunk2 == ArgMax(sims[i]) && m.score == sims[i][m.chunk2]
  {
    var j := ArgMax(sims[i]);
    Match(i, j, sims[i][j])
  }

  /** What `topk_chunk_matches` promises: `min(topk, rows)` entries (Python
      slice bounds), each the best match of a distinct row, ordered by score
      with ties in row order, and none worse than any row left out; a row
      left out with the same score as a returned one has a higher index, as
      the stable sort puts it later. */
  ghost predicate IsTopkMatches(sims: seq<seq<real>>, topk: int, results: seq<Match>)
    requires RowsNonEmpty(sims)
  {
    |results| == SliceBound(topk, |sims|) &&
    (forall k :: 0 <= k < |results| ==>
      0 <= results[k].chunk1 < |sims| && results[k] == BestOfRow(sims, results[k].chunk1)) &&
    (forall a, b :: 0 <= a < b < |results| ==>
      results[a].score > results[b].score ||
      (results[a].score == results[b].score && results[a].chunk1 < results[b].chunk1)) &&
    (forall a, b :: 0 <= a < b < |results| ==> results[a].chunk1 != results[b].chunk1) &&
    (forall i, k ::
      (0 <= i < |sims| && 0 <= k < |results| &&
       (forall l :: 0 <= l < |results| ==> results[l].chunk1 != i)) ==>
      results[k].score > BestOfRow(sims, i).score ||
      (results[k].score == BestOfRow(sims, i).score && results[k].chunk1 < i))
  }

  function ScoreDesc(m: Match): real { -m.score }
  function Chunk1(m: Match): int { m.chunk1 }

  /** `topk_chunk_matches` on a precomputed similarity matrix `sims`
      (one row per chunk of the first file, one column per chunk of the
      second). `torch.argmax` on an empty row raises, so rows are non-empty. */
  method TopkChunkMatches(sims: seq<seq<real>>, topk: int) returns (results: seq<Match>)
    requires RowsNonEmpty(sims)
    ensures IsTopkMatches(sims, topk, results)
  {
    var rows: seq<Match> := [];
    var i := 0;
    while i < |sims|
      invariant 0 <= i <= |sims| && |rows| == i
      invariant forall r :: 0 <= r < i ==> rows[r] == BestOfRow(sims, r)
    {
      var j := ArgMax(sims[i]);
      rows := rows + [Match(i, j, sims[i][j])];
      i := i + 1;
    }
    var sorted := SortBy(rows, ScoreDesc);
    SortByStable(rows, ScoreDesc, Chunk1);
    results := Slice(sorted, 0, topk);
    TopkFacts(sims, rows, sorted, topk, results);
  }

  /** What `TopkChunkMatches` knows after sorting: `rows` holds each row's
      best match, `sorted` orders them by score and then by row, and
      `results` is a prefix of `sorted`. */
  ghost predicate TopkSetup(sims: seq<seq<real>>, rows: seq<Match>, sorted: seq<Match>, results: seq<Match>)
    requires RowsNonEmpty(sims)
  {
    |rows| == |sims| && (forall r :: 0 <= r < |rows| ==> rows[r] == BestOfRow(sims, r)) &&
    |sorted| == |rows| && multiset(sorted) == multiset(rows) &&
    SortedThenBy(sorted, ScoreDesc, Chunk1) &&
    |results| <= |sorted| && results == sorted[..|results|]
  }

  lemma TopkAreBest(sims: seq<seq<real>>, rows: seq<Match>, sorted: seq<Match>, results: seq<Match>)
    requires RowsNonEmpty(sims) && TopkSetup(sims, rows, sorted, results)
    ensures forall k :: 0 <= k < |results| ==>
      0 <= results[k].chunk1 < |sims| && results[k] == BestOfRow(sims, results[k].chunk1)
  {
    forall k | 0 <= k < |results|
      ensures 0 <= results[k].chunk1 < |sims| && results[k] == BestOfRow(sims, results[k].chunk1)
    {
      assert results[k] == sorted[k];
      assert sorted[k] in multiset(rows);
      var r :| 0 <= r < |rows| && rows[r] == sorted[k];
    }
  }

  lemma TopkOrdered(sims: seq<seq<real>>, rows: seq<Match>, sorted: seq<Match>, results: seq<Match>)
    requires RowsNonEmpty(sims) && TopkSetup(sims, rows, sorted, results)
    ensures forall a, b :: 0 <= a < b < |results| ==>
      results[a].score > results[b].score ||
      (results[a].score == results[b].score && results[a].chunk1 < results[b].chunk1)
  {
    forall a, b | 0 <= a < b < |results|
      ensures results[a].score > results[b].score ||
              (results[a].score == results[b].score && results[a].chunk1 < results[b].chunk1)
    {
      assert results[a] == sorted[a] && results[b] == sorted[b];
    }
  }

  lemma TopkNoBetterLeftOut(sims: seq<seq<real>>, rows: seq<Match>, sorted: seq<Match>, results: seq<Match>)
    requires RowsNonEmpty(sims) && TopkSetup(sims, rows, sorted, results)
    ensures forall i, k ::
      (0 <= i < |sims| && 0 <= k < |results| &&
       (forall l :: 0 <= l < |results| ==> results[l].chunk1 != i)) ==>
      results[k].score > BestOfRow(sims, i).score ||
      (results[k].score == BestOfRow(sims, i).score && results[k].chunk1 < i)
  {
    forall i, k | 0 <= i < |sims| && 0 <= k < |results| &&
      (forall l :: 0 <= l < |results| ==> results[l].chunk1 != i)
      ensures results[k].score > BestOfRow(sims, i).score ||
              (results[k].score == BestOfRow(sims, i).score && results[k].chunk1 < i)
    {
      assert rows[i] in multiset(sorted);
      var p :| 0 <= p < |sorted| && sorted[p] == rows[i];
      assert p >= |results|;
      assert results[k] == sorted[k];
      assert ScoreDesc(sorted[k]) < ScoreDesc(sorted[p]) ||
             (ScoreDesc(sorted[k]) == ScoreDesc(sorted[p]) && Chunk1(sorted[k]) < Chunk1(sorted[p]));
    }
  }

  lemma TopkFacts(sims: seq<seq<real>>, rows: seq<Match>, sorted: seq<Match>, topk: int, results: seq<Match>)
    requires RowsNonEmpty(sims)
    requires |rows| == |sims| && forall r :: 0 <= r < |rows| ==> rows[r] == BestOfRow(sims, r)
    requires |sorted| == |rows| && multiset(sorted) == multiset(rows)
    requires SortedThenBy(sorted, ScoreDesc, Chunk1)
    requires results == Slice(sorted, 0, topk)
    ensures IsTopkMatches(sims, topk, results)
  {
    SlicePrefix(sorted, topk);
    assert TopkSetup(sims, rows, sorted, results);
    TopkAreBest(sims, rows, sorted, results);
    TopkOrdered(sims, rows, sorted, results);
    TopkNoBetterLeftOut(sims, rows, sorted, results);
  }
}
