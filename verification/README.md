# Source-code plagiarism scorer — a Dafny model of its deterministic core

The scorer compares two source files and reports how similar they are.
- It normalises both texts: it deletes comments, collapses whitespace, and masks string and number literals.
- It splits the normalised texts into tokens and fingerprints them by winnowing. The fingerprint sets are compared with Jaccard overlap.
- It combines three component scores into one ensemble score, a fixed linear mix:
  - the embedding cosine of the two whole texts;
  - the TF-IDF cosine;
  - the fingerprint overlap.
- It cuts each normalised text into overlapping chunks of whitespace tokens. For the first text's chunks it reports the top-k best-matching chunks of the second.
- A separate pass walks a character diff of the two texts and reports the long equal regions.
- The web front end turns such regions into HTML, with `<mark>` around the highlighted characters. It also accepts only uploads with a known file extension.

This project models those pieces and proves what they promise.

| file | module | what it models |
|---|---|---|
| `pybuiltins.dfy` | `PyBuiltins` | Python slicing with negative and out-of-range bounds, `str.isspace`, `"".join`, `sep.join`, `None` as `Option` |
| `sorting.dfy` | `Sorting` | Python's stable `sorted(..., key=...)` |
| `preprocess.dfy` | `Preprocess` | `strip_comments`, `normalize_code`, `simple_tokenize`, with each regular expression as an explicit scanner |
| `fingerprint.dfy` | `Fingerprint` | `kgrams`, `winnowing_fingerprints`, `fingerprint_overlap` |
| `embeddings.dfy` | `Embeddings` | `str.split`, `chunk_text`, `topk_chunk_matches` on a given similarity matrix |
| `explain.dfy` | `Explain` | the offset walk of `highlight_similar_regions` over a given diff |
| `scorer.dfy` | `Scorer` | `HybridScorer.score` and the ensemble formula |
| `highlights.dfy` | `Highlights` | `allowed_file`, `html.escape`, `_build_marks`, `render_highlights` |

Which parts are imperative follows the source:
- Loops that fill a list or set, or that advance offsets, are methods with loop invariants:
  - `KGrams`, `WinnowingFingerprints`, `ChunkText`, `TopkChunkMatches`, `HighlightSimilarRegions`;
  - `MergeRanges`, `RenderBody`, `BuildMarks`, `CollectPairs`.
  Each is proved against a specification stated separately: a recursive reference function, or for `KGrams` and `ChunkText` a closed form (`ChunkText`'s windows `Window` and their number `ChunkCount`), and for `TopkChunkMatches` the predicate `IsTopkMatches`, and the properties are proved about that specification.
- The regular-expression passes and the score composition are pure functions.

Three collaborators the code calls are parameters of the model:
- The embedding cosine is a function from two strings to a real. The chunk similarity matrix is built from it.
- The TF-IDF cosine is a function from the two normalised texts to a real.
- Python's salted `hash()` over a k-gram is a function `seq<string> -> int`.

The character diff is an input list of `(op, text)` pairs.

## Model

| member | source | states |
|---|---|---|
| `PyBuiltins.Slice` | app/engine/embeddings.py:25 | `s[lo:hi]` equals Dafny's `s[lo..hi]` for in-range bounds. It is empty when `hi <= lo`, and runs to the end when `hi` is past it. |
| `Sorting.SortBy` | app/engine/embeddings.py:47 | The result is a permutation of the input (same length, same multiset), ordered by the key. |
| `Sorting.SortByStable` | app/engine/embeddings.py:47 | If the input is in increasing tie-key order, then equal keys keep that order in the output. This is the stability of Python's `sorted`. |
| `Preprocess.FindIsFirst` | app/engine/preprocess.py:10-12 | `Find` returns the leftmost occurrence of the pattern, or none when there is no occurrence. This is the lazy `.*?` end of a block comment. |
| `Preprocess.DeleteLineComments` | app/engine/preprocess.py:17-18 | One pass of `marker.*?$` under MULTILINE: no occurrence of the marker is left, the result is no longer than the input, and the result's first line is a prefix of the input's. |
| `Preprocess.DeleteLineCommentsFacts` | app/engine/preprocess.py:17-18 | A line-comment pass only deletes characters: its result is a subsequence of its input. It keeps every newline. |
| `Preprocess.NoMarkerKept` | app/engine/preprocess.py:17-18 | Text in which `str.find` finds no marker is unchanged by a line pass. |
| `Preprocess.FirstLineCommentDeleted` | app/engine/preprocess.py:17-18 | With the leftmost marker at `p`, the text before `p` is kept. The marker and the rest of its line (`e == LineEnd(s[p..])` characters) are deleted, and the pass goes on at the newline, which stays. |
| `Preprocess.DeleteLineCommentsCopiesPrefix` | app/engine/preprocess.py:17-18 | A line pass copies any prefix in which no marker starts. |
| `Preprocess.DeleteLineCommentsKeepsAbsent` | app/engine/preprocess.py:17-18 | A later line pass cannot bring back an earlier pass's marker: a newline-free pattern absent from the input is absent from the output. |
| `Preprocess.LineCommentPasses` | app/engine/preprocess.py:17-18 | After the three line passes no `//`, `#` or `--` is left. The result is a subsequence of the code with the same number of newlines. |
| `Preprocess.DeleteBlocks` | app/engine/preprocess.py:19-20 | One pass of a lazy block pattern only shortens the text: the result is no longer than the input. |
| `Preprocess.DeleteBlocksUnchanged` | app/engine/preprocess.py:19-20 | The pass leaves the text unchanged exactly when no opener in it is followed later by a closer. |
| `Preprocess.NoCompleteBlockEverywhere` | app/engine/preprocess.py:19-20 | "No complete block" holds exactly when no occurrence of the opener has a closer after it. |
| `Preprocess.NoOpenerKept` | app/engine/preprocess.py:19-20 | Text in which `str.find` finds no opener is unchanged. |
| `Preprocess.UnclosedOpenerKept` | app/engine/preprocess.py:19-20 | When no closer follows the leftmost opener, the text is unchanged. |
| `Preprocess.FirstBlockDeleted` | app/engine/preprocess.py:19-20 | With the leftmost opener at `p` and the first closer after it, the text before `p` is kept. The text from the opener through that closer is deleted, and the pass goes on after the closer. |
| `Preprocess.DeleteBlocksCopiesPrefix` | app/engine/preprocess.py:19-20 | The pass copies any prefix in which no opener starts. |
| `Preprocess.StripComments` | app/engine/preprocess.py:15-21 | `strip_comments` only deletes: its result is a subsequence of the code. |
| `Preprocess.UnifyLineEnds` | app/engine/preprocess.py:27 | There is no `'\r'` in the result, and text without `'\r'` is unchanged. |
| `Preprocess.TabsToSpaces` | app/engine/preprocess.py:28 | Each tab becomes one space and nothing else changes. |
| `Preprocess.CollapseSpaces` | app/engine/preprocess.py:29 | There are no two adjacent spaces in the result. It is the identity exactly when the input already has none, and the first character is kept. |
| `Preprocess.CollapseBlankLines` | app/engine/preprocess.py:30 | There is no run of three newlines in the result. It is the identity exactly when the input already has none. |
| `Preprocess.QuotedMatch` | app/engine/preprocess.py:32 | A match opens with a quote and ends at the first quote of the same kind, with no newline in between. There is no match exactly when the text does not open with a quote or its first line has no second quote of that kind. |
| `Preprocess.MaskStrings` | app/engine/preprocess.py:32 | Every character of the result comes from the input or from the mask `"STR"`. |
| `Preprocess.MaskStringsLiteral` | app/engine/preprocess.py:32 | A one-line string literal at the front is replaced whole by `"STR"`, and masking goes on after it. |
| `Preprocess.MaskStringsPlain` | app/engine/preprocess.py:32 | Text without quote characters is copied unchanged. |
| `Preprocess.NumberMatch` | app/engine/preprocess.py:33 | There is a match only when no word character precedes. It is then the longest prefix that is a number literal `\d+(\.\d+)?` followed by a word boundary. No match means there is no such prefix. |
| `Preprocess.NumberCandidates` | app/engine/preprocess.py:33 | The digit run, and the run with its fraction when there is one, are number literals. No other length can be a number literal followed by a word boundary. |
| `Preprocess.MaskNumbers` | app/engine/preprocess.py:33 | Every character of the result comes from the input or from the mask `NUM`. |
| `Preprocess.MaskNumbersLiteral` | app/engine/preprocess.py:33 | A number literal at a word boundary, followed by a character that continues neither the word nor the number, becomes `NUM`. |
| `Preprocess.MaskNumbersInWord` | app/engine/preprocess.py:33 | After a word character, word characters are copied: `\b` cannot hold inside a word. |
| `Preprocess.MaskNumbersWord` | app/engine/preprocess.py:33 | A word that is not all digits is copied whole, its digits included. |
| `Preprocess.MaskNumbersPlain` | app/engine/preprocess.py:33 | Text without word characters is copied unchanged. |
| `Preprocess.MaskPassesClean` | app/engine/preprocess.py:32-33 | Masking strings and numbers introduces no double space and no run of three newlines. |
| `Preprocess.Strip` | app/engine/preprocess.py:34 | The result is a substring of the input that removes only whitespace at both ends and neither starts nor ends with whitespace. |
| `Preprocess.NormalizeCode` | app/engine/preprocess.py:23-34 | The normalised text has no leading or trailing whitespace, no `'\r'`, no tab, no double space and no run of three newlines. |
| `Preprocess.Tokenize` | app/engine/preprocess.py:36-39 | Every token is an identifier `[A-Za-z_][A-Za-z0-9_]*` or a single non-space character that cannot start one. |
| `Preprocess.TokenizeLosesOnlyWhitespace` | app/engine/preprocess.py:38 | Concatenating the tokens gives the input with all whitespace removed. |
| `Preprocess.TokenizeOneToken` | app/engine/preprocess.py:38 | A token at the front is taken whole and on its own: an identifier when a character that cannot continue it follows, and a one-character token before anything. So identifiers are maximal. |
| `Preprocess.TokenizeJoinRoundTrip` | app/engine/preprocess.py:38 | Tokenizing a space-join of valid tokens gives those tokens back. |
| `Fingerprint.KGrams` | app/engine/fingerprint.py:3-7 | There are `max(0, n-k+1)` entries, and entry `i` is `(i, tokens[i:i+k])`. |
| `Fingerprint.LeftmostMin` | app/engine/fingerprint.py:19-20 | Returns the position of a minimum with every earlier entry strictly larger: the first minimum, as `list.index` gives it. |
| `Fingerprint.Candidate` | app/engine/fingerprint.py:18-21 | A window's pick lies in that window, is no larger than any hash there, and is its leftmost minimum. |
| `Fingerprint.WinnowingFingerprints` | app/engine/fingerprint.py:9-25 | The result is the set of all window candidates. It is empty when `k <= 0`, `window <= 0` or `n < k`, and also when there are fewer k-grams than `window`. The `last_min` test only skips re-adding a candidate already in the set. |
| `Fingerprint.CandidatesMembers` | app/engine/fingerprint.py:17-24 | The candidate set of the first `m` windows holds exactly those windows' candidates. |
| `Fingerprint.FingerprintsWellFormed` | app/engine/fingerprint.py:14-24 | Each fingerprint `(h, pos)` has `0 <= pos < n-k+1` and `h == H(tokens[pos:pos+k])`. There are at most `max(0, n-k-window+2)` of them. |
| `Fingerprint.EveryWindowRepresented` | app/engine/fingerprint.py:17-24 | Every window of `window` consecutive k-grams holds a selected fingerprint, and that fingerprint is the window's minimum. |
| `Fingerprint.Overlap` | app/engine/fingerprint.py:27-32 | The overlap is 0 for two empty sets and `\|A∩B\| / \|A∪B\|` otherwise. It always lies in [0,1]. |
| `Fingerprint.OverlapSymmetric` | app/engine/fingerprint.py:30-32 | The overlap does not depend on argument order. |
| `Fingerprint.OverlapOne` | app/engine/fingerprint.py:30-32 | The overlap is 1 exactly when the sets are equal and non-empty. |
| `Fingerprint.OverlapZero` | app/engine/fingerprint.py:30-32 | The overlap is 0 exactly when the sets are disjoint. |
| `Embeddings.Words` | app/engine/embeddings.py:21 | `str.split()`: every piece is non-empty and free of whitespace. |
| `Embeddings.WordsOfJoin` | app/engine/embeddings.py:28 | Splitting a space-join of words gives those words back. |
| `Embeddings.ChunkText` | app/engine/embeddings.py:19-34 | The list of chunks is never empty. A text without words gives `[text]`. Chunk `c` is the space-join of the `c`-th window of words. With positive sizes there are `ChunkCount` chunks. |
| `Embeddings.ChunkCountWhenStrideFits` | app/engine/embeddings.py:29-31 | For `0 < stride <= max_tokens`, the count is `1 + ceil((n - max_tokens) / stride)` when `n > max_tokens` and 1 otherwise. `n == max_tokens + stride` gives 2. |
| `Embeddings.ChunkWindows` | app/engine/embeddings.py:23-31 | Chunk `c` covers words `c*stride .. min(c*stride + max_tokens, n)` and is non-empty with at most `max_tokens` words. Every chunk but the last is full. |
| `Embeddings.LastChunkReachesEnd` | app/engine/embeddings.py:29-31 | The last chunk ends at the final word. |
| `Embeddings.ConsecutiveChunksOverlap` | app/engine/embeddings.py:25-31 | Consecutive chunks share `max_tokens - stride` words: `stride` is the step, not the overlap. |
| `Embeddings.ChunkTokens` | app/engine/embeddings.py:28 | Splitting a chunk gives back exactly its window of words. |
| `Embeddings.ArgMax` | app/engine/embeddings.py:43 | Returns the first column holding the row maximum. |
| `Embeddings.BestOfRow` | app/engine/embeddings.py:41-45 | Row `i`'s match is `(i, first argmax, that entry)`. |
| `Embeddings.TopkChunkMatches` | app/engine/embeddings.py:36-48 | There are `len(sims)[:topk]` matches, each the best match of its row, with distinct rows. They are ordered by score descending, then by row index. No row that is left out scores higher than a returned one, and a row left out with an equal score has a higher index, as the stable sort puts it later. |
| `Embeddings.TopkAreBest` | app/engine/embeddings.py:47 | Every returned match is its row's best match. |
| `Embeddings.TopkOrdered` | app/engine/embeddings.py:47 | Returned scores do not increase, and equal scores keep ascending row order. |
| `Embeddings.TopkNoBetterLeftOut` | app/engine/embeddings.py:46-48 | Every returned score is above the best score of every row that was not returned, or equal to it with a lower row index. |
| `Embeddings.TopkFacts` | app/engine/embeddings.py:46-48 | A stable descending sort of the row maxima, cut to `topk`, meets the whole top-k specification. |
| `Explain.HighlightSimilarRegions` | app/engine/explain.py:4-23 | The walk yields the spans of the long equal segments at their offsets, and it returns the diff unchanged. |
| `Explain.SpansMatchBothTexts` | app/engine/explain.py:12-22 | Each span has equal lengths on both sides, at least 20, and lies within both texts. The two texts hold the same characters there. `text` is the first `min(200, len)` of them. |
| `Explain.SpansOrdered` | app/engine/explain.py:12-22 | Spans are in document order and do not overlap, in both texts. |
| `Explain.LongEqualIndices` | app/engine/explain.py:14-16 | Lists exactly the equal segments of at least 20 characters, in increasing order. |
| `Explain.SpansAreLongEquals` | app/engine/explain.py:14-18 | Span `k` belongs to the `k`-th long equal segment. Shorter segments emit nothing but still advance both offsets. |
| `Explain.SpansInOriginals` | app/engine/explain.py:12-22 | If the diff rebuilds `a` and `b`, every span's regions of `a` and `b` are equal and within bounds. |
| `Scorer.EnsembleOfEqualParts` | app/engine/scorer.py:43 | The weights sum to 1: equal components give that same value. |
| `Scorer.EnsembleBounds` | app/engine/scorer.py:43 | Components in [0,1] give an ensemble in [0,1]. |
| `Scorer.EnsembleMonotone` | app/engine/scorer.py:43 | The ensemble does not decrease when any component grows. |
| `Scorer.Components` | app/engine/scorer.py:47-51 | The components map has exactly the keys `embedding_cos`, `tfidf_cos` and `fp_overlap`, holding the three scores. |
| `Scorer.SimMatrix` | app/engine/embeddings.py:37-39 | There is one row per chunk of the first text and one column per chunk of the second. Each entry is the cosine of those two chunks. |
| `Scorer.Score` | app/engine/scorer.py:15-57 | The outcome is the empty-vocabulary error exactly when neither normalised text holds a TF-IDF term. Otherwise: `fp_overlap` is the overlap of the fingerprints (k=5, window=4) of the tokens of both normalised texts, and lies in [0,1]. Identical inputs with a non-empty fingerprint set give 1. `tfidf_cos` and `embedding_cos` are the collaborators on the normalised texts. The ensemble is their weighted sum and lies in [0,1] when they do. The chunks use 128/96, and the matches meet the top-k specification. |
| `Scorer.HasTfidfTermAt` | app/engine/scorer.py:28 | Two adjacent word characters anywhere in a text make a term, so the vocabulary is not empty. |
| `Scorer.NoTfidfTerm` | app/engine/scorer.py:28 | A text without a term has no two adjacent word characters anywhere. |
| `Highlights.Lower` | streamlit_app.py:40 | Lower-cases each character and keeps the length. |
| `Highlights.LastIndexOf` | streamlit_app.py:40 | Returns the position of the last `'.'`, or -1 when there is none. |
| `Highlights.AllowedFile` | streamlit_app.py:37-41 | A name without `'.'` is rejected. |
| `Highlights.AllowedFileSplit` | streamlit_app.py:37-41 | `stem + "." + ext` (with no `'.'` in `ext`) is accepted exactly when `"." + lower(ext)` is in the allowed set. |
| `Highlights.Escape` | streamlit_app.py:66 | Escaped text contains no `<` or `>` and is never shorter than the input. |
| `Highlights.EscapeAppend` | streamlit_app.py:79-90 | Escaping distributes over concatenation. |
| `Highlights.EscapeRoundTrip` | streamlit_app.py:66 | Unescaping the escaped text gives the original, so no character is lost. |
| `Highlights.Normalize` | streamlit_app.py:70 | At most as many ranges come out as went in, each with `0 <= s <= e`. |
| `Highlights.NormalizeMembers` | streamlit_app.py:70 | The normalised ranges are exactly the input ranges with `e > s`, each clamped below at 0. |
| `Highlights.NormalizeDropsReversed` | streamlit_app.py:70 | Ranges with `e <= s` are all dropped. |
| `Highlights.WhollyNegativeSurvives` | streamlit_app.py:70 | A range with `s < e <= 0` survives as `(0, 0)`, because filtering comes before clamping. |
| `Highlights.MergeSeparated` | streamlit_app.py:71-76 | The merged ranges are ordered, and each starts strictly after the previous one ends. |
| `Highlights.MergeCovers` | streamlit_app.py:71-76 | Merging sorted ranges covers exactly the same positions. |
| `Highlights.MarkedRangesSeparated` | streamlit_app.py:70-76 | The ranges `_build_marks` marks are ordered, non-touching and non-negative. |
| `Highlights.MarkedRangesCover` | streamlit_app.py:70-76 | The marked ranges cover exactly the union of the normalised input ranges. |
| `Highlights.MergeRanges` | streamlit_app.py:71-76 | The in-place merge loop computes the reference merge. |
| `Highlights.RenderBody` | streamlit_app.py:79-90 | The output loop computes the reference page body. |
| `Highlights.BuildMarks` | streamlit_app.py:59-90 | `_build_marks` produces the reference page. With no ranges, that page is `<pre>` + escaped code + `</pre>`. |
| `Highlights.NoUsableRanges` | streamlit_app.py:64-76 | Ranges that are all empty or reversed give the same page as no ranges at all. |
| `Highlights.RemoveMarksRender` | streamlit_app.py:81-87 | Removing the tags from the rendered marks leaves the escaped code up to the last range's end. |
| `Highlights.MarksOnlyAddTags` | streamlit_app.py:79-90 | Deleting every `<mark>` and `</mark>` from the page leaves `<pre>` + escaped code + `</pre>`: no character is dropped or duplicated. |
| `Highlights.UsableIndices` | streamlit_app.py:112-119 | Lists exactly the entries whose pair for one side is a 2-element list, in increasing order. |
| `Highlights.PairRangesSkips` | streamlit_app.py:112-119 | Range `k` is the pair of the `k`-th usable entry, and there is one range per usable entry. All other entries are skipped. |
| `Highlights.CollectPairs` | streamlit_app.py:112-119 | The pair loop collects each side's usable pairs in list order. |
| `Highlights.RenderHighlights` | streamlit_app.py:93-123 | If `spans1` or `spans2` is present, both sides use those lists, and a missing one counts as empty. Otherwise the usable `'a'`/`'b'` pairs are used. Both pages strip back to their escaped code. |

## Left out

- Embedding model: the encoder, `cosine` and `util.cos_sim` are a foreign model computing in floating point. The file-level cosine and the chunk cosines come from one function parameter over strings.
- TF-IDF: the vectorizer refit and its cosine are a library computation. They are a function parameter over the two normalised texts. Only the refit's `ValueError` on an empty vocabulary is modelled, as `Scorer.EmptyVocabulary`; its token pattern `\b\w\w+\b` is taken with ASCII `\w`.
- Python `hash()`: salted per process, so it is a function parameter. Nothing is proved about its distribution.
- The diff library: `diff_main` and `diff_cleanupSemantic` are external. `Explain.HighlightSimilarRegions` takes the diff after `diff_cleanupSemantic`, that is `diff_main(a, b)` cleaned up in place, in place of the texts `a` and `b`. The walk and the returned `raw_diffs` both use that cleaned-up list. The model does not check that the diff is one of `a` against `b`.
- Floating point: all scores are unbounded reals, so rounding is not modelled.
- Character classes: `\s`, `str.split` and `str.strip` use Python's `str.isspace` set exactly. `\d`, `\w`, `\b` and `str.lower` are ASCII only, and Unicode digits and letters are not modelled.
- Scorer.EnsembleBounds: the ensemble is in [0,1] only when all three components are. A cosine can be negative, so `Scorer.Score` states the bound under that hypothesis.
- Embeddings.ChunkText: requires `stride != 0` unless the first round already stops. With `stride == 0` and a first window that is non-empty and ends before the last word, the source loops forever. A negative stride is modelled: the loop walks back until a window is empty. The scorer passes 96.
- Embeddings.TopkChunkMatches: rows of the similarity matrix must be non-empty, because `argmax` of an empty row raises. A negative `topk` slices as Python does: it drops matches from the end.
- Highlights.AllowedFile: takes the allowed set as a parameter. The environment-driven `ALLOWED_EXTENSIONS` list (app/config.py:5) and its default are configuration, not part of this model.
- Highlights.RenderHighlights: entries are modelled as already holding integers. `int(...)` conversion failures and non-list entries that raise in Python are not modelled, and `spans_obj` being `None` is the empty object.
- Highlights.BuildMarks: the page is assembled as `"<pre>" + (body + "</pre>")`, which is the same string as Python's left-to-right concatenation.
- Key mismatches in the glue are not reconciled:
  - `render_highlights` reads `'a'`/`'b'` while `highlight_similar_regions` emits `a_start`/`a_end`;
  - the UI reads span keys from chunk matches that carry `chunk1_idx`/`chunk2_idx`.
- The `threshold` argument of `highlight_similar_regions` is unused. It is a parameter that the model ignores.
- The Flask routes (app/web.py), the CLI (app/cli.py), the environment-driven configuration (app/config.py), Streamlit page code, `get_env_or_secret`, `load_scorer` and `to_percent` are I/O and UI code that is not part of this model.
- `stride` is modelled as the code uses it: the step between chunk starts (`Embeddings.ConsecutiveChunksOverlap`).
