/** The hybrid scorer (app/engine/scorer.py). The sentence encoder and the
    TF-IDF vectoriser are foreign code: the scorer carries their similarity
    functions as oracles, together with Python's `hash` for k-grams. */
module Scorer {
  import opened PyBuiltins
  import opened Preprocess
  import opened Fingerprint
  import opened Embeddings

  /** Fingerprint parameters used on both sides. */
  const K: int := 5
  const Window: int := 4
  /** Chunking parameters used on both sides. */
  const ChunkMaxTokens: int := 128
  const ChunkStride: int := 96

  const EmbeddingKey: string := "embedding_cos"
  const TfidfKey: string := "tfidf_cos"
  const FpKey: string := "fp_overlap"

  /** A configured scorer: cosine of two texts under the encoder, cosine of
      their TF-IDF vectors, the k-gram hash, and how many chunk matches to
      keep. */
  datatype HybridScorer = HybridScorer(
    embeddingCos: (string, string) -> real,
    tfidfCos: (string, string) -> real,
    hash: seq<string> -> int,
    topk: int)

  /** The report `score` returns. */
  datatype Report = Report(
    ensembleScore: real,
    components: map<string, real>,
    chunksA: seq<string>,
    chunksB: seq<string>,
    topkMatches: seq<Match>)

  /** The weighted combination 0.6 / 0.25 / 0.15. */
  function Ensemble(emb: real, tfidf: real, fp: real): real
  {
    0.6 * emb + 0.25 * tfidf + 0.15 * fp
  }

  /** The weights sum to one: equal components give that same value back. */
  lemma EnsembleOfEqualParts(x: real)
    ensures Ensemble(x, x, x) == x
  {
  }

  /** With every component in [0, 1] the ensemble is in [0, 1]. */
  lemma EnsembleBounds(emb: real, tfidf: real, fp: real)
    requires 0.0 <= emb <= 1.0 && 0.0 <= tfidf <= 1.0 && 0.0 <= fp <= 1.0
    ensures 0.0 <= Ensemble(emb, tfidf, fp) <= 1.0
  {
  }

  /** Raising one component never lowers the ensemble. */
  lemma EnsembleMonotone(emb: real, tfidf: real, fp: real, emb': real, tfidf': real, fp': real)
    requires emb <= emb' && tfidf <= tfidf' && fp <= fp'
    ensures Ensemble(emb, tfidf, fp) <= Ensemble(emb', tfidf', fp')
  {
  }

  /** The `components` dictionary of the report. */
  function Components(emb: real, tfidf: real, fp: real): (m: map<string, real>)
    ensures m.Keys == {EmbeddingKey, TfidfKey, FpKey}
    ensures m[EmbeddingKey] == emb && m[TfidfKey] == tfidf && m[FpKey] == fp
  {
    map[EmbeddingKey := emb, TfidfKey := tfidf, FpKey := fp]
  }

  /** Chunk-to-chunk similarities: one row per chunk of the first file. */
  function SimMatrix(cos: (string, string) -> real, xs: seq<string>, ys: seq<string>): (m: seq<seq<real>>)
    ensures |m| == |xs|
    ensures forall i :: 0 <= i < |xs| ==> |m[i]| == |ys|
    ensures forall i, j :: 0 <= i < |xs| && 0 <= j < |ys| ==> m[i][j] == cos(xs[i], ys[j])
  {
    seq(|xs|, i requires 0 <= i < |xs| => seq(|ys|, j requires 0 <= j < |ys| => cos(xs[i], ys[j])))
  }

  /** The fingerprints `score` takes of one file. */
  function FingerprintsOf(code: string, hash: seq<string> -> int): set<Fp>
  {
    Fingerprints(Tokenize(NormalizeCode(code)), K, Window, hash)
  }

  /** The outcome of `score`: the report, or the `ValueError` the TF-IDF
      refit raises when neither text holds a term. */
  datatype Outcome = Scored(report: Report) | EmptyVocabulary

  /** The vectoriser's default token pattern `\b\w\w+\b` finds a term: some
      two adjacent word characters. */
  predicate HasTfidfTerm(s: string)
    decreases |s|
  {
    |s| >= 2 && ((IsWordChar(s[0]) && IsWordChar(s[1])) || HasTfidfTerm(s[1..]))
  }

  /** A term is exactly a pair of adjacent word characters somewhere in the
      text. */
  lemma {:induction false} HasTfidfTermAt(s: string, i: int)
    requires 0 <= i && i + 1 < |s| && IsWordChar(s[i]) && IsWordChar(s[i + 1])
    ensures HasTfidfTerm(s)
    decreases i
  {
    if i > 0 && !(IsWordChar(s[0]) && IsWordChar(s[1])) {
      HasTfidfTermAt(s[1..], i - 1);
    }
  }

  lemma {:induction false} NoTfidfTerm(s: string)
    requires !HasTfidfTerm(s)
    ensures forall i :: 0 <= i && i + 1 < |s| ==> !IsWordChar(s[i]) || !IsWordChar(s[i + 1])
    decreases |s|
  {
    if |s| >= 2 {
      NoTfidfTerm(s[1..]);
      assert forall i :: 1 <= i && i + 1 < |s| ==> s[i] == s[1..][i - 1] && s[i + 1] == s[1..][i];
    }
  }

  /** `HybridScorer.score(code_a, code_b)`. */
  method Score(scorer: HybridScorer, codeA: string, codeB: string) returns (outcome: Outcome)
    ensures outcome.EmptyVocabulary? <==>
      !HasTfidfTerm(NormalizeCode(codeA)) && !HasTfidfTerm(NormalizeCode(codeB))
    ensures outcome.Scored? ==> outcome.report.components.Keys == {EmbeddingKey, TfidfKey, FpKey}
    ensures outcome.Scored? ==>
      outcome.report.components[FpKey] ==
        Overlap(FingerprintsOf(codeA, scorer.hash), FingerprintsOf(codeB, scorer.hash))
    ensures outcome.Scored? ==>
      outcome.report.components[TfidfKey] == scorer.tfidfCos(NormalizeCode(codeA), NormalizeCode(codeB))
    ensures outcome.Scored? ==>
      outcome.report.components[EmbeddingKey] == scorer.embeddingCos(NormalizeCode(codeA), NormalizeCode(codeB))
    ensures outcome.Scored? ==>
      outcome.report.ensembleScore ==
        Ensemble(outcome.report.components[EmbeddingKey], outcome.report.components[TfidfKey],
                 outcome.report.components[FpKey])
    ensures outcome.Scored? ==> 0.0 <= outcome.report.components[FpKey] <= 1.0
    ensures outcome.Scored? ==>
      (0.0 <= outcome.report.components[EmbeddingKey] <= 1.0 &&
       0.0 <= outcome.report.components[TfidfKey] <= 1.0 ==>
         0.0 <= outcome.report.ensembleScore <= 1.0)
    ensures outcome.Scored? && codeA == codeB && FingerprintsOf(codeA, scorer.hash) != {} ==>
      outcome.report.components[FpKey] == 1.0
    ensures outcome.Scored? ==> ChunksDone(NormalizeCode(codeA), ChunkMaxTokens, ChunkStride, outcome.report.chunksA)
    ensures outcome.Scored? ==> ChunksDone(NormalizeCode(codeB), ChunkMaxTokens, ChunkStride, outcome.report.chunksB)
    ensures outcome.Scored? ==>
      RowsNonEmpty(SimMatrix(scorer.embeddingCos, outcome.report.chunksA, outcome.report.chunksB)) &&
      IsTopkMatches(SimMatrix(scorer.embeddingCos, outcome.report.chunksA, outcome.report.chunksB),
                    scorer.topk, outcome.report.topkMatches)
  {
    var normA := NormalizeCode(codeA);
    var normB := NormalizeCode(codeB);

    var toksA := Tokenize(normA);
    var toksB := Tokenize(normB);
    var fpA := WinnowingFingerprints(toksA, K, Window, scorer.hash);
    var fpB := WinnowingFingerprints(toksB, K, Window, scorer.hash);
    var fpOverlap := Overlap(fpA, fpB);

    if !HasTfidfTerm(normA) && !HasTfidfTerm(normB) {
      return EmptyVocabulary;
    }
    var tfidfCos := scorer.tfidfCos(normA, normB);
    var embCos := scorer.embeddingCos(normA, normB);

    var chunksA := ChunkText(normA, ChunkMaxTokens, ChunkStride);
    var chunksB := ChunkText(normB, ChunkMaxTokens, ChunkStride);
    var sims := SimMatrix(scorer.embeddingCos, chunksA, chunksB);
    var chunkMatches := TopkChunkMatches(sims, scorer.topk);

    var ensemble := Ensemble(embCos, tfidfCos, fpOverlap);

    if 0.0 <= embCos <= 1.0 && 0.0 <= tfidfCos <= 1.0 {
      EnsembleBounds(embCos, tfidfCos, fpOverlap);
    }
    if codeA == codeB && fpA != {} {
      OverlapOne(fpA, fpB);
    }
    var components := Components(embCos, tfidfCos, fpOverlap);
    outcome := Scored(Report(ensemble, components, chunksA, chunksB, chunkMatches));
  }
}
