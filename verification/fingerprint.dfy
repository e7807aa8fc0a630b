/** Winnowing fingerprints over a token stream and their Jaccard overlap
    (app/engine/fingerprint.py). Python's `hash()` is salted per process, so
    the hash of a k-gram is a parameter `h` about which nothing is assumed. */
module Fingerprint {
  import opened PyBuiltins

  /** A k-gram: its start position and its tokens. */
  datatype KGram = KGram(pos: int, gram: seq<string>)

  /** A fingerprint: (hash, position of the k-gram it came from). */
  type Fp = (int, int)

  /** `kgrams(tokens, k)`: one entry per start position in range(len-k+1). */
  method KGrams(tokens: seq<string>, k: int) returns (out: seq<KGram>)
    ensures |out| == Max(0, |tokens| - k + 1)
    ensures forall i :: 0 <= i < |out| ==> out[i] == KGram(i, Slice(tokens, i, i + k))
    ensures k > 0 ==> forall i :: 0 <= i < |out| ==> out[i].gram == tokens[i..i + k]
  {
    out := [];
    var i := 0;
    while i < |tokens| - k + 1
      invariant 0 <= i && |out| == i
      invariant i <= Max(0, |tokens| - k + 1)
      invariant forall j :: 0 <= j < i ==> out[j] == KGram(j, Slice(tokens, j, j + k))
    {
      out := out + [KGram(i, Slice(tokens, i, i + k))];
      i := i + 1;
    }
  }

  /** Index of the leftmost minimum, `xs.index(min(xs))`. */
  function LeftmostMin(xs: seq<int>): (r: nat)
    requires xs != []
    ensures r < |xs|
    ensures forall j :: 0 <= j < |xs| ==> xs[r] <= xs[j]
    ensures forall j :: 0 <= j < r ==> xs[j] > xs[r]
  {
    if |xs| == 1 then 0
    else
      var r := LeftmostMin(xs[1..]);
      if xs[0] <= xs[1 + r] then 0 else 1 + r
  }

  /** The hashes of all k-grams, in order. */
  function Hashes(tokens: seq<string>, k: int, h: seq<string> -> int): (hs: seq<int>)
    requires 0 < k <= |tokens|
    ensures |hs| == |tokens| - k + 1
    ensures forall i :: 0 <= i < |hs| ==> hs[i] == h(tokens[i..i + k])
  {
    seq(|tokens| - k + 1, i requires 0 <= i < |tokens| - k + 1 => h(tokens[i..i + k]))
  }

  /** The fingerprint chosen for the window of `w` hashes starting at `i`:
      its minimum, at the leftmost position holding it. */
  function Candidate(hs: seq<int>, w: int, i: int): (c: Fp)
    requires 0 < w && 0 <= i && i + w <= |hs|
    ensures i <= c.1 < i + w && c.0 == hs[c.1]
    ensures forall j :: i <= j < i + w ==> c.0 <= hs[j]
    ensures forall j :: i <= j < c.1 ==> hs[j] > c.0
  {
    var ws := hs[i..i + w];
    assert forall j :: i <= j < i + w ==> hs[j] == ws[j - i];
    var p := LeftmostMin(ws);
    (ws[p], i + p)
  }

  /** The candidates of the first `m` windows. */
  function Candidates(hs: seq<int>, w: int, m: nat): set<Fp>
    requires 0 < w && m <= WindowCount(|hs|, w)
  {
    if m == 0 then {} else Candidates(hs, w, m - 1) + {Candidate(hs, w, m - 1)}
  }

  /** Number of windows of width `w` over `n` hashes, `len(range(n - w + 1))`. */
  function WindowCount(n: int, w: int): nat { Max(0, n - w + 1) }

  /** The set winnowing selects: every window's candidate, or the empty set
      for degenerate parameters. */
  function Fingerprints(tokens: seq<string>, k: int, w: int, h: seq<string> -> int): set<Fp>
  {
    if k <= 0 || w <= 0 || |tokens| < k then {}
    else
      var hs := Hashes(tokens, k, h);
      Candidates(hs, w, WindowCount(|hs|, w))
  }

  /** `winnowing_fingerprints`: slide the window, add each window's candidate
      unless it equals the one recorded last. */
  method WinnowingFingerprints(tokens: seq<string>, k: int, window: int, h: seq<string> -> int)
    returns (res: set<Fp>)
    ensures res == Fingerprints(tokens, k, window, h)
    ensures k <= 0 || window <= 0 || |tokens| < k ==> res == {}
    ensures |tokens| - k + 1 < window ==> res == {}
  {
    if k <= 0 || window <= 0 || |tokens| < k {
      return {};
    }
    var kgs := KGrams(tokens, k);
    var hashes := seq(|kgs|, i requires 0 <= i < |kgs| => h(kgs[i].gram));
    assert |hashes| == |Hashes(tokens, k, h)|;
    assert forall j :: 0 <= j < |hashes| ==> hashes[j] == Hashes(tokens, k, h)[j];
    assert hashes == Hashes(tokens, k, h);
    res := {};
    var lastMin: Option<Fp> := None;
    var i := 0;
    while i < |hashes| - window + 1
      invariant 0 <= i <= WindowCount(|hashes|, window)
      invariant res == Candidates(hashes, window, i)
      invariant lastMin == if i == 0 then None else Some(Candidate(hashes, window, i - 1))
    {
      // m = min(window_hashes); pos = i + window_hashes.index(m)
      var cand := Candidate(hashes, window, i);
      assert Candidates(hashes, window, i + 1) == res + {cand};
      assert i > 0 ==> Candidate(hashes, window, i - 1) in Candidates(hashes, window, i);
      if lastMin != Some(cand) {
        res := res + {cand};
        lastMin := Some(cand);
      }
      i := i + 1;
    }
  }

  lemma {:induction false} CandidatesMembers(hs: seq<int>, w: int, m: nat, c: Fp)
    requires 0 < w && m <= WindowCount(|hs|, w)
    ensures c in Candidates(hs, w, m) <==> exists i :: 0 <= i < m && c == Candidate(hs, w, i)
  {
    if m > 0 {
      CandidatesMembers(hs, w, m - 1, c);
    }
  }

  lemma {:induction false} CandidatesSize(hs: seq<int>, w: int, m: nat)
    requires 0 < w && m <= WindowCount(|hs|, w)
    ensures |Candidates(hs, w, m)| <= m
  {
    if m > 0 {
      CandidatesSize(hs, w, m - 1);
    }
  }

  /** Every fingerprint names a real k-gram position and carries that k-gram's
      hash; there are at most as many fingerprints as windows. */
  lemma FingerprintsWellFormed(tokens: seq<string>, k: int, w: int, h: seq<string> -> int)
    ensures forall c :: c in Fingerprints(tokens, k, w, h) ==>
      0 <= c.1 < |tokens| - k + 1 && c.0 == h(tokens[c.1..c.1 + k])
    ensures |Fingerprints(tokens, k, w, h)| <= (if k > 0 then WindowCount(|tokens| - k + 1, w) else 0)
  {
    if !(k <= 0 || w <= 0 || |tokens| < k) {
      var hs := Hashes(tokens, k, h);
      var m := WindowCount(|hs|, w);
      forall c | c in Fingerprints(tokens, k, w, h)
        ensures 0 <= c.1 < |tokens| - k + 1 && c.0 == h(tokens[c.1..c.1 + k])
      {
        CandidatesMembers(hs, w, m, c);
      }
      CandidatesSize(hs, w, m);
    }
  }

  /** The winnowing guarantee: every window of `w` consecutive k-grams
      contributes a fingerprint lying inside it, namely its leftmost minimum. */
  lemma EveryWindowRepresented(tokens: seq<string>, k: int, w: int, h: seq<string> -> int, i: int)
    requires 0 < k <= |tokens| && 0 < w
    requires 0 <= i && i + w <= |tokens| - k + 1
    ensures var hs := Hashes(tokens, k, h);
      var c := Candidate(hs, w, i);
      c in Fingerprints(tokens, k, w, h) && i <= c.1 < i + w &&
      forall j :: i <= j < i + w ==> c.0 <= hs[j]
  {
    var hs := Hashes(tokens, k, h);
    CandidatesMembers(hs, w, WindowCount(|hs|, w), Candidate(hs, w, i));
  }

  /** `fingerprint_overlap`: Jaccard similarity, 0.0 for two empty sets. */
  function Overlap(a: set<Fp>, b: set<Fp>): (r: real)
    ensures 0.0 <= r <= 1.0
    ensures a == {} && b == {} ==> r == 0.0
    ensures a != {} || b != {} ==> r == (|a * b| as real) / (|a + b| as real)
  {
    if a == {} && b == {} then 0.0
    else
      IntersectionWithinUnion(a, b);
      (|a * b| as real) / (|a + b| as real)
  }

  lemma IntersectionWithinUnion(a: set<Fp>, b: set<Fp>)
    requires a != {} || b != {}
    ensures 0 <= |a * b| <= |a + b| && 0 < |a + b|
  {
    assert a * b <= a + b;
    SubsetSize(a * b, a + b);
    if a != {} {
      var x :| x in a;
      assert x in a + b;
    } else {
      var x :| x in b;
      assert x in a + b;
    }
  }

  lemma {:induction false} SubsetSize(s: set<Fp>, t: set<Fp>)
    requires s <= t
    ensures |s| <= |t|
    ensures |s| == |t| ==> s == t
  {
    assert t == s + (t - s);
    assert s !! (t - s);
    if |s| == |t| {
      assert |t - s| == 0;
    }
  }

  lemma OverlapSymmetric(a: set<Fp>, b: set<Fp>)
    ensures Overlap(a, b) == Overlap(b, a)
  {
    assert a * b == b * a && a + b == b + a;
  }

  /** Overlap is 1 exactly when the two sets are equal and non-empty. */
  lemma OverlapOne(a: set<Fp>, b: set<Fp>)
    ensures Overlap(a, b) == 1.0 <==> a == b && a != {}
  {
    if a != {} || b != {} {
      IntersectionWithinUnion(a, b);
      if Overlap(a, b) == 1.0 {
        assert |a * b| == |a + b|;
        SubsetSize(a * b, a + b);
        assert a == b;
      }
      if a == b && a != {} {
        assert a * b == a + b;
      }
    }
  }

  /** Overlap is 0 exactly when the two sets share nothing. */
  lemma OverlapZero(a: set<Fp>, b: set<Fp>)
    ensures Overlap(a, b) == 0.0 <==> a * b == {}
  {
    if a != {} || b != {} {
      IntersectionWithinUnion(a, b);
      if a * b != {} {
        var x :| x in a * b;
        assert |a * b| > 0;
      }
    }
  }
}
