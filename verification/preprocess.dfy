/** The normalizer and tokenizer (app/engine/preprocess.py). Each regular
    expression substitution is written as the left-to-right scanner that
    `re.sub` runs: at each position the pattern either matches (the match is
    replaced and scanning resumes after it) or the character is copied. */
module Preprocess {
  import opened PyBuiltins

  /** Offset of the first '\n' (or |s|): where a lazy `.*?$` stops under
      MULTILINE without DOTALL. */
  function LineEnd(s: string): (r: nat)
    ensures r <= |s|
    ensures forall j :: 0 <= j < r ==> s[j] != '\n'
    ensures r < |s| ==> s[r] == '\n'
  {
    if s == [] || s[0] == '\n' then 0 else 1 + LineEnd(s[1..])
  }

  /** First offset at which `pat` occurs in `s`, as `str.find`. */
  function Find(s: string, pat: string): (r: Option<nat>)
    requires pat != []
    ensures r.Some? ==> r.value + |pat| <= |s|
  {
    if |s| < |pat| then None
    else if StartsWith(s, pat) then Some(0)
    else match Find(s[1..], pat)
      case None => None
      case Some(j) => Some(j + 1)
  }

  /** `Find` reports the first occurrence, and None exactly when there is none. */
  lemma {:induction false} FindIsFirst(s: string, pat: string)
    requires pat != []
    ensures var r := Find(s, pat);
      (r.Some? ==> StartsWith(s[r.value..], pat) &&
                   forall j {:trigger StartsWith(s[j..], pat)} :: 0 <= j < r.value ==> !StartsWith(s[j..], pat)) &&
      (r.None? ==> forall j {:trigger StartsWith(s[j..], pat)} :: 0 <= j <= |s| ==> !StartsWith(s[j..], pat))
    decreases |s|
  {
    if |s| >= |pat| && !StartsWith(s, pat) {
      FindIsFirst(s[1..], pat);
      assert forall j :: 1 <= j <= |s| ==> s[j..] == s[1..][j - 1..];
    }
  }

  // ---------------------------------------------------------------------
  // Comment stripping

  const TripleDouble: string := "\"\"\""
  const TripleSingle: string := "'''"

  /** `a` is what remains of `b` after deleting some characters. */
  predicate IsSubsequence(a: string, b: string)
    decreases |b|
  {
    if a == [] then true
    else if b == [] then false
    else if a[0] == b[0] then IsSubsequence(a[1..], b[1..])
    else IsSubsequence(a, b[1..])
  }

  lemma {:induction false} SubsequenceConsRight(a: string, b: string, c: char)
    requires IsSubsequence(a, b)
    ensures IsSubsequence(a, [c] + b)
    decreases |a| + |b|, 1
  {
    assert ([c] + b)[1..] == b;
    if a != [] && a[0] == c {
      SubsequenceDropFirst(a, b);
    }
  }

  lemma {:induction false} SubsequenceDropFirst(a: string, b: string)
    requires a != [] && IsSubsequence(a, b)
    ensures IsSubsequence(a[1..], b)
    decreases |a| + |b|, 0
  {
    assert b != [];
    assert b == [b[0]] + b[1..];
    if a[0] == b[0] {
      SubsequenceConsRight(a[1..], b[1..], b[0]);
    } else {
      SubsequenceDropFirst(a, b[1..]);
      SubsequenceConsRight(a[1..], b[1..], b[0]);
    }
  }

  lemma {:induction false} SubsequenceOfSuffix(a: string, b: string, k: nat)
    requires k <= |b| && IsSubsequence(a, b[k..])
    ensures IsSubsequence(a, b)
    decreases k
  {
    if k > 0 {
      assert b[k - 1..] == [b[k - 1]] + b[k..];
      SubsequenceConsRight(a, b[k..], b[k - 1]);
      SubsequenceOfSuffix(a, b, k - 1);
    }
  }

  lemma {:induction false} SubsequenceRefl(a: string)
    ensures IsSubsequence(a, a)
    decreases |a|
  {
    if a != [] {
      SubsequenceRefl(a[1..]);
    }
  }

  lemma {:induction false} SubsequenceTrans(a: string, b: string, c: string)
    requires IsSubsequence(a, b) && IsSubsequence(b, c)
    ensures IsSubsequence(a, c)
    decreases |c|
  {
    if a != [] {
      assert b != [] && c != [];
      if b[0] == c[0] {
        if a[0] == b[0] {
          SubsequenceTrans(a[1..], b[1..], c[1..]);
        } else {
          SubsequenceTrans(a, b[1..], c[1..]);
        }
      } else {
        SubsequenceTrans(a, b, c[1..]);
        if a[0] == c[0] {
          SubsequenceDropFirst(a, c[1..]);
        }
      }
    }
  }

  /** `x` occurs nowhere in `t`. */
  ghost predicate Absent(t: string, x: string)
  {
    forall j :: 0 <= j <= |t| ==> !StartsWith(t[j..], x)
  }

  /** Putting back a character in front of a text that agrees with `u` up to
      its first newline creates no occurrence of a newline-free `x` that
      `[c] + u` does not have. */
  lemma ConsKeepsFirstLine(c: char, u: string, tail: string, x: string)
    requires x != [] && '\n' !in x
    requires LineEnd(tail) <= |u| && tail[..LineEnd(tail)] == u[..LineEnd(tail)]
    requires !StartsWith([c] + u, x) && Absent(tail, x)
    ensures Absent([c] + tail, x)
    ensures LineEnd([c] + tail) <= |[c] + u|
    ensures ([c] + tail)[..LineEnd([c] + tail)] == ([c] + u)[..LineEnd([c] + tail)]
  {
    ConsFirstLine(c, u, tail);
    ConsAbsent([c] + u, [c] + tail, x);
  }

  /** Putting the same character in front keeps the first-line agreement. */
  lemma ConsFirstLine(c: char, u: string, tail: string)
    requires LineEnd(tail) <= |u| && tail[..LineEnd(tail)] == u[..LineEnd(tail)]
    ensures LineEnd([c] + tail) <= |[c] + u|
    ensures ([c] + tail)[..LineEnd([c] + tail)] == ([c] + u)[..LineEnd([c] + tail)]
  {
    var r := [c] + tail;
    var w := [c] + u;
    assert r[1..] == tail && w[1..] == u;
    var n := LineEnd(r);
    if c != '\n' {
      assert n == 1 + LineEnd(tail);
      assert r[..n] == [c] + tail[..n - 1];
      assert w[..n] == [c] + u[..n - 1];
    }
  }

  /** `r` agrees with `w` on its first line and has no `x` after its first
      character; since `w` does not start with `x`, neither does `r`. */
  lemma ConsAbsent(w: string, r: string, x: string)
    requires x != [] && '\n' !in x && r != []
    requires LineEnd(r) <= |w| && r[..LineEnd(r)] == w[..LineEnd(r)]
    requires !StartsWith(w, x) && Absent(r[1..], x)
    ensures Absent(r, x)
  {
    var n := LineEnd(r);
    if |x| <= |r| {
      if |x| <= n {
        assert r[..|x|] == w[..|x|];
      } else {
        assert r[..|x|][n] == '\n';
      }
    }
    assert forall j :: 1 <= j <= |r| ==> r[j..] == r[1..][j - 1..];
  }

  /** `re.sub(marker + ".*?$", "", s, flags=re.MULTILINE)`: from each marker
      to the end of its line, the newline itself kept. No marker survives,
      and up to its first newline the result is the input's own text. */
  function DeleteLineComments(s: string, marker: string): (r: string)
    requires marker != [] && '\n' !in marker
    ensures |r| <= |s|
    ensures LineEnd(r) <= |s| && r[..LineEnd(r)] == s[..LineEnd(r)]
    ensures Absent(r, marker)
    decreases |s|
  {
    if s == [] then []
    else if StartsWith(s, marker) then
      assert s[0] == marker[0];
      var rest := s[LineEnd(s)..];
      assert rest != [] ==> rest[0] == '\n';
      DeleteLineComments(rest, marker)
    else
      var tail := DeleteLineComments(s[1..], marker);
      assert s == [s[0]] + s[1..];
      ConsKeepsFirstLine(s[0], s[1..], tail, marker);
      [s[0]] + tail
  }

  lemma {:induction false} DeleteLineCommentsFacts(s: string, marker: string)
    requires marker != [] && '\n' !in marker
    ensures IsSubsequence(DeleteLineComments(s, marker), s)
    ensures multiset(DeleteLineComments(s, marker))['\n'] == multiset(s)['\n']
    decreases |s|
  {
    if s != [] {
      if StartsWith(s, marker) {
        assert s[0] == marker[0];
        var e := LineEnd(s);
        DeleteLineCommentsFacts(s[e..], marker);
        SubsequenceOfSuffix(DeleteLineComments(s[e..], marker), s, e);
        assert s == s[..e] + s[e..];
        assert '\n' !in s[..e];
        assert multiset(s) == multiset(s[..e]) + multiset(s[e..]);
      } else {
        DeleteLineCommentsFacts(s[1..], marker);
        assert s == [s[0]] + s[1..];
        assert multiset(s) == multiset([s[0]]) + multiset(s[1..]);
      }
    }
  }

  /** No marker in the first `p` characters: the pass copies them. */
  lemma {:induction false} DeleteLineCommentsCopiesPrefix(s: string, marker: string, p: nat)
    requires marker != [] && '\n' !in marker && p <= |s|
    requires forall j {:trigger StartsWith(s[j..], marker)} :: 0 <= j < p ==> !StartsWith(s[j..], marker)
    ensures DeleteLineComments(s, marker) == s[..p] + DeleteLineComments(s[p..], marker)
    decreases p
  {
    if p == 0 {
      assert s[..0] + DeleteLineComments(s[0..], marker) == DeleteLineComments(s[0..], marker);
      assert s[0..] == s;
    } else {
      var t := s[1..];
      assert s[0..] == s;
      assert DeleteLineComments(s, marker) == [s[0]] + DeleteLineComments(t, marker);
      forall j | 0 <= j < p - 1
        ensures !StartsWith(t[j..], marker)
      {
        assert t[j..] == s[j + 1..];
      }
      DeleteLineCommentsCopiesPrefix(t, marker, p - 1);
      var c := DeleteLineComments(s[p..], marker);
      assert t[p - 1..] == s[p..];
      assert DeleteLineComments(t, marker) == t[..p - 1] + c;
      PrependCopied(s, p, DeleteLineComments(s, marker), DeleteLineComments(t, marker), c);
    }
  }

  /** Text in which `str.find` finds no marker is unchanged. */
  lemma NoMarkerKept(s: string, marker: string)
    requires marker != [] && '\n' !in marker && Find(s, marker).None?
    ensures DeleteLineComments(s, marker) == s
  {
    FindIsFirst(s, marker);
    DeleteLineCommentsCopiesPrefix(s, marker, |s|);
    assert s[..|s|] == s && s[|s|..] == [];
  }

  /** A marker at the start: the text up to the end of its line goes. */
  lemma DeleteLineCommentsSkips(u: string, marker: string)
    requires marker != [] && '\n' !in marker && StartsWith(u, marker)
    ensures DeleteLineComments(u, marker) == DeleteLineComments(u[LineEnd(u)..], marker)
  {
    assert u[0] == marker[0];
  }

  /** With the leftmost marker at `p`, the text before it is kept, the
      marker and the `e` characters of the rest of its line are deleted, and
      the pass goes on at the newline. */
  lemma FirstLineCommentDeleted(s: string, marker: string, p: nat, e: nat)
    requires marker != [] && '\n' !in marker && Find(s, marker) == Some(p)
    requires e == LineEnd(s[p..])
    ensures p + e <= |s| && DeleteLineComments(s, marker) == s[..p] + DeleteLineComments(s[p + e..], marker)
  {
    FirstMarkerCopied(s, marker, p);
    LineCommentDeletedAt(s, marker, p, e);
  }

  /** A marker at `p`: the pass skips from `p` to the end of its line. */
  lemma LineCommentDeletedAt(s: string, marker: string, p: nat, e: nat)
    requires marker != [] && '\n' !in marker && p + |marker| <= |s| && StartsWith(s[p..], marker)
    requires e == LineEnd(s[p..])
    ensures p + e <= |s| && DeleteLineComments(s[p..], marker) == DeleteLineComments(s[p + e..], marker)
  {
    DeleteLineCommentsSkips(s[p..], marker);
    assert s[p..][e..] == s[p + e..];
  }

  /** The line-comment pass copies everything before the leftmost marker. */
  lemma FirstMarkerCopied(s: string, marker: string, p: nat)
    requires marker != [] && '\n' !in marker && Find(s, marker) == Some(p)
    ensures p + |marker| <= |s| && StartsWith(s[p..], marker)
    ensures DeleteLineComments(s, marker) == s[..p] + DeleteLineComments(s[p..], marker)
  {
    FindSome(s, marker, p);
    DeleteLineCommentsCopiesPrefix(s, marker, p);
  }

  /** A later line-comment pass creates no occurrence of a newline-free text
      that its input lacks: it only cuts text that ends at a newline. */
  lemma {:induction false} DeleteLineCommentsKeepsAbsent(s: string, marker: string, x: string)
    requires marker != [] && '\n' !in marker && x != [] && '\n' !in x
    requires Absent(s, x)
    ensures Absent(DeleteLineComments(s, marker), x)
    decreases |s|
  {
    if s != [] {
      if StartsWith(s, marker) {
        assert s[0] == marker[0];
        var e := LineEnd(s);
        assert forall j :: 0 <= j <= |s| - e ==> s[e..][j..] == s[e + j..];
        DeleteLineCommentsKeepsAbsent(s[e..], marker, x);
      } else {
        assert forall j :: 0 <= j <= |s| - 1 ==> s[1..][j..] == s[1 + j..];
        DeleteLineCommentsKeepsAbsent(s[1..], marker, x);
        assert s == [s[0]] + s[1..];
        assert s[0..] == s;
        ConsKeepsFirstLine(s[0], s[1..], DeleteLineComments(s[1..], marker), x);
      }
    }
  }

  /** No opener in `s` has a closer after it: the block pattern matches
      nowhere. */
  predicate NoCompleteBlock(s: string, open: string, close: string)
    requires open != [] && close != []
    decreases |s|
  {
    s == [] || (BlockAt(s, open, close).None? && NoCompleteBlock(s[1..], open, close))
  }

  /** Where the block that starts `s` ends: an opener, then the first
      closer after it. */
  function BlockAt(s: string, open: string, close: string): (r: Option<nat>)
    requires open != [] && close != []
    ensures r.Some? <==> StartsWith(s, open) && Find(s[|open|..], close).Some?
    ensures r.Some? ==> r.value == |open| + Find(s[|open|..], close).value + |close| <= |s|
  {
    if StartsWith(s, open) then
      match Find(s[|open|..], close)
      case Some(f) => Some(|open| + f + |close|)
      case None => None
    else None
  }

  /** `NoCompleteBlock` position by position: every opener in `s` lacks a
      closer after it. */
  lemma {:induction false} NoCompleteBlockEverywhere(s: string, open: string, close: string)
    requires open != [] && close != []
    ensures NoCompleteBlock(s, open, close) <==>
      forall j :: 0 <= j <= |s| && StartsWith(s[j..], open) ==>
        Find(s[j..][|open|..], close).None?
    decreases |s|
  {
    if s != [] {
      NoCompleteBlockEverywhere(s[1..], open, close);
      assert s[0..] == s;
      assert forall j :: 1 <= j <= |s| ==> s[1..][j - 1..] == s[j..];
    }
  }

  /** `str.find` that finds nothing in a text finds nothing in its suffixes. */
  lemma {:induction false} FindNoneSuffix(u: string, pat: string, i: nat)
    requires pat != [] && i <= |u| && Find(u, pat).None?
    ensures Find(u[i..], pat).None?
    decreases i
  {
    if i > 0 && |u| >= |pat| {
      FindNoneSuffix(u[1..], pat, i - 1);
      assert u[1..][i - 1..] == u[i..];
    }
  }

  /** `re.sub(open + "[\s\S]*?" + close, "", s)` (and the DOTALL `.*?`
      variant): from an opener to the first closer after it. An opener
      without a closer is left in place. */
  function DeleteBlocks(s: string, open: string, close: string): (r: string)
    requires open != [] && close != []
    ensures |r| <= |s|
    decreases |s|
  {
    if s == [] then []
    else if BlockAt(s, open, close).Some? then
      DeleteBlocks(s[BlockAt(s, open, close).value..], open, close)
    else
      [s[0]] + DeleteBlocks(s[1..], open, close)
  }

  /** The block pass leaves the text unchanged exactly when no opener in it
      has a closer after it. */
  lemma {:induction false} DeleteBlocksUnchanged(s: string, open: string, close: string)
    requires open != [] && close != []
    ensures DeleteBlocks(s, open, close) == s <==> NoCompleteBlock(s, open, close)
    decreases |s|
  {
    if s != [] && BlockAt(s, open, close).None? {
      DeleteBlocksUnchanged(s[1..], open, close);
      var tail := DeleteBlocks(s[1..], open, close);
      assert s == [s[0]] + s[1..];
      assert [s[0]] + tail == s <==> tail == s[1..];
    }
  }

  lemma {:induction false} DeleteBlocksSubsequence(s: string, open: string, close: string)
    requires open != [] && close != []
    ensures IsSubsequence(DeleteBlocks(s, open, close), s)
    decreases |s|
  {
    if s != [] {
      if BlockAt(s, open, close).Some? {
        var e := BlockAt(s, open, close).value;
        DeleteBlocksSubsequence(s[e..], open, close);
        SubsequenceOfSuffix(DeleteBlocks(s[e..], open, close), s, e);
      } else {
        DeleteBlocksSubsequence(s[1..], open, close);
        assert s == [s[0]] + s[1..];
      }
    }
  }

  /** Without any opener the pass keeps the text. */
  lemma NoOpenerKept(s: string, open: string, close: string)
    requires open != [] && close != [] && Find(s, open).None?
    ensures DeleteBlocks(s, open, close) == s
  {
    FindIsFirst(s, open);
    NoCompleteBlockEverywhere(s, open, close);
    DeleteBlocksUnchanged(s, open, close);
  }

  /** The first opener at `p` with its first closer `f` characters after it:
      the text before it is copied and the block is skipped. */
  lemma FirstBlockDeleted(s: string, open: string, close: string, p: nat, f: nat, e: nat)
    requires open != [] && close != []
    requires Find(s, open) == Some(p) && Find(s[p + |open|..], close) == Some(f)
    requires e == |open| + f + |close|
    ensures p + e <= |s| && DeleteBlocks(s, open, close) == s[..p] + DeleteBlocks(s[p + e..], open, close)
  {
    FindSome(s, open, p);
    BlockDeletedAt(s, open, close, p, f, e);
    DeleteBlocksCopiesPrefix(s, open, close, p);
    AppendEqual(DeleteBlocks(s, open, close), s[..p], DeleteBlocks(s[p..], open, close),
                DeleteBlocks(s[p + e..], open, close));
  }

  /** An opener at `p` with its first closer `f` characters after it: the
      pass skips from `p` to the end of that closer. */
  lemma BlockDeletedAt(s: string, open: string, close: string, p: nat, f: nat, e: nat)
    requires open != [] && close != [] && p + |open| <= |s| && StartsWith(s[p..], open)
    requires Find(s[p + |open|..], close) == Some(f) && e == |open| + f + |close|
    ensures p + e <= |s| && DeleteBlocks(s[p..], open, close) == DeleteBlocks(s[p + e..], open, close)
  {
    BlockAtFound(s, open, close, p, f);
    DeleteBlocksSkips(s[p..], open, close, e);
    assert s[p..][e..] == s[p + e..];
  }

  /** A block at the start is skipped. */
  lemma DeleteBlocksSkips(u: string, open: string, close: string, e: nat)
    requires open != [] && close != [] && BlockAt(u, open, close) == Some(e)
    ensures DeleteBlocks(u, open, close) == DeleteBlocks(u[e..], open, close)
  {
  }

  /** What `FindIsFirst` says when `Find` returns `Some(p)`. */
  lemma FindSome(s: string, pat: string, p: nat)
    requires pat != [] && Find(s, pat) == Some(p)
    ensures p + |pat| <= |s| && StartsWith(s[p..], pat)
    ensures forall j {:trigger StartsWith(s[j..], pat)} :: 0 <= j < p ==> !StartsWith(s[j..], pat)
  {
    FindIsFirst(s, pat);
  }

  /** The first opener and the first closer after it make a block. */
  lemma BlockAtFound(s: string, open: string, close: string, p: nat, f: nat)
    requires open != [] && close != [] && p + |open| <= |s| && StartsWith(s[p..], open)
    requires Find(s[p + |open|..], close) == Some(f)
    ensures BlockAt(s[p..], open, close) == Some(|open| + f + |close|)
  {
    assert s[p..][|open|..] == s[p + |open|..];
  }

  /** No opener in the first `p` characters: the pass copies them. */
  lemma {:induction false} DeleteBlocksCopiesPrefix(s: string, open: string, close: string, p: nat)
    requires open != [] && close != [] && p <= |s|
    requires forall j {:trigger StartsWith(s[j..], open)} :: 0 <= j < p ==> !StartsWith(s[j..], open)
    ensures DeleteBlocks(s, open, close) == s[..p] + DeleteBlocks(s[p..], open, close)
    decreases p
  {
    if p == 0 {
      assert s[..0] + DeleteBlocks(s[0..], open, close) == DeleteBlocks(s[0..], open, close);
      assert s[0..] == s;
    } else {
      var t := s[1..];
      assert s[0..] == s;
      DeleteBlocksCopies(s, open, close);
      forall j | 0 <= j < p - 1
        ensures !StartsWith(t[j..], open)
      {
        assert t[j..] == s[j + 1..];
      }
      DeleteBlocksCopiesPrefix(t, open, close, p - 1);
      var c := DeleteBlocks(s[p..], open, close);
      assert t[p - 1..] == s[p..];
      assert DeleteBlocks(t, open, close) == t[..p - 1] + c;
      PrependCopied(s, p, DeleteBlocks(s, open, close), DeleteBlocks(t, open, close), c);
    }
  }

  lemma AppendEqual(x: string, a: string, y: string, z: string)
    requires x == a + y && y == z
    ensures x == a + z
  {
  }

  /** One copied character in front of a copied prefix. */
  lemma PrependCopied(s: string, p: nat, a: string, b: string, c: string)
    requires 0 < p <= |s|
    requires a == [s[0]] + b && b == s[1..][..p - 1] + c
    ensures a == s[..p] + c
  {
    assert s[..p] == [s[0]] + s[1..][..p - 1];
    Assoc([s[0]], s[1..][..p - 1], c);
  }



  /** Where no opener starts, the pass copies the first character. */
  lemma DeleteBlocksCopies(s: string, open: string, close: string)
    requires open != [] && close != [] && s != [] && !StartsWith(s, open)
    ensures DeleteBlocks(s, open, close) == [s[0]] + DeleteBlocks(s[1..], open, close)
  {
  }

  /** An opener at `p` with no opener before it and no closer after it:
      no block matches, so the pass keeps the text. */
  lemma UnclosedOpenerKept(s: string, open: string, close: string, p: nat)
    requires open != [] && close != []
    requires Find(s, open) == Some(p) && Find(s[p + |open|..], close).None?
    ensures DeleteBlocks(s, open, close) == s
  {
    FindIsFirst(s, open);
    forall j | 0 <= j <= |s| && StartsWith(s[j..], open)
      ensures Find(s[j..][|open|..], close).None?
    {
      if p <= j {
        FindNoneSuffix(s[p + |open|..], close, j - p);
        assert s[p + |open|..][j - p..] == s[j..][|open|..];
      }
    }
    NoCompleteBlockEverywhere(s, open, close);
    DeleteBlocksUnchanged(s, open, close);
  }

  /** The three line-comment passes: no `//`, `#` or `--` is left, only
      characters are deleted, and every newline is kept. */
  function LineCommentPasses(code: string): (r: string)
    ensures Absent(r, "//") && Absent(r, "#") && Absent(r, "--")
    ensures IsSubsequence(r, code)
    ensures multiset(r)['\n'] == multiset(code)['\n']
  {
    var s1 := DeleteLineComments(code, "//");
    var s2 := DeleteLineComments(s1, "#");
    DeleteLineCommentsFacts(code, "//");
    DeleteLineCommentsFacts(s1, "#");
    DeleteLineCommentsFacts(s2, "--");
    DeleteLineCommentsKeepsAbsent(s1, "#", "//");
    DeleteLineCommentsKeepsAbsent(s2, "--", "//");
    DeleteLineCommentsKeepsAbsent(s2, "--", "#");
    SubsequenceTrans(s2, s1, code);
    SubsequenceTrans(DeleteLineComments(s2, "--"), s2, code);
    DeleteLineComments(s2, "--")
  }

  /** `strip_comments`: the line passes, then the three block passes. It
      only deletes characters. */
  function StripComments(code: string): (r: string)
    ensures IsSubsequence(r, code)
  {
    var s3 := LineCommentPasses(code);
    var s4 := DeleteBlocks(s3, "/*", "*/");
    var s5 := DeleteBlocks(s4, TripleDouble, TripleDouble);
    DeleteBlocksSubsequence(s3, "/*", "*/");
    DeleteBlocksSubsequence(s4, TripleDouble, TripleDouble);
    DeleteBlocksSubsequence(s5, TripleSingle, TripleSingle);
    SubsequenceTrans(s4, s3, code);
    SubsequenceTrans(s5, s4, code);
    SubsequenceTrans(DeleteBlocks(s5, TripleSingle, TripleSingle), s5, code);
    DeleteBlocks(s5, TripleSingle, TripleSingle)
  }

  // ---------------------------------------------------------------------
  // Whitespace normalisation

  /** No two consecutive spaces. */
  predicate NoDoubleSpace(s: string)
  {
    forall i :: 0 <= i < |s| - 1 ==> !(s[i] == ' ' && s[i + 1] == ' ')
  }

  /** No run of three or more newlines (at most one blank line in a row). */
  predicate NoTripleNewline(s: string)
  {
    forall i :: 0 <= i < |s| - 2 ==> !(s[i] == '\n' && s[i + 1] == '\n' && s[i + 2] == '\n')
  }

  /** `re.sub(r"\r\n|\r", "\n", s)`: every line ending becomes '\n'. */
  function UnifyLineEnds(s: string): (r: string)
    ensures '\r' !in r
    ensures '\r' !in s ==> r == s
  {
    if s == [] then []
    else if s[0] == '\r' then
      "\n" + UnifyLineEnds(s[if |s| > 1 && s[1] == '\n' then 2 else 1..])
    else [s[0]] + UnifyLineEnds(s[1..])
  }

  /** `re.sub(r"\t", " ", s)`. */
  function TabsToSpaces(s: string): (r: string)
    ensures |r| == |s| && '\t' !in r
    ensures forall i :: 0 <= i < |s| ==> r[i] == s[i] || (s[i] == '\t' && r[i] == ' ')
  {
    seq(|s|, i requires 0 <= i < |s| => if s[i] == '\t' then ' ' else s[i])
  }

  /** `re.sub(r" +", " ", s)`: each run of spaces becomes one space. The
      result changes nothing exactly when there were no double spaces. */
  function CollapseSpaces(s: string): (r: string)
    ensures NoDoubleSpace(r)
    ensures r != [] ==> s != [] && r[0] == s[0]
    ensures r == s <==> NoDoubleSpace(s)
  {
    if s == [] then []
    else if s[0] == ' ' then
      var n := LeadingRun(s, c => c == ' ');
      assert n == 1 <==> |s| == 1 || s[1] != ' ';
      " " + CollapseSpaces(s[n..])
    else [s[0]] + CollapseSpaces(s[1..])
  }

  /** `re.sub(r"\n{2,}", "\n\n", s)`: each run of two or more newlines
      becomes exactly two. */
  function CollapseBlankLines(s: string): (r: string)
    ensures NoTripleNewline(r)
    ensures r != [] ==> s != [] && r[0] == s[0]
    ensures r == s <==> NoTripleNewline(s)
  {
    if s == [] then []
    else if |s| >= 2 && s[0] == '\n' && s[1] == '\n' then
      var n := LeadingRun(s, c => c == '\n');
      assert n == 2 <==> |s| == 2 || s[2] != '\n';
      "\n\n" + CollapseBlankLines(s[n..])
    else [s[0]] + CollapseBlankLines(s[1..])
  }

  // ---------------------------------------------------------------------
  // Literal masking

  /** Offset of the first `q` before the end of the line, where `.*?` followed
      by `q` stops; None when the line has no `q`. */
  function CloseOnLine(s: string, q: char): (r: Option<nat>)
    ensures r.Some? ==> r.value < |s| && s[r.value] == q
    ensures r.Some? ==> forall j :: 0 <= j < r.value ==> s[j] != q && s[j] != '\n'
    ensures r.None? ==> forall j :: 0 <= j < LineEnd(s) ==> s[j] != q
  {
    if s == [] || s[0] == '\n' then None
    else if s[0] == q then Some(0)
    else match CloseOnLine(s[1..], q)
      case None => None
      case Some(j) => Some(j + 1)
  }

  const StrMask: string := "\"STR\""
  const NumMask: string := "NUM"

  /** Length of the match of `".*?"|'.*?'` at the start of `s`, if any: the
      opening quote, then everything up to the first quote of the same kind,
      which must come before the end of the line. */
  function QuotedMatch(s: string): (r: Option<nat>)
    ensures r.Some? ==> 2 <= r.value <= |s| && (s[0] == '"' || s[0] == '\'') &&
                        s[r.value - 1] == s[0] && '\n' !in s[..r.value]
    ensures r.Some? ==> forall j :: 1 <= j < r.value - 1 ==> s[j] != s[0]
    ensures r.None? ==> s == [] || (s[0] != '"' && s[0] != '\'') ||
                        forall j :: 1 <= j <= LineEnd(s[1..]) ==> s[j] != s[0]
  {
    if s != [] && (s[0] == '"' || s[0] == '\'') then
      match CloseOnLine(s[1..], s[0])
      case None => None
      case Some(j) => Some(j + 2)
    else None
  }

  /** `re.sub(r"\".*?\"|\'.*?\'", '"STR"', s)`. */
  function MaskStrings(s: string): (r: string)
    ensures r != [] ==> s != [] && (r[0] == s[0] || r[0] == '"')
    ensures forall c :: c in r ==> c in s || c in StrMask
    decreases |s|
  {
    if s == [] then []
    else match QuotedMatch(s)
      case Some(n) => StrMask + MaskStrings(s[n..])
      case None => [s[0]] + MaskStrings(s[1..])
  }

  /** A string literal on one line: a quote, no quote of the same kind and no
      newline, then the same quote again. */
  predicate IsQuotedLiteral(lit: string)
  {
    |lit| >= 2 && (lit[0] == '"' || lit[0] == '\'') && lit[|lit| - 1] == lit[0] &&
    forall j :: 0 < j < |lit| - 1 ==> lit[j] != lit[0] && lit[j] != '\n'
  }

  /** A literal at the front is replaced by the mask as a whole. */
  lemma MaskStringsLiteral(lit: string, t: string)
    requires IsQuotedLiteral(lit)
    ensures MaskStrings(lit + t) == StrMask + MaskStrings(t)
  {
    var s := lit + t;
    var u := s[1..];
    assert forall j :: 0 <= j < |lit| - 2 ==> u[j] == lit[j + 1];
    assert u[|lit| - 2] == lit[0];
    assert CloseOnLine(u, s[0]) == Some(|lit| - 2);
    assert s[|lit|..] == t;
  }

  /** Text without quotes is copied. */
  lemma {:induction false} MaskStringsPlain(u: string, t: string)
    requires forall j :: 0 <= j < |u| ==> u[j] != '"' && u[j] != '\''
    ensures MaskStrings(u + t) == u + MaskStrings(t)
    decreases |u|
  {
    if u != [] {
      var s := u + t;
      assert s[1..] == u[1..] + t;
      MaskStringsPlain(u[1..], t);
      Assoc([u[0]], u[1..], MaskStrings(t));
      assert [u[0]] + u[1..] == u;
    } else {
      assert u + t == t;
    }
  }

  /** `t` matches `\d+(?:\.\d+)?` in full: digits and at most one dot, which
      is neither first nor last. */
  predicate IsNumberLiteral(t: string)
  {
    |t| > 0 && IsAsciiDigit(t[0]) && IsAsciiDigit(t[|t| - 1]) &&
    (forall i :: 0 <= i < |t| ==> IsAsciiDigit(t[i]) || t[i] == '.') &&
    (forall i, j :: 0 <= i < j < |t| && t[i] == '.' ==> t[j] != '.')
  }

  /** A number literal of length `m` starts `s` and `\b` holds after it. */
  predicate NumberAt(s: string, m: int)
  {
    0 < m <= |s| && IsNumberLiteral(s[..m]) && (m == |s| || !IsWordChar(s[m]))
  }

  function DigitRun(s: string): (n: nat)
    ensures n <= |s|
  {
    LeadingRun(s, IsAsciiDigit)
  }

  /** The digit run is followed by a dot and a digit. */
  predicate HasFraction(s: string)
  {
    DigitRun(s) + 1 < |s| && s[DigitRun(s)] == '.' && IsAsciiDigit(s[DigitRun(s) + 1])
  }

  /** End of the digits after the dot. */
  function FractionEnd(s: string): (e: nat)
    requires HasFraction(s)
    ensures DigitRun(s) + 1 < e <= |s|
  {
    DigitRun(s) + 1 + LeadingRun(s[DigitRun(s) + 1..], IsAsciiDigit)
  }

  /** The only lengths a number literal followed by `\b` can have at the
      start of `s` are the digit run and, with a fraction, its end. */
  lemma NumberCandidates(s: string)
    requires s != [] && IsAsciiDigit(s[0])
    ensures IsNumberLiteral(s[..DigitRun(s)])
    ensures HasFraction(s) ==> IsNumberLiteral(s[..FractionEnd(s)])
    ensures forall m ::
              0 < m <= |s| && m != DigitRun(s) && !(HasFraction(s) && m == FractionEnd(s)) ==>
              !NumberAt(s, m)
  {
    var a := DigitRun(s);
    assert forall i :: 0 <= i < a ==> s[..a][i] == s[i];
    if HasFraction(s) {
      var e := FractionEnd(s);
      var t := s[..e];
      assert forall i :: a < i < e ==> t[i] == s[a + 1..][i - a - 1];
    }
    forall m | 0 < m <= |s| && m != a && !(HasFraction(s) && m == FractionEnd(s))
      ensures !NumberAt(s, m)
    {
      var t := s[..m];
      if m < a {
        assert IsWordChar(s[m]);
      } else if s[a] != '.' {
        assert t[a] == s[a];
      } else if m == a + 1 {
        assert t[m - 1] == '.';
      } else if !IsAsciiDigit(s[a + 1]) {
        assert t[a] == '.' && t[a + 1] == s[a + 1];
      } else {
        var e := FractionEnd(s);
        if m < e {
          assert s[m] == s[a + 1..][m - a - 1];
          assert IsWordChar(s[m]);
        } else {
          assert t[a] == '.' && t[e] == s[e];
        }
      }
    }
  }

  /** Length of the match of `\b\d+(?:\.\d+)?\b` at the start of `s`, given
      whether the character before `s` is a word character: the longest
      number literal followed by a word boundary, so the greedy fraction is
      given back when no boundary follows it. */
  function NumberMatch(s: string, prevWord: bool): (r: Option<nat>)
    ensures r.Some? ==> !prevWord && NumberAt(s, r.value)
    ensures r.Some? ==> forall m :: r.value < m <= |s| ==> !NumberAt(s, m)
    ensures r.None? ==> prevWord || forall m :: 0 < m <= |s| ==> !NumberAt(s, m)
  {
    if s == [] || prevWord then None
    else if !IsAsciiDigit(s[0]) then
      assert forall m :: 0 < m <= |s| ==> s[..m][0] == s[0];
      None
    else
      NumberCandidates(s);
      var a := DigitRun(s);
      if HasFraction(s) then
        var e := FractionEnd(s);
        if e == |s| || !IsWordChar(s[e]) then Some(e) else Some(a)
      else if a == |s| || !IsWordChar(s[a]) then Some(a)
      else None
  }

  /** `re.sub(r"\b\d+(?:\.\d+)?\b", "NUM", s)`; `prevWord` carries the
      character before the scanned suffix, which `\b` looks at. */
  function MaskNumbers(s: string, prevWord: bool): (r: string)
    ensures r != [] ==> s != [] && (r[0] == s[0] || r[0] == 'N')
    ensures forall c :: c in r ==> c in s || c in NumMask
    decreases |s|
  {
    if s == [] then []
    else match NumberMatch(s, prevWord)
      case Some(n) => NumMask + MaskNumbers(s[n..], true)
      case None => [s[0]] + MaskNumbers(s[1..], IsWordChar(s[0]))
  }

  /** A number literal standing on its own is replaced by the mask as a whole. */
  lemma MaskNumbersLiteral(lit: string, t: string)
    requires IsNumberLiteral(lit)
    requires t == [] || (!IsWordChar(t[0]) && t[0] != '.')
    ensures MaskNumbers(lit + t, false) == NumMask + MaskNumbers(t, true)
  {
    var s := lit + t;
    assert s[..|lit|] == lit;
    assert NumberAt(s, |lit|);
    forall m | |lit| < m <= |s|
      ensures !NumberAt(s, m)
    {
      assert s[..m][|lit|] == t[0];
    }
    assert s[|lit|..] == t;
  }

  /** Word characters after a word character are copied: `\b` cannot hold
      inside a word. */
  lemma {:induction false} MaskNumbersInWord(w: string, t: string)
    requires forall j :: 0 <= j < |w| ==> IsWordChar(w[j])
    ensures MaskNumbers(w + t, true) == w + MaskNumbers(t, true)
    decreases |w|
  {
    if w != [] {
      var s := w + t;
      assert s[1..] == w[1..] + t;
      MaskNumbersInWord(w[1..], t);
      Assoc([w[0]], w[1..], MaskNumbers(t, true));
      assert [w[0]] + w[1..] == w;
    } else {
      assert w + t == t;
    }
  }

  /** A word that is not all digits is copied whole, digits included. */
  lemma MaskNumbersWord(w: string, t: string, j0: nat)
    requires forall j :: 0 <= j < |w| ==> IsWordChar(w[j])
    requires j0 < |w| && !IsAsciiDigit(w[j0])
    ensures MaskNumbers(w + t, false) == w + MaskNumbers(t, true)
  {
    var s := w + t;
    forall m | 0 < m <= |s|
      ensures !NumberAt(s, m)
    {
      if m > j0 {
        assert s[..m][j0] == w[j0];
      } else {
        assert s[m] == w[m];
      }
    }
    assert s[1..] == w[1..] + t;
    MaskNumbersInWord(w[1..], t);
    Assoc([w[0]], w[1..], MaskNumbers(t, true));
    assert [w[0]] + w[1..] == w;
  }

  /** Text without word characters is copied. */
  lemma {:induction false} MaskNumbersPlain(u: string, t: string, prevWord: bool)
    requires u != []
    requires forall j :: 0 <= j < |u| ==> !IsWordChar(u[j])
    ensures MaskNumbers(u + t, prevWord) == u + MaskNumbers(t, false)
    decreases |u|
  {
    var s := u + t;
    assert s[1..] == u[1..] + t;
    if |u| > 1 {
      MaskNumbersPlain(u[1..], t, false);
      Assoc([u[0]], u[1..], MaskNumbers(t, false));
    }
    assert [u[0]] + u[1..] == u;
  }

  // ---------------------------------------------------------------------
  // str.strip()

  function LeadingSpace(s: string): (n: nat)
    ensures n <= |s|
  {
    LeadingRun(s, IsSpace)
  }

  function TrailingSpace(s: string): (n: nat)
    ensures n <= |s|
    ensures forall i :: |s| - n <= i < |s| ==> IsSpace(s[i])
    ensures n < |s| ==> !IsSpace(s[|s| - n - 1])
  {
    if s == [] || !IsSpace(s[|s| - 1]) then 0 else 1 + TrailingSpace(s[..|s| - 1])
  }

  /** `s.strip()`: the text between the leading and the trailing whitespace. */
  function Strip(s: string): (r: string)
    ensures r == [] || (!IsSpace(r[0]) && !IsSpace(r[|r| - 1]))
    ensures exists i, j :: 0 <= i <= j <= |s| && r == s[i..j] &&
              (forall k :: 0 <= k < i ==> IsSpace(s[k])) &&
              (forall k :: j <= k < |s| ==> IsSpace(s[k]))
  {
    var a := LeadingSpace(s);
    if a == |s| then
      s[a..a]
    else
      var b := |s| - TrailingSpace(s);
      assert a < b;
      s[a..b]
  }

  /** `normalize_code`: the result has no leading or trailing whitespace,
      no '\r' or '\t', no two spaces in a row and no three newlines in a
      row. */
  function NormalizeCode(code: string): (r: string)
    ensures r == [] || (!IsSpace(r[0]) && !IsSpace(r[|r| - 1]))
    ensures '\r' !in r && '\t' !in r && NoDoubleSpace(r) && NoTripleNewline(r)
  {
    var s := StripComments(code);
    var s := UnifyLineEnds(s);
    var s := TabsToSpaces(s);
    var s := CollapseSpaces(s);
    var s := CollapseBlankLines(s);
    WhitespacePassesClean(StripComments(code));
    var s := MaskStrings(s);
    var s := MaskNumbers(s, false);
    MaskPassesClean(CollapseBlankLines(CollapseSpaces(TabsToSpaces(UnifyLineEnds(StripComments(code))))));
    StripClean(s);
    Strip(s)
  }

  // ---------------------------------------------------------------------
  // Tokenizer

  predicate IsIdentStart(c: char) { IsAsciiLetter(c) || c == '_' }

  /** `[A-Za-z_][A-Za-z0-9_]*`. */
  predicate IsIdentifier(t: string)
  {
    |t| > 0 && IsIdentStart(t[0]) && forall i :: 0 <= i < |t| ==> IsWordChar(t[i])
  }

  /** What `simple_tokenize` may return: an identifier, or one non-whitespace
      character that cannot start one. */
  predicate IsToken(t: string)
  {
    IsIdentifier(t) || (|t| == 1 && !IsSpace(t[0]) && !IsIdentStart(t[0]))
  }

  /** `re.findall(r"[A-Za-z_][A-Za-z0-9_]*|\S", s)`. */
  function Tokenize(s: string): (toks: seq<string>)
    ensures forall i :: 0 <= i < |toks| ==> IsToken(toks[i])
  {
    if s == [] then []
    else if IsSpace(s[0]) then Tokenize(s[1..])
    else if IsIdentStart(s[0]) then
      var n := LeadingRun(s, IsWordChar);
      [s[..n]] + Tokenize(s[n..])
    else [[s[0]]] + Tokenize(s[1..])
  }

  // ---------------------------------------------------------------------
  // What the normalised text looks like

  lemma NoDoubleSpaceConcat(a: string, b: string)
    requires NoDoubleSpace(a) && NoDoubleSpace(b)
    requires a == [] || b == [] || !(a[|a| - 1] == ' ' && b[0] == ' ')
    ensures NoDoubleSpace(a + b)
  {
    forall i | 0 <= i < |a + b| - 1
      ensures !((a + b)[i] == ' ' && (a + b)[i + 1] == ' ')
    {
      if i + 1 < |a| {
      } else if i >= |a| {
        assert (a + b)[i] == b[i - |a|] && (a + b)[i + 1] == b[i - |a| + 1];
      }
    }
  }

  lemma NoTripleNewlineConcat(a: string, b: string)
    requires NoTripleNewline(a) && NoTripleNewline(b)
    requires a == [] || a[|a| - 1] != '\n'
    ensures NoTripleNewline(a + b)
  {
    forall i | 0 <= i < |a + b| - 2
      ensures !((a + b)[i] == '\n' && (a + b)[i + 1] == '\n' && (a + b)[i + 2] == '\n')
    {
      if i >= |a| {
        assert (a + b)[i] == b[i - |a|] && (a + b)[i + 1] == b[i - |a| + 1];
        assert (a + b)[i + 2] == b[i - |a| + 2];
      }
    }
  }

  lemma NoTripleNewlineCons(x: char, b: string)
    requires NoTripleNewline(b)
    requires !(x == '\n' && |b| >= 2 && b[0] == '\n' && b[1] == '\n')
    ensures NoTripleNewline([x] + b)
  {
    forall i | 1 <= i < |[x] + b| - 2
      ensures !(([x] + b)[i] == '\n' && ([x] + b)[i + 1] == '\n' && ([x] + b)[i + 2] == '\n')
    {
      assert ([x] + b)[i] == b[i - 1] && ([x] + b)[i + 1] == b[i] && ([x] + b)[i + 2] == b[i + 1];
    }
  }

  /** Cutting a piece out of a string keeps all three properties. */
  lemma CleanSubstring(s: string, i: int, j: int)
    requires 0 <= i <= j <= |s|
    ensures NoDoubleSpace(s) ==> NoDoubleSpace(s[i..j])
    ensures NoTripleNewline(s) ==> NoTripleNewline(s[i..j])
    ensures forall c :: c in s[i..j] ==> c in s
  {
    var t := s[i..j];
    assert forall k :: 0 <= k < |t| ==> t[k] == s[i + k];
  }

  lemma {:induction false} CollapseSpacesKeepsChars(s: string)
    ensures forall c :: c in CollapseSpaces(s) ==> c in s
    decreases |s|
  {
    if s != [] {
      if s[0] == ' ' {
        var n := LeadingRun(s, c => c == ' ');
        CollapseSpacesKeepsChars(s[n..]);
        CleanSubstring(s, n, |s|);
      } else {
        CollapseSpacesKeepsChars(s[1..]);
        CleanSubstring(s, 1, |s|);
      }
    }
  }

  lemma {:induction false} CollapseBlankLinesKeepsChars(s: string)
    ensures forall c :: c in CollapseBlankLines(s) ==> c in s
    decreases |s|
  {
    if s != [] {
      if |s| >= 2 && s[0] == '\n' && s[1] == '\n' {
        var n := LeadingRun(s, c => c == '\n');
        var rest := CollapseBlankLines(s[n..]);
        assert CollapseBlankLines(s) == "\n\n" + rest;
        CollapseBlankLinesKeepsChars(s[n..]);
        CleanSubstring(s, n, |s|);
      } else {
        var rest := CollapseBlankLines(s[1..]);
        assert CollapseBlankLines(s) == [s[0]] + rest;
        CollapseBlankLinesKeepsChars(s[1..]);
        CleanSubstring(s, 1, |s|);
      }
    }
  }

  lemma {:induction false} CollapseBlankLinesKeepsNoDoubleSpace(s: string)
    requires NoDoubleSpace(s)
    ensures NoDoubleSpace(CollapseBlankLines(s))
    decreases |s|
  {
    if s != [] {
      if |s| >= 2 && s[0] == '\n' && s[1] == '\n' {
        var n := LeadingRun(s, c => c == '\n');
        CleanSubstring(s, n, |s|);
        CollapseBlankLinesKeepsNoDoubleSpace(s[n..]);
        NoDoubleSpaceConcat("\n\n", CollapseBlankLines(s[n..]));
      } else {
        CleanSubstring(s, 1, |s|);
        CollapseBlankLinesKeepsNoDoubleSpace(s[1..]);
        NoDoubleSpaceConcat([s[0]], CollapseBlankLines(s[1..]));
      }
    }
  }

  /** The string mask holds no space and no newline, so masking cannot
      create a double space or a triple newline. */
  lemma {:induction false} MaskStringsKeepsNoDoubleSpace(s: string)
    requires NoDoubleSpace(s)
    ensures NoDoubleSpace(MaskStrings(s))
    decreases |s|
  {
    if s != [] {
      match QuotedMatch(s)
      case Some(n) =>
        CleanSubstring(s, n, |s|);
        MaskStringsKeepsNoDoubleSpace(s[n..]);
        NoDoubleSpaceConcat(StrMask, MaskStrings(s[n..]));
      case None =>
        CleanSubstring(s, 1, |s|);
        MaskStringsKeepsNoDoubleSpace(s[1..]);
        NoDoubleSpaceConcat([s[0]], MaskStrings(s[1..]));
    }
  }

  lemma {:induction false} MaskStringsKeepsNoTripleNewline(s: string)
    requires NoTripleNewline(s)
    ensures NoTripleNewline(MaskStrings(s))
    decreases |s|
  {
    if s != [] {
      match QuotedMatch(s)
      case Some(n) =>
        CleanSubstring(s, n, |s|);
        MaskStringsKeepsNoTripleNewline(s[n..]);
        NoTripleNewlineConcat(StrMask, MaskStrings(s[n..]));
      case None =>
        var rest := MaskStrings(s[1..]);
        CleanSubstring(s, 1, |s|);
        MaskStringsKeepsNoTripleNewline(s[1..]);
        if |s| >= 2 && s[1] == '\n' {
          assert QuotedMatch(s[1..]).None?;
          assert rest == [s[1]] + MaskStrings(s[2..]);
        }
        NoTripleNewlineCons(s[0], rest);
    }
  }

  lemma {:induction false} MaskNumbersKeepsNoDoubleSpace(s: string, prevWord: bool)
    requires NoDoubleSpace(s)
    ensures NoDoubleSpace(MaskNumbers(s, prevWord))
    decreases |s|
  {
    if s != [] {
      match NumberMatch(s, prevWord)
      case Some(n) =>
        CleanSubstring(s, n, |s|);
        MaskNumbersKeepsNoDoubleSpace(s[n..], true);
        NoDoubleSpaceConcat(NumMask, MaskNumbers(s[n..], true));
      case None =>
        CleanSubstring(s, 1, |s|);
        MaskNumbersKeepsNoDoubleSpace(s[1..], IsWordChar(s[0]));
        NoDoubleSpaceConcat([s[0]], MaskNumbers(s[1..], IsWordChar(s[0])));
    }
  }

  lemma {:induction false} MaskNumbersKeepsNoTripleNewline(s: string, prevWord: bool)
    requires NoTripleNewline(s)
    ensures NoTripleNewline(MaskNumbers(s, prevWord))
    decreases |s|
  {
    if s != [] {
      match NumberMatch(s, prevWord)
      case Some(n) =>
        CleanSubstring(s, n, |s|);
        MaskNumbersKeepsNoTripleNewline(s[n..], true);
        NoTripleNewlineConcat(NumMask, MaskNumbers(s[n..], true));
      case None =>
        var w := IsWordChar(s[0]);
        var rest := MaskNumbers(s[1..], w);
        CleanSubstring(s, 1, |s|);
        MaskNumbersKeepsNoTripleNewline(s[1..], w);
        if |s| >= 2 && s[1] == '\n' {
          assert NumberMatch(s[1..], w).None?;
          assert rest == [s[1]] + MaskNumbers(s[2..], false);
        }
        NoTripleNewlineCons(s[0], rest);
    }
  }

  /** Clean: no '\r', no '\t', no double space, no triple newline. */
  predicate Clean(s: string)
  {
    '\r' !in s && '\t' !in s && NoDoubleSpace(s) && NoTripleNewline(s)
  }

  lemma WhitespacePassesClean(s: string)
    ensures Clean(CollapseBlankLines(CollapseSpaces(TabsToSpaces(UnifyLineEnds(s)))))
  {
    var s3 := TabsToSpaces(UnifyLineEnds(s));
    assert '\r' !in s3;
    CollapseSpacesKeepsChars(s3);
    CollapseBlankLinesKeepsChars(CollapseSpaces(s3));
    CollapseBlankLinesKeepsNoDoubleSpace(CollapseSpaces(s3));
  }

  lemma MaskPassesClean(s: string)
    requires Clean(s)
    ensures Clean(MaskNumbers(MaskStrings(s), false))
  {
    var m := MaskStrings(s);
    MaskStringsKeepsNoDoubleSpace(s);
    MaskStringsKeepsNoTripleNewline(s);
    assert '\r' !in StrMask && '\t' !in StrMask;
    assert '\r' !in m && '\t' !in m;
    var r := MaskNumbers(m, false);
    MaskNumbersKeepsNoDoubleSpace(m, false);
    MaskNumbersKeepsNoTripleNewline(m, false);
    assert '\r' !in NumMask && '\t' !in NumMask;
    assert '\r' !in r && '\t' !in r;
  }

  lemma StripClean(s: string)
    requires Clean(s)
    ensures Clean(Strip(s))
  {
    var r := Strip(s);
    var i, j :| 0 <= i <= j <= |s| && r == s[i..j];
    CleanSubstring(s, i, j);
  }

  // ---------------------------------------------------------------------
  // What the tokens are

  /** The input with every whitespace character removed. */
  function RemoveSpaces(s: string): (r: string)
  {
    if s == [] then [] else (if IsSpace(s[0]) then [] else [s[0]]) + RemoveSpaces(s[1..])
  }

  lemma {:induction false} RemoveSpacesPrefix(s: string, n: nat)
    requires n <= |s| && forall i :: 0 <= i < n ==> !IsSpace(s[i])
    ensures RemoveSpaces(s) == s[..n] + RemoveSpaces(s[n..])
    decreases n
  {
    if n > 0 {
      RemoveSpacesPrefix(s[1..], n - 1);
      assert s[1..][n - 1..] == s[n..];
      assert s[..n] == [s[0]] + s[1..][..n - 1];
    }
  }

  /** Gluing the tokens back together gives the input without its
      whitespace: nothing is lost and nothing is added. */
  lemma {:induction false} TokenizeLosesOnlyWhitespace(s: string)
    ensures Concat(Tokenize(s)) == RemoveSpaces(s)
    decreases |s|
  {
    if s != [] {
      if IsSpace(s[0]) {
        TokenizeLosesOnlyWhitespace(s[1..]);
      } else {
        var n := if IsIdentStart(s[0]) then LeadingRun(s, IsWordChar) else 1;
        var t := s[..n];
        if !IsIdentStart(s[0]) {
          assert t == [s[0]] && s[n..] == s[1..];
        }
        assert Tokenize(s) == [t] + Tokenize(s[n..]);
        TokenizeLosesOnlyWhitespace(s[n..]);
        ConcatAppend([t], Tokenize(s[n..]));
        assert Concat([t]) == Concat([]) + t;
        RemoveSpacesPrefix(s, n);
      }
    }
  }

  /** A token at the front of the text is taken whole and on its own: an
      identifier followed by a character that cannot continue it, or any
      single-character token followed by anything. */
  lemma TokenizeOneToken(t: string, rest: string)
    requires IsToken(t)
    requires IsIdentifier(t) ==> rest == [] || !IsWordChar(rest[0])
    ensures Tokenize(t + rest) == [t] + Tokenize(rest)
  {
    var s := t + rest;
    assert s[0] == t[0];
    if IsIdentifier(t) {
      LeadingRunOfPrefix(t, rest, IsWordChar);
      assert s[..|t|] == t && s[|t|..] == rest;
    } else {
      assert |t| == 1 && s[1..] == rest && [s[0]] == t;
    }
  }

  /** Tokenizing the space-joined tokens gives the same tokens back: each
      identifier is taken whole and every other token is one character. */
  lemma {:induction false} TokenizeJoinRoundTrip(toks: seq<string>)
    requires forall i :: 0 <= i < |toks| ==> IsToken(toks[i])
    ensures Tokenize(Join(toks, " ")) == toks
    decreases |toks|
  {
    if |toks| == 1 {
      TokenizeOneToken(toks[0], "");
      assert toks[0] + "" == toks[0];
    } else if |toks| > 1 {
      var rest := Join(toks[1..], " ");
      TokenizeOneToken(toks[0], " " + rest);
      assert Join(toks, " ") == toks[0] + (" " + rest);
      assert Tokenize(" " + rest) == Tokenize(rest) by {
        assert (" " + rest)[1..] == rest;
      }
      TokenizeJoinRoundTrip(toks[1..]);
    }
  }
}
