/** Python's built-in `sorted(xs, key=...)`: a stable sort. It is modelled as
    an insertion sort by a real-valued key; `reverse=True` is the same stable
    sort by the negated key, since Python keeps equal elements in their
    original order in both directions. */
module Sorting {

  predicate SortedBy<T>(xs: seq<T>, key: T -> real)
  {
    forall i, j :: 0 <= i < j < |xs| ==> key(xs[i]) <= key(xs[j])
  }

  /** Ordered by `key`, and by `tie` among equal keys. */
  predicate SortedThenBy<T>(xs: seq<T>, key: T -> real, tie: T -> int)
  {
    forall i, j :: 0 <= i < j < |xs| ==>
      key(xs[i]) < key(xs[j]) || (key(xs[i]) == key(xs[j]) && tie(xs[i]) < tie(xs[j]))
  }

  lemma ConsSorted<T>(a: T, r: seq<T>, key: T -> real)
    requires SortedBy(r, key)
    requires forall z :: z in r ==> key(a) <= key(z)
    ensures SortedBy([a] + r, key)
  {
    forall i, j | 0 <= i < j < |[a] + r|
      ensures key(([a] + r)[i]) <= key(([a] + r)[j])
    {
      assert ([a] + r)[j] == r[j - 1];
      if i > 0 {
        assert ([a] + r)[i] == r[i - 1];
      }
    }
  }

  lemma ConsThenBy<T>(a: T, r: seq<T>, key: T -> real, tie: T -> int)
    requires SortedThenBy(r, key, tie)
    requires forall z :: z in r ==> key(a) < key(z) || (key(a) == key(z) && tie(a) < tie(z))
    ensures SortedThenBy([a] + r, key, tie)
  {
    forall i, j | 0 <= i < j < |[a] + r|
      ensures key(([a] + r)[i]) < key(([a] + r)[j]) ||
              (key(([a] + r)[i]) == key(([a] + r)[j]) && tie(([a] + r)[i]) < tie(([a] + r)[j]))
    {
      assert ([a] + r)[j] == r[j - 1];
      if i > 0 {
        assert ([a] + r)[i] == r[i - 1];
      }
    }
  }

  /** Put `x` in front of the first element whose key is not smaller. */
  function Insert<T>(x: T, ys: seq<T>, key: T -> real): (r: seq<T>)
    ensures |r| == |ys| + 1
    ensures multiset(r) == multiset([x] + ys)
  {
    if ys == [] || key(x) <= key(ys[0]) then [x] + ys
    else
      assert ys == [ys[0]] + ys[1..];
      [ys[0]] + Insert(x, ys[1..], key)
  }

  lemma InsertMembers<T>(x: T, ys: seq<T>, key: T -> real)
    ensures forall z :: z in Insert(x, ys, key) ==> z == x || z in ys
  {
    forall z | z in Insert(x, ys, key) ensures z == x || z in ys {
      assert z in multiset(Insert(x, ys, key));
    }
  }

  lemma {:induction false} InsertSorted<T>(x: T, ys: seq<T>, key: T -> real)
    requires SortedBy(ys, key)
    ensures SortedBy(Insert(x, ys, key), key)
    decreases |ys|
  {
    if ys == [] || key(x) <= key(ys[0]) {
      forall z | z in ys ensures key(x) <= key(z) {
        var k :| 0 <= k < |ys| && ys[k] == z;
        assert key(ys[0]) <= key(ys[k]) || k == 0;
      }
      ConsSorted(x, ys, key);
    } else {
      assert SortedBy(ys[1..], key) by {
        forall i, j | 0 <= i < j < |ys[1..]| ensures key(ys[1..][i]) <= key(ys[1..][j]) {
          assert ys[1..][i] == ys[i + 1] && ys[1..][j] == ys[j + 1];
        }
      }
      InsertSorted(x, ys[1..], key);
      InsertMembers(x, ys[1..], key);
      forall z | z in Insert(x, ys[1..], key) ensures key(ys[0]) <= key(z) {
        if z != x {
          var k :| 0 <= k < |ys[1..]| && ys[1..][k] == z;
          assert ys[1..][k] == ys[k + 1];
        }
      }
      ConsSorted(ys[0], Insert(x, ys[1..], key), key);
    }
  }

  function SortBy<T>(xs: seq<T>, key: T -> real): (r: seq<T>)
    ensures |r| == |xs|
    ensures multiset(r) == multiset(xs)
    ensures SortedBy(r, key)
  {
    if xs == [] then []
    else
      assert xs == [xs[0]] + xs[1..];
      InsertSorted(xs[0], SortBy(xs[1..], key), key);
      Insert(xs[0], SortBy(xs[1..], key), key)
  }

  lemma {:induction false} InsertThenBy<T>(x: T, ys: seq<T>, key: T -> real, tie: T -> int)
    requires SortedThenBy(ys, key, tie)
    requires forall y :: y in ys ==> tie(x) < tie(y)
    ensures SortedThenBy(Insert(x, ys, key), key, tie)
    decreases |ys|
  {
    if ys == [] || key(x) <= key(ys[0]) {
      forall z | z in ys ensures key(x) < key(z) || (key(x) == key(z) && tie(x) < tie(z)) {
        var k :| 0 <= k < |ys| && ys[k] == z;
        assert key(ys[0]) <= key(ys[k]) || k == 0;
      }
      ConsThenBy(x, ys, key, tie);
    } else {
      assert SortedThenBy(ys[1..], key, tie) by {
        forall i, j | 0 <= i < j < |ys[1..]|
          ensures key(ys[1..][i]) < key(ys[1..][j]) ||
                  (key(ys[1..][i]) == key(ys[1..][j]) && tie(ys[1..][i]) < tie(ys[1..][j]))
        {
          assert ys[1..][i] == ys[i + 1] && ys[1..][j] == ys[j + 1];
        }
      }
      InsertThenBy(x, ys[1..], key, tie);
      InsertMembers(x, ys[1..], key);
      forall z | z in Insert(x, ys[1..], key)
        ensures key(ys[0]) < key(z) || (key(ys[0]) == key(z) && tie(ys[0]) < tie(z))
      {
        if z != x {
          var k :| 0 <= k < |ys[1..]| && ys[1..][k] == z;
          assert ys[1..][k] == ys[k + 1];
        }
      }
      ConsThenBy(ys[0], Insert(x, ys[1..], key), key, tie);
    }
  }

  /** Stability: when the input is ordered by `tie`, equal keys keep that
      order in the output. */
  lemma {:induction false} SortByStable<T>(xs: seq<T>, key: T -> real, tie: T -> int)
    requires forall i, j :: 0 <= i < j < |xs| ==> tie(xs[i]) < tie(xs[j])
    ensures SortedThenBy(SortBy(xs, key), key, tie)
  {
    if xs != [] {
      SortByStable(xs[1..], key, tie);
      var r' := SortBy(xs[1..], key);
      forall y | y in r' ensures tie(xs[0]) < tie(y) {
        assert y in multiset(xs[1..]);
        assert y in xs[1..];
      }
      InsertThenBy(xs[0], r', key, tie);
    }
  }
}
