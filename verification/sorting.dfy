/** Python's stable `sorted(..., key=..., reverse=True)` and the top-N slices
    taken from it, plus `sorted(set(...))` over integers. */
module Sorting {

  /** Keys never increase from left to right. */
  predicate NonIncreasing<T>(s: seq<T>, key: T -> real) {
    forall i, j :: 0 <= i < j < |s| ==> key(s[i]) >= key(s[j])
  }

  /** The elements of `s` whose key is `v`, in their order in `s`. A sort is
      stable exactly when it leaves every such subsequence unchanged. */
  function WithKey<T>(s: seq<T>, key: T -> real, v: real): seq<T> {
    if s == [] then []
    else (if key(s[0]) == v then [s[0]] else []) + WithKey(s[1..], key, v)
  }

  /** Inserts `x` before the first element whose key is not above its own, so
      that `x` precedes every element it ties with. */
  function InsertDesc<T>(x: T, s: seq<T>, key: T -> real): (r: seq<T>)
    ensures multiset(r) == multiset(s) + multiset{x}
  {
    if s == [] || key(s[0]) <= key(x) then [x] + s
    else
      assert s == [s[0]] + s[1..];
      [s[0]] + InsertDesc(x, s[1..], key)
  }

  /** Insertion keeps the order. */
  lemma {:induction false} InsertDescSorted<T>(x: T, s: seq<T>, key: T -> real)
    requires NonIncreasing(s, key)
    ensures NonIncreasing(InsertDesc(x, s, key), key)
  {
    if s != [] && key(s[0]) > key(x) {
      var t := InsertDesc(x, s[1..], key);
      InsertDescSorted(x, s[1..], key);
      forall j | 0 <= j < |t|
        ensures key(s[0]) >= key(t[j])
      {
        assert t[j] in multiset(s[1..]) + multiset{x};
        if t[j] != x {
          assert t[j] in s[1..];
          var k :| 0 <= k < |s[1..]| && s[1..][k] == t[j];
          assert s[k + 1] == t[j];
        }
      }
      assert InsertDesc(x, s, key) == [s[0]] + t;
    }
  }

  /** Insertion adds `x` at the head of its tie class and leaves the other
      tie classes alone. */
  lemma InsertDescStable<T>(x: T, s: seq<T>, key: T -> real, v: real)
    ensures WithKey(InsertDesc(x, s, key), key, v) == (if key(x) == v then [x] else []) + WithKey(s, key, v)
  {
    if key(x) == v {
      InsertDescOwnClass(x, s, key);
    } else {
      InsertDescOtherClass(x, s, key, v);
    }
  }

  /** `x` goes to the head of its own tie class. */
  lemma {:induction false} InsertDescOwnClass<T>(x: T, s: seq<T>, key: T -> real)
    ensures WithKey(InsertDesc(x, s, key), key, key(x)) == [x] + WithKey(s, key, key(x))
  {
    var v := key(x);
    if s == [] || key(s[0]) <= key(x) {
      WithKeyCons(x, s, key, v);
    } else {
      var t := InsertDesc(x, s[1..], key);
      assert InsertDesc(x, s, key) == [s[0]] + t;
      InsertDescOwnClass(x, s[1..], key);
      WithKeyCons(s[0], t, key, v);
      assert s == [s[0]] + s[1..];
      WithKeyCons(s[0], s[1..], key, v);
    }
  }

  /** A tie class other than `x`'s is unchanged by inserting `x`. */
  lemma {:induction false} InsertDescOtherClass<T>(x: T, s: seq<T>, key: T -> real, v: real)
    requires key(x) != v
    ensures WithKey(InsertDesc(x, s, key), key, v) == WithKey(s, key, v)
  {
    if s == [] || key(s[0]) <= key(x) {
      WithKeyCons(x, s, key, v);
    } else {
      var t := InsertDesc(x, s[1..], key);
      assert InsertDesc(x, s, key) == [s[0]] + t;
      InsertDescOtherClass(x, s[1..], key, v);
      WithKeyCons(s[0], t, key, v);
      assert s == [s[0]] + s[1..];
      WithKeyCons(s[0], s[1..], key, v);
    }
  }

  /** One step of the filter. */
  lemma WithKeyCons<T>(y: T, s: seq<T>, key: T -> real, v: real)
    ensures WithKey([y] + s, key, v) == (if key(y) == v then [y] else []) + WithKey(s, key, v)
  {
    assert ([y] + s)[1..] == s;
  }

  /** Stable sort by decreasing key (Python's `sorted(s, key=key, reverse=True)`). */
  function SortDesc<T>(s: seq<T>, key: T -> real): (r: seq<T>)
    ensures |r| == |s|
    ensures multiset(r) == multiset(s)
    ensures NonIncreasing(r, key)
    ensures forall v :: WithKey(r, key, v) == WithKey(s, key, v)
  {
    if s == [] then []
    else
      var t := SortDesc(s[1..], key);
      var r := InsertDesc(s[0], t, key);
      assert s == [s[0]] + s[1..];
      assert |r| == |multiset(r)|;
      InsertDescSorted(s[0], t, key);
      assert forall v :: WithKey(r, key, v) == WithKey(s, key, v) by {
        forall v
          ensures WithKey(r, key, v) == WithKey(s, key, v)
        {
          InsertDescStable(s[0], t, key, v);
        }
      }
      r
  }

  /** Filtering by key commutes with taking a prefix: the kept part of each tie
      class is a prefix of that class. */
  lemma {:induction false} WithKeyOfPrefix<T>(s: seq<T>, n: nat, key: T -> real, v: real)
    requires n <= |s|
    ensures WithKey(s[..n], key, v) <= WithKey(s, key, v)
  {
    if n > 0 {
      assert s[..n][1..] == s[1..][..n - 1];
      WithKeyOfPrefix(s[1..], n - 1, key, v);
    }
  }

  /** Nothing after position `m` of a non-increasing sequence outranks
      anything before it. */
  lemma SuffixNotAbove<T>(sorted: seq<T>, m: nat, key: T -> real)
    requires m <= |sorted| && NonIncreasing(sorted, key)
    ensures forall x, i :: x in multiset(sorted[m..]) && 0 <= i < m ==> key(x) <= key(sorted[i])
  {
    forall x, i | x in multiset(sorted[m..]) && 0 <= i < m
      ensures key(x) <= key(sorted[i])
    {
      assert x in sorted[m..];
      var k :| 0 <= k < |sorted[m..]| && sorted[m..][k] == x;
      assert sorted[m + k] == x;
    }
  }

  /** `sorted(s, key=key, reverse=True)[:n]`, which is also what
      `Counter.most_common(n)` returns for the counter's items. */
  function Top<T>(s: seq<T>, n: nat, key: T -> real): (r: seq<T>)
    ensures |r| <= n
    ensures |r| == |s| || |r| == n
    ensures NonIncreasing(r, key)
    ensures multiset(r) <= multiset(s)
    ensures forall x, i :: x in multiset(s) - multiset(r) && 0 <= i < |r| ==> key(x) <= key(r[i])
    ensures forall v :: WithKey(r, key, v) <= WithKey(s, key, v)
  {
    var m := if n < |s| then n else |s|;
    TopRanked(s, m, key);
    TopStable(s, m, key);
    SortDesc(s, key)[..m]
  }

  /** The first `m` of the sorted sequence are drawn from `s` and outrank
      everything left behind. */
  lemma TopRanked<T>(s: seq<T>, m: nat, key: T -> real)
    requires m <= |s|
    ensures multiset(SortDesc(s, key)[..m]) <= multiset(s)
    ensures forall x, i :: x in multiset(s) - multiset(SortDesc(s, key)[..m]) && 0 <= i < m ==> key(x) <= key(SortDesc(s, key)[..m][i])
  {
    PrefixRanked(SortDesc(s, key), s, m, key);
  }

  /** The same for any non-increasing rearrangement `sorted` of `s`. */
  lemma PrefixRanked<T>(sorted: seq<T>, s: seq<T>, m: nat, key: T -> real)
    requires m <= |sorted| && NonIncreasing(sorted, key) && multiset(sorted) == multiset(s)
    ensures multiset(sorted[..m]) <= multiset(s)
    ensures forall x, i :: x in multiset(s) - multiset(sorted[..m]) && 0 <= i < m ==> key(x) <= key(sorted[..m][i])
  {
    var r := sorted[..m];
    assert sorted == r + sorted[m..];
    assert multiset(s) == multiset(r) + multiset(sorted[m..]);
    SuffixNotAbove(sorted, m, key);
    forall x, i | x in multiset(s) - multiset(r) && 0 <= i < m
      ensures key(x) <= key(r[i])
    {
      assert x in multiset(sorted[m..]);
      assert r[i] == sorted[i];
    }
  }

  /** Each tie class of the first `m` is a prefix of that class in `s`. */
  lemma TopStable<T>(s: seq<T>, m: nat, key: T -> real)
    requires m <= |s|
    ensures forall v :: WithKey(SortDesc(s, key)[..m], key, v) <= WithKey(s, key, v)
  {
    forall v
      ensures WithKey(SortDesc(s, key)[..m], key, v) <= WithKey(s, key, v)
    {
      WithKeyOfPrefix(SortDesc(s, key), m, key, v);
    }
  }

  /** Strictly ascending, hence free of duplicates. */
  predicate StrictlyIncreasing(s: seq<int>) {
    forall i, j :: 0 <= i < j < |s| ==> s[i] < s[j]
  }

  /** Adds `x` to an ascending duplicate-free sequence. */
  function InsertUnique(x: int, s: seq<int>): (r: seq<int>)
    requires StrictlyIncreasing(s)
    ensures StrictlyIncreasing(r)
    ensures forall y :: y in r <==> y == x || y in s
  {
    if s == [] || x < s[0] then [x] + s
    else if x == s[0] then s
    else
      var t := InsertUnique(x, s[1..]);
      assert s == [s[0]] + s[1..];
      assert forall j :: 0 <= j < |t| ==> t[j] in t;
      [s[0]] + t
  }

  /** `sorted(set(s))`: the distinct values of `s` in ascending order. */
  function SortedSet(s: seq<int>): (r: seq<int>)
    ensures StrictlyIncreasing(r)
    ensures forall y :: y in r <==> y in s
  {
    if s == [] then []
    else
      assert s == s[..|s| - 1] + [s[|s| - 1]];
      InsertUnique(s[|s| - 1], SortedSet(s[..|s| - 1]))
  }
}
