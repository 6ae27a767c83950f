/** Order-aware facts about sequences: distinctness, first occurrences,
    cross products and filtering. */
module Seqs {

  /** No element occurs twice. */
  predicate Distinct<T(==)>(s: seq<T>) {
    forall i, j :: 0 <= i < j < |s| ==> s[i] != s[j]
  }

  /** Position of the first occurrence of `x` in `s`. */
  function FirstIndex<T(==)>(s: seq<T>, x: T): (i: nat)
    requires x in s
    ensures i < |s| && s[i] == x && x !in s[..i]
  {
    if s[0] == x then 0
    else
      var k := FirstIndex(s[1..], x);
      assert s[..k + 1] == [s[0]] + s[1..][..k];
      k + 1
  }

  /** A position holding `x` with no `x` before it is the first index of `x`. */
  lemma {:induction false} FirstIndexUnique<T>(s: seq<T>, x: T, i: nat)
    requires i < |s| && s[i] == x && x !in s[..i]
    ensures FirstIndex(s, x) == i
  {
    if s[0] != x {
      assert s[1..][..i - 1] == s[..i][1..];
      FirstIndexUnique(s[1..], x, i - 1);
    }
  }

  /** The first occurrence of `x` in a prefix is its first occurrence in the whole. */
  lemma FirstIndexOfPrefix<T>(s: seq<T>, n: nat, x: T)
    requires n <= |s| && x in s[..n]
    ensures FirstIndex(s, x) == FirstIndex(s[..n], x)
  {
    var i := FirstIndex(s[..n], x);
    assert s[..i] == s[..n][..i];
    FirstIndexUnique(s, x, i);
  }

  /** The distinct elements of `s`, each at the place it first occurs: the key
      order of a Python dict filled by a loop over `s`. */
  function FirstSeen<T(==)>(s: seq<T>): (r: seq<T>)
    ensures Distinct(r)
    ensures forall i :: 0 <= i < |r| ==> r[i] in s
    ensures forall i :: 0 <= i < |s| ==> s[i] in r
  {
    if s == [] then []
    else
      var p := s[..|s| - 1];
      var x := s[|s| - 1];
      var q := FirstSeen(p);
      assert s == p + [x];
      assert forall i :: 0 <= i < |p| ==> p[i] in q;
      if x in p then q else q + [x]
  }

  /** `FirstSeen` has the same members as its input. */
  lemma FirstSeenMembers<T>(s: seq<T>, x: T)
    ensures x in FirstSeen(s) <==> x in s
  {
    if x in s {
      var i :| 0 <= i < |s| && s[i] == x;
    }
    if x in FirstSeen(s) {
      var i :| 0 <= i < |FirstSeen(s)| && FirstSeen(s)[i] == x;
    }
  }

  /** `FirstSeen` lists the elements in the order of their first occurrences. */
  lemma {:induction false} FirstSeenOrder<T>(s: seq<T>)
    ensures forall i, j :: 0 <= i < j < |FirstSeen(s)| ==>
      FirstIndex(s, FirstSeen(s)[i]) < FirstIndex(s, FirstSeen(s)[j])
  {
    if s != [] {
      var p := s[..|s| - 1];
      var x := s[|s| - 1];
      var q := FirstSeen(p);
      FirstSeenOrder(p);
      assert s == p + [x];
      forall i | 0 <= i < |q|
        ensures FirstIndex(s, q[i]) == FirstIndex(p, q[i])
      {
        FirstIndexOfPrefix(s, |s| - 1, q[i]);
      }
      if x !in p {
        assert FirstIndex(s, x) == |s| - 1;
      }
    }
  }

  /** Every element of `xs` paired with every element of `ys`, `xs`-major:
      the order of two nested `for` loops. */
  function Cross<A, B>(xs: seq<A>, ys: seq<B>): seq<(A, B)> {
    if xs == [] then []
    else seq(|ys|, j requires 0 <= j < |ys| => (xs[0], ys[j])) + Cross(xs[1..], ys)
  }

  /** A pair is produced exactly when its first part is in `xs` and its
      second in `ys`. */
  lemma {:induction false} CrossContents<A, B>(xs: seq<A>, ys: seq<B>)
    ensures forall a, b :: (a, b) in Cross(xs, ys) ==> a in xs && b in ys
    ensures forall i, j :: 0 <= i < |xs| && 0 <= j < |ys| ==> (xs[i], ys[j]) in Cross(xs, ys)
  {
    if xs != [] {
      var row := seq(|ys|, j requires 0 <= j < |ys| => (xs[0], ys[j]));
      CrossContents(xs[1..], ys);
      assert Cross(xs, ys) == row + Cross(xs[1..], ys);
      forall a, b | (a, b) in Cross(xs, ys)
        ensures a in xs && b in ys
      {
        if (a, b) in row {
          var j :| 0 <= j < |ys| && row[j] == (a, b);
        } else {
          assert a in xs[1..];
        }
      }
      forall i, j | 0 <= i < |xs| && 0 <= j < |ys|
        ensures (xs[i], ys[j]) in Cross(xs, ys)
      {
        if i == 0 {
          assert row[j] == (xs[i], ys[j]);
        } else {
          assert xs[i] == xs[1..][i - 1];
        }
      }
    }
  }

  /** The elements of `s` satisfying `keep`, in their order in `s`. */
  function Filter<T>(s: seq<T>, keep: T -> bool): (r: seq<T>)
    ensures |r| <= |s|
  {
    if s == [] then [] else (if keep(s[0]) then [s[0]] else []) + Filter(s[1..], keep)
  }

  /** Every element kept satisfies `keep` and comes from `s`. */
  lemma {:induction false} FilterSound<T>(s: seq<T>, keep: T -> bool)
    ensures forall i :: 0 <= i < |Filter(s, keep)| ==> keep(Filter(s, keep)[i]) && Filter(s, keep)[i] in s
  {
    if s != [] {
      FilterSound(s[1..], keep);
      var head := if keep(s[0]) then [s[0]] else [];
      var r := Filter(s, keep);
      assert r == head + Filter(s[1..], keep);
      forall i | 0 <= i < |r|
        ensures keep(r[i]) && r[i] in s
      {
        if i >= |head| {
          assert r[i] == Filter(s[1..], keep)[i - |head|];
          assert r[i] in s[1..];
        }
      }
    }
  }

  /** Every element of `s` satisfying `keep` is kept. */
  lemma {:induction false} FilterComplete<T>(s: seq<T>, keep: T -> bool)
    ensures forall i :: 0 <= i < |s| && keep(s[i]) ==> s[i] in Filter(s, keep)
  {
    if s != [] {
      FilterComplete(s[1..], keep);
      var head := if keep(s[0]) then [s[0]] else [];
      assert Filter(s, keep) == head + Filter(s[1..], keep);
      forall i | 0 <= i < |s| && keep(s[i])
        ensures s[i] in Filter(s, keep)
      {
        if i > 0 {
          assert s[i] == s[1..][i - 1];
        }
      }
    }
  }

  /** Filtering keeps each element at most as often as it occurs. */
  lemma {:induction false} FilterSubMultiset<T>(s: seq<T>, keep: T -> bool)
    ensures multiset(Filter(s, keep)) <= multiset(s)
  {
    if s != [] {
      FilterSubMultiset(s[1..], keep);
      assert s == [s[0]] + s[1..];
      assert Filter(s, keep) == (if keep(s[0]) then [s[0]] else []) + Filter(s[1..], keep);
    }
  }

  /** Filtering distributes over concatenation: the kept elements of `a + b`
      are those of `a` followed by those of `b`. */
  lemma {:induction false} FilterAppend<T>(a: seq<T>, b: seq<T>, keep: T -> bool)
    ensures Filter(a + b, keep) == Filter(a, keep) + Filter(b, keep)
  {
    if a == [] {
      assert a + b == b;
    } else {
      var head := if keep(a[0]) then [a[0]] else [];
      FilterAppend(a[1..], b, keep);
      assert (a + b)[0] == a[0] && (a + b)[1..] == a[1..] + b;
      assert Filter(a + b, keep) == head + Filter(a[1..] + b, keep);
      assert Filter(a, keep) == head + Filter(a[1..], keep);
    }
  }

  /** An element satisfying `keep` is kept as often as it occurs in `s`; any
      other element not at all. */
  lemma {:induction false} FilterCount<T>(s: seq<T>, keep: T -> bool)
    ensures forall x :: multiset(Filter(s, keep))[x] == if keep(x) then multiset(s)[x] else 0
  {
    if s != [] {
      FilterCount(s[1..], keep);
      assert s == [s[0]] + s[1..];
      assert Filter(s, keep) == (if keep(s[0]) then [s[0]] else []) + Filter(s[1..], keep);
    }
  }

  /** The last element of `a + b`, for a non-empty `b`, is the last element
      of `b`, and what precedes it is `a` followed by the rest of `b`. */
  lemma JoinLast<T>(a: seq<T>, b: seq<T>)
    requires b != []
    ensures (a + b)[..|a + b| - 1] == a + b[..|b| - 1]
    ensures (a + b)[|a + b| - 1] == b[|b| - 1]
  {
  }

  /** Regrouping a concatenation of three pieces. */
  lemma JoinRegroup<T>(whole: seq<T>, tail: seq<T>, a: seq<T>, b: seq<T>, c: seq<T>)
    requires whole == a + b + c
    requires tail == b + c
    ensures whole == a + tail
  {
  }
}
