/** Python's insertion-ordered dictionaries (`dict`, `Counter`,
    `defaultdict(list)`) as association lists whose key order is the order in
    which keys were first inserted. */
module Tables {
  import opened Seqs

  /** Entries in insertion order; the tables built here never repeat a key. */
  type Table<K, V> = seq<(K, V)>

  /** The keys, in table order. */
  function Keys<K, V>(t: Table<K, V>): seq<K> {
    seq(|t|, i requires 0 <= i < |t| => t[i].0)
  }

  /** `t[k]`: the value stored under `k`. */
  function Lookup<K(==), V>(t: Table<K, V>, k: K): (v: V)
    requires k in Keys(t)
    ensures (k, v) in t
  {
    if t[0].0 == k then t[0].1
    else
      assert Keys(t[1..]) == Keys(t)[1..];
      Lookup(t[1..], k)
  }

  /** With distinct keys, looking up an entry's key gives that entry's value. */
  lemma LookupAt<K, V>(t: Table<K, V>, i: nat)
    requires Distinct(Keys(t)) && i < |t|
    ensures t[i].0 in Keys(t) && Lookup(t, t[i].0) == t[i].1
  {
    assert Keys(t)[i] == t[i].0;
    var v := Lookup(t, t[i].0);
    var j :| 0 <= j < |t| && t[j] == (t[i].0, v);
    assert Keys(t)[j] == t[i].0;
  }

  /** Sum of the values of a counting table. */
  function ValueSum<K>(t: Table<K, nat>): nat {
    if t == [] then 0 else ValueSum(t[..|t| - 1]) + t[|t| - 1].1
  }

  /** One `Counter` update: add one to the count of `k`, inserting it last
      with count one if it is new. */
  function Bump<K(==)>(t: Table<K, nat>, k: K): Table<K, nat> {
    if k in Keys(t) then
      seq(|t|, i requires 0 <= i < |t| => if t[i].0 == k then (k, t[i].1 + 1) else t[i])
    else t + [(k, 1)]
  }

  /** `Counter(s)`: every distinct element of `s` with its number of
      occurrences, keyed in first-seen order. */
  function Tally<K(==)>(s: seq<K>): (t: Table<K, nat>)
    ensures Keys(t) == FirstSeen(s)
    ensures forall i :: 0 <= i < |t| ==> t[i].1 == multiset(s)[t[i].0]
  {
    if s == [] then []
    else
      var p := s[..|s| - 1];
      var x := s[|s| - 1];
      assert s == p + [x];
      BumpCounts(Tally(p), p, x);
      Bump(Tally(p), x)
  }

  /** Bumping the counter of `p` by `x` gives the counter of `p + [x]`. */
  lemma BumpCounts<K>(t: Table<K, nat>, p: seq<K>, x: K)
    requires Keys(t) == FirstSeen(p)
    requires forall i :: 0 <= i < |t| ==> t[i].1 == multiset(p)[t[i].0]
    ensures Keys(Bump(t, x)) == FirstSeen(p + [x])
    ensures forall i :: 0 <= i < |Bump(t, x)| ==> Bump(t, x)[i].1 == multiset(p + [x])[Bump(t, x)[i].0]
  {
    var s := p + [x];
    assert s[..|s| - 1] == p;
    FirstSeenMembers(p, x);
    if x in Keys(t) {
      BumpSeen(t, p, x);
    } else {
      BumpUnseen(t, p, x);
    }
  }

  /** A key already counted keeps its place and gains one. */
  lemma BumpSeen<K>(t: Table<K, nat>, p: seq<K>, x: K)
    requires x in Keys(t)
    requires forall i :: 0 <= i < |t| ==> t[i].1 == multiset(p)[t[i].0]
    ensures Keys(Bump(t, x)) == Keys(t)
    ensures forall i :: 0 <= i < |Bump(t, x)| ==> Bump(t, x)[i].1 == multiset(p + [x])[Bump(t, x)[i].0]
  {
    var r := Bump(t, x);
    forall i | 0 <= i < |r|
      ensures r[i].1 == multiset(p + [x])[r[i].0]
    {
      assert r[i].0 == t[i].0;
    }
  }

  /** A new key goes last with count one; the others are untouched. */
  lemma BumpUnseen<K>(t: Table<K, nat>, p: seq<K>, x: K)
    requires x !in Keys(t)
    requires forall i :: 0 <= i < |t| ==> t[i].1 == multiset(p)[t[i].0]
    requires x !in p
    ensures Keys(Bump(t, x)) == Keys(t) + [x]
    ensures forall i :: 0 <= i < |Bump(t, x)| ==> Bump(t, x)[i].1 == multiset(p + [x])[Bump(t, x)[i].0]
  {
    var r := Bump(t, x);
    forall i | 0 <= i < |r|
      ensures r[i].1 == multiset(p + [x])[r[i].0]
    {
      if i < |t| {
        assert r[i] == t[i];
        assert t[i].0 != x by {
          assert Keys(t)[i] == t[i].0;
        }
      }
    }
  }

  /** The values paired with `k`, in order. */
  function ValuesAt<K(==), V>(ps: seq<(K, V)>, k: K): (vs: seq<V>)
    ensures |vs| == multiset(Keys(ps))[k]
    ensures |vs| > 0 <==> k in Keys(ps)
  {
    if ps == [] then []
    else
      var p := ps[..|ps| - 1];
      assert Keys(ps) == Keys(p) + [ps[|ps| - 1].0];
      ValuesAt(p, k) + (if ps[|ps| - 1].0 == k then [ps[|ps| - 1].1] else [])
  }

  /** A value is listed under `k` exactly when the pair `(k, v)` occurs. */
  lemma {:induction false} ValuesAtContents<K, V>(ps: seq<(K, V)>, k: K)
    ensures forall v :: v in ValuesAt(ps, k) <==> (k, v) in ps
  {
    if ps != [] {
      var p := ps[..|ps| - 1];
      ValuesAtContents(p, k);
      assert ps == p + [ps[|ps| - 1]];
    }
  }

  /** Each value is listed under `k` as often as the pair `(k, v)` occurs. */
  lemma {:induction false} ValuesAtCount<K, V>(ps: seq<(K, V)>, k: K)
    ensures forall v :: multiset(ValuesAt(ps, k))[v] == multiset(ps)[(k, v)]
  {
    if ps != [] {
      var p := ps[..|ps| - 1];
      var x := ps[|ps| - 1];
      ValuesAtCount(p, k);
      assert ps == p + [x];
      assert ValuesAt(ps, k) == ValuesAt(p, k) + (if x.0 == k then [x.1] else []);
    }
  }

  /** One `defaultdict(list)` update: `g[k].append(v)`. */
  function Append<K(==), V>(g: Table<K, seq<V>>, k: K, v: V): Table<K, seq<V>> {
    if k in Keys(g) then
      seq(|g|, i requires 0 <= i < |g| => if g[i].0 == k then (k, g[i].1 + [v]) else g[i])
    else g + [(k, [v])]
  }

  /** A `defaultdict(list)` filled from `ps` in order: each key with the list
      of its values, keyed in first-seen order. */
  function Group<K(==), V>(ps: seq<(K, V)>): (g: Table<K, seq<V>>)
    ensures Keys(g) == FirstSeen(Keys(ps))
    ensures forall i :: 0 <= i < |g| ==> g[i].1 == ValuesAt(ps, g[i].0)
    ensures forall i :: 0 <= i < |g| ==> |g[i].1| > 0
  {
    if ps == [] then []
    else
      var p := ps[..|ps| - 1];
      var x := ps[|ps| - 1];
      assert ps == p + [x];
      AppendValues(Group(p), p, x);
      var g := Append(Group(p), x.0, x.1);
      assert forall i :: 0 <= i < |g| ==> g[i].0 in Keys(ps) by {
        forall i | 0 <= i < |g|
          ensures g[i].0 in Keys(ps)
        {
          assert Keys(g)[i] == g[i].0;
        }
      }
      g
  }

  /** Appending the last pair to the grouping of `p` gives the grouping of `p + [x]`. */
  lemma AppendValues<K, V>(g: Table<K, seq<V>>, p: seq<(K, V)>, x: (K, V))
    requires Keys(g) == FirstSeen(Keys(p))
    requires forall i :: 0 <= i < |g| ==> g[i].1 == ValuesAt(p, g[i].0)
    ensures Keys(Append(g, x.0, x.1)) == FirstSeen(Keys(p + [x]))
    ensures forall i :: 0 <= i < |Append(g, x.0, x.1)| ==>
      Append(g, x.0, x.1)[i].1 == ValuesAt(p + [x], Append(g, x.0, x.1)[i].0)
  {
    var ps := p + [x];
    assert ps[..|ps| - 1] == p;
    assert Keys(ps) == Keys(p) + [x.0];
    assert x.0 in Keys(g) <==> x.0 in Keys(p);
    forall k
      ensures ValuesAt(ps, k) == ValuesAt(p, k) + (if x.0 == k then [x.1] else [])
    {
    }
    if x.0 in Keys(g) {
      AppendExisting(g, p, x);
    } else {
      AppendNew(g, p, x);
    }
  }

  lemma AppendExisting<K, V>(g: Table<K, seq<V>>, p: seq<(K, V)>, x: (K, V))
    requires x.0 in Keys(g)
    requires forall i :: 0 <= i < |g| ==> g[i].1 == ValuesAt(p, g[i].0)
    requires forall k :: ValuesAt(p + [x], k) == ValuesAt(p, k) + (if x.0 == k then [x.1] else [])
    ensures Keys(Append(g, x.0, x.1)) == Keys(g)
    ensures forall i :: 0 <= i < |Append(g, x.0, x.1)| ==>
      Append(g, x.0, x.1)[i].1 == ValuesAt(p + [x], Append(g, x.0, x.1)[i].0)
  {
    var r := Append(g, x.0, x.1);
    forall i | 0 <= i < |r|
      ensures r[i].1 == ValuesAt(p + [x], r[i].0)
    {
      assert r[i].0 == g[i].0;
    }
  }

  lemma AppendNew<K, V>(g: Table<K, seq<V>>, p: seq<(K, V)>, x: (K, V))
    requires x.0 !in Keys(g) && x.0 !in Keys(p)
    requires forall i :: 0 <= i < |g| ==> g[i].1 == ValuesAt(p, g[i].0)
    requires forall k :: ValuesAt(p + [x], k) == ValuesAt(p, k) + (if x.0 == k then [x.1] else [])
    ensures Keys(Append(g, x.0, x.1)) == Keys(g) + [x.0]
    ensures forall i :: 0 <= i < |Append(g, x.0, x.1)| ==>
      Append(g, x.0, x.1)[i].1 == ValuesAt(p + [x], Append(g, x.0, x.1)[i].0)
  {
    var r := Append(g, x.0, x.1);
    forall i | 0 <= i < |r|
      ensures r[i].1 == ValuesAt(p + [x], r[i].0)
    {
      if i < |g| {
        assert Keys(g)[i] == g[i].0;
      } else {
        assert |ValuesAt(p, x.0)| == 0;
      }
    }
  }

  /** Sum of the multiplicities in `s` of the keys `ks`. */
  function CountSum<K(==)>(ks: seq<K>, s: seq<K>): nat {
    if ks == [] then 0 else CountSum(ks[..|ks| - 1], s) + multiset(s)[ks[|ks| - 1]]
  }

  lemma {:induction false} CountSumSnoc<K>(ks: seq<K>, s: seq<K>, x: K)
    ensures CountSum(ks, s + [x]) == CountSum(ks, s) + multiset(ks)[x]
  {
    if ks != [] {
      var p := ks[..|ks| - 1];
      CountSumSnoc(p, s, x);
      assert ks == p + [ks[|ks| - 1]];
    }
  }

  /** A key occurs once in a duplicate-free sequence that holds it. */
  lemma {:induction false} DistinctOnce<K>(ks: seq<K>, x: K)
    requires Distinct(ks) && x in ks
    ensures multiset(ks)[x] == 1
  {
    var p := ks[..|ks| - 1];
    assert ks == p + [ks[|ks| - 1]];
    if ks[|ks| - 1] == x {
      assert x !in p;
    } else {
      DistinctOnce(p, x);
    }
  }

  /** Counting `s` under duplicate-free keys that cover it accounts for every element once. */
  lemma {:induction false} CountSumCovers<K>(ks: seq<K>, s: seq<K>)
    requires Distinct(ks)
    requires forall i :: 0 <= i < |s| ==> s[i] in ks
    ensures CountSum(ks, s) == |s|
  {
    if s == [] {
      CountSumEmpty(ks);
    } else {
      var p := s[..|s| - 1];
      var x := s[|s| - 1];
      assert s == p + [x];
      CountSumCovers(ks, p);
      CountSumSnoc(ks, p, x);
      DistinctOnce(ks, x);
    }
  }

  lemma {:induction false} CountSumEmpty<K>(ks: seq<K>)
    ensures CountSum(ks, []) == 0
  {
    if ks != [] {
      CountSumEmpty(ks[..|ks| - 1]);
    }
  }

  /** A table holding the count of each of its keys in `s`, with keys that are
      distinct and cover `s`, has counts summing to the length of `s`. */
  lemma {:induction false} CountsConserved<K>(t: Table<K, nat>, s: seq<K>)
    requires Distinct(Keys(t))
    requires forall i :: 0 <= i < |s| ==> s[i] in Keys(t)
    requires forall i :: 0 <= i < |t| ==> t[i].1 == multiset(s)[t[i].0]
    ensures ValueSum(t) == |s|
  {
    ValueSumIsCountSum(t, s);
    CountSumCovers(Keys(t), s);
  }

  lemma {:induction false} ValueSumIsCountSum<K>(t: Table<K, nat>, s: seq<K>)
    requires forall i :: 0 <= i < |t| ==> t[i].1 == multiset(s)[t[i].0]
    ensures ValueSum(t) == CountSum(Keys(t), s)
  {
    if t != [] {
      var p := t[..|t| - 1];
      ValueSumIsCountSum(p, s);
      assert Keys(t)[..|t| - 1] == Keys(p);
    }
  }

  /** Conservation for `Counter`: the counts add up to the number of elements counted. */
  lemma TallyConserves<K>(s: seq<K>)
    ensures ValueSum(Tally(s)) == |s|
  {
    var t := Tally(s);
    CountsConserved(t, s);
  }

  /** A sub-multiset of a sequence without repetitions has none either. */
  lemma SubMultisetDistinct<T>(r: seq<T>, s: seq<T>)
    requires Distinct(s) && multiset(r) <= multiset(s)
    ensures Distinct(r)
  {
    forall i, j | 0 <= i < j < |r|
      ensures r[i] != r[j]
    {
      if r[i] == r[j] {
        assert r == r[..j] + [r[j]] + r[j + 1..];
        assert r[i] in r[..j];
        assert multiset(r)[r[i]] >= 2;
        DistinctOnce(s, r[i]);
      }
    }
  }

  /** A sub-multiset as large as its container is the container. */
  lemma SameSizeSubMultiset<T>(a: multiset<T>, b: multiset<T>)
    requires a <= b && |a| >= |b|
    ensures a == b
  {
    var d := b - a;
    assert b == a + d;
    assert |d| == 0;
  }

  /** Entries drawn without repetition from a table with distinct keys have
      distinct keys. */
  lemma SubTableDistinctKeys<K, V>(r: Table<K, V>, t: Table<K, V>)
    requires Distinct(Keys(t)) && multiset(r) <= multiset(t)
    ensures Distinct(Keys(r))
  {
    assert Distinct(t) by {
      forall i, j | 0 <= i < j < |t|
        ensures t[i] != t[j]
      {
        assert Keys(t)[i] != Keys(t)[j];
      }
    }
    SubMultisetDistinct(r, t);
    forall i, j | 0 <= i < j < |r|
      ensures Keys(r)[i] != Keys(r)[j]
    {
      assert r[i] in multiset(r) && r[j] in multiset(r);
      var a :| 0 <= a < |t| && t[a] == r[i];
      var b :| 0 <= b < |t| && t[b] == r[j];
      assert Keys(t)[a] == r[i].0 && Keys(t)[b] == r[j].0;
    }
  }

  /** An entry of `t` whose key is not among `r`'s keys is not in `r`. */
  lemma LeftOut<K, V>(r: Table<K, V>, t: Table<K, V>, a: nat)
    requires a < |t| && t[a].0 !in Keys(r)
    ensures t[a] in multiset(t) - multiset(r)
  {
    if t[a] in multiset(r) {
      var b :| 0 <= b < |r| && r[b] == t[a];
      assert Keys(r)[b] == t[a].0;
    }
  }

  /** Entries drawn from `t`, as many as `t` has, cover every key of `t`. */
  lemma SubTableAll<K, V>(r: Table<K, V>, t: Table<K, V>)
    requires multiset(r) <= multiset(t) && |r| >= |t|
    ensures forall a :: 0 <= a < |t| ==> t[a].0 in Keys(r)
  {
    SameSizeSubMultiset(multiset(r), multiset(t));
    forall a | 0 <= a < |t|
      ensures t[a].0 in Keys(r)
    {
      assert t[a] in multiset(r);
      var i :| 0 <= i < |r| && r[i] == t[a];
      assert Keys(r)[i] == t[a].0;
    }
  }
}
