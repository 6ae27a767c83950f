/** The numeric summaries the dashboard computes: sums, extremes, the
    arithmetic mean and numpy's median. Floating point is modelled by exact
    reals. */
module Stats {
  import opened Sorting

  function Sum(s: seq<real>): real {
    if s == [] then 0.0 else Sum(s[..|s| - 1]) + s[|s| - 1]
  }

  function Min(s: seq<real>): (m: real)
    requires |s| > 0
    ensures m in s
    ensures forall i :: 0 <= i < |s| ==> m <= s[i]
  {
    if |s| == 1 then s[0]
    else
      var p := s[..|s| - 1];
      assert s == p + [s[|s| - 1]];
      var m := Min(p);
      if s[|s| - 1] < m then s[|s| - 1] else m
  }

  function Max(s: seq<real>): (m: real)
    requires |s| > 0
    ensures m in s
    ensures forall i :: 0 <= i < |s| ==> s[i] <= m
  {
    if |s| == 1 then s[0]
    else
      var p := s[..|s| - 1];
      assert s == p + [s[|s| - 1]];
      var m := Max(p);
      if s[|s| - 1] > m then s[|s| - 1] else m
  }

  /** A sum of `n` terms lying in `[lo, hi]` lies in `[n * lo, n * hi]`. */
  lemma {:induction false} SumBetween(s: seq<real>, lo: real, hi: real)
    requires forall i :: 0 <= i < |s| ==> lo <= s[i] <= hi
    ensures |s| as real * lo <= Sum(s) <= |s| as real * hi
  {
    if s != [] {
      var p := s[..|s| - 1];
      SumBetween(p, lo, hi);
      assert |s| as real * lo == |p| as real * lo + lo;
      assert |s| as real * hi == |p| as real * hi + hi;
    }
  }

  /** Dividing a total that lies in `[n * lo, n * hi]` by `n`. */
  lemma DivideBetween(total: real, n: real, q: real, lo: real, hi: real)
    requires n > 0.0 && q == total / n && n * lo <= total <= n * hi
    ensures lo <= q <= hi
  {
    DivideThenMultiply(total, n, q);
  }

  /** The arithmetic mean (`sum(ps) / len(ps)`, `np.mean`). */
  function Mean(s: seq<real>): real
    requires |s| > 0
  {
    Sum(s) / |s| as real
  }

  /** The mean lies between the smallest and the largest term. */
  lemma MeanBetween(s: seq<real>)
    requires |s| > 0
    ensures Min(s) <= Mean(s) <= Max(s)
  {
    MeanWithin(s, Min(s), Max(s));
  }

  /** The mean of terms lying in `[lo, hi]` lies in `[lo, hi]`. */
  lemma MeanWithin(s: seq<real>, lo: real, hi: real)
    requires |s| > 0
    requires forall i :: 0 <= i < |s| ==> lo <= s[i] <= hi
    ensures lo <= Mean(s) <= hi
  {
    SumBetween(s, lo, hi);
    DivideBetween(Sum(s), |s| as real, Mean(s), lo, hi);
  }

  /** The mean times the number of terms gives back the sum. */
  lemma MeanTimesCount(s: seq<real>)
    requires |s| > 0
    ensures |s| as real * Mean(s) == Sum(s)
  {
    var n, t, m := |s| as real, Sum(s), Mean(s);
    assert m == t / n;
    DivideThenMultiply(t, n, m);
  }

  lemma DivideThenMultiply(total: real, n: real, q: real)
    requires n > 0.0 && q == total / n
    ensures n * q == total
  {
  }

  /** `int(np.median(counts))`: the middle count once sorted, or the mean of
      the two middle counts truncated toward zero, which for non-negative
      counts is integer division by two. The middle positions of a descending
      sort are those of an ascending one, so the descending stable sort serves. */
  function Median(counts: seq<nat>): (m: int)
    requires |counts| > 0
    ensures exists i :: 0 <= i < |counts| && counts[i] <= m
    ensures exists j :: 0 <= j < |counts| && m <= counts[j]
    ensures |counts| % 2 == 1 ==> m in counts
  {
    var sorted := SortDesc(counts, (c: nat) => c as real);
    var n := |counts|;
    assert forall k :: 0 <= k < n ==> sorted[k] in multiset(counts);
    if n % 2 == 1 then sorted[n / 2]
    else
      var hi, lo := sorted[n / 2 - 1], sorted[n / 2];
      assert hi >= lo;
      (hi + lo) / 2
  }

  /** The median is the middle of the counts arranged in descending order:
      the middle count for an odd number of them, otherwise the mean of the
      two middle counts truncated toward zero. */
  lemma MedianIsMiddle(counts: seq<nat>)
    requires |counts| > 0
    ensures exists sorted: seq<nat> ::
      && |sorted| == |counts| && multiset(sorted) == multiset(counts)
      && (forall i, j :: 0 <= i < j < |sorted| ==> sorted[i] >= sorted[j])
      && Median(counts) == if |counts| % 2 == 1 then sorted[|counts| / 2]
                           else (sorted[|counts| / 2 - 1] + sorted[|counts| / 2]) / 2
  {
    var sorted := SortDesc(counts, (c: nat) => c as real);
    assert forall i, j :: 0 <= i < j < |sorted| ==> sorted[i] >= sorted[j];
  }

  /** The counts as reals, the form numpy averages. */
  function AsReals(counts: seq<nat>): (s: seq<real>)
    ensures |s| == |counts|
    ensures forall i :: 0 <= i < |s| ==> s[i] == counts[i] as real
  {
    seq(|counts|, i requires 0 <= i < |counts| => counts[i] as real)
  }
}
