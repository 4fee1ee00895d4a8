/** The four statistics numpy computes for one region, over mathematical
    reals: arithmetic mean, strict threshold-exceedance count, and the
    linear-interpolation percentile (numpy's default "linear" method,
    definition 7 of Hyndman and Fan, 1996). */
module Statistics {
  import opened Sorting
  import Seqs

  /** Sum of the values, left to right. */
  function Sum(s: seq<real>): real
  {
    if |s| == 0 then 0.0 else s[0] + Sum(s[1..])
  }

  /** Smallest value of a non-empty sequence. */
  function Min(s: seq<real>): (m: real)
    requires |s| > 0
    ensures m in s
    ensures forall i :: 0 <= i < |s| ==> m <= s[i]
  {
    if |s| == 1 then s[0]
    else
      var m := Min(s[1..]);
      if s[0] <= m then s[0] else m
  }

  /** Largest value of a non-empty sequence. */
  function Max(s: seq<real>): (m: real)
    requires |s| > 0
    ensures m in s
    ensures forall i :: 0 <= i < |s| ==> s[i] <= m
  {
    if |s| == 1 then s[0]
    else
      var m := Max(s[1..]);
      if s[0] >= m then s[0] else m
  }

  /** The sum over a concatenation is the sum of the two sums. */
  lemma {:induction false} SumConcat(a: seq<real>, b: seq<real>)
    ensures Sum(a + b) == Sum(a) + Sum(b)
    decreases |a|
  {
    if |a| == 0 {
      assert a + b == b;
    } else {
      assert (a + b)[1..] == a[1..] + b;
      SumConcat(a[1..], b);
    }
  }

  /** The sum does not depend on the order of the values. */
  lemma {:induction false} SumPermutation(a: seq<real>, b: seq<real>)
    requires multiset(a) == multiset(b)
    ensures Sum(a) == Sum(b)
    decreases |a|
  {
    if |a| == 0 {
      assert |b| == |multiset(b)| == 0;
    } else {
      var j := Seqs.Remove(a, b);
      SumPermutation(a[1..], b[..j] + b[j+1..]);
      assert b == b[..j] + [b[j]] + b[j+1..];
      SumConcat(b[..j] + [b[j]], b[j+1..]);
      SumConcat(b[..j], [b[j]]);
      SumConcat(b[..j], b[j+1..]);
    }
  }

  /** Values bounded below by `lo` and above by `hi` have a sum between
      `lo * n` and `hi * n`. */
  lemma {:induction false} SumBounds(s: seq<real>, lo: real, hi: real)
    requires forall i :: 0 <= i < |s| ==> lo <= s[i] <= hi
    ensures lo * (|s| as real) <= Sum(s) <= hi * (|s| as real)
    decreases |s|
  {
    if |s| > 0 {
      SumBounds(s[1..], lo, hi);
      assert lo * (|s| as real) == lo + lo * ((|s| - 1) as real);
      assert hi * (|s| as real) == hi + hi * ((|s| - 1) as real);
    }
  }

  /** Dividing a total bounded by `lo * n` and `hi * n` by `n` lands
      between `lo` and `hi`. */
  lemma QuotientBounds(total: real, n: real, lo: real, hi: real)
    requires n > 0.0
    requires lo * n <= total <= hi * n
    ensures lo <= total / n <= hi
  {
    var q := total / n;
    assert q * n == total;
    assert (q - lo) * n >= 0.0;
    assert (hi - q) * n >= 0.0;
  }

  /** The sum divided by the count lies within any bounds of the values. */
  lemma MeanBetween(s: seq<real>, lo: real, hi: real)
    requires |s| > 0
    requires forall i :: 0 <= i < |s| ==> lo <= s[i] <= hi
    ensures lo <= Sum(s) / (|s| as real) <= hi
  {
    SumBounds(s, lo, hi);
    QuotientBounds(Sum(s), |s| as real, lo, hi);
  }

  /** Arithmetic mean (numpy's `mean`): the sum divided by the count,
      which lies between the smallest and the largest value. */
  function Mean(s: seq<real>): (m: real)
    requires |s| > 0
    ensures Min(s) <= m <= Max(s)
  {
    MeanBetween(s, Min(s), Max(s));
    Sum(s) / (|s| as real)
  }

  /** The mean does not depend on the order of the values. */
  lemma MeanPermutation(a: seq<real>, b: seq<real>)
    requires |a| > 0
    requires multiset(a) == multiset(b)
    ensures |b| > 0 && Mean(a) == Mean(b)
  {
    assert |a| == |multiset(a)| == |multiset(b)| == |b|;
    SumPermutation(a, b);
  }

  /** A mean of copies of one value is that value. */
  lemma MeanOfConstant(s: seq<real>, c: real)
    requires |s| > 0
    requires forall i :: 0 <= i < |s| ==> s[i] == c
    ensures Mean(s) == c
  {
    assert Min(s) == c && Max(s) == c;
  }

  /** Number of values strictly greater than `t`: a value equal to `t`
      is not counted. */
  function CountAbove(s: seq<real>, t: real): (c: nat)
    ensures c <= |s|
    ensures c == |s| <==> forall i :: 0 <= i < |s| ==> s[i] > t
    ensures c == 0 <==> forall i :: 0 <= i < |s| ==> s[i] <= t
  {
    if |s| == 0 then 0
    else CountAbove(s[..|s| - 1], t) + (if s[|s| - 1] > t then 1 else 0)
  }

  /** Positions holding a value strictly greater than `t`. */
  function AboveIndices(s: seq<real>, t: real): set<int>
  {
    set i | 0 <= i < |s| && s[i] > t
  }

  /** The recursive count agrees with counting the positions that exceed. */
  lemma {:induction false} CountAboveIsIndexCount(s: seq<real>, t: real)
    ensures CountAbove(s, t) == |AboveIndices(s, t)|
    decreases |s|
  {
    if |s| > 0 {
      var n := |s| - 1;
      CountAboveIsIndexCount(s[..n], t);
      if s[n] > t {
        assert AboveIndices(s, t) == AboveIndices(s[..n], t) + {n};
      } else {
        assert AboveIndices(s, t) == AboveIndices(s[..n], t);
      }
    }
  }

  /** The count over a concatenation is the sum of the two counts. */
  lemma {:induction false} CountAboveConcat(a: seq<real>, b: seq<real>, t: real)
    ensures CountAbove(a + b, t) == CountAbove(a, t) + CountAbove(b, t)
    decreases |b|
  {
    if |b| == 0 {
      assert a + b == a;
    } else {
      var n := |b| - 1;
      assert (a + b)[..|a + b| - 1] == a + b[..n];
      CountAboveConcat(a, b[..n], t);
    }
  }

  /** The count does not depend on the order of the values. */
  lemma {:induction false} CountAbovePermutation(a: seq<real>, b: seq<real>, t: real)
    requires multiset(a) == multiset(b)
    ensures CountAbove(a, t) == CountAbove(b, t)
    decreases |a|
  {
    if |a| == 0 {
      assert |b| == |multiset(b)| == 0;
    } else {
      var j := Seqs.Remove(a, b);
      CountAbovePermutation(a[1..], b[..j] + b[j+1..], t);
      assert a == [a[0]] + a[1..];
      CountAboveConcat([a[0]], a[1..], t);
      assert b == b[..j] + [b[j]] + b[j+1..];
      CountAboveConcat(b[..j] + [b[j]], b[j+1..], t);
      CountAboveConcat(b[..j], [b[j]], t);
      CountAboveConcat(b[..j], b[j+1..], t);
    }
  }

  /** Raising the threshold never increases the count. */
  lemma {:induction false} CountAboveAntitone(s: seq<real>, t1: real, t2: real)
    requires t1 <= t2
    ensures CountAbove(s, t2) <= CountAbove(s, t1)
    decreases |s|
  {
    if |s| > 0 {
      CountAboveAntitone(s[..|s| - 1], t1, t2);
    }
  }

  /** The rank `h = p/100 * (n - 1)` scaled by 100, an integer. */
  function ScaledRank(n: nat, p: nat): (m: nat)
    requires 0 < n && p <= 100
    ensures m <= 100 * (n - 1)
    ensures (m as real) == (p as real) * ((n - 1) as real)
  {
    ProductFacts(p, n - 1);
    p * (n - 1)
  }

  /** Bounds and the real-valued form of the product `p * k`. */
  lemma {:induction false} ProductFacts(p: nat, k: nat)
    requires p <= 100
    ensures p * k <= 100 * k
    ensures ((p * k) as real) == (p as real) * (k as real)
    decreases k
  {
    if k > 0 {
      ProductFacts(p, k - 1);
      assert p * k == p * (k - 1) + p;
      assert (p as real) * (k as real) == (p as real) * ((k - 1) as real) + (p as real);
    }
  }

  /** Integer part of the rank at which numpy's linear method reads the
      sorted values. */
  function RankFloor(n: nat, p: nat): (k: nat)
    requires 0 < n && p <= 100
    ensures k < n
  {
    ScaledRank(n, p) / 100
  }

  /** Fractional part of the same rank: the weight given to the upper
      bracketing value. Together with `RankFloor` it makes up the rank. */
  function RankFraction(n: nat, p: nat): (g: real)
    requires 0 < n && p <= 100
    ensures 0.0 <= g < 1.0
    ensures (RankFloor(n, p) as real) + g == (p as real) * ((n - 1) as real) / 100.0
  {
    var m := ScaledRank(n, p);
    var k := RankFloor(n, p);
    assert m == k * 100 + m % 100;
    assert (m as real) == (k as real) * 100.0 + ((m % 100) as real);
    (m % 100) as real / 100.0
  }

  /** A point a fraction `g` of the way from `a` to `b` lies between them. */
  lemma LerpBounds(a: real, b: real, g: real)
    requires 0.0 <= g < 1.0
    ensures a <= b ==> a <= a + g * (b - a) <= b
  {
    if a <= b {
      var d := b - a;
      assert 0.0 <= g * d;
      var h := 1.0 - g;
      assert 0.0 <= h * d;
      assert h * d == d - g * d;
    }
  }

  /** Linear interpolation between the two order statistics that bracket
      the rank; at the top of the range numpy clips both to the last value. */
  function Interpolate(s: seq<real>, p: nat): (r: real)
    requires |s| > 0 && p <= 100
    ensures Sorted(s) ==> s[0] <= r <= s[|s| - 1]
    ensures Sorted(s) ==> s[RankFloor(|s|, p)] <= r
    ensures Sorted(s) && RankFloor(|s|, p) + 1 < |s| ==> r <= s[RankFloor(|s|, p) + 1]
    ensures RankFraction(|s|, p) == 0.0 ==> r == s[RankFloor(|s|, p)]
    ensures RankFloor(|s|, p) == |s| - 1 ==> r == s[|s| - 1]
  {
    var n := |s|;
    var k := RankFloor(n, p);
    var g := RankFraction(n, p);
    assert Sorted(s) ==> s[0] <= s[k] && s[k] <= s[n - 1];
    if k + 1 < n then
      assert Sorted(s) ==> s[k] <= s[k + 1] && s[k + 1] <= s[n - 1];
      LerpBounds(s[k], s[k + 1], g);
      s[k] + g * (s[k + 1] - s[k])
    else s[k]
  }

  /** The first and last sorted values are the extremes. */
  lemma SortedEnds(xs: seq<real>)
    requires |xs| > 0
    ensures |Sort(xs)| == |xs|
    ensures Sort(xs)[0] == Min(xs) && Sort(xs)[|xs| - 1] == Max(xs)
  {
    ArrangementEnds(Sort(xs), xs);
  }

  /** The same for any sorted arrangement of the values. */
  lemma ArrangementEnds(s: seq<real>, xs: seq<real>)
    requires |xs| > 0
    requires Sorted(s) && multiset(s) == multiset(xs)
    ensures |s| == |xs|
    ensures s[0] == Min(xs) && s[|s| - 1] == Max(xs)
  {
    assert |s| == |multiset(s)| == |multiset(xs)| == |xs|;
    var n := |s| - 1;
    assert s[0] in multiset(xs) && s[n] in multiset(xs);
    assert Min(xs) in multiset(s) && Max(xs) in multiset(s);
    var j :| 0 <= j < |s| && s[j] == Min(xs);
    var j' :| 0 <= j' < |s| && s[j'] == Max(xs);
    assert s[0] <= s[j] && s[j'] <= s[n];
  }

  /** `p`-th percentile of unsorted values, as numpy's `percentile` with
      its default linear method: sort ascending, then interpolate. */
  function Percentile(xs: seq<real>, p: nat): (r: real)
    requires |xs| > 0 && p <= 100
    ensures Min(xs) <= r <= Max(xs)
    ensures |xs| == 1 ==> r == xs[0]
  {
    SortedEnds(xs);
    Interpolate(Sort(xs), p)
  }

  /** The percentile does not depend on the order of the values. */
  lemma PercentilePermutation(a: seq<real>, b: seq<real>, p: nat)
    requires |a| > 0 && p <= 100
    requires multiset(a) == multiset(b)
    ensures |b| > 0 && Percentile(a, p) == Percentile(b, p)
  {
    assert |a| == |multiset(a)| == |multiset(b)| == |b|;
    SortPermutation(a, b);
  }

  /** The 0th and 100th percentiles are the extremes. */
  lemma PercentileExtremes(xs: seq<real>)
    requires |xs| > 0
    ensures Percentile(xs, 0) == Min(xs)
    ensures Percentile(xs, 100) == Max(xs)
  {
    SortedEnds(xs);
    assert RankFloor(|xs|, 0) == 0;
    assert RankFloor(|xs|, 100) == |xs| - 1;
  }

  /** On sorted values 10, 20, 30, 40 the rank is 0.95 * 3 = 2.85, so
      the interpolation lies 85% of the way from 30 to 40. */
  lemma Interpolate95Example()
    ensures Interpolate([10.0, 20.0, 30.0, 40.0], 95) == 38.5
  {
    var xs := [10.0, 20.0, 30.0, 40.0];
    var k := RankFloor(4, 95);
    assert k == 2;
    var g := RankFraction(4, 95);
    assert g == 0.85;
    assert xs[k] == 30.0 && xs[k + 1] == 40.0;
    assert Interpolate(xs, 95) == xs[k] + g * (xs[k + 1] - xs[k]);
  }

  /** The 95th percentile of 10, 20, 30, 40 is 38.5, not the 30 or 40 a
      nearest-rank rule would give. */
  lemma Percentile95Example()
    ensures Percentile([10.0, 20.0, 30.0, 40.0], 95) == 38.5
  {
    var xs := [10.0, 20.0, 30.0, 40.0];
    assert Sorted(xs);
    SortIdentity(xs);
    Interpolate95Example();
  }
}
