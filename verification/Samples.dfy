/** Pure facts about sample windows: the most recent values of a list, sorting,
    interpolated percentiles and averages.  Values are reals. */
module Samples {

  /** The last `n` elements of `s`, or all of it when it is shorter. */
  function Latest(s: seq<real>, n: nat): (r: seq<real>)
    ensures |r| == if |s| <= n then |s| else n
  {
    if |s| <= n then s else s[|s| - n..]
  }

  ghost predicate Sorted(s: seq<real>) {
    forall i, j :: 0 <= i < j < |s| ==> s[i] <= s[j]
  }

  /** `a` lies below `b` position by position. */
  ghost predicate Dominated(a: seq<real>, b: seq<real>) {
    |a| == |b| && forall i :: 0 <= i < |a| ==> a[i] <= b[i]
  }

  function Insert(x: real, s: seq<real>): (r: seq<real>)
    ensures |r| == |s| + 1
  {
    if s == [] || x <= s[0] then [x] + s else [s[0]] + Insert(x, s[1..])
  }

  function Sort(s: seq<real>): (r: seq<real>)
    ensures |r| == |s|
  {
    if s == [] then [] else Insert(s[0], Sort(s[1..]))
  }

  lemma {:induction false} InsertAdds(x: real, s: seq<real>)
    ensures multiset(Insert(x, s)) == multiset(s) + multiset{x}
  {
    if s == [] || x <= s[0] {
    } else {
      InsertAdds(x, s[1..]);
      assert s == [s[0]] + s[1..];
    }
  }

  lemma {:induction false} SortPermutes(s: seq<real>)
    ensures multiset(Sort(s)) == multiset(s)
  {
    if s == [] {
    } else {
      SortPermutes(s[1..]);
      InsertAdds(s[0], Sort(s[1..]));
      assert s == [s[0]] + s[1..];
    }
  }

  lemma {:induction false} InsertKeepsSorted(x: real, s: seq<real>)
    requires Sorted(s)
    ensures Sorted(Insert(x, s))
  {
    if s == [] || x <= s[0] {
    } else {
      var r := Insert(x, s[1..]);
      InsertKeepsSorted(x, s[1..]);
      InsertAdds(x, s[1..]);
      forall i | 0 <= i < |r| ensures s[0] <= r[i] {
        assert r[i] in multiset(r);
        assert r[i] == x || r[i] in s[1..];
      }
    }
  }

  lemma {:induction false} SortSorts(s: seq<real>)
    ensures Sorted(Sort(s))
    ensures forall x :: x in Sort(s) <==> x in s
  {
    if s == [] {
    } else {
      SortSorts(s[1..]);
      InsertKeepsSorted(s[0], Sort(s[1..]));
    }
    SortPermutes(s);
    forall x ensures x in Sort(s) <==> x in s {
      assert x in Sort(s) <==> x in multiset(Sort(s));
      assert x in s <==> x in multiset(s);
    }
  }

  /** Two sorted sequences with the same elements are equal, so whichever
      algorithm a library sort uses, its result is `Sort(s)`. */
  lemma {:induction false} SortedIsUnique(a: seq<real>, b: seq<real>)
    requires Sorted(a) && Sorted(b) && multiset(a) == multiset(b)
    ensures a == b
  {
    SameLength(a, b);
    if a != [] {
      var _ := HeadIsLeast(a, b);
      var _ := HeadIsLeast(b, a);
      TailMultiset(a);
      TailMultiset(b);
      SortedIsUnique(a[1..], b[1..]);
    }
  }

  lemma SameLength(a: seq<real>, b: seq<real>)
    requires multiset(a) == multiset(b)
    ensures |a| == |b|
  {
    assert |a| == |multiset(a)| && |b| == |multiset(b)|;
  }

  /** Exhibits where `b`'s head occurs in `a`. */
  lemma HeadIsLeast(a: seq<real>, b: seq<real>) returns (k: nat)
    requires Sorted(a) && a != [] && b != [] && multiset(a) == multiset(b)
    ensures k < |a| && a[k] == b[0] && a[0] <= b[0]
  {
    assert b[0] in multiset(b);
    assert b[0] in a;
    k :| k < |a| && a[k] == b[0];
  }

  lemma TailMultiset(a: seq<real>)
    requires a != []
    ensures a == [a[0]] + a[1..]
    ensures multiset(a[1..]) == multiset(a) - multiset{a[0]}
  {
  }

  /** Any sorted rearrangement of `s` is `Sort(s)`. */
  lemma LibrarySortAgrees(s: seq<real>, r: seq<real>)
    requires Sorted(r) && multiset(r) == multiset(s)
    ensures r == Sort(s)
  {
    SortSorts(s);
    SortPermutes(s);
    SortedIsUnique(r, Sort(s));
  }

  lemma {:induction false} InsertDominates(x: real, s: seq<real>, y: real, t: seq<real>)
    requires Sorted(s) && Sorted(t) && Dominated(s, t) && x <= y
    ensures Dominated(Insert(x, s), Insert(y, t))
  {
    if s == [] {
    } else if x <= s[0] {
      if y <= t[0] {
      } else {
        // s and x shift right by one while t does not until y is placed
        PrependBelowInsert(x, s, y, t);
      }
    } else if y <= t[0] {
      InsertBelowPrepend(x, s, y, t);
    } else {
      InsertDominates(x, s[1..], y, t[1..]);
      ConsDominates(s[0], Insert(x, s[1..]), t[0], Insert(y, t[1..]));
    }
  }

  lemma ConsDominates(x: real, s: seq<real>, y: real, t: seq<real>)
    requires x <= y && Dominated(s, t)
    ensures Dominated([x] + s, [y] + t)
  {
  }

  lemma {:induction false} PrependBelowInsert(x: real, s: seq<real>, y: real, t: seq<real>)
    requires Sorted(s) && Sorted(t) && Dominated(s, t) && x <= y
    requires s == [] || x <= s[0]
    ensures Dominated([x] + s, Insert(y, t))
    decreases |s|
  {
    if t == [] || y <= t[0] {
    } else {
      PrependBelowInsert(s[0], s[1..], y, t[1..]);
      assert [s[0]] + s[1..] == s;
      ConsDominates(x, s, t[0], Insert(y, t[1..]));
    }
  }

  lemma {:induction false} InsertBelowPrepend(x: real, s: seq<real>, y: real, t: seq<real>)
    requires Sorted(s) && Sorted(t) && Dominated(s, t) && x <= y
    requires t == [] || y <= t[0]
    ensures Dominated(Insert(x, s), [y] + t)
    decreases |s|
  {
    if s == [] || x <= s[0] {
    } else {
      InsertBelowPrepend(x, s[1..], t[0], t[1..]);
      assert [t[0]] + t[1..] == t;
      ConsDominates(s[0], Insert(x, s[1..]), y, t);
    }
  }

  /** Raising samples raises every order statistic. */
  lemma {:induction false} SortDominates(a: seq<real>, b: seq<real>)
    requires Dominated(a, b)
    ensures Dominated(Sort(a), Sort(b))
  {
    if a == [] {
    } else {
      SortDominates(a[1..], b[1..]);
      SortSorts(a[1..]);
      SortSorts(b[1..]);
      InsertDominates(a[0], Sort(a[1..]), b[0], Sort(b[1..]));
    }
  }

  // ----- percentiles -----

  /** The fractional rank of a percentile when the ranks run from zero to `last`. */
  function Rank(last: real, percentile: real): real
    requires 0.0 <= last && 0.0 <= percentile <= 1.0
  {
    percentile * last
  }

  lemma RankWithin(last: real, percentile: real)
    requires 0.0 <= last && 0.0 <= percentile <= 1.0
    ensures 0.0 <= Rank(last, percentile) <= last
  {
    ScaleMonotone(0.0, percentile, last);
    ScaleMonotone(percentile, 1.0, last);
  }

  function Between(a: real, b: real, f: real): real {
    a + (b - a) * f
  }

  function Above(n: nat, lower: nat): nat
    requires n > 0
  {
    if lower + 1 < n - 1 then lower + 1 else n - 1
  }

  /** Straight-line interpolation between the two neighbours of a fractional rank. */
  function AtRank(values: seq<real>, index: real): real
    requires values != [] && 0.0 <= index <= (|values| - 1) as real
  {
    var lower := index.Floor;
    Between(values[lower], values[Above(|values|, lower)], index - lower as real)
  }

  function PercentileFromSorted(values: seq<real>, percentile: real): real
    requires 0.0 <= percentile <= 1.0
  {
    if values == [] then 0.0
    else
      var last := (|values| - 1) as real;
      RankWithin(last, percentile);
      AtRank(values, Rank(last, percentile))
  }

  lemma ScaleBounds(x: real, p: real)
    requires 0.0 <= p <= 1.0 && 0.0 <= x
    ensures 0.0 <= x * p <= x
  {
  }

  lemma ScaleMonotone(p: real, q: real, x: real)
    requires p <= q && 0.0 <= x
    ensures p * x <= q * x
  {
  }

  lemma BetweenBounds(a: real, b: real, f: real)
    requires a <= b && 0.0 <= f <= 1.0
    ensures a <= Between(a, b, f) <= b
  {
    var d := b - a;
    assert 0.0 <= d * f <= d by { ScaleBounds(d, f); }
    assert Between(a, b, f) == a + d * f;
  }

  lemma BetweenRises(a: real, b: real, f: real, g: real)
    requires a <= b && f <= g
    ensures Between(a, b, f) <= Between(a, b, g)
  {
    var d := b - a;
    assert d * f <= d * g by { ScaleMonotone(f, g, d); }
    assert Between(a, b, f) == a + d * f;
    assert Between(a, b, g) == a + d * g;
  }

  lemma BetweenSplit(a: real, b: real, f: real)
    ensures Between(a, b, f) == a * (1.0 - f) + b * f
  {
  }

  lemma BlendMonotone(a: real, b: real, c: real, d: real, f: real, g: real)
    requires a <= c && b <= d && 0.0 <= f && 0.0 <= g
    ensures a * g + b * f <= c * g + d * f
  {
    ScaleMonotone(a, c, g);
    ScaleMonotone(b, d, f);
  }

  lemma BetweenMonotone(a: real, b: real, c: real, d: real, f: real)
    requires a <= c && b <= d && 0.0 <= f <= 1.0
    ensures Between(a, b, f) <= Between(c, d, f)
  {
    var g := 1.0 - f;
    assert Between(a, b, f) == a * g + b * f by { BetweenSplit(a, b, f); }
    assert Between(c, d, f) == c * g + d * f by { BetweenSplit(c, d, f); }
    BlendMonotone(a, b, c, d, f, g);
  }

  lemma AtRankWithin(values: seq<real>, index: real)
    requires values != [] && Sorted(values) && 0.0 <= index <= (|values| - 1) as real
    ensures values[index.Floor] <= AtRank(values, index) <= values[Above(|values|, index.Floor)]
    ensures values[0] <= AtRank(values, index) <= values[|values| - 1]
  {
    var lower := index.Floor;
    BetweenBounds(values[lower], values[Above(|values|, lower)], index - lower as real);
  }

  lemma AtRankMonotone(values: seq<real>, i: real, j: real)
    requires values != [] && Sorted(values) && 0.0 <= i <= j <= (|values| - 1) as real
    ensures AtRank(values, i) <= AtRank(values, j)
  {
    if i.Floor == j.Floor {
      var lower := i.Floor;
      BetweenRises(values[lower], values[Above(|values|, lower)], i - lower as real, j - lower as real);
    } else {
      AtRankWithin(values, i);
      AtRankWithin(values, j);
      assert i.Floor + 1 <= j.Floor;
    }
  }

  lemma RankMonotone(last: real, p: real, q: real)
    requires 0.0 <= last && 0.0 <= p <= q <= 1.0
    ensures Rank(last, p) <= Rank(last, q)
  {
    ScaleMonotone(p, q, last);
  }

  lemma AtRankDominates(s: seq<real>, t: seq<real>, index: real)
    requires s != [] && Dominated(s, t) && 0.0 <= index <= (|s| - 1) as real
    ensures AtRank(s, index) <= AtRank(t, index)
  {
    var lower := index.Floor;
    var upper := Above(|s|, lower);
    BetweenMonotone(s[lower], s[upper], t[lower], t[upper], index - lower as real);
  }

  /** A larger percentile is never a smaller value, across rank boundaries too,
      and every percentile lies between the extremes. */
  lemma PercentileMonotone(values: seq<real>, p: real, q: real)
    requires values != [] && Sorted(values) && 0.0 <= p <= q <= 1.0
    ensures values[0] <= PercentileFromSorted(values, p)
    ensures PercentileFromSorted(values, p) <= PercentileFromSorted(values, q)
    ensures PercentileFromSorted(values, q) <= values[|values| - 1]
  {
    var last := (|values| - 1) as real;
    var i, j := Rank(last, p), Rank(last, q);
    RankWithin(last, p);
    RankWithin(last, q);
    RankMonotone(last, p, q);
    AtRankMonotone(values, i, j);
    AtRankWithin(values, i);
    AtRankWithin(values, j);
  }

  /** At rank `k + f` the percentile is the blend of the neighbouring order statistics in
      proportion to `f`; at both ends of the interval it is the order statistic itself. */
  lemma PercentileInterpolates(values: seq<real>, percentile: real, k: nat, f: real)
    requires k + 1 < |values| && 0.0 <= percentile <= 1.0 && 0.0 <= f <= 1.0
    requires percentile * (|values| - 1) as real == k as real + f
    ensures PercentileFromSorted(values, percentile) == values[k] * (1.0 - f) + values[k + 1] * f
  {
    hide PercentileFromSorted;
    PercentileBlends(values, percentile, k, f);
  }

  lemma PercentileBlends(values: seq<real>, percentile: real, k: nat, f: real)
    requires k + 1 < |values| && 0.0 <= percentile <= 1.0 && 0.0 <= f <= 1.0
    requires Rank((|values| - 1) as real, percentile) == k as real + f
    ensures PercentileFromSorted(values, percentile) == values[k] * (1.0 - f) + values[k + 1] * f
  {
    hide Rank;
    var index := k as real + f;
    if f < 1.0 {
      assert index.Floor == k;
      BetweenSplit(values[k], values[k + 1], f);
    } else {
      assert index.Floor == k + 1;
      assert AtRank(values, index) == Between(values[k + 1], values[Above(|values|, k + 1)], 0.0);
    }
  }

  /** The percentile whose rank is the last one is the largest sample. */
  lemma PercentileAtEnd(values: seq<real>, percentile: real)
    requires values != [] && 0.0 <= percentile <= 1.0
    requires Rank((|values| - 1) as real, percentile) == (|values| - 1) as real
    ensures PercentileFromSorted(values, percentile) == values[|values| - 1]
  {
    hide Rank;
  }

  lemma BlendInHundredths(a: real, b: real, j: nat, value: real)
    requires j < 100 && value == a * (1.0 - j as real / 100.0) + b * (j as real / 100.0)
    ensures 100.0 * value == (100 - j) as real * a + j as real * b
    ensures j == 0 ==> value == a
  {
  }

  /** Raising samples never lowers a percentile. */
  lemma PercentileDominates(a: seq<real>, b: seq<real>, p: real)
    requires Dominated(a, b) && 0.0 <= p <= 1.0
    ensures PercentileFromSorted(Sort(a), p) <= PercentileFromSorted(Sort(b), p)
  {
    if a != [] {
      SortDominates(a, b);
      RankWithin((|a| - 1) as real, p);
      AtRankDominates(Sort(a), Sort(b), Rank((|a| - 1) as real, p));
    }
  }

  /** A percentile of samples that satisfy given bounds satisfies them too. */
  lemma PercentileOfBounded(s: seq<real>, p: real)
    requires s != [] && 0.0 <= p <= 1.0
    ensures exists x, y :: x in s && y in s && x <= PercentileFromSorted(Sort(s), p) <= y
  {
    SortSorts(s);
    var r := Sort(s);
    PercentileMonotone(r, p, p);
    assert r[0] in s && r[|r| - 1] in s;
  }

  // ----- averages -----

  function Sum(s: seq<real>): real {
    if s == [] then 0.0 else Sum(s[..|s| - 1]) + s[|s| - 1]
  }

  lemma SumSnoc(s: seq<real>, x: real)
    ensures Sum(s + [x]) == Sum(s) + x
  {
    assert (s + [x])[..|s|] == s;
  }

  /** The sum without one of the values, wherever it stands. */
  lemma {:induction false} SumWithout(s: seq<real>, k: nat)
    requires k < |s|
    ensures Sum(s) == Sum(s[..k] + s[k + 1..]) + s[k]
  {
    var before, last := s[..|s| - 1], s[|s| - 1];
    if k == |s| - 1 {
      assert s[..k] + s[k + 1..] == before;
    } else {
      SumWithout(before, k);
      assert s[..k] + s[k + 1..] == (before[..k] + before[k + 1..]) + [last];
      SumSnoc(before[..k] + before[k + 1..], last);
    }
  }

  lemma {:induction false} SumIgnoresOrder(s: seq<real>, t: seq<real>)
    requires multiset(s) == multiset(t)
    ensures Sum(s) == Sum(t)
    decreases |s|
  {
    hide Sum;
    SameLength(s, t);
    if s == [] {
      assert t == [];
    } else {
      assert s[0] in multiset(t);
      var k :| 0 <= k < |t| && t[k] == s[0];
      SumWithout(s, 0);
      SumWithout(t, k);
      RemoveOne(s, 0);
      RemoveOne(t, k);
      SumIgnoresOrder(s[..0] + s[1..], t[..k] + t[k + 1..]);
    }
  }

  lemma RemoveOne(s: seq<real>, k: nat)
    requires k < |s|
    ensures multiset(s[..k] + s[k + 1..]) == multiset(s) - multiset{s[k]}
  {
    assert s == s[..k] + [s[k]] + s[k + 1..];
  }

  lemma {:induction false} SumWithin(s: seq<real>, lo: real, hi: real)
    requires forall i :: 0 <= i < |s| ==> lo <= s[i] <= hi
    ensures |s| as real * lo <= Sum(s) <= |s| as real * hi
  {
    if s == [] {
    } else {
      SumWithin(s[..|s| - 1], lo, hi);
    }
  }

  lemma QuotientWithin(x: real, n: real, lo: real, hi: real)
    requires 0.0 < n && n * lo <= x <= n * hi
    ensures lo <= x / n <= hi
  {
    assert (n * lo) / n == lo && (n * hi) / n == hi;
  }

  lemma AverageWithin(s: seq<real>, lo: real, hi: real)
    requires s != [] && forall i :: 0 <= i < |s| ==> lo <= s[i] <= hi
    ensures lo <= Sum(s) / |s| as real <= hi
  {
    SumWithin(s, lo, hi);
    var n := |s| as real;
    QuotientWithin(Sum(s), n, lo, hi);
  }

  lemma QuotientTimes(q: real, x: real, n: real)
    requires n != 0.0 && q == x / n
    ensures q * n == x
  {
  }

  /** The largest element, zero for an empty list. */
  function Largest(s: seq<real>): (m: real)
    ensures s != [] ==> m in s
    ensures forall x :: x in s ==> x <= m
  {
    if s == [] then 0.0
    else
      var m := Largest(s[1..]);
      assert s == [s[0]] + s[1..];
      if |s| == 1 || m < s[0] then s[0] else m
  }
}
