/** The order statistics every verdict is built on: the median and the inclusive
    quartiles, over exact reals. */
module Stats {
  import opened Order

  predicate RealLe(a: real, b: real) { a <= b }

  function SortReals(values: seq<real>): (r: seq<real>)
    ensures |r| == |values|
  {
    SortPermutes(values, RealLe);
    Sort(values, RealLe)
  }

  /** Named so that equal factors give equal products without nonlinear reasoning. */
  function Times(c: real, v: real): real { c * v }

  function Scaled(values: seq<real>, c: real): (r: seq<real>)
    ensures |r| == |values|
    ensures forall i :: 0 <= i < |values| ==> r[i] == Times(c, values[i])
  {
    Map((v: real) => Times(c, v), values)
  }

  lemma ScaledCons(v: real, rest: seq<real>, c: real)
    ensures Scaled([v] + rest, c) == [Times(c, v)] + Scaled(rest, c)
  {
    hide Times;
  }

  /** `statistics.median`. */
  function Median(values: seq<real>): real
    requires values != []
  {
    var s := SortReals(values);
    var m := |s| / 2;
    if |s| % 2 == 1 then s[m] else (s[m - 1] + s[m]) / 2.0
  }

  /** Quarter-step interpolation between two neighbouring samples. */
  function Cut(a: real, b: real, w: real): real { (a * (4.0 - w) + b * w) / 4.0 }

  /** Cut point `i` of `statistics.quantiles(values, n=4, method="inclusive")`. */
  function Quartile(values: seq<real>, i: nat): real
    requires |values| >= 2 && 1 <= i <= 3
  {
    var s := SortReals(values);
    var at := i * (|s| - 1);
    Cut(s[at / 4], s[at / 4 + 1], (at % 4) as real)
  }

  lemma RealsOrdered()
    ensures TotalPreorder(RealLe) && Antisymmetric(RealLe)
  {}

  lemma SortRealsFacts(values: seq<real>)
    ensures Sorted(SortReals(values), RealLe)
    ensures multiset(SortReals(values)) == multiset(values)
    ensures forall x :: x in SortReals(values) <==> x in values
  {
    RealsOrdered();
    SortPermutes(values, RealLe);
    SortIsSorted(values, RealLe);
    MembersAgree(SortReals(values), values);
  }

  /** A list already in order is left as it is. */
  lemma SortedAlready(s: seq<real>)
    requires forall i, j :: 0 <= i < j < |s| ==> s[i] <= s[j]
    ensures SortReals(s) == s
  {
    SortRealsFacts(s);
    RealsOrdered();
    SortedIsUnique(SortReals(s), s, RealLe);
  }

  lemma CutTimes(a: real, b: real, w: nat)
    requires w <= 4
    ensures 4.0 * Cut(a, b, w as real) == a * (4 - w) as real + b * w as real
    ensures Cut(a, b, 0.0) == a && Cut(a, b, 2.0) == (a + b) / 2.0
  {}

  lemma QuarterPoint(i: nat, m: nat, k: nat, w: nat)
    requires 1 <= i <= 3 && m >= 1 && i * m == 4 * k + w && w < 4
    ensures k < m && i * m / 4 == k && i * m % 4 == w
  {}

  /** The order statistics, read off any arrangement of the samples in ascending order: the
      median is the middle sample, or halfway between the middle two. */
  lemma MedianOf(values: seq<real>, s: seq<real>)
    requires values != [] && multiset(s) == multiset(values)
    requires forall i, j :: 0 <= i < j < |s| ==> s[i] <= s[j]
    ensures |s| == |values|
    ensures |s| % 2 == 1 ==> Median(values) == s[(|s| - 1) / 2]
    ensures |s| % 2 == 0 ==> 2.0 * Median(values) == s[|s| / 2 - 1] + s[|s| / 2]
  {
    hide SortReals;
    StatisticsIgnoreOrder(values, s);
    SortedAlready(s);
  }

  /** A quartile lies `w` quarter steps from one sample to the next, the `n - 1` steps of the
      whole range being cut in four. */
  lemma QuartileOf(values: seq<real>, s: seq<real>, i: nat, k: nat, w: nat)
    requires |s| >= 2 && multiset(s) == multiset(values)
    requires forall i, j :: 0 <= i < j < |s| ==> s[i] <= s[j]
    requires 1 <= i <= 3 && i * (|s| - 1) == 4 * k + w && w < 4
    ensures |s| == |values| && k + 1 < |s|
    ensures 4.0 * Quartile(values, i) == s[k] * (4 - w) as real + s[k + 1] * w as real
  {
    hide SortReals, Cut;
    StatisticsIgnoreOrder(values, s);
    SortedAlready(s);
    QuarterPoint(i, |s| - 1, k, w);
    CutTimes(s[k], s[k + 1], w);
  }

  /** The second quartile is the median. */
  lemma SecondQuartile(values: seq<real>)
    requires |values| >= 2
    ensures Quartile(values, 2) == Median(values)
  {
    hide SortReals, Cut;
    var s := SortReals(values);
    var m := |s| / 2;
    if |s| % 2 == 1 {
      QuarterPoint(2, |s| - 1, m, 0);
      CutTimes(s[m], s[m + 1], 0);
    } else {
      QuarterPoint(2, |s| - 1, m - 1, 2);
      CutTimes(s[m - 1], s[m], 2);
    }
  }

  /** The order in which samples were recorded is irrelevant. */
  lemma StatisticsIgnoreOrder(a: seq<real>, b: seq<real>)
    requires multiset(a) == multiset(b)
    ensures |a| == |b| && SortReals(a) == SortReals(b)
    ensures a != [] ==> Median(a) == Median(b)
    ensures |a| >= 2 ==> forall i :: 1 <= i <= 3 ==> Quartile(a, i) == Quartile(b, i)
  {
    SortedAlike(a, b);
    hide SortReals, Cut;
  }

  lemma SortedAlike(a: seq<real>, b: seq<real>)
    requires multiset(a) == multiset(b)
    ensures |a| == |b| && SortReals(a) == SortReals(b)
  {
    RealsOrdered();
    SortOfPermutation(a, b, RealLe);
    MembersAgree(a, b);
  }

  lemma ProductNonNegative(x: real, y: real)
    requires x >= 0.0 && y >= 0.0
    ensures x * y >= 0.0
  {}

  lemma ScalingKeepsOrder(c: real, a: real, b: real)
    requires c > 0.0
    ensures a <= b <==> c * a <= c * b
    ensures a < b <==> c * a < c * b
  {
    if a <= b {
      ProductNonNegative(c, b - a);
    } else {
      assert c * (a - b) > 0.0;
    }
    assert c * (b - a) == c * b - c * a;
  }

  lemma SortScales(values: seq<real>, c: real)
    requires c > 0.0
    ensures SortReals(Scaled(values, c)) == Scaled(SortReals(values), c)
  {
    var f := (v: real) => Times(c, v);
    forall a, b ensures RealLe(a, b) <==> RealLe(f(a), f(b)) {
      ScalingKeepsOrder(c, a, b);
    }
    hide Times;
    SortCommutes(values, RealLe, f, RealLe);
    assert Scaled(values, c) == Map(f, values);
    assert Scaled(SortReals(values), c) == Map(f, SortReals(values));
  }

  lemma MidpointScales(c: real, a: real, b: real)
    ensures (Times(c, a) + Times(c, b)) / 2.0 == Times(c, (a + b) / 2.0)
  {}

  lemma MedianScales(values: seq<real>, c: real)
    requires values != [] && c > 0.0
    ensures Median(Scaled(values, c)) == Times(c, Median(values))
  {
    hide Times, SortReals;
    SortScales(values, c);
    var s := SortReals(values);
    var m := |s| / 2;
    if |s| % 2 == 0 {
      MidpointScales(c, s[m - 1], s[m]);
    }
  }

  lemma {:induction false} CountBound(s: seq<real>, r: real)
    ensures multiset(s)[r] <= |s|
  {
    if s == [] {
    } else {
      assert s == s[..|s| - 1] + [s[|s| - 1]];
      CountBound(s[..|s| - 1], r);
    }
  }

  lemma CountOutside(s: seq<real>, lo: nat, hi: nat, r: real)
    requires lo <= hi <= |s|
    requires forall i :: 0 <= i < |s| && (i < lo || hi <= i) ==> s[i] != r
    ensures multiset(s)[r] <= hi - lo
  {
    assert s == s[..lo] + s[lo..hi] + s[hi..];
    assert r !in s[..lo] && r !in s[hi..];
    CountBound(s[lo..hi], r);
  }

  /** A strict majority of equal readings fixes the median, whatever the minority did. */
  lemma MajorityIsMedian(values: seq<real>, r: real)
    requires 2 * multiset(values)[r] > |values|
    ensures values != [] && Median(values) == r
  {
    CountBound(values, r);
    SortRealsFacts(values);
    var s := SortReals(values);
    var m := |s| / 2;
    forall k | 0 <= k < |s| && (k == m || (|s| % 2 == 0 && k == m - 1)) ensures s[k] == r {
      if s[k] < r {
        forall i | 0 <= i < k + 1 ensures s[i] != r { if i < k { assert RealLe(s[i], s[k]); } }
        CountOutside(s, k + 1, |s|, r);
      } else if s[k] > r {
        forall i | k <= i < |s| ensures s[i] != r { if k < i { assert RealLe(s[k], s[i]); } }
        CountOutside(s, 0, k, r);
      }
    }
  }

  /** Median and quartiles never leave the range of the samples. */
  lemma StatisticsBetween(values: seq<real>, lo: real, hi: real)
    requires values != []
    requires forall v :: v in values ==> lo <= v <= hi
    ensures lo <= Median(values) <= hi
    ensures |values| >= 2 ==> forall i :: 1 <= i <= 3 ==> lo <= Quartile(values, i) <= hi
  {
    SortRealsFacts(values);
    var s := SortReals(values);
    forall k | 0 <= k < |s| ensures lo <= s[k] <= hi { assert s[k] in s; }
    if |values| >= 2 {
      forall i | 1 <= i <= 3 ensures lo <= Quartile(values, i) <= hi {
        var at := i * (|s| - 1);
        WeightedBetween(s[at / 4], s[at / 4 + 1], (at % 4) as real, lo, hi);
      }
    }
  }

  lemma WeightedBetween(a: real, b: real, w: real, lo: real, hi: real)
    requires lo <= a <= hi && lo <= b <= hi && 0.0 <= w <= 4.0
    ensures lo <= Cut(a, b, w) <= hi
  {
    ProductNonNegative(a - lo, 4.0 - w);
    ProductNonNegative(b - lo, w);
    assert a * (4.0 - w) + b * w - 4.0 * lo == (a - lo) * (4.0 - w) + (b - lo) * w;
    ProductNonNegative(hi - a, 4.0 - w);
    ProductNonNegative(hi - b, w);
    assert 4.0 * hi - (a * (4.0 - w) + b * w) == (hi - a) * (4.0 - w) + (hi - b) * w;
  }
}
