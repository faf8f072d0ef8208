/** The linear-interpolation percentile of the workload calibration, over the reals. */
module Calibration {
  import opened Wrappers
  import opened Sorting

  predicate Leq(x: real, y: real) {
    x <= y
  }

  function Sorted(values: seq<real>): seq<real> {
    StableSort(Leq, values)
  }

  // The point a fraction f of the way from a to b.
  function Mix(a: real, b: real, f: real): real {
    a + Scaled(f, b - a)
  }

  // The interpolated value at a rank between 0 and |s| - 1.
  function AtRank(s: seq<real>, rank: real): real
    requires s != [] && 0.0 <= rank <= (|s| - 1) as real
  {
    var lo := rank.Floor;
    var hi := if lo + 1 < |s| - 1 then lo + 1 else |s| - 1;
    Mix(s[lo], s[hi], rank - lo as real)
  }

  function Scaled(x: real, k: real): real {
    x * k
  }

  lemma ScaledMonotone(x: real, y: real, k: real)
    requires x <= y && 0.0 <= k
    ensures Scaled(x, k) <= Scaled(y, k)
  {
  }

  function Rank(p: real, n: nat): (r: real)
    requires n > 0 && 0.0 <= p <= 100.0
    ensures 0.0 <= r <= (n - 1) as real
  {
    ScaledMonotone(0.0, p / 100.0, (n - 1) as real);
    ScaledMonotone(p / 100.0, 1.0, (n - 1) as real);
    Scaled(p / 100.0, (n - 1) as real)
  }

  // None where the source raises.
  function Percentile(values: seq<real>, p: real): (r: Option<real>)
    ensures r.None? <==> values == [] || p < 0.0 || p > 100.0
  {
    if values == [] || p < 0.0 || p > 100.0 then None
    else
      var s := Sorted(values);
      SortedIs(values);
      if |s| == 1 then Some(s[0]) else Some(AtRank(s, Rank(p, |s|)))
  }

  function Median(values: seq<real>): Option<real> {
    Percentile(values, 50.0)
  }

  lemma SortedIs(values: seq<real>)
    ensures SortedBy(Leq, Sorted(values)) && multiset(Sorted(values)) == multiset(values)
    ensures |Sorted(values)| == |values|
  {
    SortSorts(Leq, values);
  }

  lemma RankMonotone(p: real, q: real, n: nat)
    requires n > 0 && 0.0 <= p <= q <= 100.0
    ensures Rank(p, n) <= Rank(q, n)
  {
    ScaledMonotone(p / 100.0, q / 100.0, (n - 1) as real);
  }

  // ------------------------------------------------------------------ between order statistics

  lemma MixBetween(a: real, b: real, f: real)
    requires a <= b && 0.0 <= f <= 1.0
    ensures a <= Mix(a, b, f) <= b
  {
    ScaledMonotone(0.0, f, b - a);
    ScaledMonotone(f, 1.0, b - a);
  }

  lemma MixMonotone(a: real, b: real, f: real, g: real)
    requires a <= b && f <= g
    ensures Mix(a, b, f) <= Mix(a, b, g)
  {
    ScaledMonotone(f, g, b - a);
  }

  lemma MixMonotoneInEnds(a: real, b: real, c: real, d: real, f: real)
    requires a <= c && b <= d && 0.0 <= f <= 1.0
    ensures Mix(a, b, f) <= Mix(c, d, f)
  {
    ScaledMonotone(a, c, 1.0 - f);
    ScaledMonotone(b, d, f);
    MixWeights(a, b, f);
    MixWeights(c, d, f);
  }

  lemma MixWeights(a: real, b: real, f: real)
    ensures Mix(a, b, f) == Scaled(a, 1.0 - f) + Scaled(b, f)
  {
  }

  // The value at a rank lies between the two entries it interpolates.
  lemma AtRankBetween(s: seq<real>, rank: real)
    requires s != [] && SortedBy(Leq, s) && 0.0 <= rank <= (|s| - 1) as real
    ensures s[rank.Floor] <= AtRank(s, rank)
    ensures AtRank(s, rank) <= s[if rank.Floor + 1 < |s| then rank.Floor + 1 else rank.Floor]
  {
    var lo := rank.Floor;
    var hi := if lo + 1 < |s| - 1 then lo + 1 else |s| - 1;
    assert lo < hi ==> Leq(s[lo], s[hi]);
    MixBetween(s[lo], s[hi], rank - lo as real);
  }

  // A higher rank never gives a lower value.
  lemma AtRankMonotone(s: seq<real>, q: real, r: real)
    requires s != [] && SortedBy(Leq, s) && 0.0 <= q <= r <= (|s| - 1) as real
    ensures AtRank(s, q) <= AtRank(s, r)
  {
    var lo := q.Floor;
    if lo < r.Floor {
      AtRankBetween(s, q);
      AtRankBetween(s, r);
      assert lo + 1 < r.Floor ==> Leq(s[lo + 1], s[r.Floor]);
    } else {
      assert lo == r.Floor;
      var hi := if lo + 1 < |s| - 1 then lo + 1 else |s| - 1;
      assert lo < hi ==> Leq(s[lo], s[hi]);
      MixMonotone(s[lo], s[hi], q - lo as real, r - lo as real);
    }
  }

  // Raising the entries never lowers the value.
  lemma AtRankMonotoneInEntries(s: seq<real>, t: seq<real>, r: real)
    requires s != [] && |s| == |t| && 0.0 <= r <= (|s| - 1) as real
    requires forall i | 0 <= i < |s| :: s[i] <= t[i]
    ensures AtRank(s, r) <= AtRank(t, r)
  {
    var lo := r.Floor;
    var hi := if lo + 1 < |s| - 1 then lo + 1 else |s| - 1;
    MixMonotoneInEnds(s[lo], s[hi], t[lo], t[hi], r - lo as real);
  }

  // ------------------------------------------------------------------ counting

  // The number of values not above x.
  ghost function CountLeq(values: seq<real>, x: real): nat {
    if values == [] then 0 else (if values[0] <= x then 1 else 0) + CountLeq(values[1..], x)
  }

  lemma {:induction false} CountSplit(a: seq<real>, b: seq<real>, x: real)
    ensures CountLeq(a + b, x) == CountLeq(a, x) + CountLeq(b, x)
  {
    if a == [] {
      assert a + b == b;
    } else {
      assert (a + b)[1..] == a[1..] + b;
      CountSplit(a[1..], b, x);
    }
  }

  lemma {:induction false} CountOfPermutation(a: seq<real>, b: seq<real>, x: real)
    requires multiset(a) == multiset(b)
    ensures CountLeq(a, x) == CountLeq(b, x)
  {
    assert |multiset(a)| == |multiset(b)|;
    if a != [] {
      assert a[0] in multiset(b);
      var k :| 0 <= k < |b| && b[k] == a[0];
      CountWithout(b, k, x);
      assert a == [a[0]] + a[1..];
      assert multiset(a[1..]) == multiset(a) - multiset{a[0]};
      CountOfPermutation(a[1..], b[..k] + b[k + 1..], x);
    }
  }

  lemma CountWithout(b: seq<real>, k: nat, x: real)
    requires k < |b|
    ensures multiset(b) == multiset(b[..k] + b[k + 1..]) + multiset{b[k]}
    ensures CountLeq(b, x) == CountLeq(b[..k] + b[k + 1..], x) + if b[k] <= x then 1 else 0
  {
    var tail := [b[k]] + b[k + 1..];
    assert b == b[..k] + tail;
    assert tail[1..] == b[k + 1..];
    CountSplit(b[..k], b[k + 1..], x);
    CountSplit(b[..k], tail, x);
  }

  lemma {:induction false} CountMonotone(a: seq<real>, b: seq<real>, x: real)
    requires |a| == |b| && forall i | 0 <= i < |a| :: a[i] <= b[i]
    ensures CountLeq(b, x) <= CountLeq(a, x)
  {
    if a != [] {
      CountMonotone(a[1..], b[1..], x);
    }
  }

  // The k-th entry of a sorted list is at most x exactly when more than k entries are.
  lemma {:induction false} CountInSorted(s: seq<real>, k: nat, x: real)
    requires SortedBy(Leq, s) && k < |s|
    ensures s[k] <= x <==> CountLeq(s, x) > k
  {
    forall i, j | 0 <= i < j < |s[1..]| ensures Leq(s[1..][i], s[1..][j]) {
      assert Leq(s[i + 1], s[j + 1]);
    }
    if k > 0 {
      assert Leq(s[0], s[k]);
      CountInSorted(s[1..], k - 1, x);
      if s[0] > x {
        NoneBelow(s, x);
      }
    } else if s[0] > x {
      NoneBelow(s, x);
    }
  }

  lemma {:induction false} NoneBelow(s: seq<real>, x: real)
    requires SortedBy(Leq, s) && s != [] && s[0] > x
    ensures CountLeq(s, x) == 0
  {
    if |s| > 1 {
      assert Leq(s[0], s[1]);
      forall i, j | 0 <= i < j < |s[1..]| ensures Leq(s[1..][i], s[1..][j]) {
        assert Leq(s[i + 1], s[j + 1]);
      }
      NoneBelow(s[1..], x);
    }
  }

  // Every order statistic grows with the values.
  lemma OrderStatisticsMonotone(a: seq<real>, b: seq<real>, k: nat)
    requires |a| == |b| && k < |a| && forall i | 0 <= i < |a| :: a[i] <= b[i]
    ensures |Sorted(a)| == |Sorted(b)| == |a|
    ensures Sorted(a)[k] <= Sorted(b)[k]
  {
    SortedIs(a);
    SortedIs(b);
    var x := Sorted(b)[k];
    CountInSorted(Sorted(b), k, x);
    CountOfPermutation(Sorted(b), b, x);
    CountMonotone(a, b, x);
    CountOfPermutation(Sorted(a), a, x);
    CountInSorted(Sorted(a), k, x);
  }

  // ------------------------------------------------------------------ main results

  // The sorted values, and the percentile read off them at its rank.
  lemma PercentileAtRank(values: seq<real>, p: real)
    requires values != [] && 0.0 <= p <= 100.0
    ensures Sorted(values) != [] && |Sorted(values)| == |values| && SortedBy(Leq, Sorted(values))
    ensures Percentile(values, p) == Some(AtRank(Sorted(values), Rank(p, |values|)))
  {
    SortedIs(values);
  }

  lemma {:induction false} SortedMembers(values: seq<real>, i: nat)
    requires i < |Sorted(values)|
    ensures Sorted(values)[i] in values
  {
    SortedIs(values);
    assert Sorted(values)[i] in multiset(Sorted(values));
  }

  // The percentile itself: with n sorted values, the point at p/100 of the way from the first
  // to the last place, on the straight line between the two values around it.
  lemma PercentileExactly(values: seq<real>, p: real, rank: real, k: nat)
    requires values != [] && 0.0 <= p <= 100.0 && rank == p / 100.0 * (|values| - 1) as real
    requires k as real <= rank < (k + 1) as real
    ensures k < |values| == |Sorted(values)|
    ensures Percentile(values, p) == Some(Interpolated(Sorted(values), rank, k))
  {
    RankExactly(p, |values|);
    PercentileBetween(values, p, k);
  }

  // A fraction of the way on from the k-th value to the next.
  function Interpolated(s: seq<real>, rank: real, k: nat): real
    requires k < |s|
  {
    if k + 1 < |s| then s[k] + (s[k + 1] - s[k]) * (rank - k as real) else s[k]
  }

  lemma PercentileBetween(values: seq<real>, p: real, k: nat)
    requires values != [] && 0.0 <= p <= 100.0
    requires k as real <= Rank(p, |values|) < (k + 1) as real
    ensures k < |values| == |Sorted(values)|
    ensures Percentile(values, p) == Some(Interpolated(Sorted(values), Rank(p, |values|), k))
  {
    PercentileAtRank(values, p);
    AtRankExactly(Sorted(values), Rank(p, |values|), k);
  }

  // The sorted values are the values, the smaller first.
  lemma SortedExactly(values: seq<real>)
    ensures multiset(Sorted(values)) == multiset(values)
    ensures forall i, j | 0 <= i < j < |Sorted(values)| :: Sorted(values)[i] <= Sorted(values)[j]
  {
    SortedIs(values);
    var s := Sorted(values);
    forall i, j | 0 <= i < j < |s| ensures s[i] <= s[j] {
      assert Leq(s[i], s[j]);
    }
  }

  lemma RankExactly(p: real, n: nat)
    requires n > 0 && 0.0 <= p <= 100.0
    ensures Rank(p, n) == p / 100.0 * (n - 1) as real
  {
  }

  lemma AtRankExactly(s: seq<real>, rank: real, k: nat)
    requires s != [] && 0.0 <= rank <= (|s| - 1) as real && k as real <= rank < (k + 1) as real
    ensures k < |s|
    ensures AtRank(s, rank) == Interpolated(s, rank, k)
    ensures k + 1 < |s| ==> AtRank(s, rank) == s[k] + (s[k + 1] - s[k]) * (rank - k as real)
    ensures k + 1 == |s| ==> AtRank(s, rank) == s[k]
  {
    assert rank.Floor == k;
    MixExactly(s[k], s[if k + 1 < |s| then k + 1 else k], rank - k as real);
  }

  lemma MixExactly(a: real, b: real, f: real)
    ensures Mix(a, b, f) == a + (b - a) * f
    ensures a == b ==> Mix(a, b, f) == a
  {
  }

  // A percentile lies between the least and the greatest value.
  lemma PercentileInRange(values: seq<real>, p: real)
    requires values != [] && 0.0 <= p <= 100.0
    ensures exists v :: v in values && v <= Percentile(values, p).value
    ensures exists v :: v in values && Percentile(values, p).value <= v
  {
    PercentileAtRank(values, p);
    var rank := Rank(p, |values|);
    AtRankBetween(Sorted(values), rank);
    SortedMembers(values, rank.Floor);
    SortedMembers(values, if rank.Floor + 1 < |values| then rank.Floor + 1 else rank.Floor);
  }

  // It does not fall when p rises.
  lemma PercentileMonotone(values: seq<real>, p: real, q: real)
    requires values != [] && 0.0 <= p <= q <= 100.0
    ensures Percentile(values, p).value <= Percentile(values, q).value
  {
    PercentileAtRank(values, p);
    PercentileAtRank(values, q);
    RankMonotone(p, q, |values|);
    AtRankMonotone(Sorted(values), Rank(p, |values|), Rank(q, |values|));
  }

  // It does not fall when any of the values is raised.
  lemma PercentileMonotoneInValues(a: seq<real>, b: seq<real>, p: real)
    requires |a| == |b| && a != [] && 0.0 <= p <= 100.0
    requires forall i | 0 <= i < |a| :: a[i] <= b[i]
    ensures Percentile(a, p).value <= Percentile(b, p).value
  {
    PercentileAtRank(a, p);
    PercentileAtRank(b, p);
    forall k | 0 <= k < |Sorted(a)| ensures Sorted(a)[k] <= Sorted(b)[k] {
      OrderStatisticsMonotone(a, b, k);
    }
    AtRankMonotoneInEntries(Sorted(a), Sorted(b), Rank(p, |a|));
  }

  // It does not depend on the order of the values.
  lemma PercentileOrderFree(a: seq<real>, b: seq<real>, p: real)
    requires multiset(a) == multiset(b)
    ensures Percentile(a, p) == Percentile(b, p)
  {
    assert |a| == |multiset(a)| == |multiset(b)| == |b|;
    SortedIs(a);
    SortedIs(b);
    SortedUnique(Sorted(a), Sorted(b));
  }

  lemma SortedUnique(s: seq<real>, t: seq<real>)
    requires SortedBy(Leq, s) && SortedBy(Leq, t) && multiset(s) == multiset(t) && |s| == |t|
    ensures s == t
  {
    forall k | 0 <= k < |s| ensures s[k] == t[k] {
      CountOfPermutation(s, t, t[k]);
      CountOfPermutation(s, t, s[k]);
      CountInSorted(s, k, t[k]);
      CountInSorted(t, k, t[k]);
      CountInSorted(t, k, s[k]);
      CountInSorted(s, k, s[k]);
    }
  }

  // At 0 it is the least value and at 100 the greatest.
  lemma PercentileEnds(values: seq<real>)
    requires values != []
    ensures |Sorted(values)| == |values|
    ensures Percentile(values, 0.0).value == Sorted(values)[0]
    ensures Percentile(values, 100.0).value == Sorted(values)[|values| - 1]
    ensures forall v | v in values :: Sorted(values)[0] <= v <= Sorted(values)[|values| - 1]
  {
    PercentileAtRank(values, 0.0);
    PercentileAtRank(values, 100.0);
    var s, n := Sorted(values), |values|;
    forall v | v in values ensures s[0] <= v <= s[n - 1] {
      SortedIs(values);
      assert v in multiset(values);
      var i :| 0 <= i < |s| && s[i] == v;
      assert (i > 0 ==> Leq(s[0], s[i])) && (i < n - 1 ==> Leq(s[i], s[n - 1]));
    }
  }

  // The median is the middle value, or the mean of the two middle values.
  lemma MedianIsMiddle(values: seq<real>)
    requires values != []
    ensures var s, n := Sorted(values), |values|;
      && |s| == n
      && Median(values) == Some(if n % 2 == 1 then s[n / 2] else (s[n / 2 - 1] + s[n / 2]) / 2.0)
  {
    var s, n := Sorted(values), |values|;
    PercentileAtRank(values, 50.0);
    var k := if n % 2 == 1 then n / 2 else n / 2 - 1;
    var r := Rank(50.0, n);
    assert r == (n - 1) as real / 2.0;
    assert r.Floor == k;
    MixWeights(s[k], s[if k + 1 < n - 1 then k + 1 else n - 1], r - k as real);
  }
}
