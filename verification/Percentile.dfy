// The interpolated percentile, computed in three places: twice by selecting
// two order statistics, once from a sorted copy.
module Percentile {

  ghost predicate Sorted(s: seq<real>) {
    forall i, j :: 0 <= i <= j < |s| ==> s[i] <= s[j]
  }

  function Insert(x: real, s: seq<real>): (t: seq<real>)
    ensures |t| == |s| + 1
  {
    if s == [] || x <= s[0] then [x] + s else [s[0]] + Insert(x, s[1..])
  }

  // The sorted copy.
  function SortOf(s: seq<real>): (t: seq<real>)
    ensures |t| == |s|
  {
    if s == [] then [] else Insert(s[0], SortOf(s[1..]))
  }

  lemma {:induction false} InsertPermutes(x: real, s: seq<real>)
    ensures multiset(Insert(x, s)) == multiset(s) + multiset{x}
  {
    if s != [] && x > s[0] {
      InsertPermutes(x, s[1..]);
      assert s == [s[0]] + s[1..];
    }
  }

  lemma {:induction false} InsertSorted(x: real, s: seq<real>, bound: real)
    requires Sorted(s) && x >= bound && forall i :: 0 <= i < |s| ==> s[i] >= bound
    ensures Sorted(Insert(x, s)) && forall i :: 0 <= i < |s| + 1 ==> Insert(x, s)[i] >= bound
  {
    if s != [] && x > s[0] {
      InsertSorted(x, s[1..], s[0]);
    }
  }

  lemma {:induction false} SortOfSorts(s: seq<real>)
    ensures Sorted(SortOf(s)) && multiset(SortOf(s)) == multiset(s)
  {
    if s != [] {
      var z := SortOf(s[1..]);
      SortOfSorts(s[1..]);
      InsertSorted(s[0], z, if z == [] || s[0] < z[0] then s[0] else z[0]);
      InsertPermutes(s[0], z);
      assert s == [s[0]] + s[1..];
    }
  }

  // ---- order statistics ----

  // How many samples lie below v, or at most at v.
  function Below(s: seq<real>, v: real, orEqual: bool): nat {
    if s == [] then 0
    else (if s[0] < v || (orEqual && s[0] == v) then 1 else 0) + Below(s[1..], v, orEqual)
  }

  lemma {:induction false} BelowConcat(s: seq<real>, t: seq<real>, v: real, orEqual: bool)
    ensures Below(s + t, v, orEqual) == Below(s, v, orEqual) + Below(t, v, orEqual)
  {
    if s == [] {
      assert s + t == t;
    } else {
      BelowConcat(s[1..], t, v, orEqual);
      assert (s + t)[1..] == s[1..] + t;
    }
  }

  // Taking out the sample at position i.
  lemma Removed(t: seq<real>, i: nat, v: real, orEqual: bool)
    requires i < |t|
    ensures multiset(t) == multiset(t[..i] + t[i + 1..]) + multiset{t[i]}
    ensures Below(t, v, orEqual) == Below(t[..i] + t[i + 1..], v, orEqual) + Below([t[i]], v, orEqual)
  {
    var front, back := t[..i], t[i + 1..];
    assert t == front + ([t[i]] + back);
    BelowConcat(front, [t[i]] + back, v, orEqual);
    BelowConcat([t[i]], back, v, orEqual);
    BelowConcat(front, back, v, orEqual);
  }

  lemma Uncons(m: multiset<real>, a: multiset<real>, b: multiset<real>, x: real)
    requires m == a + multiset{x} && m == b + multiset{x}
    ensures a == b
  {
    assert m - multiset{x} == a && m - multiset{x} == b;
  }

  lemma {:induction false} BelowPermutation(s: seq<real>, t: seq<real>, v: real, orEqual: bool)
    requires multiset(s) == multiset(t)
    ensures Below(s, v, orEqual) == Below(t, v, orEqual)
    decreases |s|
  {
    if s == [] {
      assert |multiset(t)| == 0;
    } else {
      assert s[0] in multiset(t);
      var i :| 0 <= i < |t| && t[i] == s[0];
      var rest := t[..i] + t[i + 1..];
      Removed(t, i, v, orEqual);
      Removed(s, 0, v, orEqual);
      assert s[..0] + s[0 + 1..] == s[1..];
      Uncons(multiset(s), multiset(s[1..]), multiset(rest), s[0]);
      BelowPermutation(s[1..], rest, v, orEqual);
    }
  }

  lemma {:induction false} BelowBounds(s: seq<real>, v: real, orEqual: bool)
    ensures Below(s, v, orEqual) <= |s|
    ensures (forall i :: 0 <= i < |s| ==> s[i] >= v) && !orEqual ==> Below(s, v, orEqual) == 0
    ensures (forall i :: 0 <= i < |s| ==> s[i] <= v) && orEqual ==> Below(s, v, orEqual) == |s|
  {
    if s != [] {
      BelowBounds(s[1..], v, orEqual);
    }
  }

  // What std::nth_element promises about position n.
  ghost predicate Selected(before: seq<real>, after: seq<real>, n: nat) {
    && n < |after| && multiset(before) == multiset(after)
    && (forall i :: 0 <= i < n ==> after[i] <= after[n])
    && (forall i :: n < i < |after| ==> after[n] <= after[i])
  }

  lemma SelectedRank(before: seq<real>, after: seq<real>, n: nat)
    requires Selected(before, after, n)
    ensures Below(before, after[n], false) <= n < Below(before, after[n], true)
  {
    hide Below;
    BelowPermutation(before, after, after[n], false);
    BelowPermutation(before, after, after[n], true);
    BelowFrom(after, n, after[n]);
    BelowUpTo(after, n + 1, after[n]);
  }

  lemma BelowFrom(s: seq<real>, n: nat, v: real)
    requires n <= |s| && forall i :: n <= i < |s| ==> s[i] >= v
    ensures Below(s, v, false) <= n
  {
    assert s == s[..n] + s[n..];
    BelowConcat(s[..n], s[n..], v, false);
    BelowBounds(s[..n], v, false);
    BelowBounds(s[n..], v, false);
  }

  lemma BelowUpTo(s: seq<real>, n: nat, v: real)
    requires n <= |s| && forall i :: 0 <= i < n ==> s[i] <= v
    ensures Below(s, v, true) >= n
  {
    assert s == s[..n] + s[n..];
    BelowConcat(s[..n], s[n..], v, true);
    BelowBounds(s[..n], v, true);
  }

  lemma {:induction false} BelowMonotone(s: seq<real>, u: real, v: real)
    requires u < v
    ensures Below(s, u, true) <= Below(s, v, false)
  {
    if s != [] {
      BelowMonotone(s[1..], u, v);
    }
  }

  // Whatever arrangement selection leaves behind, position n holds the n-th
  // smallest sample.
  lemma SelectedIsOrderStatistic(s: seq<real>, after: seq<real>, n: nat)
    requires Selected(s, after, n)
    ensures |after| == |s| && after[n] == SortOf(s)[n]
  {
    assert |after| == |multiset(after)| == |s|;
    SortOfSorts(s);
    var z := SortOf(s);
    SelectedRank(s, after, n);
    SelectedRank(s, z, n);
    if after[n] < z[n] {
      BelowMonotone(s, after[n], z[n]);
    } else if z[n] < after[n] {
      BelowMonotone(s, z[n], after[n]);
    }
  }

  // ---- the percentile ----

  function Ceil(x: real): int {
    -((-x).Floor)
  }

  // The value at a real-valued rank of a sorted sequence.
  function At(z: seq<real>, rank: real): real
    requires 0.0 <= rank <= (|z| - 1) as real
  {
    var lower := rank.Floor;
    var upper := Ceil(rank);
    if upper == lower then z[lower] else z[lower] + (z[upper] - z[lower]) * (rank - lower as real)
  }

  function Rank(n: nat, percentile: real): (rank: real)
    requires n > 0 && 0.0 <= percentile <= 1.0
    ensures 0.0 <= rank <= (n - 1) as real
  {
    RankBounds(n, percentile);
    percentile * ((n - 1) as real)
  }

  lemma RankBounds(n: nat, p: real)
    requires n > 0 && 0.0 <= p <= 1.0
    ensures 0.0 <= p * (n - 1) as real <= (n - 1) as real
  {
    Scale(p, 1.0, (n - 1) as real);
    Scale(0.0, p, (n - 1) as real);
  }

  lemma Scale(a: real, b: real, k: real)
    requires a <= b && k >= 0.0
    ensures a * k <= b * k
  {
    assert (b - a) * k >= 0.0;
  }

  lemma ScaledInOrder(x: real, y: real, a: real, b: real, k: real)
    requires a <= b && k >= 0.0 && x == a * k && y == b * k
    ensures x <= y
  {
    Scale(a, b, k);
  }

  lemma RankMonotone(n: nat, p: real, q: real)
    requires n > 0 && 0.0 <= p <= q <= 1.0
    ensures Rank(n, p) <= Rank(n, q)
  {
    var k := (n - 1) as real;
    ScaledInOrder(Rank(n, p), Rank(n, q), p, q, k);
  }

  function PercentileOf(s: seq<real>, percentile: real): real
    requires 0.0 <= percentile <= 1.0
  {
    if s == [] then 0.0 else At(SortOf(s), Rank(|s|, percentile))
  }

  // Between two neighbours the value lies between them, and grows with the rank.
  lemma Interpolate(a: real, b: real, f: real, g: real)
    requires a <= b && 0.0 <= f <= g <= 1.0
    ensures a <= a + (b - a) * f <= a + (b - a) * g <= b
  {
    Scale(f, g, b - a);
    Scale(0.0, f, b - a);
    Scale(g, 1.0, b - a);
  }

  lemma AtBetween(z: seq<real>, rank: real)
    requires Sorted(z) && 0.0 <= rank <= (|z| - 1) as real
    ensures z[rank.Floor] <= At(z, rank) <= z[Ceil(rank)]
  {
    var lower, upper := rank.Floor, Ceil(rank);
    Interpolate(z[lower], z[upper], 0.0, rank - lower as real);
    Interpolate(z[lower], z[upper], rank - lower as real, 1.0);
  }

  lemma AtMonotone(z: seq<real>, r: real, t: real)
    requires Sorted(z) && 0.0 <= r <= t <= (|z| - 1) as real
    ensures At(z, r) <= At(z, t)
  {
    AtBetween(z, r);
    AtBetween(z, t);
    if Ceil(r) > t.Floor {
      assert r.Floor == t.Floor;
      if Ceil(r) != r.Floor && Ceil(t) != t.Floor {
        assert Ceil(r) == Ceil(t);
        Interpolate(z[r.Floor], z[Ceil(r)], r - r.Floor as real, t - t.Floor as real);
      }
    }
  }

  // The percentile never leaves the range of the samples.
  lemma PercentileInRange(s: seq<real>, percentile: real)
    requires s != [] && 0.0 <= percentile <= 1.0
    ensures exists i, j :: 0 <= i < |s| && 0 <= j < |s| && s[i] <= PercentileOf(s, percentile) <= s[j]
  {
    SortOfSorts(s);
    var z, r := SortOf(s), Rank(|s|, percentile);
    AtBetween(z, r);
    assert z[r.Floor] in multiset(s) && z[Ceil(r)] in multiset(s);
    var i :| 0 <= i < |s| && s[i] == z[r.Floor];
    var j :| 0 <= j < |s| && s[j] == z[Ceil(r)];
  }

  // Between two ranks the value is in proportion: at rank k + f it is 1 - f
  // parts of sample k and f parts of the next, in order of size.
  lemma PercentileInterpolates(s: seq<real>, z: seq<real>, percentile: real, k: nat, f: real)
    requires Sorted(z) && multiset(z) == multiset(s)
    requires 0.0 <= percentile <= 1.0 && k < |s| && 0.0 <= f < 1.0 && percentile * (|s| - 1) as real == k as real + f
    ensures |z| == |s|
    ensures f == 0.0 ==> PercentileOf(s, percentile) == z[k]
    ensures f > 0.0 ==> k + 1 < |z| && PercentileOf(s, percentile) == (1.0 - f) * z[k] + f * z[k + 1]
  {
    SortedIsUnique(s, z);
    var rank := Rank(|s|, percentile);
    assert rank == k as real + f;
    assert rank.Floor == k;
    if f > 0.0 {
      assert Ceil(rank) == k + 1;
      assert z[k] + (z[k + 1] - z[k]) * f == (1.0 - f) * z[k] + f * z[k + 1];
    } else {
      assert Ceil(rank) == k;
    }
  }

  // It grows with the percentile, from the minimum to the maximum.
  lemma PercentileMonotone(s: seq<real>, p: real, q: real)
    requires 0.0 <= p <= q <= 1.0
    ensures PercentileOf(s, p) <= PercentileOf(s, q)
  {
    if s != [] {
      SortOfSorts(s);
      RankMonotone(|s|, p, q);
      AtMonotone(SortOf(s), Rank(|s|, p), Rank(|s|, q));
    }
  }

  lemma PercentileEnds(s: seq<real>)
    requires s != []
    ensures forall i :: 0 <= i < |s| ==> PercentileOf(s, 0.0) <= s[i] <= PercentileOf(s, 1.0)
  {
    SortOfSorts(s);
    var z := SortOf(s);
    assert Rank(|s|, 0.0) == 0.0 && Rank(|s|, 1.0) == (|s| - 1) as real;
    forall i | 0 <= i < |s|
      ensures z[0] <= s[i] <= z[|z| - 1]
    {
      assert s[i] in multiset(z);
      var k :| 0 <= k < |z| && z[k] == s[i];
    }
  }

  // ---- the three implementations ----

  // Stands for std::nth_element; callers know only its contract.
  method NthElement(s: seq<real>, n: nat) returns (t: seq<real>)
    requires n < |s|
    ensures Selected(s, t, n)
  {
    SortOfSorts(s);
    t := SortOf(s);
  }

  // Stands for std::sort.
  method Sort(s: seq<real>) returns (t: seq<real>)
    ensures Sorted(t) && multiset(t) == multiset(s)
  {
    SortOfSorts(s);
    t := SortOf(s);
  }

  // PercentileLocked of the control state machine and ComputePercentile of the
  // orchestration loop: two selections, the second on what the first left.
  method PercentileBySelection(samples: seq<real>, percentile: real) returns (r: real)
    requires 0.0 <= percentile <= 1.0
    ensures r == PercentileOf(samples, percentile)
  {
    if |samples| == 0 {
      return 0.0;
    }
    var copy := samples;
    var rank := Rank(|copy|, percentile);
    var lowerIndex := rank.Floor;
    var upperIndex := Ceil(rank);
    copy := NthElement(copy, lowerIndex);
    SelectedIsOrderStatistic(samples, copy, lowerIndex);
    var lower := copy[lowerIndex];
    if upperIndex == lowerIndex {
      return lower;
    }
    copy := NthElement(copy, upperIndex);
    SelectedIsOrderStatistic(samples, copy, upperIndex);
    var upper := copy[upperIndex];
    var fraction := rank - lowerIndex as real;
    return lower + (upper - lower) * fraction;
  }

  // ComputePercentile of the metrics exporter.
  method PercentileBySorting(values: seq<real>, percentile: real) returns (r: real)
    requires 0.0 <= percentile <= 1.0
    ensures r == PercentileOf(values, percentile)
  {
    if |values| == 0 {
      return 0.0;
    }
    var sorted := Sort(values);
    SortedIsUnique(values, sorted);
    var rank := Rank(|sorted|, percentile);
    var lowerIndex := rank.Floor;
    var upperIndex := Ceil(rank);
    var lower := sorted[lowerIndex];
    if upperIndex == lowerIndex {
      return lower;
    }
    var upper := sorted[upperIndex];
    var fraction := rank - lowerIndex as real;
    return lower + (upper - lower) * fraction;
  }

  lemma SortedIsUnique(s: seq<real>, t: seq<real>)
    requires Sorted(t) && multiset(t) == multiset(s)
    ensures t == SortOf(s)
  {
    assert |t| == |multiset(t)| == |s|;
    forall n | 0 <= n < |t|
      ensures t[n] == SortOf(s)[n]
    {
      SelectedIsOrderStatistic(s, t, n);
    }
  }
}
