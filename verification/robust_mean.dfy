/**
 * The robust mean intensity of an image: zero pixels (the black area outside the
 * cropped disc) are dropped, the values between the 25th and the 75th percentile
 * of the rest are kept, and their mean is the result. Values are exact reals; a
 * load failure is `None`.
 */
module RobustMean {
  import opened Wrappers

  predicate Sorted(s: seq<nat>) {
    forall i, j :: 0 <= i <= j < |s| ==> s[i] <= s[j]
  }

  function Sum(s: seq<nat>): nat {
    if s == [] then 0 else s[0] + Sum(s[1..])
  }

  /**
   * `np.mean`: the arithmetic mean of a non-empty sequence of pixel values.
   * Pixels are whole numbers, so the sum stays in `nat` and only the final
   * division is real; the table's `.mean()` over real columns is
   * `PlotPrep.Average`.
   */
  function Mean(s: seq<nat>): real
    requires |s| > 0
  {
    Sum(s) as real / |s| as real
  }

  /** `img[img > 0]`: the non-zero pixels, in their original order and with their multiplicities. */
  function NonZero(pixels: seq<nat>): (nz: seq<nat>)
    ensures 0 !in nz
    ensures forall v :: v > 0 ==> multiset(nz)[v] == multiset(pixels)[v]
    ensures nz == [] <==> forall i :: 0 <= i < |pixels| ==> pixels[i] == 0
  {
    if pixels == [] then []
    else
      var rest := NonZero(pixels[1..]);
      assert pixels == [pixels[0]] + pixels[1..];
      if pixels[0] > 0 then [pixels[0]] + rest else rest
  }

  /** The values of `s` inside the closed interval `[lo, hi]`, in order, with their multiplicities. */
  function Between(s: seq<nat>, lo: real, hi: real): (r: seq<nat>)
    ensures forall v :: multiset(r)[v] == if lo <= v as real <= hi then multiset(s)[v] else 0
  {
    if s == [] then []
    else
      var rest := Between(s[1..], lo, hi);
      assert s == [s[0]] + s[1..];
      if lo <= s[0] as real <= hi then [s[0]] + rest else rest
  }

  /**
   * One step of the ascending sort of pixel values that `np.percentile` reads
   * from. Rows of the results table are sorted by a four-column key instead,
   * by `Batch.SortTable`.
   */
  function Insert(x: nat, s: seq<nat>): (r: seq<nat>)
    requires Sorted(s)
    ensures Sorted(r) && multiset(r) == multiset(s) + multiset{x}
    ensures |r| > 0 && r[0] == if s == [] || x <= s[0] then x else s[0]
  {
    if s == [] || x <= s[0] then
      ConsSorted(x, s);
      [x] + s
    else
      var rest := Insert(x, s[1..]);
      assert s == [s[0]] + s[1..];
      ConsSorted(s[0], rest);
      [s[0]] + rest
  }

  /** A value no larger than the head of a sorted sequence can go in front of it. */
  lemma ConsSorted(h: nat, t: seq<nat>)
    requires Sorted(t) && (t == [] || h <= t[0])
    ensures Sorted([h] + t)
  {
  }

  /** The ascending order of `s`, the order in which percentiles are read. */
  function SortAsc(s: seq<nat>): (r: seq<nat>)
    ensures Sorted(r) && multiset(r) == multiset(s)
  {
    if s == [] then []
    else
      assert s == [s[0]] + s[1..];
      Insert(s[0], SortAsc(s[1..]))
  }

  /** Where the `q`-th percentile sits among `n` sorted values: `q / 100 * (n - 1)`. */
  function PercentileRank(n: nat, q: nat): (rank: real)
    requires n > 0 && q <= 100
    ensures 0.0 <= rank <= (n - 1) as real
  {
    (q * (n - 1)) as real / 100.0
  }

  /** The floor of a rank within `[0, n - 1]` indexes one of `n` values, and a rank at the last index is whole. */
  lemma RankFloor(rank: real, n: nat)
    requires n > 0 && 0.0 <= rank <= (n - 1) as real
    ensures 0 <= rank.Floor < n
    ensures 0.0 <= rank - rank.Floor as real < 1.0
    ensures rank.Floor + 1 == n ==> rank == rank.Floor as real
  {
  }

  lemma ScaledBetween(f: real, d: real)
    requires 0.0 <= f <= 1.0 && 0.0 <= d
    ensures 0.0 <= f * d <= d
  {
  }

  /** Moving from `a` towards `b` by a fraction below one stays between them, and a zero fraction stays at `a`. */
  function Interpolate(a: real, b: real, f: real): (r: real)
    requires a <= b && 0.0 <= f < 1.0
    ensures a <= r <= b
    ensures f == 0.0 ==> r == a
  {
    var d := b - a;
    ScaledBetween(f, d);
    a + f * d
  }

  /**
   * `np.percentile(s, q)` with linear interpolation on sorted values: the value
   * at the rank's floor, moved towards the next value by the rank's fraction.
   */
  function Percentile(s: seq<nat>, q: nat): (p: real)
    requires |s| > 0 && q <= 100 && Sorted(s)
    ensures s[0] as real <= p <= s[|s| - 1] as real
    ensures var rank := PercentileRank(|s|, q);
            var lo := rank.Floor;
            && 0 <= lo < |s|
            && s[lo] as real <= p
            && (lo + 1 < |s| ==> p <= s[lo + 1] as real)
            && (lo + 1 == |s| || rank == lo as real ==> p == s[lo] as real)
  {
    var rank := PercentileRank(|s|, q);
    var lo := rank.Floor;
    RankFloor(rank, |s|);
    if lo + 1 < |s| then
      Interpolate(s[lo] as real, s[lo + 1] as real, rank - lo as real)
    else
      s[lo] as real
  }

  function Quartiles(nz: seq<nat>): (bounds: (real, real))
    requires |nz| > 0
  {
    var s := SortAsc(nz);
    (Percentile(s, 25), Percentile(s, 75))
  }

  /** The non-zero values the robust mean is taken over: those between the quartiles. */
  function Kept(nz: seq<nat>): seq<nat>
    requires |nz| > 0
  {
    var (p25, p75) := Quartiles(nz);
    Between(nz, p25, p75)
  }

  /** The mean of the kept values, or of all the non-zero values when none is kept. */
  function RobustOf(nz: seq<nat>): real
    requires |nz| > 0
  {
    var kept := Kept(nz);
    if kept == [] then Mean(nz) else Mean(kept)
  }

  /**
   * `calculate_robust_mean` after loading. `None` when the image could not be
   * loaded or has no non-zero pixel; otherwise the robust mean of its non-zero
   * pixels, which lies between the smallest and the largest of them.
   */
  function CalculateRobustMean(img: Option<seq<nat>>): (m: Option<real>)
    ensures m.None? <==> img.None? || forall i :: 0 <= i < |img.value| ==> img.value[i] == 0
    ensures m.Some? ==> var s := SortAsc(NonZero(img.value));
                        |s| > 0 && s[0] as real <= m.value <= s[|s| - 1] as real
  {
    if img.None? then None
    else
      var nz := NonZero(img.value);
      if nz == [] then None
      else
        RobustInRange(nz);
        Some(RobustOf(nz))
  }

  /** Every kept value lies between the two quartiles. */
  lemma KeptBetweenQuartiles(nz: seq<nat>)
    requires |nz| > 0
    ensures var (p25, p75) := Quartiles(nz);
            forall i :: 0 <= i < |Kept(nz)| ==> p25 <= Kept(nz)[i] as real <= p75
  {
    var kept := Kept(nz);
    forall i | 0 <= i < |kept|
      ensures Quartiles(nz).0 <= kept[i] as real <= Quartiles(nz).1
    {
      assert kept[i] in multiset(kept);
    }
  }

  lemma RobustInRange(nz: seq<nat>)
    requires |nz| > 0
    ensures var s := SortAsc(nz);
            |s| > 0 && s[0] as real <= RobustOf(nz) <= s[|s| - 1] as real
  {
    var s := SortAsc(nz);
    SortLength(nz);
    var lo, hi := s[0], s[|s| - 1];
    var kept := Kept(nz);
    if kept == [] {
      InRange(nz, lo, hi);
      MeanBounds(nz, lo as real, hi as real);
    } else {
      KeptInRange(nz, lo, hi);
      MeanBounds(kept, lo as real, hi as real);
    }
  }

  lemma SortLength(nz: seq<nat>)
    ensures |SortAsc(nz)| == |nz|
  {
    assert |SortAsc(nz)| == |multiset(SortAsc(nz))| == |multiset(nz)| == |nz|;
  }

  /** Every kept value lies between the smallest and the largest non-zero value. */
  lemma KeptInRange(nz: seq<nat>, lo: nat, hi: nat)
    requires |nz| > 0
    requires var s := SortAsc(nz); |s| > 0 && lo == s[0] && hi == s[|s| - 1]
    ensures forall i :: 0 <= i < |Kept(nz)| ==> lo as real <= Kept(nz)[i] as real <= hi as real
  {
    KeptBetweenQuartiles(nz);
  }

  /** Every element of a sequence lies between the smallest and the largest of its sorted order. */
  lemma InRange(t: seq<nat>, lo: nat, hi: nat)
    requires |t| > 0
    requires var s := SortAsc(t); lo == s[0] && hi == s[|s| - 1]
    ensures forall i :: 0 <= i < |t| ==> lo <= t[i] <= hi
  {
    var s := SortAsc(t);
    forall i | 0 <= i < |t|
      ensures lo <= t[i] <= hi
    {
      assert t[i] in multiset(s);
    }
  }

  lemma {:induction false} SumBounds(s: seq<nat>, lo: real, hi: real)
    requires forall i :: 0 <= i < |s| ==> lo <= s[i] as real <= hi
    ensures |s| as real * lo <= Sum(s) as real <= |s| as real * hi
  {
    if s != [] {
      SumBounds(s[1..], lo, hi);
      StepBounds((|s| - 1) as real, lo, hi, s[0] as real, Sum(s[1..]) as real);
    }
  }

  /** One more value within the bounds keeps a total within the bounds scaled by the count. */
  lemma StepBounds(n: real, lo: real, hi: real, x: real, rest: real)
    requires n * lo <= rest <= n * hi && lo <= x <= hi
    ensures (n + 1.0) * lo <= x + rest <= (n + 1.0) * hi
  {
  }

  /** A total within the bounds scaled by a positive count, divided by that count, lies within the bounds. */
  lemma DivideBounds(total: real, n: real, lo: real, hi: real)
    requires n > 0.0 && n * lo <= total <= n * hi
    ensures lo <= total / n <= hi
  {
    assert total / n * n == total;
  }

  /** A mean lies within any bounds that hold for each value. */
  lemma MeanBounds(s: seq<nat>, lo: real, hi: real)
    requires |s| > 0
    requires forall i :: 0 <= i < |s| ==> lo <= s[i] as real <= hi
    ensures lo <= Mean(s) <= hi
  {
    SumBounds(s, lo, hi);
    DivideBounds(Sum(s) as real, |s| as real, lo, hi);
  }

  /** When some value is kept, the robust mean lies between the 25th and the 75th percentile. */
  lemma RobustMeanWithinQuartiles(pixels: seq<nat>)
    requires NonZero(pixels) != [] && Kept(NonZero(pixels)) != []
    ensures var m := CalculateRobustMean(Some(pixels));
            var (p25, p75) := Quartiles(NonZero(pixels));
            m == Some(Mean(Kept(NonZero(pixels)))) && p25 <= m.value <= p75
  {
    var nz := NonZero(pixels);
    RobustOfNonZero(pixels);
    var (p25, p75) := Quartiles(nz);
    KeptBetweenQuartiles(nz);
    MeanBounds(Kept(nz), p25, p75);
  }

  /** An image with a non-zero pixel scores the robust mean of its non-zero pixels. */
  lemma RobustOfNonZero(pixels: seq<nat>)
    requires NonZero(pixels) != []
    ensures CalculateRobustMean(Some(pixels)) == Some(RobustOf(NonZero(pixels)))
  {
  }

  lemma {:induction false} SortedUnique(a: seq<nat>, b: seq<nat>)
    requires Sorted(a) && Sorted(b) && multiset(a) == multiset(b)
    ensures a == b
    decreases |a|
  {
    assert |a| == |multiset(a)| == |multiset(b)| == |b|;
    if a != [] {
      SameHead(a, b);
      SortedUnique(a[1..], b[1..]);
      assert a == [a[0]] + a[1..] && b == [b[0]] + b[1..];
    }
  }

  /** Two sorted orders of the same values start with the same value, and what follows is again one multiset. */
  lemma SameHead(a: seq<nat>, b: seq<nat>)
    requires Sorted(a) && Sorted(b) && multiset(a) == multiset(b) && |a| > 0 && |b| > 0
    ensures a[0] == b[0]
    ensures multiset(a[1..]) == multiset(b[1..])
  {
    assert a[0] in multiset(b);
    var j :| 0 <= j < |b| && b[j] == a[0];
    assert b[0] <= b[j];
    assert b[0] in multiset(a);
    var i :| 0 <= i < |a| && a[i] == b[0];
    assert a[0] <= a[i];
    MultisetTail(a);
    MultisetTail(b);
  }

  lemma RemoveAt(b: seq<nat>, k: nat)
    requires k < |b|
    ensures multiset(b[..k] + b[k + 1..]) == multiset(b) - multiset{b[k]}
  {
    assert b == b[..k] + [b[k]] + b[k + 1..];
  }

  lemma MultisetTail(a: seq<nat>)
    requires |a| > 0
    ensures multiset(a[1..]) == multiset(a) - multiset{a[0]}
  {
    assert a == [a[0]] + a[1..];
  }

  lemma {:induction false} SumConcat(a: seq<nat>, b: seq<nat>)
    ensures Sum(a + b) == Sum(a) + Sum(b)
    decreases |a|
  {
    if a == [] {
      assert a + b == b;
    } else {
      SumConcat(a[1..], b);
      assert (a + b)[1..] == a[1..] + b;
    }
  }

  /** The sum depends only on the multiset of values, not on their order. */
  lemma {:induction false} SumPermutation(a: seq<nat>, b: seq<nat>)
    requires multiset(a) == multiset(b)
    ensures Sum(a) == Sum(b)
    decreases |a|
  {
    assert |a| == |multiset(a)| == |multiset(b)| == |b|;
    if a != [] {
      var x := a[0];
      assert x in multiset(b);
      var k :| 0 <= k < |b| && b[k] == x;
      var rest := b[..k] + b[k + 1..];
      assert b == b[..k] + ([x] + b[k + 1..]);
      SumConcat(b[..k], [x] + b[k + 1..]);
      assert ([x] + b[k + 1..])[1..] == b[k + 1..];
      SumConcat(b[..k], b[k + 1..]);
      MultisetTail(a);
      RemoveAt(b, k);
      SumPermutation(a[1..], rest);
    }
  }

  lemma MeanPermutation(a: seq<nat>, b: seq<nat>)
    requires |a| > 0 && multiset(a) == multiset(b)
    ensures |b| > 0 && Mean(a) == Mean(b)
  {
    assert |a| == |multiset(a)| == |multiset(b)| == |b|;
    SumPermutation(a, b);
  }

  lemma KeptPermutation(nz1: seq<nat>, nz2: seq<nat>)
    requires |nz1| > 0 && |nz2| > 0 && multiset(nz1) == multiset(nz2)
    ensures Quartiles(nz1) == Quartiles(nz2)
    ensures multiset(Kept(nz1)) == multiset(Kept(nz2))
  {
    SortedUnique(SortAsc(nz1), SortAsc(nz2));
    var (p25, p75) := Quartiles(nz1);
    BetweenPermutation(nz1, nz2, p25, p75);
  }

  lemma BetweenPermutation(a: seq<nat>, b: seq<nat>, lo: real, hi: real)
    requires multiset(a) == multiset(b)
    ensures multiset(Between(a, lo, hi)) == multiset(Between(b, lo, hi))
  {
    var k1, k2 := Between(a, lo, hi), Between(b, lo, hi);
    assert forall v :: multiset(k1)[v] == multiset(k2)[v];
  }

  /** The robust mean depends only on the multiset of non-zero values. */
  lemma RobustOfPermutation(nz1: seq<nat>, nz2: seq<nat>)
    requires |nz1| > 0 && multiset(nz1) == multiset(nz2)
    ensures |nz2| > 0 && RobustOf(nz1) == RobustOf(nz2)
  {
    assert |nz1| == |multiset(nz1)| == |multiset(nz2)| == |nz2|;
    KeptPermutation(nz1, nz2);
    var k1, k2 := Kept(nz1), Kept(nz2);
    if k1 == [] {
      assert |multiset(k2)| == 0;
      MeanPermutation(nz1, nz2);
    } else {
      MeanPermutation(k1, k2);
    }
  }

  lemma SameNonZeroSameResult(p1: seq<nat>, p2: seq<nat>)
    requires forall v :: v > 0 ==> multiset(p1)[v] == multiset(p2)[v]
    ensures CalculateRobustMean(Some(p1)) == CalculateRobustMean(Some(p2))
  {
    var nz1, nz2 := NonZero(p1), NonZero(p2);
    assert forall v :: multiset(nz1)[v] == multiset(nz2)[v];
    assert multiset(nz1) == multiset(nz2);
    if nz1 != [] {
      RobustOfPermutation(nz1, nz2);
    } else {
      assert |multiset(nz2)| == 0;
    }
  }

  /** Reordering the pixels does not change the result. */
  lemma OrderIrrelevant(p1: seq<nat>, p2: seq<nat>)
    requires multiset(p1) == multiset(p2)
    ensures CalculateRobustMean(Some(p1)) == CalculateRobustMean(Some(p2))
  {
    SameNonZeroSameResult(p1, p2);
  }

  /** Adding a zero pixel anywhere does not change the result. */
  lemma ZeroPixelsIgnored(a: seq<nat>, b: seq<nat>)
    ensures CalculateRobustMean(Some(a + [0] + b)) == CalculateRobustMean(Some(a + b))
  {
    assert multiset(a + [0] + b) == multiset(a + b) + multiset{0};
    SameNonZeroSameResult(a + [0] + b, a + b);
  }

  /** A value that occurs among the non-zero pixels and lies between the quartiles is kept. */
  lemma KeptNonEmpty(nz: seq<nat>, v: nat)
    requires |nz| > 0 && v in multiset(nz)
    requires Quartiles(nz).0 <= v as real <= Quartiles(nz).1
    ensures Kept(nz) != []
  {
    assert multiset(Kept(nz))[v] > 0;
  }

  /**
   * The fallback to the mean of all non-zero values is taken exactly when there
   * are two non-zero values and they differ. One value, or two equal ones, make
   * both quartiles that value; with three or more, the quartile ranks are at least
   * one apart, so some value's rank lies between them.
   */
  lemma FallbackIff(nz: seq<nat>)
    requires |nz| > 0
    ensures Kept(nz) == [] <==> |nz| == 2 && nz[0] != nz[1]
  {
    var s := SortAsc(nz);
    assert |s| == |multiset(s)| == |multiset(nz)| == |nz|;
    if |nz| == 1 {
      assert s[0] in multiset(nz);
      KeptNonEmpty(nz, s[0]);
    } else if |nz| == 2 {
      TwoValues(nz);
    } else {
      ThreeOrMoreKeepSome(nz);
    }
  }

  lemma TwoValues(nz: seq<nat>)
    requires |nz| == 2
    ensures Kept(nz) == [] <==> nz[0] != nz[1]
  {
    if nz[0] == nz[1] {
      TwoEqualKept(nz);
    } else {
      TwoDistinctNoneKept(nz);
    }
  }

  lemma TwoEqualKept(nz: seq<nat>)
    requires |nz| == 2 && nz[0] == nz[1]
    ensures Kept(nz) != []
  {
    var s := SortAsc(nz);
    TwoSorted(nz);
    TwoQuartiles(s);
    assert s[0] in multiset(nz);
    KeptNonEmpty(nz, s[0]);
  }

  lemma TwoDistinctNoneKept(nz: seq<nat>)
    requires |nz| == 2 && nz[0] != nz[1]
    ensures Kept(nz) == []
  {
    var s := SortAsc(nz);
    TwoSorted(nz);
    TwoQuartiles(s);
    var (p25, p75) := Quartiles(nz);
    QuartilesInside(s[0] as real, s[1] as real, p25, p75);
    assert nz == [nz[0], nz[1]];
    BetweenPair(nz[0], nz[1], p25, p75);
  }

  /** Between two distinct values, the quartiles lie strictly inside. */
  lemma QuartilesInside(x: real, y: real, p25: real, p75: real)
    requires x < y && p25 == x + 0.25 * (y - x) && p75 == x + 0.75 * (y - x)
    ensures x < p25 <= p75 < y
  {
  }

  /** Two values outside an interval leave nothing between its ends. */
  lemma BetweenPair(a: nat, b: nat, lo: real, hi: real)
    requires !(lo <= a as real <= hi) && !(lo <= b as real <= hi)
    ensures Between([a, b], lo, hi) == []
  {
    assert [a, b][1..] == [b] && [b][1..] == [];
    assert Between([b], lo, hi) == Between([], lo, hi) == [];
  }

  /** The sorted order of two values: the smaller, then the larger. */
  lemma TwoSorted(nz: seq<nat>)
    requires |nz| == 2
    ensures SortAsc(nz) == if nz[0] <= nz[1] then nz else [nz[1], nz[0]]
  {
    var a, b := nz[0], nz[1];
    assert nz[1..] == [b];
    SortSingle(b);
    assert SortAsc(nz) == Insert(a, [b]);
    InsertBeforeOne(a, b);
  }

  lemma SortSingle(b: nat)
    ensures SortAsc([b]) == [b]
  {
    assert [b][1..] == [];
  }

  /** Inserting into a one-element sequence puts the smaller value first. */
  lemma InsertBeforeOne(a: nat, b: nat)
    ensures Insert(a, [b]) == if a <= b then [a, b] else [b, a]
  {
    assert [b][1..] == [];
  }

  lemma TwoQuartiles(s: seq<nat>)
    requires |s| == 2 && Sorted(s)
    ensures Percentile(s, 25) == s[0] as real + 0.25 * (s[1] - s[0]) as real
    ensures Percentile(s, 75) == s[0] as real + 0.75 * (s[1] - s[0]) as real
  {
    assert PercentileRank(2, 25) == 0.25 && PercentileRank(2, 75) == 0.75;
  }

  lemma ThreeOrMoreKeepSome(nz: seq<nat>)
    requires |nz| >= 3
    ensures Kept(nz) != []
  {
    var s := SortAsc(nz);
    var n := |s|;
    assert n == |multiset(s)| == |multiset(nz)| == |nz|;
    var r25, r75 := PercentileRank(n, 25), PercentileRank(n, 75);
    var lo25, lo75 := r25.Floor, r75.Floor;
    assert r75 == r25 + (50 * (n - 1)) as real / 100.0;
    assert lo25 + 1 <= lo75;
    var k := if r25 == lo25 as real then lo25 else lo25 + 1;
    assert Percentile(s, 25) <= s[k] as real;
    assert s[k] <= s[lo75];
    assert s[k] as real <= Percentile(s, 75);
    assert s[k] in multiset(nz);
    KeptNonEmpty(nz, s[k]);
  }

  /** Two distinct non-zero values: nothing lies between the quartiles, so both are averaged. */
  lemma TwoDistinctValues(a: nat, b: nat)
    requires 0 < a && 0 < b && a != b
    ensures CalculateRobustMean(Some([a, b])) == Some((a + b) as real / 2.0)
  {
    var p := [a, b];
    NonZeroPair(a, b);
    TwoValues(p);
    SumPair(a, b);
  }

  lemma NonZeroPair(a: nat, b: nat)
    requires 0 < a && 0 < b
    ensures NonZero([a, b]) == [a, b]
  {
    assert [a, b][1..] == [b] && [b][1..] == [];
  }

  lemma SumPair(a: nat, b: nat)
    ensures Sum([a, b]) == a + b
  {
    assert [a, b][1..] == [b] && [b][1..] == [];
    assert Sum([b]) == b + Sum([]) == b;
  }
}
