/** The Mann-Whitney test case: `frequencies_to_list`, which expands a
    distribution into a plain list of observations, and `assertMatchesSciPy`,
    which runs the histogram engine and the reference computation on the
    expanded lists and demands the same U. The remaining members are the
    test case's scenarios, stated for every size rather than one. */
module MannWhitneyCheck {
  import opened Distributions
  import opened Reference
  import opened Significance

  /** `frequencies_to_list`: every value, repeated as often as the
      distribution says, value after value in whatever order the map's
      entries are visited. */
  method FrequenciesToList(frequencies: Distribution) returns (entries: seq<int>)
    ensures Expands(entries, frequencies)
    ensures |entries| == Total(frequencies)
  {
    entries := [];
    var pending := frequencies.Keys;
    while pending != {}
      invariant pending <= frequencies.Keys
      invariant forall v :: multiset(entries)[v] == if v in pending then 0 else Mult(frequencies, v)
      decreases |pending|
    {
      SomeMember(pending);
      var entry :| entry in pending;
      var count := frequencies[entry];
      entries := entries + Repeat(entry, count);
      pending := pending - {entry};
    }
    ExpandsLength(entries, frequencies);
  }

  /** `assertMatchesSciPy`: our U from the two distributions, the reference U
      from their expansions, and the two always agree (so does the reported
      U). */
  method AssertMatchesSciPy(a: Distribution, b: Distribution) returns (ours: UStatistic, correct: UStatistic)
    ensures ours == MannWhitney(a, b)
    ensures correct == ours
    ensures ours.TwiceReported() == correct.TwiceReported()
  {
    ours := MannWhitney(a, b);
    var listA := FrequenciesToList(a);
    var listB := FrequenciesToList(b);
    correct := ExpandedMannWhitney(listA, listB);
    MatchesExpandedReference(a, b, listA, listB);
  }

  // ---------------------------------------------------------------------
  // The test case's scenarios.

  /** `test_many_repeated_values`: {0: 100, 1: 50} against {0: 110, 1: 60}.
      The 210 zeros share the doubled midrank 211 and the 110 ones the doubled
      midrank 531, so 2·R_A = 211·100 + 531·50 and U_A = 12500, U_B = 13000. */
  lemma ManyRepeatedValues()
    ensures MannWhitney(map[0 := 100, 1 := 50], map[0 := 110, 1 := 60]) == UStatistic(25000, 26000)
    ensures MannWhitney(map[0 := 100, 1 := 50], map[0 := 110, 1 := 60]).TwiceReported() == 25000
  {
    var a: Distribution := map[0 := 100, 1 := 50];
    var b: Distribution := map[0 := 110, 1 := 60];
    SortedPair();
    assert a.Keys == {0, 1} && b.Keys == {0, 1} && a.Keys + b.Keys == {0, 1};
    assert Total(a) == 150 && Total(b) == 170;
    assert TwiceRankSumOfA([0, 1], a, b, 0) == 211 * 100 + 531 * 50;
  }

  /** The values 0 and 1 in increasing order. */
  lemma SortedPair()
    ensures SortedValues({0, 1}) == [0, 1]
  {
    var vs := SortedValues({0, 1});
    assert 0 in vs && 1 in vs;
    assert vs[0] < vs[1];
  }

  /** `dict((x, 1) for x in range(lo, lo + n))`: n consecutive values, one
      subject each. */
  function Consecutive(lo: int, n: nat): Distribution {
    map x | x in Range(lo, n) :: 1
  }

  /** The list `range(lo, lo + n)`. */
  function Range(lo: int, n: nat): seq<int> {
    seq(n, i => lo + i)
  }

  lemma {:induction false} RangeExpands(lo: int, n: nat)
    ensures Expands(Range(lo, n), Consecutive(lo, n))
  {
    if n > 0 {
      RangeExpands(lo, n - 1);
      assert Range(lo, n) == Range(lo, n - 1) + [lo + n - 1];
      forall v ensures Mult(Consecutive(lo, n), v)
                    == Mult(Consecutive(lo, n - 1), v) + (if v == lo + n - 1 then 1 else 0) {
      }
    }
  }

  /** A consecutive range holds `n` subjects. */
  lemma ConsecutiveTotal(lo: int, n: nat)
    ensures Total(Consecutive(lo, n)) == n
  {
    RangeExpands(lo, n);
    ExpandsLength(Range(lo, n), Consecutive(lo, n));
  }

  /** Scoring `x` against a range that starts at or below it and reaches
      past it: every value of the range below `x` scores 2, `x` itself 1. */
  lemma {:induction false} RowScoreRange(x: int, lo: int, n: nat)
    requires lo <= x < lo + n
    ensures RowScore(x, Range(lo, n)) == 2 * (x - lo) + 1
    decreases n
  {
    assert Range(lo, n)[0] == lo;
    assert Range(lo, n)[1..] == Range(lo + 1, n - 1);
    if x > lo {
      RowScoreRange(x, lo + 1, n - 1);
    } else {
      RowScoreBelow(x, lo + 1, n - 1);
    }
  }

  /** Nothing in a range that starts above `x` scores. */
  lemma {:induction false} RowScoreBelow(x: int, lo: int, n: nat)
    requires x < lo
    ensures RowScore(x, Range(lo, n)) == 0
    decreases n
  {
    if n > 0 {
      assert Range(lo, n)[0] == lo;
      assert Range(lo, n)[1..] == Range(lo + 1, n - 1);
      RowScoreBelow(x, lo + 1, n - 1);
    }
  }

  /** Scoring the range lo .. lo + k - 1 against a range that starts at `s`
      and contains all of it: each `x` scores 2·(x - s) + 1, and these odd
      numbers add up to a difference of squares. */
  lemma {:induction false} PairScoreInside(lo: int, k: nat, s: int, n: nat)
    requires s <= lo && lo + k <= s + n
    ensures PairScore(Range(lo, k), Range(s, n)) == (lo + k - s) * (lo + k - s) - (lo - s) * (lo - s)
    decreases k
  {
    if k > 0 {
      assert Range(lo, k)[0] == lo;
      assert Range(lo, k)[1..] == Range(lo + 1, k - 1);
      RowScoreRange(lo, s, n);
      PairScoreInside(lo + 1, k - 1, s, n);
      var d := lo - s;
      assert (d + 1) * (d + 1) == d * d + 2 * d + 1;
    }
  }

  /** The engine on two consecutive ranges is the pair count on the two lists. */
  lemma RangesPairCount(lo1: int, n1: nat, lo2: int, n2: nat)
    ensures MannWhitney(Consecutive(lo1, n1), Consecutive(lo2, n2))
         == UStatistic(PairScore(Range(lo1, n1), Range(lo2, n2)), PairScore(Range(lo2, n2), Range(lo1, n1)))
  {
    RangeExpands(lo1, n1);
    RangeExpands(lo2, n2);
    MatchesExpandedReference(Consecutive(lo1, n1), Consecutive(lo2, n2), Range(lo1, n1), Range(lo2, n2));
    PairCount(Range(lo1, n1), Range(lo2, n2));
  }

  /** `test_identical_ranges`: range(n) against itself gives U_A = U_B = n²/2
      (for n = 50, U = 1250). */
  lemma IdenticalRanges(n: nat)
    ensures MannWhitney(Consecutive(0, n), Consecutive(0, n)) == UStatistic(n * n, n * n)
    ensures MannWhitney(Consecutive(0, n), Consecutive(0, n)).TwiceReported() == n * n
  {
    IdenticalDistributions(Consecutive(0, n));
    ConsecutiveTotal(0, n);
  }

  /** `test_very_different_sizes`: range(n) against range(m), m <= n. Every
      observation y of the short list beats the y smaller values and ties
      once, so 2·U_B = m² and 2·U_A = 2nm - m²; the reported U is m²/2 (for
      n = 10000, m = 20, U = 200). */
  lemma VeryDifferentSizes(n: nat, m: nat)
    requires m <= n
    ensures MannWhitney(Consecutive(0, n), Consecutive(0, m)) == UStatistic(2 * (n * m) - m * m, m * m)
    ensures MannWhitney(Consecutive(0, n), Consecutive(0, m)).TwiceReported() == m * m
  {
    PrefixScores(n, m);
    RangesPairCount(0, n, 0, m);
  }

  /** The pair counts behind `VeryDifferentSizes`. */
  lemma PrefixScores(n: nat, m: nat)
    requires m <= n
    ensures PairScore(Range(0, m), Range(0, n)) == m * m
    ensures PairScore(Range(0, n), Range(0, m)) == 2 * (n * m) - m * m
    ensures m * m <= 2 * (n * m) - m * m
  {
    PairScoreInside(0, m, 0, n);
    PairScoreSwap(Range(0, n), Range(0, m));
    ProductMonotone(m, n, m);
  }

  lemma ProductMonotone(x: nat, y: nat, k: nat)
    requires x <= y
    ensures x * k <= y * k
  {
  }

  /** `test_large_range`: range(n) against range(1, n + 1). The pairs (x, x)
      for 1 <= x < n tie and every other winning pair has its larger value
      in the second list, so 2·U_A = (n - 1)² and 2·U_B = 2n² - (n - 1)²; the
      reported U is (n - 1)²/2 (for n = 10000, U = 49990000.5). */
  lemma LargeRange(n: nat)
    requires n >= 1
    ensures MannWhitney(Consecutive(0, n), Consecutive(1, n)) == UStatistic((n - 1) * (n - 1), 2 * (n * n) - (n - 1) * (n - 1))
    ensures MannWhitney(Consecutive(0, n), Consecutive(1, n)).TwiceReported() == (n - 1) * (n - 1)
  {
    ShiftedScores(n);
    RangesPairCount(0, n, 1, n);
  }

  /** The pair counts behind `LargeRange`. */
  lemma ShiftedScores(n: nat)
    requires n >= 1
    ensures PairScore(Range(0, n), Range(1, n)) == (n - 1) * (n - 1)
    ensures PairScore(Range(1, n), Range(0, n)) == 2 * (n * n) - (n - 1) * (n - 1)
    ensures (n - 1) * (n - 1) <= 2 * (n * n) - (n - 1) * (n - 1)
  {
    assert Range(0, n)[0] == 0;
    assert Range(0, n)[1..] == Range(1, n - 1);
    RowScoreBelow(0, 1, n);
    PairScoreInside(1, n - 1, 1, n);
    PairScoreSwap(Range(0, n), Range(1, n));
    ProductMonotone(n - 1, n, n - 1);
    ProductMonotone(n - 1, n, n);
  }
}
