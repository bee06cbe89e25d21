/** The Mann-Whitney U statistic as the test suite's reference library computes
    it (scipy.stats.mannwhitneyu): on two plain lists of observations, by
    ranking their concatenation with midranks for ties. This is the meaning
    the histogram-based engine in module Significance is checked against.

    All statistics are kept doubled (2·U, 2·rank) so that the half-integers
    produced by ties stay exact integers. */
module Reference {

  /** Both U statistics of one comparison, doubled: `twiceUA` is 2·U for the
      first sample, `twiceUB` is 2·U for the second. */
  datatype UStatistic = UStatistic(twiceUA: int, twiceUB: int) {

    /** The U that is reported and compared with `assertEqual`: the smaller of
        the two, which is what scipy.stats.mannwhitneyu returned before
        version 1.7 (later versions return the first sample's U). */
    function TwiceReported(): (u: int)
      ensures u <= twiceUA && u <= twiceUB
      ensures u == twiceUA || u == twiceUB
    {
      if twiceUA <= twiceUB then twiceUA else twiceUB
    }
  }

  /** The bounds every pair of statistics for samples of sizes n1 and n2
      obeys: each U between 0 and n1·n2, the two adding up to n1·n2, and the
      reported (smaller) one at most n1·n2/2. All values are doubled. */
  predicate WithinBounds(r: UStatistic, n1: int, n2: int) {
    && 0 <= r.twiceUA <= 2 * (n1 * n2)
    && 0 <= r.twiceUB <= 2 * (n1 * n2)
    && r.twiceUA + r.twiceUB == 2 * (n1 * n2)
    && r.TwiceReported() <= n1 * n2
  }

  /** Number of observations in `c` strictly below `x`. */
  function Below(c: seq<int>, x: int): nat {
    if c == [] then 0 else (if c[0] < x then 1 else 0) + Below(c[1..], x)
  }

  /** Twice the midrank of `x` among the observations `c`. The tie group of `x`
      occupies the 1-based ranks Below + 1 .. Below + count, whose average,
      doubled, is 2·Below + count + 1. */
  function TwiceMidrank(c: seq<int>, x: int): int {
    2 * Below(c, x) + multiset(c)[x] + 1
  }

  /** Twice the sum of the midranks, among `c`, of the observations `xs`. */
  function TwiceRankSum(xs: seq<int>, c: seq<int>): int {
    if xs == [] then 0 else TwiceMidrank(c, xs[0]) + TwiceRankSum(xs[1..], c)
  }

  /** The reference computation on expanded lists: rank `xs + ys`, add up the
      ranks of `xs` into R1, take u1 = n1·n2 + n1(n1+1)/2 - R1 (which is the U
      of the second sample) and u2 = n1·n2 - u1. */
  function ExpandedMannWhitney(xs: seq<int>, ys: seq<int>): UStatistic {
    ReferenceStatistic(|xs|, |ys|, TwiceRankSum(xs, xs + ys))
  }

  /** The reference's two statistics from n1, n2 and 2·R1. */
  function ReferenceStatistic(n1: int, n2: int, twiceRankSum: int): UStatistic {
    var twiceU1 := 2 * n1 * n2 + n1 * (n1 + 1) - twiceRankSum;
    UStatistic(2 * n1 * n2 - twiceU1, twiceU1)
  }

  // ---------------------------------------------------------------------
  // The classical pair-counting meaning of U: U for the first sample is the
  // number of pairs (x, y) with x > y, plus half the number of tied pairs.

  /** Twice the Mann-Whitney kernel: 2 when `x` beats `y`, 1 on a tie, else 0. */
  function Score(x: int, y: int): nat {
    if y < x then 2 else if y == x then 1 else 0
  }

  /** Sum of `Score(x, y)` over the observations `y` of `ys`. */
  function RowScore(x: int, ys: seq<int>): nat {
    if ys == [] then 0 else Score(x, ys[0]) + RowScore(x, ys[1..])
  }

  /** Sum of `Score(x, y)` over all pairs of `xs` × `ys`. */
  function PairScore(xs: seq<int>, ys: seq<int>): nat {
    if xs == [] then 0 else RowScore(xs[0], ys) + PairScore(xs[1..], ys)
  }

  /** Scoring `x` against `c` counts twice the observations below it and once
      those equal to it. */
  lemma {:induction false} RowScoreIsRank(x: int, c: seq<int>)
    ensures RowScore(x, c) == 2 * Below(c, x) + multiset(c)[x]
  {
    if c != [] {
      RowScoreIsRank(x, c[1..]);
      assert c == [c[0]] + c[1..];
      assert multiset(c) == multiset{c[0]} + multiset(c[1..]);
    }
  }

  /** A doubled rank sum is the pair score plus one per ranked observation. */
  lemma {:induction false} RankSumIsPairScore(xs: seq<int>, c: seq<int>)
    ensures TwiceRankSum(xs, c) == PairScore(xs, c) + |xs|
  {
    if xs != [] {
      RowScoreIsRank(xs[0], c);
      RankSumIsPairScore(xs[1..], c);
    }
  }

  lemma {:induction false} RowScoreConcat(x: int, ys: seq<int>, zs: seq<int>)
    ensures RowScore(x, ys + zs) == RowScore(x, ys) + RowScore(x, zs)
  {
    if ys != [] {
      assert (ys + zs)[1..] == ys[1..] + zs;
      RowScoreConcat(x, ys[1..], zs);
    } else {
      assert ys + zs == zs;
    }
  }

  lemma {:induction false} PairScoreConcat(xs: seq<int>, ys: seq<int>, zs: seq<int>)
    ensures PairScore(xs, ys + zs) == PairScore(xs, ys) + PairScore(xs, zs)
  {
    if xs != [] {
      RowScoreConcat(xs[0], ys, zs);
      PairScoreConcat(xs[1..], ys, zs);
    }
  }

  /** Scoring `x` against every `y` and every `y` against `x` gives two points per pair. */
  lemma {:induction false} RowAndColumn(x: int, ys: seq<int>)
    ensures RowScore(x, ys) + PairScore(ys, [x]) == 2 * |ys|
  {
    if ys != [] {
      var y := ys[0];
      RowAndColumn(x, ys[1..]);
      assert RowScore(y, [x]) == Score(y, x);
      assert Score(x, y) + Score(y, x) == 2;
    }
  }

  lemma {:induction false} PairScoreNone(xs: seq<int>)
    ensures PairScore(xs, []) == 0
  {
    if xs != [] {
      PairScoreNone(xs[1..]);
    }
  }

  /** U for the first sample plus U for the second is n1·n2 (doubled here). */
  lemma {:induction false} PairScoreSwap(xs: seq<int>, ys: seq<int>)
    ensures PairScore(xs, ys) + PairScore(ys, xs) == 2 * (|xs| * |ys|)
  {
    if xs != [] {
      var x, rest := xs[0], xs[1..];
      assert xs == [x] + rest;
      PairScoreSwap(rest, ys);
      PairScoreConcat(ys, [x], rest);
      RowAndColumn(x, ys);
      ProductStep(|rest|, |ys|);
    } else {
      PairScoreNone(ys);
    }
  }

  /** The reference statistic is the classical pair count: 2·U_A scores every
      pair (x, y) of the two samples 2 when x > y and 1 when x = y. */
  lemma PairCount(xs: seq<int>, ys: seq<int>)
    ensures ExpandedMannWhitney(xs, ys) == UStatistic(PairScore(xs, ys), PairScore(ys, xs))
  {
    var n1, n2 := |xs|, |ys|;
    var ab, ba := PairScore(xs, ys), PairScore(ys, xs);
    var rankSum := TwiceRankSum(xs, xs + ys);
    assert rankSum == n1 * n1 + ab + n1 by {
      RankSumIsPairScore(xs, xs + ys);
      PairScoreConcat(xs, xs, ys);
      PairScoreSelf(xs);
    }
    assert ab + ba == 2 * (n1 * n2) by {
      PairScoreSwap(xs, ys);
    }
    UArithmetic(n1, n2, ab, ba, rankSum);
  }

  lemma ProductStep(m: nat, n: nat)
    ensures (m + 1) * n == m * n + n
  {
  }

  lemma PairScoreSelf(xs: seq<int>)
    ensures PairScore(xs, xs) == |xs| * |xs|
  {
    PairScoreSwap(xs, xs);
  }

  /** The algebra behind `PairCount`, kept apart from the sequences. */
  lemma UArithmetic(n1: int, n2: int, ab: int, ba: int, rankSum: int)
    requires rankSum == n1 * n1 + ab + n1
    requires ab + ba == 2 * (n1 * n2)
    ensures ReferenceStatistic(n1, n2, rankSum) == UStatistic(ab, ba)
  {
    assert n1 * (n1 + 1) == n1 * n1 + n1;
    assert 2 * n1 * n2 == 2 * (n1 * n2);
  }

  /** Each U lies between 0 and n1·n2, and the two add up to n1·n2. */
  lemma ExpandedBounds(xs: seq<int>, ys: seq<int>)
    ensures WithinBounds(ExpandedMannWhitney(xs, ys), |xs|, |ys|)
  {
    var r := ExpandedMannWhitney(xs, ys);
    var pairs := |xs| * |ys|;
    assert 2 * (|xs| * |ys|) == 2 * pairs;
    PairCount(xs, ys);
    PairScoreSwap(xs, ys);
    assert r.twiceUA + r.twiceUB == 2 * pairs;
    assert r.TwiceReported() * 2 <= r.twiceUA + r.twiceUB;
  }

  /** With an empty sample both statistics are zero: the engine's sentinel
      for that case is the value the reference formula gives. */
  lemma ExpandedEmpty(xs: seq<int>, ys: seq<int>)
    requires xs == [] || ys == []
    ensures ExpandedMannWhitney(xs, ys) == UStatistic(0, 0)
  {
    PairCount(xs, ys);
    PairScoreNone(xs);
    PairScoreNone(ys);
  }

  /** Exchanging the samples exchanges the two statistics. */
  lemma ExpandedSwap(xs: seq<int>, ys: seq<int>)
    ensures ExpandedMannWhitney(ys, xs).twiceUA == ExpandedMannWhitney(xs, ys).twiceUB
    ensures ExpandedMannWhitney(ys, xs).twiceUB == ExpandedMannWhitney(xs, ys).twiceUA
  {
    PairCount(xs, ys);
    PairCount(ys, xs);
  }
}
