/** The significance engine: the Mann-Whitney U statistic of two outcome
    distributions, computed from their value -> multiplicity maps without
    expanding them. The sorted distinct values are walked once; the tie group
    of each value occupies a block of ranks that starts after the
    observations already passed, so its midrank follows from cumulative
    multiplicities alone.

    The central result, `MatchesExpandedReference`, is the check made by
    `assertMatchesSciPy`: for every pair of distributions and every way of
    listing their observations, this engine and the reference computation on
    the expanded lists give the same two statistics. */
module Significance {
  import opened Distributions
  import opened Reference

  /** Twice the rank sum of sample A over the sorted distinct values `vs`,
      given that `below` observations (of either sample) lie below `vs[0]`.
      The tie group of `v` holds `count_a + count_b` observations; its doubled
      midrank is 2·below + tied + 1, and sample A owns `count_a` of them. */
  function TwiceRankSumOfA(vs: seq<int>, a: Distribution, b: Distribution, below: nat): int {
    if vs == [] then 0
    else
      var v := vs[0];
      var tied := Mult(a, v) + Mult(b, v);
      (2 * below + tied + 1) * Mult(a, v) + TwiceRankSumOfA(vs[1..], a, b, below + tied)
  }

  /** The engine's two statistics from n_A, n_B and 2·R_A. */
  function EngineStatistic(na: int, nb: int, twiceRankSum: int): UStatistic {
    var twiceUA := twiceRankSum - na * (na + 1);
    UStatistic(twiceUA, 2 * na * nb - twiceUA)
  }

  /** `mann_whitney(distribution_a, distribution_b)`, U part only, doubled:
      U_A = R_A - n_A(n_A + 1)/2 and U_B = n_A·n_B - U_A. When either sample is
      empty the sentinel U = 0 is returned without ranking anything. */
  function MannWhitney(a: Distribution, b: Distribution): UStatistic {
    var na, nb := Total(a), Total(b);
    if na == 0 || nb == 0 then UStatistic(0, 0)
    else
      EngineStatistic(na, nb, TwiceRankSumOfA(SortedValues(a.Keys + b.Keys), a, b, 0))
  }

  // ---------------------------------------------------------------------
  // Agreement with the reference computation on expanded lists.

  /** No observation of `c` lies below a lower bound of all of them. */
  lemma {:induction false} BelowNone(c: seq<int>, v: int)
    requires forall i :: 0 <= i < |c| ==> v <= c[i]
    ensures Below(c, v) == 0
  {
    if c != [] {
      BelowNone(c[1..], v);
    }
  }

  /** When no observation lies strictly between `v` and `w`, the observations
      below `w` are those below `v` plus the tie group of `v`. */
  lemma {:induction false} BelowStep(c: seq<int>, v: int, w: int)
    requires v < w
    requires forall i :: 0 <= i < |c| ==> c[i] <= v || w <= c[i]
    ensures Below(c, w) == Below(c, v) + multiset(c)[v]
  {
    if c != [] {
      BelowStep(c[1..], v, w);
      assert c == [c[0]] + c[1..];
      assert multiset(c) == multiset{c[0]} + multiset(c[1..]);
    }
  }

  lemma {:induction false} RankSumIsSeqSum(xs: seq<int>, c: seq<int>, f: int -> int)
    requires forall x :: f(x) == TwiceMidrank(c, x)
    ensures TwiceRankSum(xs, c) == SeqSum(xs, f)
  {
    if xs != [] {
      RankSumIsSeqSum(xs[1..], c, f);
    }
  }

  /** Walking the sorted values with a running count of the observations
      passed gives, value by value, the midranks of the expanded list. */
  lemma {:induction false} WeightedMidranks(vs: seq<int>, a: Distribution, b: Distribution,
                                            xs: seq<int>, c: seq<int>, f: int -> int, below: nat)
    requires StrictlyIncreasing(vs)
    requires Expands(xs, a)
    requires forall v :: multiset(c)[v] == Mult(a, v) + Mult(b, v)
    requires forall x :: f(x) == TwiceMidrank(c, x)
    requires forall i :: 0 <= i < |c| && vs != [] && vs[0] <= c[i] ==> c[i] in vs
    requires vs != [] ==> below == Below(c, vs[0])
    ensures WeightedSum(vs, multiset(xs), f) == TwiceRankSumOfA(vs, a, b, below)
  {
    if vs != [] {
      var tied := Mult(a, vs[0]) + Mult(b, vs[0]);
      TieGroup(vs, a, b, xs, c, f, below);
      WeightedMidranks(vs[1..], a, b, xs, c, f, below + tied);
      WeightedStep(vs, multiset(xs), f, a, b, below);
    }
  }

  /** The facts about the first tie group that the walk needs: its weight in
      A, its doubled midrank, and the invariant for the values after it. */
  lemma TieGroup(vs: seq<int>, a: Distribution, b: Distribution,
                 xs: seq<int>, c: seq<int>, f: int -> int, below: nat)
    requires vs != [] && StrictlyIncreasing(vs)
    requires Expands(xs, a)
    requires forall v :: multiset(c)[v] == Mult(a, v) + Mult(b, v)
    requires forall x :: f(x) == TwiceMidrank(c, x)
    requires forall i :: 0 <= i < |c| && vs[0] <= c[i] ==> c[i] in vs
    requires below == Below(c, vs[0])
    ensures multiset(xs)[vs[0]] == Mult(a, vs[0])
    ensures f(vs[0]) == 2 * below + Mult(a, vs[0]) + Mult(b, vs[0]) + 1
    ensures StrictlyIncreasing(vs[1..])
    ensures |vs| >= 2 ==> below + Mult(a, vs[0]) + Mult(b, vs[0]) == Below(c, vs[1])
    ensures forall i :: 0 <= i < |c| && |vs| >= 2 && vs[1] <= c[i] ==> c[i] in vs[1..]
  {
    var v := vs[0];
    assert multiset(xs)[v] == Mult(a, v);
    assert f(v) == 2 * below + multiset(c)[v] + 1;
    if |vs| >= 2 {
      NothingBetween(vs, c);
      BelowStep(c, v, vs[1]);
    }
  }

  /** One tie group: if the value's weight is its multiplicity in A and its
      weight function gives the group's doubled midrank, the two sums agree
      on `vs` as soon as they agree on the values after it. */
  lemma WeightedStep(vs: seq<int>, m: multiset<int>, f: int -> int,
                     a: Distribution, b: Distribution, below: nat)
    requires vs != []
    requires m[vs[0]] == Mult(a, vs[0])
    requires f(vs[0]) == 2 * below + Mult(a, vs[0]) + Mult(b, vs[0]) + 1
    requires WeightedSum(vs[1..], m, f)
          == TwiceRankSumOfA(vs[1..], a, b, below + Mult(a, vs[0]) + Mult(b, vs[0]))
    ensures WeightedSum(vs, m, f) == TwiceRankSumOfA(vs, a, b, below)
  {
  }

  /** Once every observation from `vs[0]` up is one of the listed values, no
      observation lies strictly between the first two of them, and every
      observation from `vs[1]` up is one of the values after the first. */
  lemma NothingBetween(vs: seq<int>, c: seq<int>)
    requires StrictlyIncreasing(vs) && |vs| >= 2
    requires forall i :: 0 <= i < |c| && vs[0] <= c[i] ==> c[i] in vs
    ensures forall i :: 0 <= i < |c| ==> c[i] <= vs[0] || vs[1] <= c[i]
    ensures forall i :: 0 <= i < |c| && vs[1] <= c[i] ==> c[i] in vs[1..]
  {
    forall i | 0 <= i < |c| && vs[0] < c[i] ensures vs[1] <= c[i] && c[i] in vs[1..] {
      var j :| 0 <= j < |vs| && vs[j] == c[i];
      assert j > 0;
      assert vs[1] <= vs[j];
      assert c[i] == vs[1..][j - 1];
    }
  }

  /** The engine's doubled rank sum of A equals the reference's, computed on
      any expansion of the two distributions. */
  lemma RankSumMatches(a: Distribution, b: Distribution, xs: seq<int>, ys: seq<int>)
    requires Expands(xs, a) && Expands(ys, b)
    ensures TwiceRankSumOfA(SortedValues(a.Keys + b.Keys), a, b, 0) == TwiceRankSum(xs, xs + ys)
  {
    var vs := SortedValues(a.Keys + b.Keys);
    var c := xs + ys;
    var f := (x: int) => TwiceMidrank(c, x);
    assert multiset(c) == multiset(xs) + multiset(ys);
    forall i | 0 <= i < |c| ensures c[i] in vs {
      assert c[i] in multiset(c);
      assert Mult(a, c[i]) + Mult(b, c[i]) > 0;
    }
    forall i | 0 <= i < |xs| ensures xs[i] in vs {
      assert xs[i] == c[i];
    }
    SortedIsDistinct(vs);
    RankSumIsSeqSum(xs, c, f);
    Regroup(xs, vs, f);
    if vs != [] {
      forall i | 0 <= i < |c| ensures vs[0] <= c[i] {
        var j :| 0 <= j < |vs| && vs[j] == c[i];
        assert j == 0 || vs[0] < vs[j];
      }
      BelowNone(c, vs[0]);
    }
    WeightedMidranks(vs, a, b, xs, c, f, 0);
  }

  /** What `assertMatchesSciPy` checks: for all distributions and all lists
      expanding them (in any order), the histogram engine returns exactly the
      statistics the reference computes on the lists, the degenerate case
      included. */
  lemma MatchesExpandedReference(a: Distribution, b: Distribution, xs: seq<int>, ys: seq<int>)
    requires Expands(xs, a) && Expands(ys, b)
    ensures MannWhitney(a, b) == ExpandedMannWhitney(xs, ys)
  {
    ExpandsLength(xs, a);
    ExpandsLength(ys, b);
    if Total(a) == 0 || Total(b) == 0 {
      ExpandedEmpty(xs, ys);
    } else {
      var twiceRankSum := TwiceRankSum(xs, xs + ys);
      assert MannWhitney(a, b) == EngineStatistic(Total(a), Total(b), twiceRankSum) by {
        RankSumMatches(a, b, xs, ys);
      }
      SameStatistic(|xs|, |ys|, twiceRankSum);
    }
  }

  /** The engine's formula (U_A from R_A, then U_B) and the reference's
      (u1 from R1, then u2) give the same pair of statistics. */
  lemma SameStatistic(n1: int, n2: int, twiceRankSum: int)
    ensures EngineStatistic(n1, n2, twiceRankSum) == ReferenceStatistic(n1, n2, twiceRankSum)
  {
  }

  // ---------------------------------------------------------------------
  // Consequences for the engine itself.

  /** Each U lies between 0 and n_A·n_B, the two add up to n_A·n_B, and the
      reported U is at most half of that. */
  lemma MannWhitneyBounds(a: Distribution, b: Distribution)
    ensures WithinBounds(MannWhitney(a, b), Total(a), Total(b))
  {
    var xs, ys := SortedExpansion(a), SortedExpansion(b);
    MatchesExpandedReference(a, b, xs, ys);
    ExpandsLength(xs, a);
    ExpandsLength(ys, b);
    ExpandedBounds(xs, ys);
  }

  /** Exchanging the two distributions exchanges U_A and U_B; the reported U
      does not change. */
  lemma MannWhitneySwap(a: Distribution, b: Distribution)
    ensures MannWhitney(b, a) == UStatistic(MannWhitney(a, b).twiceUB, MannWhitney(a, b).twiceUA)
    ensures MannWhitney(b, a).TwiceReported() == MannWhitney(a, b).TwiceReported()
  {
    var xs, ys := SortedExpansion(a), SortedExpansion(b);
    MatchesExpandedReference(a, b, xs, ys);
    MatchesExpandedReference(b, a, ys, xs);
    ExpandedSwap(xs, ys);
  }

  /** Comparing a distribution with itself gives U_A = U_B = n²/2. */
  lemma IdenticalDistributions(a: Distribution)
    ensures MannWhitney(a, a) == UStatistic(Total(a) * Total(a), Total(a) * Total(a))
  {
    MannWhitneySwap(a, a);
    MannWhitneyBounds(a, a);
    EqualHalves(MannWhitney(a, a), Total(a));
  }

  /** Two equal statistics within the bounds for two samples of size n are
      both n²/2. */
  lemma EqualHalves(r: UStatistic, n: int)
    requires r.twiceUA == r.twiceUB && WithinBounds(r, n, n)
    ensures r == UStatistic(n * n, n * n)
  {
  }

  /** `mann_whitney({}, {})` is defined and returns the sentinel U = 0. */
  lemma EmptySets()
    ensures MannWhitney(map[], map[]) == UStatistic(0, 0)
    ensures MannWhitney(map[], map[]).TwiceReported() == 0
  {
  }
}
