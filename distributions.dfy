/** Outcome distributions: maps from an observed value to the number of
    subjects that showed it. Shared by the counter store (whose histogram is
    such a map) and the significance engine (which compares two of them).

    Besides the map type this module holds the arithmetic both sides need:
    the sorted distinct values of a set, sums of multiplicities, and the
    regrouping of a sum over a list of observations into a sum over its
    distinct values. */
module Distributions {

  /** Observation value -> multiplicity; an absent value has multiplicity zero. */
  type Distribution = map<int, nat>

  /** Multiplicity of `v` in `d` (zero when absent). */
  function Mult(d: Distribution, v: int): nat {
    if v in d then d[v] else 0
  }

  /** Every stored multiplicity is at least one (no zero entries). */
  ghost predicate Positive(d: Distribution) {
    forall v :: v in d ==> d[v] >= 1
  }

  ghost predicate StrictlyIncreasing(vs: seq<int>) {
    forall i, j :: 0 <= i < j < |vs| ==> vs[i] < vs[j]
  }

  ghost predicate Distinct(vs: seq<int>) {
    forall i, j :: 0 <= i < j < |vs| ==> vs[i] != vs[j]
  }

  /** `xs` is a list of observations expanding `d`: every value occurs in it
      exactly as often as `d` says, and nothing else occurs. */
  ghost predicate Expands(xs: seq<int>, d: Distribution) {
    forall v :: multiset(xs)[v] == Mult(d, v)
  }

  /** A non-empty set has a member (stated once, for the `:|` choices below). */
  lemma SomeMember(s: set<int>)
    requires s != {}
    ensures exists x :: x in s
  {
    if forall x :: x !in s {
      assert false;
    }
  }

  lemma MinimumExists(s: set<int>)
    requires s != {}
    ensures exists m :: m in s && forall y :: y in s ==> m <= y
  {
    SomeMember(s);
    var x :| x in s;
    MinimumAtMost(s, x);
  }

  /** A finite set of integers holding `x` has a least element, at most `x`. */
  lemma {:induction false} MinimumAtMost(s: set<int>, x: int)
    requires x in s
    ensures exists m :: m in s && m <= x && forall y :: y in s ==> m <= y
    decreases s
  {
    var others := s - {x};
    if others == {} {
      forall y | y in s ensures x <= y {
        assert y == x || y in others;
      }
    } else {
      SomeMember(others);
      var z :| z in others;
      MinimumAtMost(others, z);
      var m :| m in others && forall y :: y in others ==> m <= y;
      var least := if x < m then x else m;
      forall y | y in s ensures least <= y {
        if y != x {
          assert y in others;
        }
      }
      assert least in s && least <= x;
    }
  }

  /** The values of `s` in increasing order, each once: `sorted(s)`. */
  function SortedValues(s: set<int>): (vs: seq<int>)
    ensures StrictlyIncreasing(vs)
    ensures forall v :: v in vs <==> v in s
    ensures |vs| == |s|
    decreases s
  {
    if s == {} then []
    else
      MinimumExists(s);
      var m :| m in s && forall y :: y in s ==> m <= y;
      var rest := SortedValues(s - {m});
      PrependMinimum(m, s, rest);
      [m] + rest
  }

  /** The least value of `s` followed by the sorted rest is `s` sorted. */
  lemma PrependMinimum(m: int, s: set<int>, rest: seq<int>)
    requires m in s && forall y :: y in s ==> m <= y
    requires StrictlyIncreasing(rest)
    requires forall v :: v in rest <==> v in s - {m}
    requires |rest| == |s - {m}|
    ensures StrictlyIncreasing([m] + rest)
    ensures forall v :: v in [m] + rest <==> v in s
    ensures |[m] + rest| == |s|
  {
    var vs := [m] + rest;
    forall i, j | 0 <= i < j < |vs| ensures vs[i] < vs[j] {
      if i == 0 {
        assert vs[j] == rest[j - 1];
        assert rest[j - 1] in s - {m};
      } else {
        assert vs[i] == rest[i - 1] && vs[j] == rest[j - 1];
      }
    }
  }

  /** Sum of the multiplicities `d` gives to the values listed in `vs`. */
  function MultSum(vs: seq<int>, d: Distribution): nat {
    if vs == [] then 0 else Mult(d, vs[0]) + MultSum(vs[1..], d)
  }

  /** `sum(d.values())`: the number of observations `d` describes. */
  function Total(d: Distribution): nat {
    MultSum(SortedValues(d.Keys), d)
  }

  lemma {:induction false} MultSumAgree(vs: seq<int>, d1: Distribution, d2: Distribution)
    requires forall v :: v in vs ==> Mult(d1, v) == Mult(d2, v)
    ensures MultSum(vs, d1) == MultSum(vs, d2)
  {
    if vs != [] {
      MultSumAgree(vs[1..], d1, d2);
    }
  }

  /** Changing the multiplicity of one listed value changes the sum by the difference. */
  lemma {:induction false} MultSumUpdate(vs: seq<int>, d: Distribution, k: int, n: nat)
    requires Distinct(vs) && k in vs
    ensures MultSum(vs, d[k := n]) + Mult(d, k) == MultSum(vs, d) + n
  {
    if vs[0] == k {
      assert k !in vs[1..];
      MultSumAgree(vs[1..], d[k := n], d);
    } else {
      MultSumUpdate(vs[1..], d, k, n);
    }
  }

  /** Any duplicate-free listing of (at least) the keys of `d` sums to `Total(d)`. */
  lemma {:induction false} MultSumCovering(vs: seq<int>, d: Distribution)
    requires Distinct(vs)
    requires forall v :: v in d ==> v in vs
    ensures MultSum(vs, d) == Total(d)
    decreases d.Keys
  {
    var svs := SortedValues(d.Keys);
    SortedIsDistinct(svs);
    if d == map[] {
      MultSumAgree(vs, d, map[]);
      MultSumZero(vs);
      assert svs == [];
    } else {
      var k :| k in d;
      var rest := d - {k};
      RemoveThenRestore(d, k);
      MultSumCovering(vs, rest);
      MultSumCovering(svs, rest);
      MultSumSplit(vs, svs, rest, k, d[k]);
    }
  }

  lemma SortedIsDistinct(vs: seq<int>)
    requires StrictlyIncreasing(vs)
    ensures Distinct(vs)
  {
  }

  lemma MultSumSplit(vs1: seq<int>, vs2: seq<int>, rest: Distribution, k: int, n: nat)
    requires Distinct(vs1) && Distinct(vs2) && k in vs1 && k in vs2 && k !in rest
    requires MultSum(vs1, rest) == MultSum(vs2, rest)
    ensures MultSum(vs1, rest[k := n]) == MultSum(vs2, rest[k := n])
  {
    MultSumUpdate(vs1, rest, k, n);
    MultSumUpdate(vs2, rest, k, n);
  }

  lemma RemoveThenRestore(d: Distribution, k: int)
    requires k in d
    ensures (d - {k})[k := d[k]] == d
    ensures Mult(d - {k}, k) == 0
    ensures (d - {k}).Keys == d.Keys - {k}
  {
  }

  lemma {:induction false} MultSumZero(vs: seq<int>)
    ensures MultSum(vs, map[]) == 0
  {
    if vs != [] {
      MultSumZero(vs[1..]);
    }
  }

  /** Setting one multiplicity moves the total by the difference. */
  lemma TotalUpdate(d: Distribution, k: int, n: nat)
    ensures Total(d[k := n]) + Mult(d, k) == Total(d) + n
  {
    var vs := SortedValues(d.Keys + {k});
    MultSumCovering(vs, d);
    MultSumCovering(vs, d[k := n]);
    MultSumUpdate(vs, d, k, n);
  }

  /** Dropping a value removes exactly its multiplicity from the total. */
  lemma TotalRemove(d: Distribution, k: int)
    ensures Total(d - {k}) + Mult(d, k) == Total(d)
  {
    if k in d {
      RemoveThenRestore(d, k);
      TotalUpdate(d - {k}, k, d[k]);
    } else {
      assert d - {k} == d;
    }
  }

  // ---------------------------------------------------------------------
  // Regrouping a sum over observations into a sum over distinct values.

  /** `sum(f(x) for x in xs)`. */
  function SeqSum(xs: seq<int>, f: int -> int): int {
    if xs == [] then 0 else f(xs[0]) + SeqSum(xs[1..], f)
  }

  /** `sum(m[v] * f(v) for v in vs)`: a sum over distinct values weighted by a multiset. */
  function WeightedSum(vs: seq<int>, m: multiset<int>, f: int -> int): int {
    if vs == [] then 0 else m[vs[0]] * f(vs[0]) + WeightedSum(vs[1..], m, f)
  }

  lemma {:induction false} WeightedSumAdd(vs: seq<int>, m1: multiset<int>, m2: multiset<int>, f: int -> int)
    ensures WeightedSum(vs, m1 + m2, f) == WeightedSum(vs, m1, f) + WeightedSum(vs, m2, f)
  {
    if vs != [] {
      WeightedSumAdd(vs[1..], m1, m2, f);
      var v := vs[0];
      assert (m1 + m2)[v] * f(v) == m1[v] * f(v) + m2[v] * f(v) by {
        assert (m1 + m2)[v] == m1[v] + m2[v];
      }
    }
  }

  lemma {:induction false} WeightedSumNone(vs: seq<int>, f: int -> int)
    ensures WeightedSum(vs, multiset{}, f) == 0
  {
    if vs != [] {
      WeightedSumNone(vs[1..], f);
    }
  }

  lemma {:induction false} WeightedSumAbsent(vs: seq<int>, x: int, f: int -> int)
    requires x !in vs
    ensures WeightedSum(vs, multiset{x}, f) == 0
  {
    if vs != [] {
      WeightedSumAbsent(vs[1..], x, f);
    }
  }

  lemma {:induction false} WeightedSumSingle(vs: seq<int>, x: int, f: int -> int)
    requires Distinct(vs) && x in vs
    ensures WeightedSum(vs, multiset{x}, f) == f(x)
  {
    if vs[0] == x {
      assert x !in vs[1..];
      WeightedSumAbsent(vs[1..], x, f);
    } else {
      WeightedSumSingle(vs[1..], x, f);
    }
  }

  /** A sum over a list equals the sum over its distinct values, each value
      weighted by how often it occurs in the list. */
  lemma {:induction false} Regroup(xs: seq<int>, vs: seq<int>, f: int -> int)
    requires Distinct(vs)
    requires forall i :: 0 <= i < |xs| ==> xs[i] in vs
    ensures SeqSum(xs, f) == WeightedSum(vs, multiset(xs), f)
  {
    if xs != [] {
      var x, rest := xs[0], xs[1..];
      assert xs == [x] + rest;
      Regroup(rest, vs, f);
      assert multiset(xs) == multiset{x} + multiset(rest);
      WeightedSumAdd(vs, multiset{x}, multiset(rest), f);
      assert x in vs;
      WeightedSumSingle(vs, x, f);
    } else {
      WeightedSumNone(vs, f);
    }
  }

  lemma {:induction false} SeqSumOfOnes(xs: seq<int>, f: int -> int)
    requires forall x :: f(x) == 1
    ensures SeqSum(xs, f) == |xs|
  {
    if xs != [] {
      SeqSumOfOnes(xs[1..], f);
    }
  }

  lemma {:induction false} WeightedSumOfOnes(vs: seq<int>, xs: seq<int>, d: Distribution, f: int -> int)
    requires Expands(xs, d)
    requires forall x :: f(x) == 1
    ensures WeightedSum(vs, multiset(xs), f) == MultSum(vs, d)
  {
    if vs != [] {
      WeightedSumOfOnes(vs[1..], xs, d, f);
    }
  }

  /** Every observation of an expansion is a key of the distribution. */
  lemma ExpandsKeys(xs: seq<int>, d: Distribution)
    requires Expands(xs, d)
    ensures forall i :: 0 <= i < |xs| ==> xs[i] in d && d[xs[i]] >= 1
  {
    forall i | 0 <= i < |xs| ensures xs[i] in d && d[xs[i]] >= 1 {
      assert xs[i] in multiset(xs);
      assert Mult(d, xs[i]) > 0;
    }
  }

  /** An expansion has exactly `sum(d.values())` observations. */
  lemma ExpandsLength(xs: seq<int>, d: Distribution)
    requires Expands(xs, d)
    ensures |xs| == Total(d)
  {
    var vs := SortedValues(d.Keys);
    var one := (x: int) => 1;
    ExpandsKeys(xs, d);
    Regroup(xs, vs, one);
    SeqSumOfOnes(xs, one);
    WeightedSumOfOnes(vs, xs, d, one);
  }

  /** `[v] * n`. */
  function Repeat(v: int, n: nat): (r: seq<int>)
    ensures |r| == n
    ensures multiset(r) == multiset{}[v := n]
  {
    if n == 0 then [] else [v] + Repeat(v, n - 1)
  }

  /** The observations of the listed values, in the listed order, each
      repeated as often as `d` says. */
  function ExpandValues(vs: seq<int>, d: Distribution): (xs: seq<int>)
    requires Distinct(vs)
    ensures forall v :: multiset(xs)[v] == if v in vs then Mult(d, v) else 0
  {
    if vs == [] then []
    else
      assert vs[0] !in vs[1..];
      Repeat(vs[0], Mult(d, vs[0])) + ExpandValues(vs[1..], d)
  }

  /** The observations never decrease from left to right. */
  ghost predicate NonDecreasing(xs: seq<int>) {
    forall i, j :: 0 <= i < j < |xs| ==> xs[i] <= xs[j]
  }

  /** Expanding values listed in increasing order gives a non-decreasing
      list: each value's copies come after those of every smaller value. */
  lemma {:induction false} ExpandValuesSorted(vs: seq<int>, d: Distribution)
    requires StrictlyIncreasing(vs) && Distinct(vs)
    ensures NonDecreasing(ExpandValues(vs, d))
  {
    if vs != [] {
      assert vs[0] !in vs[1..];
      ExpandValuesSorted(vs[1..], d);
      RepeatConstant(vs[0], Mult(d, vs[0]));
      ExpandValuesAbove(vs, d);
      ConcatNonDecreasing(Repeat(vs[0], Mult(d, vs[0])), ExpandValues(vs[1..], d), vs[0]);
    }
  }

  /** Every copy in `[v] * n` is `v`. */
  lemma RepeatConstant(v: int, n: nat)
    ensures forall i :: 0 <= i < |Repeat(v, n)| ==> Repeat(v, n)[i] == v
  {
    var r := Repeat(v, n);
    forall i | 0 <= i < |r| ensures r[i] == v {
      assert r[i] in multiset(r);
    }
  }

  /** The observations of the values after the first all exceed it. */
  lemma ExpandValuesAbove(vs: seq<int>, d: Distribution)
    requires StrictlyIncreasing(vs) && Distinct(vs) && vs != []
    ensures Distinct(vs[1..])
    ensures forall j :: 0 <= j < |ExpandValues(vs[1..], d)| ==> vs[0] < ExpandValues(vs[1..], d)[j]
  {
    var rest := ExpandValues(vs[1..], d);
    forall j | 0 <= j < |rest| ensures vs[0] < rest[j] {
      assert rest[j] in multiset(rest);
      var k :| 0 <= k < |vs[1..]| && vs[1..][k] == rest[j];
      assert vs[k + 1] == rest[j];
    }
  }

  /** A block of copies of `v` followed by a non-decreasing list of values
      above `v` is non-decreasing. */
  lemma ConcatNonDecreasing(r: seq<int>, rest: seq<int>, v: int)
    requires forall i :: 0 <= i < |r| ==> r[i] == v
    requires forall j :: 0 <= j < |rest| ==> v < rest[j]
    requires NonDecreasing(rest)
    ensures NonDecreasing(r + rest)
  {
    var xs := r + rest;
    forall i, j | 0 <= i < j < |xs| ensures xs[i] <= xs[j] {
      if j < |r| {
        assert xs[i] == r[i] && xs[j] == r[j];
      } else if i < |r| {
        assert xs[i] == r[i] && xs[j] == rest[j - |r|];
      } else {
        assert xs[i] == rest[i - |r|] && xs[j] == rest[j - |r|];
      }
    }
  }

  /** One expansion of `d`, in increasing order of value: `sorted(frequencies_to_list(d))`. */
  function SortedExpansion(d: Distribution): (xs: seq<int>)
    ensures Expands(xs, d)
    ensures NonDecreasing(xs)
  {
    var vs := SortedValues(d.Keys);
    SortedIsDistinct(vs);
    ExpandValuesSorted(vs, d);
    ExpandValues(vs, d)
  }
}
