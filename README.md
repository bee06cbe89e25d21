# Frequency counters and Mann-Whitney U from histograms

This project models the statistical core of an online-experiments library.

- **Frequency counter store.** For every observation key it records how many times each item was seen. From that it derives a histogram: occurrence count → number of items seen exactly that often.
- **Significance engine.** It computes the Mann-Whitney U statistic directly from two such value → multiplicity maps, without expanding them into per-subject lists.
- **`frequencies_to_list` and `assertMatchesSciPy`.** These are the test suite's way of checking the engine. The first expands a distribution into a plain list. The second compares the engine's U with the U of a reference implementation run on the expanded lists.
- **`flatten`.** Yields the scalars of an irregularly nested list in left-to-right order.

`counters`, `significance.mann_whitney` and `stats.flatten` are modelled by the behaviour `experiments/tests.py` fixes for them; their implementation files are not followed line by line.

Modules:

- `Distributions`: the value → multiplicity map (`Distribution`), plus the arithmetic shared by the other modules:
  - sorted distinct values;
  - totals of multiplicities;
  - `Expands`, meaning "this list holds every value exactly as often as the map says";
  - regrouping a sum over a list into a weighted sum over its distinct values.
- `Counters`: the store, as a class `FrequencyCounter` with a `map<Key, map<Item, nat>>` field. `Histogram` is a function of one key's state, and the module proves lemmas about how increments change it. It also replays the counter tests on any store, each starting from the set-up's reset of the test key.
- `Reference`: the U statistic of the reference library's definition on two plain lists, in exact (doubled) integer arithmetic. The lists are concatenated and ranked with midranks for ties. The result is characterised as the classical pair count: U_A = #{x > y} + ½·#{x = y}.
- `Significance`: `MannWhitney`, the histogram algorithm. It walks the sorted distinct values of both maps with a running count of the observations already passed. The tie group of value v then has doubled midrank 2·below + tied + 1. Sample A's doubled rank sum gives 2·U_A = 2·R_A − n_A(n_A + 1), and 2·U_B = 2·n_A·n_B − 2·U_A. The main theorem, `MatchesExpandedReference`, states that for all inputs and all expansions in any order, this equals the reference computed on the lists.
- `MannWhitneyCheck`: `FrequenciesToList` (the loop of `frequencies_to_list`), `AssertMatchesSciPy`, and the test case's scenarios. The range scenarios (identical ranges, very different sizes, large range) are proved for every size rather than only the size in the test; the repeated-values scenario is the test's single fixed instance.
- `Stats`: `Nested<T> = Leaf(value) | Node(children)`, with `Flatten`/`Leaves` and their properties.

Conventions:

- Every U and every rank is kept **doubled** (`twiceUA`, `twiceUB`), so tie midranks, which are half-integers, stay exact integers.
- The U that is reported and compared with `assertEqual` is **the smaller of U_A and U_B**. `scipy.stats.mannwhitneyu` returned that value before version 1.7, and this test suite (Python 2, `django.utils.unittest`) predates 1.7. Both statistics are still computed, and `UStatistic.TwiceReported` selects the smaller one.
- When either sample is empty (n_A = 0 or n_B = 0), `MannWhitney` returns U_A = U_B = 0 without ranking anything. `Reference.ExpandedEmpty` shows that the reference formula gives the same value on empty lists.

## Model

| member | source | states |
|---|---|---|
| `Distributions.Repeat` | experiments/tests.py:32 | `[entry] * count` has length `count` and holds `entry` exactly `count` times and nothing else |
| `Distributions.ExpandsLength` | experiments/tests.py:29-33 | any list that expands a distribution has length equal to the sum of its multiplicities |
| `Distributions.SortedExpansion` | experiments/tests.py:29-33 | every distribution has an expansion, and that expansion is non-decreasing (`sorted(frequencies_to_list(d))`) |
| `MannWhitneyCheck.FrequenciesToList` | experiments/tests.py:29-33 | the loop over `frequencies.items()` returns a list holding every value exactly as often as the map says, whatever order the entries are visited in; its length is the total multiplicity |
| `MannWhitneyCheck.AssertMatchesSciPy` | experiments/tests.py:55-60 | our U from the maps and the reference U from the expanded lists are equal, for every pair of distributions, and so are the reported U's |
| `Significance.MannWhitney` | experiments/tests.py:56 | `mann_whitney(a, b)`, U part, doubled: U = 0 for an empty sample, else 2·U_A = 2·R_A − n_A(n_A + 1) and 2·U_B = 2·n_A·n_B − 2·U_A. Its meaning is pinned by `MatchesExpandedReference`, `MannWhitneyBounds`, `MannWhitneySwap` and `EmptySets` |
| `Significance.TwiceRankSumOfA` | experiments/tests.py:56-59 | twice A's rank sum from cumulative multiplicities; pinned by `RankSumMatches` (equal to the doubled midrank sum of A among the expanded observations) |
| `Significance.MatchesExpandedReference` | experiments/tests.py:55-60 | for all distributions and all lists expanding them, `MannWhitney` equals the reference computation on the lists (both U's, the empty case included) |
| `Significance.RankSumMatches` | experiments/tests.py:56-59 | the doubled rank sum of A from cumulative multiplicities equals the doubled sum of A's midranks in the ranked concatenation of the lists |
| `Significance.WeightedMidranks` | experiments/tests.py:56-59 | walking the sorted distinct values with the running count `below` assigns each value the doubled midrank its tie group has among the expanded observations |
| `Significance.MannWhitneyBounds` | experiments/tests.py:56 | `WithinBounds`: 0 ≤ U_A, U_B ≤ n_A·n_B, U_A + U_B = n_A·n_B, and the reported U is at most n_A·n_B/2 |
| `Significance.MannWhitneySwap` | experiments/tests.py:56 | exchanging the two distributions exchanges U_A and U_B and leaves the reported U unchanged |
| `Significance.IdenticalDistributions` | experiments/tests.py:38-40 | a distribution compared with itself gives U_A = U_B = n²/2 |
| `Significance.EmptySets` | experiments/tests.py:35-36 | `mann_whitney({}, {})` is defined and gives U = 0 |
| `Reference.UStatistic.TwiceReported` | experiments/tests.py:60 | the reported U is the smaller of the two statistics and is one of them |
| `Reference.ExpandedMannWhitney` | experiments/tests.py:57-59 | the stand-in for `scipy.stats.mannwhitneyu` on the expanded lists: midranks of the concatenation, u1 = n1·n2 + n1(n1+1)/2 − R1, u2 = n1·n2 − u1; pinned by `PairCount`, `ExpandedBounds`, `ExpandedSwap` and `ExpandedEmpty` |
| `Reference.PairCount` | experiments/tests.py:57-59 | the rank-sum formula on the concatenated lists equals the pair count: 2·U_A scores 2 for each pair with x > y and 1 for each tie |
| `Reference.ExpandedBounds` | experiments/tests.py:57-59 | `WithinBounds` for the reference: its U's lie in [0, n_A·n_B], add up to n_A·n_B, and the smaller is at most half of that |
| `Reference.ExpandedEmpty` | experiments/tests.py:35-36 | with an empty list both reference U's are 0, so the engine's sentinel is the reference value |
| `Reference.ExpandedSwap` | experiments/tests.py:57-59 | exchanging the lists exchanges the reference U's |
| `MannWhitneyCheck.ManyRepeatedValues` | experiments/tests.py:42-43 | {0: 100, 1: 50} against {0: 110, 1: 60} gives U_A = 12500, U_B = 13000, reported 12500 |
| `MannWhitneyCheck.IdenticalRanges` | experiments/tests.py:38-40 | range(n) against itself gives U_A = U_B = n²/2 (1250 for n = 50) |
| `MannWhitneyCheck.LargeRange` | experiments/tests.py:45-48 | range(n) against range(1, n + 1) gives U_A = (n − 1)²/2 and U_B = n² − (n − 1)²/2; the reported U is U_A |
| `MannWhitneyCheck.VeryDifferentSizes` | experiments/tests.py:50-53 | range(n) against range(m), m ≤ n, gives U_B = m²/2 and U_A = nm − m²/2; the reported U is U_B (200 for n = 10000, m = 20) |
| `MannWhitneyCheck.RangeExpands` | experiments/tests.py:46-47 | `dict((x, 1) for x in range(lo, lo + n))` expands to the list `range(lo, lo + n)` |
| `Counters.Bump` | experiments/tests.py:73 | one increment adds the item to the keys, raises its count by one (from 0 for a new item), and leaves every other item's count unchanged |
| `Counters.Histogram` | experiments/tests.py:97 | the value `get_frequencies` returns for one key's state; pinned by `HistogramCounts`, `HistogramKeysPositive`, `HistogramTotal` and `HistogramAfterBump` |
| `Counters.HistogramCounts` | experiments/tests.py:97 | the histogram (`Counters.Histogram`) maps each count to the number of items with exactly that count, and holds no zero entries |
| `Counters.HistogramKeysPositive` | experiments/tests.py:97 | when every stored count is at least 1, every key of the histogram is at least 1 |
| `Counters.HistogramStep` | experiments/tests.py:97 | the step of `get_frequencies`: adding one more item to the bucket of its count turns the histogram of the items visited so far into the histogram of those items and this one |
| `Counters.HistogramAdd` | experiments/tests.py:89-97 | a new item seen `c` times adds one to bucket `c` and changes no other bucket |
| `Counters.HistogramAfterBump` | experiments/tests.py:89-97 | an increment moves its item from the bucket of its old count k to bucket k + 1 (a new item just joins bucket 1) |
| `Counters.HistogramTotal` | experiments/tests.py:89-97 | the histogram's multiplicities add up to the number of distinct items |
| `Counters.HistogramEmpty` | experiments/tests.py:100-103 | a key without items has an empty histogram |
| `Counters.Replay` | experiments/tests.py:72-97 | after a sequence of increments the keys are the items seen so far, and each item's count is its number of occurrences in the sequence |
| `Counters.ReplayPositive` | experiments/tests.py:72-97 | increments keep every stored count at least 1 |
| `Counters.DistinctItems` | experiments/tests.py:76-87 | after counting a sequence from scratch, `get` is the number of distinct items in it, however often each repeats |
| `Counters.RepeatedItem` | experiments/tests.py:83-87 | one item counted n ≥ 1 times is stored as count n: one distinct item, histogram {n: 1} |
| `Counters.FrequenciesExample` | experiments/tests.py:89-97 | fred, barney, george once and roger four times give the histogram {1: 3, 4: 1} and four distinct items |
| `Counters.FrequencyCounter.constructor` | experiments/tests.py:64-67 | a new store holds no key |
| `Counters.FrequencyCounter.Increment` | experiments/tests.py:73 | `increment(key, item)` replaces the key's state by its bump and leaves every other key unchanged |
| `Counters.FrequencyCounter.Get` | experiments/tests.py:74 | `get(key)` is the number of distinct items under `key`, equals the sum of its histogram, and is 0 exactly for an unknown or reset key |
| `Counters.FrequencyCounter.GetFrequencies` | experiments/tests.py:97 | `get_frequencies(key)` is the histogram of the key's current state, and every key of it is a positive occurrence count |
| `Counters.FrequencyCounter.Reset` | experiments/tests.py:102 | `reset(key)` removes the key's state and keeps every other key |
| `Counters.FreshKey` | experiments/tests.py:65-67 | on any store, the set-up's `reset` empties the test key, keeps every other key, and `get` then reads 0 |
| `Counters.AddItem` | experiments/tests.py:72-74 | one increment gives `get == 1` |
| `Counters.AddMultipleItems` | experiments/tests.py:76-81 | fred, barney, george, george gives `get == 3` |
| `Counters.ThreeNames` | experiments/tests.py:76-81 | the state after fred, barney, george, george holds three distinct items |
| `Counters.AddDuplicateItem` | experiments/tests.py:83-87 | fred three times gives `get == 1` and the histogram {3: 1} |
| `Counters.GetFrequenciesScenario` | experiments/tests.py:89-97 | fred, barney, george, roger×4 gives `get == 4` and `get_frequencies == {1: 3, 4: 1}` |
| `Counters.FrequenciesState` | experiments/tests.py:89-95 | the state after fred, barney, george, roger×4 counts each of the first three once and roger four times |
| `Counters.SingleItem` | experiments/tests.py:83-87 | a state holding one item with count n has one distinct item and the histogram {n: 1} |
| `Counters.DeleteKey` | experiments/tests.py:100-103 | an increment followed by `reset` gives `get == 0` and an empty histogram |
| `Stats.Flatten` | experiments/tests.py:21-25 | `flatten(items)`: the leaves of every element, element after element; pinned by `FlattenMembers`, `FlattenConcat`, `FlattenScalars` and `FlattenExample` |
| `Stats.Leaves` | experiments/tests.py:21-25 | the leaves of one element: a scalar yields itself, a list its flattening; pinned by `LeavesAreOccurrences` |
| `Stats.FlattenConcat` | experiments/tests.py:21-25 | flattening preserves order: the leaves of `xs + ys` are those of `xs` followed by those of `ys` |
| `Stats.FlattenMembers` | experiments/tests.py:21-25 | a value is in `flatten(items)` exactly when it is a scalar somewhere inside one of the items, at any depth |
| `Stats.LeavesAreOccurrences` | experiments/tests.py:21-25 | the leaves of one element are exactly the scalars inside it |
| `Stats.FlattenScalars` | experiments/tests.py:21-25 | a list without nested lists flattens to itself |
| `Stats.FlattenIdempotent` | experiments/tests.py:21-25 | flattening the result again changes nothing |
| `Stats.NestingIsInvisible` | experiments/tests.py:21-25 | wrapping a list in another list does not change its leaves; an empty list yields nothing |
| `Stats.FlattenExample` | experiments/tests.py:21-25 | `flatten([1, [2, [3]], 4, 5])` yields `[1, 2, 3, 4, 5]` |

## Left out

- U is a floating-point number in the program and in scipy; it can be a half-integer (49990000.5 in experiments/tests.py:45-48). The model keeps every U doubled as an exact integer, which matches the floating-point value only while rank sums and U stay exactly representable as doubles; rounding beyond that is not modelled.
- The p-value returned by `mann_whitney` and compared with `assertAlmostEqual` (experiments/tests.py:61). It is a floating-point normal tail probability with tie correction. Only U is modelled, exactly.
- `scipy.stats.mannwhitneyu` itself is a foreign library and is not part of this model. `Reference.ExpandedMannWhitney` stands in for it: rank the concatenation with midranks, R1 = A's rank sum, u1 = n1·n2 + n1(n1+1)/2 − R1, u2 = n1·n2 − u1, report min(u1, u2).
- The web-user, enrollment, session and bot tests (experiments/tests.py:107 onwards). They depend on Django requests, database-backed sessions and `Experiment.save()`.
- The counters' storage backend, and any locking around a shared key. The store is a single in-memory object, and calls on it are sequential.
- The test fixtures `setUp`/`tearDown`. `Counters.FreshKey` plays the role of `setUp` (reset, then `get == 0`); nothing after a scenario needs cleaning up.
- Observation values are integers. The engine's ordering argument holds for any totally ordered type, but non-integer values (floats) are not modelled.
- Multiplicities and counts are natural numbers. Negative multiplicities, which the engine would have to reject, cannot be expressed. Python's `[entry] * count` with a negative count is therefore not modelled either.
- Keys and items are strings. Python accepts any hashable value.
- `stats.flatten` is a lazy generator. It is modelled by the finite sequence it yields. Python's distinction between a list element that is a list and one that is a scalar is the `Node`/`Leaf` distinction of the datatype.
- `MannWhitneyCheck.FrequenciesToList`: dictionary iteration order is not fixed. The loop takes the remaining keys in an arbitrary order, so the contract describes the list's contents, not its order.
