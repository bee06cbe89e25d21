/** The frequency counter store: for each observation key, how many times
    each item has been seen under it. Only item -> count is stored; the
    histogram "occurrence count -> number of items seen exactly that often"
    is derived from it on demand, so memory and the histogram's cost follow
    the number of distinct items rather than the number of events. */
module Counters {
  import opened Distributions

  /** Observation keys and counted items are strings. */
  type Key = string
  type Item = string

  /** The state of one key: item -> number of times it was counted. */
  type Counts = map<Item, nat>

  /** How many times `item` has been counted (zero when never seen). */
  function Occurrences(m: Counts, item: Item): nat {
    if item in m then m[item] else 0
  }

  /** The per-key state after one more occurrence of `item`: a new item
      starts at 1, a known one goes up by 1, and no other item changes. */
  function Bump(m: Counts, item: Item): (r: Counts)
    ensures r.Keys == m.Keys + {item}
    ensures Occurrences(r, item) == Occurrences(m, item) + 1
    ensures forall other :: other != item ==> Occurrences(r, other) == Occurrences(m, other)
  {
    m[item := Occurrences(m, item) + 1]
  }

  /** Every counted item has been seen at least once. */
  ghost predicate AllPositive(m: Counts) {
    forall item :: item in m ==> m[item] >= 1
  }

  /** The items seen exactly `count` times. */
  function ItemsWithCount(m: Counts, count: int): set<Item> {
    set item | item in m && m[item] == count
  }

  /** `get_frequencies`: occurrence count -> number of items with exactly
      that count. Counts nobody reached are absent, never mapped to zero. */
  function Histogram(m: Counts): Distribution {
    map count: int | count in m.Values :: |ItemsWithCount(m, count)|
  }

  /** Every count maps to the number of items seen exactly that often, and
      no count maps to zero. */
  lemma HistogramCounts(m: Counts)
    ensures forall count :: Mult(Histogram(m), count) == |ItemsWithCount(m, count)|
    ensures Positive(Histogram(m))
  {
    forall count | count in m.Values ensures |ItemsWithCount(m, count)| >= 1 {
      var item :| item in m && m[item] == count;
      assert item in ItemsWithCount(m, count);
    }
    forall count | count !in m.Values ensures ItemsWithCount(m, count) == {} {
      forall item | item in m ensures m[item] != count {
        assert m[item] in m.Values;
      }
    }
  }

  /** Two distributions without zero entries are equal when they agree on
      every multiplicity. */
  lemma PositiveExtensionality(d1: Distribution, d2: Distribution)
    requires Positive(d1) && Positive(d2)
    requires forall v :: Mult(d1, v) == Mult(d2, v)
    ensures d1 == d2
  {
    forall v ensures v in d1 <==> v in d2 {
      assert Mult(d1, v) == Mult(d2, v);
    }
    forall v | v in d1 ensures d1[v] == d2[v] {
      assert Mult(d1, v) == Mult(d2, v);
    }
  }

  /** Counting a new item `count` times adds one item to that bucket and
      changes no other bucket. */
  lemma HistogramAdd(m: Counts, item: Item, count: nat)
    requires item !in m
    ensures Histogram(m[item := count])
         == Histogram(m)[count := Mult(Histogram(m), count) + 1]
  {
    var h := Histogram(m);
    var h' := h[count := Mult(h, count) + 1];
    var m' := m[item := count];
    HistogramCounts(m);
    HistogramCounts(m');
    forall c ensures Mult(Histogram(m'), c) == Mult(h', c) {
      BucketAdd(m, item, count, c);
    }
    PositiveExtensionality(Histogram(m'), h');
  }

  /** A new item seen `count` times joins bucket `count` and no other. */
  lemma BucketAdd(m: Counts, item: Item, count: nat, c: int)
    requires item !in m
    ensures |ItemsWithCount(m[item := count], c)| == |ItemsWithCount(m, c)| + (if c == count then 1 else 0)
  {
    if c == count {
      BucketJoin(m, item, count);
    } else {
      BucketOther(m, item, count, c);
    }
  }

  /** The bucket of the new item's own count gains exactly that item. */
  lemma BucketJoin(m: Counts, item: Item, count: nat)
    requires item !in m
    ensures ItemsWithCount(m[item := count], count) == ItemsWithCount(m, count) + {item}
    ensures item !in ItemsWithCount(m, count)
  {
  }

  /** Every other bucket is untouched by the new item. */
  lemma BucketOther(m: Counts, item: Item, count: nat, c: int)
    requires item !in m && c != count
    ensures ItemsWithCount(m[item := count], c) == ItemsWithCount(m, c)
  {
  }

  /** Only counts some item has reached appear: with every stored count at
      least 1, so is every key of the histogram. */
  lemma HistogramKeysPositive(m: Counts)
    requires AllPositive(m)
    ensures forall count :: count in Histogram(m) ==> count >= 1
  {
    forall count | count in Histogram(m) ensures count >= 1 {
      var item :| item in m && m[item] == count;
    }
  }

  /** The step of `get_frequencies`: adding one more item to the bucket of
      its count turns the histogram of the items seen so far into the
      histogram of those items and this one. */
  lemma HistogramStep(frequencies: Distribution, done: Counts, item: Item, count: nat)
    requires frequencies == Histogram(done)
    requires item !in done
    ensures frequencies[count := Mult(frequencies, count) + 1] == Histogram(done[item := count])
  {
    HistogramAdd(done, item, count);
  }

  /** Part way through a pass over `m`: the items already visited keep their
      counts in `done`, and `pending` holds exactly the others. */
  ghost predicate Progress(m: Counts, done: Counts, pending: set<Item>) {
    && pending !! done.Keys
    && pending + done.Keys == m.Keys
    && forall item :: item in done ==> done[item] == m[item]
  }

  /** Visiting one pending item moves it, with its count, into `done`. */
  lemma ProgressStep(m: Counts, done: Counts, pending: set<Item>, item: Item)
    requires Progress(m, done, pending) && item in pending
    ensures Progress(m, done[item := m[item]], pending - {item})
  {
  }

  /** A finished pass has copied every item. */
  lemma ProgressDone(m: Counts, done: Counts)
    requires Progress(m, done, {})
    ensures done == m
  {
    assert done.Keys == m.Keys;
  }

  /** The histogram's multiplicities add up to the number of distinct items:
      `sum(get_frequencies(k).values()) == get(k)`. */
  lemma {:induction false} HistogramTotal(m: Counts)
    ensures Total(Histogram(m)) == |m|
    decreases |m|
  {
    if m == map[] {
      HistogramEmpty();
      MultSumZero(SortedValues({}));
    } else {
      var item :| item in m;
      var rest := m - {item};
      assert m == rest[item := m[item]];
      assert |rest| == |m| - 1;
      HistogramTotal(rest);
      NewItemTotal(rest, item, m[item]);
    }
  }

  /** A new item adds one to the histogram's total. */
  lemma NewItemTotal(m: Counts, item: Item, count: nat)
    requires item !in m
    ensures Total(Histogram(m[item := count])) == Total(Histogram(m)) + 1
  {
    var h := Histogram(m);
    HistogramAdd(m, item, count);
    TotalUpdate(h, count, Mult(h, count) + 1);
  }

  /** One more occurrence of an item moves it from the bucket of its old
      count to the bucket of its old count plus one; a new item simply joins
      bucket 1. */
  lemma HistogramAfterBump(m: Counts, item: Item)
    ensures var k := Occurrences(m, item);
      forall c :: Mult(Histogram(Bump(m, item)), c)
               == Mult(Histogram(m), c)
                  - (if item in m && c == k then 1 else 0)
                  + (if c == k + 1 then 1 else 0)
  {
    var k := Occurrences(m, item);
    var rest := m - {item};
    var h := Histogram(rest);
    RemoveAndAdd(m, item, k + 1);
    if item in m {
      RemoveAndAdd(m, item, k);
      assert m[item := k] == m;
    } else {
      assert rest == m;
    }
    BucketMove(h, Histogram(Bump(m, item)), Histogram(m), item in m, k);
  }

  /** Giving `item` the count `count` is adding it, with that count, to the
      other items. */
  lemma RemoveAndAdd(m: Counts, item: Item, count: nat)
    ensures var h := Histogram(m - {item});
      Histogram(m[item := count]) == h[count := Mult(h, count) + 1]
  {
    assert m[item := count] == (m - {item})[item := count];
    HistogramAdd(m - {item}, item, count);
  }

  /** The bucket arithmetic of one bump, on histograms taken as values. */
  lemma BucketMove(h: Distribution, after: Distribution, before: Distribution, seen: bool, k: nat)
    requires after == h[k + 1 := Mult(h, k + 1) + 1]
    requires seen ==> before == h[k := Mult(h, k) + 1]
    requires !seen ==> before == h
    ensures forall c :: Mult(after, c)
               == Mult(before, c) - (if seen && c == k then 1 else 0) + (if c == k + 1 then 1 else 0)
  {
  }

  /** The per-key state after counting `items` in order, starting from `m`. */
  function Replay(m: Counts, items: seq<Item>): (r: Counts)
    ensures r.Keys == m.Keys + set i | i in items
    ensures forall item :: Occurrences(r, item) == Occurrences(m, item) + multiset(items)[item]
    decreases |items|
  {
    if items == [] then m
    else
      assert items == [items[0]] + items[1..];
      Replay(Bump(m, items[0]), items[1..])
  }

  /** Counting only positive increments keeps every count positive. */
  lemma {:induction false} ReplayPositive(m: Counts, items: seq<Item>)
    requires AllPositive(m)
    ensures AllPositive(Replay(m, items))
  {
    var r := Replay(m, items);
    forall item | item in r ensures r[item] >= 1 {
      assert Occurrences(r, item) == r[item];
      if item !in m {
        assert item in items;
        assert multiset(items)[item] >= 1;
      }
    }
  }

  /** `get` after counting `items` from scratch is the number of distinct
      items among them, however often each was repeated, and each item's
      count is its number of occurrences. */
  lemma DistinctItems(items: seq<Item>)
    ensures |Replay(map[], items)| == |set i | i in items|
    ensures forall item :: Occurrences(Replay(map[], items), item) == multiset(items)[item]
  {
    var r := Replay(map[], items);
    assert r.Keys == set i | i in items;
  }

  /** The counts of one key, stored per key. Keys are independent: every
      operation touches the state of the key it is given and no other. */
  class FrequencyCounter {
    var counts: map<Key, Counts>

    /** Every stored item has been counted at least once. */
    ghost predicate Valid()
      reads this
    {
      forall key :: key in counts ==> AllPositive(counts[key])
    }

    /** The state of `key`; an unknown or reset key has no items. */
    function PerKey(key: Key): Counts
      reads this
    {
      if key in counts then counts[key] else map[]
    }

    constructor()
      ensures Valid()
      ensures counts == map[]
    {
      counts := map[];
    }

    /** `increment(key, item)`: one more occurrence of `item` under `key`. */
    method Increment(key: Key, item: Item)
      requires Valid()
      modifies this
      ensures Valid()
      ensures counts == old(counts)[key := Bump(old(PerKey(key)), item)]
    {
      counts := counts[key := Bump(PerKey(key), item)];
    }

    /** `get(key)`: the number of distinct items counted under `key` (not the
        number of occurrences), which is also the sum of the histogram. */
    method Get(key: Key) returns (distinct: nat)
      ensures distinct == |PerKey(key)|
      ensures distinct == Total(Histogram(PerKey(key)))
      ensures distinct == 0 <==> PerKey(key) == map[]
    {
      distinct := |PerKey(key)|;
      HistogramTotal(PerKey(key));
    }

    /** `get_frequencies(key)`: one pass over the items of `key`, adding each
        to the bucket of its count. */
    method GetFrequencies(key: Key) returns (frequencies: Distribution)
      requires Valid()
      ensures frequencies == Histogram(PerKey(key))
      ensures forall count :: count in frequencies ==> count >= 1
    {
      var m := PerKey(key);
      HistogramKeysPositive(m);
      var pending := m.Keys;
      ghost var done: Counts := map[];
      frequencies := map[];
      assert frequencies == Histogram(done) by {
        HistogramEmpty();
      }
      while pending != {}
        invariant Progress(m, done, pending)
        invariant frequencies == Histogram(done)
        decreases |pending|
      {
        var item :| item in pending;
        var count := m[item];
        HistogramStep(frequencies, done, item, count);
        ProgressStep(m, done, pending, item);
        frequencies := frequencies[count := Mult(frequencies, count) + 1];
        done := done[item := count];
        pending := pending - {item};
      }
      ProgressDone(m, done);
    }

    /** `reset(key)`: forget every item of `key`; other keys keep theirs. */
    method Reset(key: Key)
      requires Valid()
      modifies this
      ensures Valid()
      ensures counts == old(counts) - {key}
      ensures PerKey(key) == map[]
    {
      counts := counts - {key};
    }
  }

  // ---------------------------------------------------------------------
  // The scenarios of the counter tests, replayed on any store. Each
  // starts, like the tests' set-up, by resetting the key and reading 0.

  const TestKey: Key := "CounterTestCase"

  /** A key the store has never seen, or has just reset, has no items and an
      empty histogram. */
  lemma HistogramEmpty()
    ensures Histogram(map[]) == map[]
  {
    var empty: Counts := map[];
    assert empty.Values == {};
  }

  /** The tests' set-up: reset `key` on a store that may already hold
      anything, then read 0. Other keys keep their state. */
  method FreshKey(counter: FrequencyCounter, key: Key) returns (distinct: nat)
    requires counter.Valid()
    modifies counter
    ensures counter.Valid()
    ensures counter.counts == old(counter.counts) - {key}
    ensures counter.PerKey(key) == map[]
    ensures distinct == 0
  {
    counter.Reset(key);
    distinct := counter.Get(key);
  }

  /** One item counted once: one distinct item. */
  method AddItem(counter: FrequencyCounter) returns (distinct: nat)
    requires counter.Valid()
    modifies counter
    ensures distinct == 1
  {
    var _ := FreshKey(counter, TestKey);
    counter.Increment(TestKey, "fred");
    distinct := counter.Get(TestKey);
  }

  /** fred, barney, george, george: the repeat does not add a fourth item. */
  method AddMultipleItems(counter: FrequencyCounter) returns (distinct: nat)
    requires counter.Valid()
    modifies counter
    ensures distinct == 3
  {
    var _ := FreshKey(counter, TestKey);
    ghost var s0 := counter.PerKey(TestKey);
    counter.Increment(TestKey, "fred");
    ghost var s1 := counter.PerKey(TestKey);
    counter.Increment(TestKey, "barney");
    ghost var s2 := counter.PerKey(TestKey);
    counter.Increment(TestKey, "george");
    ghost var s3 := counter.PerKey(TestKey);
    counter.Increment(TestKey, "george");
    ThreeNames(s0, s1, s2, s3, counter.PerKey(TestKey));
    distinct := counter.Get(TestKey);
  }

  /** The per-key state of the scenario above holds three items. */
  lemma ThreeNames(s0: Counts, s1: Counts, s2: Counts, s3: Counts, s4: Counts)
    requires s0 == map[]
    requires s1 == Bump(s0, "fred") && s2 == Bump(s1, "barney")
    requires s3 == Bump(s2, "george") && s4 == Bump(s3, "george")
    ensures |s4| == 3
  {
    assert "barney" != "fred";
    assert "george" != "fred" && "george" != "barney";
    assert s4.Keys == {"fred", "barney", "george"};
  }

  /** One item counted three times is still one distinct item. */
  method AddDuplicateItem(counter: FrequencyCounter) returns (distinct: nat, frequencies: Distribution)
    requires counter.Valid()
    modifies counter
    ensures distinct == 1
    ensures frequencies == map[3 := 1]
  {
    var _ := FreshKey(counter, TestKey);
    counter.Increment(TestKey, "fred");
    assert counter.PerKey(TestKey) == map["fred" := 1];
    counter.Increment(TestKey, "fred");
    assert counter.PerKey(TestKey) == map["fred" := 2];
    counter.Increment(TestKey, "fred");
    assert counter.PerKey(TestKey) == map["fred" := 3];
    SingleItem("fred", 3);
    distinct := counter.Get(TestKey);
    frequencies := counter.GetFrequencies(TestKey);
  }

  /** One item seen `n` times: one distinct item in bucket `n`. */
  lemma SingleItem(item: Item, n: nat)
    ensures |map[item := n]| == 1
    ensures Histogram(map[item := n]) == map[n := 1]
  {
    var empty: Counts := map[];
    HistogramEmpty();
    HistogramAdd(empty, item, n);
    assert empty[item := n] == map[item := n];
  }

  /** Three items seen once and one seen four times: `{1: 3, 4: 1}`. */
  method GetFrequenciesScenario(counter: FrequencyCounter) returns (distinct: nat, frequencies: Distribution)
    requires counter.Valid()
    modifies counter
    ensures distinct == 4
    ensures frequencies == map[1 := 3, 4 := 1]
  {
    var _ := FreshKey(counter, TestKey);
    ghost var s0 := counter.PerKey(TestKey);
    counter.Increment(TestKey, "fred");
    ghost var s1 := counter.PerKey(TestKey);
    counter.Increment(TestKey, "barney");
    ghost var s2 := counter.PerKey(TestKey);
    counter.Increment(TestKey, "george");
    ghost var s3 := counter.PerKey(TestKey);
    counter.Increment(TestKey, "roger");
    ghost var s4 := counter.PerKey(TestKey);
    counter.Increment(TestKey, "roger");
    ghost var s5 := counter.PerKey(TestKey);
    counter.Increment(TestKey, "roger");
    ghost var s6 := counter.PerKey(TestKey);
    counter.Increment(TestKey, "roger");
    FrequenciesState(s0, s1, s2, s3, s4, s5, s6, counter.PerKey(TestKey));
    FrequenciesExample();
    distinct := counter.Get(TestKey);
    frequencies := counter.GetFrequencies(TestKey);
  }

  /** The per-key state of the scenario above, one increment at a time. */
  lemma FrequenciesState(s0: Counts, s1: Counts, s2: Counts, s3: Counts,
                         s4: Counts, s5: Counts, s6: Counts, s7: Counts)
    requires s0 == map[]
    requires s1 == Bump(s0, "fred") && s2 == Bump(s1, "barney") && s3 == Bump(s2, "george")
    requires s4 == Bump(s3, "roger") && s5 == Bump(s4, "roger")
    requires s6 == Bump(s5, "roger") && s7 == Bump(s6, "roger")
    ensures s7 == map["fred" := 1, "barney" := 1, "george" := 1, "roger" := 4]
  {
    assert "barney" != "fred";
    assert "george" != "fred" && "george" != "barney";
    assert "roger" != "fred" && "roger" != "barney" && "roger" != "george";
    var m3 := map["fred" := 1, "barney" := 1, "george" := 1];
    BumpAt(s0, "fred", 0);
    BumpAt(s1, "barney", 0);
    BumpAt(s2, "george", 0);
    assert s3 == m3;
    BumpAt(s3, "roger", 0);
    BumpAt(s4, "roger", 1);
    Overwrite(m3, "roger", 1, 2);
    assert s5 == m3["roger" := 2];
    BumpAt(s5, "roger", 2);
    Overwrite(m3, "roger", 2, 3);
    assert s6 == m3["roger" := 3];
    BumpAt(s6, "roger", 3);
    Overwrite(m3, "roger", 3, 4);
    assert s7 == m3["roger" := 4];
  }

  /** Bumping an item seen `k` times. */
  lemma BumpAt(m: Counts, item: Item, k: nat)
    requires Occurrences(m, item) == k
    ensures Bump(m, item) == m[item := k + 1]
  {
  }

  /** A second write to the same item replaces the first. */
  lemma Overwrite(m: Counts, item: Item, first: nat, second: nat)
    ensures m[item := first][item := second] == m[item := second]
  {
  }

  /** The histogram of the scenario above, built one item at a time. */
  lemma FrequenciesExample()
    ensures Histogram(map["fred" := 1, "barney" := 1, "george" := 1, "roger" := 4])
         == map[1 := 3, 4 := 1]
    ensures |map["fred" := 1, "barney" := 1, "george" := 1, "roger" := 4]| == 4
  {
    var m0: Counts := map[];
    var m1 := m0["fred" := 1];
    var m2 := m1["barney" := 1];
    var m3 := m2["george" := 1];
    var m4 := m3["roger" := 4];
    HistogramEmpty();
    HistogramAdd(m0, "fred", 1);
    HistogramAdd(m1, "barney", 1);
    HistogramAdd(m2, "george", 1);
    HistogramAdd(m3, "roger", 4);
    assert Histogram(m3) == map[1 := 3];
    assert m4 == map["fred" := 1, "barney" := 1, "george" := 1, "roger" := 4];
    assert |m4| == |m3| + 1 == |m2| + 2 == |m1| + 3 == 4;
  }

  /** Counting and then resetting a key leaves it empty. */
  method DeleteKey(counter: FrequencyCounter) returns (distinct: nat, frequencies: Distribution)
    requires counter.Valid()
    modifies counter
    ensures distinct == 0
    ensures frequencies == map[]
  {
    var _ := FreshKey(counter, TestKey);
    counter.Increment(TestKey, "fred");
    counter.Reset(TestKey);
    distinct := counter.Get(TestKey);
    frequencies := counter.GetFrequencies(TestKey);
    HistogramEmpty();
  }

  /** Counting one item `n` times gives that item the count `n`, one
      distinct item, and the histogram `{n: 1}`. */
  lemma RepeatedItem(item: Item, n: nat)
    requires n >= 1
    ensures Replay(map[], seq(n, _ => item)) == map[item := n]
    ensures Histogram(map[item := n]) == map[n := 1]
  {
    var items := seq(n, _ => item);
    var r := Replay(map[], items);
    assert multiset(items) == multiset{}[item := n] by {
      RepeatedMultiset(item, n);
    }
    assert items[0] == item;
    assert (set i | i in items) == {item};
    assert r == map[item := n] by {
      assert r.Keys == {item};
      assert Occurrences(r, item) == n;
    }
    SingleItem(item, n);
  }

  lemma {:induction false} RepeatedMultiset(item: Item, n: nat)
    ensures multiset(seq(n, _ => item)) == multiset{}[item := n]
  {
    if n > 0 {
      RepeatedMultiset(item, n - 1);
      assert seq(n, _ => item) == seq(n - 1, _ => item) + [item];
    }
  }
}
