/** The flattening utility: the leaves of an arbitrarily and irregularly
    nested list, in left-to-right order. A list element is either a scalar
    (`Leaf`) or another list (`Node`); empty lists contribute nothing. The
    lazily produced sequence is modelled by the finite sequence it yields. */
module Stats {

  datatype Nested<T> = Leaf(value: T) | Node(children: seq<Nested<T>>)

  /** `flatten(items)`: the leaves of every element, element after element. */
  function Flatten<T>(items: seq<Nested<T>>): seq<T>
    decreases items
  {
    if items == [] then [] else Leaves(items[0]) + Flatten(items[1..])
  }

  /** The leaves of one element: a scalar yields itself, a list its own
      flattening. */
  function Leaves<T>(n: Nested<T>): seq<T>
    decreases n
  {
    match n
    case Leaf(v) => [v]
    case Node(children) => Flatten(children)
  }

  /** Flattening is order-preserving across concatenation: the leaves of
      `xs + ys` are those of `xs` followed by those of `ys`. */
  lemma {:induction false} FlattenConcat<T>(xs: seq<Nested<T>>, ys: seq<Nested<T>>)
    ensures Flatten(xs + ys) == Flatten(xs) + Flatten(ys)
    decreases |xs|
  {
    if xs == [] {
      assert xs + ys == ys;
    } else {
      assert (xs + ys)[0] == xs[0];
      assert (xs + ys)[1..] == xs[1..] + ys;
      FlattenConcat(xs[1..], ys);
    }
  }

  /** `x` is a scalar somewhere inside `n`, at any depth. */
  ghost predicate Occurs<T>(x: T, n: Nested<T>)
    decreases n
  {
    match n
    case Leaf(v) => v == x
    case Node(children) => exists i :: 0 <= i < |children| && Occurs(x, children[i])
  }

  /** The leaves of an element are exactly the scalars inside it: nothing is
      lost, and no list is ever yielded as a value. */
  lemma {:induction false} LeavesAreOccurrences<T>(n: Nested<T>, x: T)
    ensures x in Leaves(n) <==> Occurs(x, n)
    decreases n
  {
    match n
    case Leaf(v) =>
    case Node(children) => FlattenMembers(children, x);
  }

  /** The flattening of a list holds exactly the scalars found inside its
      elements. */
  lemma {:induction false} FlattenMembers<T>(items: seq<Nested<T>>, x: T)
    ensures x in Flatten(items) <==> exists i :: 0 <= i < |items| && Occurs(x, items[i])
    decreases items
  {
    if items != [] {
      LeavesAreOccurrences(items[0], x);
      FlattenMembers(items[1..], x);
      if exists i :: 0 <= i < |items| && Occurs(x, items[i]) {
        var i :| 0 <= i < |items| && Occurs(x, items[i]);
        if i > 0 {
          assert items[1..][i - 1] == items[i];
        }
      }
      if exists j :: 0 <= j < |items[1..]| && Occurs(x, items[1..][j]) {
        var j :| 0 <= j < |items[1..]| && Occurs(x, items[1..][j]);
        assert items[j + 1] == items[1..][j];
      }
    }
  }

  /** Scalars wrapped as leaves. */
  function Scalars<T>(vs: seq<T>): (items: seq<Nested<T>>)
    ensures |items| == |vs|
    ensures forall i :: 0 <= i < |vs| ==> items[i] == Leaf(vs[i])
  {
    seq(|vs|, i requires 0 <= i < |vs| => Leaf(vs[i]))
  }

  /** A list without nested lists flattens to itself. */
  lemma {:induction false} FlattenScalars<T>(vs: seq<T>)
    ensures Flatten(Scalars(vs)) == vs
    decreases |vs|
  {
    if vs != [] {
      assert Scalars(vs)[1..] == Scalars(vs[1..]);
      FlattenScalars(vs[1..]);
    }
  }

  /** Flattening is idempotent: flattening the leaves again, as a flat
      list, changes nothing. */
  lemma FlattenIdempotent<T>(items: seq<Nested<T>>)
    ensures Flatten(Scalars(Flatten(items))) == Flatten(items)
  {
    FlattenScalars(Flatten(items));
  }

  /** Wrapping a list in another list, at any depth, does not change its
      leaves; an empty list yields nothing. */
  lemma NestingIsInvisible<T>(items: seq<Nested<T>>)
    ensures Flatten([Node(items)]) == Flatten(items)
    ensures Flatten<T>([Node([])]) == []
  {
    assert [Node(items)][1..] == [];
    var empty: seq<Nested<T>> := [];
    assert [Node(empty)][1..] == [];
  }

  /** `flatten([1, [2, [3]], 4, 5])` yields `[1, 2, 3, 4, 5]`. */
  lemma FlattenExample()
    ensures Flatten([Leaf(1), Node([Leaf(2), Node([Leaf(3)])]), Leaf(4), Leaf(5)]) == [1, 2, 3, 4, 5]
  {
    var inner: seq<Nested<int>> := [Leaf(3)];
    var middle: seq<Nested<int>> := [Leaf(2), Node(inner)];
    assert Flatten(inner) == [3] by {
      assert inner[1..] == [];
    }
    assert Flatten(middle) == [2, 3] by {
      assert middle[1..] == [Node(inner)];
      assert [Node(inner)][1..] == [];
      assert Leaves(Node(inner)) == [3];
      assert Flatten(middle[1..]) == [3];
    }
    var items: seq<Nested<int>> := [Leaf(1), Node(middle), Leaf(4), Leaf(5)];
    assert items[1..] == [Node(middle), Leaf(4), Leaf(5)];
    assert items[1..][1..] == [Leaf(4), Leaf(5)];
    assert items[1..][1..][1..] == [Leaf(5)];
    assert items[1..][1..][1..][1..] == [];
  }
}
