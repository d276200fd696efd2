/**
 * `list(dict.fromkeys(xs))`: the elements of `xs` with repeats removed,
 * each kept where it first appears.
 */
module Ordered {

  predicate Distinct<T(==, !new)>(xs: seq<T>) {
    forall i, j :: 0 <= i < j < |xs| ==> xs[i] != xs[j]
  }

  /** `xs.index(x)`: where `x` first appears in `xs`. */
  function FirstIndex<T(==, !new)>(xs: seq<T>, x: T): (k: nat)
    requires x in xs
    ensures k < |xs| && xs[k] == x
    ensures forall j :: 0 <= j < k ==> xs[j] != x
  {
    if xs[0] == x then 0 else 1 + FirstIndex(xs[1..], x)
  }

  /**
   * `list(dict.fromkeys(xs))`, built the way the dictionary is filled: one
   * element at a time from the front, an element already present being skipped.
   */
  function Unique<T(==, !new)>(xs: seq<T>): seq<T> {
    if xs == [] then []
    else
      var u := Unique(xs[..|xs| - 1]);
      var last := xs[|xs| - 1];
      if last in u then u else u + [last]
  }

  /**
   * No element is kept twice, exactly the elements of `xs` are kept, and the
   * result is no longer than `xs`.
   */
  lemma {:induction false} UniqueSpec<T(!new)>(xs: seq<T>)
    ensures Distinct(Unique(xs))
    ensures forall x :: x in Unique(xs) <==> x in xs
    ensures |Unique(xs)| <= |xs|
  {
    if xs != [] {
      var prefix := xs[..|xs| - 1];
      var last := xs[|xs| - 1];
      UniqueSpec(prefix);
      assert xs == prefix + [last];
      assert forall x :: x in xs <==> x in prefix || x == last;
    }
  }

  /** Appending an element does not move the first appearance of one already present. */
  lemma {:induction false} FirstIndexSnoc<T(!new)>(xs: seq<T>, y: T, x: T)
    requires x in xs
    ensures FirstIndex(xs + [y], x) == FirstIndex(xs, x)
  {
    var k := FirstIndex(xs, x);
    assert (xs + [y])[k] == x;
  }

  /**
   * The first appearance wins: the kept elements come in the order of their
   * first appearances in `xs`.
   */
  lemma {:induction false} UniqueFirstAppearance<T(!new)>(xs: seq<T>)
    ensures forall x :: x in Unique(xs) ==> x in xs
    ensures forall i, j :: 0 <= i < j < |Unique(xs)| ==>
      FirstIndex(xs, Unique(xs)[i]) < FirstIndex(xs, Unique(xs)[j])
  {
    UniqueSpec(xs);
    if xs != [] {
      var prefix := xs[..|xs| - 1];
      var last := xs[|xs| - 1];
      assert xs == prefix + [last];
      var u := Unique(prefix);
      UniqueSpec(prefix);
      UniqueFirstAppearance(prefix);
      forall x | x in u ensures FirstIndex(xs, x) == FirstIndex(prefix, x) {
        FirstIndexSnoc(prefix, last, x);
      }
      if last !in u {
        assert FirstIndex(xs, last) == |prefix|;
      }
    }
  }

  /** Removing repeats from a list without repeats changes nothing. */
  lemma {:induction false} UniqueOfDistinct<T(!new)>(xs: seq<T>)
    requires Distinct(xs)
    ensures Unique(xs) == xs
  {
    if xs != [] {
      var prefix := xs[..|xs| - 1];
      UniqueOfDistinct(prefix);
      assert xs == prefix + [xs[|xs| - 1]];
    }
  }
}
