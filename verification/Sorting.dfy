/** A stand-in for the library's comparison sort.  The library promises a sorted
    permutation and no stability, and callers may rely on nothing else. */
module Sorting {

  /** `less` orders its arguments up to ties. */
  ghost predicate StrictWeakOrder<T(!new)>(less: (T, T) -> bool) {
    && (forall a, b :: less(a, b) ==> !less(b, a))
    && (forall a, b, c :: !less(a, b) && !less(b, c) ==> !less(a, c))
  }

  ghost predicate SortedBy<T>(less: (T, T) -> bool, xs: seq<T>) {
    forall i, j :: 0 <= i < j < |xs| ==> !less(xs[j], xs[i])
  }

  /** The place before which `x` goes in a sorted sequence. */
  method FindPlace<T(!new)>(xs: seq<T>, x: T, less: (T, T) -> bool) returns (k: nat)
    requires StrictWeakOrder(less) && SortedBy(less, xs)
    ensures k <= |xs|
    ensures forall i :: 0 <= i < k ==> !less(x, xs[i])
    ensures forall i :: k <= i < |xs| ==> !less(xs[i], x)
  {
    k := 0;
    while k < |xs| && !less(x, xs[k])
      invariant k <= |xs|
      invariant forall i :: 0 <= i < k ==> !less(x, xs[i])
    {
      k := k + 1;
    }
    assert forall i :: k <= i < |xs| ==> i == k || !less(xs[i], xs[k]);
  }

  lemma Inserted<T(!new)>(xs: seq<T>, x: T, k: nat, less: (T, T) -> bool)
    requires SortedBy(less, xs) && k <= |xs|
    requires forall i :: 0 <= i < k ==> !less(x, xs[i])
    requires forall i :: k <= i < |xs| ==> !less(xs[i], x)
    ensures SortedBy(less, xs[..k] + [x] + xs[k..])
    ensures multiset(xs[..k] + [x] + xs[k..]) == multiset(xs) + multiset{x}
  {
    assert xs == xs[..k] + xs[k..];
  }

  method SortSlice<T(!new)>(xs: seq<T>, less: (T, T) -> bool) returns (ys: seq<T>)
    requires StrictWeakOrder(less)
    ensures multiset(ys) == multiset(xs)
    ensures SortedBy(less, ys)
  {
    ys := [];
    for i := 0 to |xs|
      invariant multiset(ys) == multiset(xs[..i])
      invariant SortedBy(less, ys)
    {
      var k := FindPlace(ys, xs[i], less);
      Inserted(ys, xs[i], k, less);
      assert xs[..i + 1] == xs[..i] + [xs[i]];
      ys := ys[..k] + [xs[i]] + ys[k..];
    }
    assert xs[..|xs|] == xs;
  }

  /** Whether a sequence has a value twice is visible in its multiset. */
  lemma TwiceInSeq<T>(xs: seq<T>, i: nat, j: nat)
    requires i < j < |xs| && xs[i] == xs[j]
    ensures multiset(xs)[xs[i]] >= 2
  {
    assert xs == xs[..j] + [xs[j]] + xs[j + 1..];
    assert xs[i] in xs[..j];
    assert multiset(xs) == multiset(xs[..j]) + multiset{xs[j]} + multiset(xs[j + 1..]);
  }
}
