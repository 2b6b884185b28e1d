/** Options, results, left folds, and the fact that a fold whose steps commute does not
    depend on the order in which its inputs arrive. */
module Folds {

  datatype Option<+T> = None | Some(value: T)

  datatype Result<+T> = Ok(value: T) | Err(error: string)

  function Fold<S, T>(f: (S, T) -> S, init: S, xs: seq<T>): S {
    if xs == [] then init else f(Fold(f, init, xs[..|xs| - 1]), xs[|xs| - 1])
  }

  ghost predicate StepsCommute<S(!new), T(!new)>(f: (S, T) -> S) {
    forall s, x, y :: f(f(s, x), y) == f(f(s, y), x)
  }

  lemma FoldSnoc<S, T>(f: (S, T) -> S, init: S, xs: seq<T>, x: T)
    ensures Fold(f, init, xs + [x]) == f(Fold(f, init, xs), x)
  {
    assert (xs + [x])[..|xs|] == xs;
  }

  /** An input in the middle can be taken last. */
  lemma {:induction false} FoldMoveLast<S(!new), T(!new)>(f: (S, T) -> S, init: S, xs: seq<T>, x: T, ys: seq<T>)
    requires StepsCommute(f)
    ensures Fold(f, init, xs + [x] + ys) == f(Fold(f, init, xs + ys), x)
    decreases |ys|
  {
    if ys == [] {
      assert xs + [x] + ys == xs + [x] && xs + ys == xs;
      FoldSnoc(f, init, xs, x);
    } else {
      var front, last := ys[..|ys| - 1], ys[|ys| - 1];
      assert xs + [x] + ys == (xs + [x] + front) + [last];
      assert xs + ys == (xs + front) + [last];
      FoldMoveLast(f, init, xs, x, front);
      FoldSnoc(f, init, xs + [x] + front, last);
      FoldSnoc(f, init, xs + front, last);
    }
  }

  /** Two arrival orders of the same inputs fold to the same result. */
  lemma {:induction false} FoldPermutation<S(!new), T(!new)>(f: (S, T) -> S, init: S, xs: seq<T>, ys: seq<T>)
    requires StepsCommute(f)
    requires multiset(xs) == multiset(ys)
    ensures Fold(f, init, xs) == Fold(f, init, ys)
    decreases |xs|
  {
    if xs == [] {
      assert |multiset(xs)| == |multiset(ys)|;
    } else {
      var x, rest := xs[|xs| - 1], xs[..|xs| - 1];
      assert xs == rest + [x];
      assert x in multiset(xs);
      var i :| 0 <= i < |ys| && ys[i] == x;
      var before, after := ys[..i], ys[i + 1..];
      assert ys == before + [x] + after;
      assert multiset(rest) == multiset(before + after) by {
        assert multiset(rest) == multiset(xs) - multiset{x};
        assert multiset(before + after) == multiset(ys) - multiset{x};
      }
      FoldPermutation(f, init, rest, before + after);
      FoldMoveLast(f, init, before, x, after);
    }
  }

  /** `places` are the positions of the elements that satisfy `p`, in order. */
  ghost predicate PlacesWhere<T(!new)>(xs: seq<T>, p: T -> bool, places: seq<nat>) {
    && (forall k :: 0 <= k < |places| ==> places[k] < |xs| && p(xs[places[k]]))
    && (forall j, k :: 0 <= j < k < |places| ==> places[j] < places[k])
    && (forall i: nat :: i < |xs| && p(xs[i]) ==> i in places)
  }

  lemma PlacesNext<T(!new)>(xs: seq<T>, p: T -> bool, places: seq<nat>, last: T)
    requires PlacesWhere(xs, p, places)
    ensures PlacesWhere(xs + [last], p, if p(last) then places + [|xs|] else places)
  {
    var all, places' := xs + [last], if p(last) then places + [|xs|] else places;
    assert forall k :: 0 <= k < |places| ==> places'[k] == places[k] && all[places[k]] == xs[places[k]];
    assert p(last) ==> places'[|places|] == |xs|;
    forall i: nat | i < |all| && p(all[i])
      ensures i in places'
    {
      if i < |xs| {
        assert p(xs[i]);
      }
    }
  }
}
