/** Asking every exchange for its best `depth` levels only, and then merging and cutting to
    `depth`, loses nothing: the possible merged sides are exactly those obtained from the
    full books. */
module Pushdown {
  import opened Decimals
  import opened Folds
  import opened Sorting
  import opened OrderBooks
  import opened MergedBook

  function FirstLevels(levels: seq<Level>, depth: nat): seq<Level> {
    if |levels| <= depth then levels else levels[..depth]
  }

  /** The answer of an exchange that honours the limit option. */
  function LimitResult(r: BookResult, depth: nat): BookResult {
    if r.book.None? then r
    else
      var b := r.book.value;
      r.(book := Some(b.(bids := FirstLevels(b.bids, depth), asks := FirstLevels(b.asks, depth))))
  }

  function LimitAll(results: seq<BookResult>, depth: nat): seq<BookResult> {
    seq(|results|, i requires 0 <= i < |results| => LimitResult(results[i], depth))
  }

  /** Best price first, no price twice: what an exchange's order book promises. */
  ghost predicate BestFirst(better: Order, levels: seq<Level>) {
    forall i, j :: 0 <= i < j < |levels| ==> better(levels[i].price, levels[j].price)
  }

  ghost predicate AllBestFirst(side: Side, results: seq<BookResult>) {
    forall k :: 0 <= k < |results| ==> BestFirst(Better(side), LevelsOf(side, results[k]))
  }

  lemma LimitedLevels(side: Side, r: BookResult, depth: nat)
    ensures LevelsOf(side, LimitResult(r, depth)) == FirstLevels(LevelsOf(side, r), depth)
  {
  }

  // ----- where prices come from

  ghost predicate QuotedAt(side: Side, results: seq<BookResult>, p: Decimal, k: int, i: int) {
    0 <= k < |results| && 0 <= i < |LevelsOf(side, results[k])| && LevelsOf(side, results[k])[i].price == p
  }

  /** Each contributed level comes from some place in some result. */
  lemma {:induction false} ContributedBy(side: Side, results: seq<BookResult>, n: nat) returns (k: nat, i: nat)
    requires n < |Contributions(side, results)|
    ensures k < |results| && i < |LevelsOf(side, results[k])|
    ensures LevelsOf(side, results[k])[i] == Contributions(side, results)[n]
    decreases |results|
  {
    var front, last := results[..|results| - 1], |results| - 1;
    if n < |Contributions(side, front)| {
      k, i := ContributedBy(side, front, n);
    } else {
      k, i := last, n - |Contributions(side, front)|;
    }
  }

  /** Each level of each result is contributed. */
  lemma {:induction false} Contributes(side: Side, results: seq<BookResult>, k: nat, i: nat) returns (n: nat)
    requires k < |results| && i < |LevelsOf(side, results[k])|
    ensures n < |Contributions(side, results)|
    ensures LevelsOf(side, results[k])[i] == Contributions(side, results)[n]
    decreases |results|
  {
    var front := results[..|results| - 1];
    if k < |front| {
      n := Contributes(side, front, k, i);
    } else {
      n := |Contributions(side, front)| + i;
    }
  }

  lemma QuotedBy(side: Side, results: seq<BookResult>, p: Decimal)
    ensures p in Accumulate(Contributions(side, results)) <==> exists k, i :: QuotedAt(side, results, p, k, i)
  {
    var levels := Contributions(side, results);
    MergedQuantity(levels, p);
    if n: nat :| n < |levels| && levels[n].price == p {
      var k, i := ContributedBy(side, results, n);
      assert QuotedAt(side, results, p, k, i);
    }
    if k: nat, i: nat :| QuotedAt(side, results, p, k, i) {
      var n := Contributes(side, results, k, i);
      assert levels[n].price == p;
    }
  }

  lemma {:induction false} QuantitiesConcat(a: seq<Level>, b: seq<Level>, p: Decimal)
    ensures QuantitiesAt(a + b, p) == QuantitiesAt(a, p) + QuantitiesAt(b, p)
    decreases |b|
  {
    if b == [] {
      assert a + b == a;
    } else {
      var front := b[..|b| - 1];
      QuantitiesConcat(a, front, p);
      assert (a + b)[..|a + b| - 1] == a + front;
    }
  }

  lemma QuantitiesOfFirst(levels: seq<Level>, depth: nat, p: Decimal)
    requires forall i :: depth <= i < |levels| ==> levels[i].price != p
    ensures QuantitiesAt(FirstLevels(levels, depth), p) == QuantitiesAt(levels, p)
  {
    if depth < |levels| {
      var rest := levels[depth..];
      assert levels == levels[..depth] + rest;
      QuantitiesConcat(levels[..depth], rest, p);
      QuotedSomewhere(rest, p);
    }
  }

  /** No exchange quotes `p` below its first `depth` levels. */
  ghost predicate WithinDepth(side: Side, results: seq<BookResult>, depth: nat, p: Decimal) {
    forall k, i :: 0 <= k < |results| && depth <= i < |LevelsOf(side, results[k])| ==>
      LevelsOf(side, results[k])[i].price != p
  }

  lemma {:induction false} LimitKeepsQuantities(side: Side, results: seq<BookResult>, depth: nat, p: Decimal)
    requires WithinDepth(side, results, depth, p)
    ensures QuantitiesAt(Contributions(side, LimitAll(results, depth)), p) ==
            QuantitiesAt(Contributions(side, results), p)
    decreases |results|
  {
    if results != [] {
      var front, last := results[..|results| - 1], results[|results| - 1];
      assert forall k :: 0 <= k < |front| ==> front[k] == results[k];
      LimitKeepsQuantities(side, front, depth, p);
      assert LimitAll(results, depth)[..|results| - 1] == LimitAll(front, depth);
      LimitedLevels(side, last, depth);
      QuantitiesOfFirst(LevelsOf(side, last), depth, p);
      QuantitiesConcat(Contributions(side, front), LevelsOf(side, last), p);
      QuantitiesConcat(Contributions(side, LimitAll(front, depth)), FirstLevels(LevelsOf(side, last), depth), p);
    }
  }

  /** A price every exchange quotes within depth merges to the same quantity. */
  lemma LimitKeepsPrice(side: Side, results: seq<BookResult>, depth: nat, p: Decimal)
    requires WithinDepth(side, results, depth, p)
    ensures var m := Accumulate(Contributions(side, results));
            var m' := Accumulate(Contributions(side, LimitAll(results, depth)));
            (p in m <==> p in m') && (p in m ==> m[p] == m'[p])
  {
    LimitKeepsQuantities(side, results, depth, p);
    MergedAt(Contributions(side, results), p);
    MergedAt(Contributions(side, LimitAll(results, depth)), p);
  }

  lemma LimitedKeysAreKeys(side: Side, results: seq<BookResult>, depth: nat, p: Decimal)
    requires p in Accumulate(Contributions(side, LimitAll(results, depth)))
    ensures p in Accumulate(Contributions(side, results))
  {
    var limited := LimitAll(results, depth);
    QuotedBy(side, limited, p);
    QuotedBy(side, results, p);
    var k, i :| QuotedAt(side, limited, p, k, i);
    LimitedLevels(side, results[k], depth);
    assert QuotedAt(side, results, p, k, i);
  }

  /** The first `depth` prices of a book survive the limit. */
  lemma FirstPricesSurvive(side: Side, results: seq<BookResult>, depth: nat, k: nat, i: nat)
    requires k < |results| && i < |LevelsOf(side, results[k])|
    ensures LevelsOf(side, results[k])[i].price in Accumulate(Contributions(side, results))
    ensures i < depth ==>
              LevelsOf(side, results[k])[i].price in Accumulate(Contributions(side, LimitAll(results, depth)))
  {
    var p := LevelsOf(side, results[k])[i].price;
    assert QuotedAt(side, results, p, k, i);
    QuotedBy(side, results, p);
    if i < depth {
      var limited := LimitAll(results, depth);
      LimitedLevels(side, results[k], depth);
      assert QuotedAt(side, limited, p, k, i);
      QuotedBy(side, limited, p);
    }
  }

  // ----- counting

  function Prices(levels: seq<Level>): set<Decimal> {
    set l | l in levels :: l.price
  }

  lemma {:induction false} PricesAtMost(levels: seq<Level>)
    ensures |Prices(levels)| <= |levels|
    decreases |levels|
  {
    if levels != [] {
      var front, last := levels[..|levels| - 1], levels[|levels| - 1];
      PricesAtMost(front);
      assert levels == front + [last];
      assert Prices(levels) == Prices(front) + {last.price};
    }
  }

  lemma SubsetIsSmaller<T>(a: set<T>, b: set<T>)
    requires a <= b
    ensures |a| <= |b|
  {
    assert b == a + (b - a);
  }

  lemma BestFirstPrices(better: Order, levels: seq<Level>)
    requires StrictWeakOrder(better) && BestFirst(better, levels)
    ensures |Prices(levels)| == |levels|
  {
    forall i, j | 0 <= i < j < |levels|
      ensures levels[i].price != levels[j].price
    {
      assert better(levels[i].price, levels[j].price);
    }
    DistinctPrices(levels);
  }

  lemma BetterTransitive(better: Order, a: Decimal, b: Decimal, c: Decimal)
    requires StrictWeakOrder(better)
    requires better(a, b) && !better(c, b)
    ensures better(a, c)
  {
    assert !better(a, c) && !better(c, b) ==> !better(a, b);
  }

  /** From full books: a price that made the cut is quoted within depth by everyone. */
  lemma KeptIsWithinDepth(side: Side, results: seq<BookResult>, depth: nat, out: seq<Level>, n: nat)
    requires depth > 0 && AllBestFirst(side, results)
    requires IsRanked(Better(side), out, Accumulate(Contributions(side, results)), depth)
    requires n < |out|
    ensures WithinDepth(side, results, depth, out[n].price)
  {
    var better, m := Better(side), Accumulate(Contributions(side, results));
    BetterIsOrder(side);
    forall k, i | 0 <= k < |results| && depth <= i < |LevelsOf(side, results[k])|
      ensures LevelsOf(side, results[k])[i].price != out[n].price
    {
      var levels := LevelsOf(side, results[k]);
      if levels[i].price == out[n].price {
        var ahead := levels[..i];
        forall p | p in Prices(ahead)
          ensures p in Prices(out[..n])
        {
          var j :| 0 <= j < i && levels[j].price == p;
          FirstPricesSurvive(side, results, depth, k, j);
          assert better(levels[j].price, levels[i].price);
          BetterKeysComeFirst(better, out, m, depth, n, p);
        }
        BestFirstPrices(better, ahead);
        PricesAtMost(out[..n]);
        SubsetIsSmaller(Prices(ahead), Prices(out[..n]));
        assert false;
      }
    }
  }

  /** If a price below depth were as good as a kept one, its whole book down to depth would
      be ranked before that one. */
  lemma FirstPricesRankedBefore(side: Side, results: seq<BookResult>, depth: nat, out: seq<Level>, n: nat, k: nat,
                                i: nat)
    requires AllBestFirst(side, results)
    requires IsRanked(Better(side), out, Accumulate(Contributions(side, LimitAll(results, depth))), depth)
    requires n < |out|
    requires k < |results| && depth <= i < |LevelsOf(side, results[k])|
    requires var q, kept := LevelsOf(side, results[k])[i].price, out[n].price; q == kept || Better(side)(q, kept)
    ensures Prices(LevelsOf(side, results[k])[..depth]) <= Prices(out[..n])
  {
    var better, m' := Better(side), Accumulate(Contributions(side, LimitAll(results, depth)));
    BetterIsOrder(side);
    var levels := LevelsOf(side, results[k]);
    var q, kept := levels[i].price, out[n].price;
    forall p | p in Prices(levels[..depth])
      ensures p in Prices(out[..n])
    {
      var j :| 0 <= j < depth && levels[..depth][j].price == p;
      FirstPricesSurvive(side, results, depth, k, j);
      assert better(levels[j].price, levels[i].price);
      if q != kept {
        BetterTransitive(better, p, q, kept);
      }
      BetterKeysComeFirst(better, out, m', depth, n, p);
    }
  }

  /** From limited books: a level below depth is strictly worse than everything kept. */
  lemma BelowDepthIsWorse(side: Side, results: seq<BookResult>, depth: nat, out: seq<Level>, n: nat, k: nat, i: nat)
    requires depth > 0 && AllBestFirst(side, results)
    requires IsRanked(Better(side), out, Accumulate(Contributions(side, LimitAll(results, depth))), depth)
    requires n < |out|
    requires k < |results| && depth <= i < |LevelsOf(side, results[k])|
    ensures LevelsOf(side, results[k])[i].price != out[n].price
    ensures !Better(side)(LevelsOf(side, results[k])[i].price, out[n].price)
  {
    var levels := LevelsOf(side, results[k]);
    var q, kept := levels[i].price, out[n].price;
    if q == kept || Better(side)(q, kept) {
      FirstPricesRankedBefore(side, results, depth, out, n, k, i);
      BetterIsOrder(side);
      BestFirstPrices(Better(side), levels[..depth]);
      PricesAtMost(out[..n]);
      SubsetIsSmaller(Prices(levels[..depth]), Prices(out[..n]));
      assert false;
    }
  }

  lemma {:induction false} FullToLimited(side: Side, results: seq<BookResult>, depth: nat, out: seq<Level>)
    requires depth > 0 && AllBestFirst(side, results)
    requires IsRanked(Better(side), out, Accumulate(Contributions(side, results)), depth)
    ensures IsRanked(Better(side), out, Accumulate(Contributions(side, LimitAll(results, depth))), depth)
  {
    var m, m' := Accumulate(Contributions(side, results)), Accumulate(Contributions(side, LimitAll(results, depth)));
    forall n | 0 <= n < |out|
      ensures out[n].price in m' && m'[out[n].price] == out[n].quantity
    {
      assert out[n] in out;
      KeptIsWithinDepth(side, results, depth, out, n);
      LimitKeepsPrice(side, results, depth, out[n].price);
    }
    forall p | p in m'
      ensures p in m
    {
      LimitedKeysAreKeys(side, results, depth, p);
    }
    assert Prices(out) <= m'.Keys <= m.Keys;
    DistinctPrices(out);
    SubsetIsSmaller(Prices(out), m'.Keys);
    SubsetIsSmaller(m'.Keys, m.Keys);
    forall p, l | p in m' && Level(p, m'[p]) !in out && l in out
      ensures !Better(side)(p, l.price)
    {
      assert Level(p, m[p]) !in out;
    }
  }

  /** A book that reaches below depth alone brings `depth` keys that survive the limit. */
  lemma DeepBookFillsDepth(side: Side, results: seq<BookResult>, depth: nat, k: nat)
    requires AllBestFirst(side, results)
    requires k < |results| && depth < |LevelsOf(side, results[k])|
    ensures |Accumulate(Contributions(side, LimitAll(results, depth)))| >= depth
  {
    var m', first := Accumulate(Contributions(side, LimitAll(results, depth))), LevelsOf(side, results[k])[..depth];
    BetterIsOrder(side);
    BestFirstPrices(Better(side), first);
    forall q | q in Prices(first)
      ensures q in m'.Keys
    {
      var j :| 0 <= j < depth && first[j].price == q;
      FirstPricesSurvive(side, results, depth, k, j);
    }
    SubsetIsSmaller(Prices(first), m'.Keys);
  }

  lemma LimitedSize(side: Side, results: seq<BookResult>, depth: nat)
    requires depth > 0 && AllBestFirst(side, results)
    ensures var m := Accumulate(Contributions(side, results));
            var m' := Accumulate(Contributions(side, LimitAll(results, depth)));
            m'.Keys <= m.Keys && (|m'| < depth ==> m'.Keys == m.Keys)
  {
    var m, m' := Accumulate(Contributions(side, results)), Accumulate(Contributions(side, LimitAll(results, depth)));
    forall p | p in m'
      ensures p in m
    {
      LimitedKeysAreKeys(side, results, depth, p);
    }
    if |m'| < depth {
      forall p | p in m
        ensures p in m'
      {
        QuotedBy(side, results, p);
        var k, i :| QuotedAt(side, results, p, k, i);
        if i >= depth {
          DeepBookFillsDepth(side, results, depth, k);
        }
        FirstPricesSurvive(side, results, depth, k, i);
      }
    }
  }

  lemma {:induction false} LimitedToFull(side: Side, results: seq<BookResult>, depth: nat, out: seq<Level>)
    requires depth > 0 && AllBestFirst(side, results)
    requires IsRanked(Better(side), out, Accumulate(Contributions(side, LimitAll(results, depth))), depth)
    ensures IsRanked(Better(side), out, Accumulate(Contributions(side, results)), depth)
  {
    var m, m' := Accumulate(Contributions(side, results)), Accumulate(Contributions(side, LimitAll(results, depth)));
    LimitedSize(side, results, depth);
    SubsetIsSmaller(m'.Keys, m.Keys);
    forall n | 0 <= n < |out|
      ensures out[n].price in m && m[out[n].price] == out[n].quantity
    {
      assert out[n] in out;
      forall k, i | 0 <= k < |results| && depth <= i < |LevelsOf(side, results[k])|
        ensures LevelsOf(side, results[k])[i].price != out[n].price
      {
        BelowDepthIsWorse(side, results, depth, out, n, k, i);
      }
      LimitKeepsPrice(side, results, depth, out[n].price);
    }
    forall p, l | p in m && Level(p, m[p]) !in out && l in out
      ensures !Better(side)(p, l.price)
    {
      var n :| 0 <= n < |out| && out[n] == l;
      if WithinDepth(side, results, depth, p) {
        LimitKeepsPrice(side, results, depth, p);
      } else {
        var k, i :|
          0 <= k < |results| && depth <= i < |LevelsOf(side, results[k])| && LevelsOf(side, results[k])[i].price == p;
        BelowDepthIsWorse(side, results, depth, out, n, k, i);
      }
    }
  }

  /** The limit sent to the exchanges is lossless, ties between representations included. */
  lemma LimitPushdown(side: Side, results: seq<BookResult>, depth: nat, out: seq<Level>)
    requires depth > 0 && AllBestFirst(side, results)
    ensures IsRanked(Better(side), out, Accumulate(Contributions(side, results)), depth) <==>
            IsRanked(Better(side), out, Accumulate(Contributions(side, LimitAll(results, depth))), depth)
  {
    if IsRanked(Better(side), out, Accumulate(Contributions(side, results)), depth) {
      FullToLimited(side, results, depth, out);
    }
    if IsRanked(Better(side), out, Accumulate(Contributions(side, LimitAll(results, depth))), depth) {
      LimitedToFull(side, results, depth, out);
    }
  }

  /** The "no data" error does not depend on the limit either. */
  lemma LimitKeepsError(side: Side, results: seq<BookResult>, depth: nat)
    requires depth > 0 && AllBestFirst(side, results)
    ensures Contributions(side, LimitAll(results, depth)) == [] <==> Contributions(side, results) == []
  {
    LimitedSize(side, results, depth);
    AccumulateEmpty(Contributions(side, results));
    AccumulateEmpty(Contributions(side, LimitAll(results, depth)));
  }
}

/** Why every book has to be best first: for one book, nothing else makes the limit lossless. */
module PushdownBoundary {
  import opened Decimals
  import opened Folds
  import opened MergedBook
  import opened OrderBooks
  import opened Pushdown
  import opened Sorting

  /** A side is possible with the limit exactly when it is possible without. */
  ghost predicate SameWithLimit(side: Side, results: seq<BookResult>, depth: nat, out: seq<Level>) {
    IsRanked(Better(side), out, Accumulate(Contributions(side, results)), depth) <==>
    IsRanked(Better(side), out, Accumulate(Contributions(side, LimitAll(results, depth))), depth)
  }

  ghost predicate Lossless(side: Side, results: seq<BookResult>) {
    forall depth: nat, out :: depth > 0 ==> SameWithLimit(side, results, depth, out)
  }

  ghost predicate AllPositive(levels: seq<Level>) {
    forall l :: l in levels ==> Value(l.quantity) > 0.0
  }

  /** The same for the levels of a single book, when it has more than `n`. */
  ghost predicate SameWithFirst(better: Order, levels: seq<Level>, n: nat, out: seq<Level>)
    requires n <= |levels|
  {
    IsRanked(better, out, Accumulate(levels), n) <==> IsRanked(better, out, Accumulate(levels[..n]), n)
  }

  lemma OnlyContribution(side: Side, r: BookResult)
    ensures Contributions(side, [r]) == LevelsOf(side, r)
  {
    assert [r][..0] == [] && Contributions(side, [r]) == [] + LevelsOf(side, r);
  }

  lemma OneBook(side: Side, r: BookResult, n: nat, out: seq<Level>)
    requires 0 < n <= |LevelsOf(side, r)| && SameWithLimit(side, [r], n, out)
    ensures SameWithFirst(Better(side), LevelsOf(side, r), n, out)
  {
    var levels := LevelsOf(side, r);
    OnlyContribution(side, r);
    OnlyContribution(side, LimitResult(r, n));
    LimitedLevels(side, r, n);
    assert LimitAll([r], n) == [LimitResult(r, n)];
    assert levels[..|levels|] == levels;
  }

  /** A book without repeated prices merges to itself. */
  lemma {:induction false} DistinctAccumulate(levels: seq<Level>)
    requires forall i, j :: 0 <= i < j < |levels| ==> levels[i].price != levels[j].price
    ensures IsListing(levels, Accumulate(levels)) && |Accumulate(levels)| == |levels|
    decreases |levels|
  {
    if levels != [] {
      var front, last := levels[..|levels| - 1], levels[|levels| - 1];
      DistinctAccumulate(front);
      MergedQuantity(front, last.price);
      assert last.price !in Accumulate(front);
      ListingExtended(front, Accumulate(front), last);
      assert levels == front + [last];
      assert Accumulate(levels) == Put(Accumulate(front), last);
    }
  }

  /** The first levels of a best-first book are ranked, as the merge of just these. */
  lemma FirstIsRanked(better: Order, first: seq<Level>)
    requires StrictWeakOrder(better) && BestFirst(better, first)
    ensures IsRanked(better, first, Accumulate(first), |first|)
  {
    forall i, j | 0 <= i < j < |first|
      ensures first[i].price != first[j].price && !better(first[j].price, first[i].price)
    {
      assert better(first[i].price, first[j].price);
    }
    DistinctAccumulate(first);
  }

  /** Every further level at a price adds to its quantity, and none takes from it. */
  lemma {:induction false} QuantityGrows(levels: seq<Level>, n: nat, more: nat, p: Decimal)
    requires AllPositive(levels) && n <= more <= |levels| && p in Accumulate(levels[..n])
    ensures p in Accumulate(levels[..more])
    ensures Value(Accumulate(levels[..more])[p]) >= Value(Accumulate(levels[..n])[p])
    ensures n < more && levels[n].price == p ==>
              Value(Accumulate(levels[..more])[p]) > Value(Accumulate(levels[..n])[p])
    decreases more
  {
    if n < more {
      QuantityGrows(levels, n, more - 1, p);
      var m, l := Accumulate(levels[..more - 1]), levels[more - 1];
      assert levels[..more] == levels[..more - 1] + [l];
      AccumulateSnoc(levels[..more - 1], l);
      assert l in levels;
      if l.price == p {
        AddValue(m[p], l.quantity);
      }
    }
  }

  /** If the limit `n` is lossless, the next price is none of the first `n`. */
  lemma NextPriceIsNew(better: Order, levels: seq<Level>, n: nat, i: nat)
    requires StrictWeakOrder(better) && AllPositive(levels) && i < n < |levels|
    requires BestFirst(better, levels[..n]) && SameWithFirst(better, levels, n, levels[..n])
    ensures levels[n].price != levels[i].price
  {
    var first := levels[..n];
    FirstIsRanked(better, first);
    assert first[i] == levels[i] && first[i] in first;
    assert levels[..|levels|] == levels;
    if levels[n].price == levels[i].price {
      QuantityGrows(levels, n, |levels|, levels[i].price);
      assert false;
    }
  }

  lemma IsKey(levels: seq<Level>, n: nat)
    requires n < |levels|
    ensures levels[n].price in Accumulate(levels)
  {
    MergedQuantity(levels, levels[n].price);
  }

  /** The first levels with the last one replaced by the next price. */
  function Swapped(levels: seq<Level>, n: nat): seq<Level>
    requires 0 < n < |levels| && levels[n].price in Accumulate(levels)
  {
    levels[..n - 1] + [Level(levels[n].price, Accumulate(levels)[levels[n].price])]
  }

  ghost predicate MayTie(better: Order, levels: seq<Level>, n: nat) {
    && StrictWeakOrder(better) && 0 < n < |levels| && levels[n].price in Accumulate(levels)
    && IsRanked(better, levels[..n], Accumulate(levels), n)
    && (forall i :: 0 <= i < n ==> levels[n].price != levels[i].price)
    && !better(levels[n - 1].price, levels[n].price)
  }

  /** What is cut then is not better than anything that is kept. */
  lemma SwappedCutsNothingBetter(better: Order, levels: seq<Level>, n: nat, p: Decimal, l: Level)
    requires MayTie(better, levels, n)
    requires var m := Accumulate(levels); p in m && Level(p, m[p]) !in Swapped(levels, n)
    requires l in Swapped(levels, n)
    ensures !better(p, l.price)
  {
    var first, out, m := levels[..n], Swapped(levels, n), Accumulate(levels);
    var j :| 0 <= j < n && out[j] == l;
    assert forall i :: 0 <= i < n - 1 ==> out[i] == first[i] && out[i] in out;
    assert first[n - 1] in first && first[j] in first;
    if Level(p, m[p]) in first {
      var i :| 0 <= i < n && first[i] == Level(p, m[p]);
      assert i == n - 1;
    } else {
      assert !better(p, first[n - 1].price) && !better(p, first[j].price);
    }
  }

  /** If the next price is as good as the last of the first `n`, either may be kept. */
  lemma SwappedIsRanked(better: Order, levels: seq<Level>, n: nat)
    requires MayTie(better, levels, n)
    ensures IsRanked(better, Swapped(levels, n), Accumulate(levels), n)
  {
    var first, m, next := levels[..n], Accumulate(levels), levels[n].price;
    var out := Swapped(levels, n);
    assert forall i :: 0 <= i < n - 1 ==> out[i] == first[i] && first[i] in first;
    assert forall l :: l in first ==> l.price != next;
    assert Level(next, m[next]) !in first;
    forall p, l | p in m && Level(p, m[p]) !in out && l in out
      ensures !better(p, l.price)
    {
      SwappedCutsNothingBetter(better, levels, n, p, l);
    }
  }

  /** If the limit `n` is lossless, the next price is worse than the last of the first `n`. */
  lemma NextPriceIsWorse(better: Order, levels: seq<Level>, n: nat)
    requires StrictWeakOrder(better) && AllPositive(levels) && 0 < n < |levels|
    requires BestFirst(better, levels[..n])
    requires forall out :: SameWithFirst(better, levels, n, out)
    ensures better(levels[n - 1].price, levels[n].price)
  {
    var first := levels[..n];
    FirstIsRanked(better, first);
    assert SameWithFirst(better, levels, n, first);
    IsKey(levels, n);
    forall i | 0 <= i < n
      ensures levels[n].price != levels[i].price
    {
      NextPriceIsNew(better, levels, n, i);
    }
    if !better(levels[n - 1].price, levels[n].price) {
      SwappedIsRanked(better, levels, n);
      assert SameWithFirst(better, levels, n, Swapped(levels, n));
      var last := Swapped(levels, n)[n - 1];
      assert last in Swapped(levels, n);
      MergedQuantity(first, levels[n].price);
      assert false;
    }
  }

  lemma {:induction false} FirstAreBestFirst(better: Order, levels: seq<Level>, n: nat)
    requires StrictWeakOrder(better) && AllPositive(levels) && n <= |levels|
    requires forall k: nat, out :: 0 < k < |levels| ==> SameWithFirst(better, levels, k, out)
    ensures BestFirst(better, levels[..n])
  {
    if n > 1 {
      FirstAreBestFirst(better, levels, n - 1);
      NextPriceIsWorse(better, levels, n - 1);
      var before, after := levels[..n - 1], levels[..n];
      forall i, j | 0 <= i < j < n
        ensures better(after[i].price, after[j].price)
      {
        if j < n - 1 {
          assert better(before[i].price, before[j].price);
        } else if i < n - 2 {
          assert better(before[i].price, before[n - 2].price);
          BetterTransitive(better, levels[i].price, levels[n - 2].price, levels[n - 1].price);
        }
      }
    }
  }

  /** For one book with positive quantities, the limit is lossless at every depth exactly when
      the book is best first and quotes no price twice. */
  lemma LosslessIffBestFirst(side: Side, r: BookResult)
    requires AllPositive(LevelsOf(side, r))
    ensures Lossless(side, [r]) <==> BestFirst(Better(side), LevelsOf(side, r))
  {
    var levels := LevelsOf(side, r);
    BetterIsOrder(side);
    if BestFirst(Better(side), levels) {
      forall depth: nat, out | depth > 0
        ensures SameWithLimit(side, [r], depth, out)
      {
        LimitPushdown(side, [r], depth, out);
      }
    }
    if Lossless(side, [r]) {
      forall k: nat, out | 0 < k < |levels|
        ensures SameWithFirst(Better(side), levels, k, out)
      {
        assert SameWithLimit(side, [r], k, out);
        OneBook(side, r, k, out);
      }
      FirstAreBestFirst(Better(side), levels, |levels|);
      assert levels[..|levels|] == levels;
    }
  }

  /** A book that quotes one price twice, which BestFirst rules out. */
  const REPEATED_BIDS := [Level(Decimal(5, 0), Decimal(1, 0)), Level(Decimal(5, 0), Decimal(2, 0))]

  const REPEATED := [BookResult("x", Some(OrderBook(REPEATED_BIDS, [], 0)), None)]

  /** Without distinct prices in a book the limit would lose quantity. */
  lemma RepeatedPriceLosesQuantity()
    ensures Accumulate(Contributions(Bid, REPEATED)) == map[Decimal(5, 0) := Decimal(3, 0)]
    ensures Accumulate(Contributions(Bid, LimitAll(REPEATED, 1))) == map[Decimal(5, 0) := Decimal(1, 0)]
  {
    var a, b := Level(Decimal(5, 0), Decimal(1, 0)), Level(Decimal(5, 0), Decimal(2, 0));
    assert REPEATED[..0] == [] && Contributions(Bid, REPEATED) == [] + [a, b] == [a] + [b];
    assert LimitAll(REPEATED, 1)[..0] == [];
    assert Contributions(Bid, LimitAll(REPEATED, 1)) == [] + [a] == [a];
    assert [a] == [] + [a];
    AccumulateSnoc([], a);
    AccumulateSnoc([a], b);
  }
}
