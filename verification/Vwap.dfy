/** GetVWAP: the volume-weighted average over every level of every usable book. */
module Vwap {
  import opened Decimals
  import opened Folds
  import opened OrderBooks
  import opened MergedBook
  import opened Roundings
  import Tickers

  datatype VWAPResult = VWAPResult(
    symbol: string, vwap: Decimal, volume: Decimal, numTrades: int, exchanges: seq<string>)

  /** The running totals of the loop. */
  datatype Totals = Totals(value: Decimal, volume: Decimal, trades: int)

  const NO_TOTALS := Totals(ZERO, ZERO, 0)

  function Count(t: Totals, level: Level): Totals {
    Totals(Add(t.value, Mul(level.price, level.quantity)), Add(t.volume, level.quantity), t.trades + 1)
  }

  /** Bids, then asks, of each usable result in arrival order. */
  function AllLevels(results: seq<BookResult>): seq<Level> {
    if results == [] then []
    else
      var last := results[|results| - 1];
      AllLevels(results[..|results| - 1]) + LevelsOf(Bid, last) + LevelsOf(Ask, last)
  }

  function TotalsOf(levels: seq<Level>): Totals {
    Fold(Count, NO_TOTALS, levels)
  }

  /** The loop over one side of one book. */
  method CountLevels(t: Totals, levels: seq<Level>, ghost earlier: seq<Level>) returns (t': Totals)
    requires t == TotalsOf(earlier)
    ensures t' == TotalsOf(earlier + levels)
  {
    var totalValue, totalVolume, numTrades := t.value, t.volume, t.trades;
    assert earlier + levels[..0] == earlier;
    for j := 0 to |levels|
      invariant Totals(totalValue, totalVolume, numTrades) == TotalsOf(earlier + levels[..j])
    {
      var level := levels[j];
      FoldSnoc(Count, NO_TOTALS, earlier + levels[..j], level);
      assert earlier + levels[..j + 1] == earlier + levels[..j] + [level];
      var value := Mul(level.price, level.quantity);
      totalValue := Add(totalValue, value);
      totalVolume := Add(totalVolume, level.quantity);
      numTrades := numTrades + 1;
    }
    assert levels[..|levels|] == levels;
    t' := Totals(totalValue, totalVolume, numTrades);
  }

  method GetVWAP(symbol: string, results: seq<BookResult>, quo: Tickers.Quotient) returns (r: Result<VWAPResult>)
    ensures var t := TotalsOf(AllLevels(results));
            && (r.Err? <==> IsZero(t.volume) || quo(t.value, t.volume).None?)
            && (r.Ok? ==> quo(t.value, t.volume) == Some(r.value.vwap) && r.value.volume == t.volume)
    ensures r.Ok? ==> r.value.symbol == symbol && r.value.numTrades == |AllLevels(results)|
    ensures r.Ok? ==> r.value.exchanges == UsableNames(results)
    ensures r.Ok? ==> Value(r.value.volume) == VolumeQuoted(results) && r.value.numTrades == LevelsQuoted(results)
    ensures VolumeQuoted(results) == 0.0 ==> r.Err?
  {
    var totals := NO_TOTALS;
    var exchanges := [];
    for i := 0 to |results|
      invariant totals == TotalsOf(AllLevels(results[..i]))
      invariant exchanges == UsableNames(results[..i])
    {
      var result := results[i];
      ghost var earlier := AllLevels(results[..i]);
      assert results[..i + 1][..i] == results[..i];
      if result.error.Some? || result.book.None? {
        assert earlier + [] + [] == earlier;
        continue;
      }
      exchanges := exchanges + [result.exchange];
      totals := CountLevels(totals, result.book.value.bids, earlier);
      totals := CountLevels(totals, result.book.value.asks, earlier + result.book.value.bids);
    }
    assert results[..|results|] == results;
    TradesCounted(AllLevels(results));
    TotalsOfAllBooks(results);
    ValueSign(totals.volume);
    if IsZero(totals.volume) {
      return Err("no valid order book data available for symbol: " + symbol);
    }
    var vwap := quo(totals.value, totals.volume);
    if vwap.None? {
      return Err("calculate vwap");
    }
    return Ok(VWAPResult(symbol, vwap.value, totals.volume, totals.trades, exchanges));
  }

  lemma {:induction false} TradesCounted(levels: seq<Level>)
    ensures TotalsOf(levels).trades == |levels|
    decreases |levels|
  {
    if levels != [] {
      TradesCounted(levels[..|levels| - 1]);
    }
  }

  ghost function Notional(levels: seq<Level>): real {
    if levels == [] then 0.0
    else
      var last := levels[|levels| - 1];
      Notional(levels[..|levels| - 1]) + Worth(last)
  }

  ghost function Worth(level: Level): real {
    Value(level.price) * Value(level.quantity)
  }

  lemma WorthIsProduct(level: Level)
    ensures Value(Mul(level.price, level.quantity)) == Worth(level)
  {
    MulValue(level.price, level.quantity);
  }

  /** The totals are the sums over all levels. */
  lemma {:induction false} TotalsAreSums(levels: seq<Level>)
    ensures Value(TotalsOf(levels).volume) == TotalQuantity(levels)
    ensures Value(TotalsOf(levels).value) == Notional(levels)
    decreases |levels|
  {
    ValueSign(ZERO);
    if levels != [] {
      var front, last := levels[..|levels| - 1], levels[|levels| - 1];
      TotalsAreSums(front);
      var t := TotalsOf(front);
      assert TotalsOf(levels) == Count(t, last);
      AddValue(t.volume, last.quantity);
      AddValue(t.value, Mul(last.price, last.quantity));
      WorthIsProduct(last);
    }
  }

  /** The volume, the worth and the number of all levels in the exchanges' books. */
  ghost function VolumeQuoted(results: seq<BookResult>): real {
    if results == [] then 0.0
    else
      var last := results[|results| - 1];
      VolumeQuoted(results[..|results| - 1]) +
      if last.error.None? && last.book.Some?
      then TotalQuantity(last.book.value.bids) + TotalQuantity(last.book.value.asks) else 0.0
  }

  ghost function WorthQuoted(results: seq<BookResult>): real {
    if results == [] then 0.0
    else
      var last := results[|results| - 1];
      WorthQuoted(results[..|results| - 1]) +
      if last.error.None? && last.book.Some?
      then Notional(last.book.value.bids) + Notional(last.book.value.asks) else 0.0
  }

  function LevelsQuoted(results: seq<BookResult>): nat {
    if results == [] then 0
    else
      var last := results[|results| - 1];
      LevelsQuoted(results[..|results| - 1]) +
      if last.error.None? && last.book.Some? then |last.book.value.bids| + |last.book.value.asks| else 0
  }

  lemma {:induction false} NotionalConcat(a: seq<Level>, b: seq<Level>)
    ensures Notional(a + b) == Notional(a) + Notional(b)
    decreases |b|
  {
    if b == [] {
      assert a + b == a;
    } else {
      NotionalConcat(a, b[..|b| - 1]);
      assert (a + b)[..|a + b| - 1] == a + b[..|b| - 1];
    }
  }

  lemma {:induction false} LevelsOfAllBooks(results: seq<BookResult>)
    ensures TotalQuantity(AllLevels(results)) == VolumeQuoted(results)
    ensures Notional(AllLevels(results)) == WorthQuoted(results)
    ensures |AllLevels(results)| == LevelsQuoted(results)
    decreases |results|
  {
    if results != [] {
      var front, last := AllLevels(results[..|results| - 1]), results[|results| - 1];
      LevelsOfAllBooks(results[..|results| - 1]);
      TotalConcat(front, LevelsOf(Bid, last));
      TotalConcat(front + LevelsOf(Bid, last), LevelsOf(Ask, last));
      NotionalConcat(front, LevelsOf(Bid, last));
      NotionalConcat(front + LevelsOf(Bid, last), LevelsOf(Ask, last));
    }
  }

  /** The totals that are divided are the worth and the volume of all bids and asks in the
      exchanges' books. */
  lemma TotalsOfAllBooks(results: seq<BookResult>)
    ensures var t := TotalsOf(AllLevels(results));
            && Value(t.volume) == VolumeQuoted(results)
            && Value(t.value) == WorthQuoted(results)
            && t.trades == LevelsQuoted(results)
  {
    TotalsAreSums(AllLevels(results));
    TradesCounted(AllLevels(results));
    LevelsOfAllBooks(results);
  }

  ghost predicate NonNegative(levels: seq<Level>) {
    forall l :: l in levels ==> Value(l.quantity) >= 0.0
  }

  ghost predicate PricesWithin(levels: seq<Level>, lo: real, hi: real) {
    forall l :: l in levels ==> lo <= Value(l.price) <= hi
  }

  /** `sum` is at least `lo` and at most `hi` per unit of `total`. */
  ghost predicate PerUnitWithin(lo: real, hi: real, total: real, sum: real) {
    lo * total <= sum <= hi * total
  }

  lemma TermWithin(lo: real, p: real, hi: real, q: real, sum: real, total: real)
    requires lo <= p <= hi && q >= 0.0
    requires PerUnitWithin(lo, hi, total, sum)
    ensures PerUnitWithin(lo, hi, total + q, sum + p * q)
  {
    assert (p - lo) * q >= 0.0;
    assert (hi - p) * q >= 0.0;
  }

  lemma {:induction false} NotionalWithin(levels: seq<Level>, lo: real, hi: real)
    requires NonNegative(levels) && PricesWithin(levels, lo, hi)
    ensures PerUnitWithin(lo, hi, TotalQuantity(levels), Notional(levels))
    ensures TotalQuantity(levels) >= 0.0
    decreases |levels|
  {
    if levels != [] {
      var front, last := levels[..|levels| - 1], levels[|levels| - 1];
      NotionalWithin(front, lo, hi);
      assert last in levels;
      TermWithin(lo, Value(last.price), hi, Value(last.quantity), Notional(front), TotalQuantity(front));
    }
  }

  /** Before dividing, the totals bound each other by the extreme prices. */
  lemma TotalsWithinPrices(results: seq<BookResult>, lo: real, hi: real)
    requires NonNegative(AllLevels(results)) && PricesWithin(AllLevels(results), lo, hi)
    ensures var t := TotalsOf(AllLevels(results));
            Value(t.volume) >= 0.0 && PerUnitWithin(lo, hi, Value(t.volume), Value(t.value))
  {
    TotalsAreSums(AllLevels(results));
    NotionalWithin(AllLevels(results), lo, hi);
  }

  ghost predicate ExactAverage(average: real, total: real, sum: real) {
    average * total == sum
  }

  lemma FactorOrder(a: real, b: real, k: real)
    requires k > 0.0
    ensures a * k <= b * k ==> a <= b
  {
    if a > b {
      assert (a - b) * k > 0.0;
    }
  }

  lemma QuotientWithin(lo: real, q: real, hi: real, total: real, sum: real)
    requires total > 0.0
    requires PerUnitWithin(lo, hi, total, sum) && ExactAverage(q, total, sum)
    ensures lo <= q <= hi
  {
    FactorOrder(lo, q, total);
    FactorOrder(q, hi, total);
  }

  /** The average, when the division is exact, lies between the lowest and the highest
      price of all levels. */
  lemma VwapWithinPrices(results: seq<BookResult>, lo: real, hi: real, vwap: Decimal)
    requires NonNegative(AllLevels(results)) && PricesWithin(AllLevels(results), lo, hi)
    requires !IsZero(TotalsOf(AllLevels(results)).volume)
    requires var t := TotalsOf(AllLevels(results));
             ExactAverage(Value(vwap), Value(t.volume), Value(t.value))
    ensures lo <= Value(vwap) <= hi
  {
    var t := TotalsOf(AllLevels(results));
    TotalsWithinPrices(results, lo, hi);
    ValueSign(t.volume);
    QuotientWithin(lo, Value(vwap), hi, Value(t.volume), Value(t.value));
  }

  /** The average rounded to any precision that represents both bounds lies between them too. */
  lemma VwapRoundedWithinPrices(results: seq<BookResult>, lo: real, hi: real, average: real, round: Rounding,
                                vwap: Decimal)
    requires NonNegative(AllLevels(results)) && PricesWithin(AllLevels(results), lo, hi)
    requires !IsZero(TotalsOf(AllLevels(results)).volume)
    requires var t := TotalsOf(AllLevels(results));
             ExactAverage(average, Value(t.volume), Value(t.value))
    requires Monotone(round) && round(lo) == lo && round(hi) == hi && Value(vwap) == round(average)
    ensures lo <= Value(vwap) <= hi
  {
    var t := TotalsOf(AllLevels(results));
    TotalsWithinPrices(results, lo, hi);
    ValueSign(t.volume);
    QuotientWithin(lo, average, hi, Value(t.volume), Value(t.value));
  }

  /** With non-negative quantities, the "no data" error means that nothing is on offer. */
  lemma {:induction false} ZeroVolumeMeansNoQuantity(levels: seq<Level>)
    requires NonNegative(levels)
    ensures TotalQuantity(levels) >= 0.0
    ensures IsZero(TotalsOf(levels).volume) <==> forall l :: l in levels ==> IsZero(l.quantity)
    decreases |levels|
  {
    TotalsAreSums(levels);
    ValueSign(TotalsOf(levels).volume);
    if levels != [] {
      var front, last := levels[..|levels| - 1], levels[|levels| - 1];
      assert levels == front + [last];
      assert forall l :: l in levels <==> l in front || l == last;
      ZeroVolumeMeansNoQuantity(front);
      TotalsAreSums(front);
      ValueSign(TotalsOf(front).volume);
      ValueSign(last.quantity);
    }
  }

  // ----- arrival order

  lemma CountCommutes()
    ensures StepsCommute(Count)
  {
    forall t, x, y
      ensures Count(Count(t, x), y) == Count(Count(t, y), x)
    {
      AddReorder(t.value, Mul(x.price, x.quantity), Mul(y.price, y.quantity));
      AddReorder(t.volume, x.quantity, y.quantity);
    }
  }

  ghost function GatherBoth(): (multiset<Level>, BookResult) -> multiset<Level> {
    (seen, r) => seen + BothSides(r)
  }

  ghost function BothSides(r: BookResult): multiset<Level> {
    multiset(LevelsOf(Bid, r)) + multiset(LevelsOf(Ask, r))
  }

  lemma {:induction false} GatherAllLevels(results: seq<BookResult>)
    ensures multiset(AllLevels(results)) == Fold(GatherBoth(), multiset{}, results)
    decreases |results|
  {
    if results != [] {
      GatherAllLevels(results[..|results| - 1]);
    }
  }

  /** The totals, down to their representation, do not depend on the arrival order. */
  lemma VwapArrivalOrderIrrelevant(results: seq<BookResult>, results': seq<BookResult>)
    requires multiset(results) == multiset(results')
    ensures TotalsOf(AllLevels(results)) == TotalsOf(AllLevels(results'))
  {
    GatherAllLevels(results);
    GatherAllLevels(results');
    forall seen, x, y
      ensures GatherBoth()(GatherBoth()(seen, x), y) == GatherBoth()(GatherBoth()(seen, y), x)
    {
      assert seen + BothSides(x) + BothSides(y) == seen + BothSides(y) + BothSides(x);
    }
    FoldPermutation(GatherBoth(), multiset{}, results, results');
    CountCommutes();
    FoldPermutation(Count, NO_TOTALS, AllLevels(results), AllLevels(results'));
  }
}
