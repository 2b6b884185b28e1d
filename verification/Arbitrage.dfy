/** What the arbitrage list says, and how it agrees with the best price computed from the
    same tickers. */
module Arbitrage {
  import opened Decimals
  import opened Folds
  import opened Sorting
  import opened Tickers

  /** The percentage of a pair times its buying price is a hundred times its margin. */
  ghost predicate PercentOf(percent: real, buy: real, sell: real) {
    percent * buy == 100.0 * (sell - buy)
  }

  /** Every division the search makes succeeds and is exact. */
  ghost predicate ExactQuotients(valid: seq<ValidResult>, quo: Quotient) {
    forall i, j :: 0 <= i < |valid| && 0 <= j < |valid| && i != j ==>
      ExactAt(valid[i].ticker.value.ask, valid[j].ticker.value.bid, quo)
  }

  ghost predicate ExactAt(ask: Decimal, bid: Decimal, quo: Quotient) {
    var q := quo(Mul(Sub(bid, ask), Decimal(100, 0)), ask);
    q.Some? && PercentOf(Value(q.value), Value(ask), Value(bid))
  }

  /** Tickers as exchanges publish them: a positive ask, and a bid not above it. */
  ghost predicate Uncrossed(valid: seq<ValidResult>) {
    forall i :: 0 <= i < |valid| ==>
      Value(valid[i].ticker.value.ask) > 0.0 && Value(valid[i].ticker.value.bid) <= Value(valid[i].ticker.value.ask)
  }

  lemma PercentSign(q: real, ask: real, bid: real)
    requires ask > 0.0 && PercentOf(q, ask, bid)
    ensures q > 0.0 <==> bid > ask
    ensures q >= 0.0 <==> bid >= ask
  {
    if q > 0.0 {
      assert q * ask > 0.0;
    } else if q < 0.0 {
      assert q * ask < 0.0;
    }
  }

  lemma ScaledLe(a: real, b: real, k: real)
    requires a <= b && k > 0.0
    ensures k * a <= k * b && a * k <= b * k
  {
  }

  lemma SqueezedProducts(g0: real, ask0: real, g: real, ask: real)
    requires 0.0 < g <= g0 && 0.0 < ask <= ask0
    ensures g * ask <= g0 * ask0
    ensures g * ask == g0 * ask0 ==> ask == ask0
  {
    ScaledLe(g, g0, ask0);
    ScaledLe(ask, ask0, g);
    if ask < ask0 {
      assert g * (ask0 - ask) > 0.0;
    }
  }

  /** A pair that does at least as well in percent as the best bid over the best ask must
      trade at exactly these prices. */
  lemma BestPercentIsBestPrices(q0: real, ask0: real, bid0: real, q: real, ask: real, bid: real)
    requires 0.0 < ask <= ask0 && bid0 <= bid && ask < bid
    requires PercentOf(q0, ask0, bid0) && PercentOf(q, ask, bid)
    requires q0 >= q
    ensures ask0 == ask && bid0 == bid
  {
    PercentSign(q, ask, bid);
    SqueezedProducts(q0 + 100.0, ask0, q + 100.0, ask);
    assert (q0 + 100.0) * ask0 == 100.0 * bid0;
    assert (q + 100.0) * ask == 100.0 * bid;
  }

  /** The facts about one reported pair, in numbers. */
  lemma PairFacts(symbol: string, valid: seq<ValidResult>, i: nat, j: nat, quo: Quotient)
    requires i < |valid| && j < |valid| && i != j
    requires Uncrossed(valid) && ExactQuotients(valid, quo)
    ensures var bid, ask := Value(valid[j].ticker.value.bid), Value(valid[i].ticker.value.ask);
            var o := AtPair(symbol, valid, i, j, ZERO, quo);
            && (o.Some? <==> bid >= ask)
            && (o.Some? ==>
                  && o.value.buyPrice == valid[i].ticker.value.ask
                  && o.value.sellPrice == valid[j].ticker.value.bid
                  && Value(o.value.spread) == bid - ask)
  {
    var a, b := valid[i].ticker.value.ask, valid[j].ticker.value.bid;
    ValueSign(a);
    SubValue(b, a);
    assert ExactAt(a, b, quo);
    var percent := quo(Mul(Sub(b, a), Decimal(100, 0)), a).value;
    PercentSign(Value(percent), Value(a), Value(b));
    CmpValue(percent, ZERO);
    ValueSign(ZERO);
  }

  lemma PairPercent(symbol: string, valid: seq<ValidResult>, i: nat, j: nat, quo: Quotient)
    requires i < |valid| && j < |valid|
    requires ExactQuotients(valid, quo)
    ensures var o := AtPair(symbol, valid, i, j, ZERO, quo);
            o.Some? ==> PercentOf(Value(o.value.spreadPercent), Value(o.value.buyPrice), Value(o.value.sellPrice))
  {
    if i != j {
      assert ExactAt(valid[i].ticker.value.ask, valid[j].ticker.value.bid, quo);
    }
  }

  /** Where the best prices cross, the pair of exchanges behind them is reported. */
  lemma CrossedPairIsListed(symbol: string, valid: seq<ValidResult>, quo: Quotient, list: seq<Opportunity>, i: nat,
                            j: nat)
    requires Uncrossed(valid) && ExactQuotients(valid, quo)
    requires IsArbitrageList(symbol, valid, ZERO, quo, list)
    requires i < |valid| && j < |valid|
    requires Value(valid[j].ticker.value.bid) > Value(valid[i].ticker.value.ask)
    ensures i != j
    ensures AtPair(symbol, valid, i, j, ZERO, quo).Some?
    ensures AtPair(symbol, valid, i, j, ZERO, quo).value in list
  {
    PairFacts(symbol, valid, i, j, quo);
    ListedIffSomePair(symbol, valid, ZERO, quo, list, AtPair(symbol, valid, i, j, ZERO, quo).value);
  }

  /** The head of the list does at least as well as any listed opportunity. */
  lemma HeadIsHighest(symbol: string, valid: seq<ValidResult>, quo: Quotient, list: seq<Opportunity>, o: Opportunity)
    requires IsArbitrageList(symbol, valid, ZERO, quo, list)
    requires o in list
    ensures list != [] && Value(list[0].spreadPercent) >= Value(o.spreadPercent)
  {
    var k :| 0 <= k < |list| && list[k] == o;
  }

  /** No listed opportunity trades outside the best prices. */
  lemma ListedWithinBest(symbol: string, valid: seq<ValidResult>, quo: Quotient, best: BestPrice,
                         list: seq<Opportunity>, o: Opportunity)
    requires Uncrossed(valid) && ExactQuotients(valid, quo)
    requires IsBest(valid, best)
    requires IsArbitrageList(symbol, valid, ZERO, quo, list)
    requires o in list
    ensures Value(o.spread) == Value(o.sellPrice) - Value(o.buyPrice)
    ensures 0.0 < Value(best.ask) <= Value(o.buyPrice) && Value(o.sellPrice) <= Value(best.bid)
  {
    ListedIffSomePair(symbol, valid, ZERO, quo, list, o);
    var i: nat, j: nat :| i < |valid| && j < |valid| && AtPair(symbol, valid, i, j, ZERO, quo) == Some(o);
    PairFacts(symbol, valid, i, j, quo);
    var a: nat :| LowestAskIs(valid, a, best.ask, best.askExchange);
    var b: nat :| HighestBidIs(valid, b, best.bid, best.bidExchange);
  }

  lemma ListedPercent(symbol: string, valid: seq<ValidResult>, quo: Quotient, list: seq<Opportunity>, o: Opportunity)
    requires ExactQuotients(valid, quo)
    requires IsArbitrageList(symbol, valid, ZERO, quo, list)
    requires o in list
    ensures PercentOf(Value(o.spreadPercent), Value(o.buyPrice), Value(o.sellPrice))
  {
    ListedIffSomePair(symbol, valid, ZERO, quo, list, o);
    var i: nat, j: nat :| i < |valid| && j < |valid| && AtPair(symbol, valid, i, j, ZERO, quo) == Some(o);
    PairPercent(symbol, valid, i, j, quo);
  }

  /** `o` buys where the best ask is and sells where the best bid is, at these prices. */
  ghost predicate TradesBest(best: BestPrice, o: Opportunity) {
    && o.buyExchange == best.askExchange && o.buyPrice == best.ask
    && o.sellExchange == best.bidExchange && o.sellPrice == best.bid
  }

  /** When the best prices cross, trading at them is listed. */
  lemma CrossedBestIsListed(symbol: string, valid: seq<ValidResult>, quo: Quotient, best: BestPrice,
                            list: seq<Opportunity>)
    returns (o: Opportunity)
    requires Uncrossed(valid) && ExactQuotients(valid, quo)
    requires IsBest(valid, best)
    requires IsArbitrageList(symbol, valid, ZERO, quo, list)
    requires Value(best.spread) < 0.0
    ensures o in list && TradesBest(best, o)
  {
    var j: nat :| HighestBidIs(valid, j, best.bid, best.bidExchange);
    var i: nat :| LowestAskIs(valid, i, best.ask, best.askExchange);
    CrossedPairIsListed(symbol, valid, quo, list, i, j);
    PairFacts(symbol, valid, i, j, quo);
    o := AtPair(symbol, valid, i, j, ZERO, quo).value;
    PairReports(symbol, valid, i, j, ZERO, quo, o);
  }

  /** With exact quotients, a profitable opportunity is reported exactly when the best bid
      is above the best ask, and the first opportunity then trades at these two prices. */
  lemma ArbitrageAgreesWithBestPrice(symbol: string, valid: seq<ValidResult>, quo: Quotient, best: BestPrice,
                                     list: seq<Opportunity>)
    requires Uncrossed(valid) && ExactQuotients(valid, quo)
    requires IsBest(valid, best)
    requires IsArbitrageList(symbol, valid, ZERO, quo, list)
    ensures (exists o :: o in list && Value(o.spread) > 0.0) <==> Value(best.spread) < 0.0
    ensures Value(best.spread) < 0.0 ==>
              && list != []
              && Value(list[0].buyPrice) == Value(best.ask)
              && Value(list[0].sellPrice) == Value(best.bid)
              && exists o :: o in list && TradesBest(best, o)
  {
    if o :| o in list && Value(o.spread) > 0.0 {
      ListedWithinBest(symbol, valid, quo, best, list, o);
    }
    if Value(best.spread) < 0.0 {
      var o := CrossedBestIsListed(symbol, valid, quo, best, list);
      HeadIsHighest(symbol, valid, quo, list, o);
      ListedWithinBest(symbol, valid, quo, best, list, o);
      ListedWithinBest(symbol, valid, quo, best, list, list[0]);
      ListedPercent(symbol, valid, quo, list, o);
      ListedPercent(symbol, valid, quo, list, list[0]);
      BestPercentIsBestPrices(Value(list[0].spreadPercent), Value(list[0].buyPrice), Value(list[0].sellPrice),
                              Value(o.spreadPercent), Value(o.buyPrice), Value(o.sellPrice));
    }
  }

  // ----- rounded quotients

  function PercentAt(valid: seq<ValidResult>, i: int, j: int, quo: Quotient): Option<Decimal>
    requires 0 <= i < |valid| && 0 <= j < |valid|
  {
    var ask, bid := valid[i].ticker.value.ask, valid[j].ticker.value.bid;
    quo(Mul(Sub(bid, ask), Decimal(100, 0)), ask)
  }

  /** Selling at `bid` and buying at `ask` earns no more per unit spent than the other pair. */
  ghost predicate NoMoreProfitable(ask: real, bid: real, ask': real, bid': real) {
    bid * ask' <= bid' * ask
  }

  /** The divisions of the search succeed, and rounding keeps order and sign: whatever the
      precision, a better ratio never gets a lower percentage, and a profit no negative one. */
  ghost predicate RoundsMonotonically(valid: seq<ValidResult>, quo: Quotient) {
    && (forall i, j :: 0 <= i < |valid| && 0 <= j < |valid| && i != j ==> RoundsWell(valid, i, j, quo))
    && (forall i, j, k, l |
          0 <= i < |valid| && 0 <= j < |valid| && 0 <= k < |valid| && 0 <= l < |valid| && i != j && k != l ::
          KeepsOrder(valid, i, j, k, l, quo))
  }

  ghost predicate RoundsWell(valid: seq<ValidResult>, i: int, j: int, quo: Quotient)
    requires 0 <= i < |valid| && 0 <= j < |valid|
  {
    var q := PercentAt(valid, i, j, quo);
    q.Some? && (Value(valid[j].ticker.value.bid) >= Value(valid[i].ticker.value.ask) ==> Value(q.value) >= 0.0)
  }

  ghost predicate KeepsOrder(valid: seq<ValidResult>, i: int, j: int, k: int, l: int, quo: Quotient)
    requires 0 <= i < |valid| && 0 <= j < |valid| && 0 <= k < |valid| && 0 <= l < |valid|
  {
    var p, q := PercentAt(valid, i, j, quo), PercentAt(valid, k, l, quo);
    p.Some? && q.Some? &&
    NoMoreProfitable(Value(valid[i].ticker.value.ask), Value(valid[j].ticker.value.bid),
                     Value(valid[k].ticker.value.ask), Value(valid[l].ticker.value.bid)) ==>
      Value(p.value) <= Value(q.value)
  }

  lemma BestTradeIsMostProfitable(ask: real, bid: real, bestAsk: real, bestBid: real)
    requires 0.0 < bestAsk <= ask && bid <= bestBid && 0.0 < bestBid
    ensures NoMoreProfitable(ask, bid, bestAsk, bestBid)
  {
    ScaledLe(bid, bestBid, bestAsk);
    ScaledLe(bestAsk, ask, bestBid);
  }

  /** A listed opportunity comes from a pair and carries its percentage and exact margin. */
  lemma ListedFrom(symbol: string, valid: seq<ValidResult>, quo: Quotient, list: seq<Opportunity>, o: Opportunity)
    returns (i: nat, j: nat)
    requires IsArbitrageList(symbol, valid, ZERO, quo, list) && o in list
    ensures i < |valid| && j < |valid| && i != j && PercentAt(valid, i, j, quo) == Some(o.spreadPercent)
    ensures BuysAndSells(symbol, valid, i, j, o)
    ensures Value(o.spread) == Value(o.sellPrice) - Value(o.buyPrice)
  {
    ListedIffSomePair(symbol, valid, ZERO, quo, list, o);
    i, j :| i < |valid| && j < |valid| && AtPair(symbol, valid, i, j, ZERO, quo) == Some(o);
    PairReports(symbol, valid, i, j, ZERO, quo, o);
    SubValue(valid[j].ticker.value.bid, valid[i].ticker.value.ask);
  }

  /** Where the best prices cross, trading at them is listed, rounded or not. */
  lemma RoundedBestIsListed(symbol: string, valid: seq<ValidResult>, quo: Quotient, list: seq<Opportunity>, i: nat,
                            j: nat)
    returns (o: Opportunity)
    requires Uncrossed(valid) && RoundsMonotonically(valid, quo)
    requires IsArbitrageList(symbol, valid, ZERO, quo, list)
    requires i < |valid| && j < |valid|
    requires Value(valid[j].ticker.value.bid) > Value(valid[i].ticker.value.ask)
    ensures o in list && i != j && PercentAt(valid, i, j, quo) == Some(o.spreadPercent)
    ensures BuysAndSells(symbol, valid, i, j, o)
    ensures Value(o.spread) > 0.0
  {
    assert RoundsWell(valid, i, j, quo);
    ValueSign(valid[i].ticker.value.ask);
    ValueSign(ZERO);
    CmpValue(PercentAt(valid, i, j, quo).value, ZERO);
    SubValue(valid[j].ticker.value.bid, valid[i].ticker.value.ask);
    o := AtPair(symbol, valid, i, j, ZERO, quo).value;
    PairReports(symbol, valid, i, j, ZERO, quo, o);
    ListedIffSomePair(symbol, valid, ZERO, quo, list, o);
  }

  /** With quotients rounded to any precision, a profitable opportunity is still reported
      exactly when the best bid is above the best ask, and no opportunity is ranked above
      buying at the best ask and selling at the best bid. */
  lemma RoundedArbitrageLeadsWithBest(symbol: string, valid: seq<ValidResult>, quo: Quotient, best: BestPrice,
                                      list: seq<Opportunity>)
    requires Uncrossed(valid) && RoundsMonotonically(valid, quo)
    requires IsBest(valid, best)
    requires IsArbitrageList(symbol, valid, ZERO, quo, list)
    ensures (exists o :: o in list && Value(o.spread) > 0.0) <==> Value(best.spread) < 0.0
    ensures Value(best.spread) < 0.0 ==>
              exists o :: o in list && TradesBest(best, o) && Value(o.spreadPercent) == Value(list[0].spreadPercent)
  {
    var b: nat :| HighestBidIs(valid, b, best.bid, best.bidExchange);
    var a: nat :| LowestAskIs(valid, a, best.ask, best.askExchange);
    if o :| o in list && Value(o.spread) > 0.0 {
      var i, j := ListedFrom(symbol, valid, quo, list, o);
    }
    if Value(best.spread) < 0.0 {
      var o := RoundedBestIsListed(symbol, valid, quo, list, a, b);
      HeadIsHighest(symbol, valid, quo, list, o);
      var i, j := ListedFrom(symbol, valid, quo, list, list[0]);
      BestTradeIsMostProfitable(Value(list[0].buyPrice), Value(list[0].sellPrice), Value(best.ask), Value(best.bid));
      assert RoundsWell(valid, i, j, quo) && RoundsWell(valid, a, b, quo);
      assert KeepsOrder(valid, i, j, a, b, quo);
    }
  }

  /** Division that fails on every input, as under a context without precision. */
  ghost predicate AlwaysFails(quo: Quotient) {
    forall a, b :: quo(a, b).None?
  }

  /** If the base context's division fails, no opportunity is ever reported, however far
      the exchanges' prices are apart. */
  lemma NoQuotientNoArbitrage(symbol: string, valid: seq<ValidResult>, minSpread: Decimal, quo: Quotient,
                              list: seq<Opportunity>)
    requires AlwaysFails(quo)
    requires IsArbitrageList(symbol, valid, minSpread, quo, list)
    ensures list == []
  {
    if list != [] {
      ListedIffSomePair(symbol, valid, minSpread, quo, list, list[0]);
      assert false;
    }
  }

  // ----- arrival order

  ghost function GatherValid(): (multiset<TickerResult>, TickerResult) -> multiset<TickerResult> {
    (seen, t) => seen + ValidPart(t)
  }

  ghost function ValidPart(t: TickerResult): multiset<TickerResult> {
    if t.error.None? && t.ticker.Some? then multiset{t} else multiset{}
  }

  lemma {:induction false} GatherValidTickers(results: seq<TickerResult>)
    ensures multiset(ValidTickers(results)) == Fold(GatherValid(), multiset{}, results)
    decreases |results|
  {
    if results != [] {
      GatherValidTickers(results[..|results| - 1]);
    }
  }

  lemma ValidTickersPermuted(results: seq<TickerResult>, results': seq<TickerResult>)
    requires multiset(results) == multiset(results')
    ensures multiset(ValidTickers(results)) == multiset(ValidTickers(results'))
  {
    GatherValidTickers(results);
    GatherValidTickers(results');
    forall seen, x, y
      ensures GatherValid()(GatherValid()(seen, x), y) == GatherValid()(GatherValid()(seen, y), x)
    {
      assert seen + ValidPart(x) + ValidPart(y) == seen + ValidPart(y) + ValidPart(x);
    }
    FoldPermutation(GatherValid(), multiset{}, results, results');
  }

  lemma SameElements<T>(xs: seq<T>, ys: seq<T>, x: T)
    requires multiset(xs) == multiset(ys)
    ensures x in xs <==> x in ys
  {
    InSeqIffCounted(xs, x);
    InSeqIffCounted(ys, x);
  }

  /** The prices, the spread and the timestamp of the best price do not depend on the
      arrival order; only which of several equal exchanges is named does. */
  lemma BestPriceArrivalOrderIrrelevant(results: seq<TickerResult>, results': seq<TickerResult>, best: BestPrice,
                                        best': BestPrice)
    requires multiset(results) == multiset(results')
    requires IsBest(ValidTickers(results), best) && IsBest(ValidTickers(results'), best')
    ensures Value(best.bid) == Value(best'.bid) && Value(best.ask) == Value(best'.ask)
    ensures Value(best.spread) == Value(best'.spread) && best.timestamp == best'.timestamp
  {
    ValidTickersPermuted(results, results');
    NoBetterThanPermuted(ValidTickers(results), ValidTickers(results'), best, best');
    NoBetterThanPermuted(ValidTickers(results'), ValidTickers(results), best', best);
  }

  lemma NoBetterThanPermuted(valid: seq<ValidResult>, valid': seq<ValidResult>, best: BestPrice, best': BestPrice)
    requires multiset(valid) == multiset(valid') && IsBest(valid, best) && IsBest(valid', best')
    ensures Value(best.bid) <= Value(best'.bid) && Value(best.ask) >= Value(best'.ask)
    ensures best.timestamp <= best'.timestamp
  {
    var b: nat :| HighestBidIs(valid, b, best.bid, best.bidExchange);
    var a: nat :| LowestAskIs(valid, a, best.ask, best.askExchange);
    var t :| t in valid && t.ticker.value.timestamp == best.timestamp;
    SameElements(valid, valid', valid[b]);
    SameElements(valid, valid', valid[a]);
    SameElements(valid, valid', t);
  }

  // ----- how many pairs report an opportunity

  /** 1 if buying at `x` and selling at `y` reports exactly `o`, else 0. */
  function Hit(symbol: string, minSpread: Decimal, quo: Quotient, o: Opportunity, x: ValidResult, y: ValidResult): int {
    if OpportunityOf(symbol, x, y, minSpread, quo) == Some(o) then 1 else 0
  }

  type Hits = (ValidResult, ValidResult) -> int

  function HitsOf(symbol: string, minSpread: Decimal, quo: Quotient, o: Opportunity): Hits {
    (x: ValidResult, y: ValidResult) => Hit(symbol, minSpread, quo, o, x, y)
  }

  function AddHit(hits: Hits, x: ValidResult): (int, ValidResult) -> int {
    (n: int, y: ValidResult) => n + hits(x, y)
  }

  /** The hits of buying at `x` and selling anywhere in `valid`. */
  function RowHits(hits: Hits, x: ValidResult, valid: seq<ValidResult>): int {
    Fold(AddHit(hits, x), 0, valid)
  }

  function AddRow(hits: Hits, valid: seq<ValidResult>): (int, ValidResult) -> int {
    (n: int, x: ValidResult) => n + RowHits(hits, x, valid) - hits(x, x)
  }

  lemma RowHitsPermuted(hits: Hits, x: ValidResult, valid: seq<ValidResult>, valid': seq<ValidResult>)
    requires multiset(valid) == multiset(valid')
    ensures RowHits(hits, x, valid) == RowHits(hits, x, valid')
  {
    FoldPermutation(AddHit(hits, x), 0, valid, valid');
  }

  lemma {:induction false} SameRowsSameSum(hits: Hits, over: seq<ValidResult>, valid: seq<ValidResult>,
                                           valid': seq<ValidResult>)
    requires multiset(valid) == multiset(valid')
    ensures Fold(AddRow(hits, valid), 0, over) == Fold(AddRow(hits, valid'), 0, over)
    decreases |over|
  {
    if over != [] {
      SameRowsSameSum(hits, over[..|over| - 1], valid, valid');
      RowHitsPermuted(hits, over[|over| - 1], valid, valid');
    }
  }

  /** The hits of all ordered pairs of different positions do not depend on the order. */
  lemma AllHitsPermuted(hits: Hits, valid: seq<ValidResult>, valid': seq<ValidResult>)
    requires multiset(valid) == multiset(valid')
    ensures Fold(AddRow(hits, valid), 0, valid) == Fold(AddRow(hits, valid'), 0, valid')
  {
    FoldPermutation(AddRow(hits, valid), 0, valid, valid');
    SameRowsSameSum(hits, valid', valid, valid');
  }

  /** The pairs of row `i` up to column `j`, counted by their hits. */
  lemma {:induction false} RowIsCounted(symbol: string, valid: seq<ValidResult>, minSpread: Decimal, quo: Quotient,
                                        o: Opportunity, i: nat, j: nat)
    requires i < |valid| && j <= |valid|
    ensures var hits := HitsOf(symbol, minSpread, quo, o);
            |PairsReporting(symbol, valid, minSpread, quo, o, i, j)| ==
            |PairsReporting(symbol, valid, minSpread, quo, o, i, 0)| + RowHits(hits, valid[i], valid[..j])
            - if i < j then hits(valid[i], valid[i]) else 0
    decreases j
  {
    if j > 0 {
      RowIsCounted(symbol, valid, minSpread, quo, o, i, j - 1);
      PairsNext(symbol, valid, minSpread, quo, o, i, j - 1);
      assert valid[..j][..j - 1] == valid[..j - 1];
    }
  }

  lemma {:induction false} RowsAreCounted(symbol: string, valid: seq<ValidResult>, minSpread: Decimal, quo: Quotient,
                                          o: Opportunity, i: nat)
    requires i <= |valid|
    ensures |PairsReporting(symbol, valid, minSpread, quo, o, i, 0)| ==
            Fold(AddRow(HitsOf(symbol, minSpread, quo, o), valid), 0, valid[..i])
    decreases i
  {
    if i > 0 {
      RowsAreCounted(symbol, valid, minSpread, quo, o, i - 1);
      RowIsCounted(symbol, valid, minSpread, quo, o, i - 1, |valid|);
      PairsOfRow(symbol, valid, minSpread, quo, o, i - 1);
      assert valid[..i][..i - 1] == valid[..i - 1] && valid[..|valid|] == valid;
    } else {
      assert PairsReporting(symbol, valid, minSpread, quo, o, 0, 0) == {};
    }
  }

  /** As many pairs report an opportunity in one arrival order as in another. */
  lemma PairsPermuted(symbol: string, valid: seq<ValidResult>, valid': seq<ValidResult>, minSpread: Decimal,
                      quo: Quotient, o: Opportunity)
    requires multiset(valid) == multiset(valid')
    ensures |PairsReporting(symbol, valid, minSpread, quo, o, |valid|, 0)| ==
            |PairsReporting(symbol, valid', minSpread, quo, o, |valid'|, 0)|
  {
    RowsAreCounted(symbol, valid, minSpread, quo, o, |valid|);
    RowsAreCounted(symbol, valid', minSpread, quo, o, |valid'|);
    assert valid[..|valid|] == valid && valid'[..|valid'|] == valid';
    AllHitsPermuted(HitsOf(symbol, minSpread, quo, o), valid, valid');
  }

  /** The reported opportunities, each as often, and the percentage at the head do not depend
      on the arrival order. */
  lemma ArbitrageArrivalOrderIrrelevant(symbol: string, results: seq<TickerResult>, results': seq<TickerResult>,
                                        minSpread: Decimal, quo: Quotient, list: seq<Opportunity>,
                                        list': seq<Opportunity>)
    requires multiset(results) == multiset(results')
    requires IsArbitrageList(symbol, ValidTickers(results), minSpread, quo, list)
    requires IsArbitrageList(symbol, ValidTickers(results'), minSpread, quo, list')
    ensures multiset(list) == multiset(list')
    ensures forall o :: o in list <==> o in list'
    ensures list != [] ==> list' != [] && Value(list[0].spreadPercent) == Value(list'[0].spreadPercent)
  {
    var valid, valid' := ValidTickers(results), ValidTickers(results');
    ValidTickersPermuted(results, results');
    forall o
      ensures multiset(list)[o] == multiset(list')[o]
    {
      PairsPermuted(symbol, valid, valid', minSpread, quo, o);
    }
    forall o
      ensures o in list <==> o in list'
    {
      SameElements(list, list', o);
    }
    if list != [] {
      assert list[0] in list';
      assert list'[0] in list;
    }
  }
}
