/** GetBestPrice and FindArbitrage: the part that starts when the tickers have arrived. */
module Tickers {
  import opened Decimals
  import opened Folds
  import opened Sorting

  datatype Ticker = Ticker(bid: Decimal, ask: Decimal, timestamp: int)

  datatype TickerResult = TickerResult(exchange: string, ticker: Option<Ticker>, error: Option<string>)

  /** A result that carries a ticker and no error. */
  type ValidResult = t: TickerResult | t.error.None? && t.ticker.Some?
    witness TickerResult("", Some(Ticker(ZERO, ZERO, 0)), None)

  datatype BestPrice = BestPrice(
    symbol: string, bid: Decimal, ask: Decimal, bidExchange: string, askExchange: string,
    spread: Decimal, spreadPercent: Decimal, timestamp: int)

  datatype Opportunity = Opportunity(
    symbol: string, buyExchange: string, sellExchange: string,
    buyPrice: Decimal, sellPrice: Decimal, spread: Decimal, spreadPercent: Decimal)

  /** Division in the decimal library's base context.  It may fail: that context sets no
      precision. */
  type Quotient = (Decimal, Decimal) -> Option<Decimal>

  const HUNDRED := Decimal(100, 0)

  /** The valid ones among the results, in arrival order. */
  function ValidTickers(results: seq<TickerResult>): seq<ValidResult> {
    if results == [] then []
    else
      var last := results[|results| - 1];
      ValidTickers(results[..|results| - 1]) + if last.error.None? && last.ticker.Some? then [last] else []
  }

  ghost function HasTicker(): TickerResult -> bool {
    (t: TickerResult) => t.error.None? && t.ticker.Some?
  }

  ghost predicate TickersAt(results: seq<TickerResult>, places: seq<nat>, valid: seq<ValidResult>) {
    && |places| == |valid|
    && forall k :: 0 <= k < |places| ==> places[k] < |results| && valid[k] == results[places[k]]
  }

  lemma TickersAtNext(results: seq<TickerResult>, places: seq<nat>, valid: seq<ValidResult>, last: TickerResult)
    requires TickersAt(results, places, valid)
    ensures TickersAt(results + [last], places, valid)
    ensures HasTicker()(last) ==> TickersAt(results + [last], places + [|results|], valid + [last])
  {
  }

  lemma ValidNext(results: seq<TickerResult>, last: TickerResult)
    ensures ValidTickers(results + [last]) ==
            if HasTicker()(last) then ValidTickers(results) + [last] else ValidTickers(results)
  {
    assert (results + [last])[..|results|] == results;
  }

  /** The valid tickers are the error-free results with a ticker, in the order of arrival. */
  lemma {:induction false} PlacesOfValid(results: seq<TickerResult>) returns (places: seq<nat>)
    ensures PlacesWhere(results, HasTicker(), places) && TickersAt(results, places, ValidTickers(results))
    decreases |results|
  {
    if results == [] {
      places := [];
    } else {
      var front, last := results[..|results| - 1], results[|results| - 1];
      assert front + [last] == results;
      var before := PlacesOfValid(front);
      PlacesNext(front, HasTicker(), before, last);
      TickersAtNext(front, before, ValidTickers(front), last);
      ValidNext(front, last);
      places := if HasTicker()(last) then before + [|front|] else before;
    }
  }

  /** `k` is the first of the tickers with the numerically highest bid. */
  ghost predicate FirstHighestBid(valid: seq<ValidResult>, k: int) {
    && 0 <= k < |valid|
    && (forall i :: 0 <= i < |valid| ==> Value(valid[i].ticker.value.bid) <= Value(valid[k].ticker.value.bid))
    && (forall i :: 0 <= i < k ==> Value(valid[i].ticker.value.bid) < Value(valid[k].ticker.value.bid))
  }

  /** `k` is the first of the tickers with the numerically lowest ask. */
  ghost predicate FirstLowestAsk(valid: seq<ValidResult>, k: int) {
    && 0 <= k < |valid|
    && (forall i :: 0 <= i < |valid| ==> Value(valid[i].ticker.value.ask) >= Value(valid[k].ticker.value.ask))
    && (forall i :: 0 <= i < k ==> Value(valid[i].ticker.value.ask) > Value(valid[k].ticker.value.ask))
  }

  /** `bid` and `exchange` are those of the first highest bid. */
  ghost predicate HighestBidIs(valid: seq<ValidResult>, k: int, bid: Decimal, exchange: string) {
    FirstHighestBid(valid, k) && bid == valid[k].ticker.value.bid && exchange == valid[k].exchange
  }

  /** `ask` and `exchange` are those of the first lowest ask. */
  ghost predicate LowestAskIs(valid: seq<ValidResult>, k: int, ask: Decimal, exchange: string) {
    FirstLowestAsk(valid, k) && ask == valid[k].ticker.value.ask && exchange == valid[k].exchange
  }

  ghost predicate IsLatest(valid: seq<ValidResult>, timestamp: int) {
    && (exists t :: t in valid && t.ticker.value.timestamp == timestamp)
    && (forall t :: t in valid ==> t.ticker.value.timestamp <= timestamp)
  }

  /** What the best price reports about the tickers it was computed from. */
  ghost predicate IsBest(valid: seq<ValidResult>, best: BestPrice) {
    && (exists k :: HighestBidIs(valid, k, best.bid, best.bidExchange))
    && (exists k :: LowestAskIs(valid, k, best.ask, best.askExchange))
    && best.spread == Sub(best.ask, best.bid) && Value(best.spread) == Value(best.ask) - Value(best.bid)
    && IsLatest(valid, best.timestamp)
  }

  lemma FirstIsUnique(valid: seq<ValidResult>, j: int, k: int)
    requires 0 <= j < |valid| && 0 <= k < |valid|
    ensures FirstHighestBid(valid, j) && FirstHighestBid(valid, k) ==> j == k
    ensures FirstLowestAsk(valid, j) && FirstLowestAsk(valid, k) ==> j == k
  {
    var one, other := valid[j], valid[k];  // each is compared with the other
  }

  /** The tickers determine everything that is best about them, down to the representation. */
  lemma BestIsUnique(valid: seq<ValidResult>, best: BestPrice, best': BestPrice)
    requires IsBest(valid, best) && IsBest(valid, best')
    ensures best' == best.(symbol := best'.symbol, spreadPercent := best'.spreadPercent)
  {
    var b :| HighestBidIs(valid, b, best.bid, best.bidExchange);
    var b' :| HighestBidIs(valid, b', best'.bid, best'.bidExchange);
    FirstIsUnique(valid, b, b');
    var a :| LowestAskIs(valid, a, best.ask, best.askExchange);
    var a' :| LowestAskIs(valid, a', best'.ask, best'.askExchange);
    FirstIsUnique(valid, a, a');
  }

  /** The percentage of the best price cannot be computed. */
  ghost predicate NoPercent(valid: seq<ValidResult>, best: BestPrice, quo: Quotient) {
    IsBest(valid, best) && Value(best.bid) != 0.0 && quo(Mul(best.spread, Decimal(100, 0)), best.bid).None?
  }

  /** The running best prices of the loop over the results. */
  datatype Scan = Scan(bid: Decimal, ask: Decimal, bidExchange: string, askExchange: string, timestamp: int)

  ghost predicate IsScan(valid: seq<ValidResult>, s: Scan) {
    && (exists k :: HighestBidIs(valid, k, s.bid, s.bidExchange))
    && (exists k :: LowestAskIs(valid, k, s.ask, s.askExchange))
    && IsLatest(valid, s.timestamp)
  }

  lemma HighestBidNext(valid: seq<ValidResult>, k: int, result: ValidResult)
    requires FirstHighestBid(valid, k)
    ensures var higher := Cmp(result.ticker.value.bid, valid[k].ticker.value.bid) > 0;
            FirstHighestBid(valid + [result], if higher then |valid| else k)
  {
    CmpValue(result.ticker.value.bid, valid[k].ticker.value.bid);
    assert forall i :: 0 <= i < |valid| ==> (valid + [result])[i] == valid[i];
  }

  lemma LowestAskNext(valid: seq<ValidResult>, k: int, result: ValidResult)
    requires FirstLowestAsk(valid, k)
    ensures var lower := Cmp(result.ticker.value.ask, valid[k].ticker.value.ask) < 0;
            FirstLowestAsk(valid + [result], if lower then |valid| else k)
  {
    CmpValue(result.ticker.value.ask, valid[k].ticker.value.ask);
    assert forall i :: 0 <= i < |valid| ==> (valid + [result])[i] == valid[i];
  }

  lemma LatestNext(valid: seq<ValidResult>, timestamp: int, result: ValidResult)
    requires IsLatest(valid, timestamp)
    ensures var t := result.ticker.value.timestamp;
            IsLatest(valid + [result], if t > timestamp then t else timestamp)
  {
    var t :| t in valid && t.ticker.value.timestamp == timestamp;
    assert t in valid + [result] && result in valid + [result];
  }

  /** The loop body once a first ticker has been seen. */
  method ScanNext(s: Scan, result: ValidResult, ghost valid: seq<ValidResult>) returns (s': Scan)
    requires IsScan(valid, s)
    ensures IsScan(valid + [result], s')
  {
    var ticker := result.ticker.value;
    s' := s;
    ghost var b :| HighestBidIs(valid, b, s.bid, s.bidExchange);
    ghost var a :| LowestAskIs(valid, a, s.ask, s.askExchange);
    HighestBidNext(valid, b, result);
    LowestAskNext(valid, a, result);
    LatestNext(valid, s.timestamp, result);
    if Cmp(ticker.bid, s.bid) > 0 {
      s' := s'.(bid := ticker.bid, bidExchange := result.exchange);
      b := |valid|;
    }
    if Cmp(ticker.ask, s.ask) < 0 {
      s' := s'.(ask := ticker.ask, askExchange := result.exchange);
      a := |valid|;
    }
    if ticker.timestamp > s.timestamp {
      s' := s'.(timestamp := ticker.timestamp);
    }
    assert HighestBidIs(valid + [result], b, s'.bid, s'.bidExchange);
    assert LowestAskIs(valid + [result], a, s'.ask, s'.askExchange);
  }

  method ScanFirst(result: ValidResult) returns (s: Scan)
    ensures IsScan([result], s)
  {
    var ticker := result.ticker.value;
    s := Scan(ticker.bid, ticker.ask, result.exchange, result.exchange, ticker.timestamp);
    assert HighestBidIs([result], 0, s.bid, s.bidExchange) && LowestAskIs([result], 0, s.ask, s.askExchange);
    assert result in [result];
  }

  /** The loop over the results: nothing while no ticker is valid, then the running best. */
  method ScanTickers(results: seq<TickerResult>) returns (scan: Option<Scan>)
    ensures scan.None? <==> ValidTickers(results) == []
    ensures scan.Some? ==> IsScan(ValidTickers(results), scan.value)
  {
    scan := None;
    for i := 0 to |results|
      invariant scan.None? <==> ValidTickers(results[..i]) == []
      invariant scan.Some? ==> IsScan(ValidTickers(results[..i]), scan.value)
    {
      var result := results[i];
      assert results[..i + 1][..i] == results[..i];
      ghost var valid := ValidTickers(results[..i]);
      if result.error.Some? || result.ticker.None? {
        assert ValidTickers(results[..i + 1]) == valid;
        continue;
      }
      assert ValidTickers(results[..i + 1]) == valid + [result];
      if scan.None? {
        assert valid + [result] == [result];
        var first := ScanFirst(result);
        scan := Some(first);
      } else {
        var next := ScanNext(scan.value, result, valid);
        scan := Some(next);
      }
    }
    assert results[..|results|] == results;
  }

  method GetBestPrice(symbol: string, results: seq<TickerResult>, quo: Quotient) returns (r: Result<BestPrice>)
    ensures r.Ok? ==> ValidTickers(results) != [] && r.value.symbol == symbol && IsBest(ValidTickers(results), r.value)
    ensures r.Ok? && Value(r.value.bid) == 0.0 ==> r.value.spreadPercent == ZERO
    ensures r.Ok? && Value(r.value.bid) != 0.0 ==>
              quo(Mul(r.value.spread, Decimal(100, 0)), r.value.bid) == Some(r.value.spreadPercent)
    ensures r.Err? <==> ValidTickers(results) == [] || exists best :: NoPercent(ValidTickers(results), best, quo)
  {
    var scan := ScanTickers(results);
    if scan.None? {
      return Err("no valid ticker data available for symbol: " + symbol);
    }
    var Scan(bestBid, bestAsk, bidExchange, askExchange, timestamp) := scan.value;
    var spread := Sub(bestAsk, bestBid);
    SubValue(bestAsk, bestBid);
    ValueSign(bestBid);
    var spreadPercent := ZERO;
    if !IsZero(bestBid) {
      var q := quo(Mul(spread, HUNDRED), bestBid);
      if q.None? {
        ghost var best := BestPrice(symbol, bestBid, bestAsk, bidExchange, askExchange, spread, ZERO, timestamp);
        assert NoPercent(ValidTickers(results), best, quo);
        return Err("calculate spread percent divide");
      }
      spreadPercent := q.value;
    }
    var best := BestPrice(symbol, bestBid, bestAsk, bidExchange, askExchange, spread, spreadPercent, timestamp);
    forall other | IsBest(ValidTickers(results), other)
      ensures !NoPercent(ValidTickers(results), other, quo)
    {
      BestIsUnique(ValidTickers(results), best, other);
    }
    return Ok(best);
  }

  // ----- arbitrage

  /** The opportunity of buying at `buy` and selling at `sell`, if the code reports one. */
  function OpportunityOf(symbol: string, buy: ValidResult, sell: ValidResult, minSpread: Decimal,
                         quo: Quotient): Option<Opportunity>
  {
    var buyPrice, sellPrice := buy.ticker.value.ask, sell.ticker.value.bid;
    if IsZero(buyPrice) then None
    else
      var spread := Sub(sellPrice, buyPrice);
      var percent := quo(Mul(spread, HUNDRED), buyPrice);
      if percent.None? || Cmp(percent.value, minSpread) < 0 then None
      else Some(Opportunity(symbol, buy.exchange, sell.exchange, buyPrice, sellPrice, spread, percent.value))
  }

  /** What the pair of positions `i`, `j` contributes. */
  function AtPair(symbol: string, valid: seq<ValidResult>, i: nat, j: nat, minSpread: Decimal,
                  quo: Quotient): Option<Opportunity>
    requires i < |valid| && j < |valid|
  {
    if i == j then None else OpportunityOf(symbol, valid[i], valid[j], minSpread, quo)
  }

  /** `o` buys at the ask of ticker `i` and sells at the bid of another ticker `j`. */
  ghost predicate BuysAndSells(symbol: string, valid: seq<ValidResult>, i: int, j: int, o: Opportunity)
    requires 0 <= i < |valid| && 0 <= j < |valid|
  {
    && i != j && o.symbol == symbol
    && o.buyExchange == valid[i].exchange && o.buyPrice == valid[i].ticker.value.ask
    && o.sellExchange == valid[j].exchange && o.sellPrice == valid[j].ticker.value.bid
  }

  /** The margin and its percentage of a price to buy at that is not zero, and that reaches
      the minimum. */
  ghost predicate Qualifies(minSpread: Decimal, quo: Quotient, o: Opportunity) {
    && Value(o.buyPrice) != 0.0
    && o.spread == Sub(o.sellPrice, o.buyPrice)
    && quo(Mul(o.spread, Decimal(100, 0)), o.buyPrice) == Some(o.spreadPercent)
    && Value(o.spreadPercent) >= Value(minSpread)
  }

  /** A pair reports exactly the qualifying opportunity that buys at the one and sells at the
      other ticker. */
  lemma PairReports(symbol: string, valid: seq<ValidResult>, i: nat, j: nat, minSpread: Decimal, quo: Quotient,
                    o: Opportunity)
    requires i < |valid| && j < |valid|
    ensures AtPair(symbol, valid, i, j, minSpread, quo) == Some(o) <==>
            BuysAndSells(symbol, valid, i, j, o) && Qualifies(minSpread, quo, o)
  {
    var buyPrice, sellPrice := valid[i].ticker.value.ask, valid[j].ticker.value.bid;
    ValueSign(buyPrice);
    var percent := quo(Mul(Sub(sellPrice, buyPrice), HUNDRED), buyPrice);
    if percent.Some? {
      CmpValue(percent.value, minSpread);
    }
  }

  function ByPercent(): (Opportunity, Opportunity) -> bool {
    (a: Opportunity, b: Opportunity) => Cmp(a.spreadPercent, b.spreadPercent) > 0
  }

  lemma ByPercentIsOrder()
    ensures StrictWeakOrder(ByPercent())
  {
    forall a: Opportunity, b: Opportunity
      ensures ByPercent()(a, b) <==> Value(a.spreadPercent) > Value(b.spreadPercent)
    {
      CmpValue(a.spreadPercent, b.spreadPercent);
    }
  }

  /** The ordered pairs of different positions that report exactly `o`, with buying
      positions below `rows`, or equal to it and selling positions below `columns`. */
  ghost function PairsReporting(symbol: string, valid: seq<ValidResult>, minSpread: Decimal, quo: Quotient,
                                o: Opportunity, rows: nat, columns: nat): set<(int, int)>
    requires rows <= |valid| && columns <= |valid|
  {
    set i, j | 0 <= i < |valid| && 0 <= j < |valid| && (i < rows || (i == rows && j < columns)) &&
               AtPair(symbol, valid, i, j, minSpread, quo) == Some(o) :: (i, j)
  }

  ghost predicate Reports(symbol: string, valid: seq<ValidResult>, minSpread: Decimal, quo: Quotient,
                          found: seq<Opportunity>, rows: nat, columns: nat)
    requires rows <= |valid| && columns <= |valid|
  {
    forall o :: multiset(found)[o] == |PairsReporting(symbol, valid, minSpread, quo, o, rows, columns)|
  }

  /** One more pair adds itself to those that report its opportunity, and to no others. */
  lemma PairsNext(symbol: string, valid: seq<ValidResult>, minSpread: Decimal, quo: Quotient, o: Opportunity, i: nat,
                  j: nat)
    requires i < |valid| && j < |valid|
    ensures var here := if AtPair(symbol, valid, i, j, minSpread, quo) == Some(o) then 1 else 0;
            |PairsReporting(symbol, valid, minSpread, quo, o, i, j + 1)| ==
            |PairsReporting(symbol, valid, minSpread, quo, o, i, j)| + here
  {
    var before := PairsReporting(symbol, valid, minSpread, quo, o, i, j);
    var after := PairsReporting(symbol, valid, minSpread, quo, o, i, j + 1);
    var here: (int, int) := (i, j);
    assert here !in before;
    forall p | p != here
      ensures p in after <==> p in before
    {
    }
    if AtPair(symbol, valid, i, j, minSpread, quo) == Some(o) {
      assert after == before + {here};
    } else {
      assert after == before;
    }
  }

  /** Visiting one more pair keeps the count of every opportunity exact. */
  lemma ReportsNext(symbol: string, valid: seq<ValidResult>, minSpread: Decimal, quo: Quotient,
                    found: seq<Opportunity>, found': seq<Opportunity>, i: nat, j: nat)
    requires i < |valid| && j < |valid|
    requires Reports(symbol, valid, minSpread, quo, found, i, j)
    requires var o := AtPair(symbol, valid, i, j, minSpread, quo);
             found' == if o.Some? then found + [o.value] else found
    ensures Reports(symbol, valid, minSpread, quo, found', i, j + 1)
  {
    forall o
      ensures multiset(found')[o] == |PairsReporting(symbol, valid, minSpread, quo, o, i, j + 1)|
    {
      PairsNext(symbol, valid, minSpread, quo, o, i, j);
    }
  }

  lemma PairsOfRow(symbol: string, valid: seq<ValidResult>, minSpread: Decimal, quo: Quotient, o: Opportunity, i: nat)
    requires i < |valid|
    ensures PairsReporting(symbol, valid, minSpread, quo, o, i + 1, 0) ==
            PairsReporting(symbol, valid, minSpread, quo, o, i, |valid|)
  {
  }

  lemma ReportsRow(symbol: string, valid: seq<ValidResult>, minSpread: Decimal, quo: Quotient,
                   found: seq<Opportunity>, i: nat)
    requires i < |valid|
    requires Reports(symbol, valid, minSpread, quo, found, i, |valid|)
    ensures Reports(symbol, valid, minSpread, quo, found, i + 1, 0)
  {
    forall o
      ensures PairsReporting(symbol, valid, minSpread, quo, o, i + 1, 0) ==
              PairsReporting(symbol, valid, minSpread, quo, o, i, |valid|)
    {
      PairsOfRow(symbol, valid, minSpread, quo, o, i);
    }
  }

  /** The list holds every opportunity exactly as often as there are ordered pairs of
      different valid tickers that yield it, best percentage first. */
  ghost predicate IsArbitrageList(symbol: string, valid: seq<ValidResult>, minSpread: Decimal, quo: Quotient,
                                  list: seq<Opportunity>)
  {
    && Reports(symbol, valid, minSpread, quo, list, |valid|, 0)
    && (forall i, j :: 0 <= i < j < |list| ==> Value(list[i].spreadPercent) >= Value(list[j].spreadPercent))
  }

  ghost predicate SomeTrade(symbol: string, valid: seq<ValidResult>, o: Opportunity) {
    exists i, j :: 0 <= i < |valid| && 0 <= j < |valid| && BuysAndSells(symbol, valid, i, j, o)
  }

  /** The list holds exactly the qualifying trades between different tickers. */
  ghost predicate ListsTrades(symbol: string, valid: seq<ValidResult>, minSpread: Decimal, quo: Quotient,
                              list: seq<Opportunity>)
  {
    forall o :: o in list <==> Qualifies(minSpread, quo, o) && SomeTrade(symbol, valid, o)
  }

  lemma InSeqIffCounted<T>(xs: seq<T>, x: T)
    ensures x in xs <==> multiset(xs)[x] > 0
  {
    assert x in xs <==> x in multiset(xs);
  }

  /** Membership in the list, without counting. */
  lemma ListedIffSomePair(symbol: string, valid: seq<ValidResult>, minSpread: Decimal, quo: Quotient,
                          list: seq<Opportunity>, o: Opportunity)
    requires IsArbitrageList(symbol, valid, minSpread, quo, list)
    ensures o in list <==>
              exists i: nat, j: nat ::
                i < |valid| && j < |valid| && AtPair(symbol, valid, i, j, minSpread, quo) == Some(o)
  {
    var pairs := PairsReporting(symbol, valid, minSpread, quo, o, |valid|, 0);
    InSeqIffCounted(list, o);
    if o in list {
      assert pairs != {};
      var p :| p in pairs;
      var i: nat, j: nat := p.0, p.1;
      assert AtPair(symbol, valid, i, j, minSpread, quo) == Some(o);
    }
    if i: nat, j: nat :| i < |valid| && j < |valid| && AtPair(symbol, valid, i, j, minSpread, quo) == Some(o) {
      assert (i as int, j as int) in pairs;
    }
  }

  lemma ListedIffTrade(symbol: string, valid: seq<ValidResult>, minSpread: Decimal, quo: Quotient,
                       list: seq<Opportunity>, o: Opportunity)
    requires IsArbitrageList(symbol, valid, minSpread, quo, list)
    ensures o in list <==> Qualifies(minSpread, quo, o) && SomeTrade(symbol, valid, o)
  {
    ListedIffSomePair(symbol, valid, minSpread, quo, list, o);
    if o in list {
      var i: nat, j: nat :| i < |valid| && j < |valid| && AtPair(symbol, valid, i, j, minSpread, quo) == Some(o);
      PairReports(symbol, valid, i, j, minSpread, quo, o);
    }
    if Qualifies(minSpread, quo, o) && SomeTrade(symbol, valid, o) {
      var i, j :| 0 <= i < |valid| && 0 <= j < |valid| && BuysAndSells(symbol, valid, i, j, o);
      PairReports(symbol, valid, i, j, minSpread, quo, o);
    }
  }

  lemma ArbitrageListsTrades(symbol: string, valid: seq<ValidResult>, minSpread: Decimal, quo: Quotient,
                             list: seq<Opportunity>)
    requires IsArbitrageList(symbol, valid, minSpread, quo, list)
    ensures ListsTrades(symbol, valid, minSpread, quo, list)
  {
    forall o
      ensures o in list <==> Qualifies(minSpread, quo, o) && SomeTrade(symbol, valid, o)
    {
      ListedIffTrade(symbol, valid, minSpread, quo, list, o);
    }
  }

  method CollectValid(results: seq<TickerResult>) returns (validTickers: seq<ValidResult>)
    ensures validTickers == ValidTickers(results)
  {
    validTickers := [];
    for i := 0 to |results|
      invariant validTickers == ValidTickers(results[..i])
    {
      assert results[..i + 1][..i] == results[..i];
      var result := results[i];
      if result.error.None? && result.ticker.Some? {
        validTickers := validTickers + [result];
      }
    }
    assert results[..|results|] == results;
  }

  /** The body of the inner loop, with its early exits. */
  method AppendOpportunity(symbol: string, valid: seq<ValidResult>, i: nat, j: nat, minSpread: Decimal, quo: Quotient,
                           found: seq<Opportunity>) returns (found': seq<Opportunity>)
    requires i < |valid| && j < |valid|
    ensures var o := AtPair(symbol, valid, i, j, minSpread, quo);
            found' == if o.Some? then found + [o.value] else found
  {
    if i == j {
      return found;
    }
    var buyPrice, sellPrice := valid[i].ticker.value.ask, valid[j].ticker.value.bid;
    if IsZero(buyPrice) {
      return found;
    }
    var spread := Sub(sellPrice, buyPrice);
    var spreadPercent := quo(Mul(spread, HUNDRED), buyPrice);
    if spreadPercent.None? {
      return found;
    }
    if Cmp(spreadPercent.value, minSpread) < 0 {
      return found;
    }
    var opportunity :=
      Opportunity(symbol, valid[i].exchange, valid[j].exchange, buyPrice, sellPrice, spread, spreadPercent.value);
    return found + [opportunity];
  }

  /** The two nested loops over the valid tickers. */
  method CollectOpportunities(symbol: string, validTickers: seq<ValidResult>, minSpread: Decimal, quo: Quotient)
    returns (opportunities: seq<Opportunity>)
    ensures Reports(symbol, validTickers, minSpread, quo, opportunities, |validTickers|, 0)
  {
    opportunities := [];
    for i := 0 to |validTickers|
      invariant Reports(symbol, validTickers, minSpread, quo, opportunities, i, 0)
    {
      for j := 0 to |validTickers|
        invariant Reports(symbol, validTickers, minSpread, quo, opportunities, i, j)
      {
        ghost var found := opportunities;
        opportunities := AppendOpportunity(symbol, validTickers, i, j, minSpread, quo, opportunities);
        ReportsNext(symbol, validTickers, minSpread, quo, found, opportunities, i, j);
      }
      ReportsRow(symbol, validTickers, minSpread, quo, opportunities, i);
    }
  }

  method FindArbitrage(symbol: string, results: seq<TickerResult>, minSpreadPercent: Decimal, quo: Quotient)
    returns (r: Result<seq<Opportunity>>)
    ensures r.Err? <==> |ValidTickers(results)| < 2
    ensures r.Ok? ==> IsArbitrageList(symbol, ValidTickers(results), minSpreadPercent, quo, r.value)
    ensures r.Ok? ==> ListsTrades(symbol, ValidTickers(results), minSpreadPercent, quo, r.value)
  {
    var validTickers := CollectValid(results);
    if |validTickers| < 2 {
      return Err("need at least 2 exchanges with valid data for arbitrage detection");
    }
    var opportunities := CollectOpportunities(symbol, validTickers, minSpreadPercent, quo);
    ByPercentIsOrder();
    var sorted := SortSlice(opportunities, ByPercent());
    forall i, j | 0 <= i < j < |sorted|
      ensures Value(sorted[i].spreadPercent) >= Value(sorted[j].spreadPercent)
    {
      assert !ByPercent()(sorted[j], sorted[i]);
      CmpValue(sorted[j].spreadPercent, sorted[i].spreadPercent);
    }
    ArbitrageListsTrades(symbol, validTickers, minSpreadPercent, quo, sorted);
    return Ok(sorted);
  }
}
