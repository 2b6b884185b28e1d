/** GetMergedOrderBook: the part that starts when the per-exchange results arrive. */
module OrderBooks {
  import opened Decimals
  import opened Folds
  import opened Sorting

  datatype Level = Level(price: Decimal, quantity: Decimal)

  datatype OrderBook = OrderBook(bids: seq<Level>, asks: seq<Level>, timestamp: int)

  /** What one exchange answered: an error, a book, or (both absent) nothing. */
  datatype BookResult = BookResult(exchange: string, book: Option<OrderBook>, error: Option<string>)

  datatype MergedOrderBook = MergedOrderBook(
    symbol: string, bids: seq<Level>, asks: seq<Level>, timestamp: int, exchanges: seq<string>)

  datatype Side = Bid | Ask

  /** The zero instant, before every exchange timestamp. */
  const NO_TIME := 0

  type Order = (Decimal, Decimal) -> bool

  /** A better bid is higher, a better ask is lower. */
  function Better(side: Side): Order {
    (a: Decimal, b: Decimal) => if side.Bid? then Cmp(a, b) > 0 else Cmp(a, b) < 0
  }

  predicate Usable(r: BookResult) {
    r.error.None? && r.book.Some?
  }

  function LevelsOf(side: Side, r: BookResult): seq<Level> {
    if !Usable(r) then [] else if side.Bid? then r.book.value.bids else r.book.value.asks
  }

  /** Every level an arriving result contributes to one side, in arrival order. */
  function Contributions(side: Side, results: seq<BookResult>): seq<Level> {
    if results == [] then []
    else Contributions(side, results[..|results| - 1]) + LevelsOf(side, results[|results| - 1])
  }

  type PriceMap = map<Decimal, Decimal>

  /** Adding a level: the price representation is the key, quantities accumulate. */
  function Put(m: PriceMap, level: Level): PriceMap {
    m[level.price := if level.price in m then Add(m[level.price], level.quantity) else level.quantity]
  }

  function Accumulate(levels: seq<Level>): PriceMap {
    Fold(Put, map[], levels)
  }

  function Later(t: int, r: BookResult): int {
    if Usable(r) && r.book.value.timestamp > t then r.book.value.timestamp else t
  }

  function LatestTimestamp(results: seq<BookResult>): int {
    Fold(Later, NO_TIME, results)
  }

  function UsableNames(results: seq<BookResult>): seq<string> {
    if results == [] then []
    else
      var last := results[|results| - 1];
      UsableNames(results[..|results| - 1]) + if Usable(last) then [last.exchange] else []
  }

  ghost function Entries(m: PriceMap): (entries: set<Level>)
    ensures forall l :: l in entries <==> l.price in m && m[l.price] == l.quantity
  {
    var entries := set p | p in m :: Level(p, m[p]);
    assert forall l :: l in entries ==> l.price in m && m[l.price] == l.quantity;
    forall l: Level | l.price in m && m[l.price] == l.quantity
      ensures l in entries
    {
      assert l == Level(l.price, m[l.price]);
    }
    entries
  }

  /** `out` is what one side of a merged book may be: distinct prices with their
      accumulated quantities, best first, cut to `depth` when that is positive, and
      nothing that was cut is better than anything that was kept.  Only the order of
      numerically equal prices is left open. */
  ghost predicate IsRanked(better: Order, out: seq<Level>, m: PriceMap, depth: int) {
    && |out| == (if 0 < depth < |m| then depth else |m|)
    && (forall l :: l in out ==> l.price in m && m[l.price] == l.quantity)
    && (forall i, j :: 0 <= i < j < |out| ==> out[i].price != out[j].price)
    && (forall i, j :: 0 <= i < j < |out| ==> !better(out[j].price, out[i].price))
    && (forall p, l :: p in m && Level(p, m[p]) !in out && l in out ==> !better(p, l.price))
  }

  /** The order on levels that the sort is given. */
  function ByPrice(better: Order): (Level, Level) -> bool {
    (a: Level, b: Level) => better(a.price, b.price)
  }

  lemma BetterIsOrder(side: Side)
    ensures StrictWeakOrder(Better(side))
    ensures StrictWeakOrder(ByPrice(Better(side)))
  {
    forall a: Decimal, b: Decimal
      ensures Better(side)(a, b) <==> if side.Bid? then Value(a) > Value(b) else Value(a) < Value(b)
    {
      CmpValue(a, b);
    }
    LiftedOrder(Better(side));
  }

  lemma LiftedOrder(better: Order)
    requires StrictWeakOrder(better)
    ensures StrictWeakOrder(ByPrice(better))
  {
    var less := ByPrice(better);
    assert forall a, b :: less(a, b) <==> better(a.price, b.price);
  }

  /** Reads the map out in some order: the runtime's iteration order is arbitrary. */
  method ListEntries(m: PriceMap) returns (levels: seq<Level>)
    ensures multiset(levels) == multiset(Entries(m))
  {
    levels := [];
    var todo := m.Keys;
    while todo != {}
      invariant todo <= m.Keys
      invariant multiset(levels) == multiset(set p | p in m && p !in todo :: Level(p, m[p]))
      decreases todo
    {
      var p :| p in todo;
      ghost var before := set q | q in m && q !in todo :: Level(q, m[q]);
      levels := levels + [Level(p, m[p])];
      todo := todo - {p};
      assert (set q | q in m && q !in todo :: Level(q, m[q])) == before + {Level(p, m[p])};
      assert Level(p, m[p]) !in before;
    }
    assert (set p | p in m && p !in todo :: Level(p, m[p])) == Entries(m);
  }

  lemma {:induction false} EntriesCount(m: PriceMap)
    ensures |Entries(m)| == |m|
    decreases |m|
  {
    if |m| == 0 {
      assert m == map[] && Entries(m) == {};
    } else {
      var p :| p in m;
      var rest := m - {p};
      EntriesCount(rest);
      assert rest.Keys == m.Keys - {p};
      assert Level(p, m[p]) !in Entries(rest);
      assert Entries(m) == Entries(rest) + {Level(p, m[p])};
    }
  }

  /** A listing has every entry of the map, once. */
  lemma ListingFacts(all: seq<Level>, m: PriceMap)
    requires multiset(all) == multiset(Entries(m))
    ensures |all| == |m|
    ensures forall l :: l in all <==> l in Entries(m)
    ensures forall i, j :: 0 <= i < j < |all| ==> all[i].price != all[j].price
  {
    EntriesCount(m);
    assert |all| == |multiset(all)| == |Entries(m)|;
    forall l
      ensures l in all <==> l in Entries(m)
    {
      assert l in all <==> l in multiset(all);
    }
    forall i, j | 0 <= i < j < |all|
      ensures all[i].price != all[j].price
    {
      if all[i].price == all[j].price {
        assert all[i] in Entries(m) && all[j] in Entries(m);
        TwiceInSeq(all, i, j);
        assert false;
      }
    }
  }

  /** A sorted listing of the map, cut to depth, is ranked. */
  lemma SortedListingIsRanked(better: Order, all: seq<Level>, cut: nat, m: PriceMap, depth: int)
    requires multiset(all) == multiset(Entries(m))
    requires SortedBy(ByPrice(better), all)
    requires cut == if 0 < depth < |all| then depth else |all|
    ensures IsRanked(better, all[..cut], m, depth)
  {
    ListingFacts(all, m);
    var out := all[..cut];
    assert forall k :: 0 <= k < cut ==> all[k] == out[k];
    forall i, j | 0 <= i < j < |all|
      ensures !better(all[j].price, all[i].price)
    {
      assert !ByPrice(better)(all[j], all[i]);
    }
    forall p, l | p in m && Level(p, m[p]) !in out && l in out
      ensures !better(p, l.price)
    {
      assert Level(p, m[p]) in Entries(m);
      var k :| 0 <= k < |all| && all[k] == Level(p, m[p]);
      var i :| 0 <= i < cut && all[i] == l;
    }
  }

  /** One side of the book, from the accumulated map: list, sort, cut. */
  method RankSide(better: Order, m: PriceMap, depth: int) returns (out: seq<Level>)
    requires StrictWeakOrder(ByPrice(better))
    ensures IsRanked(better, out, m, depth)
  {
    var listed := ListEntries(m);
    var sorted := SortSlice(listed, ByPrice(better));
    ListingFacts(sorted, m);
    SortedListingIsRanked(better, sorted, if 0 < depth < |sorted| then depth else |sorted|, m, depth);
    out := sorted;
    assert sorted[..|sorted|] == sorted;
    if depth > 0 {
      if |out| > depth {
        out := out[..depth];
      }
    }
  }

  lemma AccumulateSnoc(levels: seq<Level>, l: Level)
    ensures Accumulate(levels + [l]) == Put(Accumulate(levels), l)
  {
    FoldSnoc(Put, map[], levels, l);
  }

  /** Folds one book's levels into the running map. */
  method AddLevels(m: PriceMap, levels: seq<Level>, ghost earlier: seq<Level>) returns (m': PriceMap)
    requires m == Accumulate(earlier)
    ensures m' == Accumulate(earlier + levels)
  {
    m' := m;
    assert earlier + levels[..0] == earlier;
    for j := 0 to |levels|
      invariant m' == Accumulate(earlier + levels[..j])
    {
      var level := levels[j];
      AccumulateSnoc(earlier + levels[..j], level);
      assert earlier + levels[..j + 1] == earlier + levels[..j] + [level];
      if level.price in m' {
        m' := m'[level.price := Add(m'[level.price], level.quantity)];
      } else {
        m' := m'[level.price := level.quantity];
      }
    }
    assert levels[..|levels|] == levels;
  }

  // ----- what a merged book means, on the exchanges' own books

  ghost predicate QuotesBid(r: BookResult, l: Level) {
    r.error.None? && r.book.Some? && l in r.book.value.bids
  }

  ghost predicate QuotesAsk(r: BookResult, l: Level) {
    r.error.None? && r.book.Some? && l in r.book.value.asks
  }

  /** Bids come from the highest price down.  Each stands at a price that some exchange bids,
      and no bid that any exchange quotes and that is left out is higher than one kept. */
  ghost predicate KeepsHighestBids(results: seq<BookResult>, out: seq<Level>) {
    && (forall i, j :: 0 <= i < j < |out| ==> Value(out[i].price) >= Value(out[j].price))
    && (forall l :: l in out ==> exists r, q :: r in results && QuotesBid(r, q) && q.price == l.price)
    && (forall r, q, l ::
          r in results && QuotesBid(r, q) && l in out && (forall k :: k in out ==> k.price != q.price) ==>
          Value(q.price) <= Value(l.price))
  }

  /** Asks come from the lowest price up, and no ask left out is lower than one kept. */
  ghost predicate KeepsLowestAsks(results: seq<BookResult>, out: seq<Level>) {
    && (forall i, j :: 0 <= i < j < |out| ==> Value(out[i].price) <= Value(out[j].price))
    && (forall l :: l in out ==> exists r, q :: r in results && QuotesAsk(r, q) && q.price == l.price)
    && (forall r, q, l ::
          r in results && QuotesAsk(r, q) && l in out && (forall k :: k in out ==> k.price != q.price) ==>
          Value(q.price) >= Value(l.price))
  }

  lemma {:induction false} KeysAreQuoted(levels: seq<Level>, p: Decimal)
    ensures p in Accumulate(levels) <==> exists l :: l in levels && l.price == p
    decreases |levels|
  {
    if levels != [] {
      var front, last := levels[..|levels| - 1], levels[|levels| - 1];
      KeysAreQuoted(front, p);
      assert levels == front + [last];
      assert Accumulate(levels) == Put(Accumulate(front), last);
      assert last in levels;
    }
  }

  lemma {:induction false} ContributedIffQuoted(results: seq<BookResult>, l: Level)
    ensures l in Contributions(Bid, results) <==> exists r :: r in results && QuotesBid(r, l)
    ensures l in Contributions(Ask, results) <==> exists r :: r in results && QuotesAsk(r, l)
    decreases |results|
  {
    if results != [] {
      var front, last := results[..|results| - 1], results[|results| - 1];
      ContributedIffQuoted(front, l);
      assert results == front + [last];
      assert last in results;
    }
  }

  /** One side, ranked, is the best part of what the exchanges quote. */
  lemma RankedBids(results: seq<BookResult>, out: seq<Level>, depth: int)
    requires IsRanked(Better(Bid), out, Accumulate(Contributions(Bid, results)), depth)
    ensures KeepsHighestBids(results, out)
  {
    var levels := Contributions(Bid, results);
    var m := Accumulate(levels);
    forall i, j | 0 <= i < j < |out|
      ensures Value(out[i].price) >= Value(out[j].price)
    {
      CmpValue(out[j].price, out[i].price);
    }
    forall l | l in out
      ensures exists r, q :: r in results && QuotesBid(r, q) && q.price == l.price
    {
      KeysAreQuoted(levels, l.price);
      var q :| q in levels && q.price == l.price;
      ContributedIffQuoted(results, q);
    }
    forall r, q, l | r in results && QuotesBid(r, q) && l in out && (forall k :: k in out ==> k.price != q.price)
      ensures Value(q.price) <= Value(l.price)
    {
      ContributedIffQuoted(results, q);
      KeysAreQuoted(levels, q.price);
      assert Level(q.price, m[q.price]) !in out;
      CmpValue(q.price, l.price);
    }
  }

  lemma RankedAsks(results: seq<BookResult>, out: seq<Level>, depth: int)
    requires IsRanked(Better(Ask), out, Accumulate(Contributions(Ask, results)), depth)
    ensures KeepsLowestAsks(results, out)
  {
    var levels := Contributions(Ask, results);
    var m := Accumulate(levels);
    forall i, j | 0 <= i < j < |out|
      ensures Value(out[i].price) <= Value(out[j].price)
    {
      CmpValue(out[j].price, out[i].price);
    }
    forall l | l in out
      ensures exists r, q :: r in results && QuotesAsk(r, q) && q.price == l.price
    {
      KeysAreQuoted(levels, l.price);
      var q :| q in levels && q.price == l.price;
      ContributedIffQuoted(results, q);
    }
    forall r, q, l | r in results && QuotesAsk(r, q) && l in out && (forall k :: k in out ==> k.price != q.price)
      ensures Value(q.price) >= Value(l.price)
    {
      ContributedIffQuoted(results, q);
      KeysAreQuoted(levels, q.price);
      assert Level(q.price, m[q.price]) !in out;
      CmpValue(q.price, l.price);
    }
  }

  /** `t` is the latest time of a usable book, or the zero instant if none is later. */
  ghost predicate IsLatestTime(results: seq<BookResult>, t: int) {
    && t >= 0
    && (forall r :: r in results && r.error.None? && r.book.Some? ==> r.book.value.timestamp <= t)
    && (t > 0 ==> exists r :: r in results && r.error.None? && r.book.Some? && r.book.value.timestamp == t)
  }

  lemma {:induction false} LatestTimestampIsLatest(results: seq<BookResult>)
    ensures IsLatestTime(results, LatestTimestamp(results))
    decreases |results|
  {
    if results != [] {
      var front, last := results[..|results| - 1], results[|results| - 1];
      LatestTimestampIsLatest(front);
      assert results == front + [last];
      assert last in results;
    }
  }

  ghost function HasBook(): BookResult -> bool {
    (r: BookResult) => r.error.None? && r.book.Some?
  }

  ghost predicate NamesAt(results: seq<BookResult>, places: seq<nat>, names: seq<string>) {
    && |places| == |names|
    && forall k :: 0 <= k < |places| ==> places[k] < |results| && names[k] == results[places[k]].exchange
  }

  lemma NamesAtNext(results: seq<BookResult>, places: seq<nat>, names: seq<string>, last: BookResult)
    requires NamesAt(results, places, names)
    ensures NamesAt(results + [last], places, names)
    ensures NamesAt(results + [last], places + [|results|], names + [last.exchange])
  {
  }

  /** The exchanges named are those with an error-free book, in the order of arrival. */
  lemma {:induction false} NamesOfUsable(results: seq<BookResult>) returns (places: seq<nat>)
    ensures PlacesWhere(results, HasBook(), places) && NamesAt(results, places, UsableNames(results))
    decreases |results|
  {
    if results == [] {
      places := [];
    } else {
      var front, last := results[..|results| - 1], results[|results| - 1];
      assert front + [last] == results;
      var before := NamesOfUsable(front);
      PlacesNext(front, HasBook(), before, last);
      NamesAtNext(front, before, UsableNames(front), last);
      places := if HasBook()(last) then before + [|front|] else before;
      assert UsableNames(results) == UsableNames(front) + if HasBook()(last) then [last.exchange] else [];
      assert UsableNames(front) + [] == UsableNames(front);
    }
  }

  method GetMergedOrderBook(symbol: string, results: seq<BookResult>, depth: int) returns (r: Result<MergedOrderBook>)
    ensures r.Err? <==> Contributions(Bid, results) == [] && Contributions(Ask, results) == []
    ensures r.Ok? ==>
              && r.value.symbol == symbol
              && IsRanked(Better(Bid), r.value.bids, Accumulate(Contributions(Bid, results)), depth)
              && IsRanked(Better(Ask), r.value.asks, Accumulate(Contributions(Ask, results)), depth)
              && r.value.timestamp == LatestTimestamp(results)
              && r.value.exchanges == UsableNames(results)
    ensures r.Ok? ==>
              && KeepsHighestBids(results, r.value.bids) && KeepsLowestAsks(results, r.value.asks)
              && IsLatestTime(results, r.value.timestamp)
  {
    var bidMap: PriceMap := map[];
    var askMap: PriceMap := map[];
    var timestamp := NO_TIME;
    var exchanges := [];
    for i := 0 to |results|
      invariant bidMap == Accumulate(Contributions(Bid, results[..i]))
      invariant askMap == Accumulate(Contributions(Ask, results[..i]))
      invariant timestamp == LatestTimestamp(results[..i])
      invariant exchanges == UsableNames(results[..i])
    {
      var result := results[i];
      assert results[..i + 1][..i] == results[..i];
      if result.error.Some? || result.book.None? {
        assert Contributions(Bid, results[..i]) + [] == Contributions(Bid, results[..i]);
        assert Contributions(Ask, results[..i]) + [] == Contributions(Ask, results[..i]);
        continue;
      }
      exchanges := exchanges + [result.exchange];
      if result.book.value.timestamp > timestamp {
        timestamp := result.book.value.timestamp;
      }
      bidMap := AddLevels(bidMap, result.book.value.bids, Contributions(Bid, results[..i]));
      askMap := AddLevels(askMap, result.book.value.asks, Contributions(Ask, results[..i]));
    }
    assert results[..|results|] == results;
    AccumulateEmpty(Contributions(Bid, results));
    AccumulateEmpty(Contributions(Ask, results));
    if |bidMap| == 0 && |askMap| == 0 {
      return Err("no valid order book data available for symbol: " + symbol);
    }
    BetterIsOrder(Bid);
    BetterIsOrder(Ask);
    var bids := RankSide(Better(Bid), bidMap, depth);
    var asks := RankSide(Better(Ask), askMap, depth);
    RankedBids(results, bids, depth);
    RankedAsks(results, asks, depth);
    LatestTimestampIsLatest(results);
    return Ok(MergedOrderBook(symbol, bids, asks, timestamp, exchanges));
  }

  lemma AccumulateEmpty(levels: seq<Level>)
    ensures |Accumulate(levels)| == 0 <==> levels == []
  {
    if levels != [] {
      var front, last := levels[..|levels| - 1], levels[|levels| - 1];
      assert last.price in Put(Accumulate(front), last);
      assert last.price in Accumulate(levels);
    }
  }
}
