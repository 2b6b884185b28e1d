/** What a merged order book holds: each price carries the sum of its contributions, the
    total is conserved, and the arrival order of the exchanges does not show. */
module MergedBook {
  import opened Decimals
  import opened Folds
  import opened Sorting
  import opened OrderBooks

  /** The quantities that a run of levels quotes at exactly the representation `p`. */
  function QuantitiesAt(levels: seq<Level>, p: Decimal): seq<Decimal> {
    if levels == [] then []
    else
      var last := levels[|levels| - 1];
      QuantitiesAt(levels[..|levels| - 1], p) + if last.price == p then [last.quantity] else []
  }

  ghost function SumValues(qs: seq<Decimal>): real {
    if qs == [] then 0.0 else SumValues(qs[..|qs| - 1]) + Value(qs[|qs| - 1])
  }

  ghost function TotalQuantity(levels: seq<Level>): real {
    if levels == [] then 0.0 else TotalQuantity(levels[..|levels| - 1]) + Value(levels[|levels| - 1].quantity)
  }

  function AddAll(qs: seq<Decimal>): Decimal
    requires qs != []
  {
    if |qs| == 1 then qs[0] else Add(AddAll(qs[..|qs| - 1]), qs[|qs| - 1])
  }

  lemma {:induction false} AddAllValue(qs: seq<Decimal>)
    requires qs != []
    ensures Value(AddAll(qs)) == SumValues(qs)
  {
    if |qs| == 1 {
      assert qs[..0] == [];
      assert SumValues(qs) == SumValues(qs[..0]) + Value(qs[0]);
    } else {
      AddAllValue(qs[..|qs| - 1]);
      AddValue(AddAll(qs[..|qs| - 1]), qs[|qs| - 1]);
    }
  }

  /** The merged map at one price is the sum of what was quoted at that price. */
  lemma {:induction false} MergedAt(levels: seq<Level>, p: Decimal)
    ensures p in Accumulate(levels) <==> QuantitiesAt(levels, p) != []
    ensures p in Accumulate(levels) ==> Accumulate(levels)[p] == AddAll(QuantitiesAt(levels, p))
    decreases |levels|
  {
    if levels != [] {
      var front, last := levels[..|levels| - 1], levels[|levels| - 1];
      MergedAt(front, p);
      assert Accumulate(levels) == Put(Accumulate(front), last);
      if last.price == p {
        var qs := QuantitiesAt(front, p);
        assert QuantitiesAt(levels, p) == qs + [last.quantity];
        assert (qs + [last.quantity])[..|qs|] == qs;
      } else {
        assert QuantitiesAt(levels, p) == QuantitiesAt(front, p);
      }
    }
  }

  lemma {:induction false} QuotedSomewhere(levels: seq<Level>, p: Decimal)
    ensures QuantitiesAt(levels, p) != [] <==> exists i :: 0 <= i < |levels| && levels[i].price == p
    decreases |levels|
  {
    if levels != [] {
      var front := levels[..|levels| - 1];
      QuotedSomewhere(front, p);
      assert forall i :: 0 <= i < |front| ==> front[i] == levels[i];
    }
  }

  /** Every price representation that was quoted is a key, once, and carries the sum of
      the quantities quoted at it. */
  lemma MergedQuantity(levels: seq<Level>, p: Decimal)
    ensures p in Accumulate(levels) <==> exists i :: 0 <= i < |levels| && levels[i].price == p
    ensures p in Accumulate(levels) ==> Value(Accumulate(levels)[p]) == SumValues(QuantitiesAt(levels, p))
  {
    MergedAt(levels, p);
    QuotedSomewhere(levels, p);
    if p in Accumulate(levels) {
      AddAllValue(QuantitiesAt(levels, p));
    }
  }

  /** What is quoted at one price in one list of levels. */
  ghost function QuotedAtPrice(levels: seq<Level>, p: Decimal): real {
    if levels == [] then 0.0
    else
      var last := levels[|levels| - 1];
      QuotedAtPrice(levels[..|levels| - 1], p) + if last.price == p then Value(last.quantity) else 0.0
  }

  /** What all exchanges together bid, or ask, at one price. */
  ghost function BidQuantity(results: seq<BookResult>, p: Decimal): real {
    if results == [] then 0.0
    else
      var last := results[|results| - 1];
      BidQuantity(results[..|results| - 1], p) +
      if last.error.None? && last.book.Some? then QuotedAtPrice(last.book.value.bids, p) else 0.0
  }

  ghost function AskQuantity(results: seq<BookResult>, p: Decimal): real {
    if results == [] then 0.0
    else
      var last := results[|results| - 1];
      AskQuantity(results[..|results| - 1], p) +
      if last.error.None? && last.book.Some? then QuotedAtPrice(last.book.value.asks, p) else 0.0
  }

  lemma {:induction false} QuotedSum(levels: seq<Level>, p: Decimal)
    ensures SumValues(QuantitiesAt(levels, p)) == QuotedAtPrice(levels, p)
    decreases |levels|
  {
    if levels != [] {
      var front, last := levels[..|levels| - 1], levels[|levels| - 1];
      QuotedSum(front, p);
      if last.price == p {
        var qs := QuantitiesAt(front, p);
        assert (qs + [last.quantity])[..|qs|] == qs;
      } else {
        assert QuantitiesAt(levels, p) == QuantitiesAt(front, p);
      }
    }
  }

  lemma {:induction false} QuotedConcat(a: seq<Level>, b: seq<Level>, p: Decimal)
    ensures QuotedAtPrice(a + b, p) == QuotedAtPrice(a, p) + QuotedAtPrice(b, p)
    decreases |b|
  {
    if b == [] {
      assert a + b == a;
    } else {
      QuotedConcat(a, b[..|b| - 1], p);
      assert (a + b)[..|a + b| - 1] == a + b[..|b| - 1];
    }
  }

  lemma {:induction false} ContributedQuantity(results: seq<BookResult>, p: Decimal)
    ensures QuotedAtPrice(Contributions(Bid, results), p) == BidQuantity(results, p)
    ensures QuotedAtPrice(Contributions(Ask, results), p) == AskQuantity(results, p)
    decreases |results|
  {
    if results != [] {
      var front, last := results[..|results| - 1], results[|results| - 1];
      ContributedQuantity(front, p);
      QuotedConcat(Contributions(Bid, front), LevelsOf(Bid, last), p);
      QuotedConcat(Contributions(Ask, front), LevelsOf(Ask, last), p);
    }
  }

  /** Every kept bid carries what all exchanges together bid at its price, every kept ask what
      they ask. */
  lemma KeptQuantities(results: seq<BookResult>, bids: seq<Level>, asks: seq<Level>, depth: int)
    requires IsRanked(Better(Bid), bids, Accumulate(Contributions(Bid, results)), depth)
    requires IsRanked(Better(Ask), asks, Accumulate(Contributions(Ask, results)), depth)
    ensures forall l :: l in bids ==> Value(l.quantity) == BidQuantity(results, l.price)
    ensures forall l :: l in asks ==> Value(l.quantity) == AskQuantity(results, l.price)
  {
    forall l | l in bids
      ensures Value(l.quantity) == BidQuantity(results, l.price)
    {
      MergedQuantity(Contributions(Bid, results), l.price);
      QuotedSum(Contributions(Bid, results), l.price);
      ContributedQuantity(results, l.price);
    }
    forall l | l in asks
      ensures Value(l.quantity) == AskQuantity(results, l.price)
    {
      MergedQuantity(Contributions(Ask, results), l.price);
      QuotedSum(Contributions(Ask, results), l.price);
      ContributedQuantity(results, l.price);
    }
  }

  // ----- conservation of quantity

  lemma {:induction false} TotalConcat(a: seq<Level>, b: seq<Level>)
    ensures TotalQuantity(a + b) == TotalQuantity(a) + TotalQuantity(b)
    decreases |b|
  {
    if b == [] {
      assert a + b == a;
    } else {
      TotalConcat(a, b[..|b| - 1]);
      assert (a + b)[..|a + b| - 1] == a + b[..|b| - 1];
    }
  }

  lemma TotalWithout(xs: seq<Level>, i: nat)
    requires i < |xs|
    ensures TotalQuantity(xs) == TotalQuantity(xs[..i] + xs[i + 1..]) + Value(xs[i].quantity)
  {
    var a, x, b := xs[..i], [xs[i]], xs[i + 1..];
    assert xs == a + (x + b);
    TotalConcat(a, x + b);
    TotalConcat(x, b);
    TotalConcat(a, b);
    assert x[..0] == [];
    assert TotalQuantity(x) == TotalQuantity(x[..0]) + Value(xs[i].quantity);
  }

  /** `out` lists every key of `m` once, with its quantity. */
  ghost predicate IsListing(out: seq<Level>, m: PriceMap) {
    && (forall i, j :: 0 <= i < j < |out| ==> out[i].price != out[j].price)
    && (forall l :: l in out ==> l.price in m && m[l.price] == l.quantity)
    && (forall p :: p in m ==> Level(p, m[p]) in out)
  }

  lemma ElementsWithout(xs: seq<Level>, i: nat)
    requires i < |xs|
    requires forall j, k :: 0 <= j < k < |xs| ==> xs[j].price != xs[k].price
    ensures forall l :: l in xs[..i] + xs[i + 1..] <==> l in xs && l != xs[i]
    ensures forall l :: l in xs && l != xs[i] ==> l.price != xs[i].price
    ensures var rest := xs[..i] + xs[i + 1..];
            forall j, k :: 0 <= j < k < |rest| ==> rest[j].price != rest[k].price
  {
    var rest := xs[..i] + xs[i + 1..];
    assert xs == xs[..i] + [xs[i]] + xs[i + 1..];
  }

  lemma ListingWithout(out: seq<Level>, m: PriceMap, i: nat)
    requires IsListing(out, m) && i < |out|
    ensures IsListing(out[..i] + out[i + 1..], m - {out[i].price})
  {
    ElementsWithout(out, i);
    assert out[i] in out;
  }

  lemma FindListed(out: seq<Level>, m: PriceMap, p: Decimal) returns (k: nat)
    requires IsListing(out, m) && p in m
    ensures k < |out| && out[k] == Level(p, m[p])
  {
    k :| 0 <= k < |out| && out[k] == Level(p, m[p]);
  }

  lemma EmptyListing(out: seq<Level>, other: seq<Level>, m: PriceMap)
    requires IsListing(out, m) && IsListing(other, m)
    ensures out == [] <==> other == []
  {
    assert out != [] ==> out[0] in out;
    assert other != [] ==> other[0] in other;
  }

  /** Two listings of one map hold the same total. */
  lemma {:induction false} ListingTotal(out: seq<Level>, other: seq<Level>, m: PriceMap)
    requires IsListing(out, m) && IsListing(other, m)
    ensures TotalQuantity(out) == TotalQuantity(other)
    decreases |out|
  {
    EmptyListing(out, other, m);
    if out != [] {
      var n := |out| - 1;
      assert out[n] in out;
      var k := FindListed(other, m, out[n].price);
      ListingWithout(out, m, n);
      ListingWithout(other, m, k);
      assert out[..n] + out[n + 1..] == out[..n];
      ListingTotal(out[..n], other[..k] + other[k + 1..], m - {out[n].price});
      TotalWithout(other, k);
    }
  }

  /** The listing in which position `k` is replaced by `l`, moved to the end. */
  function Replaced(out: seq<Level>, k: nat, l: Level): seq<Level>
    requires k < |out|
  {
    out[..k] + out[k + 1..] + [l]
  }

  lemma ReplacedListing(out: seq<Level>, m: PriceMap, k: nat, quantity: Decimal)
    requires IsListing(out, m) && k < |out|
    ensures IsListing(Replaced(out, k, Level(out[k].price, quantity)), m[out[k].price := quantity])
  {
    var p := out[k].price;
    ListingWithout(out, m, k);
    ListingExtended(out[..k] + out[k + 1..], m - {p}, Level(p, quantity));
    assert (m - {p})[p := quantity] == m[p := quantity];
  }

  lemma ReplacedTotal(out: seq<Level>, k: nat, l: Level)
    requires k < |out|
    ensures TotalQuantity(Replaced(out, k, l)) == TotalQuantity(out) - Value(out[k].quantity) + Value(l.quantity)
  {
    TotalWithout(out, k);
    assert Replaced(out, k, l)[..|out| - 1] == out[..k] + out[k + 1..];
  }

  /** Adding to a listed price adds to the listing's total. */
  lemma ListingPlus(out: seq<Level>, m: PriceMap, l: Level) returns (out': seq<Level>)
    requires IsListing(out, m) && l.price in m
    ensures IsListing(out', Put(m, l))
    ensures TotalQuantity(out') == TotalQuantity(out) + Value(l.quantity)
  {
    var before, after := m[l.price], Add(m[l.price], l.quantity);
    var k :| 0 <= k < |out| && out[k] == Level(l.price, before);
    ReplacedListing(out, m, k, after);
    ReplacedTotal(out, k, Level(l.price, after));
    AddValue(before, l.quantity);
    out' := Replaced(out, k, Level(l.price, after));
  }

  /** Some listing of the merged map holds everything that was contributed. */
  lemma {:induction false} ContributedListing(levels: seq<Level>) returns (listing: seq<Level>)
    ensures IsListing(listing, Accumulate(levels))
    ensures TotalQuantity(listing) == TotalQuantity(levels)
    decreases |levels|
  {
    if levels == [] {
      listing := [];
    } else {
      var front, last := levels[..|levels| - 1], levels[|levels| - 1];
      var m := Accumulate(front);
      assert Accumulate(levels) == Put(m, last);
      var before := ContributedListing(front);
      if last.price in m {
        listing := ListingPlus(before, m, last);
      } else {
        listing := before + [last];
        ListingExtended(before, m, last);
      }
    }
  }

  lemma ListingExtended(out: seq<Level>, m: PriceMap, l: Level)
    requires IsListing(out, m) && l.price !in m
    ensures IsListing(out + [l], m[l.price := l.quantity])
    ensures TotalQuantity(out + [l]) == TotalQuantity(out) + Value(l.quantity)
  {
    assert (out + [l])[..|out|] == out;
    assert forall i :: 0 <= i < |out| ==> out[i] in out;
  }

  lemma FullRankingIsListing(better: Order, out: seq<Level>, m: PriceMap, depth: int)
    requires IsRanked(better, out, m, depth) && |out| == |m|
    ensures IsListing(out, m)
  {
    var prices := set l | l in out :: l.price;
    DistinctPrices(out);
    assert prices <= m.Keys;
    SubsetOfSameSize(prices, m.Keys);
    forall p | p in m
      ensures Level(p, m[p]) in out
    {
      assert p in prices;
    }
  }

  lemma SubsetOfSameSize<T>(a: set<T>, b: set<T>)
    requires a <= b && |a| == |b|
    ensures a == b
  {
    assert b == a + (b - a);
  }

  lemma {:induction false} DistinctPrices(out: seq<Level>)
    requires forall i, j :: 0 <= i < j < |out| ==> out[i].price != out[j].price
    ensures |set l | l in out :: l.price| == |out|
    decreases |out|
  {
    if out != [] {
      var front, last := out[..|out| - 1], out[|out| - 1];
      DistinctPrices(front);
      assert out == front + [last];
      assert (set l | l in out :: l.price) == (set l | l in front :: l.price) + {last.price};
    }
  }

  /** Without a depth limit, nothing that an exchange quoted is lost or counted twice. */
  lemma MergedBookConserves(side: Side, results: seq<BookResult>, depth: int, out: seq<Level>)
    requires IsRanked(Better(side), out, Accumulate(Contributions(side, results)), depth)
    requires depth <= 0
    ensures TotalQuantity(out) == TotalQuantity(Contributions(side, results))
  {
    var levels := Contributions(side, results);
    FullRankingIsListing(Better(side), out, Accumulate(levels), depth);
    var listing := ContributedListing(levels);
    ListingTotal(out, listing, Accumulate(levels));
  }

  // ----- arrival order

  lemma PutCommutes()
    ensures StepsCommute(Put)
  {
    forall m, x, y
      ensures Put(Put(m, x), y) == Put(Put(m, y), x)
    {
      if x.price == y.price {
        if x.price in m {
          AddReorder(m[x.price], x.quantity, y.quantity);
        } else {
          AddReorder(x.quantity, y.quantity, ZERO);
        }
      }
    }
  }

  ghost function Gather(side: Side): (multiset<Level>, BookResult) -> multiset<Level> {
    (seen, r) => seen + multiset(LevelsOf(side, r))
  }

  ghost function NameOf(r: BookResult): multiset<string> {
    if Usable(r) then multiset{r.exchange} else multiset{}
  }

  ghost function GatherNames(): (multiset<string>, BookResult) -> multiset<string> {
    (seen, r) => seen + NameOf(r)
  }

  lemma GatherCommutes(side: Side)
    ensures StepsCommute(Gather(side)) && StepsCommute(GatherNames())
  {
    forall seen, x, y
      ensures Gather(side)(Gather(side)(seen, x), y) == Gather(side)(Gather(side)(seen, y), x)
    {
      var a, b := multiset(LevelsOf(side, x)), multiset(LevelsOf(side, y));
      assert seen + a + b == seen + b + a;
    }
    forall seen, x, y
      ensures GatherNames()(GatherNames()(seen, x), y) == GatherNames()(GatherNames()(seen, y), x)
    {
      assert seen + NameOf(x) + NameOf(y) == seen + NameOf(y) + NameOf(x);
    }
  }

  lemma {:induction false} GatherContributions(side: Side, results: seq<BookResult>)
    ensures multiset(Contributions(side, results)) == Fold(Gather(side), multiset{}, results)
    ensures multiset(UsableNames(results)) == Fold(GatherNames(), multiset{}, results)
    decreases |results|
  {
    if results != [] {
      GatherContributions(side, results[..|results| - 1]);
    }
  }

  lemma ContributionsPermuted(side: Side, results: seq<BookResult>, results': seq<BookResult>)
    requires multiset(results) == multiset(results')
    ensures multiset(Contributions(side, results)) == multiset(Contributions(side, results'))
    ensures multiset(UsableNames(results)) == multiset(UsableNames(results'))
  {
    GatherContributions(side, results);
    GatherContributions(side, results');
    GatherCommutes(side);
    FoldPermutation(Gather(side), multiset{}, results, results');
    FoldPermutation(GatherNames(), multiset{}, results, results');
  }

  /** The merged map depends only on which results arrived, not on the order in which they
      did. */
  lemma ArrivalOrderIrrelevant(side: Side, results: seq<BookResult>, results': seq<BookResult>)
    requires multiset(results) == multiset(results')
    ensures Accumulate(Contributions(side, results)) == Accumulate(Contributions(side, results'))
  {
    ContributionsPermuted(side, results, results');
    PutCommutes();
    FoldPermutation(Put, map[], Contributions(side, results), Contributions(side, results'));
  }

  /** Nor do the timestamp and the contributing exchanges. */
  lemma LabelsArrivalOrderIrrelevant(results: seq<BookResult>, results': seq<BookResult>)
    requires multiset(results) == multiset(results')
    ensures LatestTimestamp(results) == LatestTimestamp(results')
    ensures multiset(UsableNames(results)) == multiset(UsableNames(results'))
  {
    ContributionsPermuted(Bid, results, results');
    FoldPermutation(Later, NO_TIME, results, results');
  }

  /** No two keys stand for the same number. */
  ghost predicate NumericallyDistinct(m: PriceMap) {
    forall p, q :: p in m && q in m && p != q ==> Value(p) != Value(q)
  }

  ghost predicate TotalOn(better: Order, m: PriceMap) {
    forall p, q :: p in m && q in m && p != q ==> better(p, q) || better(q, p)
  }

  lemma DistinctIsTotal(side: Side, m: PriceMap)
    requires NumericallyDistinct(m)
    ensures TotalOn(Better(side), m)
  {
    forall p, q | p in m && q in m && p != q
      ensures Better(side)(p, q) || Better(side)(q, p)
    {
      CmpValue(p, q);
      CmpValue(q, p);
    }
  }

  /** A ranked side contains every key that is better than one of its prices, and the
      better ones come first. */
  lemma BetterKeysComeFirst(better: Order, out: seq<Level>, m: PriceMap, depth: int, k: nat, p: Decimal)
    requires StrictWeakOrder(better) && IsRanked(better, out, m, depth)
    requires k < |out| && p in m && better(p, out[k].price)
    ensures Level(p, m[p]) in out[..k]
  {
    assert out[k] in out;
    var j :| 0 <= j < |out| && out[j] == Level(p, m[p]);
    assert j < k;
    assert out[..k][j] == out[j];
  }

  /** One step of uniqueness: rankings that agree below `i` agree at `i`. */
  lemma RankedAgreeAt(better: Order, a: seq<Level>, b: seq<Level>, m: PriceMap, depth: int, i: nat)
    requires StrictWeakOrder(better)
    requires IsRanked(better, a, m, depth) && IsRanked(better, b, m, depth)
    requires i < |a| && a[..i] == b[..i]
    ensures !better(a[i].price, b[i].price)
  {
    var p := a[i].price;
    assert a[i] in a;
    assert forall k :: 0 <= k < i ==> b[..i][k].price == a[k].price != p;
    if better(p, b[i].price) {
      BetterKeysComeFirst(better, b, m, depth, i, p);
      assert false;
    }
  }

  lemma {:induction false} RankedUniqueUpTo(better: Order, a: seq<Level>, b: seq<Level>, m: PriceMap, depth: int,
                                            n: nat)
    requires StrictWeakOrder(better) && TotalOn(better, m)
    requires IsRanked(better, a, m, depth) && IsRanked(better, b, m, depth)
    requires n <= |a|
    ensures a[..n] == b[..n]
    decreases n
  {
    if n > 0 {
      var i := n - 1;
      RankedUniqueUpTo(better, a, b, m, depth, i);
      RankedAgreeAt(better, a, b, m, depth, i);
      RankedAgreeAt(better, b, a, m, depth, i);
      assert a[i] in a && b[i] in b;
      assert a[i].price == b[i].price;
      assert a[..n] == a[..i] + [a[i]] && b[..n] == b[..i] + [b[i]];
    }
  }

  /** When no two quoted representations are numerically equal, the merged side is one
      fixed sequence: neither arrival order, nor map iteration order, nor the instability
      of the sort can show in it. */
  lemma MergedBookDeterministic(side: Side, results: seq<BookResult>, results': seq<BookResult>,
                                depth: int, out: seq<Level>, out': seq<Level>)
    requires multiset(results) == multiset(results')
    requires NumericallyDistinct(Accumulate(Contributions(side, results)))
    requires IsRanked(Better(side), out, Accumulate(Contributions(side, results)), depth)
    requires IsRanked(Better(side), out', Accumulate(Contributions(side, results')), depth)
    ensures out == out'
  {
    ArrivalOrderIrrelevant(side, results, results');
    var m := Accumulate(Contributions(side, results));
    BetterIsOrder(side);
    DistinctIsTotal(side, m);
    RankedUniqueUpTo(Better(side), out, out', m, depth, |out|);
    assert out == out[..|out|] && out' == out'[..|out'|];
  }

  /** Prices written with one common exponent are never numerically equal by accident. */
  lemma SharedExponentIsDistinct(side: Side, results: seq<BookResult>, exp: int)
    requires forall l :: l in Contributions(side, results) ==> l.price.exp == exp
    ensures NumericallyDistinct(Accumulate(Contributions(side, results)))
  {
    var levels := Contributions(side, results);
    var m := Accumulate(levels);
    forall p, q | p in m && q in m && Value(p) == Value(q)
      ensures p == q
    {
      MergedQuantity(levels, p);
      MergedQuantity(levels, q);
      SameExponentSameDecimal(p, q);
    }
  }
}
