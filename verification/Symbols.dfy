/** Trading symbols: "BTC/USDT" inside, "BTCUSDT" on the wire. */
module Symbols {

  const BINANCE_QUOTES := ["USDT", "BUSD", "USDC", "BTC", "ETH", "BNB"]
  const BYBIT_QUOTES := ["USDT", "USDC", "BTC", "ETH"]

  function FormatSymbol(symbol: string): string {
    if symbol == "" then ""
    else if symbol[0] == '/' then FormatSymbol(symbol[1..])
    else [symbol[0]] + FormatSymbol(symbol[1..])
  }

  predicate HasSuffix(s: string, suffix: string) {
    |suffix| <= |s| && s[|s| - |suffix|..] == suffix
  }

  /** The quote ends the symbol and leaves a base. */
  predicate Splits(s: string, quote: string) {
    HasSuffix(s, quote) && |s| > |quote|
  }

  function Base(s: string, quote: string): string
    requires |quote| <= |s|
  {
    s[..|s| - |quote|]
  }

  /** The first listed quote that ends the symbol and leaves a base splits it. */
  function ParseSymbol(s: string, quotes: seq<string>): string {
    if quotes == [] then s
    else if Splits(s, quotes[0]) then Base(s, quotes[0]) + "/" + quotes[0]
    else ParseSymbol(s, quotes[1..])
  }

  /** The search loop of both exchanges, over their own list. */
  method SplitSymbol(symbol: string, quotes: seq<string>) returns (r: string)
    ensures r == ParseSymbol(symbol, quotes)
  {
    assert quotes[0..] == quotes;
    for i := 0 to |quotes|
      invariant ParseSymbol(symbol, quotes[i..]) == ParseSymbol(symbol, quotes)
    {
      var quote := quotes[i];
      assert quotes[i..][1..] == quotes[i + 1..];
      if HasSuffix(symbol, quote) {
        var base := Base(symbol, quote);
        if base != "" {
          return base + "/" + quote;
        }
      }
    }
    return symbol;
  }

  predicate SlashFree(s: string) {
    '/' !in s
  }

  /** No listed quote ends another, and none is empty or contains a slash. */
  predicate SuffixFree(quotes: seq<string>) {
    && (forall i :: 0 <= i < |quotes| ==> quotes[i] != "" && SlashFree(quotes[i]))
    && (forall i, j :: 0 <= i < |quotes| && 0 <= j < |quotes| && HasSuffix(quotes[i], quotes[j]) ==>
          quotes[i] == quotes[j])
  }

  lemma ListedQuotesAreSuffixFree()
    ensures SuffixFree(BINANCE_QUOTES) && SuffixFree(BYBIT_QUOTES)
  {
    assert forall a, b :: HasSuffix(a, b) && b != "" ==> a != "" && a[|a| - 1] == b[|b| - 1] by {
      forall a: string, b: string | HasSuffix(a, b) && b != ""
        ensures a != "" && a[|a| - 1] == b[|b| - 1]
      {
        assert a[|a| - |b|..][|b| - 1] == a[|a| - 1];
      }
    }
  }

  lemma {:induction false} FormatConcat(a: string, b: string)
    ensures FormatSymbol(a + b) == FormatSymbol(a) + FormatSymbol(b)
    decreases |a|
  {
    var whole := a + b;
    if a == "" {
      assert whole == b;
    } else {
      FormatConcat(a[1..], b);
      assert whole[0] == a[0] && whole[1..] == a[1..] + b;
      if a[0] != '/' {
        assert [a[0]] + (FormatSymbol(a[1..]) + FormatSymbol(b)) == [a[0]] + FormatSymbol(a[1..]) + FormatSymbol(b);
      }
    }
  }

  lemma {:induction false} FormatSlashFree(s: string)
    requires SlashFree(s)
    ensures FormatSymbol(s) == s
    decreases |s|
  {
    if s != "" {
      assert s == [s[0]] + s[1..];
      FormatSlashFree(s[1..]);
    }
  }

  lemma FormatPair(base: string, quote: string)
    requires SlashFree(base) && SlashFree(quote)
    ensures FormatSymbol(base + "/" + quote) == base + quote
  {
    FormatConcat(base + "/", quote);
    FormatConcat(base, "/");
    FormatSlashFree(base);
    FormatSlashFree(quote);
  }

  /** Two suffixes of one string are suffixes of each other. */
  lemma SuffixesNest(s: string, a: string, b: string)
    requires HasSuffix(s, a) && HasSuffix(s, b) && |a| <= |b|
    ensures HasSuffix(b, a)
  {
    assert b[|b| - |a|..] == s[|s| - |b|..][|b| - |a|..] == s[|s| - |a|..];
  }

  /** Parsing either finds a listed quote and a non-empty base, or changes nothing because
      there is none. */
  lemma {:induction false} ParseCases(s: string, quotes: seq<string>) returns (k: nat)
    ensures k <= |quotes|
    ensures k < |quotes| ==> Splits(s, quotes[k]) && ParseSymbol(s, quotes) == Base(s, quotes[k]) + "/" + quotes[k]
    ensures k == |quotes| ==> ParseSymbol(s, quotes) == s && forall i :: 0 <= i < |quotes| ==> !Splits(s, quotes[i])
    decreases |quotes|
  {
    if quotes == [] || Splits(s, quotes[0]) {
      k := 0;
    } else {
      k := ParseCases(s, quotes[1..]);
      k := k + 1;
    }
  }

  /** In a suffix-free list, whichever listed quote ends the symbol is the one found. */
  lemma ParseFinds(s: string, quotes: seq<string>, k: nat)
    requires SuffixFree(quotes) && k < |quotes|
    requires Splits(s, quotes[k])
    ensures ParseSymbol(s, quotes) == Base(s, quotes[k]) + "/" + quotes[k]
  {
    var found := ParseCases(s, quotes);
    if |quotes[k]| <= |quotes[found]| {
      SuffixesNest(s, quotes[k], quotes[found]);
    } else {
      SuffixesNest(s, quotes[found], quotes[k]);
    }
  }

  /** A slash splits a string in one way only. */
  lemma OneSlash(a: string, b: string, c: string, d: string)
    requires SlashFree(a) && SlashFree(b) && SlashFree(c) && SlashFree(d)
    requires a + "/" + b == c + "/" + d
    ensures a == c && b == d
  {
    var s := a + "/" + b;
    assert s[|a|] == '/' && s[|c|] == '/';
    assert forall i :: 0 <= i < |a| ==> s[i] == a[i];
    assert forall i :: 0 <= i < |c| ==> s[i] == c[i];
    assert |a| == |c|;
    assert a == s[..|a|] && c == s[..|c|];
    assert b == s[|a| + 1..] && d == s[|c| + 1..];
  }

  /** A symbol survives the way to the exchange and back exactly when its base is not empty
      and its quote is listed. */
  lemma SymbolRoundTripIff(base: string, quote: string, quotes: seq<string>)
    requires SuffixFree(quotes) && SlashFree(base) && SlashFree(quote)
    ensures ParseSymbol(FormatSymbol(base + "/" + quote), quotes) == base + "/" + quote <==>
            base != "" && quote in quotes
  {
    FormatPair(base, quote);
    var s := base + quote;
    if base != "" && quote in quotes {
      var k :| 0 <= k < |quotes| && quotes[k] == quote;
      ParseFinds(s, quotes, k);
      assert Base(s, quote) == base;
    }
    if ParseSymbol(s, quotes) == base + "/" + quote {
      var k := ParseCases(s, quotes);
      assert |base + "/" + quote| == |s| + 1;
      var b := Base(s, quotes[k]);
      assert SlashFree(s) && forall c :: c in b ==> c in s;
      OneSlash(b, quotes[k], base, quote);
    }
  }

  /** A wire symbol survives the way in and back out. */
  lemma WireRoundTrip(s: string, quotes: seq<string>)
    requires SuffixFree(quotes) && SlashFree(s)
    ensures FormatSymbol(ParseSymbol(s, quotes)) == s
  {
    var k := ParseCases(s, quotes);
    if k < |quotes| {
      var b := Base(s, quotes[k]);
      assert forall c :: c in b ==> c in s;
      FormatPair(b, quotes[k]);
      assert b + quotes[k] == s;
    } else {
      FormatSlashFree(s);
    }
  }

  /** The order in which the quotes are listed is irrelevant. */
  lemma QuoteOrderIrrelevant(s: string, quotes: seq<string>, quotes': seq<string>)
    requires SuffixFree(quotes) && SuffixFree(quotes')
    requires forall q :: q in quotes <==> q in quotes'
    ensures ParseSymbol(s, quotes) == ParseSymbol(s, quotes')
  {
    var k := ParseCases(s, quotes);
    if k < |quotes| {
      assert quotes[k] in quotes';
      var k' :| 0 <= k' < |quotes'| && quotes'[k'] == quotes[k];
      ParseFinds(s, quotes', k');
    } else {
      forall i | 0 <= i < |quotes'|
        ensures !Splits(s, quotes'[i])
      {
        assert quotes'[i] in quotes;
      }
      var k' := ParseCases(s, quotes');
    }
  }

  /** On both exchanges, a symbol with a listed quote and a base comes back unchanged. */
  lemma ExchangeSymbolsRoundTrip(base: string, quote: string)
    requires base != "" && SlashFree(base)
    ensures quote in BINANCE_QUOTES ==>
              ParseSymbol(FormatSymbol(base + "/" + quote), BINANCE_QUOTES) == base + "/" + quote
    ensures quote in BYBIT_QUOTES ==> ParseSymbol(FormatSymbol(base + "/" + quote), BYBIT_QUOTES) == base + "/" + quote
  {
    ListedQuotesAreSuffixFree();
    if quote in BINANCE_QUOTES {
      SymbolRoundTripIff(base, quote, BINANCE_QUOTES);
    }
    if quote in BYBIT_QUOTES {
      SymbolRoundTripIff(base, quote, BYBIT_QUOTES);
    }
  }

  lemma ListedOnBinance(quote: string)
    ensures quote in BINANCE_QUOTES <==>
              || quote == "USDT" || quote == "BUSD" || quote == "USDC"
              || quote == "BTC" || quote == "ETH" || quote == "BNB"
  {
    assert BINANCE_QUOTES[0] == "USDT" && BINANCE_QUOTES[1] == "BUSD" && BINANCE_QUOTES[2] == "USDC";
    assert BINANCE_QUOTES[3] == "BTC" && BINANCE_QUOTES[4] == "ETH" && BINANCE_QUOTES[5] == "BNB";
  }

  lemma ListedOnBybit(quote: string)
    ensures quote in BYBIT_QUOTES <==> quote == "USDT" || quote == "USDC" || quote == "BTC" || quote == "ETH"
  {
    assert BYBIT_QUOTES[0] == "USDT" && BYBIT_QUOTES[1] == "USDC";
    assert BYBIT_QUOTES[2] == "BTC" && BYBIT_QUOTES[3] == "ETH";
  }

  /** The quotes that Binance symbols are split at. */
  lemma BinanceSymbols(base: string, quote: string)
    requires base != "" && SlashFree(base) && SlashFree(quote)
    ensures ParseSymbol(base + quote, BINANCE_QUOTES) == base + "/" + quote <==>
              || quote == "USDT" || quote == "BUSD" || quote == "USDC"
              || quote == "BTC" || quote == "ETH" || quote == "BNB"
  {
    ListedQuotesAreSuffixFree();
    FormatPair(base, quote);
    SymbolRoundTripIff(base, quote, BINANCE_QUOTES);
    ListedOnBinance(quote);
  }

  /** The quotes that Bybit symbols are split at. */
  lemma BybitSymbols(base: string, quote: string)
    requires base != "" && SlashFree(base) && SlashFree(quote)
    ensures ParseSymbol(base + quote, BYBIT_QUOTES) == base + "/" + quote <==>
              quote == "USDT" || quote == "USDC" || quote == "BTC" || quote == "ETH"
  {
    ListedQuotesAreSuffixFree();
    FormatPair(base, quote);
    SymbolRoundTripIff(base, quote, BYBIT_QUOTES);
    ListedOnBybit(quote);
  }
}
