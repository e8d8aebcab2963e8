/**
 The universe filter (`get_active_symbols` in coin.py). The exchange's market
 table is given as a sequence in its iteration order, each market carrying the
 symbol it is keyed by; `fetch_ticker` is a parameter from symbol to outcome.
 */
module Universe {
  import opened Base
  import Config

  /** The market metadata the filter reads. */
  datatype Market = Market(symbol: string, quote: string, active: bool, spot: bool)

  /** What `fetch_ticker` gave: it raised (`TickerFailed`), or it returned a ticker
      whose `quoteVolume` may be null (`None`). */
  datatype Ticker = TickerFailed | TickerOk(quoteVolume: Option<real>)

  /** A USDT-quoted spot market that is currently active. */
  predicate Listed(m: Market)
  {
    m.quote == Config.QuoteCurrency && m.active && m.spot
  }

  /** A ticker that was fetched, reports a quote volume, and meets the threshold
      (inclusively). */
  predicate Liquid(t: Ticker, minVolume: real)
  {
    t.TickerOk? && t.quoteVolume.Some? && t.quoteVolume.value >= minVolume
  }

  /** A market that the filter keeps. The ticker is only consulted for a listed
      market. */
  predicate Eligible(m: Market, fetchTicker: string -> Ticker, minVolume: real)
  {
    Listed(m) && Liquid(fetchTicker(m.symbol), minVolume)
  }

  /** `s` is the symbol of some eligible market of the table. */
  ghost predicate FromEligible(markets: seq<Market>, fetchTicker: string -> Ticker, minVolume: real, s: string)
  {
    exists i :: 0 <= i < |markets| && markets[i].symbol == s && Eligible(markets[i], fetchTicker, minVolume)
  }

  lemma FromEligibleTail(markets: seq<Market>, fetchTicker: string -> Ticker, minVolume: real, s: string)
    requires markets != [] && FromEligible(markets[1..], fetchTicker, minVolume, s)
    ensures FromEligible(markets, fetchTicker, minVolume, s)
  {
  }

  /** The symbols of the eligible markets, in market order. */
  function Select(markets: seq<Market>, fetchTicker: string -> Ticker, minVolume: real): (r: seq<string>)
    ensures |r| <= |markets|
    ensures forall k :: 0 <= k < |r| ==> FromEligible(markets, fetchTicker, minVolume, r[k])
    ensures forall i :: 0 <= i < |markets| && Eligible(markets[i], fetchTicker, minVolume) ==> markets[i].symbol in r
  {
    if markets == [] then []
    else
      var rest := Select(markets[1..], fetchTicker, minVolume);
      var r := if Eligible(markets[0], fetchTicker, minVolume) then [markets[0].symbol] + rest else rest;
      assert forall k :: 0 <= k < |r| ==> FromEligible(markets, fetchTicker, minVolume, r[k]) by {
        forall k | 0 <= k < |r|
          ensures FromEligible(markets, fetchTicker, minVolume, r[k])
        {
          if r[k] in rest {
            FromEligibleTail(markets, fetchTicker, minVolume, r[k]);
          } else {
            assert r[k] == markets[0].symbol && Eligible(markets[0], fetchTicker, minVolume);
          }
        }
      }
      assert forall i :: 0 <= i < |markets| && Eligible(markets[i], fetchTicker, minVolume) ==> markets[i].symbol in r by {
        forall i | 0 <= i < |markets| && Eligible(markets[i], fetchTicker, minVolume)
          ensures markets[i].symbol in r
        {
          if i > 0 {
            assert markets[i] == markets[1..][i - 1];
          }
        }
      }
      r
  }

  /** The filter is sequential: filtering a concatenation is concatenating the
      filtered parts, so relative market order is kept. */
  lemma {:induction false} SelectAppend(a: seq<Market>, b: seq<Market>, fetchTicker: string -> Ticker, minVolume: real)
    ensures Select(a + b, fetchTicker, minVolume) == Select(a, fetchTicker, minVolume) + Select(b, fetchTicker, minVolume)
  {
    if a == [] {
      assert a + b == b;
    } else {
      assert (a + b)[1..] == a[1..] + b;
      SelectAppend(a[1..], b, fetchTicker, minVolume);
    }
  }

  /** Appending one market appends its symbol exactly when it is eligible. */
  lemma SelectSnoc(prefix: seq<Market>, m: Market, fetchTicker: string -> Ticker, minVolume: real)
    ensures Select(prefix + [m], fetchTicker, minVolume)
            == Select(prefix, fetchTicker, minVolume) + (if Eligible(m, fetchTicker, minVolume) then [m.symbol] else [])
  {
    SelectAppend(prefix, [m], fetchTicker, minVolume);
    assert [m][1..] == [];
  }

  /** The loop of `get_active_symbols`: visit the markets in order and append the
      symbol of each that passes; a failing ticker only skips its own market. */
  method GetActiveSymbols(markets: seq<Market>, fetchTicker: string -> Ticker, minVolume: real)
    returns (activeSymbols: seq<string>)
    ensures activeSymbols == Select(markets, fetchTicker, minVolume)
  {
    activeSymbols := [];
    var i := 0;
    while i < |markets|
      invariant 0 <= i <= |markets|
      invariant activeSymbols == Select(markets[..i], fetchTicker, minVolume)
    {
      var market := markets[i];
      assert markets[..i + 1] == markets[..i] + [market];
      SelectSnoc(markets[..i], market, fetchTicker, minVolume);
      if market.quote == Config.QuoteCurrency && market.active && market.spot {
        match fetchTicker(market.symbol)
        case TickerFailed =>
        case TickerOk(quoteVolume) =>
          if quoteVolume.Some? && quoteVolume.value >= minVolume {
            activeSymbols := activeSymbols + [market.symbol];
          }
      }
      i := i + 1;
    }
    assert markets[..i] == markets;
  }

  /** The symbols of the markets, in order. */
  function Symbols(markets: seq<Market>): (ss: seq<string>)
    ensures |ss| == |markets|
    ensures forall i :: 0 <= i < |markets| ==> ss[i] == markets[i].symbol
  {
    seq(|markets|, i requires 0 <= i < |markets| => markets[i].symbol)
  }

  /** No symbol occurs twice (the market table is keyed by symbol). */
  predicate Distinct(ss: seq<string>)
  {
    forall i, j :: 0 <= i < j < |ss| ==> ss[i] != ss[j]
  }

  lemma DistinctCons(x: string, ss: seq<string>)
    requires Distinct(ss) && x !in ss
    ensures Distinct([x] + ss)
  {
  }

  lemma DistinctTail(ss: seq<string>)
    requires Distinct(ss) && ss != []
    ensures Distinct(ss[1..]) && ss[0] !in ss[1..]
  {
  }

  /** Over a market table keyed by symbol, the result has no duplicates. */
  lemma {:induction false} SelectDistinct(markets: seq<Market>, fetchTicker: string -> Ticker, minVolume: real)
    requires Distinct(Symbols(markets))
    ensures Distinct(Select(markets, fetchTicker, minVolume))
  {
    if markets != [] {
      var rest := Select(markets[1..], fetchTicker, minVolume);
      var syms := Symbols(markets);
      assert Symbols(markets[1..]) == syms[1..];
      DistinctTail(syms);
      SelectDistinct(markets[1..], fetchTicker, minVolume);
      forall k | 0 <= k < |rest|
        ensures rest[k] != markets[0].symbol
      {
        assert FromEligible(markets[1..], fetchTicker, minVolume, rest[k]);
        var i :| 0 <= i < |markets[1..]| && markets[1..][i].symbol == rest[k] && Eligible(markets[1..][i], fetchTicker, minVolume);
        assert syms[1..][i] == rest[k];
      }
      if Eligible(markets[0], fetchTicker, minVolume) {
        DistinctCons(markets[0].symbol, rest);
      }
    }
  }

  /** Over a market table keyed by symbol, a market that is not USDT-quoted,
      inactive or not spot is excluded whatever its volume. */
  lemma UnlistedExcluded(markets: seq<Market>, fetchTicker: string -> Ticker, minVolume: real, i: nat)
    requires Distinct(Symbols(markets))
    requires i < |markets| && !Listed(markets[i])
    ensures markets[i].symbol !in Select(markets, fetchTicker, minVolume)
  {
  }

  /** With the scanner's own threshold, a listed market is kept exactly when its
      ticker answered with a quote volume of at least 1 000 000 USDT; a volume
      exactly at the threshold is kept. */
  lemma ListedKeptAtThreshold(markets: seq<Market>, fetchTicker: string -> Ticker, i: nat)
    requires i < |markets| && Listed(markets[i])
    ensures var t := fetchTicker(markets[i].symbol);
            markets[i].symbol in Select(markets, fetchTicker, Config.MinVolume)
            <==> t.TickerOk? && t.quoteVolume.Some? && t.quoteVolume.value >= 1000000.0
  {
  }

  /** The sequence with every occurrence of `s` removed. */
  function Without(ss: seq<string>, s: string): (r: seq<string>)
    ensures s !in r
    ensures forall t :: t in r <==> t in ss && t != s
  {
    if ss == [] then []
    else if ss[0] == s then Without(ss[1..], s)
    else [ss[0]] + Without(ss[1..], s)
  }

  /** Failure isolation: if the ticker of symbol `s` fails while every other
      ticker answers as before, the result loses `s` and nothing else. */
  lemma {:induction false} TickerFailureIsolated(markets: seq<Market>, fetchTicker: string -> Ticker,
                                                failing: string -> Ticker, s: string, minVolume: real)
    requires failing(s) == TickerFailed
    requires forall t :: t != s ==> failing(t) == fetchTicker(t)
    ensures Select(markets, failing, minVolume) == Without(Select(markets, fetchTicker, minVolume), s)
  {
    if markets != [] {
      TickerFailureIsolated(markets[1..], fetchTicker, failing, s, minVolume);
    }
  }
}
