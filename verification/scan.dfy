/**
 One pass of the scanning loop in `main` (coin.py): run the detector on every
 symbol of the universe, in order, and count the detections. The pass is given
 `check_crossover` as `detect`, the detector's answer per symbol during the
 pass; `CheckSymbol` is that answer for a given candle provider.
 */
module Scan {
  import opened Base
  import opened Crossover

  /** `check_crossover(symbol)`: fetch the symbol's candles, then classify them. */
  function CheckSymbol(fetchOhlcv: string -> Option<seq<Candle>>, symbol: string): Option<Direction>
  {
    CheckCrossover(fetchOhlcv(symbol))
  }

  /** A reported crossover: the line `<symbol>: <direction> detected!`. */
  datatype Event = Event(symbol: string, direction: Direction)

  /** The events of one pass, in symbol order. */
  function Detections(symbols: seq<string>, detect: string -> Option<Direction>): (events: seq<Event>)
    ensures |events| <= |symbols|
    ensures forall k :: 0 <= k < |events| ==>
              events[k].symbol in symbols && detect(events[k].symbol) == Some(events[k].direction)
    ensures forall i :: 0 <= i < |symbols| && detect(symbols[i]).Some? ==>
              Event(symbols[i], detect(symbols[i]).value) in events
  {
    if symbols == [] then []
    else
      var rest := Detections(symbols[1..], detect);
      assert forall i :: 0 < i < |symbols| ==> symbols[i] == symbols[1..][i - 1];
      match detect(symbols[0])
      case None => rest
      case Some(d) => [Event(symbols[0], d)] + rest
  }

  lemma {:induction false} DetectionsAppend(a: seq<string>, b: seq<string>, detect: string -> Option<Direction>)
    ensures Detections(a + b, detect) == Detections(a, detect) + Detections(b, detect)
  {
    if a == [] {
      assert a + b == b;
    } else {
      assert (a + b)[1..] == a[1..] + b;
      DetectionsAppend(a[1..], b, detect);
    }
  }

  lemma DetectionsOne(symbol: string, detect: string -> Option<Direction>)
    ensures Detections([symbol], detect)
            == match detect(symbol)
               case None => []
               case Some(d) => [Event(symbol, d)]
  {
  }

  /** Appending one symbol appends its detection, if any. */
  lemma DetectionsSnoc(prefix: seq<string>, symbol: string, detect: string -> Option<Direction>)
    ensures Detections(prefix + [symbol], detect)
            == Detections(prefix, detect)
               + match detect(symbol)
                 case None => []
                 case Some(d) => [Event(symbol, d)]
  {
    DetectionsAppend(prefix, [symbol], detect);
    DetectionsOne(symbol, detect);
  }

  /** The detector's answer for every symbol of the pass, in order. */
  function Results(symbols: seq<string>, detect: string -> Option<Direction>): (rs: seq<Option<Direction>>)
    ensures |rs| == |symbols|
    ensures forall i :: 0 <= i < |symbols| ==> rs[i] == detect(symbols[i])
  {
    seq(|symbols|, i requires 0 <= i < |symbols| => detect(symbols[i]))
  }

  /** Positions whose answer is an event. */
  function Reported(rs: seq<Option<Direction>>): set<nat>
  {
    set i: nat | i < |rs| && rs[i].Some?
  }

  lemma ReportedSnoc(rs: seq<Option<Direction>>, r: Option<Direction>)
    ensures |Reported(rs + [r])| == |Reported(rs)| + (if r.Some? then 1 else 0)
  {
    var rs' := rs + [r];
    assert forall i :: 0 <= i < |rs| ==> rs'[i] == rs[i];
    if r.Some? {
      assert Reported(rs') == Reported(rs) + {|rs|};
    } else {
      assert Reported(rs') == Reported(rs);
    }
  }

  /** Scanning one more symbol adds its answer, and its event if it has one. */
  lemma PassStep(symbols: seq<string>, detect: string -> Option<Direction>, i: nat)
    requires i < |symbols|
    ensures var result := detect(symbols[i]);
            && |Reported(Results(symbols[..i + 1], detect))|
               == |Reported(Results(symbols[..i], detect))| + (if result.Some? then 1 else 0)
            && Detections(symbols[..i + 1], detect)
               == Detections(symbols[..i], detect) + (if result.Some? then [Event(symbols[i], result.value)] else [])
  {
    var symbol := symbols[i];
    var result := detect(symbol);
    assert symbols[..i + 1] == symbols[..i] + [symbol];
    assert Results(symbols[..i + 1], detect) == Results(symbols[..i], detect) + [result];
    ReportedSnoc(Results(symbols[..i], detect), result);
    DetectionsSnoc(symbols[..i], symbol, detect);
  }

  /** One pass: `crossoversFound` is the number of symbols whose detector reported
      an event, and `events` are those events in symbol order. */
  method ScanPass(symbols: seq<string>, detect: string -> Option<Direction>)
    returns (events: seq<Event>, crossoversFound: nat)
    ensures crossoversFound == |Reported(Results(symbols, detect))|
    ensures events == Detections(symbols, detect)
    ensures crossoversFound == |events|
  {
    events := [];
    crossoversFound := 0;
    var i := 0;
    while i < |symbols|
      invariant 0 <= i <= |symbols|
      invariant crossoversFound == |Reported(Results(symbols[..i], detect))|
      invariant events == Detections(symbols[..i], detect)
      invariant crossoversFound == |events|
    {
      var symbol := symbols[i];
      var result := detect(symbol);
      PassStep(symbols, detect, i);
      if result.Some? {
        crossoversFound := crossoversFound + 1;
        events := events + [Event(symbol, result.value)];
      }
      i := i + 1;
    }
    assert symbols[..i] == symbols;
  }

  /** A provider whose AAA/USDT history ends in a rally and whose other symbols
      are flat at 1. */
  function ScenarioProvider(symbol: string): Option<seq<Candle>>
  {
    if symbol == "AAA/USDT" then Some(Series(RallyCloses()))
    else Some(Series(seq(50, i => 1.0)))
  }

  /** `check_crossover` over the scenario's provider. */
  function ScenarioDetect(symbol: string): Option<Direction>
  {
    CheckSymbol(ScenarioProvider, symbol)
  }

  /** The end-to-end scenario: the rallying symbol is reported bullish and the
      flat control symbol is not reported. */
  lemma ScenarioPass()
    ensures Detections(["AAA/USDT", "BBB/USDT"], ScenarioDetect) == [Event("AAA/USDT", Bullish)]
  {
    RallyIsBullish();
    var flat := Series(seq(50, i => 1.0));
    FlatHistoryNoEvent(flat, 1.0);
    assert ["AAA/USDT", "BBB/USDT"][1..] == ["BBB/USDT"];
    assert ["BBB/USDT"][1..] == [];
  }
}
