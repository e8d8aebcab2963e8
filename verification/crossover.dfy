/**
 The per-symbol crossover detector (`check_crossover` in coin.py). The exchange
 fetch is a parameter: `None` stands for a fetch or processing step that raised,
 `Some(candles)` for the candles the exchange returned, oldest first.
 */
module Crossover {
  import opened Base
  import opened MovingAverage
  import Config

  /** One OHLCV bar as the exchange returns it. */
  datatype Candle = Candle(openTime: int, open: real, high: real, low: real, close: real, volume: real)

  /** The two kinds of crossover the scanner reports. */
  datatype Direction = Bullish | Bearish
  {
    function Opposite(): Direction
    {
      match this
      case Bullish => Bearish
      case Bearish => Bullish
    }
  }

  /** A detection result with its direction reversed. */
  function Flip(r: Option<Direction>): Option<Direction>
  {
    match r
    case None => None
    case Some(d) => Some(d.Opposite())
  }

  /** The close column of the candles. */
  function Closes(candles: seq<Candle>): (xs: seq<real>)
    ensures |xs| == |candles|
    ensures forall i :: 0 <= i < |candles| ==> xs[i] == candles[i].close
  {
    seq(|candles|, i requires 0 <= i < |candles| => candles[i].close)
  }

  /** Fast and slow EMA of the closes, with the scanner's periods. */
  function ShortEma(closes: seq<real>): seq<real>
  {
    Ema(closes, Config.ShortPeriod)
  }

  function LongEma(closes: seq<real>): seq<real>
  {
    Ema(closes, Config.LongPeriod)
  }

  /** Fast minus slow EMA at index i: positive when the fast line is above. */
  function Spread(closes: seq<real>, i: nat): real
    requires i < |closes|
  {
    ShortEma(closes)[i] - LongEma(closes)[i]
  }

  /** The sign of x: -1, 0 or 1. */
  function Sign(x: real): int
  {
    if x < 0.0 then -1 else if x > 0.0 then 1 else 0
  }

  /** Classifies the fast/slow ordering at the previous and the current sample.
      An event is reported exactly when the sign of the fast-minus-slow spread
      flips strictly between the two samples (a tie on either side never
      reports), and it is bullish exactly when the fast line ends above. */
  function Classify(prevShort: real, prevLong: real, currShort: real, currLong: real): (r: Option<Direction>)
    ensures r.Some? <==> Sign(prevShort - prevLong) == -Sign(currShort - currLong) && Sign(currShort - currLong) != 0
    ensures r.Some? ==> (r.value == Bullish <==> Sign(currShort - currLong) == 1)
  {
    if prevShort < prevLong && currShort > currLong then Some(Bullish)
    else if prevShort > prevLong && currShort < currLong then Some(Bearish)
    else None
  }

  /** The detector: no event for a failed fetch or fewer than `CandleLimit`
      candles; otherwise the classification of the last two EMA samples. */
  function CheckCrossover(fetched: Option<seq<Candle>>): (r: Option<Direction>)
    ensures fetched.None? ==> r.None?
    ensures fetched.Some? && |fetched.value| < Config.CandleLimit ==> r.None?
    ensures fetched.Some? && |fetched.value| >= Config.CandleLimit ==>
              var xs := Closes(fetched.value);
              var n := |xs|;
              && (r.Some? <==> Sign(Spread(xs, n - 2)) == -Sign(Spread(xs, n - 1)) && Sign(Spread(xs, n - 1)) != 0)
              && (r.Some? ==> (r.value == Bullish <==> Sign(Spread(xs, n - 1)) == 1))
  {
    match fetched
    case None => None
    case Some(candles) =>
      if |candles| < Config.CandleLimit then None
      else
        var xs := Closes(candles);
        var short := ShortEma(xs);
        var long := LongEma(xs);
        var n := |xs|;
        Classify(short[n - 2], long[n - 2], short[n - 1], long[n - 1])
  }

  /** The candle mirrored about price `pivot`: every price p becomes 2*pivot - p
      (high and low trade places); time and volume are kept. */
  function MirrorCandle(c: Candle, pivot: real): Candle
  {
    Candle(c.openTime, 2.0 * pivot - c.open, 2.0 * pivot - c.low,
           2.0 * pivot - c.high, 2.0 * pivot - c.close, c.volume)
  }

  function Mirror(candles: seq<Candle>, pivot: real): (m: seq<Candle>)
    ensures |m| == |candles|
    ensures forall i :: 0 <= i < |candles| ==> m[i] == MirrorCandle(candles[i], pivot)
  {
    seq(|candles|, i requires 0 <= i < |candles| => MirrorCandle(candles[i], pivot))
  }

  lemma ClassifyMirror(ps: real, pl: real, cs: real, cl: real, pivot: real)
    ensures Classify(2.0 * pivot - ps, 2.0 * pivot - pl, 2.0 * pivot - cs, 2.0 * pivot - cl)
            == Flip(Classify(ps, pl, cs, cl))
  {
  }

  /** Symmetry: mirroring every price about a pivot (negating them, for pivot 0)
      turns a bullish crossover into a bearish one and back, and leaves "no
      event" unchanged. */
  lemma CheckCrossoverMirror(candles: seq<Candle>, pivot: real)
    ensures CheckCrossover(Some(Mirror(candles, pivot))) == Flip(CheckCrossover(Some(candles)))
  {
    if |candles| >= Config.CandleLimit {
      var xs := Closes(candles);
      var ms := Closes(Mirror(candles, pivot));
      assert ms == Affine(xs, -1.0, 2.0 * pivot);
      EmaAffine(xs, Config.ShortPeriod, -1.0, 2.0 * pivot);
      EmaAffine(xs, Config.LongPeriod, -1.0, 2.0 * pivot);
      var n := |xs|;
      ClassifyMirror(ShortEma(xs)[n - 2], LongEma(xs)[n - 2], ShortEma(xs)[n - 1], LongEma(xs)[n - 1], pivot);
    }
  }

  /** If the fast line never rises above the slow one over the window, or never
      falls below it, no crossover is reported. */
  lemma NoEventWithoutSwap(candles: seq<Candle>)
    requires var xs := Closes(candles);
             || (forall i :: 0 <= i < |xs| ==> Spread(xs, i) <= 0.0)
             || (forall i :: 0 <= i < |xs| ==> Spread(xs, i) >= 0.0)
    ensures CheckCrossover(Some(candles)).None?
  {
  }

  /** A flat price history never crosses: both EMAs equal the constant close. */
  lemma FlatHistoryNoEvent(candles: seq<Candle>, c: real)
    requires forall i :: 0 <= i < |candles| ==> candles[i].close == c
    ensures CheckCrossover(Some(candles)).None?
  {
    var xs := Closes(candles);
    EmaOfConstant(xs, Config.ShortPeriod, c);
    EmaOfConstant(xs, Config.LongPeriod, c);
    forall i | 0 <= i < |xs|
      ensures Spread(xs, i) <= 0.0
    {
      assert ShortEma(xs)[i] == c && LongEma(xs)[i] == c;
    }
    NoEventWithoutSwap(candles);
  }

  /** Three-minute candles whose open, high, low and close are all `closes[i]`. */
  function Series(closes: seq<real>): (candles: seq<Candle>)
    ensures |candles| == |closes|
    ensures Closes(candles) == closes
  {
    seq(|closes|, i requires 0 <= i < |closes| =>
      Candle(i * 180000, closes[i], closes[i], closes[i], closes[i], 0.0))
  }

  /** Forty-eight flat closes at 0, a dip to -1, then a jump to 10: the fast EMA
      is below the slow one at the 49th candle and above it at the 50th. */
  function RallyCloses(): (xs: seq<real>)
    ensures |xs| == Config.CandleLimit
  {
    seq(48, i => 0.0) + [-1.0, 10.0]
  }

  lemma EmaOfRally(period: nat)
    requires period >= 1
    ensures var a := Alpha(period);
            && Ema(RallyCloses(), period)[48] == -a
            && Ema(RallyCloses(), period)[49] == 10.0 * a - a * (1.0 - a)
  {
    var xs := RallyCloses();
    var a := Alpha(period);
    EmaOfConstant(xs[..48], period, 0.0);
    EmaCausal(xs, period, 48);
    EmaSatisfiesRecurrence(xs, period);
    assert Ema(xs, period)[47] == Ema(xs[..48], period)[47];
    assert StepHolds(xs, a, Ema(xs, period), 48);
    assert StepHolds(xs, a, Ema(xs, period), 49);
  }

  /** A crossover at the last candle is detected as bullish. */
  lemma RallyIsBullish()
    ensures CheckCrossover(Some(Series(RallyCloses()))) == Some(Bullish)
  {
    EmaOfRally(Config.ShortPeriod);
    EmaOfRally(Config.LongPeriod);
    assert Alpha(Config.ShortPeriod) == 0.2;
    assert Alpha(Config.LongPeriod) == 2.0 / 21.0;
  }
}
