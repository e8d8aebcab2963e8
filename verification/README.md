# EMA 9/20 crossover scanner — a verified functional model

The scanner (`coin.py`) picks a universe of liquid USDT spot markets on an
exchange, then repeatedly fetches the last 50 three-minute candles of every
symbol, computes a fast (9) and a slow (20) exponential moving average of the
closes, and reports a bullish or bearish crossover when the fast line changes
side between the last two candles. This project models the pure logic of that
script in Dafny and proves what it promises:

- `MovingAverage` (`ema.dfy`): the EMA of pandas'
  `ewm(span = period, adjust = False).mean()` over `real` closes. It is seeded
  with the first close, then each value is alpha·close + (1 − alpha)·previous,
  with alpha = 2 / (period + 1). It is characterised by the recurrence in both
  directions, and proved causal, bounded by the closes, equal to its closed form
  as a weighted sum, and affine (negating or mirroring the closes mirrors the EMA).
- `Crossover` (`crossover.dfy`): `check_crossover` once the fetch is a parameter.
  A failed fetch, or fewer than 50 candles, gives no event. Otherwise the last two
  samples of the two EMAs are classified, and an event is reported exactly when
  the fast-minus-slow spread changes sign strictly.
- `Universe` (`universe.dfy`): `get_active_symbols` as a sequential filter over
  the market table. It keeps a USDT-quoted, active, spot market whose ticker was
  fetched and reports a non-null quote volume at or above the threshold.
- `Scan` (`scan.dfy`): one pass of the loop in `main`, which counts and lists
  the detections in symbol order. The pass takes `check_crossover` as a
  parameter `detect` from symbol to result; `Scan.CheckSymbol` is that result
  for a given candle provider (fetch, then `Crossover.CheckCrossover`), so the
  `Crossover.CheckCrossover` row below covers it.
- `Base` (`base.dfy`) holds the `Option` type and `Config` (`config.dfy`) the
  script's constants that the model uses: periods 9 and 20, 50 candles, the
  1 000 000 USDT volume threshold and quote `USDT`.

Exchange calls are parameters of the model. `fetch_ticker` is a function from
symbol to `Ticker`, where `TickerFailed` stands for an exception and
`TickerOk(None)` for a null `quoteVolume`. `fetch_ohlcv` is a function from
symbol to `Option<seq<Candle>>`, where `None` stands for an exception anywhere
in the detector. `load_markets` is the input sequence of markets, in the
dictionary's iteration order.

Facts about the code that the model keeps:
- The universe is a list in market order (coin.py:25-33). It has no duplicates
  because the market table is keyed by symbol (`Universe.SelectDistinct`).
- The history guard is the constant 50 (coin.py:45).
- The periods are the fixed constants 9 and 20 (coin.py:13-14).

## Model

| member | source | states |
|---|---|---|
| `MovingAverage.Alpha` | coin.py:17-18 | The smoothing factor for span `period` is in (0, 1] and is 1 exactly for span 1, so every EMA step is a convex mix. |
| `MovingAverage.Ema` | coin.py:17-18 | The EMA has one value per close, and its first value is the first close. |
| `MovingAverage.EmaSatisfiesRecurrence` | coin.py:17-18 | Every later EMA value is alpha·close + (1 − alpha)·previous EMA value. |
| `MovingAverage.EmaCharacterised` | coin.py:17-18 | A sequence is the EMA of the closes if and only if it has their length, starts with the first close and obeys the recurrence. |
| `MovingAverage.EmaCausal` | coin.py:17-18 | The EMA of the first n closes is the first n values of the EMA of all closes, so later candles never revise earlier values. |
| `MovingAverage.EmaWithinBounds` | coin.py:17-18 | The EMA at index i lies within any bounds (in particular the minimum and maximum) of the closes up to index i. |
| `MovingAverage.EmaOfConstant` | coin.py:17-18 | A constant close series has a constant EMA equal to that close. |
| `MovingAverage.EmaAffine` | coin.py:17-18 | Mapping the closes through x ↦ s·x + t maps the EMA the same way, so negating the closes negates the EMA and mirroring them about a pivot mirrors it. |
| `MovingAverage.EmaClosedForm` | coin.py:17-18 | EMA value n equals (1 − alpha)^n·close[0] + Σ_{k=1..n} alpha·(1 − alpha)^(n−k)·close[k]. |
| `MovingAverage.EmaWorkedExample` | coin.py:17-18 | The closes 10, 11, …, 15 with span 3 give exactly 10, 10.5, 11.25, 12.125, 13.0625, 14.03125. |
| `Crossover.Classify` | coin.py:63-69 | An event is reported exactly when the sign of fast − slow flips strictly between the previous and the current sample, so a tie on either side gives none and bullish and bearish exclude each other. The event is bullish exactly when the fast line ends above the slow one. |
| `Crossover.CheckCrossover` | coin.py:40-73 | A failed fetch or fewer than 50 candles gives no event and never an error. With 50 or more candles, an event occurs exactly when the sign of the fast − slow EMA spread flips strictly between the last two candles, and it is bullish exactly when the final spread is positive. |
| `Crossover.CheckCrossoverMirror` | coin.py:54-67 | Mirroring every price about a pivot swaps bullish and bearish results and keeps "no event". |
| `Crossover.NoEventWithoutSwap` | coin.py:58-69 | If the fast EMA stays on one side of the slow one (ties allowed) over the whole window, no crossover is reported. |
| `Crossover.FlatHistoryNoEvent` | coin.py:54-69 | A history with constant closes never reports a crossover. |
| `Crossover.RallyIsBullish` | coin.py:43-65 | Forty-eight candles flat at 0, then −1 and 10 (fifty in all), are detected as a bullish crossover. |
| `Universe.Select` | coin.py:25-35 | Every returned symbol belongs to a USDT-quoted, active, spot market whose ticker succeeded with a non-null quote volume ≥ the threshold, and every such market's symbol is returned. |
| `Universe.SelectAppend` | coin.py:25-33 | Filtering a concatenation of market lists is concatenating their results, so the symbols come out in market iteration order. |
| `Universe.GetActiveSymbols` | coin.py:20-38 | The loop that appends each passing market's symbol, and skips a market whose ticker fails, returns exactly the filtered sequence. |
| `Universe.SelectDistinct` | coin.py:25-33 | Over a market table keyed by distinct symbols, no symbol is returned twice. |
| `Universe.ListedKeptAtThreshold` | coin.py:15-33 | With the script's threshold, a listed market is kept exactly when its ticker answered with a non-null quote volume of at least 1 000 000; a volume exactly at the threshold is kept. |
| `Universe.UnlistedExcluded` | coin.py:28 | Over distinct symbols, a market that is not USDT-quoted, active and spot is never returned, whatever its volume. |
| `Universe.TickerFailureIsolated` | coin.py:30-35 | When one symbol's ticker fails and all others answer as before, the result loses that symbol and nothing else. |
| `Scan.Detections` | coin.py:85-89 | Every listed event names a scanned symbol and the direction `check_crossover` reported for it, and every symbol with a result is listed with that direction. |
| `Scan.ScanPass` | coin.py:83-91 | `crossovers_found` equals the number of scanned positions whose `check_crossover` result is not none, and the reported events are exactly those results, in symbol order. |
| `Scan.ScenarioPass` | coin.py:85-89 | Over a rallying symbol and a flat control symbol, a pass reports only the rallying symbol, as bullish. |

## Left out

- Exchange I/O: the ccxt client, `load_markets`, `fetch_ticker` and `fetch_ohlcv`, including rate limiting and the `3m` timeframe argument (coin.py:7-9, 12, 22, 31, 43). Their answers are parameters of the model.
- A failure of `load_markets` is not caught in the script and ends the program. The model starts from the loaded market table.
- pandas DataFrame construction, timestamp conversion and indexing (coin.py:49-51). Only the close column reaches the model.
- IEEE floating-point arithmetic. Prices and EMA values are exact `real`s, so no rounding, NaN or infinity exists in the model. pandas' NaN handling in `ewm` is therefore not modelled.
- `MovingAverage.Ema` requires span ≥ 1. pandas rejects a smaller span, and the script only uses 9 and 20.
- The endless `while True` loop, `datetime.now()` and `time.sleep(18)` (coin.py:79-94). One pass is modelled; the 18-second delay is not (the comment at coin.py:93 speaks of three minutes, but the code sleeps 18 seconds).
- All console output (coin.py:21, 37, 72, 76, 81, 89, 91). The detection lines are modelled as the `Event` list of a pass; the rest is dropped.
- Python truthiness of a market's `active` field: ccxt may give `None`, which the script treats as false. The model's `active` is a `bool` holding that truth value.
- Broad `except` clauses are modelled only as "this symbol yields no event" (`None` fetch) or "this market is skipped" (`TickerFailed`).
