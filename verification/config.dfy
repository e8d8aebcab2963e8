/** The scanner's fixed parameters, set once at the top of coin.py. */
module Config {

  /** Period of the fast EMA. */
  const ShortPeriod: nat := 9

  /** Period of the slow EMA. */
  const LongPeriod: nat := 20

  /** Minimum 24-hour quote volume, in USDT, for a market to be scanned. */
  const MinVolume: real := 1000000.0

  /** Number of candles requested per symbol, and the least number accepted. */
  const CandleLimit: nat := 50

  /** The only quote currency the universe admits. */
  const QuoteCurrency: string := "USDT"
}
