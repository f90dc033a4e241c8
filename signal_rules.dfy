/** The per-bar masks both `generate_signals` variants build, and the label
    a bar ends up with once the Signal column has been set to HOLD, the BUY
    mask written and then the SELL mask written over it. */
module SignalRules {
  import opened Frames

  /** `(Close > Ema20) & (Rsi > 55) & (Macd > 0)` on one bar. */
  predicate BuyCondition(close: real, ema20: real, rsi: real, macd: real)
    ensures BuyCondition(close, ema20, rsi, macd) ==> !SellCondition(close, ema20, rsi, macd)
  {
    close > ema20 && rsi > 55.0 && macd > 0.0
  }

  /** `(Close < Ema20) & (Rsi < 45) & (Macd < 0)` on one bar. */
  predicate SellCondition(close: real, ema20: real, rsi: real, macd: real)
    ensures SellCondition(close, ema20, rsi, macd) ==>
      !(close > ema20) && !(rsi > 55.0) && !(macd > 0.0)
  {
    close < ema20 && rsi < 45.0 && macd < 0.0
  }

  /** HOLD, then BUY where `buy`, then SELL where `sell`: the last write
      wins, so SELL wherever the SELL mask holds and BUY only where the BUY
      mask holds and the SELL mask does not. */
  function Label(buy: bool, sell: bool): (s: Signal)
    ensures s == Sell <==> sell
    ensures s == Buy <==> buy && !sell
    ensures s == Hold <==> !buy && !sell
  {
    if sell then Sell else if buy then Buy else Hold
  }

  /** The two masks never hold on the same bar, since one needs the close
      above the EMA(20) and the other below it; so the write order only
      matters in principle, and BUY appears exactly where its mask holds. */
  lemma MasksExclusive(close: real, ema20: real, rsi: real, macd: real)
    ensures !(BuyCondition(close, ema20, rsi, macd) && SellCondition(close, ema20, rsi, macd))
    ensures Label(BuyCondition(close, ema20, rsi, macd), SellCondition(close, ema20, rsi, macd)) == Buy
            <==> BuyCondition(close, ema20, rsi, macd)
  {
  }
}
