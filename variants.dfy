/** The two scanner variants side by side: on the same close series they
    compute the same EMA and MACD columns and the same RSI wherever the
    current variant defines one, and they then label those rows alike
    unless the current variant's regime gate is closed. */
module Variants {
  import opened Frames
  import opened Indicators
  import opened SignalRules
  import Current = BreakoutScanner
  import Stable = BreakoutScannerStable

  /** Close, EMA and MACD cells agree; a defined current RSI equals the
      stable RSI; where the current RSI is undefined the stable one is 100
      if the window has gains and no losses, and 0 otherwise. */
  lemma IndicatorsAgree(s: PriceSeries, i: nat)
    requires s.hasClose && i < |s.closes|
    ensures Stable.CalculateTechnicalIndicators(s).Success?
    ensures var cur := Current.CalculateTechnicalIndicators(s).rows[i];
      var prior := Stable.CalculateTechnicalIndicators(s).value.rows[i];
      cur.close == Some(prior.close) && cur.ema20 == Some(prior.ema20) &&
      cur.ema50 == Some(prior.ema50) && cur.macd == Some(prior.macd) &&
      (cur.rsi.Some? ==> cur.rsi.value == prior.rsi) &&
      (cur.rsi.None? ==>
        (prior.rsi == 100.0 <==> i >= RsiWindow - 1 && AvgGain(s.closes, i).value > 0.0) &&
        (prior.rsi != 100.0 ==> prior.rsi == 0.0))
  {
    Averages(s.closes, i);
    Stable.FilledRsi(s.closes, i);
  }

  /** On a row where the current variant has an RSI and the status is not
      Bearish, both variants give the same signal. */
  lemma SignalsAgreeWhereRsiDefined(s: PriceSeries, status: Regime, i: nat)
    requires s.hasClose && i < |s.closes| && status != Bearish
    requires Current.CalculateTechnicalIndicators(s).rows[i].rsi.Some?
    ensures Current.SignalColumn(Current.CalculateTechnicalIndicators(s), status).Some?
    ensures Stable.CalculateTechnicalIndicators(s).Success?
    ensures Current.SignalColumn(Current.CalculateTechnicalIndicators(s), status).value[i] ==
            Stable.SignalColumn(Stable.CalculateTechnicalIndicators(s).value).value[i]
  {
    var f := Current.CalculateTechnicalIndicators(s);
    var r := f.rows[i];
    IndicatorsAgree(s, i);
    assert DefinedOn(r, Current.SignalColumns);
    Current.SignalColumnPresence(f, status);
  }

  /** On a row where the current variant has no RSI it writes HOLD (when it
      adds a Signal column at all), while the stable variant, reading the
      filled 0 or the +inf-derived 100, can still SELL or BUY there. */
  lemma SignalsWhereRsiUndefined(s: PriceSeries, status: Regime, i: nat)
    requires s.hasClose && i < |s.closes|
    requires Current.CalculateTechnicalIndicators(s).rows[i].rsi.None?
    ensures Stable.CalculateTechnicalIndicators(s).Success?
    ensures var col := Current.SignalColumn(Current.CalculateTechnicalIndicators(s), status);
      col.Some? ==> col.value[i] == Hold
    ensures var prior := Stable.CalculateTechnicalIndicators(s).value.rows[i];
      var sig := Stable.SignalColumn(Stable.CalculateTechnicalIndicators(s).value).value[i];
      (sig == Sell <==> prior.rsi == 0.0 && prior.close < prior.ema20 && prior.macd < 0.0) &&
      (sig == Buy <==> prior.rsi == 100.0 && prior.close > prior.ema20 && prior.macd > 0.0)
  {
    var f := Current.CalculateTechnicalIndicators(s);
    assert Cell(f.rows[i], Rsi).None?;
    IndicatorsAgree(s, i);
  }
}
