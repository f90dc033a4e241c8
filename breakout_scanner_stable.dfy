/** The older scanner (`breakout_scanner_stable.py`): the same EMA and RSI
    recurrences, but `avg_gain / avg_loss` is left to IEEE-754 division
    (a zero loss gives +inf or NaN) and every NaN is then filled with 0;
    signals are written on every row with no regime gate. */
module BreakoutScannerStable {
  import opened Frames
  import opened Indicators
  import opened SignalRules

  /** The value of an IEEE-754 division of two numbers that are never
      negative: a positive quotient is finite, x/0 is +inf for x > 0, and
      0/0 is NaN. */
  datatype Quotient = Finite(value: real) | PosInfinity | NotANumber

  function Divide(num: real, den: real): (q: Quotient)
    requires num >= 0.0 && den >= 0.0
    ensures q.Finite? <==> den > 0.0
    ensures q.PosInfinity? <==> den == 0.0 && num > 0.0
    ensures q.Finite? ==> q.value * den == num
  {
    if den > 0.0 then Finite(num / den)
    else if num > 0.0 then PosInfinity
    else NotANumber
  }

  /** The RSI of bar i before `fillna(0)`: undefined in the warm-up, 100
      when rs is +inf (100 / inf is 0), undefined when rs is NaN. */
  function RawRsi(closes: seq<real>, i: nat): (rsi: Option<real>)
    requires i < |closes|
    ensures i < RsiWindow - 1 ==> rsi.None?
    ensures rsi.Some? ==> 0.0 <= rsi.value <= 100.0
  {
    var gain := AvgGain(closes, i);
    var loss := AvgLoss(closes, i);
    if gain.None? || loss.None? then None
    else
      Averages(closes, i);
      match Divide(gain.value, loss.value)
      case Finite(_) => Some(RsiValue(gain.value, loss.value))
      case PosInfinity => Some(100.0)
      case NotANumber => None
  }

  /** `fillna(0)` on one cell. */
  function FillNa(x: Option<real>): (y: real)
    ensures x.Some? ==> y == x.value
    ensures x.None? ==> y == 0.0
  {
    if x.Some? then x.value else 0.0
  }

  /** Every column of the stable frame once `fillna(0)` has run. */
  datatype FilledRow = FilledRow(close: real, ema20: real, ema50: real, rsi: real, macd: real)

  /** What `calculate_technical_indicators` returns: the input unchanged
      when it is empty, otherwise the filled indicator rows. */
  datatype StableFrame = Unchanged(series: PriceSeries) | Indicated(rows: seq<FilledRow>)

  /** A pandas `KeyError` for a column the frame does not have. */
  datatype MissingColumn = MissingColumn(column: Column)

  function FilledIndicatorRow(closes: seq<real>, i: nat): FilledRow
    requires i < |closes|
  {
    FilledRow(closes[i], Ema(closes, 20)[i], Ema(closes, 50)[i],
              FillNa(RawRsi(closes, i)), MacdLine(closes)[i])
  }

  /** `calculate_technical_indicators`: an empty frame comes back
      unchanged; a non-empty one without `Close` raises a KeyError. */
  function CalculateTechnicalIndicators(s: PriceSeries): (r: Result<StableFrame, MissingColumn>)
    ensures |s.closes| == 0 ==> r == Success(Unchanged(s))
    ensures |s.closes| > 0 && !s.hasClose ==> r == Failure(MissingColumn(Close))
    ensures |s.closes| > 0 && s.hasClose ==>
      r.Success? && r.value.Indicated? && |r.value.rows| == |s.closes|
  {
    if |s.closes| == 0 then Success(Unchanged(s))
    else if !s.hasClose then Failure(MissingColumn(Close))
    else
      Success(Indicated(seq(|s.closes|, i requires 0 <= i < |s.closes| =>
                              FilledIndicatorRow(s.closes, i))))
  }

  /** The filled RSI of bar i: 0 in the warm-up and on a flat window, 100
      when the window has gains and no losses, and the usual
      `100 - 100 / (1 + rs)` otherwise; always in [0, 100]. */
  lemma FilledRsi(closes: seq<real>, i: nat)
    requires i < |closes|
    ensures var rsi := FillNa(RawRsi(closes, i));
      0.0 <= rsi <= 100.0 &&
      (i < RsiWindow - 1 ==> rsi == 0.0) &&
      (i >= RsiWindow - 1 ==>
        var g := AvgGain(closes, i).value;
        var l := AvgLoss(closes, i).value;
        g >= 0.0 && l >= 0.0 &&
        (l > 0.0 ==> rsi == RsiValue(g, l)) &&
        (l == 0.0 && g > 0.0 ==> rsi == 100.0) &&
        (l == 0.0 && g == 0.0 ==> rsi == 0.0))
  {
    Averages(closes, i);
  }

  /** A window in which the close never falls but rises at least once gives
      RSI 100; a window in which it never moves gives RSI 0. */
  lemma RsiOfOneSidedWindow(closes: seq<real>, i: nat)
    requires RsiWindow - 1 <= i < |closes|
    requires forall j: int :: InWindow(i, j) ==> closes[j - 1] <= closes[j]
    ensures (exists j: int :: InWindow(i, j) && closes[j - 1] < closes[j]) ==>
      FillNa(RawRsi(closes, i)) == 100.0
    ensures (forall j: int :: InWindow(i, j) ==> closes[j - 1] == closes[j]) ==>
      FillNa(RawRsi(closes, i)) == 0.0
  {
    Averages(closes, i);
    FilledRsi(closes, i);
  }

  /** One bar's label: HOLD, then BUY under the BUY mask, then SELL under
      the SELL mask; no regime input. */
  function SignalFor(r: FilledRow): (sig: Signal)
    ensures sig == Sell <==> SellCondition(r.close, r.ema20, r.rsi, r.macd)
    ensures sig == Buy <==> BuyCondition(r.close, r.ema20, r.rsi, r.macd)
  {
    Label(BuyCondition(r.close, r.ema20, r.rsi, r.macd),
          SellCondition(r.close, r.ema20, r.rsi, r.macd))
  }

  /** The Signal column `generate_signals` adds, or the KeyError it raises
      on a frame without the indicator columns (`Close` is looked up first). */
  function SignalColumn(f: StableFrame): (col: Result<seq<Signal>, MissingColumn>)
    ensures col.Success? <==> f.Indicated?
    ensures col.Success? ==> |col.value| == |f.rows|
  {
    match f
    case Unchanged(s) =>
      Failure(MissingColumn(if s.hasClose then Ema20 else Close))
    case Indicated(rows) =>
      Success(seq(|rows|, i requires 0 <= i < |rows| => SignalFor(rows[i])))
  }

  /** `generate_signals`: a Signal column of HOLD, then BUY written under
      the BUY mask, then SELL under the SELL mask. */
  method GenerateSignals(f: StableFrame) returns (r: Result<seq<Signal>, MissingColumn>)
    ensures r == SignalColumn(f)
  {
    if f.Unchanged? {
      return Failure(MissingColumn(if f.series.hasClose then Ema20 else Close));
    }
    var rows := f.rows;
    var n := |rows|;
    var signal := new Signal[n](_ => Hold);
    for i := 0 to n
      invariant forall j :: 0 <= j < i ==>
        signal[j] == (if BuyCondition(rows[j].close, rows[j].ema20, rows[j].rsi, rows[j].macd)
                      then Buy else Hold)
      invariant forall j :: i <= j < n ==> signal[j] == Hold
    {
      if BuyCondition(rows[i].close, rows[i].ema20, rows[i].rsi, rows[i].macd) {
        signal[i] := Buy;
      }
    }
    for i := 0 to n
      invariant forall j :: 0 <= j < i ==> signal[j] == SignalFor(rows[j])
      invariant forall j :: i <= j < n ==>
        signal[j] == (if BuyCondition(rows[j].close, rows[j].ema20, rows[j].rsi, rows[j].macd)
                      then Buy else Hold)
    {
      if SellCondition(rows[i].close, rows[i].ema20, rows[i].rsi, rows[i].macd) {
        signal[i] := Sell;
      }
    }
    assert signal[..] == SignalColumn(f).value;
    r := Success(signal[..]);
  }

  /** Every row gets a signal: SELL exactly under the SELL mask, BUY exactly
      under the BUY mask, HOLD otherwise. */
  lemma SignalColumnRows(rows: seq<FilledRow>, i: nat)
    requires i < |rows|
    ensures |SignalColumn(Indicated(rows)).value| == |rows|
    ensures var sig := SignalColumn(Indicated(rows)).value[i];
      var r := rows[i];
      (sig == Sell <==> SellCondition(r.close, r.ema20, r.rsi, r.macd)) &&
      (sig == Buy <==> BuyCondition(r.close, r.ema20, r.rsi, r.macd)) &&
      (sig == Hold <==> !SellCondition(r.close, r.ema20, r.rsi, r.macd) &&
                        !BuyCondition(r.close, r.ema20, r.rsi, r.macd))
  {
    var r := rows[i];
    MasksExclusive(r.close, r.ema20, r.rsi, r.macd);
  }

  /** On the first 13 bars the RSI was filled with 0, so they are never BUY,
      and they are SELL exactly when the close is under the EMA(20) and MACD
      is negative. */
  lemma WarmUpRowsNeverBuy(s: PriceSeries, i: nat)
    requires s.hasClose && i < |s.closes| && i < RsiWindow - 1
    ensures var rows := CalculateTechnicalIndicators(s).value.rows;
      var sig := SignalColumn(Indicated(rows)).value[i];
      sig != Buy &&
      (sig == Sell <==> rows[i].close < rows[i].ema20 && rows[i].macd < 0.0)
  {
    FilledRsi(s.closes, i);
  }
}
