/** The current scanner (`breakout_scanner.py`): indicators with an RSI that
    is left undefined where the average loss is 0, the market-regime vote,
    and regime-gated signals computed on the fully defined rows and merged
    back by position. */
module BreakoutScanner {
  import opened Frames
  import opened Indicators
  import opened SignalRules

  /** Every column `calculate_technical_indicators` leaves in the frame. */
  const IndicatorColumns: set<Column> := {Close, Ema20, Ema50, Rsi, Macd}

  /** The columns `assess_market_condition` requires. */
  const RegimeColumns: set<Column> := {Rsi, Ema20, Ema50, Macd, Close}

  /** The columns `generate_signals` requires. */
  const SignalColumns: set<Column> := {Close, Ema20, Rsi, Macd}

  // ---------------------------------------------------------------------
  // calculate_technical_indicators
  // ---------------------------------------------------------------------

  /** The frame as it arrives: a `Close` column when it has one, and no
      indicator column. */
  function RawFrame(s: PriceSeries): (f: Frame)
    ensures |f.rows| == |s.closes|
    ensures Close in f.columns <==> s.hasClose
    ensures !(Ema20 in f.columns || Ema50 in f.columns || Rsi in f.columns || Macd in f.columns)
  {
    Frame(if s.hasClose then {Close} else {},
          seq(|s.closes|, i requires 0 <= i < |s.closes| =>
            Row(if s.hasClose then Some(s.closes[i]) else None, None, None, None, None)))
  }

  /** `avg_loss.replace(0, np.nan)`. */
  function ZeroToUndefined(x: Option<real>): (y: Option<real>)
    ensures y.Some? ==> y.value != 0.0
    ensures x == Some(0.0) ==> y.None?
    ensures x != Some(0.0) ==> y == x
  {
    if x == Some(0.0) then None else x
  }

  /** The RSI of bar i: `100 - 100 / (1 + avg_gain / avg_loss)` where both
      averages are defined and the average loss is not 0, NaN otherwise. */
  function RsiAt(closes: seq<real>, i: nat): (rsi: Option<real>)
    requires i < |closes|
    ensures rsi.Some? <==> i >= RsiWindow - 1 && AvgLoss(closes, i) != Some(0.0)
    ensures rsi.Some? ==> 0.0 <= rsi.value < 100.0
  {
    var gain := AvgGain(closes, i);
    var loss := ZeroToUndefined(AvgLoss(closes, i));
    if gain.None? || loss.None? then None
    else
      Averages(closes, i);
      Some(RsiValue(gain.value, loss.value))
  }

  function IndicatorRow(closes: seq<real>, i: nat): Row
    requires i < |closes|
  {
    Row(Some(closes[i]), Some(Ema(closes, 20)[i]), Some(Ema(closes, 50)[i]),
        RsiAt(closes, i), Some(MacdLine(closes)[i]))
  }

  /** `calculate_technical_indicators`: an empty frame or one without a
      `Close` column comes back unchanged; otherwise the frame gains the
      Ema20, Ema50, Rsi and Macd columns, one value per bar. */
  function CalculateTechnicalIndicators(s: PriceSeries): (f: Frame)
    ensures |f.rows| == |s.closes|
    ensures |s.closes| == 0 || !s.hasClose ==> f == RawFrame(s)
    ensures |s.closes| > 0 && s.hasClose ==> f.columns == IndicatorColumns
  {
    if |s.closes| == 0 || !s.hasClose then RawFrame(s)
    else
      Frame(IndicatorColumns,
            seq(|s.closes|, i requires 0 <= i < |s.closes| => IndicatorRow(s.closes, i)))
  }

  /** The close, EMA and MACD cells are defined on every bar. The EMA
      columns start at the first close and then follow
      `e[i] = e[i-1] + 2/(span+1) * (c[i] - e[i-1])`, each staying between
      the lowest and highest close seen so far; MACD starts at 0. */
  lemma EmaColumns(s: PriceSeries, i: nat)
    requires s.hasClose && i < |s.closes|
    ensures var r := CalculateTechnicalIndicators(s).rows[i];
      r.close == Some(s.closes[i]) && r.ema20.Some? && r.ema50.Some? && r.macd.Some? &&
      Lowest(s.closes[..i + 1]) <= r.ema20.value <= Highest(s.closes[..i + 1]) &&
      Lowest(s.closes[..i + 1]) <= r.ema50.value <= Highest(s.closes[..i + 1]) &&
      (i == 0 ==> r.ema20.value == s.closes[0] && r.ema50.value == s.closes[0] &&
                  r.macd.value == 0.0)
    ensures i > 0 ==>
      var rows := CalculateTechnicalIndicators(s).rows;
      rows[i].ema20.value == Smooth(rows[i - 1].ema20.value, s.closes[i], Alpha(20)) &&
      rows[i].ema50.value == Smooth(rows[i - 1].ema50.value, s.closes[i], Alpha(50))
  {
    var c := s.closes;
    EmaBetweenExtremes(c, 20, i);
    EmaBetweenExtremes(c, 50, i);
    if i == 0 {
      EmaSeed(c, 20);
      EmaSeed(c, 50);
      EmaSeed(c, 12);
      EmaSeed(c, 26);
    } else {
      EmaStep(c, 20, i);
      EmaStep(c, 50, i);
    }
  }

  /** The RSI of bar i is defined exactly when i >= 13 and some close in
      its window falls; a window that never falls (a rising or flat one)
      has no RSI. A defined RSI lies in [0, 100). */
  lemma RsiColumn(s: PriceSeries, i: nat)
    requires s.hasClose && i < |s.closes|
    ensures var rsi := CalculateTechnicalIndicators(s).rows[i].rsi;
      (rsi.Some? <==>
         i >= RsiWindow - 1 && !forall j: int :: InWindow(i, j) ==> s.closes[j - 1] <= s.closes[j]) &&
      (rsi.Some? ==> 0.0 <= rsi.value < 100.0)
  {
    Averages(s.closes, i);
  }

  /** On a constant series every EMA is that constant, MACD is 0 and no
      bar has an RSI. */
  lemma ConstantSeriesIndicators(s: PriceSeries, x: real, i: nat)
    requires s.hasClose && i < |s.closes|
    requires forall j :: 0 <= j < |s.closes| ==> s.closes[j] == x
    ensures var r := CalculateTechnicalIndicators(s).rows[i];
      r.ema20 == Some(x) && r.ema50 == Some(x) && r.macd == Some(0.0) && r.rsi.None?
  {
    EmaOfConstant(s.closes, 20, x, i);
    EmaOfConstant(s.closes, 50, x, i);
    MacdOfConstant(s.closes, x, i);
    RsiColumn(s, i);
  }

  // ---------------------------------------------------------------------
  // assess_market_condition
  // ---------------------------------------------------------------------

  lemma RegimeCells(r: Row)
    requires DefinedOn(r, RegimeColumns)
    ensures r.close.Some? && r.ema20.Some? && r.ema50.Some? && r.rsi.Some? && r.macd.Some?
  {
    assert Cell(r, Close).Some? && Cell(r, Ema20).Some? && Cell(r, Ema50).Some?;
    assert Cell(r, Rsi).Some? && Cell(r, Macd).Some?;
  }

  /** How many of `rsi > 55`, `ema20 > ema50` and `macd > 0` hold on a row. */
  function Score(r: Row): (n: nat)
    requires DefinedOn(r, RegimeColumns)
    ensures n <= 3
  {
    RegimeCells(r);
    (if r.rsi.value > 55.0 then 1 else 0) +
    (if r.ema20.value > r.ema50.value then 1 else 0) +
    (if r.macd.value > 0.0 then 1 else 0)
  }

  /** The label of a vote: never Unknown, and Bearish only when nothing passed. */
  function Classify(score: nat): (r: Regime)
    ensures r != Unknown
    ensures r == Bearish <==> score == 0
  {
    if score >= 2 then Bullish else if score == 1 then Neutral else Bearish
  }

  /** `assess_market_condition`: Unknown exactly when a required column is
      missing or no row has all five cells defined. */
  function AssessMarketCondition(f: Frame): (r: Regime)
    ensures r == Unknown <==>
      !(RegimeColumns <= f.columns) ||
      forall j :: 0 <= j < |f.rows| ==> !DefinedOn(f.rows[j], RegimeColumns)
  {
    if !(RegimeColumns <= f.columns) then Unknown
    else
      DropUndefinedEmpty(f.rows, RegimeColumns);
      var clean := DropUndefined(f.rows, RegimeColumns);
      if |clean| == 0 then Unknown
      else Classify(Score(clean[|clean| - 1]))
  }

  /** The regime is Unknown exactly when a required column is missing or no
      row has all five cells defined; otherwise it is the vote of the last
      fully defined row, which need not be the last row. */
  lemma AssessReadsLastDefinedRow(f: Frame)
    ensures AssessMarketCondition(f) == Unknown <==>
      !(RegimeColumns <= f.columns) || LastDefined(f.rows, RegimeColumns).None?
    ensures RegimeColumns <= f.columns && LastDefined(f.rows, RegimeColumns).Some? ==>
      AssessMarketCondition(f) == Classify(Score(f.rows[LastDefined(f.rows, RegimeColumns).value]))
  {
    DropUndefinedLast(f.rows, RegimeColumns);
  }

  /** Two or three passing conditions give Bullish, one Neutral, none Bearish. */
  lemma ClassifyByScore(score: nat)
    requires score <= 3
    ensures Classify(score) == Bullish <==> score >= 2
    ensures Classify(score) == Neutral <==> score == 1
    ensures Classify(score) == Bearish <==> score == 0
    ensures Classify(score) != Unknown
  {
  }

  /** Bearish < Neutral < Bullish. */
  function Rank(r: Regime): nat
  {
    match r
    case Bearish => 0
    case Neutral => 1
    case Bullish => 2
    case Unknown => 0
  }

  /** More passing conditions never give a lower label. */
  lemma ClassifyMonotone(a: nat, b: nat)
    requires a <= b
    ensures Rank(Classify(a)) <= Rank(Classify(b))
  {
  }

  /** Rows at the end that lack a required cell do not change the regime. */
  lemma TrailingUndefinedRowsIgnored(f: Frame, extra: seq<Row>)
    requires forall j :: 0 <= j < |extra| ==> !DefinedOn(extra[j], RegimeColumns)
    ensures AssessMarketCondition(Frame(f.columns, f.rows + extra)) == AssessMarketCondition(f)
  {
    DropUndefinedTrailing(f.rows, extra, RegimeColumns);
  }

  /** Fewer than 14 bars leave no bar with an RSI, so the regime is Unknown. */
  lemma ShortSeriesRegimeUnknown(s: PriceSeries)
    requires |s.closes| < RsiWindow
    ensures AssessMarketCondition(CalculateTechnicalIndicators(s)) == Unknown
  {
    var f := CalculateTechnicalIndicators(s);
    forall j | 0 <= j < |f.rows| ensures !DefinedOn(f.rows[j], RegimeColumns) {
      if s.hasClose {
        RsiColumn(s, j);
        assert Cell(f.rows[j], Rsi).None?;
      } else {
        assert Cell(f.rows[j], Close).None?;
      }
    }
    AssessReadsLastDefinedRow(f);
  }

  /** A series whose close never falls (constant or rising) has no RSI on
      any bar, so the regime is Unknown rather than Neutral or Bullish. */
  lemma NonFallingSeriesRegimeUnknown(s: PriceSeries)
    requires forall j :: 0 < j < |s.closes| ==> s.closes[j - 1] <= s.closes[j]
    ensures AssessMarketCondition(CalculateTechnicalIndicators(s)) == Unknown
  {
    var f := CalculateTechnicalIndicators(s);
    forall j | 0 <= j < |f.rows| ensures !DefinedOn(f.rows[j], RegimeColumns) {
      if s.hasClose {
        RsiColumn(s, j);
        assert Cell(f.rows[j], Rsi).None?;
      } else {
        assert Cell(f.rows[j], Close).None?;
      }
    }
    AssessReadsLastDefinedRow(f);
  }

  // ---------------------------------------------------------------------
  // generate_signals
  // ---------------------------------------------------------------------

  lemma SignalCells(r: Row)
    requires DefinedOn(r, SignalColumns)
    ensures r.close.Some? && r.ema20.Some? && r.rsi.Some? && r.macd.Some?
  {
    assert Cell(r, Close).Some? && Cell(r, Ema20).Some?;
    assert Cell(r, Rsi).Some? && Cell(r, Macd).Some?;
  }

  /** The BUY mask of a fully defined row, after the regime gate. */
  predicate GatedBuy(r: Row, status: Regime)
    requires DefinedOn(r, SignalColumns)
  {
    SignalCells(r);
    status != Bearish && BuyCondition(r.close.value, r.ema20.value, r.rsi.value, r.macd.value)
  }

  predicate Sells(r: Row)
    requires DefinedOn(r, SignalColumns)
  {
    SignalCells(r);
    SellCondition(r.close.value, r.ema20.value, r.rsi.value, r.macd.value)
  }

  /** The signal a row ends up with in the merged frame: HOLD when it was
      dropped, otherwise the last of HOLD, BUY and SELL written to it. */
  function SignalFor(r: Row, status: Regime): (sig: Signal)
    ensures !DefinedOn(r, SignalColumns) ==> sig == Hold
    ensures sig == Buy ==> status != Bearish
  {
    if !DefinedOn(r, SignalColumns) then Hold
    else Label(GatedBuy(r, status), Sells(r))
  }

  /** The Signal column `generate_signals` adds, or `None` when it returns
      the frame unchanged (empty, a required column missing, or no row with
      all four required cells defined). */
  function SignalColumn(f: Frame, status: Regime): (col: Option<seq<Signal>>)
    ensures col.None? <==>
      |f.rows| == 0 || !(SignalColumns <= f.columns) ||
      forall j :: 0 <= j < |f.rows| ==> !DefinedOn(f.rows[j], SignalColumns)
    ensures col.Some? ==> |col.value| == |f.rows|
  {
    DropUndefinedEmpty(f.rows, SignalColumns);
    if |f.rows| == 0 || !(SignalColumns <= f.columns) ||
       |DropUndefined(f.rows, SignalColumns)| == 0
    then None
    else Some(seq(|f.rows|, i requires 0 <= i < |f.rows| => SignalFor(f.rows[i], status)))
  }

  /** The labels of the kept rows (`df_clean["Signal"]`): HOLD, then BUY
      under the gated BUY mask, then SELL under the SELL mask. */
  method LabelKeptRows(rows: seq<Row>, kept: seq<nat>, status: Regime) returns (labels: seq<Signal>)
    requires forall j :: 0 <= j < |kept| ==> kept[j] < |rows| && DefinedOn(rows[kept[j]], SignalColumns)
    ensures |labels| == |kept|
    ensures forall j :: 0 <= j < |kept| ==> labels[j] == SignalFor(rows[kept[j]], status)
  {
    var m := |kept|;
    var clean := new Signal[m](_ => Hold);
    for k := 0 to m
      invariant forall j :: 0 <= j < k ==>
        clean[j] == (if GatedBuy(rows[kept[j]], status) then Buy else Hold)
      invariant forall j :: k <= j < m ==> clean[j] == Hold
    {
      if GatedBuy(rows[kept[k]], status) {
        clean[k] := Buy;
      }
    }
    for k := 0 to m
      invariant forall j :: 0 <= j < k ==> clean[j] == SignalFor(rows[kept[j]], status)
      invariant forall j :: k <= j < m ==>
        clean[j] == (if GatedBuy(rows[kept[j]], status) then Buy else Hold)
    {
      if Sells(rows[kept[k]]) {
        clean[k] := Sell;
      }
    }
    labels := clean[..];
  }

  /** `df_merged["Signal"] = "HOLD"; df_merged.update(df_clean[["Signal"]])`:
      a column of n HOLDs in which the label of each kept row is written at
      that row's position. */
  method MergeByPosition(n: nat, kept: seq<nat>, labels: seq<Signal>) returns (column: seq<Signal>)
    requires |labels| == |kept|
    requires forall j :: 0 <= j < |kept| ==> kept[j] < n
    requires Increasing(kept)
    ensures |column| == n
    ensures forall j :: 0 <= j < |kept| ==> column[kept[j]] == labels[j]
    ensures forall i :: 0 <= i < n && i !in kept ==> column[i] == Hold
  {
    var merged := new Signal[n](_ => Hold);
    for k := 0 to |kept|
      invariant forall j :: 0 <= j < k ==> merged[kept[j]] == labels[j]
      invariant forall j :: k <= j < |kept| ==> merged[kept[j]] == Hold
      invariant forall i :: 0 <= i < n && i !in kept ==> merged[i] == Hold
    {
      merged[kept[k]] := labels[k];
    }
    column := merged[..];
  }

  /** `generate_signals`: drop the rows lacking a required cell, label the
      rest, and merge the labels back by position into a copy of the whole
      frame whose Signal column starts as HOLD. */
  method GenerateSignals(f: Frame, status: Regime) returns (r: Option<seq<Signal>>)
    ensures r == SignalColumn(f, status)
  {
    var n := |f.rows|;
    if n == 0 || !(SignalColumns <= f.columns) {
      return None;
    }
    var kept := DefinedPositions(f.rows, SignalColumns);
    DropUndefinedLast(f.rows, SignalColumns);
    if |kept| == 0 {
      return None;
    }
    assert DefinedOn(f.rows[kept[0]], SignalColumns);
    var labels := LabelKeptRows(f.rows, kept, status);
    var column := MergeByPosition(n, kept, labels);
    forall i | 0 <= i < n
      ensures column[i] == SignalFor(f.rows[i], status)
    {
      if DefinedOn(f.rows[i], SignalColumns) {
        var j :| 0 <= j < |kept| && kept[j] == i;
      }
    }
    assert DropUndefined(f.rows, SignalColumns) != [];
    assert column == SignalColumn(f, status).value;
    r := Some(column);
  }

  /** The Signal column keeps every row: a row lacking a required cell is
      HOLD, any other row is SELL exactly under the SELL mask and BUY exactly
      under the BUY mask when the status is not Bearish. */
  lemma SignalColumnRows(f: Frame, status: Regime, i: nat)
    requires SignalColumn(f, status).Some? && i < |f.rows|
    ensures |SignalColumn(f, status).value| == |f.rows|
    ensures var sig := SignalColumn(f, status).value[i];
      var r := f.rows[i];
      (!DefinedOn(r, SignalColumns) ==> sig == Hold) &&
      (DefinedOn(r, SignalColumns) ==>
        (sig == Sell <==> SellCondition(r.close.value, r.ema20.value, r.rsi.value, r.macd.value)) &&
        (sig == Buy <==> status != Bearish &&
                         BuyCondition(r.close.value, r.ema20.value, r.rsi.value, r.macd.value)))
  {
    var r := f.rows[i];
    if DefinedOn(r, SignalColumns) {
      SignalCells(r);
      MasksExclusive(r.close.value, r.ema20.value, r.rsi.value, r.macd.value);
    }
  }

  /** The Signal column is absent exactly when the frame is empty, lacks a
      required column, or has no row with all four required cells. */
  lemma SignalColumnPresence(f: Frame, status: Regime)
    ensures SignalColumn(f, status).None? <==>
      |f.rows| == 0 || !(SignalColumns <= f.columns) || LastDefined(f.rows, SignalColumns).None?
  {
    DropUndefinedLast(f.rows, SignalColumns);
  }

  /** A Bearish status turns every BUY into HOLD and leaves every other
      label as it was. */
  lemma BearishGate(f: Frame, status: Regime, i: nat)
    requires SignalColumn(f, status).Some? && i < |f.rows|
    ensures SignalColumn(f, Bearish).Some?
    ensures var before := SignalColumn(f, status).value[i];
      SignalColumn(f, Bearish).value[i] == (if before == Buy then Hold else before)
  {
    var r := f.rows[i];
    if DefinedOn(r, SignalColumns) {
      SignalCells(r);
      MasksExclusive(r.close.value, r.ema20.value, r.rsi.value, r.macd.value);
    }
  }

  /** Unknown and Neutral gate nothing: they give the same Signal column
      as Bullish. */
  lemma OnlyBearishGates(f: Frame)
    ensures SignalColumn(f, Unknown) == SignalColumn(f, Neutral) == SignalColumn(f, Bullish)
  {
    if SignalColumn(f, Bullish).Some? {
      var u, n, b := SignalColumn(f, Unknown).value, SignalColumn(f, Neutral).value,
                     SignalColumn(f, Bullish).value;
      forall j | 0 <= j < |f.rows| ensures u[j] == n[j] == b[j] {
      }
      assert u == n == b;
    }
  }

  /** Fewer than 14 bars: no row has an RSI, so no Signal column is added. */
  lemma ShortSeriesNoSignals(s: PriceSeries, status: Regime)
    requires |s.closes| < RsiWindow
    ensures SignalColumn(CalculateTechnicalIndicators(s), status).None?
  {
    var f := CalculateTechnicalIndicators(s);
    if s.hasClose {
      forall j | 0 <= j < |f.rows| ensures !DefinedOn(f.rows[j], SignalColumns) {
        RsiColumn(s, j);
        assert Cell(f.rows[j], Rsi).None?;
      }
    }
    SignalColumnPresence(f, status);
  }

  /** A series whose close never falls has no RSI anywhere, so no Signal
      column is added (not a column of HOLD, and never BUY). */
  lemma NonFallingSeriesNoSignals(s: PriceSeries, status: Regime)
    requires forall j :: 0 < j < |s.closes| ==> s.closes[j - 1] <= s.closes[j]
    ensures SignalColumn(CalculateTechnicalIndicators(s), status).None?
  {
    var f := CalculateTechnicalIndicators(s);
    if s.hasClose {
      forall j | 0 <= j < |f.rows| ensures !DefinedOn(f.rows[j], SignalColumns) {
        RsiColumn(s, j);
        assert Cell(f.rows[j], Rsi).None?;
      }
    }
    SignalColumnPresence(f, status);
  }
}
