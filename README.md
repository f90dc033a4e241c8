# ETF breakout scanner: indicator, regime and signal pipeline

This project models the analysis core of an ETF scanner in Dafny. The core
turns one instrument's daily close series into a table of technical
indicators. From that table it derives a market-regime label and a
per-bar BUY/SELL/HOLD signal. The scanner exists in two variants, and both
are modelled:

- `breakout_scanner.py` is the current variant (module `BreakoutScanner`):
  - `calculate_technical_indicators` adds EMA(20), EMA(50), RSI(14) and
    MACD(12, 26) columns.
  - The RSI is undefined (NaN) on every bar whose 14-bar average loss is 0.
  - `assess_market_condition` takes a three-condition vote on the last fully
    defined row.
  - `generate_signals` drops undefined rows, writes BUY and then SELL under
    their masks, gates BUY on a Bearish status, and merges the labels back
    by position.
- `breakout_scanner_stable.py` is the older variant (module
  `BreakoutScannerStable`):
  - The same RSI division follows IEEE-754 rules: a gain over a zero loss
    is +inf, giving RSI 100, and 0/0 is NaN.
  - `fillna(0)` then fills every NaN.
  - `generate_signals` writes BUY then SELL on every row, with no regime
    gate.

Shared pieces:

- `Frames` holds the frame model. A pandas frame is a set of columns plus
  one row record per bar, and a NaN cell is `None`. This module also holds
  `dropna`.
- `Indicators` holds the recurrences both files compute with the same
  pandas calls: `ewm(span, adjust=False)`, `diff`, `where` and
  `rolling(14).mean()`.
- `SignalRules` holds the BUY and SELL masks and the HOLD, BUY, SELL write
  order.
- `Variants` relates the two variants on the same input.

Prices are exact reals. The merge and the mask writes are methods over
arrays, proved equal to the functions that specify them.

Behaviour of the code worth knowing:

- A zero average loss gives no RSI in the current variant (the older one
  gives 100 when the average gain is positive, and 0 on a flat window). So a constant or rising series gets regime Unknown and no
  Signal column at all (`NonFallingSeriesRegimeUnknown`,
  `NonFallingSeriesNoSignals`). It never gets Neutral, Bullish or BUY.
- There is no minimum-length check. Any frame with one fully defined row
  is classified.
- The regime is read from the last fully defined row, not from the last
  row.

## Model

| member | source | states |
|---|---|---|
| `Frames.DropUndefined` | breakout_scanner.py:42 | `dropna(subset=...)` keeps every row defined on the subset and nothing else |
| `Frames.DropUndefinedTrailing` | breakout_scanner.py:42 | rows appended at the end that are undefined on the subset are all dropped, so the cleaned frame is unchanged |
| `Frames.DropUndefinedEmpty` | breakout_scanner.py:42-43 | the cleaned frame is empty exactly when no row is defined on the subset |
| `Frames.LastDefined` | breakout_scanner.py:45 | the position of the last row defined on the subset, every later row being undefined; none exactly when no row is defined |
| `Frames.DropUndefinedLast` | breakout_scanner.py:42-45 | `iloc[-1]` after `dropna` is the last defined row of the whole frame, and the cleaned frame is empty exactly when no row is defined |
| `Frames.DefinedPositions` | breakout_scanner.py:63 | the positions `dropna` keeps: increasing, all defined, and every defined position included |
| `Indicators.Alpha` | breakout_scanner.py:24-25 | the smoothing factor 2/(span+1) lies in (0, 1] for every span of at least 1 |
| `Indicators.Smooth` | breakout_scanner.py:24-25 | one EMA step with a factor in [0, 1] lands between the previous EMA value and the close |
| `Indicators.Ema` | breakout_scanner.py:24-25 | an EMA column has exactly one value per bar |
| `Indicators.EmaPrefix` | breakout_scanner.py:24-25 | the EMA of bar i depends only on the closes of bars 0..i |
| `Indicators.EmaSeed` | breakout_scanner.py:24-25 | bar 0 of every EMA column equals the first close |
| `Indicators.EmaStep` | breakout_scanner.py:24-25 | after bar 0, `e[i] = e[i-1] + 2/(span+1) * (c[i] - e[i-1])` |
| `Indicators.EmaWithin` | breakout_scanner.py:24-25 | every EMA value lies in any interval that holds all closes seen so far |
| `Indicators.EmaBetweenExtremes` | breakout_scanner.py:24-25 | the EMA at bar i lies between the lowest and the highest close of bars 0..i |
| `Indicators.EmaOfConstant` | breakout_scanner.py:24-25 | on a constant series every EMA value is that constant |
| `Indicators.MacdLine` | breakout_scanner.py:33-35 | MACD has one value per bar |
| `Indicators.MacdOfConstant` | breakout_scanner.py:33-35 | on a constant series MACD is 0 on every bar |
| `Indicators.Diff` | breakout_scanner.py:26 | `diff()` has one cell per bar |
| `Indicators.Gains` | breakout_scanner.py:27 | one gain per bar |
| `Indicators.Losses` | breakout_scanner.py:28 | one loss per bar |
| `Indicators.GainLossAt` | breakout_scanner.py:26-28 | the NaN difference at bar 0 fails both `where` tests, so gain and loss are 0 there. After bar 0 they are the rise and the fall since the previous close: never negative, positive exactly on a rise or a fall |
| `Indicators.RollingMean` | breakout_scanner.py:29-30 | `rolling(14).mean()` at bar i is defined exactly from bar 13 on (the first 13 bars lack a full window) |
| `Indicators.AvgGain` | breakout_scanner.py:29 | the average gain is defined exactly from bar 13 on and is never negative |
| `Indicators.AvgLoss` | breakout_scanner.py:30 | the average loss (before `replace`) is defined exactly from bar 13 on and is never negative |
| `Indicators.LossWindow` | breakout_scanner.py:28-30 | the 14 losses ending at bar i sum to a value that is never negative, and to 0 exactly when no close in the window falls |
| `Indicators.GainWindow` | breakout_scanner.py:27-29 | the 14 gains ending at bar i sum to a value that is never negative, and to 0 exactly when no close in the window rises |
| `Indicators.Averages` | breakout_scanner.py:29-30 | both 14-bar averages are defined exactly from bar 13 on and are never negative. The average loss is 0 exactly when no close in the window falls, and the average gain is 0 exactly when none rises |
| `Indicators.RsiValue` | breakout_scanner.py:31-32 | `100 - 100/(1 + gain/loss)` for a positive loss lies in [0, 100), and is above 0 exactly when the gain is |
| `BreakoutScanner.RawFrame` | breakout_scanner.py:21-22 | the frame as passed in has the same rows, a Close column exactly when the series has closes, and no indicator column |
| `BreakoutScanner.ZeroToUndefined` | breakout_scanner.py:30 | `replace(0, np.nan)` turns a 0 into NaN, leaves every other cell as it was, and so leaves no defined zero |
| `BreakoutScanner.RsiAt` | breakout_scanner.py:29-32 | the RSI of bar i is defined exactly when i >= 13 and the average loss is not 0, and a defined RSI lies in [0, 100) |
| `BreakoutScanner.CalculateTechnicalIndicators` | breakout_scanner.py:20-36 | one row per bar. An empty frame, or one without Close, is returned unchanged; otherwise the frame has all five indicator columns |
| `BreakoutScanner.EmaColumns` | breakout_scanner.py:24-35 | the close, EMA and MACD cells are defined on every bar. At bar 0 each EMA is the first close and MACD is 0. Later bars follow the recurrence, and each EMA stays between the lowest and highest close seen |
| `BreakoutScanner.RsiColumn` | breakout_scanner.py:26-32 | the RSI of bar i is defined exactly when i >= 13 and some close in its window falls, so a rising or flat window has none. A defined RSI lies in [0, 100) |
| `BreakoutScanner.ConstantSeriesIndicators` | breakout_scanner.py:24-35 | on a constant series both EMAs equal the constant, MACD is 0 and no bar has an RSI |
| `BreakoutScanner.Score` | breakout_scanner.py:46-49 | the vote over `rsi > 55`, `ema20 > ema50` and `macd > 0` is at most 3 |
| `BreakoutScanner.Classify` | breakout_scanner.py:50-55 | a score never gives Unknown, and gives Bearish exactly when it is 0 |
| `BreakoutScanner.ClassifyByScore` | breakout_scanner.py:50-55 | a score of 2 or more gives Bullish, exactly 1 gives Neutral, 0 gives Bearish, and a score never gives Unknown |
| `BreakoutScanner.ClassifyMonotone` | breakout_scanner.py:50-55 | a higher score never gives a lower label (Bearish < Neutral < Bullish) |
| `BreakoutScanner.AssessMarketCondition` | breakout_scanner.py:38-55 | the regime is Unknown exactly when a required column is missing or no row has all five cells defined |
| `BreakoutScanner.AssessReadsLastDefinedRow` | breakout_scanner.py:39-55 | the regime is Unknown exactly when a required column is missing or no row has all five cells. Otherwise it is the classification of the last fully defined row |
| `BreakoutScanner.TrailingUndefinedRowsIgnored` | breakout_scanner.py:42-45 | appending rows that lack a required cell never changes the regime |
| `BreakoutScanner.ShortSeriesRegimeUnknown` | breakout_scanner.py:29-44 | a series of fewer than 14 bars gets regime Unknown |
| `BreakoutScanner.NonFallingSeriesRegimeUnknown` | breakout_scanner.py:30-44 | a series whose close never falls (constant or rising) gets regime Unknown |
| `BreakoutScanner.SignalFor` | breakout_scanner.py:66-75 | a row lacking one of the four required cells is HOLD, and no row is BUY under a Bearish status |
| `BreakoutScanner.SignalColumn` | breakout_scanner.py:57-76 | no Signal column exactly when the frame is empty, lacks a required column, or has no row with all four cells defined; otherwise one label per input row |
| `BreakoutScanner.LabelKeptRows` | breakout_scanner.py:66-72 | after writing HOLD, then BUY under the gated BUY mask, then SELL under the SELL mask, each kept row holds its specified label |
| `BreakoutScanner.MergeByPosition` | breakout_scanner.py:73-75 | the merged column has one entry per original row. Each kept row holds its label and every dropped row holds HOLD |
| `BreakoutScanner.GenerateSignals` | breakout_scanner.py:57-76 | the method's result equals the specified Signal column, or is absent when the frame is returned unchanged |
| `BreakoutScanner.SignalColumnRows` | breakout_scanner.py:66-75 | every input row keeps a signal. A row lacking a required cell is HOLD. Any other row is SELL exactly under the SELL mask, and BUY exactly under the BUY mask when the status is not Bearish |
| `BreakoutScanner.SignalColumnPresence` | breakout_scanner.py:58-65 | no Signal column is added exactly when the frame is empty, lacks a required column, or has no fully defined row |
| `BreakoutScanner.BearishGate` | breakout_scanner.py:69-72 | switching the status to Bearish turns every BUY into HOLD and leaves SELL and HOLD unchanged |
| `BreakoutScanner.OnlyBearishGates` | breakout_scanner.py:69-70 | Unknown and Neutral give the same Signal column as Bullish |
| `BreakoutScanner.ShortSeriesNoSignals` | breakout_scanner.py:63-65 | a series of fewer than 14 bars gets no Signal column |
| `BreakoutScanner.NonFallingSeriesNoSignals` | breakout_scanner.py:63-65 | a constant or rising series gets no Signal column, so it never gets BUY |
| `SignalRules.BuyCondition` | breakout_scanner.py:67 | a bar under the BUY mask is never under the SELL mask |
| `SignalRules.SellCondition` | breakout_scanner.py:68 | a bar under the SELL mask fails every one of the three BUY tests |
| `SignalRules.Label` | breakout_scanner.py:66-72 | with HOLD written first and SELL after BUY, a bar is SELL exactly under the SELL mask, BUY exactly under the BUY mask without the SELL mask, and HOLD under neither |
| `SignalRules.MasksExclusive` | breakout_scanner.py:67-68 | the BUY and SELL masks never hold on the same bar, so BUY appears exactly where its mask holds |
| `BreakoutScannerStable.Divide` | breakout_scanner_stable.py:30 | the quotient of two averages is finite exactly when the loss is positive, +inf exactly when only the loss is 0, and NaN for 0/0 |
| `BreakoutScannerStable.RawRsi` | breakout_scanner_stable.py:28-31 | before `fillna`, the RSI is undefined on bars 0-12 and any defined RSI lies in [0, 100] (100 when rs is +inf) |
| `BreakoutScannerStable.FillNa` | breakout_scanner_stable.py:37 | `fillna(0)` keeps a defined cell and turns NaN into 0 |
| `BreakoutScannerStable.CalculateTechnicalIndicators` | breakout_scanner_stable.py:17-38 | an empty frame is returned unchanged. A non-empty frame without Close raises a KeyError. Otherwise the result has one filled row per bar |
| `BreakoutScannerStable.FilledRsi` | breakout_scanner_stable.py:25-37 | after `fillna(0)` the RSI is 0 on bars 0-12 and lies in [0, 100] on every bar. On later bars it is the usual formula for a positive loss, 100 for gains with no losses, and 0 for a flat window |
| `BreakoutScannerStable.RsiOfOneSidedWindow` | breakout_scanner_stable.py:28-37 | a window whose close never falls but rises at least once gives RSI 100; a window that never moves gives 0 |
| `BreakoutScannerStable.SignalFor` | breakout_scanner_stable.py:42-48 | a row is SELL exactly under the SELL mask and BUY exactly under the BUY mask, with no regime input |
| `BreakoutScannerStable.SignalColumn` | breakout_scanner_stable.py:40-49 | a Signal column is produced exactly for an indicator frame, with one label per row; an unchanged (empty) frame raises the KeyError |
| `BreakoutScannerStable.GenerateSignals` | breakout_scanner_stable.py:40-49 | the method's result equals the specified Signal column: a label on every row, or the KeyError for a frame without indicator columns |
| `BreakoutScannerStable.SignalColumnRows` | breakout_scanner_stable.py:42-48 | every row gets a signal: SELL exactly under the SELL mask, BUY exactly under the BUY mask, HOLD otherwise, with no regime input |
| `BreakoutScannerStable.WarmUpRowsNeverBuy` | breakout_scanner_stable.py:37-45 | bars 0-12, whose RSI was filled with 0, are never BUY. They are SELL exactly when the close is below EMA(20) and MACD is negative |
| `Variants.IndicatorsAgree` | breakout_scanner_stable.py:22-37 | on the same series both variants agree on the close, EMA and MACD cells, and on the RSI wherever the current variant defines one. Elsewhere the stable RSI is 100 when the window has gains, and 0 otherwise |
| `Variants.SignalsAgreeWhereRsiDefined` | breakout_scanner_stable.py:44-48 | on a bar where the current variant has an RSI and the status is not Bearish, both variants give the same signal |
| `Variants.SignalsWhereRsiUndefined` | breakout_scanner_stable.py:37-48 | on a bar without a current RSI, the current variant writes HOLD. The stable variant writes SELL exactly when its filled RSI is 0 with the close below EMA(20) and MACD negative, and BUY exactly when its RSI is 100 with the close above EMA(20) and MACD positive |

## Left out

- `fetch_etf_data` in both files is left out. It does network I/O through yfinance, with retries, `time.sleep` back-off and printing.
- `app.py` is the Streamlit/Plotly dashboard and is not part of this model. The file `breakout_scanner .py` (a third copy of the pipeline) is not part of this model either.
- IEEE-754 rounding is not modelled: prices are exact reals. NaN is `None`, and +inf appears only as the explicit `PosInfinity` quotient of the stable RSI. A float rolling sum that leaves a tiny non-zero loss instead of 0 is therefore not captured.
- pandas mechanics are not modelled: the DatetimeIndex, the Open/High/Low/Volume columns (carried along untouched), column-name casing, and `df.update`'s non-NA rule. Signal strings are never NA, so the merge is a write by position.
- Undefined closes are not modelled: every close is a real. The stable variant's `fillna(0)` of the Close column therefore has nothing to fill.
- Both functions copy their input before changing it. Dafny values are immutable, so not mutating the argument holds by construction and is not stated.
- `market_status` is a free string in the source. The model uses the four regime labels, and every label other than Bearish behaves as any non-"Bearish" string does.
- The default `market_status="Bullish"` of the current `generate_signals` is not modelled: Dafny has no default arguments, so every call passes a status. Passing `Bullish` gives the default's behaviour.
- `BreakoutScannerStable.CalculateTechnicalIndicators`: a series without closes stands for a frame that has other columns but no Close. A frame with rows and no columns at all, which pandas also calls empty and returns unchanged, is not modelled; the model gives it the KeyError instead.
- `Frames.DropUndefined`: its contract states which rows are kept but not that their order is preserved, or how many times a repeated row is kept. Neither is needed: the order is used only through `Frames.DropUndefinedLast`, which states it for the last row, and emptiness is stated by `Frames.DropUndefinedEmpty`.
- `Indicators.Ema`, `Indicators.MacdLine`, `Indicators.Diff`, `Indicators.Gains`, `Indicators.Losses`: their own contracts state only one value per bar. The values of `MacdLine` (EMA(12) minus EMA(26)) and `Diff` are given by their bodies alone. The EMA seed and recurrence are stated by `EmaSeed` and `EmaStep`, its bounds by `EmaWithin`, and the gain and loss values by `GainLossAt` and `Averages`.
