/** The tabular data both scanner variants pass between their stages.

    A pandas frame is modelled as the set of columns it has plus one row
    record per bar. A cell that pandas would hold as NaN is `None`; the
    cells of a column the frame does not have are `None` too and are never
    looked at, because every stage first checks `columns`. Prices are exact
    reals: floating-point rounding is not modelled. */
module Frames {

  datatype Option<T> = None | Some(value: T)

  datatype Result<T, E> = Success(value: T) | Failure(error: E)

  /** The columns the pipeline reads or writes (`Signal` is returned apart). */
  datatype Column = Close | Ema20 | Ema50 | Rsi | Macd

  /** One bar of a frame; `None` is an undefined (NaN) cell. */
  datatype Row = Row(
    close: Option<real>,
    ema20: Option<real>,
    ema50: Option<real>,
    rsi: Option<real>,
    macd: Option<real>)

  datatype Frame = Frame(columns: set<Column>, rows: seq<Row>)

  /** What the data source hands to the indicator stage: whether the frame
      has a `Close` column and, per bar, its close. Without a `Close` column
      `closes` only fixes the number of rows. */
  datatype PriceSeries = PriceSeries(hasClose: bool, closes: seq<real>)

  datatype Signal = Buy | Sell | Hold

  /** The market-regime label; `Unknown` means "not enough data". */
  datatype Regime = Bullish | Neutral | Bearish | Unknown

  function Cell(r: Row, c: Column): Option<real>
  {
    match c
    case Close => r.close
    case Ema20 => r.ema20
    case Ema50 => r.ema50
    case Rsi => r.rsi
    case Macd => r.macd
  }

  /** The row survives `dropna(subset=cols)`. */
  predicate DefinedOn(r: Row, cols: set<Column>)
  {
    forall c :: c in cols ==> Cell(r, c).Some?
  }

  /** `df.dropna(subset=cols)`: the rows defined on `cols`, in order. */
  function DropUndefined(rows: seq<Row>, cols: set<Column>): (clean: seq<Row>)
    ensures |clean| <= |rows|
    ensures forall r :: r in clean ==> r in rows && DefinedOn(r, cols)
    ensures forall r :: r in rows && DefinedOn(r, cols) ==> r in clean
  {
    if |rows| == 0 then []
    else
      var front := DropUndefined(rows[..|rows| - 1], cols);
      var last := rows[|rows| - 1];
      assert rows == rows[..|rows| - 1] + [last];
      if DefinedOn(last, cols) then front + [last] else front
  }

  /** Undefined rows appended at the end are all dropped. */
  lemma {:induction false} DropUndefinedTrailing(rows: seq<Row>, extra: seq<Row>, cols: set<Column>)
    requires forall j :: 0 <= j < |extra| ==> !DefinedOn(extra[j], cols)
    ensures DropUndefined(rows + extra, cols) == DropUndefined(rows, cols)
    decreases |extra|
  {
    if |extra| > 0 {
      var shorter := extra[..|extra| - 1];
      DropUndefinedTrailing(rows, shorter, cols);
      var all := rows + extra;
      assert all[..|all| - 1] == rows + shorter;
      assert all[|all| - 1] == extra[|extra| - 1];
    } else {
      assert rows + extra == rows;
    }
  }

  /** Nothing is kept exactly when no row is defined on `cols`. */
  lemma DropUndefinedEmpty(rows: seq<Row>, cols: set<Column>)
    ensures |DropUndefined(rows, cols)| == 0 <==>
      forall j :: 0 <= j < |rows| ==> !DefinedOn(rows[j], cols)
  {
    var clean := DropUndefined(rows, cols);
    if |clean| > 0 {
      assert clean[0] in clean;
    } else {
      forall j | 0 <= j < |rows| ensures !DefinedOn(rows[j], cols) {
        assert rows[j] in rows;
      }
    }
  }

  /** The position of the last row defined on `cols`, if there is one. */
  function LastDefined(rows: seq<Row>, cols: set<Column>): (k: Option<nat>)
    ensures k.Some? ==> k.value < |rows| && DefinedOn(rows[k.value], cols)
    ensures k.Some? ==> forall j :: k.value < j < |rows| ==> !DefinedOn(rows[j], cols)
    ensures k.None? ==> forall j :: 0 <= j < |rows| ==> !DefinedOn(rows[j], cols)
  {
    if |rows| == 0 then None
    else if DefinedOn(rows[|rows| - 1], cols) then Some(|rows| - 1)
    else LastDefined(rows[..|rows| - 1], cols)
  }

  /** Dropping the undefined rows and taking the last one left (`iloc[-1]`)
      picks the last defined row of the whole frame. */
  lemma {:induction false} DropUndefinedLast(rows: seq<Row>, cols: set<Column>)
    ensures DropUndefined(rows, cols) == [] <==> LastDefined(rows, cols).None?
    ensures DropUndefined(rows, cols) != [] ==>
      var clean := DropUndefined(rows, cols);
      clean[|clean| - 1] == rows[LastDefined(rows, cols).value]
  {
    if |rows| > 0 && !DefinedOn(rows[|rows| - 1], cols) {
      DropUndefinedLast(rows[..|rows| - 1], cols);
    }
  }

  predicate Increasing(positions: seq<nat>)
  {
    forall a, b :: 0 <= a < b < |positions| ==> positions[a] < positions[b]
  }

  /** The positions of the rows `dropna(subset=cols)` keeps, in order. */
  method DefinedPositions(rows: seq<Row>, cols: set<Column>) returns (kept: seq<nat>)
    ensures Increasing(kept)
    ensures forall a :: 0 <= a < |kept| ==> kept[a] < |rows| && DefinedOn(rows[kept[a]], cols)
    ensures forall j :: 0 <= j < |rows| && DefinedOn(rows[j], cols) ==> j in kept
  {
    kept := [];
    for i := 0 to |rows|
      invariant Increasing(kept)
      invariant forall a :: 0 <= a < |kept| ==> kept[a] < i && DefinedOn(rows[kept[a]], cols)
      invariant forall j :: 0 <= j < i && DefinedOn(rows[j], cols) ==> j in kept
    {
      if DefinedOn(rows[i], cols) {
        kept := kept + [i];
      }
    }
  }
}
