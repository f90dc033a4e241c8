/** The indicator recurrences both scanner variants compute with the same
    pandas calls: `ewm(span=n, adjust=False).mean()` for the EMAs, and
    `diff`, `where` and `rolling(14).mean()` for the RSI averages.
    Everything here is a function of the close series, indexed by bar. */
module Indicators {
  import opened Frames

  // ---------------------------------------------------------------------
  // Exponential moving average, `ewm(span=n, adjust=False).mean()`
  // ---------------------------------------------------------------------

  /** The smoothing factor pandas derives from a span: 2 / (span + 1). */
  function Alpha(span: nat): (a: real)
    requires span >= 1
    ensures 0.0 < a <= 1.0
  {
    2.0 / (span as real + 1.0)
  }

  /** One step of the recursive (`adjust=False`) EMA. With a factor in
      [0, 1] it is a convex combination, so the new value lies between the
      previous value and the close. */
  function Smooth(prev: real, close: real, alpha: real): (next: real)
    ensures 0.0 <= alpha <= 1.0 ==> prev <= next <= close || close <= next <= prev
  {
    var next := prev + alpha * (close - prev);
    if 0.0 <= alpha <= 1.0 then
      StepBetween(prev, close, alpha, next);
      next
    else
      next
  }

  /** Moving from prev towards close by a factor in [0, 1] stays between them. */
  lemma StepBetween(prev: real, close: real, a: real, next: real)
    requires 0.0 <= a <= 1.0 && next == prev + a * (close - prev)
    ensures prev <= next <= close || close <= next <= prev
  {
    var d := close - prev;
    if d >= 0.0 {
      NonNegativeProduct(a, d);
      NonNegativeProduct(1.0 - a, d);
      assert prev <= prev + a * d <= close;
    } else {
      NonNegativeProduct(a, -d);
      NonNegativeProduct(1.0 - a, -d);
      assert close <= prev + a * d <= prev;
    }
  }

  lemma NonNegativeProduct(x: real, y: real)
    requires x >= 0.0 && y >= 0.0
    ensures x * y >= 0.0
  {
  }

  /** The EMA column of `closes`: seeded with the first close, then one
      `Smooth` step per bar. */
  function Ema(closes: seq<real>, span: nat): (e: seq<real>)
    requires span >= 1
    ensures |e| == |closes|
    decreases |closes|
  {
    if |closes| == 0 then []
    else if |closes| == 1 then [closes[0]]
    else
      var prev := Ema(closes[..|closes| - 1], span);
      prev + [Smooth(prev[|prev| - 1], closes[|closes| - 1], Alpha(span))]
  }

  /** The EMA of bar i only depends on the closes up to bar i. */
  lemma {:induction false} EmaPrefix(closes: seq<real>, span: nat, k: nat)
    requires span >= 1 && k <= |closes|
    ensures Ema(closes, span)[..k] == Ema(closes[..k], span)
    decreases |closes|
  {
    var n := |closes|;
    if k == n {
      assert closes[..k] == closes;
    } else if n == 1 {
      assert k == 0;
    } else {
      var front := closes[..n - 1];
      assert Ema(closes, span)[..n - 1] == Ema(front, span);
      EmaPrefix(front, span, k);
      assert front[..k] == closes[..k];
    }
  }

  /** Bar 0 of every EMA column is the first close. */
  lemma EmaSeed(closes: seq<real>, span: nat)
    requires span >= 1 && |closes| > 0
    ensures Ema(closes, span)[0] == closes[0]
  {
    EmaPrefix(closes, span, 1);
    assert Ema(closes, span)[0] == Ema(closes, span)[..1][0];
  }

  /** After bar 0 every EMA value is `e[i-1] + 2/(span+1) * (c[i] - e[i-1])`. */
  lemma EmaStep(closes: seq<real>, span: nat, i: nat)
    requires span >= 1 && 0 < i < |closes|
    ensures Ema(closes, span)[i] ==
            Smooth(Ema(closes, span)[i - 1], closes[i], Alpha(span))
  {
    var e := Ema(closes, span);
    var upto := closes[..i + 1];
    EmaPrefix(closes, span, i + 1);
    assert upto[..i] == closes[..i];
    assert upto[i] == closes[i];
    var prev := Ema(upto[..i], span);
    assert Ema(upto, span) == prev + [Smooth(prev[i - 1], closes[i], Alpha(span))];
    assert e[i] == e[..i + 1][i];
    EmaPrefix(closes, span, i);
    assert e[i - 1] == e[..i][i - 1];
  }

  /** Every EMA value lies in any interval that holds all closes seen so far. */
  lemma {:induction false} EmaWithin(closes: seq<real>, span: nat, i: nat, lo: real, hi: real)
    requires span >= 1 && i < |closes|
    requires forall j :: 0 <= j <= i ==> lo <= closes[j] <= hi
    ensures lo <= Ema(closes, span)[i] <= hi
  {
    if i == 0 {
      EmaSeed(closes, span);
    } else {
      EmaWithin(closes, span, i - 1, lo, hi);
      EmaStep(closes, span, i);
    }
  }

  /** The smallest value of a non-empty sequence. */
  function Lowest(s: seq<real>): (m: real)
    requires |s| > 0
    ensures m in s
    ensures forall j :: 0 <= j < |s| ==> m <= s[j]
  {
    if |s| == 1 then s[0]
    else
      var front := Lowest(s[..|s| - 1]);
      assert s == s[..|s| - 1] + [s[|s| - 1]];
      if s[|s| - 1] < front then s[|s| - 1] else front
  }

  /** The largest value of a non-empty sequence. */
  function Highest(s: seq<real>): (m: real)
    requires |s| > 0
    ensures m in s
    ensures forall j :: 0 <= j < |s| ==> s[j] <= m
  {
    if |s| == 1 then s[0]
    else
      var front := Highest(s[..|s| - 1]);
      assert s == s[..|s| - 1] + [s[|s| - 1]];
      if s[|s| - 1] > front then s[|s| - 1] else front
  }

  /** The EMA at bar i is between the lowest and highest close of bars 0..i. */
  lemma EmaBetweenExtremes(closes: seq<real>, span: nat, i: nat)
    requires span >= 1 && i < |closes|
    ensures Lowest(closes[..i + 1]) <= Ema(closes, span)[i] <= Highest(closes[..i + 1])
  {
    var seen := closes[..i + 1];
    forall j | 0 <= j <= i
      ensures Lowest(seen) <= closes[j] <= Highest(seen)
    {
      assert closes[j] == seen[j];
    }
    EmaWithin(closes, span, i, Lowest(seen), Highest(seen));
  }

  /** On a constant series every EMA value is that constant. */
  lemma EmaOfConstant(closes: seq<real>, span: nat, x: real, i: nat)
    requires span >= 1 && i < |closes|
    requires forall j :: 0 <= j < |closes| ==> closes[j] == x
    ensures Ema(closes, span)[i] == x
  {
    EmaWithin(closes, span, i, x, x);
  }

  /** `ema12 - ema26`, one value per bar. */
  function MacdLine(closes: seq<real>): (m: seq<real>)
    ensures |m| == |closes|
  {
    var fast := Ema(closes, 12);
    var slow := Ema(closes, 26);
    seq(|closes|, i requires 0 <= i < |closes| => fast[i] - slow[i])
  }

  /** On a constant series MACD is 0 on every bar. */
  lemma MacdOfConstant(closes: seq<real>, x: real, i: nat)
    requires i < |closes|
    requires forall j :: 0 <= j < |closes| ==> closes[j] == x
    ensures MacdLine(closes)[i] == 0.0
  {
    EmaOfConstant(closes, 12, x, i);
    EmaOfConstant(closes, 26, x, i);
  }

  // ---------------------------------------------------------------------
  // Gains, losses and their 14-bar rolling means
  // ---------------------------------------------------------------------

  /** Length of the RSI window, `rolling(14)`. */
  const RsiWindow: nat := 14

  /** `Close.diff()`: undefined at bar 0, `c[i] - c[i-1]` after it. */
  function Diff(closes: seq<real>): (d: seq<Option<real>>)
    ensures |d| == |closes|
  {
    seq(|closes|, i requires 0 <= i < |closes| =>
      if i == 0 then None else Some(closes[i] - closes[i - 1]))
  }

  /** `delta.where(delta > 0, 0)` on one cell: an undefined delta fails the test. */
  function GainOf(d: Option<real>): real
  {
    if d.Some? && d.value > 0.0 then d.value else 0.0
  }

  /** `-delta.where(delta < 0, 0)` on one cell. */
  function LossOf(d: Option<real>): real
  {
    -(if d.Some? && d.value < 0.0 then d.value else 0.0)
  }

  function Gains(closes: seq<real>): (g: seq<real>)
    ensures |g| == |closes|
  {
    var d := Diff(closes);
    seq(|closes|, i requires 0 <= i < |closes| => GainOf(d[i]))
  }

  function Losses(closes: seq<real>): (l: seq<real>)
    ensures |l| == |closes|
  {
    var d := Diff(closes);
    seq(|closes|, i requires 0 <= i < |closes| => LossOf(d[i]))
  }

  /** Bar 0 has no gain and no loss; after it the gain is the rise and the
      loss the fall since the previous close, both never negative. */
  lemma GainLossAt(closes: seq<real>, i: nat)
    requires i < |closes|
    ensures Gains(closes)[i] >= 0.0 && Losses(closes)[i] >= 0.0
    ensures i == 0 ==> Gains(closes)[i] == 0.0 && Losses(closes)[i] == 0.0
    ensures i > 0 ==> Gains(closes)[i] - Losses(closes)[i] == closes[i] - closes[i - 1]
    ensures Gains(closes)[i] > 0.0 <==> i > 0 && closes[i - 1] < closes[i]
    ensures Losses(closes)[i] > 0.0 <==> i > 0 && closes[i] < closes[i - 1]
  {
  }

  function Sum(xs: seq<real>): real
  {
    if |xs| == 0 then 0.0 else Sum(xs[..|xs| - 1]) + xs[|xs| - 1]
  }

  /** A sum of values that are never negative is never negative, and it is
      0 exactly when every value is 0. */
  lemma {:induction false} SumOfNonNegative(xs: seq<real>)
    requires forall j :: 0 <= j < |xs| ==> xs[j] >= 0.0
    ensures Sum(xs) >= 0.0
    ensures Sum(xs) == 0.0 <==> forall j :: 0 <= j < |xs| ==> xs[j] == 0.0
  {
    if |xs| > 0 {
      var front := xs[..|xs| - 1];
      SumOfNonNegative(front);
      assert forall j :: 0 <= j < |front| ==> front[j] == xs[j];
    }
  }

  /** `rolling(14).mean()` at bar i: undefined for the first 13 bars. */
  function RollingMean(xs: seq<real>, i: nat): (m: Option<real>)
    requires i < |xs|
    ensures m.Some? <==> i >= RsiWindow - 1
  {
    if i + 1 < RsiWindow then None
    else Some(Sum(xs[i + 1 - RsiWindow..i + 1]) / RsiWindow as real)
  }

  /** `gain.rolling(14).mean()` at bar i: defined from bar 13 on, never negative. */
  function AvgGain(closes: seq<real>, i: nat): (g: Option<real>)
    requires i < |closes|
    ensures g.Some? <==> i >= RsiWindow - 1
    ensures g.Some? ==> g.value >= 0.0
  {
    if i < RsiWindow - 1 then RollingMean(Gains(closes), i)
    else
      GainWindow(closes, i);
      RollingMean(Gains(closes), i)
  }

  /** `loss.rolling(14).mean()` at bar i: defined from bar 13 on, never negative. */
  function AvgLoss(closes: seq<real>, i: nat): (l: Option<real>)
    requires i < |closes|
    ensures l.Some? <==> i >= RsiWindow - 1
    ensures l.Some? ==> l.value >= 0.0
  {
    if i < RsiWindow - 1 then RollingMean(Losses(closes), i)
    else
      LossWindow(closes, i);
      RollingMean(Losses(closes), i)
  }

  /** The bars whose close-to-close move lands in the window ending at i. */
  predicate InWindow(i: int, j: int)
  {
    i + 1 - RsiWindow <= j <= i && j >= 1
  }

  /** Both averages are defined exactly from bar 13 on and are never
      negative; the average loss is 0 exactly when no close in the window
      falls, and the average gain is 0 exactly when none rises. */
  lemma Averages(closes: seq<real>, i: nat)
    requires i < |closes|
    ensures AvgGain(closes, i).Some? <==> i >= RsiWindow - 1
    ensures AvgLoss(closes, i).Some? <==> i >= RsiWindow - 1
    ensures AvgGain(closes, i).Some? ==> AvgGain(closes, i).value >= 0.0
    ensures AvgLoss(closes, i).Some? ==> AvgLoss(closes, i).value >= 0.0
    ensures AvgLoss(closes, i) == Some(0.0) <==>
      i >= RsiWindow - 1 && forall j: int :: InWindow(i, j) ==> closes[j - 1] <= closes[j]
    ensures AvgGain(closes, i) == Some(0.0) <==>
      i >= RsiWindow - 1 && forall j: int :: InWindow(i, j) ==> closes[j] <= closes[j - 1]
  {
    if i >= RsiWindow - 1 {
      LossWindow(closes, i);
      GainWindow(closes, i);
    }
  }

  /** The window of losses ending at bar i sums to a value that is never
      negative, and to 0 exactly when no close in the window falls. */
  lemma LossWindow(closes: seq<real>, i: nat)
    requires RsiWindow - 1 <= i < |closes|
    ensures Sum(Losses(closes)[i + 1 - RsiWindow..i + 1]) >= 0.0
    ensures Sum(Losses(closes)[i + 1 - RsiWindow..i + 1]) == 0.0 <==>
            forall j: int :: InWindow(i, j) ==> closes[j - 1] <= closes[j]
  {
    var lo := i + 1 - RsiWindow;
    var l := Losses(closes)[lo..i + 1];
    forall t | 0 <= t < |l|
      ensures l[t] >= 0.0
      ensures l[t] > 0.0 <==> lo + t > 0 && closes[lo + t] < closes[lo + t - 1]
    {
      GainLossAt(closes, lo + t);
    }
    SumOfNonNegative(l);
    if !forall j: int :: InWindow(i, j) ==> closes[j - 1] <= closes[j] {
      var j: int :| InWindow(i, j) && closes[j] < closes[j - 1];
      assert l[j - lo] > 0.0;
    }
  }

  /** The window of gains ending at bar i sums to a value that is never
      negative, and to 0 exactly when no close in the window rises. */
  lemma GainWindow(closes: seq<real>, i: nat)
    requires RsiWindow - 1 <= i < |closes|
    ensures Sum(Gains(closes)[i + 1 - RsiWindow..i + 1]) >= 0.0
    ensures Sum(Gains(closes)[i + 1 - RsiWindow..i + 1]) == 0.0 <==>
            forall j: int :: InWindow(i, j) ==> closes[j] <= closes[j - 1]
  {
    var lo := i + 1 - RsiWindow;
    var g := Gains(closes)[lo..i + 1];
    forall t | 0 <= t < |g|
      ensures g[t] >= 0.0
      ensures g[t] > 0.0 <==> lo + t > 0 && closes[lo + t - 1] < closes[lo + t]
    {
      GainLossAt(closes, lo + t);
    }
    SumOfNonNegative(g);
    if !forall j: int :: InWindow(i, j) ==> closes[j] <= closes[j - 1] {
      var j: int :| InWindow(i, j) && closes[j - 1] < closes[j];
      assert g[j - lo] > 0.0;
    }
  }

  /** `100 - 100 / (1 + rs)` with `rs = gain / loss` for a positive loss:
      always in [0, 100), and above 0 exactly when the average gain is. */
  function RsiValue(gain: real, loss: real): (r: real)
    requires gain >= 0.0 && loss > 0.0
    ensures 0.0 <= r < 100.0
    ensures r > 0.0 <==> gain > 0.0
  {
    var rs := gain / loss;
    assert rs >= 0.0;
    assert rs > 0.0 <==> gain > 0.0;
    100.0 - 100.0 / (1.0 + rs)
  }
}
