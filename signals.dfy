/**
 * The signal pipeline of the backtest: Bollinger-band trend starts on the
 * 30-minute frame, entry-eligibility windows carried onto the 3-minute frame,
 * and the EMA-gated entry signal. Indicator values come from a foreign library
 * and are taken as given, `None` during their warm-up.
 */
module Signals {
  import opened Wrappers
  import opened Frames

  /** Length of one trend-timeframe bar, in minutes. */
  const M30Minutes: int := 30

  /** A 30-minute row with its `bb_upper` and `bb_lower` columns. */
  datatype BandBar = BandBar(bar: Bar, upper: Option<real>, lower: Option<real>)

  /** A 30-minute row after trend detection. */
  datatype TrendRow = TrendRow(row: BandBar, uptrendStart: bool, downtrendStart: bool)

  datatype Direction = Uptrend | Downtrend

  /**
   * The three eligibility columns of a 3-minute row; the source always writes
   * `eligible_for_entry`, `entry_direction` and `triggering_m30_bar` together.
   */
  datatype Eligibility = Ineligible | Eligible(direction: Direction, trigger: int)

  datatype MarkedBar = MarkedBar(bar: Bar, eligibility: Eligibility)

  /** A 3-minute row after signal generation: its `ema` and `entry_signal` columns. */
  datatype EntryRow = EntryRow(marked: MarkedBar, ema: Option<real>, entrySignal: int)

  datatype SignalError =
    | UnsortedIndex     // the assertion on a sorted index fails
    | EmptyEntryFrame   // `m3_df.index[-1]` on an empty frame

  function BandTime(b: BandBar): int { b.bar.time }
  function TrendTime(t: TrendRow): int { t.row.bar.time }

  // ---------------------------------------------------------------- shift-and-compare

  /** `series.shift(1)`: every value moves one row down, the first becomes missing. */
  function Shift(xs: seq<Option<real>>): (r: seq<Option<real>>)
    ensures |r| == |xs|
    ensures |xs| > 0 ==> r[0] == None
    ensures forall i :: 0 < i < |xs| ==> r[i] == xs[i - 1]
  {
    if |xs| == 0 then [] else [None] + xs[..|xs| - 1]
  }

  /** Element-wise comparison as pandas does it: false when either side is missing. */
  predicate Below(a: Option<real>, b: Option<real>) {
    a.Some? && b.Some? && a.value < b.value
  }

  predicate Above(a: Option<real>, b: Option<real>) {
    a.Some? && b.Some? && a.value > b.value
  }

  function Offset(a: Option<real>, d: real): Option<real> {
    match a
    case None => None
    case Some(v) => Some(v + d)
  }

  // ---------------------------------------------------------------- trend detection

  /**
   * `detect_bb_trends_with_volume`: an uptrend starts where the previous close
   * was under the previous lower band, the current close is back above that same
   * previous band value, and volume strictly exceeds the uptrend threshold; a
   * downtrend start mirrors this on the previous upper band. The current bar's
   * bands are never consulted.
   */
  function DetectTrends(rows: seq<BandBar>, uptrendVolThreshold: real, downtrendVolThreshold: real)
    : (r: Result<seq<TrendRow>, SignalError>)
    ensures r.Failure? <==> !SortedBy(rows, BandTime)
    ensures r.Success? ==> |r.value| == |rows|
    ensures r.Success? ==> forall i :: 0 <= i < |rows| ==> r.value[i].row == rows[i]
    ensures r.Success? ==> forall i :: 0 <= i < |rows| ==>
      (r.value[i].uptrendStart <==>
        i > 0 && rows[i - 1].lower.Some?
        && rows[i - 1].bar.close < rows[i - 1].lower.value
        && rows[i].bar.close > rows[i - 1].lower.value
        && rows[i].bar.volume > uptrendVolThreshold)
    ensures r.Success? ==> forall i :: 0 <= i < |rows| ==>
      (r.value[i].downtrendStart <==>
        i > 0 && rows[i - 1].upper.Some?
        && rows[i - 1].bar.close > rows[i - 1].upper.value
        && rows[i].bar.close < rows[i - 1].upper.value
        && rows[i].bar.volume > downtrendVolThreshold)
  {
    if !SortedBy(rows, BandTime) then Failure(UnsortedIndex)
    else
      var up := UptrendMask(rows, uptrendVolThreshold);
      var down := DowntrendMask(rows, downtrendVolThreshold);
      Success(seq(|rows|, i requires 0 <= i < |rows| => TrendRow(rows[i], up[i], down[i])))
  }

  function CloseColumn(rows: seq<BandBar>): (c: seq<Option<real>>)
    ensures |c| == |rows| && forall i :: 0 <= i < |rows| ==> c[i] == Some(rows[i].bar.close)
  {
    seq(|rows|, i requires 0 <= i < |rows| => Some(rows[i].bar.close))
  }

  function LowerColumn(rows: seq<BandBar>): (c: seq<Option<real>>)
    ensures |c| == |rows| && forall i :: 0 <= i < |rows| ==> c[i] == rows[i].lower
  {
    seq(|rows|, i requires 0 <= i < |rows| => rows[i].lower)
  }

  function UpperColumn(rows: seq<BandBar>): (c: seq<Option<real>>)
    ensures |c| == |rows| && forall i :: 0 <= i < |rows| ==> c[i] == rows[i].upper
  {
    seq(|rows|, i requires 0 <= i < |rows| => rows[i].upper)
  }

  /** The `uptrend_start` column: previous close under the previous lower band, close back above it. */
  function UptrendMask(rows: seq<BandBar>, threshold: real): (m: seq<bool>)
    ensures |m| == |rows|
    ensures forall i :: 0 <= i < |rows| ==>
      (m[i] <==>
        i > 0 && rows[i - 1].lower.Some?
        && rows[i - 1].bar.close < rows[i - 1].lower.value
        && rows[i].bar.close > rows[i - 1].lower.value
        && rows[i].bar.volume > threshold)
  {
    var close := CloseColumn(rows);
    var prevClose := Shift(close);
    var prevLower := Shift(LowerColumn(rows));
    seq(|rows|, i requires 0 <= i < |rows| =>
      Below(prevClose[i], prevLower[i]) && Above(close[i], prevLower[i]) && rows[i].bar.volume > threshold)
  }

  /** The `downtrend_start` column: previous close over the previous upper band, close back under it. */
  function DowntrendMask(rows: seq<BandBar>, threshold: real): (m: seq<bool>)
    ensures |m| == |rows|
    ensures forall i :: 0 <= i < |rows| ==>
      (m[i] <==>
        i > 0 && rows[i - 1].upper.Some?
        && rows[i - 1].bar.close > rows[i - 1].upper.value
        && rows[i].bar.close < rows[i - 1].upper.value
        && rows[i].bar.volume > threshold)
  {
    var close := CloseColumn(rows);
    var prevClose := Shift(close);
    var prevUpper := Shift(UpperColumn(rows));
    seq(|rows|, i requires 0 <= i < |rows| =>
      Above(prevClose[i], prevUpper[i]) && Below(close[i], prevUpper[i]) && rows[i].bar.volume > threshold)
  }

  /** With well-ordered previous bands, a bar never starts both trends. */
  lemma TrendStartsExclusive(rows: seq<BandBar>, upTh: real, downTh: real, i: nat)
    requires DetectTrends(rows, upTh, downTh).Success?
    requires 0 < i < |rows|
    requires rows[i - 1].lower.Some? && rows[i - 1].upper.Some?
    requires rows[i - 1].lower.value <= rows[i - 1].upper.value
    ensures var t := DetectTrends(rows, upTh, downTh).value[i];
      !(t.uptrendStart && t.downtrendStart)
  {
  }

  // ---------------------------------------------------------------- eligibility windows

  /** The 30-minute rows where either trend flag is set, in frame order. */
  function TrendSignals(rows: seq<TrendRow>): (r: seq<TrendRow>)
    ensures |r| <= |rows|
    ensures forall k :: 0 <= k < |r| ==> r[k].uptrendStart || r[k].downtrendStart
    ensures r == [] <==> forall k :: 0 <= k < |rows| ==> !rows[k].uptrendStart && !rows[k].downtrendStart
    ensures SortedBy(rows, TrendTime) ==> SortedBy(r, TrendTime)
    ensures |r| > 0 ==> exists k :: 0 <= k < |rows| && r[0] == rows[k]
  {
    if |rows| == 0 then []
    else
      var rest := TrendSignals(rows[1..]);
      assert forall k :: 0 < k < |rows| ==> rows[k] == rows[1..][k - 1];
      if rows[0].uptrendStart || rows[0].downtrendStart then [rows[0]] + rest else rest
  }

  /** The row starts a trend in either direction, as the selection of signals tests it. */
  predicate IsTrendStart(r: TrendRow) {
    r.uptrendStart || r.downtrendStart
  }

  /** The number of trend-start rows in `rows`. */
  function StartCount(rows: seq<TrendRow>): nat {
    if |rows| == 0 then 0 else (if IsTrendStart(rows[0]) then 1 else 0) + StartCount(rows[1..])
  }

  /** Flagged row `k` is selected, at the position counting the flagged rows before it. */
  lemma {:induction false} TrendSignalsSelectsStart(rows: seq<TrendRow>, k: nat)
    requires k < |rows| && IsTrendStart(rows[k])
    ensures StartCount(rows[..k]) < |TrendSignals(rows)|
    ensures TrendSignals(rows)[StartCount(rows[..k])] == rows[k]
  {
    var rest := rows[1..];
    if k == 0 {
      assert rows[..0] == [];
    } else {
      TrendSignalsSelectsStart(rest, k - 1);
      assert rows[..k][1..] == rest[..k - 1];
      assert rows[k] == rest[k - 1];
    }
  }

  /** The selection has one entry per flagged row. */
  lemma {:induction false} TrendSignalsCountsStarts(rows: seq<TrendRow>)
    ensures |TrendSignals(rows)| == StartCount(rows)
  {
    if |rows| > 0 {
      TrendSignalsCountsStarts(rows[1..]);
    }
  }

  /**
   * The selection is exactly the flagged rows in frame order: it has one entry
   * per flagged row, and flagged row `k` sits at the position counting the
   * flagged rows before it, so distinct flagged rows fill distinct positions
   * in their frame order.
   */
  lemma TrendSignalsSelectsEveryStart(rows: seq<TrendRow>)
    ensures |TrendSignals(rows)| == StartCount(rows)
    ensures forall k :: 0 <= k < |rows| && IsTrendStart(rows[k]) ==>
      StartCount(rows[..k]) < |TrendSignals(rows)| && TrendSignals(rows)[StartCount(rows[..k])] == rows[k]
  {
    TrendSignalsCountsStarts(rows);
    forall k | 0 <= k < |rows| && IsTrendStart(rows[k])
      ensures StartCount(rows[..k]) < |TrendSignals(rows)| && TrendSignals(rows)[StartCount(rows[..k])] == rows[k]
    {
      TrendSignalsSelectsStart(rows, k);
    }
  }

  /** `'uptrend' if uptrend_start else 'downtrend'`: the up flag wins a tie. */
  function SignalDirection(s: TrendRow): Direction {
    if s.uptrendStart then Uptrend else Downtrend
  }

  /** The next signal's time, or the last 3-minute timestamp after the final signal. */
  function WindowEnd(signals: seq<TrendRow>, k: nat, last: int): int
    requires k < |signals|
  {
    if k + 1 < |signals| then TrendTime(signals[k + 1]) else last
  }

  /** Bar time `t` lies in signal `k`'s window `[t_k + 30, end_k)`. */
  predicate InWindow(signals: seq<TrendRow>, k: nat, last: int, t: int)
    requires k < |signals|
  {
    TrendTime(signals[k]) + M30Minutes <= t < WindowEnd(signals, k, last)
  }

  /** The eligibility of a bar at time `t` once the first `n` signals have been applied. */
  function MarkAfter(signals: seq<TrendRow>, last: int, t: int, n: nat): Eligibility
    requires n <= |signals|
  {
    if n == 0 then Ineligible
    else if InWindow(signals, n - 1, last, t) then
      Eligible(SignalDirection(signals[n - 1]), TrendTime(signals[n - 1]))
    else MarkAfter(signals, last, t, n - 1)
  }

  /**
   * The eligibility the marking loop leaves on a bar at time `t`: none when no
   * window holds the bar, otherwise the mark of a window that does.
   */
  function EligibilityAt(signals: seq<TrendRow>, last: int, t: int): (r: Eligibility)
    ensures r == Ineligible <==> forall k :: 0 <= k < |signals| ==> !InWindow(signals, k, last, t)
    ensures r.Eligible? ==>
      exists k :: (0 <= k < |signals| && InWindow(signals, k, last, t)
        && r == Eligible(SignalDirection(signals[k]), TrendTime(signals[k])))
  {
    MarkAfterInWindow(signals, last, t, |signals|);
    MarkAfter(signals, last, t, |signals|)
  }

  function LastTime(bars: seq<Bar>): int {
    if |bars| == 0 then 0 else bars[|bars| - 1].time
  }

  function Attach(bars: seq<Bar>, marks: seq<Eligibility>): (r: seq<MarkedBar>)
    requires |marks| == |bars|
    ensures |r| == |bars|
    ensures forall j :: 0 <= j < |r| ==> r[j] == MarkedBar(bars[j], marks[j])
  {
    seq(|bars|, j requires 0 <= j < |bars| => MarkedBar(bars[j], marks[j]))
  }

  /**
   * `mark_m3_entry_eligibility`: both frames are sorted copies; for each
   * 30-minute signal in turn, every 3-minute bar in its window is overwritten
   * with the signal's direction and time.
   */
  method MarkEntryEligibility(m3: seq<Bar>, m30: seq<TrendRow>) returns (r: Result<seq<MarkedBar>, SignalError>)
    ensures var bars := SortBy(m3, BarTime);
      var signals := TrendSignals(SortBy(m30, TrendTime));
      && (r.Failure? <==> |m3| == 0 && |signals| > 0)
      && (r.Failure? ==> r.error == EmptyEntryFrame)
      && (r.Success? ==>
        && |r.value| == |m3|
        && (forall j :: 0 <= j < |m3| ==> r.value[j].bar == bars[j])
        && (forall j :: 0 <= j < |m3| ==>
              r.value[j].eligibility == EligibilityAt(signals, LastTime(bars), bars[j].time))
        && (|signals| == 0 ==> forall j :: 0 <= j < |m3| ==> r.value[j].eligibility == Ineligible))
  {
    var bars := SortBy(m3, BarTime);
    var trend := SortBy(m30, TrendTime);
    var signals := TrendSignals(trend);
    if |signals| > 0 && |bars| == 0 {
      return Failure(EmptyEntryFrame);
    }
    var marks := MarkWindows(bars, signals, LastTime(bars));
    return Success(Attach(bars, marks));
  }

  /**
   * The marking loop of `mark_m3_entry_eligibility`: the eligibility columns
   * start cleared and each signal's window mask overwrites them in place.
   */
  method MarkWindows(bars: seq<Bar>, signals: seq<TrendRow>, last: int) returns (marks: seq<Eligibility>)
    ensures |marks| == |bars|
    ensures forall j :: 0 <= j < |bars| ==> marks[j] == EligibilityAt(signals, last, bars[j].time)
  {
    var column := new Eligibility[|bars|](_ => Ineligible);
    var k := 0;
    while k < |signals|
      invariant 0 <= k <= |signals|
      invariant forall j :: 0 <= j < column.Length ==> column[j] == MarkAfter(signals, last, bars[j].time, k)
    {
      var signalTime := TrendTime(signals[k]);
      var endTime := if k + 1 < |signals| then TrendTime(signals[k + 1]) else last;
      var direction := SignalDirection(signals[k]);
      var windowStart := signalTime + M30Minutes;
      forall j | 0 <= j < column.Length && windowStart <= bars[j].time < endTime {
        column[j] := Eligible(direction, signalTime);
      }
      k := k + 1;
    }
    marks := column[..];
  }

  /** What the first `n` signals leave on a bar: nothing, or the mark of a window holding it. */
  lemma {:induction false} MarkAfterInWindow(signals: seq<TrendRow>, last: int, t: int, n: nat)
    requires n <= |signals|
    ensures MarkAfter(signals, last, t, n) == Ineligible <==>
      forall k :: 0 <= k < n ==> !InWindow(signals, k, last, t)
    ensures MarkAfter(signals, last, t, n).Eligible? ==>
      exists k :: 0 <= k < n && InWindow(signals, k, last, t)
        && MarkAfter(signals, last, t, n) == Eligible(SignalDirection(signals[k]), TrendTime(signals[k]))
  {
    if n > 0 {
      MarkAfterInWindow(signals, last, t, n - 1);
    }
  }

  /** Between sorted signals, two different windows never share a bar. */
  lemma WindowsDisjoint(signals: seq<TrendRow>, last: int, j: nat, k: nat, t: int)
    requires SortedBy(signals, TrendTime)
    requires j < k < |signals|
    ensures !(InWindow(signals, j, last, t) && InWindow(signals, k, last, t))
  {
    assert TrendTime(signals[j + 1]) <= TrendTime(signals[k]);
  }

  /** A bar inside window `k` carries exactly that window's direction and trigger. */
  lemma {:induction false} MarkAfterOfWindow(signals: seq<TrendRow>, last: int, t: int, k: nat, n: nat)
    requires SortedBy(signals, TrendTime)
    requires k < n <= |signals|
    requires InWindow(signals, k, last, t)
    ensures MarkAfter(signals, last, t, n) == Eligible(SignalDirection(signals[k]), TrendTime(signals[k]))
  {
    if n - 1 > k {
      WindowsDisjoint(signals, last, k, n - 1, t);
      MarkAfterOfWindow(signals, last, t, k, n - 1);
    }
  }

  /**
   * The windows partition the eligible bars: a bar is eligible iff some window
   * holds it, and then it carries that window's direction and trigger time.
   */
  lemma EligibilityIsTheWindow(signals: seq<TrendRow>, last: int, t: int)
    requires SortedBy(signals, TrendTime)
    ensures EligibilityAt(signals, last, t).Eligible? <==>
      exists k :: 0 <= k < |signals| && InWindow(signals, k, last, t)
    ensures forall k :: 0 <= k < |signals| && InWindow(signals, k, last, t) ==>
      EligibilityAt(signals, last, t) == Eligible(SignalDirection(signals[k]), TrendTime(signals[k]))
  {
    MarkAfterInWindow(signals, last, t, |signals|);
    forall k | 0 <= k < |signals| && InWindow(signals, k, last, t)
      ensures EligibilityAt(signals, last, t) == Eligible(SignalDirection(signals[k]), TrendTime(signals[k]))
    {
      MarkAfterOfWindow(signals, last, t, k, |signals|);
    }
  }

  /** An eligible bar triggered at `trig` lies in `[trig + 30, next signal)`, or before the last M3 bar. */
  lemma EligibleBarBounds(signals: seq<TrendRow>, last: int, t: int)
    requires SortedBy(signals, TrendTime)
    requires EligibilityAt(signals, last, t).Eligible?
    ensures exists k :: (0 <= k < |signals|
      && EligibilityAt(signals, last, t).trigger == TrendTime(signals[k])
      && EligibilityAt(signals, last, t).direction == SignalDirection(signals[k])
      && TrendTime(signals[k]) + M30Minutes <= t
      && (k + 1 < |signals| ==> t < TrendTime(signals[k + 1]))
      && (k + 1 == |signals| ==> t < last))
  {
    MarkAfterInWindow(signals, last, t, |signals|);
    var k :| 0 <= k < |signals| && InWindow(signals, k, last, t)
      && EligibilityAt(signals, last, t) == Eligible(SignalDirection(signals[k]), TrendTime(signals[k]));
    var e := EligibilityAt(signals, last, t);
    assert e.trigger == TrendTime(signals[k]) && e.direction == SignalDirection(signals[k]);
    assert TrendTime(signals[k]) + M30Minutes <= t < WindowEnd(signals, k, last);
    assert (0 <= k < |signals|
      && e.trigger == TrendTime(signals[k])
      && e.direction == SignalDirection(signals[k])
      && TrendTime(signals[k]) + M30Minutes <= t
      && (k + 1 < |signals| ==> t < TrendTime(signals[k + 1]))
      && (k + 1 == |signals| ==> t < last));
  }

  /**
   * When the 3-minute data runs at least to the final signal, the last 3-minute
   * bar is never eligible: every earlier window ends at a signal no later than
   * it, and the final window ends at it.
   */
  lemma LastBarIneligibleAfterFinalSignal(signals: seq<TrendRow>, last: int)
    requires SortedBy(signals, TrendTime)
    requires |signals| > 0 && TrendTime(signals[|signals| - 1]) <= last
    ensures EligibilityAt(signals, last, last) == Ineligible
  {
    forall k | 0 <= k < |signals| ensures !InWindow(signals, k, last, last) {
      if k + 1 < |signals| {
        assert TrendTime(signals[k + 1]) <= TrendTime(signals[|signals| - 1]);
      }
    }
  }

  /** A 3-minute bar inside the 30-minute signal bar itself is never eligible. */
  lemma SignalBarNeverEligible(signals: seq<TrendRow>, last: int, t: int, k: nat)
    requires SortedBy(signals, TrendTime)
    requires k < |signals|
    requires TrendTime(signals[k]) <= t < TrendTime(signals[k]) + M30Minutes
    ensures EligibilityAt(signals, last, t) == Ineligible
  {
    MarkAfterInWindow(signals, last, t, |signals|);
    forall j | 0 <= j < |signals|
      ensures !InWindow(signals, j, last, t)
    {
      if j < k {
        assert TrendTime(signals[j + 1]) <= TrendTime(signals[k]);
      } else if j > k {
        assert TrendTime(signals[k]) <= TrendTime(signals[j]);
      }
    }
  }

  // ---------------------------------------------------------------- entry signals

  /**
   * `generate_entry_signals`: +1 on an eligible uptrend bar whose previous
   * close is above the previous EMA plus the pip threshold, -1 on the mirror
   * downtrend case, 0 otherwise. `ema` is the `talib.EMA` column.
   */
  function GenerateEntrySignals(rows: seq<MarkedBar>, ema: seq<Option<real>>, emaThresholdPips: real, pipSize: real)
    : (r: seq<EntryRow>)
    requires |ema| == |rows|
    ensures |r| == |rows|
    ensures forall i :: 0 <= i < |r| ==> r[i].marked == rows[i] && r[i].ema == ema[i]
    ensures forall i :: 0 <= i < |r| ==> -1 <= r[i].entrySignal <= 1
    ensures forall i :: 0 <= i < |r| ==>
      (r[i].entrySignal == 1 <==>
        i > 0 && rows[i].eligibility.Eligible? && rows[i].eligibility.direction == Uptrend
        && ema[i - 1].Some? && rows[i - 1].bar.close > ema[i - 1].value + emaThresholdPips * pipSize)
    ensures forall i :: 0 <= i < |r| ==>
      (r[i].entrySignal == -1 <==>
        i > 0 && rows[i].eligibility.Eligible? && rows[i].eligibility.direction == Downtrend
        && ema[i - 1].Some? && rows[i - 1].bar.close < ema[i - 1].value - emaThresholdPips * pipSize)
  {
    var thresholdPrice := emaThresholdPips * pipSize;
    var prevClose := Shift(seq(|rows|, i requires 0 <= i < |rows| => Some(rows[i].bar.close)));
    var prevEma := Shift(ema);
    seq(|rows|, i requires 0 <= i < |rows| =>
      var buy := rows[i].eligibility.Eligible? && rows[i].eligibility.direction == Uptrend
        && Above(prevClose[i], Offset(prevEma[i], thresholdPrice));
      var sell := rows[i].eligibility.Eligible? && rows[i].eligibility.direction == Downtrend
        && Below(prevClose[i], Offset(prevEma[i], -thresholdPrice));
      EntryRow(rows[i], ema[i], if sell then -1 else if buy then 1 else 0))
  }

  /**
   * Across the pipeline: on 3-minute bars marked as `MarkEntryEligibility`
   * marks them, a non-zero entry signal sits on a bar inside some trend window
   * whose direction matches the sign.
   */
  lemma EntryOnlyInsideMatchingWindow(signals: seq<TrendRow>, last: int, marked: seq<MarkedBar>,
                                      ema: seq<Option<real>>, thPips: real, pipSize: real, i: nat)
    requires |ema| == |marked| && i < |marked|
    requires forall j :: 0 <= j < |marked| ==> marked[j].eligibility == EligibilityAt(signals, last, marked[j].bar.time)
    ensures var s := GenerateEntrySignals(marked, ema, thPips, pipSize)[i].entrySignal;
      s != 0 ==>
        exists k :: 0 <= k < |signals| && InWindow(signals, k, last, marked[i].bar.time)
          && (s == 1 <==> SignalDirection(signals[k]) == Uptrend)
  {
    MarkAfterInWindow(signals, last, marked[i].bar.time, |signals|);
  }
}
