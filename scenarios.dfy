/**
 * Worked instances of the model on small concrete inputs, with the strategy's
 * configured values (volume threshold 8000, take-profit 80 and stop-loss 20
 * pips, pip size 0.0001, at most 10 open trades).
 */
module Scenarios {
  import opened Wrappers
  import opened Frames
  import opened Signals
  import opened TradeLifecycle

  const Strategy := Config(80.0, 20.0, 0.0001, 10)

  function Band(time: int, close: real, volume: real): BandBar {
    BandBar(Bar(time, close, close, close, close, volume), Some(1.1000), Some(1.0950))
  }

  /** Five 30-minute bars whose close dips under the lower band 1.0950 and comes back on the fourth. */
  function DipAndRecover(): seq<BandBar> {
    [Band(0, 1.0960, 9000.0), Band(30, 1.0955, 9000.0), Band(60, 1.0940, 9000.0),
     Band(90, 1.0955, 9000.0), Band(120, 1.0960, 9000.0)]
  }

  /** Only the bar that closes back above the previous lower band starts an uptrend. */
  lemma DipAndRecoverStartsOneUptrend()
    ensures DetectTrends(DipAndRecover(), 8000.0, 8000.0).Success?
    ensures forall i :: 0 <= i < 5 ==>
      (DetectTrends(DipAndRecover(), 8000.0, 8000.0).value[i].uptrendStart <==> i == 3)
    ensures forall i :: 0 <= i < 5 ==> !DetectTrends(DipAndRecover(), 8000.0, 8000.0).value[i].downtrendStart
  {
    var rows := DipAndRecover();
    assert SortedBy(rows, BandTime);
  }

  /** An uptrend signal on the 30-minute bar at 10:00 (minute 600). */
  function UptrendAtTen(): seq<TrendRow> {
    [TrendRow(Band(600, 1.0955, 9000.0), true, false)]
  }

  /** With that signal, the 3-minute bar at 10:29 is not eligible and the one at 10:30 is, as an uptrend. */
  lemma WindowOpensAtSignalClose()
    ensures EligibilityAt(UptrendAtTen(), 700, 629) == Ineligible
    ensures EligibilityAt(UptrendAtTen(), 700, 630) == Eligible(Uptrend, 600)
  {
    var signals := UptrendAtTen();
    assert TrendTime(signals[0]) == 600 && WindowEnd(signals, 0, 700) == 700;
    assert MarkAfter(signals, 700, 629, 0) == Ineligible;
  }

  /** An uptrend at 10:00 and a downtrend at 16:40 on the 30-minute frame. */
  function UptrendThenDowntrend(): seq<TrendRow> {
    [TrendRow(Band(600, 1.0955, 9000.0), true, false), TrendRow(Band(1000, 1.0955, 9000.0), false, true)]
  }

  /**
   * When the 3-minute data stops at 10:30, before the second signal, the first
   * window still runs to 16:40, so the last 3-minute bar is eligible.
   */
  lemma LastBarEligibleWhenDataEndsBeforeFinalSignal()
    ensures EligibilityAt(UptrendThenDowntrend(), 630, 630) == Eligible(Uptrend, 600)
  {
    var signals := UptrendThenDowntrend();
    assert !InWindow(signals, 1, 630, 630);
    assert InWindow(signals, 0, 630, 630);
  }

  /** A long opened at 1.1000 has its stop at 1.0980 and its target at 1.1080. */
  lemma LongEntryLevels()
    ensures var t := EntryTrade(Bar(0, 1.1000, 1.1000, 1.1000, 1.1000, 0.0), Buy, Strategy);
      t.slPrice == 1.0980 && t.tpPrice == 1.1080
  {
  }

  /** That long is stopped out by a bar reaching 1.0980, even one that also reaches the target. */
  lemma LongStoppedBeforeTarget()
    ensures var t := EntryTrade(Bar(0, 1.1000, 1.1000, 1.1000, 1.1000, 0.0), Buy, Strategy);
      && CheckExit(t, Bar(3, 1.1000, 1.1085, 1.0980, 1.1000, 0.0), Strategy) == Some(ClosedTrade(t, 3, 1.0980, -20.0, StopLoss))
      && CheckExit(t, Bar(3, 1.1000, 1.1080, 1.0981, 1.1000, 0.0), Strategy) == Some(ClosedTrade(t, 3, 1.1080, 80.0, TakeProfit))
      && CheckExit(t, Bar(3, 1.1000, 1.1079, 1.0981, 1.1000, 0.0), Strategy) == None
  {
  }
}
