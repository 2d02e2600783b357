/**
 * The simulator the backtest script imports (`main.simulation`): the same
 * per-bar loop as the backtester package's, but trades still open after the
 * last bar are dropped rather than force-closed, so the ledger holds only
 * stop and target exits.
 */
module MainSimulation {
  import opened Frames
  import opened TradeLifecycle
  import BacktesterSimulation

  /** The returned ledger: the rows the loop closed. */
  function Ledger(bars: seq<Bar>, signals: seq<int>, cfg: Config): (r: seq<ClosedTrade>)
    requires |signals| == |bars|
    ensures |r| + |Run(bars, signals, cfg, |bars|).active| <= |bars|
  {
    Run(bars, signals, cfg, |bars|).closed
  }

  /** `simulate_fixed_tp_sl_trades` of this package. */
  method SimulateFixedTpSlTrades(bars: seq<Bar>, signals: seq<int>, cfg: Config) returns (ledger: seq<ClosedTrade>)
    requires |signals| == |bars|
    ensures ledger == Ledger(bars, signals, cfg)
  {
    var active;
    active, ledger := SimulateBars(bars, signals, cfg);
  }

  // ---------------------------------------------------------------- properties of the ledger

  /**
   * Every row is a boundary exit, so its profit is `-sl_pips` or `tp_pips`,
   * whatever the pip size.
   */
  lemma LedgerRowsAreBoundaryExits(bars: seq<Bar>, signals: seq<int>, cfg: Config)
    requires |signals| == |bars|
    ensures forall k :: 0 <= k < |Ledger(bars, signals, cfg)| ==>
      && BoundaryExit(Ledger(bars, signals, cfg)[k], cfg)
      && Ledger(bars, signals, cfg)[k].exitReason != EndOfData
      && (Ledger(bars, signals, cfg)[k].pnlPips == -cfg.slPips || Ledger(bars, signals, cfg)[k].pnlPips == cfg.tpPips)
  {
    RunClosesOnBoundaries(bars, signals, cfg, |bars|);
  }

  /**
   * The opened trades are split between the ledger and the trades dropped at
   * the end; the ledger holds at most one row per bar.
   */
  lemma LedgerDropsOpenTrades(bars: seq<Bar>, signals: seq<int>, cfg: Config)
    requires |signals| == |bars|
    ensures multiset(TradesOf(Ledger(bars, signals, cfg))) + multiset(Run(bars, signals, cfg, |bars|).active)
      == multiset(Opened(bars, signals, cfg, |bars|))
    ensures |Ledger(bars, signals, cfg)| + |Run(bars, signals, cfg, |bars|).active| == |Opened(bars, signals, cfg, |bars|)| <= |bars|
  {
    RunConservesTrades(bars, signals, cfg, |bars|);
    OpenedAtMostOnePerBar(bars, signals, cfg, |bars|);
    var s := Run(bars, signals, cfg, |bars|);
    assert |multiset(TradesOf(s.closed))| + |multiset(s.active)| == |multiset(Opened(bars, signals, cfg, |bars|))|;
  }

  /**
   * With strictly increasing bar times every row exits strictly after its
   * entry, and the ledger is ordered by exit time and, among rows closed on
   * the same bar, by entry time (the active list's order).
   */
  lemma LedgerTimes(bars: seq<Bar>, signals: seq<int>, cfg: Config)
    requires |signals| == |bars|
    requires StrictlyIncreasing(bars)
    ensures var r := Ledger(bars, signals, cfg);
      && (forall k :: 0 <= k < |r| ==> r[k].trade.entryTime < r[k].exitTime)
      && (forall j, k :: 0 <= j < k < |r| ==> r[j].exitTime <= r[k].exitTime)
      && (forall j, k :: 0 <= j < k < |r| && r[j].exitTime == r[k].exitTime ==>
            r[j].trade.entryTime < r[k].trade.entryTime)
  {
    RunTimesConsistent(bars, signals, cfg, |bars|);
    var r := Ledger(bars, signals, cfg);
    forall j, k | 0 <= j < k < |r| ensures LedgerOrdered(r[j], r[k]) {
    }
  }

  /**
   * The two simulators differ only in the finalisation: this ledger is the
   * backtester's with its trailing end-of-data rows removed.
   */
  lemma LedgerIsBacktesterLedgerWithoutOpenRows(bars: seq<Bar>, signals: seq<int>, cfg: Config)
    requires |signals| == |bars|
    ensures var full := BacktesterSimulation.Ledger(bars, signals, cfg);
      var r := Ledger(bars, signals, cfg);
      && |r| <= |full|
      && (forall k :: 0 <= k < |r| ==> full[k] == BacktesterSimulation.Row(r[k]))
      && (forall k :: 0 <= k < |full| ==> (full[k].exitReason == EndOfData <==> |r| <= k))
  {
    RunClosesOnBoundaries(bars, signals, cfg, |bars|);
    BacktesterSimulation.LedgerRows(bars, signals, cfg);
  }
}
