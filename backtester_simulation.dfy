/**
 * The backtester's simulator: the shared per-bar loop, then every trade still
 * open after the last bar is force-closed at that bar's close with exit
 * reason 'open' and its signed move in pips as profit.
 */
module BacktesterSimulation {
  import opened Frames
  import opened TradeLifecycle

  /**
   * A float64 value as numpy yields it for a quotient: finite, or the infinity
   * or NaN that a division by a zero `pip_size` gives.
   */
  datatype Float = Finite(value: real) | PlusInfinity | MinusInfinity | NotANumber

  /** numpy scalar division `num / den`: by zero it gives an infinity of the numerator's sign, or NaN for 0/0. */
  function FloatDiv(num: real, den: real): (r: Float)
    ensures r.Finite? <==> den != 0.0
    ensures r.Finite? ==> r.value * den == num
    ensures r == NotANumber <==> den == 0.0 && num == 0.0
    ensures r == PlusInfinity <==> den == 0.0 && num > 0.0
    ensures r == MinusInfinity <==> den == 0.0 && num < 0.0
  {
    if den != 0.0 then Finite(num / den)
    else if num > 0.0 then PlusInfinity
    else if num < 0.0 then MinusInfinity
    else NotANumber
  }

  /** A row of the returned frame, whose `pnl_pips` is a float64. */
  datatype LedgerRow = LedgerRow(trade: OpenTrade, exitTime: int, exitPrice: real, pnlPips: Float, exitReason: ExitReason)

  /** A row the shared loop closed, as it appears in the frame. */
  function Row(c: ClosedTrade): LedgerRow {
    LedgerRow(c.trade, c.exitTime, c.exitPrice, Finite(c.pnlPips), c.exitReason)
  }

  function Rows(closed: seq<ClosedTrade>): (r: seq<LedgerRow>)
    ensures |r| == |closed| && forall k :: 0 <= k < |r| ==> r[k] == Row(closed[k])
  {
    seq(|closed|, k requires 0 <= k < |closed| => Row(closed[k]))
  }

  /**
   * The trades of the ledger rows. It is `TradesOf` for `LedgerRow`, which is a
   * separate type because its P&L may be non-finite while the loop's rows are not.
   */
  function RowTrades(rows: seq<LedgerRow>): (r: seq<OpenTrade>)
    ensures |r| == |rows| && forall k :: 0 <= k < |r| ==> r[k] == rows[k].trade
  {
    seq(|rows|, k requires 0 <= k < |rows| => rows[k].trade)
  }

  /** The move in the trade's favour from its entry to `price`. */
  function Move(t: OpenTrade, price: real): real {
    if t.side == Buy then price - t.entryPrice else t.entryPrice - price
  }

  /**
   * Profit in pips of a trade closed at `price`: the move in its favour over
   * the pip size; with a zero pip size an infinity of the move's sign, or NaN
   * when the price has not moved.
   */
  function PnlPips(t: OpenTrade, price: real, pipSize: real): (r: Float)
    ensures r.Finite? <==> pipSize != 0.0
    ensures r.Finite? ==> r.value * pipSize == Move(t, price)
    ensures pipSize > 0.0 ==> (r.value > 0.0 <==> (if t.side == Buy then price > t.entryPrice else price < t.entryPrice))
    ensures pipSize == 0.0 ==>
      && (r == PlusInfinity <==> (if t.side == Buy then price > t.entryPrice else price < t.entryPrice))
      && (r == NotANumber <==> price == t.entryPrice)
  {
    if t.side == Buy then FloatDiv(price - t.entryPrice, pipSize) else FloatDiv(t.entryPrice - price, pipSize)
  }

  /** The row a trade still open after `last` becomes. */
  function ForceClose(t: OpenTrade, last: Bar, pipSize: real): LedgerRow {
    LedgerRow(t, last.time, last.close, PnlPips(t, last.close, pipSize), EndOfData)
  }

  /** Whether a row is the end-of-data close of its trade on bar `last`. */
  predicate EndOfDataExit(c: LedgerRow, last: Bar, pipSize: real) {
    && c.exitReason == EndOfData
    && c.exitTime == last.time
    && c.exitPrice == last.close
    && c.pnlPips == PnlPips(c.trade, last.close, pipSize)
  }

  /** The finalisation rows, one per still-open trade, in the active list's order. */
  function ForceCloseAll(active: seq<OpenTrade>, last: Bar, pipSize: real): (r: seq<LedgerRow>)
    ensures |r| == |active|
    ensures forall k :: 0 <= k < |r| ==> r[k].trade == active[k] && EndOfDataExit(r[k], last, pipSize)
  {
    if |active| == 0 then []
    else ForceCloseAll(active[..|active| - 1], last, pipSize) + [ForceClose(active[|active| - 1], last, pipSize)]
  }

  /** The returned frame: the rows closed by the loop, then the finalised ones. */
  function Ledger(bars: seq<Bar>, signals: seq<int>, cfg: Config): (r: seq<LedgerRow>)
    requires |signals| == |bars|
    ensures |r| == |Run(bars, signals, cfg, |bars|).closed| + |Run(bars, signals, cfg, |bars|).active|
  {
    var s := Run(bars, signals, cfg, |bars|);
    if |bars| == 0 then Rows(s.closed)
    else Rows(s.closed) + ForceCloseAll(s.active, bars[|bars| - 1], cfg.pipSize)
  }

  /** The finalisation loop over the trades still open after the last bar `last`. */
  method CloseOpenTrades(active: seq<OpenTrade>, last: Bar, pipSize: real) returns (rows: seq<LedgerRow>)
    ensures rows == ForceCloseAll(active, last, pipSize)
  {
    rows := [];
    var k := 0;
    while k < |active|
      invariant 0 <= k <= |active|
      invariant rows == ForceCloseAll(active[..k], last, pipSize)
    {
      var trade := active[k];
      var pnl := if trade.side == Buy then FloatDiv(last.close - trade.entryPrice, pipSize)
                 else FloatDiv(trade.entryPrice - last.close, pipSize);
      var row := LedgerRow(trade, last.time, last.close, pnl, EndOfData);
      assert row == ForceClose(active[k], last, pipSize);
      assert active[..k + 1][..k] == active[..k];
      rows := rows + [row];
      k := k + 1;
    }
    assert active[..|active|] == active;
  }

  /** `simulate_fixed_tp_sl_trades` of the backtester. */
  method SimulateFixedTpSlTrades(bars: seq<Bar>, signals: seq<int>, cfg: Config) returns (ledger: seq<LedgerRow>)
    requires |signals| == |bars|
    ensures ledger == Ledger(bars, signals, cfg)
  {
    var active, closed := SimulateBars(bars, signals, cfg);
    if |bars| == 0 {
      return Rows(closed);
    }
    var finalRows := CloseOpenTrades(active, bars[|bars| - 1], cfg.pipSize);
    return Rows(closed) + finalRows;
  }

  // ---------------------------------------------------------------- properties of the ledger

  /**
   * Only the force-close division can leave a non-finite P&L, and it does on
   * every finalised row when `pip_size` is zero.
   */
  lemma NonFinitePnlOnlyFromZeroPipSize(bars: seq<Bar>, signals: seq<int>, cfg: Config)
    requires |signals| == |bars|
    ensures var r := Ledger(bars, signals, cfg);
      forall k :: 0 <= k < |r| ==>
        (!r[k].pnlPips.Finite? <==> cfg.pipSize == 0.0 && |Run(bars, signals, cfg, |bars|).closed| <= k)
  {
  }

  /** Every trade the loop opened appears in the ledger exactly once, so it has at most one row per bar. */
  lemma LedgerHoldsEveryOpenedTrade(bars: seq<Bar>, signals: seq<int>, cfg: Config)
    requires |signals| == |bars|
    ensures multiset(RowTrades(Ledger(bars, signals, cfg))) == multiset(Opened(bars, signals, cfg, |bars|))
    ensures |Ledger(bars, signals, cfg)| <= |bars|
  {
    var s := Run(bars, signals, cfg, |bars|);
    RunConservesTrades(bars, signals, cfg, |bars|);
    var r := Ledger(bars, signals, cfg);
    var trades := TradesOf(s.closed) + s.active;
    forall k | 0 <= k < |r| ensures RowTrades(r)[k] == trades[k] {
      if k < |s.closed| {
        assert r[k] == Row(s.closed[k]);
      }
    }
    assert RowTrades(r) == trades;
  }

  /**
   * The leading rows are the loop's boundary exits ('sl' at the stop or 'tp'
   * at the target), and the trailing ones are the end-of-data closes of the
   * still-open trades on the last bar, in the active list's order.
   */
  lemma LedgerRows(bars: seq<Bar>, signals: seq<int>, cfg: Config)
    requires |signals| == |bars|
    ensures var r := Ledger(bars, signals, cfg);
      var s := Run(bars, signals, cfg, |bars|);
      && (forall k :: 0 <= k < |s.closed| ==> r[k] == Row(s.closed[k]) && BoundaryExit(s.closed[k], cfg))
      && (forall k :: |s.closed| <= k < |r| ==>
            |bars| > 0 && r[k].trade == s.active[k - |s.closed|] && EndOfDataExit(r[k], bars[|bars| - 1], cfg.pipSize))
  {
    RunClosesOnBoundaries(bars, signals, cfg, |bars|);
  }

  /**
   * With strictly increasing bar times the ledger is ordered by exit time, no
   * exit lies after the last bar, and a trade exits strictly after its entry
   * unless it is force-closed on the bar it opened on.
   */
  lemma LedgerTimes(bars: seq<Bar>, signals: seq<int>, cfg: Config)
    requires |signals| == |bars|
    requires StrictlyIncreasing(bars)
    ensures var r := Ledger(bars, signals, cfg);
      && (forall k :: 0 <= k < |r| ==> r[k].trade.entryTime <= r[k].exitTime <= bars[|bars| - 1].time)
      && (forall k :: 0 <= k < |r| && r[k].exitReason != EndOfData ==> r[k].trade.entryTime < r[k].exitTime)
      && (forall j, k :: 0 <= j < k < |r| ==> r[j].exitTime <= r[k].exitTime)
  {
    var s := Run(bars, signals, cfg, |bars|);
    RunTimesConsistent(bars, signals, cfg, |bars|);
    RunClosesOnBoundaries(bars, signals, cfg, |bars|);
    var r := Ledger(bars, signals, cfg);
    forall j, k | 0 <= j < k < |s.closed| ensures r[j].exitTime <= r[k].exitTime {
      assert LedgerOrdered(s.closed[j], s.closed[k]);
    }
  }

  /** The finalised rows keep the active list's order, which is entry order. */
  lemma FinalRowsInEntryOrder(bars: seq<Bar>, signals: seq<int>, cfg: Config)
    requires |signals| == |bars|
    requires StrictlyIncreasing(bars)
    ensures var r := Ledger(bars, signals, cfg);
      var n := |Run(bars, signals, cfg, |bars|).closed|;
      forall j, k :: n <= j < k < |r| ==> r[j].trade.entryTime < r[k].trade.entryTime
  {
    RunTimesConsistent(bars, signals, cfg, |bars|);
  }

  /**
   * Among the loop's rows, those that leave on the same bar keep the order in
   * which the trades entered, as the exit pass walks the active list.
   */
  lemma ClosedRowsSameBarInEntryOrder(bars: seq<Bar>, signals: seq<int>, cfg: Config)
    requires |signals| == |bars|
    requires StrictlyIncreasing(bars)
    ensures var r := Ledger(bars, signals, cfg);
      var n := |Run(bars, signals, cfg, |bars|).closed|;
      forall j, k :: 0 <= j < k < n && r[j].exitTime == r[k].exitTime ==> r[j].trade.entryTime < r[k].trade.entryTime
  {
    var s := Run(bars, signals, cfg, |bars|);
    RunTimesConsistent(bars, signals, cfg, |bars|);
    var r := Ledger(bars, signals, cfg);
    forall j, k | 0 <= j < k < |s.closed| && r[j].exitTime == r[k].exitTime
      ensures r[j].trade.entryTime < r[k].trade.entryTime
    {
      assert LedgerOrdered(s.closed[j], s.closed[k]);
    }
  }

  /** With no `+1`/`-1` in the signal column the ledger is empty. */
  lemma NoSignalEmptyLedger(bars: seq<Bar>, signals: seq<int>, cfg: Config)
    requires |signals| == |bars|
    requires forall i :: 0 <= i < |signals| ==> signals[i] != 1 && signals[i] != -1
    ensures Ledger(bars, signals, cfg) == []
  {
    NoSignalNoTrades(bars, signals, cfg, |bars|);
  }
}
