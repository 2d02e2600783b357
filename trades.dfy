/**
 * The fixed take-profit / stop-loss trade lifecycle shared by both simulators:
 * per bar, exits are evaluated over the active trades in insertion order (stop
 * before target), then at most one entry opens if the count is below the cap.
 * `Run` is the state after the first `n` bars; both simulators are proved
 * against it.
 */
module TradeLifecycle {
  import opened Wrappers
  import opened Frames

  datatype Side = Buy | Sell

  /** The `exit_reason` column: 'sl', 'tp' and, for force-closed trades, 'open'. */
  datatype ExitReason = StopLoss | TakeProfit | EndOfData

  /** The dict appended to `active_trades` on entry. */
  datatype OpenTrade = OpenTrade(entryTime: int, entryPrice: real, side: Side, slPrice: real, tpPrice: real)

  /** The same dict once its exit fields are filled in and it is moved to `closed_trades`. */
  datatype ClosedTrade = ClosedTrade(trade: OpenTrade, exitTime: int, exitPrice: real, pnlPips: real, exitReason: ExitReason)

  datatype Config = Config(tpPips: real, slPips: real, pipSize: real, maxConcurrentTrades: int)

  /** The two lists the simulation loop carries from bar to bar. */
  datatype SimState = SimState(active: seq<OpenTrade>, closed: seq<ClosedTrade>)

  function TpDistance(cfg: Config): real { cfg.tpPips * cfg.pipSize }
  function SlDistance(cfg: Config): real { cfg.slPips * cfg.pipSize }

  function TradesOf(closed: seq<ClosedTrade>): (r: seq<OpenTrade>)
    ensures |r| == |closed| && forall k :: 0 <= k < |r| ==> r[k] == closed[k].trade
  {
    seq(|closed|, k requires 0 <= k < |closed| => closed[k].trade)
  }

  lemma TradesOfAppend(a: seq<ClosedTrade>, b: seq<ClosedTrade>)
    ensures TradesOf(a + b) == TradesOf(a) + TradesOf(b)
  {
  }

  /** The bar reaches the trade's stop: a low at or under a long's, a high at or over a short's. */
  predicate StopTouched(t: OpenTrade, bar: Bar) {
    match t.side
    case Buy => bar.low <= t.slPrice
    case Sell => bar.high >= t.slPrice
  }

  /** The bar reaches the trade's target: a high at or over a long's, a low at or under a short's. */
  predicate TargetTouched(t: OpenTrade, bar: Bar) {
    match t.side
    case Buy => bar.high >= t.tpPrice
    case Sell => bar.low <= t.tpPrice
  }

  /** A row closed on a boundary: at its stop for `-sl_pips`, or at its target for `tp_pips`. */
  predicate BoundaryExit(c: ClosedTrade, cfg: Config) {
    || (c.exitReason == StopLoss && c.exitPrice == c.trade.slPrice && c.pnlPips == -cfg.slPips)
    || (c.exitReason == TakeProfit && c.exitPrice == c.trade.tpPrice && c.pnlPips == cfg.tpPips)
  }

  /**
   * Exit test of one active trade on one bar. A bar that touches both levels
   * closes the trade at its stop.
   */
  function CheckExit(t: OpenTrade, bar: Bar, cfg: Config): (r: Option<ClosedTrade>)
    ensures r.None? <==> !StopTouched(t, bar) && !TargetTouched(t, bar)
    ensures r.Some? ==> r.value.trade == t && r.value.exitTime == bar.time && BoundaryExit(r.value, cfg)
    ensures r.Some? ==> (r.value.exitReason == StopLoss <==> StopTouched(t, bar))
  {
    if t.side == Buy then
      if bar.low <= t.slPrice then Some(ClosedTrade(t, bar.time, t.slPrice, -cfg.slPips, StopLoss))
      else if bar.high >= t.tpPrice then Some(ClosedTrade(t, bar.time, t.tpPrice, cfg.tpPips, TakeProfit))
      else None
    else
      if bar.high >= t.slPrice then Some(ClosedTrade(t, bar.time, t.slPrice, -cfg.slPips, StopLoss))
      else if bar.low <= t.tpPrice then Some(ClosedTrade(t, bar.time, t.tpPrice, cfg.tpPips, TakeProfit))
      else None
  }

  /**
   * The exit pass over the active list: the survivors (`remaining_trades`) and
   * the rows it appends to the ledger, both in the active list's order.
   */
  function ExitPass(active: seq<OpenTrade>, bar: Bar, cfg: Config): (r: (seq<OpenTrade>, seq<ClosedTrade>))
    ensures |r.0| + |r.1| == |active|
  {
    if |active| == 0 then ([], [])
    else
      var prev := ExitPass(active[..|active| - 1], bar, cfg);
      var t := active[|active| - 1];
      match CheckExit(t, bar, cfg)
      case None => (prev.0 + [t], prev.1)
      case Some(c) => (prev.0, prev.1 + [c])
  }

  /** The exit pass neither loses nor duplicates a trade: survivors plus exits are the active list. */
  lemma {:induction false} ExitPassPartitions(active: seq<OpenTrade>, bar: Bar, cfg: Config)
    ensures multiset(ExitPass(active, bar, cfg).0) + multiset(TradesOf(ExitPass(active, bar, cfg).1)) == multiset(active)
  {
    if |active| > 0 {
      var init := active[..|active| - 1];
      var t := active[|active| - 1];
      ExitPassPartitions(init, bar, cfg);
      assert active == init + [t];
      var prev := ExitPass(init, bar, cfg);
      match CheckExit(t, bar, cfg)
      case None =>
      case Some(c) =>
        TradesOfAppend(prev.1, [c]);
    }
  }

  /** Survivors touched neither level; every exit row closed on this bar at a boundary. */
  lemma {:induction false} ExitPassRows(active: seq<OpenTrade>, bar: Bar, cfg: Config)
    ensures forall k :: 0 <= k < |ExitPass(active, bar, cfg).0| ==>
      !StopTouched(ExitPass(active, bar, cfg).0[k], bar) && !TargetTouched(ExitPass(active, bar, cfg).0[k], bar)
    ensures forall k :: 0 <= k < |ExitPass(active, bar, cfg).1| ==>
      ExitPass(active, bar, cfg).1[k].exitTime == bar.time && BoundaryExit(ExitPass(active, bar, cfg).1[k], cfg)
  {
    if |active| > 0 {
      ExitPassRows(active[..|active| - 1], bar, cfg);
    }
  }

  /**
   * The exit pass keeps the active list's order: the survivors, and the trades
   * of the rows it appends, are each the active list with the others left out.
   */
  lemma {:induction false} ExitPassKeepsOrder(active: seq<OpenTrade>, bar: Bar, cfg: Config)
    ensures Subsequence(ExitPass(active, bar, cfg).0, active)
    ensures Subsequence(TradesOf(ExitPass(active, bar, cfg).1), active)
  {
    if |active| > 0 {
      var init := active[..|active| - 1];
      var t := active[|active| - 1];
      ExitPassKeepsOrder(init, bar, cfg);
      var prev := ExitPass(init, bar, cfg);
      assert active == init + [t];
      match CheckExit(t, bar, cfg)
      case None =>
        SubsequenceSnocBoth(prev.0, init, t);
        SubsequenceSnoc(TradesOf(prev.1), init, t);
      case Some(c) =>
        SubsequenceSnoc(prev.0, init, t);
        TradesOfAppend(prev.1, [c]);
        assert TradesOf([c]) == [t];
        SubsequenceSnocBoth(TradesOf(prev.1), init, t);
    }
  }

  /** Entry times strictly increase along the list. */
  predicate EntryOrdered(ts: seq<OpenTrade>) {
    forall i, j :: 0 <= i < j < |ts| ==> ts[i].entryTime < ts[j].entryTime
  }

  /** Leaving trades out of an entry-ordered list keeps it entry-ordered. */
  lemma {:induction false} SubsequenceKeepsEntryOrder(xs: seq<OpenTrade>, ys: seq<OpenTrade>)
    requires Subsequence(xs, ys) && EntryOrdered(ys)
    ensures EntryOrdered(xs)
  {
    if |xs| > 0 {
      var ys' := ys[..|ys| - 1];
      assert EntryOrdered(ys');
      if xs[|xs| - 1] == ys[|ys| - 1] {
        var xs' := xs[..|xs| - 1];
        SubsequenceKeepsEntryOrder(xs', ys');
        SubsequenceMembers(xs', ys');
        forall i | 0 <= i < |xs'| ensures xs[i].entryTime < xs[|xs| - 1].entryTime {
          assert xs[i] == xs'[i];
          var m :| 0 <= m < |ys'| && ys'[m] == xs'[i];
        }
        forall i, j | 0 <= i < j < |xs| ensures xs[i].entryTime < xs[j].entryTime {
          if j < |xs| - 1 {
            assert xs[i] == xs'[i] && xs[j] == xs'[j];
          }
        }
      } else {
        SubsequenceKeepsEntryOrder(xs, ys');
      }
    }
  }

  /** The new trade a `+1`/`-1` signal opens at the bar's open price. */
  function EntryTrade(bar: Bar, side: Side, cfg: Config): OpenTrade {
    match side
    case Buy => OpenTrade(bar.time, bar.open, Buy, bar.open - SlDistance(cfg), bar.open + TpDistance(cfg))
    case Sell => OpenTrade(bar.time, bar.open, Sell, bar.open + SlDistance(cfg), bar.open - TpDistance(cfg))
  }

  /**
   * The trade (none or one) the entry step opens when `count` trades survive
   * the exit pass: below `max_concurrent_trades`, a `+1` opens a long and a
   * `-1` a short; nothing else opens one.
   */
  function NewEntry(count: int, bar: Bar, signal: int, cfg: Config): (r: seq<OpenTrade>)
    ensures |r| == if count < cfg.maxConcurrentTrades && (signal == 1 || signal == -1) then 1 else 0
    ensures |r| == 1 ==>
      && r[0].entryTime == bar.time
      && r[0].entryPrice == bar.open
      && (r[0].side == Buy <==> signal == 1)
      && (signal == 1 ==>
            r[0].slPrice == bar.open - cfg.slPips * cfg.pipSize
            && r[0].tpPrice == bar.open + cfg.tpPips * cfg.pipSize)
      && (signal == -1 ==>
            r[0].slPrice == bar.open + cfg.slPips * cfg.pipSize
            && r[0].tpPrice == bar.open - cfg.tpPips * cfg.pipSize)
  {
    if count < cfg.maxConcurrentTrades then
      if signal == 1 then [EntryTrade(bar, Buy, cfg)]
      else if signal == -1 then [EntryTrade(bar, Sell, cfg)]
      else []
    else []
  }

  /** The entry step appends the new trade, if any, to the surviving active trades. */
  function Enter(active: seq<OpenTrade>, bar: Bar, signal: int, cfg: Config): seq<OpenTrade> {
    active + NewEntry(|active|, bar, signal, cfg)
  }

  /** One iteration of the per-bar loop: exits first, then at most one entry. */
  function Step(s: SimState, bar: Bar, signal: int, cfg: Config): SimState {
    var exits := ExitPass(s.active, bar, cfg);
    SimState(Enter(exits.0, bar, signal, cfg), s.closed + exits.1)
  }

  /** The two lists after the first `n` bars; each bar adds at most one trade to them. */
  function Run(bars: seq<Bar>, signals: seq<int>, cfg: Config, n: nat): (r: SimState)
    requires |signals| == |bars| && n <= |bars|
    ensures |r.active| + |r.closed| <= n
  {
    if n == 0 then SimState([], [])
    else Step(Run(bars, signals, cfg, n - 1), bars[n - 1], signals[n - 1], cfg)
  }

  /** The trade (if any) that one bar of the loop opens after its exit pass. */
  function Opening(s: SimState, bar: Bar, signal: int, cfg: Config): seq<OpenTrade> {
    NewEntry(|ExitPass(s.active, bar, cfg).0|, bar, signal, cfg)
  }

  /** Every trade opened during the first `n` bars, in opening order. */
  function Opened(bars: seq<Bar>, signals: seq<int>, cfg: Config, n: nat): seq<OpenTrade>
    requires |signals| == |bars| && n <= |bars|
  {
    if n == 0 then []
    else Opened(bars, signals, cfg, n - 1) + Opening(Run(bars, signals, cfg, n - 1), bars[n - 1], signals[n - 1], cfg)
  }

  function Max(a: int, b: int): int { if a < b then b else a }

  /** The bar times are strictly increasing. */
  predicate StrictlyIncreasing(bars: seq<Bar>) {
    forall i, j :: 0 <= i < j < |bars| ==> bars[i].time < bars[j].time
  }

  /**
   * The exit pass as the simulator runs it: each active trade in turn is
   * either appended to `closed` or kept in `remaining`.
   */
  method ManageExistingTrades(active: seq<OpenTrade>, bar: Bar, cfg: Config, closed: seq<ClosedTrade>)
    returns (remaining: seq<OpenTrade>, closed': seq<ClosedTrade>)
    ensures remaining == ExitPass(active, bar, cfg).0
    ensures closed' == closed + ExitPass(active, bar, cfg).1
  {
    remaining := [];
    closed' := closed;
    var k := 0;
    while k < |active|
      invariant 0 <= k <= |active|
      invariant remaining == ExitPass(active[..k], bar, cfg).0
      invariant closed' == closed + ExitPass(active[..k], bar, cfg).1
    {
      var trade := active[k];
      assert active[..k + 1][..k] == active[..k];
      var tradeClosed := false;
      if trade.side == Buy {
        if bar.low <= trade.slPrice {
          closed' := closed' + [ClosedTrade(trade, bar.time, trade.slPrice, -cfg.slPips, StopLoss)];
          tradeClosed := true;
        } else if bar.high >= trade.tpPrice {
          closed' := closed' + [ClosedTrade(trade, bar.time, trade.tpPrice, cfg.tpPips, TakeProfit)];
          tradeClosed := true;
        }
      } else {
        if bar.high >= trade.slPrice {
          closed' := closed' + [ClosedTrade(trade, bar.time, trade.slPrice, -cfg.slPips, StopLoss)];
          tradeClosed := true;
        } else if bar.low <= trade.tpPrice {
          closed' := closed' + [ClosedTrade(trade, bar.time, trade.tpPrice, cfg.tpPips, TakeProfit)];
          tradeClosed := true;
        }
      }
      if !tradeClosed {
        remaining := remaining + [trade];
      }
      assert ExitPass(active[..k + 1], bar, cfg) ==
        var prev := ExitPass(active[..k], bar, cfg);
        match CheckExit(trade, bar, cfg)
        case None => (prev.0 + [trade], prev.1)
        case Some(c) => (prev.0, prev.1 + [c]);
      k := k + 1;
    }
    assert active[..|active|] == active;
  }

  /** The entry check of one bar, appending the new trade's dict to the active list. */
  method CheckNewEntry(active: seq<OpenTrade>, bar: Bar, signal: int, cfg: Config) returns (active': seq<OpenTrade>)
    ensures active' == Enter(active, bar, signal, cfg)
  {
    active' := active;
    var tpPriceDiff := cfg.tpPips * cfg.pipSize;
    var slPriceDiff := cfg.slPips * cfg.pipSize;
    if |active| < cfg.maxConcurrentTrades {
      if signal == 1 {
        var entryPrice := bar.open;
        active' := active + [OpenTrade(bar.time, entryPrice, Buy, entryPrice - slPriceDiff, entryPrice + tpPriceDiff)];
        assert active'[|active|] == EntryTrade(bar, Buy, cfg);
      } else if signal == -1 {
        var entryPrice := bar.open;
        active' := active + [OpenTrade(bar.time, entryPrice, Sell, entryPrice + slPriceDiff, entryPrice - tpPriceDiff)];
        assert active'[|active|] == EntryTrade(bar, Sell, cfg);
      }
    }
    assert active + [] == active;
  }

  /**
   * The per-bar loop both simulators share: manage the existing trades, then
   * check the bar's signal for a new entry.
   */
  method SimulateBars(bars: seq<Bar>, signals: seq<int>, cfg: Config)
    returns (active: seq<OpenTrade>, closed: seq<ClosedTrade>)
    requires |signals| == |bars|
    ensures SimState(active, closed) == Run(bars, signals, cfg, |bars|)
  {
    active, closed := [], [];
    var i := 0;
    while i < |bars|
      invariant 0 <= i <= |bars|
      invariant SimState(active, closed) == Run(bars, signals, cfg, i)
    {
      active, closed := ManageExistingTrades(active, bars[i], cfg, closed);
      active := CheckNewEntry(active, bars[i], signals[i], cfg);
      i := i + 1;
    }
  }

  // ---------------------------------------------------------------- properties of Run

  /** After every bar the number of active trades is within the cap. */
  lemma {:induction false} RunRespectsCap(bars: seq<Bar>, signals: seq<int>, cfg: Config, n: nat)
    requires |signals| == |bars| && n <= |bars|
    ensures |Run(bars, signals, cfg, n).active| <= Max(0, cfg.maxConcurrentTrades)
  {
    if n > 0 {
      RunRespectsCap(bars, signals, cfg, n - 1);
    }
  }

  /** Every row the loop closes is a boundary exit: 'sl' at the stop or 'tp' at the target. */
  lemma {:induction false} RunClosesOnBoundaries(bars: seq<Bar>, signals: seq<int>, cfg: Config, n: nat)
    requires |signals| == |bars| && n <= |bars|
    ensures forall k :: 0 <= k < |Run(bars, signals, cfg, n).closed| ==>
      BoundaryExit(Run(bars, signals, cfg, n).closed[k], cfg)
  {
    if n > 0 {
      RunClosesOnBoundaries(bars, signals, cfg, n - 1);
      var s := Run(bars, signals, cfg, n - 1);
      ExitPassRows(s.active, bars[n - 1], cfg);
    }
  }

  /** One bar moves trades between the lists and adds exactly the one it opens, if any. */
  lemma StepConservesTrades(s: SimState, bar: Bar, signal: int, cfg: Config)
    ensures var s' := Step(s, bar, signal, cfg);
      multiset(s'.active) + multiset(TradesOf(s'.closed))
        == multiset(s.active) + multiset(TradesOf(s.closed)) + multiset(Opening(s, bar, signal, cfg))
  {
    var exits := ExitPass(s.active, bar, cfg);
    ExitPassPartitions(s.active, bar, cfg);
    TradesOfAppend(s.closed, exits.1);
  }

  /** If a state holds exactly the trades `sofar`, the state after one bar holds those and the bar's new trade. */
  lemma StepExtendsOpened(s: SimState, bar: Bar, signal: int, cfg: Config, sofar: seq<OpenTrade>)
    requires multiset(s.active) + multiset(TradesOf(s.closed)) == multiset(sofar)
    ensures var s' := Step(s, bar, signal, cfg);
      multiset(s'.active) + multiset(TradesOf(s'.closed)) == multiset(sofar + Opening(s, bar, signal, cfg))
  {
    StepConservesTrades(s, bar, signal, cfg);
  }

  /**
   * No trade is lost or duplicated: the active list and the ledger together
   * hold exactly the trades opened so far.
   */
  lemma {:induction false} RunConservesTrades(bars: seq<Bar>, signals: seq<int>, cfg: Config, n: nat)
    requires |signals| == |bars| && n <= |bars|
    ensures multiset(Run(bars, signals, cfg, n).active) + multiset(TradesOf(Run(bars, signals, cfg, n).closed))
      == multiset(Opened(bars, signals, cfg, n))
  {
    if n > 0 {
      RunConservesTrades(bars, signals, cfg, n - 1);
      var s := Run(bars, signals, cfg, n - 1);
      StepExtendsOpened(s, bars[n - 1], signals[n - 1], cfg, Opened(bars, signals, cfg, n - 1));
    }
  }

  /** One bar opens at most one trade. */
  lemma OpeningAtMostOne(s: SimState, bar: Bar, signal: int, cfg: Config)
    ensures |Opening(s, bar, signal, cfg)| <= 1
  {
  }

  /** At most one trade opens per bar. */
  lemma {:induction false} OpenedAtMostOnePerBar(bars: seq<Bar>, signals: seq<int>, cfg: Config, n: nat)
    requires |signals| == |bars| && n <= |bars|
    ensures |Opened(bars, signals, cfg, n)| <= n
  {
    if n > 0 {
      OpenedAtMostOnePerBar(bars, signals, cfg, n - 1);
      var prefix := Opened(bars, signals, cfg, n - 1);
      var step := Opening(Run(bars, signals, cfg, n - 1), bars[n - 1], signals[n - 1], cfg);
      OpeningAtMostOne(Run(bars, signals, cfg, n - 1), bars[n - 1], signals[n - 1], cfg);
      assert Opened(bars, signals, cfg, n) == prefix + step;
    }
  }

  /** Trade times with strictly increasing bars, as an invariant of the state after `n` bars. */
  ghost predicate TimesConsistent(bars: seq<Bar>, n: nat, s: SimState)
    requires n <= |bars|
  {
    && (n == 0 ==> s.active == [] && s.closed == [])
    && (n > 0 ==> EnteredBy(s.active, bars[n - 1].time) && ClosedWithin(s.closed, bars[n - 1].time))
    && EntryOrdered(s.active)
    && LedgerSorted(s.closed)
  }

  /** Every trade of `ts` entered no later than time `t`. */
  predicate EnteredBy(ts: seq<OpenTrade>, t: int) {
    forall k :: 0 <= k < |ts| ==> ts[k].entryTime <= t
  }

  /** Every row of `closed` left after it entered, and no later than time `t`. */
  predicate ClosedWithin(closed: seq<ClosedTrade>, t: int) {
    forall k :: 0 <= k < |closed| ==> closed[k].trade.entryTime < closed[k].exitTime <= t
  }

  /** The rows are ordered by exit time and, on the same exit bar, by entry time. */
  predicate LedgerSorted(closed: seq<ClosedTrade>) {
    forall j, k :: 0 <= j < k < |closed| ==> LedgerOrdered(closed[j], closed[k])
  }

  /** Row `a` may precede row `b`: an earlier exit, or the same exit bar and an earlier entry. */
  predicate LedgerOrdered(a: ClosedTrade, b: ClosedTrade) {
    a.exitTime < b.exitTime || (a.exitTime == b.exitTime && a.trade.entryTime < b.trade.entryTime)
  }

  lemma ExitPassKeepsTimes(active: seq<OpenTrade>, bar: Bar, cfg: Config, bound: int)
    requires forall k :: 0 <= k < |active| ==> active[k].entryTime <= bound
    ensures forall k :: 0 <= k < |ExitPass(active, bar, cfg).0| ==> ExitPass(active, bar, cfg).0[k].entryTime <= bound
    ensures forall k :: 0 <= k < |ExitPass(active, bar, cfg).1| ==> ExitPass(active, bar, cfg).1[k].trade.entryTime <= bound
  {
    var r := ExitPass(active, bar, cfg);
    ExitPassPartitions(active, bar, cfg);
    forall k | 0 <= k < |r.0| ensures r.0[k].entryTime <= bound {
      assert r.0[k] in multiset(active);
    }
    forall k | 0 <= k < |r.1| ensures r.1[k].trade.entryTime <= bound {
      assert TradesOf(r.1)[k] in multiset(active);
    }
  }

  /** One bar of `Run` keeps `TimesConsistent`. */
  lemma StepKeepsTimes(bars: seq<Bar>, signal: int, cfg: Config, n: nat, s: SimState)
    requires 0 < n <= |bars|
    requires StrictlyIncreasing(bars)
    requires TimesConsistent(bars, n - 1, s)
    ensures TimesConsistent(bars, n, Step(s, bars[n - 1], signal, cfg))
  {
    StepKeepsActiveTimes(bars, signal, cfg, n, s);
    StepKeepsClosedTimes(bars, cfg, n, s);
  }

  /** The active list after one bar: entered no later than that bar, and in entry order. */
  lemma StepKeepsActiveTimes(bars: seq<Bar>, signal: int, cfg: Config, n: nat, s: SimState)
    requires 0 < n <= |bars|
    requires StrictlyIncreasing(bars)
    requires TimesConsistent(bars, n - 1, s)
    ensures EnteredBy(Step(s, bars[n - 1], signal, cfg).active, bars[n - 1].time)
    ensures EntryOrdered(Step(s, bars[n - 1], signal, cfg).active)
  {
    var bar := bars[n - 1];
    var exits := ExitPass(s.active, bar, cfg);
    if n > 1 {
      ExitPassKeepsTimes(s.active, bar, cfg, bars[n - 2].time);
      assert bars[n - 2].time < bar.time;
    }
    var e := Enter(exits.0, bar, signal, cfg);
    forall k | 0 <= k < |e| ensures e[k].entryTime <= bar.time {
      if k < |exits.0| {
        assert e[k] == exits.0[k];
      }
    }
    ExitPassKeepsOrder(s.active, bar, cfg);
    SubsequenceKeepsEntryOrder(exits.0, s.active);
    EnterKeepsEntryOrder(exits.0, bar, signal, cfg);
  }

  /**
   * The ledger after one bar: each row left after it entered and no later than that
   * bar, ordered by exit and, on the same bar, by entry.
   */
  lemma StepKeepsClosedTimes(bars: seq<Bar>, cfg: Config, n: nat, s: SimState)
    requires 0 < n <= |bars|
    requires StrictlyIncreasing(bars)
    requires TimesConsistent(bars, n - 1, s)
    ensures ClosedWithin(s.closed + ExitPass(s.active, bars[n - 1], cfg).1, bars[n - 1].time)
    ensures LedgerSorted(s.closed + ExitPass(s.active, bars[n - 1], cfg).1)
  {
    var bar := bars[n - 1];
    var exits := ExitPass(s.active, bar, cfg);
    ExitPassRows(s.active, bar, cfg);
    if n > 1 {
      ExitPassKeepsTimes(s.active, bar, cfg, bars[n - 2].time);
      assert bars[n - 2].time < bar.time;
    }
    var all := s.closed + exits.1;
    forall k | 0 <= k < |all| ensures all[k].trade.entryTime < all[k].exitTime <= bar.time {
      if k >= |s.closed| {
        assert all[k] == exits.1[k - |s.closed|];
      }
    }
    ExitPassKeepsOrder(s.active, bar, cfg);
    SubsequenceKeepsEntryOrder(TradesOf(exits.1), s.active);
    AppendKeepsLedgerOrder(s.closed, exits.1, bar.time);
  }

  /**
   * Appending one bar's exits, which all leave on that bar in entry order, after rows
   * that left earlier keeps the ledger ordered by exit and then by entry.
   */
  lemma AppendKeepsLedgerOrder(earlier: seq<ClosedTrade>, rows: seq<ClosedTrade>, t: int)
    requires forall j, k :: 0 <= j < k < |earlier| ==> LedgerOrdered(earlier[j], earlier[k])
    requires forall k :: 0 <= k < |earlier| ==> earlier[k].exitTime < t
    requires forall k :: 0 <= k < |rows| ==> rows[k].exitTime == t
    requires EntryOrdered(TradesOf(rows))
    ensures LedgerSorted(earlier + rows)
  {
    var all := earlier + rows;
    forall j, k | 0 <= j < k < |all| ensures LedgerOrdered(all[j], all[k]) {
      if k >= |earlier| {
        assert all[k] == rows[k - |earlier|];
        if j >= |earlier| {
          assert all[j] == rows[j - |earlier|];
          assert TradesOf(rows)[j - |earlier|] == all[j].trade;
          assert TradesOf(rows)[k - |earlier|] == all[k].trade;
        }
      }
    }
  }

  /** Appending the bar's new trade, which enters after every survivor, keeps entry order. */
  lemma EnterKeepsEntryOrder(survivors: seq<OpenTrade>, bar: Bar, signal: int, cfg: Config)
    requires EntryOrdered(survivors)
    requires forall k :: 0 <= k < |survivors| ==> survivors[k].entryTime < bar.time
    ensures EntryOrdered(Enter(survivors, bar, signal, cfg))
  {
    var e := Enter(survivors, bar, signal, cfg);
    forall i, j | 0 <= i < j < |e| ensures e[i].entryTime < e[j].entryTime {
      assert e[i] == survivors[i];
      if j < |survivors| {
        assert e[j] == survivors[j];
      }
    }
  }

  /**
   * With strictly increasing bar times, a trade is first checked for exit on the bar after
   * its entry, so every closed row has `entry_time < exit_time`; the ledger is ordered by
   * exit time and, among rows that leave on the same bar, by entry time; and the active
   * list is in entry order.
   */
  lemma {:induction false} RunTimesConsistent(bars: seq<Bar>, signals: seq<int>, cfg: Config, n: nat)
    requires |signals| == |bars| && n <= |bars|
    requires StrictlyIncreasing(bars)
    ensures TimesConsistent(bars, n, Run(bars, signals, cfg, n))
  {
    if n > 0 {
      RunTimesConsistent(bars, signals, cfg, n - 1);
      StepKeepsTimes(bars, signals[n - 1], cfg, n, Run(bars, signals, cfg, n - 1));
    }
  }

  /** Without a `+1` or `-1` signal nothing is ever opened or closed. */
  lemma {:induction false} NoSignalNoTrades(bars: seq<Bar>, signals: seq<int>, cfg: Config, n: nat)
    requires |signals| == |bars| && n <= |bars|
    requires forall i :: 0 <= i < |signals| ==> signals[i] != 1 && signals[i] != -1
    ensures Run(bars, signals, cfg, n) == SimState([], [])
    ensures Opened(bars, signals, cfg, n) == []
  {
    if n > 0 {
      NoSignalNoTrades(bars, signals, cfg, n - 1);
      var s := Run(bars, signals, cfg, n - 1);
      var bar := bars[n - 1];
      assert ExitPass(s.active, bar, cfg) == ([], []);
    }
  }
}
