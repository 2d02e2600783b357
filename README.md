# EURUSD trend-entry backtest, modelled in Dafny

This project models the backtest engine of a EUR/USD strategy. Bollinger-band
trend starts on 30-minute bars, filtered by volume, open entry windows on
3-minute bars. Inside a window, a buy (+1) or sell (-1) signal is given when the
previous bar's close lies beyond the previous bar's 10-period EMA by more than a pip
threshold, above it in an uptrend window and below it in a downtrend window. A simulator then runs
fixed take-profit / stop-loss trades over those bars, allowing several open
trades up to a cap. A reporting step reduces the trade ledger to performance
metrics. The data fetcher's clock helpers are modelled too: when a fetch is
due, and dropping the still-forming last candle.

Modules, one per source concern:

- `Frames` (`frames.dfy`): the OHLCV bar and `sort_index`, as a sort by timestamp.
- `Signals` (`signals.dfy`): trend detection, eligibility marking and entry signals.
- `TradeLifecycle` (`trades.dfy`): the per-bar trade loop shared by both simulators.
  - `Run` is the state after `n` bars.
  - `Opened` lists every trade opened so far.
  - The exit-pass method and the bar loop are proved equal to `Run`.
- `BacktesterSimulation` (`backtester_simulation.dfy`): the backtester's simulator. Trades still open at the end are force-closed with reason `'open'`.
- `MainSimulation` (`main_simulation.dfy`): `main.simulation`, the simulator `backtest.py` imports (backtest.py:9). It drops the trades still open at the end.
- `Reporting` (`reporting.dfy`): `calculate_trading_metrics`.
- `CandleTiming` (`candle_timing.dfy`): `should_fetch_m30`, `should_fetch_m3` and `remove_incomplete_candle`.
- `Scenarios` (`scenarios.dfy`): concrete worked instances with the configured constants.
- `Wrappers` (`wrappers.dfy`): `Option` and `Result`.

How values are represented:

- Bar timestamps on the trading frames are integer minutes.
- The fetcher's timestamps are a day number plus hour, minute, second and microsecond.
- Prices, volumes and P&L are `real`.
- The force-close P&L is a numpy float64 quotient by `pip_size` (backtester/simulation.py:104). It is modelled as `Finite`, `PlusInfinity`, `MinusInfinity` or `NotANumber`, because numpy divides by a zero pip size without raising.
- A missing indicator value (`NaN`) is `None`.
- Each failing Python statement is modelled as a `Failure` value:
  - the sorted-index `assert` at backtester/signals.py:21;
  - the `IndexError` on an empty M3 frame at backtester/signals.py:127;
  - the `ValueError` of `replace(hour=24)` at data.py:116 and data.py:121.

Where a docstring or comment and the code differ, the model follows the code:

- **Window end:** `mark_m3_entry_eligibility`'s docstring says a window lasts until an opposite-direction signal. The code ends it at the next signal of either direction (backtester/signals.py:127). The final signal's window ends strictly before the last 3-minute timestamp (`Signals.EligibleBarBounds`). So the last 3-minute bar is never eligible when the 3-minute data runs at least to the final signal (`Signals.LastBarIneligibleAfterFinalSignal`). When the data stops before it, an earlier window can still hold that bar (`Scenarios.LastBarEligibleWhenDataEndsBeforeFinalSignal`).
- **Other M30 minutes:** the M30 branch of `remove_incomplete_candle` is commented "minute == 30". In the code, every minute other than 0 closes at :00 of the next hour (data.py:115-116).
- **Other intervals:** any interval other than 30 takes the 3-minute branch (data.py:117).

## Model

| member | source | states |
|---|---|---|
| Frames.SortBy | backtester/signals.py:99-100 | the sorted copy is a permutation of the frame (same multiset of rows) ordered by timestamp |
| Signals.Shift | backtester/signals.py:41-51 | the shifted column keeps its length, is missing in the first row and holds each row's predecessor value elsewhere |
| Signals.DetectTrends | backtester/signals.py:21-51 | fails iff the index is not sorted; otherwise keeps every row and sets `uptrend_start` iff previous close < previous lower band < current close and volume > uptrend threshold, and `downtrend_start` as the mirror on the previous upper band |
| Signals.TrendStartsExclusive | backtester/signals.py:41-51 | when the previous lower band is at most the previous upper band, no bar starts both trends |
| Signals.TrendSignals | backtester/signals.py:113-119 | every selected row starts a trend, there are at most as many as rows, they are in time order when the frame is, the first is a row of the frame, and there are none iff no row is flagged |
| Signals.TrendSignalsSelectsStart | backtester/signals.py:113-119 | a flagged row is selected, at the position counting the flagged rows before it |
| Signals.TrendSignalsCountsStarts | backtester/signals.py:113-119 | the selection has exactly as many rows as the frame has flagged rows |
| Signals.TrendSignalsSelectsEveryStart | backtester/signals.py:113-119 | the selection is every flagged row, each once, in frame order: its length is the flagged count and each flagged row sits after the flagged rows before it |
| Signals.MarkEntryEligibility | backtester/signals.py:99-143 | fails iff there are signals but no 3-minute bars; otherwise returns the sorted 3-minute bars, each marked with what the window loop leaves on it; without signals every bar is ineligible |
| Signals.EligibilityAt | backtester/signals.py:122-143 | a bar is ineligible iff no signal's window holds it; an eligible bar carries the direction and trigger time of a window that holds it |
| Signals.MarkWindows | backtester/signals.py:122-143 | the in-place mask loop over an array leaves on every bar the mark of the last window holding it, or none |
| Signals.MarkAfterInWindow | backtester/signals.py:122-143 | after `n` signals a bar is ineligible iff none of their windows holds it; an eligible bar carries the direction and time of a window that does |
| Signals.WindowsDisjoint | backtester/signals.py:127-138 | between sorted signals two different windows never share a bar |
| Signals.MarkAfterOfWindow | backtester/signals.py:138-143 | a bar inside window `k` carries exactly window `k`'s direction and trigger time |
| Signals.EligibilityIsTheWindow | backtester/signals.py:122-143 | a bar is eligible iff some window `[t_k + 30, end_k)` holds it, and then its direction and trigger are that window's |
| Signals.EligibleBarBounds | backtester/signals.py:127-138 | an eligible bar lies at or after 30 minutes past its trigger and before the next signal, or before the last 3-minute timestamp for the final signal |
| Signals.LastBarIneligibleAfterFinalSignal | backtester/signals.py:122-143 | with sorted signals and 3-minute data reaching the final signal's time, the last 3-minute bar is ineligible |
| Signals.SignalBarNeverEligible | backtester/signals.py:133-138 | a 3-minute bar inside the 30-minute signal bar itself is never eligible |
| Signals.GenerateEntrySignals | backtester/signals.py:181-215 | signal is +1 iff the bar is eligible in an uptrend and the previous close exceeds the previous EMA plus the threshold; -1 iff the downtrend mirror holds; 0 otherwise |
| Signals.EntryOnlyInsideMatchingWindow | backtester/signals.py:99-215 | on 3-minute bars carrying the marks the eligibility loop leaves, a non-zero entry signal lies inside some trend window whose direction matches its sign |
| TradeLifecycle.CheckExit | backtester/simulation.py:35-70 | the trade closes iff the bar touches its stop or target; the row exits at the bar's time at that level for `-sl_pips` or `tp_pips`; a bar touching both closes at the stop |
| TradeLifecycle.ExitPass | backtester/simulation.py:34-74 | survivors and closed rows together number exactly the active trades |
| TradeLifecycle.ExitPassKeepsOrder | backtester/simulation.py:34-74 | the survivors, and the trades of the rows closed in the pass, each keep the active list's relative order |
| TradeLifecycle.SubsequenceKeepsEntryOrder | backtester/simulation.py:34-74 | leaving trades out of an entry-ordered list keeps it entry-ordered |
| TradeLifecycle.EnterKeepsEntryOrder | backtester/simulation.py:76-98 | appending the bar's new trade after survivors that all entered earlier keeps the active list in entry order |
| TradeLifecycle.ExitPassPartitions | backtester/simulation.py:34-74 | the exit pass neither loses nor duplicates a trade: survivors plus closed rows are the active list |
| TradeLifecycle.ExitPassRows | backtester/simulation.py:34-74 | survivors touched neither level; every row closed in the pass is a boundary exit at the bar's time |
| TradeLifecycle.NewEntry | backtester/simulation.py:76-98 | one trade opens iff fewer than the cap are open and the signal is +1 or -1; it enters at the bar's open, a long for +1, with stop and target at the pip distances on the right sides |
| TradeLifecycle.ManageExistingTrades | backtester/simulation.py:33-74 | the loop's survivors and appended rows are exactly those of the exit pass |
| TradeLifecycle.CheckNewEntry | backtester/simulation.py:76-98 | the entry check appends exactly the trade `NewEntry` describes |
| TradeLifecycle.Run | backtester/simulation.py:21-98 | after `n` bars the open and closed lists together hold at most `n` trades |
| TradeLifecycle.SimulateBars | backtester/simulation.py:21-98 | after the loop the active and closed lists are those of `Run` over all bars |
| TradeLifecycle.RunRespectsCap | backtester/simulation.py:74-77 | after every bar the number of open trades is at most `max_concurrent_trades` (and 0 for a non-positive cap) |
| TradeLifecycle.RunClosesOnBoundaries | backtester/simulation.py:39-70 | every row the loop closes is an 'sl' exit at the stop for `-sl_pips` or a 'tp' exit at the target for `tp_pips` |
| TradeLifecycle.StepConservesTrades | backtester/simulation.py:28-98 | one bar moves trades between the lists and adds exactly the trade it opens, if any |
| TradeLifecycle.StepExtendsOpened | backtester/simulation.py:28-98 | if the lists hold exactly the trades opened so far, after one more bar they hold those plus the bar's new trade |
| TradeLifecycle.RunConservesTrades | backtester/simulation.py:21-98 | after every bar, open trades plus closed rows are exactly the trades opened so far, none lost or duplicated |
| TradeLifecycle.OpeningAtMostOne | backtester/simulation.py:76-98 | one bar opens at most one trade |
| TradeLifecycle.OpenedAtMostOnePerBar | backtester/simulation.py:76-98 | at most one trade opens per bar |
| TradeLifecycle.ExitPassKeepsTimes | backtester/simulation.py:34-74 | the exit pass keeps an upper bound on entry times |
| TradeLifecycle.StepKeepsTimes | backtester/simulation.py:28-98 | one bar preserves the timing and ordering invariant |
| TradeLifecycle.StepKeepsActiveTimes | backtester/simulation.py:28-98 | after one bar every open trade entered no later than that bar, and the open list is in entry order |
| TradeLifecycle.StepKeepsClosedTimes | backtester/simulation.py:28-98 | after one bar every closed row exits after its entry and no later than that bar, ordered by exit time and, on the same bar, by entry time |
| TradeLifecycle.AppendKeepsLedgerOrder | backtester/simulation.py:34-74 | appending one bar's exits, in entry order, after rows that exited earlier keeps the ledger ordered by exit time and then entry time |
| TradeLifecycle.RunTimesConsistent | backtester/simulation.py:28-98 | with increasing bar times every closed row exits strictly after its entry and no later than the current bar; rows are ordered by exit time and, on the same bar, by entry time; open trades are in entry order |
| TradeLifecycle.NoSignalNoTrades | backtester/simulation.py:76-98 | without a +1 or -1 signal nothing is opened or closed |
| BacktesterSimulation.FloatDiv | backtester/simulation.py:104 | numpy float division: finite iff the divisor is non-zero, and then the quotient times the divisor is the numerator; by zero, +inf, -inf or NaN as the numerator is positive, negative or zero |
| BacktesterSimulation.PnlPips | backtester/simulation.py:104 | the force-close profit is finite iff the pip size is non-zero, and then times the pip size it is the move in the trade's favour; with a positive pip size it is positive iff the trade gained; with a zero pip size it is +inf iff the trade gained and NaN iff the price did not move |
| BacktesterSimulation.ForceCloseAll | backtester/simulation.py:100-107 | one row per still-open trade, in order, each an 'open' exit at the last bar's time and close with that profit |
| BacktesterSimulation.CloseOpenTrades | backtester/simulation.py:100-107 | the finalisation loop returns exactly the rows `ForceCloseAll` describes |
| BacktesterSimulation.Ledger | backtester/simulation.py:4-110 | the ledger has one row per trade the loop closed plus one per trade still open |
| BacktesterSimulation.SimulateFixedTpSlTrades | backtester/simulation.py:4-110 | the method returns the loop's closed rows followed by the finalisation rows |
| BacktesterSimulation.NonFinitePnlOnlyFromZeroPipSize | backtester/simulation.py:100-107 | a row's profit is non-finite iff `pip_size` is 0 and the row is a finalised one |
| BacktesterSimulation.LedgerHoldsEveryOpenedTrade | backtester/simulation.py:21-107 | every opened trade appears in the ledger exactly once, so the ledger has at most one row per bar |
| BacktesterSimulation.LedgerRows | backtester/simulation.py:39-107 | the leading rows are the loop's boundary exits and the trailing ones are end-of-data closes on the last bar of the still-open trades, in their order |
| BacktesterSimulation.LedgerTimes | backtester/simulation.py:28-107 | with increasing bar times the ledger is ordered by exit time, exits are at most the last bar's time, and entry <= exit, strictly unless force-closed |
| BacktesterSimulation.ClosedRowsSameBarInEntryOrder | backtester/simulation.py:34-74 | among the loop's rows, those exiting on the same bar are in entry order |
| BacktesterSimulation.FinalRowsInEntryOrder | backtester/simulation.py:100-107 | the finalised rows are in entry order |
| BacktesterSimulation.NoSignalEmptyLedger | backtester/simulation.py:76-110 | with no +1 or -1 signal the ledger is empty |
| MainSimulation.Ledger | main/simulation.py:4-102 | the ledger rows plus the trades left open number at most the bars |
| MainSimulation.SimulateFixedTpSlTrades | main/simulation.py:4-102 | the method returns the loop's closed rows, without finalising open trades |
| MainSimulation.LedgerRowsAreBoundaryExits | main/simulation.py:39-70 | every row is a boundary exit with profit `-sl_pips` or `tp_pips`, and none has reason 'open' |
| MainSimulation.LedgerDropsOpenTrades | main/simulation.py:21-98 | ledger rows plus the trades left open are exactly the trades opened; ledger length is at most the opened count and the bar count |
| MainSimulation.LedgerTimes | main/simulation.py:28-98 | with increasing bar times every row exits strictly after its entry, the ledger is ordered by exit time, and rows exiting on the same bar are in entry order |
| MainSimulation.LedgerIsBacktesterLedgerWithoutOpenRows | main/simulation.py:4-102 | on the same input the backtester ledger starts with this ledger's rows, and exactly its remaining rows have reason 'open' |
| Reporting.Where | main/reporting.py:54-55 | the `wins`/`losses` selection keeps only values of that outcome |
| Reporting.WhereMembers | main/reporting.py:54-55 | the selection holds exactly the values of that outcome |
| Reporting.OutcomesPartition | main/reporting.py:47-50 | winning + losing + breakeven = total trades |
| Reporting.SumSplits | main/reporting.py:52-63 | total P&L is the winning sum plus the losing sum |
| Reporting.Mean | main/reporting.py:57-58 | the mean times the count is the sum; 0 for an empty selection |
| Reporting.LargestWin | main/reporting.py:59 | the greatest positive P&L, at least every win, 0 when no trade won |
| Reporting.LargestLoss | main/reporting.py:60 | the most negative P&L, at most every loss, 0 when no trade lost |
| Reporting.AverageWinWithinLargest | main/reporting.py:57-59 | the average win is positive and at most the largest win |
| Reporting.AverageLossWithinLargest | main/reporting.py:58-60 | the average loss is negative and at least the largest loss |
| Reporting.PositiveSum | main/reporting.py:62 | gross profit is non-negative, and positive when some trade won |
| Reporting.NegativeSum | main/reporting.py:63 | the losing sum is non-positive, and negative when some trade lost |
| Reporting.ProfitFactorOf | main/reporting.py:62-64 | infinite iff no trade lost; otherwise profit factor times gross loss is gross profit, it is 0 iff no trade won, and it exceeds 1 iff profit exceeds loss |
| Reporting.CurrentBoundsSuffix | main/reporting.py:66-79 | no stretch ending at the last trade and free of the opposite outcome holds more trades of the outcome than the running counter |
| Reporting.CurrentIsAttained | main/reporting.py:66-79 | some stretch ending at the last trade and free of the opposite outcome holds exactly the running counter |
| Reporting.CurrentIsUnbrokenSuffix | main/reporting.py:66-79 | the running counter is the count of the outcome in the longest run ending at the last trade free of the opposite outcome |
| Reporting.LongestBoundsStreaks | main/reporting.py:66-79 | no stretch free of the opposite outcome holds more trades of the outcome than the maximum |
| Reporting.LongestIsAttained | main/reporting.py:66-79 | some stretch free of the opposite outcome holds exactly the maximum |
| Reporting.LongestIsLongestStreak | main/reporting.py:66-79 | the maximum is the longest streak, with breakeven trades neither counted nor breaking it |
| Reporting.LongestAtMostCount | main/reporting.py:66-79 | the longest win (loss) streak is at most the number of winning (losing) trades |
| Reporting.MaxConsecutive | main/reporting.py:66-79 | the streak loop computes the longest win and loss streaks |
| Reporting.ReasonCount | main/reporting.py:83 | the count is positive iff some row has that exit reason |
| Reporting.ExitReasonCountsKeys | main/reporting.py:83 | `exit_reasons` has exactly the reasons that occur, each with its number of rows |
| Reporting.ReasonCountsPartition | main/reporting.py:83 | 'sl', 'tp' and 'open' rows together are all rows |
| Reporting.ExitReasonCountsSumToTotal | main/reporting.py:83 | the exit-reason counts add up to the number of trades |
| Reporting.WinRate | main/reporting.py:51 | win rate times total is winning times 100; it lies in [0, 100], is 100 iff every trade won, and is 0 with no trades |
| Reporting.CalculateTradingMetrics | main/reporting.py:37-83 | an empty ledger gives all-zero metrics; otherwise each field is its aggregate, with counts partitioning the total, win rate in [0, 100], streaks bounded by counts, profit factor infinite iff no loss, reason counts summing to the total, and averages within the extremes |
| CandleTiming.BeforeIsLexicographic | data.py:126 | timestamp order is lexicographic on day, hour, minute, second and microsecond |
| CandleTiming.ShouldFetchM30 | data.py:81-83 | a 30-minute fetch is due iff the minute of the day is a multiple of 30 and the second is 0 |
| CandleTiming.ShouldFetchM3 | data.py:85-87 | a 3-minute fetch is due iff the minute of the day is a multiple of 3 and the second is 0 |
| CandleTiming.M30FetchIsM3Fetch | data.py:81-87 | every 30-minute fetch time is a 3-minute fetch time, namely those at a minute divisible by 30 |
| CandleTiming.ExpectedClose | data.py:110-123 | fails iff the close would fall at hour 24; otherwise the close is strictly later on the same day with seconds kept. A 30-minute candle at :00 closes 30 minutes later, and any other at :00 of the next hour. Other intervals close at the next multiple of 3 minutes after the candle's minute |
| CandleTiming.RemoveIncompleteCandle | data.py:89-130 | a missing or empty frame is returned as is; otherwise it fails iff the expected close fails, drops the last row iff now is before the expected close, and else returns the frame unchanged |
| CandleTiming.RemovesAtMostLastCandle | data.py:125-130 | the result is the frame or the frame without its last row |
| Scenarios.DipAndRecoverStartsOneUptrend | backtester/signals.py:41-51 | on a five-bar dip under the band 1.0950 and back, with volume 9000 > 8000, only the recovering bar starts an uptrend |
| Scenarios.WindowOpensAtSignalClose | backtester/signals.py:136-138 | for an uptrend signal at 10:00, a 3-minute bar at 10:29 is not eligible and one at 10:30 is |
| Scenarios.LastBarEligibleWhenDataEndsBeforeFinalSignal | backtester/signals.py:127-138 | with an uptrend at 10:00, a downtrend at 16:40 and 3-minute data ending at 10:30, the last 3-minute bar is eligible as an uptrend from 10:00 |
| Scenarios.LongEntryLevels | backtester/simulation.py:80-87 | a long at 1.1000 with 80/20 pips at pip 0.0001 has its target at 1.1080 and its stop at 1.0980 |
| Scenarios.LongStoppedBeforeTarget | backtester/simulation.py:37-53 | that long stops out on a low of 1.0980 even if the high also reaches 1.1080, takes profit on a high of 1.1080 otherwise, and stays open below both |

## Left out

- Indicator numerics (`talib.BBANDS`, `talib.EMA`): the band and EMA columns are inputs, with `None` where the library yields `NaN`.
  - The EMA period is hard-coded to 10 at backtester/signals.py:185, ignoring `EMA_PERIOD`.
- `backtest.py`: CSV loading and orchestration glue.
  - Its early exit when `entry_signal.sum() == 0` (backtest.py:57) also skips simulation when buy and sell counts are equal. This is not modelled.
- The datetime-dtype `assert` at backtester/signals.py:22, and timezone and dtype handling: timestamps are plain integers or `Stamp` values.
- Logging throughout, `save_results_to_csv` and `print_trading_metrics`: output only.
- The `dual_entry` branch of `calculate_trading_metrics` (main/reporting.py:85-95): it needs `trade_id` and `trailing_sl` fields that neither simulator produces.
- MetaTrader 5 and TradingView access, `forward_test.py`, and the data fetcher's network, retry, thread, sleep and CSV code: foreign APIs and I/O.
- The wall-clock read at data.py:94: the current time is the parameter `now`.
- `config.py`: its constants are parameters. `Scenarios` uses the configured volume threshold 8000, take-profit 80, stop-loss 20, pip size 0.0001 and cap 10.
- Floating-point rounding: prices and P&L are exact reals; only the force-close division models the infinities and `NaN` of a zero divisor.
- Reporting.CalculateTradingMetrics: it takes rows with a finite P&L, as `main.simulation` produces them. Metrics over the backtester's infinite or `NaN` force-close rows, and signed zero, are not modelled.
- Default arguments: `detect_bb_trends_with_volume`'s thresholds default to 2000 and 2500 (backtester/signals.py:5), and `generate_entry_signals`'s `pip_size` to 0.0001 (backtester/signals.py:163). `backtest.py` passes each of them explicitly (backtest.py:44-55), so the model takes them as parameters without defaults.
- `backtest.py` imports `main.signals` (backtest.py:9). `main/signals.py` is not part of this model; the signal functions follow backtester/signals.py.
- Frames.SortBy: `sort_index` is modelled as a stable sort. pandas' default sort is not stable, so rows with equal timestamps may come out in another order.
- Trade records: the source mutates a trade's dict in place when it closes. The model builds a new closed-trade value, and no other reference to the dict exists in either simulator.
- Reporting.CalculateTradingMetrics: `exit_reasons` is a map, so the descending-count key order of `value_counts().to_dict()` is not modelled.
