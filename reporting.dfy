/**
 * The performance metrics computed from a trade ledger: counts of winning,
 * losing and breakeven trades, sums, averages and extremes of the profit in
 * pips, the profit factor, the longest win and loss streaks, and the number
 * of trades per exit reason.
 */
module Reporting {
  import opened TradeLifecycle

  // ---------------------------------------------------------------- the P&L column

  /** `pnl > 0`, `pnl < 0` and `pnl == 0`. */
  datatype Outcome = Win | Loss | Even

  function OutcomeOf(pnl: real): Outcome {
    if pnl > 0.0 then Win else if pnl < 0.0 then Loss else Even
  }

  /** The `pnl_pips` column of the ledger. */
  function PnlColumn(ledger: seq<ClosedTrade>): (r: seq<real>)
    ensures |r| == |ledger| && forall k :: 0 <= k < |r| ==> r[k] == ledger[k].pnlPips
  {
    seq(|ledger|, k requires 0 <= k < |ledger| => ledger[k].pnlPips)
  }

  /** The P&L values of one outcome in ledger order: the `wins` and `losses` selections. */
  function Where(s: seq<real>, o: Outcome): (r: seq<real>)
    ensures |r| <= |s|
    ensures forall k :: 0 <= k < |r| ==> OutcomeOf(r[k]) == o
  {
    if |s| == 0 then []
    else Where(s[..|s| - 1], o) + (if OutcomeOf(s[|s| - 1]) == o then [s[|s| - 1]] else [])
  }

  /** The selection holds exactly the values of `s` with outcome `o`. */
  lemma {:induction false} WhereMembers(s: seq<real>, o: Outcome)
    ensures forall x :: x in Where(s, o) <==> x in s && OutcomeOf(x) == o
  {
    if |s| > 0 {
      WhereMembers(s[..|s| - 1], o);
      assert s == s[..|s| - 1] + [s[|s| - 1]];
    }
  }

  /** Every trade is exactly one of winning, losing or breakeven. */
  lemma {:induction false} OutcomesPartition(s: seq<real>)
    ensures |Where(s, Win)| + |Where(s, Loss)| + |Where(s, Even)| == |s|
  {
    if |s| > 0 {
      OutcomesPartition(s[..|s| - 1]);
    }
  }

  function Sum(s: seq<real>): real {
    if |s| == 0 then 0.0 else Sum(s[..|s| - 1]) + s[|s| - 1]
  }

  lemma SumAppend(s: seq<real>, x: real)
    ensures Sum(s + [x]) == Sum(s) + x
  {
    assert (s + [x])[..|s|] == s;
  }

  /** The total P&L is the winning sum plus the (negative) losing sum; breakeven trades add nothing. */
  lemma {:induction false} SumSplits(s: seq<real>)
    ensures Sum(s) == Sum(Where(s, Win)) + Sum(Where(s, Loss))
  {
    if |s| > 0 {
      var init := s[..|s| - 1];
      var x := s[|s| - 1];
      SumSplits(init);
      if OutcomeOf(x) == Win {
        SumAppend(Where(init, Win), x);
        assert Where(init, Loss) + [] == Where(init, Loss);
      } else if OutcomeOf(x) == Loss {
        SumAppend(Where(init, Loss), x);
        assert Where(init, Win) + [] == Where(init, Win);
      } else {
        assert Where(init, Win) + [] == Where(init, Win);
        assert Where(init, Loss) + [] == Where(init, Loss);
      }
    }
  }

  /** A sum of values at most `m` is at most `|s| * m`, and of values at least `m` at least `|s| * m`. */
  lemma {:induction false} SumBounds(s: seq<real>, m: real)
    ensures (forall k :: 0 <= k < |s| ==> s[k] <= m) ==> Sum(s) <= m * |s| as real
    ensures (forall k :: 0 <= k < |s| ==> s[k] >= m) ==> Sum(s) >= m * |s| as real
  {
    if |s| > 0 {
      SumBounds(s[..|s| - 1], m);
    }
  }

  /** The mean of a selection, 0 when it is empty. */
  function Mean(s: seq<real>): (r: real)
    ensures |s| > 0 ==> r * |s| as real == Sum(s)
    ensures |s| == 0 ==> r == 0.0
  {
    if |s| == 0 then 0.0 else Sum(s) / |s| as real
  }

  function SeqMax(s: seq<real>): (r: real)
    requires |s| > 0
    ensures r in s && forall k :: 0 <= k < |s| ==> s[k] <= r
  {
    if |s| == 1 then s[0]
    else
      var m := SeqMax(s[..|s| - 1]);
      if s[|s| - 1] > m then s[|s| - 1] else m
  }

  function SeqMin(s: seq<real>): (r: real)
    requires |s| > 0
    ensures r in s && forall k :: 0 <= k < |s| ==> r <= s[k]
  {
    if |s| == 1 then s[0]
    else
      var m := SeqMin(s[..|s| - 1]);
      if s[|s| - 1] < m then s[|s| - 1] else m
  }

  /** `largest_win_pips`: the greatest positive P&L, 0 when no trade won. */
  function LargestWin(s: seq<real>): (r: real)
    ensures |Where(s, Win)| == 0 ==> r == 0.0
    ensures |Where(s, Win)| > 0 ==> r > 0.0 && r in s
    ensures forall k :: 0 <= k < |s| && s[k] > 0.0 ==> s[k] <= r
  {
    var wins := Where(s, Win);
    WhereMembers(s, Win);
    assert forall k :: 0 <= k < |s| && s[k] > 0.0 ==> s[k] in wins;
    if |wins| == 0 then 0.0 else SeqMax(wins)
  }

  /** `largest_loss_pips`: the most negative P&L, 0 when no trade lost. */
  function LargestLoss(s: seq<real>): (r: real)
    ensures |Where(s, Loss)| == 0 ==> r == 0.0
    ensures |Where(s, Loss)| > 0 ==> r < 0.0 && r in s
    ensures forall k :: 0 <= k < |s| && s[k] < 0.0 ==> r <= s[k]
  {
    var losses := Where(s, Loss);
    WhereMembers(s, Loss);
    assert forall k :: 0 <= k < |s| && s[k] < 0.0 ==> s[k] in losses;
    if |losses| == 0 then 0.0 else SeqMin(losses)
  }

  /** `a * n <= b * n` with `n` positive gives `a <= b`. */
  lemma CancelPositive(a: real, b: real, n: real)
    requires n > 0.0 && a * n <= b * n
    ensures a <= b
  {
    assert (b - a) * n == b * n - a * n;
  }

  /** The mean of values within `[lo, hi]` is within `[lo, hi]`. */
  lemma MeanBounds(xs: seq<real>, lo: real, hi: real)
    requires |xs| > 0
    requires forall k :: 0 <= k < |xs| ==> lo <= xs[k] <= hi
    ensures lo <= Mean(xs) <= hi
  {
    var n := |xs| as real;
    var m := Mean(xs);
    SumBounds(xs, lo);
    SumBounds(xs, hi);
    CancelPositive(m, hi, n);
    CancelPositive(lo, m, n);
  }

  /** The average win lies in `(0, largest win]`. */
  lemma AverageWinWithinLargest(s: seq<real>)
    requires |Where(s, Win)| > 0
    ensures 0.0 < Mean(Where(s, Win)) <= LargestWin(s)
  {
    var wins := Where(s, Win);
    assert LargestWin(s) == SeqMax(wins);
    MeanBounds(wins, SeqMin(wins), SeqMax(wins));
  }

  /** The average loss lies in `[largest loss, 0)`. */
  lemma AverageLossWithinLargest(s: seq<real>)
    requires |Where(s, Loss)| > 0
    ensures LargestLoss(s) <= Mean(Where(s, Loss)) < 0.0
  {
    var losses := Where(s, Loss);
    assert LargestLoss(s) == SeqMin(losses);
    MeanBounds(losses, SeqMin(losses), SeqMax(losses));
  }

  /** A non-empty sum of positive values is positive. */
  lemma {:induction false} PositiveSum(s: seq<real>)
    requires forall k :: 0 <= k < |s| ==> s[k] > 0.0
    ensures |s| > 0 ==> Sum(s) > 0.0
    ensures Sum(s) >= 0.0
  {
    if |s| > 0 {
      PositiveSum(s[..|s| - 1]);
    }
  }

  /** A non-empty sum of negative values is negative. */
  lemma {:induction false} NegativeSum(s: seq<real>)
    requires forall k :: 0 <= k < |s| ==> s[k] < 0.0
    ensures |s| > 0 ==> Sum(s) < 0.0
    ensures Sum(s) <= 0.0
  {
    if |s| > 0 {
      NegativeSum(s[..|s| - 1]);
    }
  }

  // ---------------------------------------------------------------- profit factor

  /** `profit_factor`: `float('inf')` is `Infinite`. */
  datatype ProfitFactor = Finite(value: real) | Infinite

  /**
   * Gross profit over gross loss; infinite when no trade lost, even when none
   * won either.
   */
  function ProfitFactorOf(s: seq<real>): (r: ProfitFactor)
    ensures r.Infinite? <==> |Where(s, Loss)| == 0
    ensures r.Finite? ==>
      && r.value >= 0.0
      && r.value * -Sum(Where(s, Loss)) == Sum(Where(s, Win))
      && (r.value == 0.0 <==> |Where(s, Win)| == 0)
      && (r.value > 1.0 <==> Sum(Where(s, Win)) > -Sum(Where(s, Loss)))
  {
    var totalProfit := Sum(Where(s, Win));
    var sumLosses := Sum(Where(s, Loss));
    var totalLoss := if sumLosses < 0.0 then -sumLosses else sumLosses;
    PositiveSum(Where(s, Win));
    NegativeSum(Where(s, Loss));
    if totalLoss > 0.0 then
      QuotientFacts(totalProfit, totalLoss);
      Finite(totalProfit / totalLoss)
    else Infinite
  }

  /** The quotient of a non-negative profit by a positive loss. */
  lemma QuotientFacts(p: real, l: real)
    requires p >= 0.0 && l > 0.0
    ensures (p / l) * l == p && p / l >= 0.0
    ensures p / l == 0.0 <==> p == 0.0
    ensures p / l > 1.0 <==> p > l
  {
    var q := p / l;
    assert q * l == p;
    CancelPositive(0.0, q, l);
    if p == 0.0 {
      CancelPositive(q, 0.0, l);
    }
    if p <= l {
      CancelPositive(q, 1.0, l);
    } else {
      CancelPositive(1.0, q, l);
      assert q != 1.0;
    }
  }

  // ---------------------------------------------------------------- streaks

  /** The outcome that resets a streak of `o`. */
  function Breaker(o: Outcome): Outcome {
    match o
    case Win => Loss
    case Loss => Win
    case Even => Even
  }

  /** The `consecutive_wins` / `consecutive_losses` counter after the trades of `s`. */
  function Current(s: seq<real>, o: Outcome): nat {
    if |s| == 0 then 0
    else if OutcomeOf(s[|s| - 1]) == o then Current(s[..|s| - 1], o) + 1
    else if OutcomeOf(s[|s| - 1]) == Breaker(o) then 0
    else Current(s[..|s| - 1], o)
  }

  /** The `max_consecutive_wins` / `max_consecutive_losses` value after the trades of `s`. */
  function Longest(s: seq<real>, o: Outcome): nat {
    if |s| == 0 then 0
    else
      var m := Longest(s[..|s| - 1], o);
      var c := Current(s, o);
      if m < c then c else m
  }

  /** The stretch `s[lo..hi]` holds no trade that would reset a streak of `o`. */
  predicate Unbroken(s: seq<real>, o: Outcome, lo: int, hi: int)
    requires 0 <= lo <= hi <= |s|
  {
    forall k :: lo <= k < hi ==> OutcomeOf(s[k]) != Breaker(o)
  }

  /**
   * `m` is the longest streak of `o`: the most trades of outcome `o` in any
   * stretch of the ledger free of the opposite outcome (breakeven trades
   * inside a stretch neither count nor break it), and some stretch has that many.
   */
  ghost predicate IsLongestStreak(s: seq<real>, o: Outcome, m: nat) {
    && (forall lo, hi :: 0 <= lo <= hi <= |s| && Unbroken(s, o, lo, hi) ==> |Where(s[lo..hi], o)| <= m)
    && (exists lo, hi :: 0 <= lo <= hi <= |s| && Unbroken(s, o, lo, hi) && |Where(s[lo..hi], o)| == m)
  }

  /** Counting over a stretch that ends one trade later. */
  lemma WhereSliceSnoc(s: seq<real>, o: Outcome, lo: int, hi: int)
    requires 0 <= lo < hi <= |s|
    ensures |Where(s[lo..hi], o)| == |Where(s[lo..hi - 1], o)| + (if OutcomeOf(s[hi - 1]) == o then 1 else 0)
  {
    assert s[lo..hi][..hi - lo - 1] == s[lo..hi - 1];
  }

  /** No unbroken stretch ending at the last trade holds more trades of `o` than the current counter. */
  lemma {:induction false} CurrentBoundsSuffix(s: seq<real>, o: Outcome, lo: int)
    requires o == Win || o == Loss
    requires 0 <= lo <= |s| && Unbroken(s, o, lo, |s|)
    ensures |Where(s[lo..], o)| <= Current(s, o)
  {
    var n := |s|;
    if lo < n {
      var init := s[..n - 1];
      assert s[lo..n - 1] == init[lo..];
      assert Unbroken(init, o, lo, n - 1);
      CurrentBoundsSuffix(init, o, lo);
      WhereSliceSnoc(s, o, lo, n);
      assert s[lo..] == s[lo..n];
    }
  }

  /** Some unbroken stretch ending at the last trade holds exactly the current counter. */
  lemma {:induction false} CurrentIsAttained(s: seq<real>, o: Outcome)
    requires o == Win || o == Loss
    ensures exists lo :: 0 <= lo <= |s| && Unbroken(s, o, lo, |s|) && |Where(s[lo..], o)| == Current(s, o)
  {
    var n := |s|;
    if n == 0 || OutcomeOf(s[n - 1]) == Breaker(o) {
      assert Unbroken(s, o, n, n) && |Where(s[n..], o)| == 0;
    } else {
      var init := s[..n - 1];
      CurrentIsAttained(init, o);
      var lo :| 0 <= lo <= n - 1 && Unbroken(init, o, lo, n - 1) && |Where(init[lo..], o)| == Current(init, o);
      WhereSliceSnoc(s, o, lo, n);
      assert s[lo..n - 1] == init[lo..];
      assert s[lo..] == s[lo..n];
      assert Unbroken(s, o, lo, n);
    }
  }

  /** The current counter is the count of `o` over the longest unbroken stretch ending at the last trade. */
  lemma CurrentIsUnbrokenSuffix(s: seq<real>, o: Outcome)
    requires o == Win || o == Loss
    ensures forall lo :: 0 <= lo <= |s| && Unbroken(s, o, lo, |s|) ==> |Where(s[lo..], o)| <= Current(s, o)
    ensures exists lo :: 0 <= lo <= |s| && Unbroken(s, o, lo, |s|) && |Where(s[lo..], o)| == Current(s, o)
  {
    forall lo | 0 <= lo <= |s| && Unbroken(s, o, lo, |s|)
      ensures |Where(s[lo..], o)| <= Current(s, o)
    {
      CurrentBoundsSuffix(s, o, lo);
    }
    CurrentIsAttained(s, o);
  }

  /** No unbroken stretch holds more trades of `o` than `Longest`. */
  lemma {:induction false} LongestBoundsStreaks(s: seq<real>, o: Outcome)
    requires o == Win || o == Loss
    ensures forall lo, hi :: 0 <= lo <= hi <= |s| && Unbroken(s, o, lo, hi) ==> |Where(s[lo..hi], o)| <= Longest(s, o)
  {
    if |s| > 0 {
      var n := |s|;
      var init := s[..n - 1];
      LongestBoundsStreaks(init, o);
      CurrentIsUnbrokenSuffix(s, o);
      forall lo, hi | 0 <= lo <= hi <= n && Unbroken(s, o, lo, hi)
        ensures |Where(s[lo..hi], o)| <= Longest(s, o)
      {
        if hi == n {
          assert s[lo..hi] == s[lo..];
        } else {
          assert s[lo..hi] == init[lo..hi];
          assert Unbroken(init, o, lo, hi);
        }
      }
    }
  }

  /** Some unbroken stretch holds exactly `Longest` trades of `o`. */
  lemma {:induction false} LongestIsAttained(s: seq<real>, o: Outcome)
    requires o == Win || o == Loss
    ensures exists lo, hi :: 0 <= lo <= hi <= |s| && Unbroken(s, o, lo, hi) && |Where(s[lo..hi], o)| == Longest(s, o)
  {
    if |s| == 0 {
      assert Unbroken(s, o, 0, 0) && |Where(s[0..0], o)| == 0;
    } else {
      var n := |s|;
      var init := s[..n - 1];
      if Longest(s, o) == Current(s, o) {
        CurrentIsUnbrokenSuffix(s, o);
        var lo :| 0 <= lo <= n && Unbroken(s, o, lo, n) && |Where(s[lo..], o)| == Current(s, o);
        assert s[lo..n] == s[lo..];
      } else {
        LongestIsAttained(init, o);
        var lo, hi :| 0 <= lo <= hi <= n - 1 && Unbroken(init, o, lo, hi) && |Where(init[lo..hi], o)| == Longest(init, o);
        assert s[lo..hi] == init[lo..hi];
        assert Unbroken(s, o, lo, hi);
      }
    }
  }

  /** `Longest` is the longest streak in the sense of `IsLongestStreak`. */
  lemma LongestIsLongestStreak(s: seq<real>, o: Outcome)
    requires o == Win || o == Loss
    ensures IsLongestStreak(s, o, Longest(s, o))
  {
    LongestBoundsStreaks(s, o);
    LongestIsAttained(s, o);
  }

  /** A streak never exceeds the number of trades of its outcome. */
  lemma {:induction false} LongestAtMostCount(s: seq<real>, o: Outcome)
    ensures Current(s, o) <= |Where(s, o)|
    ensures Longest(s, o) <= |Where(s, o)|
  {
    if |s| > 0 {
      LongestAtMostCount(s[..|s| - 1], o);
    }
  }

  /** The streak loop over the `pnl_pips` column. */
  method MaxConsecutive(pnls: seq<real>) returns (maxConsecutiveWins: nat, maxConsecutiveLosses: nat)
    ensures maxConsecutiveWins == Longest(pnls, Win) && maxConsecutiveLosses == Longest(pnls, Loss)
  {
    var consecutiveWins: nat := 0;
    var consecutiveLosses: nat := 0;
    maxConsecutiveWins, maxConsecutiveLosses := 0, 0;
    var i := 0;
    while i < |pnls|
      invariant 0 <= i <= |pnls|
      invariant consecutiveWins == Current(pnls[..i], Win) && consecutiveLosses == Current(pnls[..i], Loss)
      invariant maxConsecutiveWins == Longest(pnls[..i], Win) && maxConsecutiveLosses == Longest(pnls[..i], Loss)
    {
      var pnl := pnls[i];
      assert pnls[..i + 1][..i] == pnls[..i];
      if pnl > 0.0 {
        consecutiveWins := consecutiveWins + 1;
        consecutiveLosses := 0;
      } else if pnl < 0.0 {
        consecutiveLosses := consecutiveLosses + 1;
        consecutiveWins := 0;
      }
      if maxConsecutiveWins < consecutiveWins {
        maxConsecutiveWins := consecutiveWins;
      }
      if maxConsecutiveLosses < consecutiveLosses {
        maxConsecutiveLosses := consecutiveLosses;
      }
      i := i + 1;
    }
    assert pnls[..|pnls|] == pnls;
  }

  // ---------------------------------------------------------------- exit reasons

  /** The number of ledger rows with this exit reason. */
  function ReasonCount(ledger: seq<ClosedTrade>, reason: ExitReason): (r: nat)
    ensures r <= |ledger|
    ensures r > 0 <==> exists k :: 0 <= k < |ledger| && ledger[k].exitReason == reason
  {
    if |ledger| == 0 then 0
    else
      var prev := ReasonCount(ledger[..|ledger| - 1], reason);
      assert forall k :: 0 <= k < |ledger| - 1 ==> ledger[..|ledger| - 1][k] == ledger[k];
      prev + if ledger[|ledger| - 1].exitReason == reason then 1 else 0
  }

  /** `exit_reasons`: each reason that occurs, with the number of rows carrying it. */
  function ExitReasonCounts(ledger: seq<ClosedTrade>): map<ExitReason, nat> {
    map reason | reason in {StopLoss, TakeProfit, EndOfData} && ReasonCount(ledger, reason) > 0 :: ReasonCount(ledger, reason)
  }

  /** The keys are exactly the reasons that occur, each mapped to its number of rows. */
  lemma ExitReasonCountsKeys(ledger: seq<ClosedTrade>)
    ensures forall reason :: reason in ExitReasonCounts(ledger) <==> exists k :: 0 <= k < |ledger| && ledger[k].exitReason == reason
    ensures forall reason :: reason in ExitReasonCounts(ledger) ==> ExitReasonCounts(ledger)[reason] == ReasonCount(ledger, reason)
  {
    var counts := ExitReasonCounts(ledger);
    forall reason: ExitReason
      ensures reason in counts <==> exists k :: 0 <= k < |ledger| && ledger[k].exitReason == reason
    {
      match reason
      case StopLoss =>
      case TakeProfit =>
      case EndOfData =>
    }
  }

  /** The count a reason map gives a reason, 0 when it is absent. */
  function CountOf(counts: map<ExitReason, nat>, reason: ExitReason): nat {
    if reason in counts then counts[reason] else 0
  }

  /** The exit-reason counts add up to the number of trades. */
  lemma {:induction false} ExitReasonCountsSumToTotal(ledger: seq<ClosedTrade>)
    ensures var counts := ExitReasonCounts(ledger);
      CountOf(counts, StopLoss) + CountOf(counts, TakeProfit) + CountOf(counts, EndOfData) == |ledger|
  {
    ReasonCountsPartition(ledger);
  }

  lemma {:induction false} ReasonCountsPartition(ledger: seq<ClosedTrade>)
    ensures ReasonCount(ledger, StopLoss) + ReasonCount(ledger, TakeProfit) + ReasonCount(ledger, EndOfData) == |ledger|
  {
    if |ledger| > 0 {
      ReasonCountsPartition(ledger[..|ledger| - 1]);
    }
  }

  // ---------------------------------------------------------------- the metrics dict

  /** `win_rate_pct`: the percentage of winning trades, 0 when there are none. */
  function WinRate(winning: nat, total: nat): (r: real)
    requires winning <= total
    ensures total > 0 ==> r * total as real == winning as real * 100.0
    ensures total == 0 ==> r == 0.0
    ensures 0.0 <= r <= 100.0
    ensures r == 100.0 <==> total > 0 && winning == total
  {
    if total > 0 then
      PercentageFacts(winning as real, total as real);
      winning as real / total as real * 100.0
    else 0.0
  }

  lemma PercentageFacts(w: real, t: real)
    requires 0.0 <= w <= t && t > 0.0
    ensures var r := w / t * 100.0;
      r * t == w * 100.0 && 0.0 <= r <= 100.0 && (r == 100.0 <==> w == t)
  {
    var r := w / t * 100.0;
    assert r * t == w * 100.0;
    assert 0.0 * t <= r * t;
    CancelPositive(0.0, r, t);
    calc {
      r * t;
    ==
      w * 100.0;
    <=
      t * 100.0;
    ==
      100.0 * t;
    }
    CancelPositive(r, 100.0, t);
  }

  datatype Metrics = Metrics(
    totalTrades: nat, winningTrades: nat, losingTrades: nat, breakevenTrades: nat,
    winRatePct: real, totalPnlPips: real,
    averageWinPips: real, averageLossPips: real, largestWinPips: real, largestLossPips: real,
    profitFactor: ProfitFactor,
    maxConsecutiveWins: nat, maxConsecutiveLosses: nat,
    exitReasons: map<ExitReason, nat>)

  /** `calculate_trading_metrics` without the dual-entry breakdown. */
  method CalculateTradingMetrics(ledger: seq<ClosedTrade>) returns (m: Metrics)
    ensures |ledger| == 0 ==> m == Metrics(0, 0, 0, 0, 0.0, 0.0, 0.0, 0.0, 0.0, 0.0, Finite(0.0), 0, 0, map[])
    ensures |ledger| > 0 ==>
      var pnls := PnlColumn(ledger);
      && m.winningTrades == |Where(pnls, Win)|
      && m.losingTrades == |Where(pnls, Loss)|
      && m.breakevenTrades == |Where(pnls, Even)|
      && m.totalPnlPips == Sum(pnls)
      && m.averageWinPips == Mean(Where(pnls, Win))
      && m.averageLossPips == Mean(Where(pnls, Loss))
      && m.largestWinPips == LargestWin(pnls)
      && m.largestLossPips == LargestLoss(pnls)
      && m.profitFactor == ProfitFactorOf(pnls)
      && IsLongestStreak(pnls, Win, m.maxConsecutiveWins)
      && IsLongestStreak(pnls, Loss, m.maxConsecutiveLosses)
      && m.exitReasons == ExitReasonCounts(ledger)
    ensures m.totalTrades == |ledger|
    ensures m.winningTrades + m.losingTrades + m.breakevenTrades == m.totalTrades
    ensures m.winRatePct == WinRate(m.winningTrades, m.totalTrades) && 0.0 <= m.winRatePct <= 100.0
    ensures m.maxConsecutiveWins <= m.winningTrades && m.maxConsecutiveLosses <= m.losingTrades
    ensures m.profitFactor.Infinite? <==> m.totalTrades > 0 && m.losingTrades == 0
    ensures CountOf(m.exitReasons, StopLoss) + CountOf(m.exitReasons, TakeProfit) + CountOf(m.exitReasons, EndOfData) == m.totalTrades
    ensures m.averageWinPips <= m.largestWinPips && m.largestLossPips <= m.averageLossPips
  {
    if |ledger| == 0 {
      return Metrics(0, 0, 0, 0, 0.0, 0.0, 0.0, 0.0, 0.0, 0.0, Finite(0.0), 0, 0, map[]);
    }
    var pnls := PnlColumn(ledger);
    var wins := Where(pnls, Win);
    var losses := Where(pnls, Loss);
    var totalTrades := |ledger|;
    var winningTrades := |wins|;
    var losingTrades := |losses|;
    var breakevenTrades := |Where(pnls, Even)|;
    OutcomesPartition(pnls);
    var winRatePct := WinRate(winningTrades, totalTrades);
    var maxConsecutiveWins, maxConsecutiveLosses := MaxConsecutive(pnls);
    LongestIsLongestStreak(pnls, Win);
    LongestIsLongestStreak(pnls, Loss);
    LongestAtMostCount(pnls, Win);
    LongestAtMostCount(pnls, Loss);
    ExitReasonCountsSumToTotal(ledger);
    if |wins| > 0 {
      AverageWinWithinLargest(pnls);
    }
    if |losses| > 0 {
      AverageLossWithinLargest(pnls);
    }
    m := Metrics(totalTrades, winningTrades, losingTrades, breakevenTrades,
      winRatePct, Sum(pnls),
      Mean(wins), Mean(losses), LargestWin(pnls), LargestLoss(pnls),
      ProfitFactorOf(pnls),
      maxConsecutiveWins, maxConsecutiveLosses,
      ExitReasonCounts(ledger));
  }
}
