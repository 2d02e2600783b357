/**
 * The clock arithmetic of the data fetcher: when a 30- or 3-minute fetch is
 * due, when the last fetched candle closes, and dropping that candle while it
 * is still forming. The wall clock is a parameter of the model.
 */
module CandleTiming {
  import opened Wrappers

  type Hour = h: int | 0 <= h < 24
  type Minute = m: int | 0 <= m < 60
  type Second = s: int | 0 <= s < 60
  type Micro = u: int | 0 <= u < 1000000

  /** A UTC timestamp: a day number and the time of day down to microseconds. */
  datatype Stamp = Stamp(day: int, hour: Hour, minute: Minute, second: Second, micro: Micro)

  /** Microseconds since the start of day 0. */
  function Ordinal(t: Stamp): int {
    (((t.day * 24 + t.hour) * 60 + t.minute) * 60 + t.second) * 1000000 + t.micro
  }

  /** Chronological order of timestamps, as datetimes compare. */
  predicate Before(a: Stamp, b: Stamp) {
    Ordinal(a) < Ordinal(b)
  }

  /** The order is the lexicographic one on day, hour, minute, second and microsecond. */
  lemma BeforeIsLexicographic(a: Stamp, b: Stamp)
    ensures Before(a, b) <==>
      || a.day < b.day
      || (a.day == b.day && a.hour < b.hour)
      || (a.day == b.day && a.hour == b.hour && a.minute < b.minute)
      || (a.day == b.day && a.hour == b.hour && a.minute == b.minute && a.second < b.second)
      || (a.day == b.day && a.hour == b.hour && a.minute == b.minute && a.second == b.second && a.micro < b.micro)
  {
  }

  /** Minutes since midnight. */
  function MinuteOfDay(t: Stamp): int {
    t.hour * 60 + t.minute
  }

  // ---------------------------------------------------------------- fetch schedule

  /** `should_fetch_m30`: on the hour or the half hour, at second 0, that is every 30 minutes of the day. */
  predicate ShouldFetchM30(t: Stamp): (r: bool)
    ensures r <==> MinuteOfDay(t) % 30 == 0 && t.second == 0
  {
    (t.minute == 0 || t.minute == 30) && t.second == 0
  }

  /** `should_fetch_m3`: on a minute divisible by 3, at second 0, that is every 3 minutes of the day. */
  predicate ShouldFetchM3(t: Stamp): (r: bool)
    ensures r <==> MinuteOfDay(t) % 3 == 0 && t.second == 0
  {
    t.minute % 3 == 0 && t.second == 0
  }

  /** Every 30-minute fetch time is also a 3-minute fetch time, and exactly those on a multiple of 30. */
  lemma M30FetchIsM3Fetch(t: Stamp)
    ensures ShouldFetchM30(t) ==> ShouldFetchM3(t)
    ensures ShouldFetchM30(t) <==> ShouldFetchM3(t) && t.minute % 30 == 0
  {
  }

  // ---------------------------------------------------------------- expected close

  /** `datetime.replace` with an hour of 24. */
  datatype ClockError = HourOutOfRange

  /**
   * When a candle starting at `last` closes. For 30-minute candles one at :00
   * closes at :30 and any other at :00 of the next hour; for every other
   * interval the close is the next multiple of 3 minutes. Seconds and
   * microseconds are carried over, and a close in the next day fails.
   */
  function ExpectedClose(last: Stamp, intervalMinutes: int): (r: Result<Stamp, ClockError>)
    ensures r.Failure? <==> last.hour == 23 && (if intervalMinutes == 30 then last.minute != 0 else last.minute >= 57)
    ensures r.Success? ==>
      && r.value.day == last.day && r.value.second == last.second && r.value.micro == last.micro
      && Before(last, r.value)
    ensures r.Success? && intervalMinutes == 30 ==>
      if last.minute == 0 then MinuteOfDay(r.value) == MinuteOfDay(last) + 30
      else r.value.minute == 0 && r.value.hour == last.hour + 1
    ensures r.Success? && intervalMinutes != 30 ==>
      && MinuteOfDay(r.value) % 3 == 0
      && MinuteOfDay(last) < MinuteOfDay(r.value) <= MinuteOfDay(last) + 3
  {
    if intervalMinutes == 30 then
      if last.minute == 0 then Success(last.(minute := 30))
      else if last.hour + 1 < 24 then Success(last.(hour := last.hour + 1, minute := 0))
      else Failure(HourOutOfRange)
    else
      var nextCloseMinute := (last.minute / 3 + 1) * 3;
      if nextCloseMinute >= 60 then
        if last.hour + 1 < 24 then Success(last.(hour := last.hour + 1, minute := nextCloseMinute - 60))
        else Failure(HourOutOfRange)
      else Success(last.(minute := nextCloseMinute))
  }

  // ---------------------------------------------------------------- incomplete candle

  datatype Candle = Candle(time: Stamp, open: real, high: real, low: real, close: real, volume: real)

  /**
   * `remove_incomplete_candle` with the current time `now`: a missing or empty
   * frame is returned as is; otherwise the last candle is dropped when `now`
   * is before its expected close.
   */
  function RemoveIncompleteCandle(data: Option<seq<Candle>>, intervalMinutes: int, now: Stamp)
    : (r: Result<Option<seq<Candle>>, ClockError>)
    ensures data.None? || data == Some([]) ==> r == Success(data)
    ensures data.Some? && |data.value| > 0 ==>
      var close := ExpectedClose(data.value[|data.value| - 1].time, intervalMinutes);
      && (r.Failure? <==> close.Failure?)
      && (r.Success? ==>
            && r.value.Some?
            && (r.value.value == data.value[..|data.value| - 1] <==> Before(now, close.value))
            && (r.value.value == data.value <==> !Before(now, close.value)))
  {
    if data.None? || |data.value| == 0 then Success(data)
    else
      var cleaned := data.value;
      match ExpectedClose(cleaned[|cleaned| - 1].time, intervalMinutes)
      case Failure(e) => Failure(e)
      case Success(expectedClose) =>
        if Before(now, expectedClose) then Success(Some(cleaned[..|cleaned| - 1])) else Success(Some(cleaned))
  }

  /** At most the last candle is removed: the result is the frame or the frame without its last row. */
  lemma RemovesAtMostLastCandle(data: Option<seq<Candle>>, intervalMinutes: int, now: Stamp)
    requires RemoveIncompleteCandle(data, intervalMinutes, now).Success?
    ensures var r := RemoveIncompleteCandle(data, intervalMinutes, now).value;
      && (r.Some? <==> data.Some?)
      && (r.Some? ==> |data.value| - 1 <= |r.value| <= |data.value| && r.value == data.value[..|r.value|])
  {
    if data.Some? && |data.value| > 0 {
      assert data.value[..|data.value|] == data.value;
    }
  }
}
