/** Times of day and the two duration computations of the attendance pages.

    A Python `datetime.time` read from the clock carries microseconds, so a
    time of day is modelled as the number of microseconds since midnight.
    Both duration computations combine two times with the same date and
    subtract them, giving a difference of `checkout - checkin` microseconds;
    they then read that difference in two different ways. */
module Timing {

  const MicrosPerSecond: int := 1_000_000
  const SecondsPerHour: int := 3600
  const SecondsPerMinute: int := 60
  const SecondsPerDay: int := 86_400
  const MicrosPerDay: int := 86_400_000_000

  /** A time of day, in microseconds since midnight. */
  type Time = t: int | 0 <= t < MicrosPerDay

  /** Microseconds from `checkin` forward to the next moment the clock shows
      `checkout` (wrapping past midnight when `checkout` is earlier). */
  function ElapsedOnClock(checkin: Time, checkout: Time): (r: int)
    ensures 0 <= r < MicrosPerDay
    ensures (checkin + r) % MicrosPerDay == checkout
  {
    if checkin <= checkout then checkout - checkin else checkout - checkin + MicrosPerDay
  }

  /** The attendance page's worked seconds: the `seconds` attribute of a
      `timedelta`, which normalises to days, seconds and microseconds with
      `0 <= seconds < 86400`, so a negative difference wraps around the day. */
  function WorkedSeconds(checkin: Time, checkout: Time): (r: int)
    ensures 0 <= r < SecondsPerDay
    ensures r * MicrosPerSecond <= ElapsedOnClock(checkin, checkout) < (r + 1) * MicrosPerSecond
  {
    ((checkout - checkin) / MicrosPerSecond) % SecondsPerDay
  }

  /** The HR attendance view's duration: `int(delta.total_seconds())`, which
      truncates toward zero, so a negative difference stays negative. */
  function DurationSeconds(checkin: Time, checkout: Time): (r: int)
    ensures -SecondsPerDay < r < SecondsPerDay
    ensures checkin <= checkout ==> r * MicrosPerSecond <= checkout - checkin < (r + 1) * MicrosPerSecond
    ensures checkout < checkin ==> (r - 1) * MicrosPerSecond < checkout - checkin <= r * MicrosPerSecond
  {
    var d := checkout - checkin;
    if d >= 0 then d / MicrosPerSecond else -((-d) / MicrosPerSecond)
  }

  /** Hours, minutes and seconds of a duration, as the HR view prints them. */
  datatype Hms = Hms(hours: int, minutes: int, seconds: int)

  /** The split of `total_seconds` with Python's floor `//` and `%`; for a
      positive divisor Dafny's `/` and `%` agree with them on every integer. */
  function DurationSplit(total: int): (r: Hms)
    ensures r.hours * SecondsPerHour + r.minutes * SecondsPerMinute + r.seconds == total
    ensures 0 <= r.minutes < 60 && 0 <= r.seconds < 60
  {
    Hms(total / SecondsPerHour, (total % SecondsPerHour) / SecondsPerMinute, total % SecondsPerMinute)
  }

  /** The split is the only hours/minutes/seconds reading of a total with
      minutes and seconds below 60. */
  lemma SplitIsUnique(total: int, h: Hms)
    requires h.hours * SecondsPerHour + h.minutes * SecondsPerMinute + h.seconds == total
    requires 0 <= h.minutes < 60 && 0 <= h.seconds < 60
    ensures h == DurationSplit(total)
  {
    var r := DurationSplit(total);
    var a := h.minutes * SecondsPerMinute + h.seconds;
    var b := r.minutes * SecondsPerMinute + r.seconds;
    assert 0 <= a < SecondsPerHour && 0 <= b < SecondsPerHour;
    assert (h.hours - r.hours) * SecondsPerHour == b - a;
    assert h.hours == r.hours;
    assert (h.minutes - r.minutes) * SecondsPerMinute == r.seconds - h.seconds;
    assert h.minutes == r.minutes;
  }

  /** The attendance page and the HR view agree when the checkout is not
      earlier than the checkin; otherwise the page reports the time wrapped
      around midnight while the HR view reports a negative duration. */
  lemma WorkedVersusDuration(checkin: Time, checkout: Time)
    ensures checkin <= checkout ==> WorkedSeconds(checkin, checkout) == DurationSeconds(checkin, checkout)
    ensures checkout < checkin ==>
      WorkedSeconds(checkin, checkout) ==
        DurationSeconds(checkin, checkout) + SecondsPerDay
        - (if (checkin - checkout) % MicrosPerSecond == 0 then 0 else 1)
  {
    var w := WorkedSeconds(checkin, checkout);
    var d := DurationSeconds(checkin, checkout);
    if checkout < checkin {
      var diff := checkout - checkin;
      if (checkin - checkout) % MicrosPerSecond == 0 {
        var q := (checkin - checkout) / MicrosPerSecond;
        assert diff == -q * MicrosPerSecond;
        assert d == -q;
        assert w == SecondsPerDay - q;
      } else {
        assert w * MicrosPerSecond <= diff + MicrosPerDay < (w + 1) * MicrosPerSecond;
        assert (d - 1) * MicrosPerSecond < diff < d * MicrosPerSecond;
        assert w == d + SecondsPerDay - 1;
      }
    }
  }

  /** A time as the attendance table keeps it. The `TIME` columns declare no
      fractional digits, so MySQL rounds a written time to the nearest
      second, halves up; from 23:59:59.5 on that gives 24:00:00, which reads
      back as midnight. */
  function StoredTime(t: Time): (r: Time)
    ensures r % MicrosPerSecond == 0
    ensures t < MicrosPerDay - MicrosPerSecond / 2 ==>
              r - MicrosPerSecond / 2 <= t < r + MicrosPerSecond / 2
    ensures MicrosPerDay - MicrosPerSecond / 2 <= t ==> r == 0
  {
    ((t + MicrosPerSecond / 2) / MicrosPerSecond % SecondsPerDay) * MicrosPerSecond
  }

  /** A time already in whole seconds is stored as it is. */
  lemma StoredWholeSeconds(t: Time)
    requires t % MicrosPerSecond == 0
    ensures StoredTime(t) == t
  {
    var q := t / MicrosPerSecond;
    assert t == q * MicrosPerSecond;
    assert (t + MicrosPerSecond / 2) / MicrosPerSecond == q;
  }

  /** When a check-in's clock reading rounds up, a page built before the
      clock reaches the stored second reads a negative difference, which
      `timedelta.seconds` wraps to 86399 seconds worked. */
  lemma WorkedRightAfterRoundedCheckIn(now: Time, pageNow: Time)
    requires now <= pageNow < StoredTime(now)
    ensures WorkedSeconds(StoredTime(now), pageNow) == SecondsPerDay - 1
  {
    var stored := StoredTime(now);
    assert -MicrosPerSecond <= pageNow - stored < 0;
    assert (pageNow - stored) / MicrosPerSecond == -1;
  }
}
