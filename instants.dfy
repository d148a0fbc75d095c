/** Wall-clock instants. Python's naive `datetime` values (local time, no
    time zone arithmetic) become integers: microseconds since
    0001-01-01 00:00:00. Subtracting two of them is `timedelta` arithmetic. */
module Instants {
  import opened Dates

  type Instant = int

  const MicrosPerSecond: int := 1_000_000
  const SecondsPerDay: int := 86400
  const MicrosPerDay: int := 86_400_000_000

  predicate ValidClockTime(h: int, m: int, s: int) {
    0 <= h <= 23 && 0 <= m <= 59 && 0 <= s <= 59
  }

  /** Seconds into the day of an `hh:mm:ss` time. */
  function SecondOfDay(h: int, m: int, s: int): int {
    h * 3600 + m * 60 + s
  }

  /** `date.replace(hour=h, minute=m, second=s, microsecond=0)` on a date at
      midnight: the instant lies on day `d`, exactly `h:m:s` into it. */
  function At(d: Date, h: int, m: int, s: int): (t: Instant)
    requires ValidDate(d) && ValidClockTime(h, m, s)
    ensures t / MicrosPerDay == DayNumber(d)
    ensures t % MicrosPerDay == SecondOfDay(h, m, s) * MicrosPerSecond
  {
    (DayNumber(d) * SecondsPerDay + SecondOfDay(h, m, s)) * MicrosPerSecond
  }

  /** Lexicographic order of (date, hh, mm, ss). */
  predicate EarlierStamp(d1: Date, h1: int, m1: int, s1: int, d2: Date, h2: int, m2: int, s2: int) {
    Before(d1, d2) || (d1 == d2 && SecondOfDay(h1, m1, s1) < SecondOfDay(h2, m2, s2))
  }

  /** Instants compare as date-and-time stamps do: by date first, then by
      time of day (not by time of day alone). */
  lemma {:induction false} AtOrder(d1: Date, h1: int, m1: int, s1: int, d2: Date, h2: int, m2: int, s2: int)
    requires ValidDate(d1) && ValidClockTime(h1, m1, s1)
    requires ValidDate(d2) && ValidClockTime(h2, m2, s2)
    ensures At(d1, h1, m1, s1) < At(d2, h2, m2, s2) <==> EarlierStamp(d1, h1, m1, s1, d2, h2, m2, s2)
  {
    DayNumberOrder(d1, d2);
  }

  /** `now.replace(hour=h, minute=m, second=0, microsecond=0)`: the same day
      as `now`, at `h:m:00`. */
  function TodayAt(now: Instant, h: int, m: int): (t: Instant)
    requires 0 <= h <= 23 && 0 <= m <= 59
    ensures t / MicrosPerDay == now / MicrosPerDay
    ensures t % MicrosPerDay == SecondOfDay(h, m, 0) * MicrosPerSecond
  {
    (now / MicrosPerDay) * MicrosPerDay + SecondOfDay(h, m, 0) * MicrosPerSecond
  }

  /** `if t < now: t += timedelta(days=1)`. */
  function RollForward(t: Instant, now: Instant): Instant {
    if t < now then t + MicrosPerDay else t
  }

  /** A time of day resolved against today and rolled forward lies in
      [now, now + 1 day), at that time of day. */
  lemma RollForwardWindow(now: Instant, h: int, m: int)
    requires 0 <= h <= 23 && 0 <= m <= 59
    ensures now <= RollForward(TodayAt(now, h, m), now) < now + MicrosPerDay
    ensures RollForward(TodayAt(now, h, m), now) % MicrosPerDay == SecondOfDay(h, m, 0) * MicrosPerSecond
  {
    var q := now / MicrosPerDay;
    var r := SecondOfDay(h, m, 0) * MicrosPerSecond;
    assert 0 <= r < MicrosPerDay;
    assert q * MicrosPerDay <= now < q * MicrosPerDay + MicrosPerDay;
    assert TodayAt(now, h, m) == q * MicrosPerDay + r;
    assert (q + 1) * MicrosPerDay == q * MicrosPerDay + MicrosPerDay;
    assert (q * MicrosPerDay + r + MicrosPerDay) % MicrosPerDay == r;
  }

  /** The rolled-forward time is the next occurrence of `h:m:00`: the only
      instant in [now, now + 1 day) at that time of day. */
  lemma NextOccurrence(now: Instant, h: int, m: int, t: Instant)
    requires 0 <= h <= 23 && 0 <= m <= 59
    requires now <= t < now + MicrosPerDay
    requires t % MicrosPerDay == SecondOfDay(h, m, 0) * MicrosPerSecond
    ensures t == RollForward(TodayAt(now, h, m), now)
  {
    var r := RollForward(TodayAt(now, h, m), now);
    RollForwardWindow(now, h, m);
    var x := SecondOfDay(h, m, 0) * MicrosPerSecond;
    assert t == (t / MicrosPerDay) * MicrosPerDay + x;
    assert r == (r / MicrosPerDay) * MicrosPerDay + x;
    assert t - r == (t / MicrosPerDay - r / MicrosPerDay) * MicrosPerDay;
  }

  /** The roll-forward happens exactly when `now` is already past `h:m:00`
      today: 16:45 asked for at 17:00 becomes tomorrow 16:45. */
  lemma RollsToTomorrow(now: Instant, h: int, m: int)
    requires 0 <= h <= 23 && 0 <= m <= 59
    ensures RollForward(TodayAt(now, h, m), now) == TodayAt(now, h, m) + MicrosPerDay
            <==> now % MicrosPerDay > SecondOfDay(h, m, 0) * MicrosPerSecond
  {
  }

  /** `int(timedelta.total_seconds())` for a difference of `d` microseconds:
      Python's `int()` truncates toward zero. */
  function TruncSeconds(d: int): (r: int)
    ensures d >= 0 ==> r * MicrosPerSecond <= d < (r + 1) * MicrosPerSecond
    ensures d < 0 ==> (r - 1) * MicrosPerSecond < d <= r * MicrosPerSecond
  {
    if d >= 0 then d / MicrosPerSecond else -((-d) / MicrosPerSecond)
  }

  /** A countdown reads zero or less exactly when less than one whole second
      remains: the trigger counts as reached up to a second early. */
  lemma DueWithinASecond(d: int)
    ensures TruncSeconds(d) <= 0 <==> d < MicrosPerSecond
  {
  }
}
