/** The countdown shown while a controller waits: the remaining whole seconds
    broken into days, hours, minutes and seconds with Python's floor
    `//`, `%` and `divmod` (which agree with Dafny's for a positive divisor). */
module Countdown {

  datatype Parts = Parts(days: int, hours: int, minutes: int, seconds: int)

  predicate SumsTo(p: Parts, r: int) {
    p.days * 86400 + p.hours * 3600 + p.minutes * 60 + p.seconds == r
  }

  /** `days = r // 86400; r %= 86400; hours, rest = divmod(r, 3600);
      minutes, seconds = divmod(rest, 60)`: hours below 24. */
  function SplitDays(r: int): (p: Parts)
    ensures SumsTo(p, r)
    ensures 0 <= p.hours < 24 && 0 <= p.minutes < 60 && 0 <= p.seconds < 60
    ensures p.days > 0 <==> r >= 86400
  {
    var days := r / 86400;
    var rest := r % 86400;
    Parts(days, rest / 3600, rest % 3600 / 60, rest % 3600 % 60)
  }

  /** `hours, rest = divmod(r, 3600); minutes, seconds = divmod(rest, 60)`:
      no days part, hours uncapped. */
  function SplitHours(r: int): (p: Parts)
    ensures p.days == 0 && SumsTo(p, r)
    ensures 0 <= p.minutes < 60 && 0 <= p.seconds < 60
    ensures r >= 0 ==> p.hours >= 0
  {
    Parts(0, r / 3600, r % 3600 / 60, r % 3600 % 60)
  }

  /** The bounds pin the decomposition down: any parts with hours below 24,
      minutes and seconds below 60 that add up to `r` are `SplitDays(r)`. */
  lemma SplitDaysUnique(r: int, p: Parts)
    requires SumsTo(p, r)
    requires 0 <= p.hours < 24 && 0 <= p.minutes < 60 && 0 <= p.seconds < 60
    ensures p == SplitDays(r)
  {
    var q := SplitDays(r);
    var a := p.hours * 3600 + p.minutes * 60 + p.seconds;
    var b := q.hours * 3600 + q.minutes * 60 + q.seconds;
    assert 0 <= a < 86400 && 0 <= b < 86400;
    assert (p.days - q.days) * 86400 == b - a;
    assert p.days == q.days;
    assert p.hours == q.hours;
    assert p.minutes == q.minutes;
  }

  /** Likewise for the hours-only form. */
  lemma SplitHoursUnique(r: int, p: Parts)
    requires p.days == 0 && SumsTo(p, r)
    requires 0 <= p.minutes < 60 && 0 <= p.seconds < 60
    ensures p == SplitHours(r)
  {
    var q := SplitHours(r);
    assert (p.hours - q.hours) * 3600 == (q.minutes * 60 + q.seconds) - (p.minutes * 60 + p.seconds);
    assert p.hours == q.hours;
    assert p.minutes == q.minutes;
  }
}
