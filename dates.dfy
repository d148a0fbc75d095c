/** Proleptic Gregorian dates as Python's `datetime.date` has them, and the
    `strptime(s, '%Y/%m/%d')` parse the table-driven controller applies to
    its date column. */
module Dates {
  import opened Wrappers
  import opened PyText

  datatype Date = Date(year: int, month: int, day: int)

  predicate IsLeapYear(y: int) {
    y % 4 == 0 && (y % 100 != 0 || y % 400 == 0)
  }

  function DaysInMonth(y: int, m: int): (n: int)
    requires 1 <= m <= 12
    ensures 28 <= n <= 31
  {
    if m == 2 then (if IsLeapYear(y) then 29 else 28)
    else if m == 4 || m == 6 || m == 9 || m == 11 then 30
    else 31
  }

  function DaysInYear(y: int): int {
    if IsLeapYear(y) then 366 else 365
  }

  /** The dates `datetime.date` can represent: years 1 to 9999. */
  predicate ValidDate(d: Date) {
    1 <= d.year <= 9999 && 1 <= d.month <= 12 && 1 <= d.day <= DaysInMonth(d.year, d.month)
  }

  /** Days of year `y` before the first of month `m`. */
  function DaysBeforeMonth(y: int, m: int): int
    requires 1 <= m <= 12
  {
    [0, 31, 59, 90, 120, 151, 181, 212, 243, 273, 304, 334][m - 1]
      + (if m > 2 && IsLeapYear(y) then 1 else 0)
  }

  /** Days from 0001-01-01 to the first of January of year `y`. */
  function DaysBeforeYear(y: int): int
    requires y >= 1
  {
    var p := y - 1;
    p * 365 + p / 4 - p / 100 + p / 400
  }

  /** `d.toordinal() - 1`: days elapsed since 0001-01-01. */
  function DayNumber(d: Date): int
    requires ValidDate(d)
  {
    DaysBeforeYear(d.year) + DaysBeforeMonth(d.year, d.month) + d.day - 1
  }

  /** Calendar order: year, then month, then day. */
  predicate Before(d1: Date, d2: Date) {
    || d1.year < d2.year
    || (d1.year == d2.year && d1.month < d2.month)
    || (d1.year == d2.year && d1.month == d2.month && d1.day < d2.day)
  }

  lemma MonthsAfter(y: int, m1: int, m2: int)
    requires 1 <= m1 < m2 <= 12
    ensures DaysBeforeMonth(y, m1) + DaysInMonth(y, m1) <= DaysBeforeMonth(y, m2)
  {
  }

  lemma DayOfYearBound(d: Date)
    requires ValidDate(d)
    ensures 0 <= DaysBeforeMonth(d.year, d.month) + d.day - 1 < DaysInYear(d.year)
  {
  }

  lemma YearStep(y: int)
    requires y >= 1
    ensures DaysBeforeYear(y + 1) == DaysBeforeYear(y) + DaysInYear(y)
  {
    var p := y - 1;
    assert y / 4 == p / 4 + (if y % 4 == 0 then 1 else 0);
    assert y / 100 == p / 100 + (if y % 100 == 0 then 1 else 0);
    assert y / 400 == p / 400 + (if y % 400 == 0 then 1 else 0);
  }

  lemma {:induction false} YearsAfter(y1: int, y2: int)
    requires 1 <= y1 < y2
    ensures DaysBeforeYear(y1) + DaysInYear(y1) <= DaysBeforeYear(y2)
    decreases y2 - y1
  {
    YearStep(y1);
    if y1 + 1 < y2 {
      YearsAfter(y1 + 1, y2);
    }
  }

  /** Day numbers follow the calendar: an earlier date has a smaller number,
      and only equal dates share one. */
  lemma {:induction false} DayNumberOrder(d1: Date, d2: Date)
    requires ValidDate(d1) && ValidDate(d2)
    ensures Before(d1, d2) <==> DayNumber(d1) < DayNumber(d2)
    ensures d1 == d2 <==> DayNumber(d1) == DayNumber(d2)
  {
    if Before(d1, d2) {
      BeforeIsSmaller(d1, d2);
    }
    if Before(d2, d1) {
      BeforeIsSmaller(d2, d1);
    }
  }

  lemma BeforeIsSmaller(d1: Date, d2: Date)
    requires ValidDate(d1) && ValidDate(d2) && Before(d1, d2)
    ensures DayNumber(d1) < DayNumber(d2)
  {
    if d1.year < d2.year {
      DayOfYearBound(d1);
      YearsAfter(d1.year, d2.year);
    } else if d1.month < d2.month {
      MonthsAfter(d1.year, d1.month, d2.month);
    }
  }

  // ---------------------------------------------------------------- strptime

  /** The `%m` directive: the first of the alternatives `1[0-2]`, `0[1-9]`,
      `[1-9]` that matches at the start of `t` and is followed by the '/' of
      the format. Gives the month and the number of characters it used. */
  function MonthField(t: string): (r: Option<(int, nat)>)
    ensures r.Some? ==> 1 <= r.value.0 <= 12 && 1 <= r.value.1 <= 2 && r.value.1 < |t| && t[r.value.1] == '/'
  {
    if |t| >= 3 && ((t[0] == '1' && '0' <= t[1] <= '2') || (t[0] == '0' && '1' <= t[1] <= '9')) && t[2] == '/' then
      Some((DigitValue(t[0]) * 10 + DigitValue(t[1]), 2))
    else if |t| >= 2 && '1' <= t[0] <= '9' && t[1] == '/' then
      Some((DigitValue(t[0]), 1))
    else None
  }

  /** The `%d` directive: the first of the alternatives `3[01]`, `[12]\d`,
      `0[1-9]`, `[1-9]`, ` [1-9]` that matches at the start of `u`. Gives
      the day and the number of characters it used. */
  function DayField(u: string): (r: Option<(int, nat)>)
    ensures r.Some? ==> 1 <= r.value.0 <= 31 && 1 <= r.value.1 <= |u| && r.value.1 <= 2
  {
    if |u| >= 2 && u[0] == '3' && '0' <= u[1] <= '1' then Some((30 + DigitValue(u[1]), 2))
    else if |u| >= 2 && '1' <= u[0] <= '2' && IsAsciiDigit(u[1]) then Some((DigitValue(u[0]) * 10 + DigitValue(u[1]), 2))
    else if |u| >= 2 && u[0] == '0' && '1' <= u[1] <= '9' then Some((DigitValue(u[1]), 2))
    else if |u| >= 1 && '1' <= u[0] <= '9' then Some((DigitValue(u[0]), 1))
    else if |u| >= 2 && u[0] == ' ' && '1' <= u[1] <= '9' then Some((DigitValue(u[1]), 2))
    else None
  }

  /** `datetime.strptime(s, '%Y/%m/%d')`: `%Y` is exactly four digits, the
      match must use the whole string ("unconverted data remains" otherwise),
      and the date must exist; `None` where Python raises ValueError. */
  function StrptimeYmd(s: string): (r: Option<Date>)
    ensures r.Some? ==> ValidDate(r.value)
  {
    if |s| < 5 || !IsDigitString(s[..4]) || s[4] != '/' then None
    else
      match MonthField(s[5..])
      case None => None
      case Some(mf) =>
        var u := s[5 + mf.1 + 1..];
        match DayField(u)
        case None => None
        case Some(df) =>
          var d := Date(DecimalValue(s[..4]), mf.0, df.0);
          if df.1 == |u| && ValidDate(d) then Some(d) else None
  }

  /** The zero-padded `yyyy/mm/dd` text of a date, as the template writes it. */
  function DateText(d: Date): string
    requires ValidDate(d)
  {
    Pad4(d.year as nat) + "/" + Pad2(d.month as nat) + "/" + Pad2(d.day as nat)
  }

  /** Every date reads back from its `yyyy/mm/dd` text. */
  lemma ParseDateText(d: Date)
    requires ValidDate(d)
    ensures StrptimeYmd(DateText(d)) == Some(d)
  {
    var s := DateText(d);
    var y, m, dd := Pad4(d.year as nat), Pad2(d.month as nat), Pad2(d.day as nat);
    assert s == y + "/" + m + "/" + dd;
    assert s[..4] == y;
    assert s[4] == '/';
    var t := s[5..];
    assert t == m + "/" + dd;
    assert m[0] == DigitChar(d.month / 10) && m[1] == DigitChar(d.month % 10);
    assert MonthField(t) == Some((d.month, 2));
    assert t[3..] == dd;
    assert dd[0] == DigitChar(d.day / 10) && dd[1] == DigitChar(d.day % 10);
    assert DayField(dd) == Some((d.day, 2));
  }

  /** Single-digit months and days may also be written without their
      leading zero. */
  lemma ParseUnpadded(d: Date)
    requires ValidDate(d) && d.month < 10 && d.day < 10
    ensures StrptimeYmd(Pad4(d.year as nat) + "/" + NatToString(d.month as nat) + "/" + NatToString(d.day as nat)) == Some(d)
  {
    var y := Pad4(d.year as nat);
    var s := y + "/" + NatToString(d.month as nat) + "/" + NatToString(d.day as nat);
    assert s == y + "/" + [DigitChar(d.month)] + "/" + [DigitChar(d.day)];
    assert s[..4] == y;
    assert s[5..] == [DigitChar(d.month)] + "/" + [DigitChar(d.day)];
    assert MonthField(s[5..]) == Some((d.month, 1));
    assert s[7..] == [DigitChar(d.day)];
  }

  /** A day the month does not have is rejected (2025/02/29, 2025/04/31). */
  lemma RejectMissingDay(y: int, m: int, day: int)
    requires 1 <= y <= 9999 && 1 <= m <= 12 && DaysInMonth(y, m) < day <= 31
    ensures StrptimeYmd(Pad4(y as nat) + "/" + Pad2(m as nat) + "/" + Pad2(day as nat)) == None
  {
    var yy, mm, dd := Pad4(y as nat), Pad2(m as nat), Pad2(day as nat);
    var s := yy + "/" + mm + "/" + dd;
    assert s[..4] == yy;
    assert s[5..] == mm + "/" + dd;
    assert mm[0] == DigitChar(m / 10) && mm[1] == DigitChar(m % 10);
    assert MonthField(s[5..]) == Some((m, 2));
    assert s[8..] == dd;
    assert dd[0] == DigitChar(day / 10) && dd[1] == DigitChar(day % 10);
    assert DayField(dd) == Some((day, 2));
  }

  /** Anything after the day is "unconverted data" and rejects the string. */
  lemma RejectTrailing(d: Date, c: char)
    requires ValidDate(d)
    ensures StrptimeYmd(DateText(d) + [c]) == None
  {
    var yy, mm, dd := Pad4(d.year as nat), Pad2(d.month as nat), Pad2(d.day as nat);
    var s := DateText(d) + [c];
    assert s == yy + "/" + mm + "/" + (dd + [c]);
    assert s[..4] == yy;
    assert s[5..] == mm + "/" + (dd + [c]);
    assert mm[0] == DigitChar(d.month / 10) && mm[1] == DigitChar(d.month % 10);
    assert MonthField(s[5..]) == Some((d.month, 2));
    assert s[8..] == dd + [c];
    assert dd[0] == DigitChar(d.day / 10) && dd[1] == DigitChar(d.day % 10);
    assert DayField(dd + [c]) == Some((d.day, 2));
  }
}
