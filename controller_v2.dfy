/** The table-driven controller (Resolume_Controller_ver2.0.py): the rows of
    a CSV table of (column, yyyy/mm/dd, hh:mm:ss) become a schedule of
    column triggers, which `run` then works through in time order. */
module ControllerV2 {
  import opened Wrappers
  import opened PyText
  import opened Dates
  import opened Instants
  import opened StableSort
  import opened Host
  import opened Orchestrator

  /** One row as `csv.DictReader` gives it: the cells under the three
      headers, `None` where the row is too short to have that cell. */
  datatype Row = Row(column: Option<string>, date: Option<string>, time: Option<string>)

  /** Why a row did not make it into the schedule. */
  datatype Rejection = ColumnRejected | DateRejected | TimeRejected | PastDue(at: Instant)

  /** One logged line `行 {row_num}: ...`; rows are numbered from 2, line 1
      being the header. */
  datatype RowReport = RowReport(row: nat, why: Rejection)

  const FirstRowNumber: nat := 2

  /** `hours, minutes, seconds = map(int, t.split(':'))`; `None` where the
      unpacking or one of the `int()` calls raises. */
  function ClockFields(t: string): Option<(int, int, int)> {
    var p := Split(t, ':');
    if |p| != 3 then None
    else match (ParseInt(p[0]), ParseInt(p[1]), ParseInt(p[2]))
      case (Some(h), Some(m), Some(s)) => Some((h, m, s))
      case _ => None
  }

  /** `validate_time`: true exactly when the text splits on ':' into three
      pieces that `int()` accepts and that lie in 0..23, 0..59 and 0..59.
      Every other input, a missing cell included, gives false rather than
      an exception. */
  function ValidateTime(t: Option<string>): bool {
    match t
    case None => false
    case Some(text) =>
      match ClockFields(text)
      case None => false
      case Some(f) => ValidClockTime(f.0, f.1, f.2)
  }

  /** Three fields without ':' joined by ':' are accepted exactly when
      `int()` reads all three and the values form a clock time. */
  lemma ValidateTimeFields(a: string, b: string, c: string)
    requires ':' !in a && ':' !in b && ':' !in c
    ensures ValidateTime(Some(a + ":" + b + ":" + c)) <==>
      && ParseInt(a).Some? && ParseInt(b).Some? && ParseInt(c).Some?
      && ValidClockTime(ParseInt(a).value, ParseInt(b).value, ParseInt(c).value)
  {
    var t := a + ":" + b + ":" + c;
    assert t == a + [':'] + b + [':'] + c;
    Split3(a, b, c, ':');
    var p := Split(t, ':');
    assert p[0] == a && p[1] == b && p[2] == c;
  }

  /** A text without exactly two ':' is rejected, whatever it holds. */
  lemma ValidateTimeColons(t: string)
    requires multiset(t)[':'] != 2
    ensures !ValidateTime(Some(t))
  {
    SplitCount(t, ':');
  }

  /** The `hh:mm:ss` text the template writes. */
  function ClockText(h: nat, m: nat, s: nat): string
    requires h < 100 && m < 100 && s < 100
  {
    Pad2(h) + ":" + Pad2(m) + ":" + Pad2(s)
  }

  /** Every clock time, written as the template writes it, is accepted and
      reads back as itself. */
  lemma ClockTextReadsBack(h: nat, m: nat, s: nat)
    requires ValidClockTime(h, m, s)
    ensures ClockFields(ClockText(h, m, s)) == Some((h, m, s))
    ensures ValidateTime(Some(ClockText(h, m, s)))
  {
    DigitsHaveNoColon(Pad2(h));
    DigitsHaveNoColon(Pad2(m));
    DigitsHaveNoColon(Pad2(s));
    Split3(Pad2(h), Pad2(m), Pad2(s), ':');
    ParseDigits(Pad2(h));
    ParseDigits(Pad2(m));
    ParseDigits(Pad2(s));
  }

  /** A time without its seconds field is rejected. */
  lemma HourMinuteRejected(h: nat, m: nat)
    requires h < 100 && m < 100
    ensures !ValidateTime(Some(Pad2(h) + ":" + Pad2(m)))
  {
    DigitsHaveNoColon(Pad2(h));
    DigitsHaveNoColon(Pad2(m));
    Split2(Pad2(h), Pad2(m), ':');
  }

  /** Hours past 23 are rejected even when well formed. */
  lemma HourOutOfRange(h: nat, m: nat, s: nat)
    requires 24 <= h < 100 && m < 100 && s < 100
    ensures !ValidateTime(Some(ClockText(h, m, s)))
  {
    DigitsHaveNoColon(Pad2(h));
    DigitsHaveNoColon(Pad2(m));
    DigitsHaveNoColon(Pad2(s));
    Split3(Pad2(h), Pad2(m), Pad2(s), ':');
    ParseDigits(Pad2(h));
  }

  /** `validate_date`: `datetime.strptime(text, '%Y/%m/%d')`; a missing cell
      makes strptime raise a TypeError, which `get_play_times` catches like
      the ValueError `validate_date` turns into `None`. */
  function ValidateDate(d: Option<string>): (r: Option<Date>)
    ensures r.Some? ==> ValidDate(r.value)
  {
    if d.None? then None else StrptimeYmd(d.value)
  }

  /** The body of the `try` in the loop of `get_play_times`: the checks run
      in the order column, date, time, and a row that passes them all is
      kept unless its time is strictly before `now`. */
  function RowOutcome(row: Row, now: Instant): (r: Result<Entry, Rejection>)
    ensures r.Success? ==> now <= r.value.time
    ensures r.Failure? && r.error.PastDue? ==> r.error.at < now
  {
    if row.column.None? || !IsDigitString(row.column.value) then Failure(ColumnRejected)
    else
      var column := DecimalValue(row.column.value);
      match ValidateDate(row.date)
      case None => Failure(DateRejected)
      case Some(d) =>
        if !ValidateTime(row.time) then Failure(TimeRejected)
        else
          var f := ClockFields(row.time.value).value;
          var t := At(d, f.0, f.1, f.2);
          if t < now then Failure(PastDue(t)) else Success(Entry(t, column))
  }

  /** A kept row has a digit-string column, a valid date and a valid
      `hh:mm:ss` time, and its entry is that column at that moment. */
  lemma RowAccepted(row: Row, now: Instant)
    requires RowOutcome(row, now).Success?
    ensures row.column.Some? && IsDigitString(row.column.value)
    ensures RowOutcome(row, now).value.column == DecimalValue(row.column.value)
    ensures ValidateDate(row.date).Some? && row.time.Some? && ClockFields(row.time.value).Some?
    ensures var f := ClockFields(row.time.value).value;
      ValidClockTime(f.0, f.1, f.2) && RowOutcome(row, now).value.time == At(ValidateDate(row.date).value, f.0, f.1, f.2)
  {
  }

  /** The strict comparison keeps a row whose time is exactly the load time;
      one microsecond later it is past. */
  lemma DueNowKept(row: Row, now: Instant)
    requires RowOutcome(row, now).Success?
    ensures RowOutcome(row, RowOutcome(row, now).value.time) == RowOutcome(row, now)
    ensures RowOutcome(row, RowOutcome(row, now).value.time + 1) == Failure(PastDue(RowOutcome(row, now).value.time))
  {
  }

  /** What the loop body makes of each row, in row order. */
  function Outcomes(rows: seq<Row>, now: Instant): (os: seq<Result<Entry, Rejection>>)
    ensures |os| == |rows|
    ensures forall k :: 0 <= k < |rows| ==> os[k] == RowOutcome(rows[k], now)
  {
    seq(|rows|, k requires 0 <= k < |rows| => RowOutcome(rows[k], now))
  }

  /** The entries of the successful outcomes, in order. */
  function Kept(os: seq<Result<Entry, Rejection>>): seq<Entry> {
    if |os| == 0 then []
    else Kept(os[..|os| - 1]) + (if os[|os| - 1].Success? then [os[|os| - 1].value] else [])
  }

  /** One report per failed outcome, numbered as the spreadsheet numbers
      its rows. */
  function Reported(os: seq<Result<Entry, Rejection>>): seq<RowReport> {
    if |os| == 0 then []
    else
      var last := os[|os| - 1];
      Reported(os[..|os| - 1]) + (if last.Failure? then [RowReport(|os| - 1 + FirstRowNumber, last.error)] else [])
  }

  /** The entries of the accepted rows, in row order (`play_times` before
      the sort). */
  function Accepted(rows: seq<Row>, now: Instant): seq<Entry> {
    Kept(Outcomes(rows, now))
  }

  /** The logged lines, in row order. */
  function Rejections(rows: seq<Row>, now: Instant): seq<RowReport> {
    Reported(Outcomes(rows, now))
  }

  lemma {:induction false} KeptMembers(os: seq<Result<Entry, Rejection>>, e: Entry)
    ensures e in Kept(os) <==> exists k :: 0 <= k < |os| && os[k] == Success(e)
  {
    if |os| > 0 {
      var last := |os| - 1;
      var init := os[..last];
      KeptMembers(init, e);
      if e in Kept(init) {
        var k :| 0 <= k < |init| && init[k] == Success(e);
        assert os[k] == init[k];
      } else if e in Kept(os) {
        assert os[last] == Success(e);
      }
      if exists k :: 0 <= k < |os| && os[k] == Success(e) {
        var k :| 0 <= k < |os| && os[k] == Success(e);
        if k < last {
          assert init[k] == os[k];
        }
      }
    }
  }

  lemma {:induction false} ReportedMembers(os: seq<Result<Entry, Rejection>>, n: nat, why: Rejection)
    ensures RowReport(n, why) in Reported(os) <==>
      FirstRowNumber <= n < |os| + FirstRowNumber && os[n - FirstRowNumber] == Failure(why)
  {
    if |os| > 0 {
      var init := os[..|os| - 1];
      ReportedMembers(init, n, why);
      if FirstRowNumber <= n < |os| - 1 + FirstRowNumber {
        assert init[n - FirstRowNumber] == os[n - FirstRowNumber];
      }
    }
  }

  lemma {:induction false} KeptCount(os: seq<Result<Entry, Rejection>>)
    ensures |Kept(os)| + |Reported(os)| == |os|
  {
    if |os| > 0 {
      KeptCount(os[..|os| - 1]);
    }
  }

  /** An entry is accepted exactly when some row yields it. */
  lemma AcceptedMembers(rows: seq<Row>, now: Instant, e: Entry)
    ensures e in Accepted(rows, now) <==> exists k :: 0 <= k < |rows| && RowOutcome(rows[k], now) == Success(e)
  {
    var os := Outcomes(rows, now);
    KeptMembers(os, e);
    if e in Accepted(rows, now) {
      var k :| 0 <= k < |os| && os[k] == Success(e);
      assert RowOutcome(rows[k], now) == Success(e);
    }
  }

  /** No accepted entry is before the load time. */
  lemma AcceptedNotPast(rows: seq<Row>, now: Instant)
    ensures forall e :: e in Accepted(rows, now) ==> now <= e.time
  {
    forall e | e in Accepted(rows, now)
      ensures now <= e.time
    {
      AcceptedMembers(rows, now, e);
      var k :| 0 <= k < |rows| && RowOutcome(rows[k], now) == Success(e);
    }
  }

  /** Sorting the accepted rows keeps them all at or after the load time. */
  lemma ScheduleNotPast(rows: seq<Row>, now: Instant)
    ensures forall e :: e in SortBy(Accepted(rows, now), EntryTime) ==> now <= e.time
  {
    AcceptedNotPast(rows, now);
    forall e | e in SortBy(Accepted(rows, now), EntryTime)
      ensures now <= e.time
    {
      assert e in multiset(Accepted(rows, now));
    }
  }

  /** A row is reported, under its own number and reason, exactly when it is
      not accepted. */
  lemma RejectedMembers(rows: seq<Row>, now: Instant, n: nat, why: Rejection)
    ensures RowReport(n, why) in Rejections(rows, now) <==>
      FirstRowNumber <= n < |rows| + FirstRowNumber && RowOutcome(rows[n - FirstRowNumber], now) == Failure(why)
  {
    ReportedMembers(Outcomes(rows, now), n, why);
  }

  /** Every row is either scheduled or reported, never both, never lost. */
  lemma RowsAccounted(rows: seq<Row>, now: Instant)
    ensures |Accepted(rows, now)| + |Rejections(rows, now)| == |rows|
  {
    KeptCount(Outcomes(rows, now));
  }

  /** `get_play_times` over the rows the reader yields, with the clock read
      once: the accepted entries sorted by time (stably, so rows with the
      same time keep their order) and the logged lines. */
  method GetPlayTimes(rows: seq<Row>, now: Instant) returns (playTimes: seq<Entry>, reports: seq<RowReport>)
    ensures playTimes == SortBy(Accepted(rows, now), EntryTime)
    ensures reports == Rejections(rows, now)
    ensures SortedBy(playTimes, EntryTime)
    ensures multiset(playTimes) == multiset(Accepted(rows, now))
    ensures forall k :: WithKey(playTimes, EntryTime, k) == WithKey(Accepted(rows, now), EntryTime, k)
    ensures forall e :: e in playTimes ==> now <= e.time
  {
    ghost var os := Outcomes(rows, now);
    var accepted: seq<Entry> := [];
    reports := [];
    for i := 0 to |rows|
      invariant accepted == Kept(os[..i])
      invariant reports == Reported(os[..i])
    {
      assert os[..i + 1][..i] == os[..i] && os[..i + 1][i] == RowOutcome(rows[i], now);
      match RowOutcome(rows[i], now)
      case Failure(why) =>
        reports := reports + [RowReport(i + FirstRowNumber, why)];
      case Success(e) =>
        accepted := accepted + [e];
    }
    assert os[..|rows|] == os;
    playTimes := SortBy(accepted, EntryTime);
    SortStableAll(accepted, EntryTime);
    ScheduleNotPast(rows, now);
  }

  // ------------------------------------------------ the template table

  /** A row as the template writes it: the column number, the zero-padded
      date and the zero-padded time. */
  function TemplateRow(column: nat, d: Date, h: nat, m: nat, s: nat): Row
    requires ValidDate(d) && ValidClockTime(h, m, s)
  {
    Row(Some(NatToString(column)), Some(DateText(d)), Some(ClockText(h, m, s)))
  }

  /** Every row written in the template's format is read as its column at
      its date and time, or reported as past. */
  lemma TemplateRowReads(column: nat, d: Date, h: nat, m: nat, s: nat, now: Instant)
    requires ValidDate(d) && ValidClockTime(h, m, s)
    ensures RowOutcome(TemplateRow(column, d, h, m, s), now) ==
      if At(d, h, m, s) < now then Failure(PastDue(At(d, h, m, s))) else Success(Entry(At(d, h, m, s), column))
  {
    ParseDateText(d);
    ClockTextReadsBack(h, m, s);
  }

  /** The two sample rows of `create_template` and `create_default_csv`. */
  const TemplateRows: seq<Row> := [
    TemplateRow(1, Date(2025, 1, 22), 16, 45, 0),
    TemplateRow(2, Date(2025, 1, 23), 14, 30, 0)]

  lemma TemplateText()
    ensures TemplateRows == [
      Row(Some("1"), Some("2025/01/22"), Some("16:45:00")),
      Row(Some("2"), Some("2025/01/23"), Some("14:30:00"))]
  {
    assert DateText(Date(2025, 1, 22)) == "2025/01/22";
    assert DateText(Date(2025, 1, 23)) == "2025/01/23";
    assert ClockText(16, 45, 0) == "16:45:00";
    assert ClockText(14, 30, 0) == "14:30:00";
  }

  function FirstTemplateTime(): Instant {
    At(Date(2025, 1, 22), 16, 45, 0)
  }

  function SecondTemplateTime(): Instant {
    At(Date(2025, 1, 23), 14, 30, 0)
  }

  /** Two rows that both read, the earlier one first, give a schedule of
      their two entries in that order. */
  lemma TwoRowsInOrder(r0: Row, r1: Row, now: Instant, e0: Entry, e1: Entry)
    requires RowOutcome(r0, now) == Success(e0) && RowOutcome(r1, now) == Success(e1)
    requires e0.time <= e1.time
    ensures SortBy(Accepted([r0, r1], now), EntryTime) == [e0, e1]
    ensures Rejections([r0, r1], now) == []
  {
    TwoRowsAccepted(r0, r1, now, e0, e1);
    SortedStays([e0, e1], EntryTime);
  }

  lemma TwoRowsAccepted(r0: Row, r1: Row, now: Instant, e0: Entry, e1: Entry)
    requires RowOutcome(r0, now) == Success(e0) && RowOutcome(r1, now) == Success(e1)
    ensures Accepted([r0, r1], now) == [e0, e1]
    ensures Rejections([r0, r1], now) == []
  {
    var rows := [r0, r1];
    assert rows[0] == r0 && rows[1] == r1;
    TwoOutcomes(Outcomes(rows, now));
  }

  /** Two rows that are both past give an empty schedule and two
      warnings, numbered 2 and 3. */
  lemma TwoRowsPast(r0: Row, r1: Row, now: Instant)
    requires RowOutcome(r0, now).Failure? && RowOutcome(r1, now).Failure?
    ensures Accepted([r0, r1], now) == []
    ensures Rejections([r0, r1], now) == [RowReport(2, RowOutcome(r0, now).error), RowReport(3, RowOutcome(r1, now).error)]
  {
    var rows := [r0, r1];
    assert rows[0] == r0 && rows[1] == r1;
    TwoOutcomes(Outcomes(rows, now));
  }

  lemma TwoOutcomes(os: seq<Result<Entry, Rejection>>)
    requires |os| == 2
    ensures Kept(os) == (if os[0].Success? then [os[0].value] else []) + (if os[1].Success? then [os[1].value] else [])
    ensures Reported(os) == (if os[0].Failure? then [RowReport(2, os[0].error)] else [])
      + (if os[1].Failure? then [RowReport(3, os[1].error)] else [])
  {
    var a := os[..1];
    assert a[..0] == [] && a[0] == os[0] && os[..|os| - 1] == a;
    assert Kept(a) == [] + (if os[0].Success? then [os[0].value] else []);
    assert Reported(a) == [] + (if os[0].Failure? then [RowReport(2, os[0].error)] else []);
  }

  /** Loaded before its first time, the template table gives its two
      triggers in order and logs nothing; loaded after both, it gives an
      empty schedule and two past-date warnings. */
  lemma TemplateSchedule(now: Instant)
    ensures now <= FirstTemplateTime() ==>
      && SortBy(Accepted(TemplateRows, now), EntryTime) == [Entry(FirstTemplateTime(), 1), Entry(SecondTemplateTime(), 2)]
      && Rejections(TemplateRows, now) == []
    ensures SecondTemplateTime() < now ==>
      && Accepted(TemplateRows, now) == []
      && Rejections(TemplateRows, now) == [RowReport(2, PastDue(FirstTemplateTime())), RowReport(3, PastDue(SecondTemplateTime()))]
  {
    var r0, r1 := TemplateRows[0], TemplateRows[1];
    var t0, t1 := FirstTemplateTime(), SecondTemplateTime();
    TemplateRowReads(1, Date(2025, 1, 22), 16, 45, 0, now);
    TemplateRowReads(2, Date(2025, 1, 23), 14, 30, 0, now);
    AtOrder(Date(2025, 1, 22), 16, 45, 0, Date(2025, 1, 23), 14, 30, 0);
    assert t0 < t1;
    assert TemplateRows == [r0, r1];
    if now <= t0 {
      TwoRowsInOrder(r0, r1, now, Entry(t0, 1), Entry(t1, 2));
    }
    if t1 < now {
      TwoRowsPast(r0, r1, now);
    }
  }

  // ------------------------------------------------ the whole program

  /** `ResolumeController().run()` once the table has been read: the schedule
      is built with the clock at start-up and run straight away. */
  method Run(host: Host, rows: seq<Row>) returns (reports: seq<RowReport>)
    modifies host
    ensures reports == Rejections(rows, old(host.clock))
    ensures host.State() == RunFrom(SortBy(Accepted(rows, old(host.clock)), EntryTime), 0, Ver2, old(host.State())).0
  {
    var now := host.Now();
    var playTimes;
    playTimes, reports := GetPlayTimes(rows, now);
    RunSchedule(host, playTimes, Ver2);
  }
}
