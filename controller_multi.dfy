/** The multi-time controller (control_resolume_only_column_multi.py): a
    file of `H:M` lines becomes a list of trigger times for column 1, in
    file order, which `run` works through like the table-driven controller
    does, with hours-only countdowns and no completion notice. */
module ControllerMulti {
  import opened Wrappers
  import opened PyText
  import opened Instants
  import opened Host
  import opened Orchestrator

  /** Loading stops with the exception a line raises: `int()` refusing a
      field, the unpacking finding other than two fields, or `replace`
      refusing an hour or minute out of range. */
  datatype LoadError = BadLine(index: nat)

  /** What `get_play_times` writes when the file is missing: the lines
      `16:45` and `17:00` (see `DefaultFileTextIs`). */
  const DefaultFileText: string := ClockLine(16, 45) + ClockLine(17, 0)

  /** `hours, minutes = map(int, line.strip().split(':'))`. */
  function LineFields(line: string): Option<(int, int)> {
    var p := Split(Strip(line), ':');
    if |p| != 2 then None
    else match (ParseInt(p[0]), ParseInt(p[1]))
      case (Some(h), Some(m)) => Some((h, m))
      case _ => None
  }

  /** One line: today at `H:M:00`, one day later when that is already past;
      `None` where the line raises. */
  function ResolveLine(line: string, now: Instant): Option<Instant> {
    match LineFields(line)
    case None => None
    case Some(f) =>
      if 0 <= f.0 <= 23 && 0 <= f.1 <= 59 then Some(RollForward(TodayAt(now, f.0, f.1), now))
      else None
  }

  /** A line whose stripped text does not hold exactly one ':' is refused;
      a line that resolves does so to the next occurrence of its time of
      day: it lies in [now, now + 1 day) and is at `H:M:00`. */
  lemma ResolvedWindow(line: string, now: Instant)
    ensures multiset(Strip(line))[':'] != 1 ==> ResolveLine(line, now).None?
    ensures ResolveLine(line, now).Some? ==> now <= ResolveLine(line, now).value < now + MicrosPerDay
    ensures ResolveLine(line, now).Some? ==>
      ResolveLine(line, now).value % MicrosPerDay == SecondOfDay(LineFields(line).value.0, LineFields(line).value.1, 0) * MicrosPerSecond
  {
    SplitCount(Strip(line), ':');
    if ResolveLine(line, now).Some? {
      RollForwardWindow(now, LineFields(line).value.0, LineFields(line).value.1);
    }
  }

  /** The window and the time of day pin the resolved time down. */
  lemma ResolvedIsNext(line: string, now: Instant, t: Instant)
    requires LineFields(line).Some? && 0 <= LineFields(line).value.0 <= 23 && 0 <= LineFields(line).value.1 <= 59
    requires now <= t < now + MicrosPerDay
    requires t % MicrosPerDay == SecondOfDay(LineFields(line).value.0, LineFields(line).value.1, 0) * MicrosPerSecond
    ensures ResolveLine(line, now) == Some(t)
  {
    NextOccurrence(now, LineFields(line).value.0, LineFields(line).value.1, t);
  }

  /** The `for line in f` loop: one time per line, in file order; the first
      line that raises ends the load. */
  function TimesFromLines(lines: seq<string>, now: Instant): Result<seq<Instant>, LoadError> {
    if |lines| == 0 then Success([])
    else
      match TimesFromLines(lines[..|lines| - 1], now)
      case Failure(e) => Failure(e)
      case Success(ts) =>
        match ResolveLine(lines[|lines| - 1], now)
        case None => Failure(BadLine(|lines| - 1))
        case Some(t) => Success(ts + [t])
  }

  /** A load that succeeds has one time per line, each the line's own, in
      file order, and nothing is sorted. */
  lemma {:induction false} TimesPerLine(lines: seq<string>, now: Instant, ts: seq<Instant>)
    requires TimesFromLines(lines, now) == Success(ts)
    ensures |ts| == |lines|
    ensures forall k :: 0 <= k < |lines| ==> ResolveLine(lines[k], now) == Some(ts[k])
  {
    if |lines| > 0 {
      var init := lines[..|lines| - 1];
      var r := TimesFromLines(init, now);
      var t := ResolveLine(lines[|lines| - 1], now);
      assert r.Success? && t.Some? && ts == r.value + [t.value];
      TimesPerLine(init, now, r.value);
      forall k | 0 <= k < |lines| - 1
        ensures ResolveLine(lines[k], now) == Some(ts[k])
      {
        assert lines[k] == init[k] && ts[k] == r.value[k];
      }
    }
  }

  /** The load fails exactly when some line does not resolve, and then it
      names the first such line. */
  lemma {:induction false} FirstBadLine(lines: seq<string>, now: Instant)
    ensures TimesFromLines(lines, now).Failure? <==> exists k :: 0 <= k < |lines| && ResolveLine(lines[k], now).None?
    ensures TimesFromLines(lines, now).Failure? ==>
      var i := TimesFromLines(lines, now).error.index;
      && i < |lines| && ResolveLine(lines[i], now).None?
      && forall k :: 0 <= k < i ==> ResolveLine(lines[k], now).Some?
  {
    if |lines| > 0 {
      var init := lines[..|lines| - 1];
      FirstBadLine(init, now);
      forall k | 0 <= k < |lines| - 1
        ensures lines[k] == init[k]
      {
      }
    }
  }

  /** `get_play_times` as a function of the file (`None` when it does not
      exist): the two default times of today, not rolled forward, or the
      file's lines resolved. */
  function PlayTimes(file: Option<string>, now: Instant): Result<seq<Instant>, LoadError> {
    match file
    case None => Success([TodayAt(now, 16, 45), TodayAt(now, 17, 0)])
    case Some(text) => TimesFromLines(Lines(text), now)
  }

  /** `get_play_times`, with `datetime.now()` read once: the times, and the
      text written to the file when it was missing. */
  method GetPlayTimes(file: Option<string>, now: Instant) returns (r: Result<seq<Instant>, LoadError>, written: Option<string>)
    ensures r == PlayTimes(file, now)
    ensures written == if file.None? then Some(DefaultFileText) else None
  {
    if file.None? {
      written := Some(DefaultFileText);
      var playTimes := [];
      playTimes := playTimes + [TodayAt(now, 16, 45)];
      playTimes := playTimes + [TodayAt(now, 17, 0)];
      assert playTimes == [TodayAt(now, 16, 45), TodayAt(now, 17, 0)];
      return Success(playTimes), written;
    }
    written := None;
    var lines := Lines(file.value);
    var playTimes: seq<Instant> := [];
    for i := 0 to |lines|
      invariant TimesFromLines(lines[..i], now) == Success(playTimes)
    {
      assert lines[..i + 1][..i] == lines[..i];
      var t := ResolveLine(lines[i], now);
      if t.None? {
        r := Failure(BadLine(i));
        FailureStays(lines, i + 1, now);
        return;
      }
      playTimes := playTimes + [t.value];
    }
    assert lines[..|lines|] == lines;
    r := Success(playTimes);
  }

  /** Once a prefix fails, every longer prefix fails the same way. */
  lemma {:induction false} FailureStays(lines: seq<string>, i: nat, now: Instant)
    requires i <= |lines|
    requires TimesFromLines(lines[..i], now).Failure?
    ensures TimesFromLines(lines, now) == TimesFromLines(lines[..i], now)
    decreases |lines| - i
  {
    if i < |lines| {
      assert lines[..i + 1][..i] == lines[..i];
      FailureStays(lines, i + 1, now);
    } else {
      assert lines[..i] == lines;
    }
  }

  // ------------------------------------------------ the default file

  /** An `HH:MM` line as the default file has it. */
  function ClockLine(h: nat, m: nat): string
    requires h < 100 && m < 100
  {
    Pad2(h) + ":" + Pad2(m) + "\n"
  }

  /** Every valid `HH:MM` line resolves to the next occurrence of that time. */
  lemma ClockLineReads(h: nat, m: nat, now: Instant)
    requires h <= 23 && m <= 59
    ensures LineFields(ClockLine(h, m)) == Some((h, m))
    ensures ResolveLine(ClockLine(h, m), now) == Some(RollForward(TodayAt(now, h, m), now))
  {
    var a, b := Pad2(h), Pad2(m);
    DigitsHaveNoColon(a);
    DigitsHaveNoColon(b);
    var t := a + ":" + b;
    assert IsSpace('\n');
    assert !IsSpace(t[0]) by { assert IsAsciiDigit(t[0]); }
    assert !IsSpace(t[|t| - 1]) by { assert t[|t| - 1] == b[1]; assert IsAsciiDigit(b[1]); }
    StripPadded("", t, "\n");
    assert "" + t + "\n" == ClockLine(h, m);
    Split2(a, b, ':');
    assert a + [':'] + b == t;
    ParseDigits(a);
    ParseDigits(b);
  }

  lemma ClockLineShape(h: nat, m: nat)
    requires h < 100 && m < 100
    ensures var l := ClockLine(h, m);
      |l| == 6 && l[5] == '\n' && forall j :: 0 <= j < 5 ==> l[j] != '\n'
  {
    var l := ClockLine(h, m);
    DigitsHaveNoColon(Pad2(h));
    DigitsHaveNoColon(Pad2(m));
    assert l[0] == Pad2(h)[0] && l[1] == Pad2(h)[1] && l[3] == Pad2(m)[0] && l[4] == Pad2(m)[1];
  }

  /** Two `HH:MM` lines are the file's two lines. */
  lemma TwoClockLines(h1: nat, m1: nat, h2: nat, m2: nat)
    requires h1 < 100 && m1 < 100 && h2 < 100 && m2 < 100
    ensures Lines(ClockLine(h1, m1) + ClockLine(h2, m2)) == [ClockLine(h1, m1), ClockLine(h2, m2)]
  {
    ClockLineShape(h1, m1);
    ClockLineShape(h2, m2);
    LinesAfterLine(ClockLine(h1, m1), ClockLine(h2, m2));
    LinesAfterLine(ClockLine(h2, m2), "");
    assert ClockLine(h2, m2) + "" == ClockLine(h2, m2);
  }

  /** A file of two valid lines gives their two times, in file order. */
  lemma TwoLineFile(h1: nat, m1: nat, h2: nat, m2: nat, now: Instant)
    requires h1 <= 23 && m1 <= 59 && h2 <= 23 && m2 <= 59
    ensures PlayTimes(Some(ClockLine(h1, m1) + ClockLine(h2, m2)), now) ==
      Success([RollForward(TodayAt(now, h1, m1), now), RollForward(TodayAt(now, h2, m2), now)])
  {
    TwoClockLines(h1, m1, h2, m2);
    ClockLineReads(h1, m1, now);
    ClockLineReads(h2, m2, now);
    var l1, l2 := ClockLine(h1, m1), ClockLine(h2, m2);
    var t1, t2 := RollForward(TodayAt(now, h1, m1), now), RollForward(TodayAt(now, h2, m2), now);
    var lines := [l1, l2];
    assert lines[..1] == [l1] && lines[1] == l2;
    assert [l1][..0] == [] && [l1][0] == l1;
    assert TimesFromLines([], now) == Success([]);
    assert TimesFromLines([l1], now) == Success([] + [t1]);
    assert [] + [t1] == [t1] && [t1] + [t2] == [t1, t2];
    assert TimesFromLines(lines, now) == Success([t1] + [t2]);
  }

  /** The default file, read back on a later start, gives 16:45 and 17:00
      each rolled forward. */
  lemma DefaultReadBack(now: Instant)
    ensures PlayTimes(Some(DefaultFileText), now) ==
      Success([RollForward(TodayAt(now, 16, 45), now), RollForward(TodayAt(now, 17, 0), now)])
  {
    TwoLineFile(16, 45, 17, 0, now);
  }

  lemma DefaultFileTextIs()
    ensures DefaultFileText == "16:45\n17:00\n"
  {
  }

  /** The defaults used on the first start agree with what the written file
      gives on a later start exactly when the first start is no later than
      16:45: otherwise the defaults are today's and already past. */
  lemma DefaultsAgreeWithFile(now: Instant)
    ensures PlayTimes(None, now) == PlayTimes(Some(DefaultFileText), now) <==> now <= TodayAt(now, 16, 45)
  {
    DefaultReadBack(now);
    RollsToTomorrow(now, 16, 45);
    RollsToTomorrow(now, 17, 0);
  }

  /** A file whose lines are out of order stays out of order: 17:00 then
      16:45, read before 16:45, gives a later time first. */
  lemma FileOrderKept(now: Instant)
    requires now <= TodayAt(now, 16, 45)
    ensures var r := PlayTimes(Some(ClockLine(17, 0) + ClockLine(16, 45)), now);
      r.Success? && |r.value| == 2 && r.value[0] > r.value[1]
  {
    TwoLineFile(17, 0, 16, 45, now);
  }

  // ------------------------------------------------ running

  /** Every time triggers column 1. */
  function ColumnOne(ts: seq<Instant>): (es: seq<Entry>)
    ensures |es| == |ts|
    ensures forall k :: 0 <= k < |ts| ==> es[k] == Entry(ts[k], 1)
  {
    if |ts| == 0 then [] else [Entry(ts[0], 1)] + ColumnOne(ts[1..])
  }

  /** On a first start after 17:00 the two defaults are both past, so both
      fire without a countdown: the first at once, the second as soon as the
      first one's retry loop is over. */
  lemma StaleDefaultsFireAtOnce(w: World)
    requires TodayAt(w.clock, 17, 0) <= w.clock
    ensures var ds := RunFrom(ColumnOne(PlayTimes(None, w.clock).value), 0, Multi, w).1;
      |ds| == 2 && ds[0].at == w.clock && ds[1].at == ds[1].waitFrom
  {
    var entries := ColumnOne(PlayTimes(None, w.clock).value);
    RunTiming(entries, Multi, w);
    var ds := RunFrom(entries, 0, Multi, w).1;
    EntriesOfAt(ds, 0);
    EntriesOfAt(ds, 1);
    assert ds[0].entry.time <= w.clock;
    DueWithinASecond(ds[0].entry.time - w.clock);
    CatchUp(ds[0]);
    assert ds[1].waitFrom >= w.clock;
    DueWithinASecond(ds[1].entry.time - ds[1].waitFrom);
    CatchUp(ds[1]);
  }

  /** `ResolumeController().run()` once the file has been read; when the
      load raises, the program stops before running. */
  method Run(host: Host, file: Option<string>) returns (loaded: Result<seq<Instant>, LoadError>, written: Option<string>)
    modifies host
    ensures loaded == PlayTimes(file, old(host.clock))
    ensures written == if file.None? then Some(DefaultFileText) else None
    ensures host.State() ==
      if loaded.Failure? then old(host.State())
      else RunFrom(ColumnOne(loaded.value), 0, Multi, old(host.State())).0
  {
    var now := host.Now();
    loaded, written := GetPlayTimes(file, now);
    if loaded.Success? {
      RunSchedule(host, ColumnOne(loaded.value), Multi);
    }
  }
}
