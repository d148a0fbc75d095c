/** The single-shot controller (control_resolume.py): one trigger time read
    from a two-line `name: value` file, an hours-only countdown, then four
    OSC messages that select clip 1 of layer 1, set it playing forwards and
    connect it. Nothing is retried and nothing is logged: a send that raises
    ends the program. */
module ControllerSingle {
  import opened Wrappers
  import opened PyText
  import opened Instants
  import opened Host
  import opened WaitLoop
  import opened Dispatch

  /** Loading stops with the exception the file raises: a missing line
      (`IndexError` on `lines[i]`), a line without a second `:` field or
      whose field `int()` refuses, or `replace` refusing the hour or
      minute. */
  datatype LoadError = MissingLine(index: nat) | BadField(index: nat) | OutOfRange

  /** A `name: value` line as the default file has it. */
  function KeyLine(name: string, v: nat): string {
    name + ": " + NatToString(v) + "\n"
  }

  /** What `get_play_time` writes when the file is missing (see
      `DefaultFileTextIs`). */
  const DefaultFileText: string := KeyLine("hours", 16) + KeyLine("minutes", 45)

  lemma DefaultFileTextIs()
    ensures DefaultFileText == "hours: 16\nminutes: 45\n"
  {
    assert NatToString(16) == "16";
    assert NatToString(45) == "45";
  }

  /** `int(line.split(':')[1].strip())`; `None` where it raises. */
  function FieldValue(line: string): Option<int> {
    var p := Split(line, ':');
    if |p| < 2 then None else ParseInt(Strip(p[1]))
  }

  /** The trigger time `get_play_time` computes at clock `now`. Without a
      file it is today at 16:45 even when that has passed; from a file it is
      the next occurrence of the time read. */
  function PlayTime(file: Option<string>, now: Instant): Result<Instant, LoadError> {
    match file
    case None => Success(TodayAt(now, 16, 45))
    case Some(text) =>
      var ls := Lines(text);
      if |ls| < 1 then Failure(MissingLine(0))
      else match FieldValue(ls[0])
        case None => Failure(BadField(0))
        case Some(h) =>
          if |ls| < 2 then Failure(MissingLine(1))
          else match FieldValue(ls[1])
            case None => Failure(BadField(1))
            case Some(m) =>
              if 0 <= h <= 23 && 0 <= m <= 59 then Success(RollForward(TodayAt(now, h, m), now))
              else Failure(OutOfRange)
  }

  /** A time read from a file is never past and less than a day ahead, and
      its time of day is the one written; the error cases are exactly the
      ones `get_play_time` raises for. */
  lemma PlayTimeFromFile(text: string, now: Instant)
    ensures var r := PlayTime(Some(text), now);
      r.Success? <==> (|Lines(text)| >= 2 && FieldValue(Lines(text)[0]).Some? && FieldValue(Lines(text)[1]).Some?
        && 0 <= FieldValue(Lines(text)[0]).value <= 23 && 0 <= FieldValue(Lines(text)[1]).value <= 59)
    ensures var r := PlayTime(Some(text), now);
      r.Success? ==> (now <= r.value < now + MicrosPerDay
        && r.value % MicrosPerDay == SecondOfDay(FieldValue(Lines(text)[0]).value, FieldValue(Lines(text)[1]).value, 0) * MicrosPerSecond)
  {
    var r := PlayTime(Some(text), now);
    if r.Success? {
      var h, m := FieldValue(Lines(text)[0]).value, FieldValue(Lines(text)[1]).value;
      RollForwardWindow(now, h, m);
    }
  }

  /** The name before the `:` is ignored, and so is every line after the
      second. */
  lemma KeyFileReads(l1: string, h: nat, l2: string, m: nat, rest: string, now: Instant)
    requires ':' !in l1 && '\n' !in l1 && ':' !in l2 && '\n' !in l2
    requires h <= 23 && m <= 59
    ensures PlayTime(Some(KeyLine(l1, h) + KeyLine(l2, m) + rest), now) == Success(RollForward(TodayAt(now, h, m), now))
  {
    KeyLineReads(l1, h);
    KeyLineReads(l2, m);
    TwoLinesRead(KeyLine(l1, h), KeyLine(l2, m), rest, h, m, now);
  }

  /** Only the first two lines are read. */
  lemma TwoLinesRead(a: string, b: string, rest: string, h: int, m: int, now: Instant)
    requires LineShaped(a, false) && LineShaped(b, false)
    requires FieldValue(a) == Some(h) && FieldValue(b) == Some(m) && 0 <= h <= 23 && 0 <= m <= 59
    ensures PlayTime(Some(a + b + rest), now) == Success(RollForward(TodayAt(now, h, m), now))
  {
    LinesOfTwo(a, b, rest);
    FirstTwoLines(a + b + rest, a, b, h, m, now);
  }

  lemma LinesOfTwo(a: string, b: string, rest: string)
    requires LineShaped(a, false) && LineShaped(b, false)
    ensures |Lines(a + b + rest)| >= 2 && Lines(a + b + rest)[0] == a && Lines(a + b + rest)[1] == b
  {
    LinesAfterLine(a, b + rest);
    LinesAfterLine(b, rest);
    assert a + b + rest == a + (b + rest);
  }

  lemma FirstTwoLines(text: string, a: string, b: string, h: int, m: int, now: Instant)
    requires |Lines(text)| >= 2 && Lines(text)[0] == a && Lines(text)[1] == b
    requires FieldValue(a) == Some(h) && FieldValue(b) == Some(m) && 0 <= h <= 23 && 0 <= m <= 59
    ensures PlayTime(Some(text), now) == Success(RollForward(TodayAt(now, h, m), now))
  {
  }

  lemma KeyLineReads(name: string, v: nat)
    requires ':' !in name && '\n' !in name
    ensures FieldValue(KeyLine(name, v)) == Some(v)
    ensures LineShaped(KeyLine(name, v), false)
  {
    KeyLineField(name, v);
    KeyLineShape(name, v);
  }

  lemma KeyLineField(name: string, v: nat)
    requires ':' !in name
    ensures FieldValue(KeyLine(name, v)) == Some(v)
  {
    var d := NatToString(v);
    DigitsHaveNoColon(d);
    var tail := " " + d + "\n";
    assert ':' !in tail;
    Split2(name, tail, ':');
    assert name + [':'] + tail == KeyLine(name, v);
    assert IsSpace(' ') && IsSpace('\n');
    assert !IsSpace(d[0]) && !IsSpace(d[|d| - 1]) by { assert IsAsciiDigit(d[0]) && IsAsciiDigit(d[|d| - 1]); }
    StripPadded(" ", d, "\n");
    ParseShow(v);
  }

  lemma KeyLineShape(name: string, v: nat)
    requires '\n' !in name
    ensures LineShaped(KeyLine(name, v), false)
  {
    var d := NatToString(v);
    DigitsHaveNoColon(d);
    var l := KeyLine(name, v);
    forall j | 0 <= j < |l| - 1
      ensures l[j] != '\n'
    {
      if j < |name| {
        assert l[j] == name[j];
      } else if j >= |name| + 2 {
        assert l[j] == d[j - |name| - 2];
      }
    }
  }

  /** The default file, read back on a later start, gives 16:45 rolled
      forward. */
  lemma DefaultReadBack(now: Instant)
    ensures PlayTime(Some(DefaultFileText), now) == Success(RollForward(TodayAt(now, 16, 45), now))
  {
    KeyFileReads("hours", 16, "minutes", 45, "", now);
    assert DefaultFileText + "" == DefaultFileText;
  }

  /** The first start (no file) and a later start reading the file it wrote
      agree exactly when 16:45 has not yet passed. */
  lemma DefaultsAgreeWithFile(now: Instant)
    ensures PlayTime(None, now) == PlayTime(Some(DefaultFileText), now) <==> now <= TodayAt(now, 16, 45)
  {
    DefaultReadBack(now);
    RollsToTomorrow(now, 16, 45);
  }

  // ------------------------------------------------ the four messages

  const SelectClip := OscMessage("/composition/layers/1/clips/1/select", 1)
  const PlayForwardsInLayer := OscMessage("/composition/layers/1/clips/1/transport/position/behaviour/playdirection", 2)
  const PlayForwardsSelected := OscMessage("/composition/selectedclip/transport/position/behaviour/playdirection", 2)
  const ConnectClip := OscMessage("/composition/layers/1/clips/1/connect", 1)

  /** `send_osc_command`'s messages, in order. */
  const Commands: seq<OscMessage> := [SelectClip, PlayForwardsInLayer, PlayForwardsSelected, ConnectClip]

  /** `send_osc_command` on the messages `ms`: a raising send ends it at
      once, `pause` follows the first message, and the notice is printed
      once all are out. The flag says whether it returned normally. */
  function Sends(w: World, ms: seq<OscMessage>, pause: nat): (bool, World)
    decreases |ms|
  {
    if ms == [] then (true, Printed(w, CommandSent))
    else
      var t := Transmit(w, ms[0]);
      if !t.0 then (false, t.1)
      else Sends(Slept(t.1, pause), ms[1..], 0)
  }

  /** How many of `n` sends go out before the first that raises (see
      `DeliveredCounts`). */
  function Delivered(o: seq<bool>, n: nat): (d: nat)
    ensures d <= n
    decreases n
  {
    if n == 0 || !OutcomeAt(o, 0) then 0
    else 1 + Delivered(Drop(o, 1), n - 1)
  }

  /** `Delivered` counts the leading sends that return normally, up to
      `n`. */
  lemma {:induction false} DeliveredCounts(o: seq<bool>, n: nat)
    ensures Delivered(o, n) < n ==> !OutcomeAt(o, Delivered(o, n))
    ensures forall j :: 0 <= j < Delivered(o, n) ==> OutcomeAt(o, j)
    decreases n
  {
    if n > 0 && OutcomeAt(o, 0) {
      var o' := Drop(o, 1);
      DeliveredCounts(o', n - 1);
      forall j | 0 <= j < Delivered(o, n)
        ensures OutcomeAt(o, j)
      {
        if j > 0 {
          assert OutcomeAt(o', j - 1);
        }
      }
    }
  }

  /** The messages go out as a prefix of `ms`, each once and in order,
      stopping at the first send that raises. */
  lemma {:induction false} SendsWire(w: World, ms: seq<OscMessage>, pause: nat)
    ensures Sends(w, ms, pause).1.wire == w.wire + ms[..Delivered(w.outcomes, |ms|)]
    decreases |ms|
  {
    if ms == [] || !OutcomeAt(w.outcomes, 0) {
      assert ms[..0] == [];
    } else {
      var w2 := Slept(Transmit(w, ms[0]).1, pause);
      SendsWire(w2, ms[1..], 0);
      var n' := Delivered(w2.outcomes, |ms| - 1);
      assert Delivered(w.outcomes, |ms|) == n' + 1;
      assert w.wire + [ms[0]] + ms[1..][..n'] == w.wire + ms[..n' + 1];
    }
  }

  /** `send_osc_command` returns normally exactly when every message went
      out. */
  lemma {:induction false} SendsFlag(w: World, ms: seq<OscMessage>, pause: nat)
    ensures Sends(w, ms, pause).0 == (Delivered(w.outcomes, |ms|) == |ms|)
    decreases |ms|
  {
    if ms != [] && OutcomeAt(w.outcomes, 0) {
      SendsFlag(Slept(Transmit(w, ms[0]).1, pause), ms[1..], 0);
    }
  }

  /** How many outcomes `n` sends use: one per send made, the one that
      raises included. */
  function Used(o: seq<bool>, n: nat): nat {
    if Delivered(o, n) == n then n else Delivered(o, n) + 1
  }

  /** Each send uses one outcome, the one that raises included. */
  lemma {:induction false} SendsOutcomes(w: World, ms: seq<OscMessage>, pause: nat)
    ensures Sends(w, ms, pause).1.outcomes == Drop(w.outcomes, Used(w.outcomes, |ms|))
    decreases |ms|
  {
    if ms != [] && OutcomeAt(w.outcomes, 0) {
      var w2 := Slept(Transmit(w, ms[0]).1, pause);
      assert Sends(w, ms, pause).1 == Sends(w2, ms[1..], 0).1;
      assert w2.outcomes == Drop(w.outcomes, 1);
      SendsOutcomes(w2, ms[1..], 0);
      var u := Used(w2.outcomes, |ms| - 1);
      assert Used(w.outcomes, |ms|) == u + 1;
      DropDrop(w.outcomes, 1, u);
    }
  }

  /** Sending logs nothing. */
  lemma {:induction false} SendsLogNothing(w: World, ms: seq<OscMessage>, pause: nat)
    ensures Sends(w, ms, pause).1.errorLog == w.errorLog
    decreases |ms|
  {
    if ms != [] && OutcomeAt(w.outcomes, 0) {
      SendsLogNothing(Slept(Transmit(w, ms[0]).1, pause), ms[1..], 0);
    }
  }

  /** Only a complete run prints the notice, and only the pause after the
      first message moves the clock. */
  lemma {:induction false} SendsPrints(w: World, ms: seq<OscMessage>, pause: nat)
    ensures Sends(w, ms, pause).1.console == w.console + (if Delivered(w.outcomes, |ms|) == |ms| then [CommandSent] else [])
    ensures Sends(w, ms, pause).1.clock == w.clock + (if Delivered(w.outcomes, |ms|) >= 1 then pause else 0)
    decreases |ms|
  {
    if ms != [] && OutcomeAt(w.outcomes, 0) {
      var w2 := Slept(Transmit(w, ms[0]).1, pause);
      SendsPrints(w2, ms[1..], 0);
      assert Delivered(w.outcomes, |ms|) == Delivered(w2.outcomes, |ms| - 1) + 1;
    }
  }

  /** The single-shot program from its start at `w.clock`: load the time,
      wait for it, send once. */
  function Execute(file: Option<string>, w: World): (Result<Instant, LoadError>, bool, World) {
    var loaded := PlayTime(file, w.clock);
    if loaded.Failure? then (loaded, false, w)
    else
      var f := Sends(Wait(loaded.value, HoursOnly, w), Commands, PauseAfterSend);
      (loaded, f.0, f.1)
  }

  /** A time read from a file is met within the second before it, never
      late: the messages go out at the first one-second tick at which less
      than a second remains. */
  lemma FileTimeMet(text: string, w: World, play: Instant)
    requires PlayTime(Some(text), w.clock) == Success(play)
    ensures play - MicrosPerSecond < Wait(play, HoursOnly, w).clock <= play
  {
    FileTimeAhead(text, w.clock, play);
    WaitEndsInLastSecond(play, HoursOnly, w);
  }

  /** Without a file the time is not rolled forward: started after 16:45,
      the program sends at once. */
  lemma StaleDefaultFiresAtOnce(w: World)
    requires TodayAt(w.clock, 16, 45) <= w.clock
    ensures Execute(None, w).2 == Sends(w, Commands, PauseAfterSend).1
  {
    assert TruncSeconds(TodayAt(w.clock, 16, 45) - w.clock) <= 0;
  }

  lemma FileTimeAhead(text: string, now: Instant, play: Instant)
    requires PlayTime(Some(text), now) == Success(play)
    ensures now <= play
  {
    PlayTimeFromFile(text, now);
  }

  /** Once the time is loaded, the four messages go out once each, in order,
      up to the first send that raises, after the countdown lines; the
      completion notice follows only when all four went out. */
  lemma ExecuteEffects(file: Option<string>, w: World, play: Instant)
    requires PlayTime(file, w.clock) == Success(play)
    ensures Execute(file, w).1 == (Delivered(w.outcomes, 4) == 4)
    ensures Execute(file, w).2.wire == w.wire + Commands[..Delivered(w.outcomes, 4)]
    ensures Execute(file, w).2.errorLog == w.errorLog
    ensures Execute(file, w).2.console == w.console + StatusLines(play, HoursOnly, w.clock)
      + (if Execute(file, w).1 then [CommandSent] else [])
  {
    var w1 := Wait(play, HoursOnly, w);
    WaitPrints(play, HoursOnly, w);
    SendsFlag(w1, Commands, PauseAfterSend);
    SendsWire(w1, Commands, PauseAfterSend);
    SendsLogNothing(w1, Commands, PauseAfterSend);
    SendsPrints(w1, Commands, PauseAfterSend);
  }

  /** A file that cannot be read sends nothing and prints nothing. */
  lemma LoadFailureSendsNothing(file: Option<string>, w: World)
    requires PlayTime(file, w.clock).Failure?
    ensures Execute(file, w).2 == w && !Execute(file, w).1
  {
  }

  /** `send_osc_command`. */
  method SendOscCommands(host: Host) returns (ok: bool)
    modifies host
    ensures (ok, host.State()) == Sends(old(host.State()), Commands, PauseAfterSend)
  {
    assert Commands[0] == SelectClip && Commands[1..][0] == PlayForwardsInLayer;
    assert Commands[1..][1..][0] == PlayForwardsSelected && Commands[1..][1..][1..] == [ConnectClip];
    ok := host.SendMessage(SelectClip);
    if !ok {
      return;
    }
    host.Sleep(PauseAfterSend);
    assert Sends(old(host.State()), Commands, PauseAfterSend) == Sends(host.State(), Commands[1..], 0);
    ok := host.SendMessage(PlayForwardsInLayer);
    if !ok {
      return;
    }
    assert Sends(old(host.State()), Commands, PauseAfterSend) == Sends(host.State(), Commands[1..][1..], 0);
    ok := host.SendMessage(PlayForwardsSelected);
    if !ok {
      return;
    }
    assert Sends(old(host.State()), Commands, PauseAfterSend) == Sends(host.State(), [ConnectClip], 0);
    ok := host.SendMessage(ConnectClip);
    if !ok {
      return;
    }
    assert [ConnectClip][1..] == [];
    host.Print(CommandSent);
  }

  /** The constructor's `get_play_time` followed by `run`. */
  method Run(host: Host, file: Option<string>) returns (loaded: Result<Instant, LoadError>, completed: bool)
    modifies host
    ensures (loaded, completed, host.State()) == Execute(file, old(host.State()))
  {
    var now := host.Now();
    loaded := PlayTime(file, now);
    completed := false;
    if loaded.Failure? {
      return;
    }
    WaitUntilDue(host, loaded.value, HoursOnly);
    completed := SendOscCommands(host);
  }
}
