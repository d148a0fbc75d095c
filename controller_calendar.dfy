/** The calendar-driven controller (control_resolume_only_column_googlecal.py):
    calendar events whose summary reads `<pc name>,<command>` are kept for
    this PC, sorted by start, listed, and worked through one by one: a past
    event is passed over, otherwise a one-second countdown runs down to the
    start and the command becomes one OSC message to column 1.

    The events are given as already fetched, each start as an instant on
    the same scale as the clock (timezone-aware in the source). */
module ControllerCalendar {
  import opened Wrappers
  import opened PyText
  import opened Instants
  import opened Host
  import opened StableSort

  /** The part of a calendar event the controller uses; `summary` is
      `None` where the event has no `summary` key. */
  datatype CalendarEvent = CalendarEvent(summary: Option<string>, start: Instant)

  /** A kept event: the stripped name and command, and the start. */
  datatype Booking = Booking(name: string, command: string, start: Instant)

  /** `process_calendar_events` stops with the exception the `index`-th
      event raises: `KeyError` on the missing summary, or `ValueError` when
      the summary holds more than one ',' and does not unpack into two. */
  datatype EventsError = MissingSummary(index: nat) | NotTwoFields(index: nat)

  /** What the selection loop does with one event. */
  datatype Verdict = Kept(booking: Booking) | Skipped | NoSummary | BadSplit

  function Judge(e: CalendarEvent, pcName: string): (v: Verdict)
    ensures v.Kept? ==> v.booking.name == pcName && v.booking.start == e.start
  {
    match e.summary
    case None => NoSummary
    case Some(s) =>
      if ',' !in s then Skipped
      else
        var p := Split(s, ',');
        if |p| != 2 then BadSplit
        else if Strip(p[0]) == pcName then Kept(Booking(Strip(p[0]), Strip(p[1]), e.start))
        else Skipped
  }

  predicate Raises(v: Verdict) {
    v.NoSummary? || v.BadSplit?
  }

  /** What the loop decides for each event, in order. */
  function Verdicts(events: seq<CalendarEvent>, pcName: string): (vs: seq<Verdict>)
    ensures |vs| == |events|
    ensures forall k :: 0 <= k < |events| ==> vs[k] == Judge(events[k], pcName)
  {
    seq(|events|, k requires 0 <= k < |events| => Judge(events[k], pcName))
  }

  /** The selection loop over the verdicts: the kept bookings in order, or
      the first exception. */
  function Collect(vs: seq<Verdict>): Result<seq<Booking>, EventsError> {
    if |vs| == 0 then Success([])
    else
      var init := vs[..|vs| - 1];
      var r := Collect(init);
      if r.Failure? then r
      else match vs[|vs| - 1]
        case NoSummary => Failure(MissingSummary(|init|))
        case BadSplit => Failure(NotTwoFields(|init|))
        case Skipped => r
        case Kept(b) => Success(r.value + [b])
  }

  /** The selection loop of `process_calendar_events`. */
  function Select(events: seq<CalendarEvent>, pcName: string): Result<seq<Booking>, EventsError> {
    Collect(Verdicts(events, pcName))
  }

  lemma {:induction false} CollectFails(vs: seq<Verdict>)
    ensures Collect(vs).Success? <==> forall k :: 0 <= k < |vs| ==> !Raises(vs[k])
    ensures Collect(vs).Failure? ==>
      Collect(vs).error.index < |vs|
      && Collect(vs).error == (if vs[Collect(vs).error.index].NoSummary? then MissingSummary(Collect(vs).error.index) else NotTwoFields(Collect(vs).error.index))
      && forall k :: 0 <= k < Collect(vs).error.index ==> !Raises(vs[k])
  {
    if |vs| > 0 {
      var init := vs[..|vs| - 1];
      CollectFails(init);
      assert forall k :: 0 <= k < |init| ==> init[k] == vs[k];
    }
  }

  /** The selection fails exactly when some event raises, and then with the
      first such event. */
  lemma SelectFails(events: seq<CalendarEvent>, pcName: string)
    ensures Select(events, pcName).Success? <==> forall k :: 0 <= k < |events| ==> !Raises(Judge(events[k], pcName))
    ensures Select(events, pcName).Failure? ==>
      Select(events, pcName).error.index < |events|
      && Select(events, pcName).error ==
           (if Judge(events[Select(events, pcName).error.index], pcName).NoSummary?
            then MissingSummary(Select(events, pcName).error.index) else NotTwoFields(Select(events, pcName).error.index))
      && forall k :: 0 <= k < Select(events, pcName).error.index ==> !Raises(Judge(events[k], pcName))
  {
    CollectFails(Verdicts(events, pcName));
  }

  lemma {:induction false} CollectMembers(vs: seq<Verdict>, bs: seq<Booking>, b: Booking)
    requires Collect(vs) == Success(bs)
    ensures b in bs <==> exists k :: 0 <= k < |vs| && vs[k] == Kept(b)
  {
    if |vs| > 0 {
      var last := |vs| - 1;
      var init := vs[..last];
      var r := Collect(init);
      assert r.Success? && bs == r.value + (if vs[last].Kept? then [vs[last].booking] else []);
      CollectMembers(init, r.value, b);
      if b in r.value {
        var k :| 0 <= k < |init| && init[k] == Kept(b);
        assert vs[k] == init[k];
      } else if b in bs {
        assert vs[last] == Kept(b);
      }
      if exists k :: 0 <= k < |vs| && vs[k] == Kept(b) {
        var k :| 0 <= k < |vs| && vs[k] == Kept(b);
        if k < last {
          assert init[k] == vs[k];
        }
      }
    }
  }

  /** A booking is selected exactly when some event yields it. */
  lemma SelectedMembers(events: seq<CalendarEvent>, pcName: string, bs: seq<Booking>, b: Booking)
    requires Select(events, pcName) == Success(bs)
    ensures b in bs <==> exists k :: 0 <= k < |events| && Judge(events[k], pcName) == Kept(b)
  {
    var vs := Verdicts(events, pcName);
    CollectMembers(vs, bs, b);
    if b in bs {
      var k :| 0 <= k < |vs| && vs[k] == Kept(b);
      assert Judge(events[k], pcName) == Kept(b);
    }
  }

  /** Every selected booking is for this PC. */
  lemma SelectedForThisPc(events: seq<CalendarEvent>, pcName: string, bs: seq<Booking>)
    requires Select(events, pcName) == Success(bs)
    ensures forall k :: 0 <= k < |bs| ==> bs[k].name == pcName
  {
    forall k | 0 <= k < |bs|
      ensures bs[k].name == pcName
    {
      SelectedMembers(events, pcName, bs, bs[k]);
      var j :| 0 <= j < |events| && Judge(events[j], pcName) == Kept(bs[k]);
    }
  }

  /** An event whose summary has no ',' is passed over without a trace. */
  lemma NoCommaIgnored(events: seq<CalendarEvent>, e: CalendarEvent, pcName: string)
    requires e.summary.Some? && ',' !in e.summary.value
    ensures Select(events + [e], pcName) == Select(events, pcName)
  {
    var vs := Verdicts(events + [e], pcName);
    assert vs[..|events|] == Verdicts(events, pcName);
    assert vs[|events|] == Skipped;
  }

  /** A summary written as `name,command` is read back as the stripped pair,
      and kept exactly when the stripped name is this PC's. */
  lemma SummaryReads(name: string, command: string, start: Instant, pcName: string)
    requires ',' !in name && ',' !in command
    ensures Judge(CalendarEvent(Some(name + "," + command), start), pcName) ==
      if Strip(name) == pcName then Kept(Booking(Strip(name), Strip(command), start)) else Skipped
  {
    Split2(name, command, ',');
    assert name + [','] + command == name + "," + command;
    assert (name + "," + command)[|name|] == ',';
  }

  /** Once a prefix raises, the whole selection raises the same way. */
  lemma {:induction false} CollectFailureStays(vs: seq<Verdict>, i: nat)
    requires i <= |vs|
    requires Collect(vs[..i]).Failure?
    ensures Collect(vs) == Collect(vs[..i])
    decreases |vs| - i
  {
    if i < |vs| {
      assert vs[..i + 1][..i] == vs[..i];
      CollectFailureStays(vs, i + 1);
    } else {
      assert vs[..i] == vs;
    }
  }

  function StartOf(b: Booking): int {
    b.start
  }

  // ------------------------------------------------ commands

  const ConnectColumn := OscMessage("/composition/columns/1/connect", 1)
  const DisconnectColumn := OscMessage("/composition/columns/1/disconnect", 1)

  /** `run` connects column 1, `stop` disconnects it; any other command
      sends nothing. */
  function CommandMessage(command: string): (m: Option<OscMessage>)
    ensures m.Some? <==> command == "run" || command == "stop"
    ensures m.Some? ==> m.value == ConnectColumn || m.value == DisconnectColumn
  {
    if command == "run" then Some(ConnectColumn)
    else if command == "stop" then Some(DisconnectColumn)
    else None
  }

  /** `send_osc_command`: one attempt; the notice on success, the error
      line where `send_message` raises; nothing waits and nothing is
      retried. */
  function SendCommand(w: World, m: OscMessage): (r: World)
    ensures r.outcomes == Drop(w.outcomes, 1) && r.errorLog == w.errorLog && r.clock == w.clock
    ensures r.wire == w.wire + (if OutcomeAt(w.outcomes, 0) then [m] else [])
    ensures r.console == w.console + [if OutcomeAt(w.outcomes, 0) then OscSent(m) else SendError]
  {
    var t := Transmit(w, m);
    Printed(t.1, if t.0 then OscSent(m) else SendError)
  }

  // ------------------------------------------------ countdown

  /** The countdown loop with `left` microseconds to go: while some time is
      left, show the whole seconds left, sleep a second and take a second
      off, without reading the clock again. */
  function Countdown(b: Booking, w: World, left: int): (r: World)
    ensures r.outcomes == w.outcomes && r.wire == w.wire && r.errorLog == w.errorLog
    decreases left
  {
    if left <= 0 then w
    else Countdown(b, Slept(Printed(w, SecondsLeft(b.name, b.command, b.start, left / MicrosPerSecond)), MicrosPerSecond as nat), left - MicrosPerSecond)
  }

  /** The number of passes: `left` in seconds, rounded up. */
  function Ticks(left: int): nat {
    if left <= 0 then 0 else ((left + MicrosPerSecond - 1) / MicrosPerSecond) as nat
  }

  /** The countdown sleeps once per pass, so it ends `Ticks(left)` seconds
      later. */
  lemma {:induction false} CountdownTiming(b: Booking, w: World, left: int)
    ensures Countdown(b, w, left).clock == w.clock + Ticks(left) * MicrosPerSecond
    decreases left
  {
    if left > 0 {
      var w2 := Slept(Printed(w, SecondsLeft(b.name, b.command, b.start, left / MicrosPerSecond)), MicrosPerSecond as nat);
      CountdownTiming(b, w2, left - MicrosPerSecond);
      assert Ticks(left) == Ticks(left - MicrosPerSecond) + 1;
    }
  }

  /** The lines the countdown shows. */
  function SecondsLines(b: Booking, left: int): (ls: seq<Notice>)
    decreases left
  {
    if left <= 0 then []
    else [SecondsLeft(b.name, b.command, b.start, left / MicrosPerSecond)] + SecondsLines(b, left - MicrosPerSecond)
  }

  /** The countdown only appends its lines to the console. */
  lemma {:induction false} CountdownPrints(b: Booking, w: World, left: int)
    ensures Countdown(b, w, left).console == w.console + SecondsLines(b, left)
    decreases left
  {
    if left > 0 {
      var n := SecondsLeft(b.name, b.command, b.start, left / MicrosPerSecond);
      var w2 := Slept(Printed(w, n), MicrosPerSecond as nat);
      CountdownPrints(b, w2, left - MicrosPerSecond);
      assert w.console + [n] + SecondsLines(b, left - MicrosPerSecond) == w.console + ([n] + SecondsLines(b, left - MicrosPerSecond));
    }
  }

  /** One line per pass, each showing one second fewer than the one
      before. */
  lemma {:induction false} SecondsCountDown(b: Booking, left: int)
    ensures |SecondsLines(b, left)| == Ticks(left)
    ensures forall k :: 0 <= k < |SecondsLines(b, left)| ==>
      SecondsLines(b, left)[k] == SecondsLeft(b.name, b.command, b.start, left / MicrosPerSecond - k)
    decreases left
  {
    if left > 0 {
      var rest := SecondsLines(b, left - MicrosPerSecond);
      SecondsCountDown(b, left - MicrosPerSecond);
      assert Ticks(left) == Ticks(left - MicrosPerSecond) + 1;
      assert (left - MicrosPerSecond) / MicrosPerSecond == left / MicrosPerSecond - 1;
      forall k | 1 <= k < |SecondsLines(b, left)|
        ensures SecondsLines(b, left)[k] == SecondsLeft(b.name, b.command, b.start, left / MicrosPerSecond - k)
      {
        assert SecondsLines(b, left)[k] == rest[k - 1];
      }
    }
  }

  /** A countdown begun at or before the start ends at the start or less
      than a second after it: the command is never sent early. */
  lemma CountdownEndsAtStart(left: int)
    requires left >= 0
    ensures left <= Ticks(left) * MicrosPerSecond < left + MicrosPerSecond
  {
  }

  // ------------------------------------------------ processing

  /** One booking: read the clock; a start already past is reported and
      passed over; otherwise the countdown runs and the command, if it is
      one, is sent. */
  function Handle(b: Booking, w: World): World {
    if b.start < w.clock then Printed(w, PastEventIgnored(b.start))
    else
      var w1 := Countdown(b, Printed(w, CountdownStarted(b.name, b.command, b.start)), b.start - w.clock);
      match CommandMessage(b.command)
      case None => w1
      case Some(m) => SendCommand(w1, m)
  }

  /** A booking sends at most one message, its command's one, and only when
      its start has not passed; that happens at the start or less than a
      second after it. */
  lemma HandleSends(b: Booking, w: World)
    ensures Handle(b, w).wire == w.wire +
      (if b.start >= w.clock && CommandMessage(b.command).Some? && OutcomeAt(w.outcomes, 0)
       then [CommandMessage(b.command).value] else [])
    ensures Handle(b, w).errorLog == w.errorLog
    ensures b.start < w.clock ==> Handle(b, w).clock == w.clock && Handle(b, w).outcomes == w.outcomes
    ensures b.start >= w.clock ==> b.start <= Handle(b, w).clock < b.start + MicrosPerSecond
  {
    if b.start >= w.clock {
      var w0 := Printed(w, CountdownStarted(b.name, b.command, b.start));
      CountdownTiming(b, w0, b.start - w.clock);
      CountdownEndsAtStart(b.start - w.clock);
    }
  }

  /** A past booking sends nothing and only prints that it is passed over. */
  lemma PastSendsNothing(b: Booking, w: World)
    requires b.start < w.clock
    ensures Handle(b, w) == Printed(w, PastEventIgnored(b.start))
  {
  }

  /** Of two bookings with the same start, the second is passed over as
      past unless the first one's countdown began a whole number of seconds
      before the start: the countdown overshoots the start by the fraction
      of a second it began with. */
  lemma SameStartPassedOver(b1: Booking, b2: Booking, w: World)
    requires b1.start == b2.start && w.clock <= b1.start
    ensures Handle(b2, Handle(b1, w)) == Printed(Handle(b1, w), PastEventIgnored(b2.start))
      <==> (b1.start - w.clock) % MicrosPerSecond != 0
  {
    var w0 := Printed(w, CountdownStarted(b1.name, b1.command, b1.start));
    CountdownTiming(b1, w0, b1.start - w.clock);
    var w1 := Handle(b1, w);
    assert w1.clock == w.clock + Ticks(b1.start - w.clock) * MicrosPerSecond;
    var left := b1.start - w.clock;
    if left % MicrosPerSecond == 0 {
      assert Ticks(left) * MicrosPerSecond == left;
      assert !(b2.start < w1.clock);
      assert Handle(b2, w1) != Printed(w1, PastEventIgnored(b2.start)) by {
        var h := Handle(b2, w1);
        assert |Countdown(b2, Printed(w1, CountdownStarted(b2.name, b2.command, b2.start)), 0).console| == |w1.console| + 1;
        assert h.console[|w1.console|] == CountdownStarted(b2.name, b2.command, b2.start);
      }
    } else {
      CountdownEndsAtStart(left);
      assert Ticks(left) * MicrosPerSecond != left;
    }
  }

  /** The bookings in order. */
  function HandleAll(bs: seq<Booking>, w: World): World
    decreases |bs|
  {
    if |bs| == 0 then w else HandleAll(bs[1..], Handle(bs[0], w))
  }

  /** At most one message per booking goes out, and every one is column 1's
      connect or disconnect; nothing is logged. */
  lemma {:induction false} OnlyColumnCommands(bs: seq<Booking>, w: World)
    ensures |w.wire| <= |HandleAll(bs, w).wire| <= |w.wire| + |bs|
    ensures HandleAll(bs, w).wire[..|w.wire|] == w.wire
    ensures forall k :: |w.wire| <= k < |HandleAll(bs, w).wire| ==>
      HandleAll(bs, w).wire[k] == ConnectColumn || HandleAll(bs, w).wire[k] == DisconnectColumn
    ensures HandleAll(bs, w).errorLog == w.errorLog
    decreases |bs|
  {
    if |bs| > 0 {
      var w1 := Handle(bs[0], w);
      HandleSends(bs[0], w);
      OnlyColumnCommands(bs[1..], w1);
      var r := HandleAll(bs[1..], w1);
      assert r.wire[..|w1.wire|] == w1.wire;
      assert w1.wire[..|w.wire|] == w.wire;
      assert r.wire[..|w.wire|] == w1.wire[..|w.wire|];
    }
  }

  /** The listing: one line per booking, in order. */
  function Listing(bs: seq<Booking>): (ls: seq<Notice>)
    ensures |ls| == |bs|
    ensures forall k :: 0 <= k < |bs| ==> ls[k] == EventListed(bs[k].name, bs[k].command, bs[k].start)
  {
    if |bs| == 0 then [] else [EventListed(bs[0].name, bs[0].command, bs[0].start)] + Listing(bs[1..])
  }

  lemma ListingSnoc(bs: seq<Booking>, i: nat)
    requires i < |bs|
    ensures Listing(bs[..i + 1]) == Listing(bs[..i]) + [EventListed(bs[i].name, bs[i].command, bs[i].start)]
  {
    var a, b := Listing(bs[..i + 1]), Listing(bs[..i]) + [EventListed(bs[i].name, bs[i].command, bs[i].start)];
    assert |a| == |b|;
    forall k | 0 <= k < |a|
      ensures a[k] == b[k]
    {
      assert bs[..i + 1][k] == bs[k];
      if k < i {
        assert bs[..i][k] == bs[k];
      }
    }
  }

  /** `process_calendar_events` on the fetched events: either the exception
      one of them raises, with nothing printed or sent, or the sorted
      bookings and the world once all are handled. */
  function Process(events: seq<CalendarEvent>, pcName: string, w: World): (Result<seq<Booking>, EventsError>, World) {
    var sel := Select(events, pcName);
    if sel.Failure? then (sel, w)
    else
      var bs := SortBy(sel.value, StartOf);
      (Success(bs), HandleAll(bs, w.(console := w.console + [EventsHeader] + Listing(bs))))
  }

  /** What the run works through: this PC's bookings, sorted by start (ties
      in event order), exactly those of the kept events. */
  lemma ProcessOrder(events: seq<CalendarEvent>, pcName: string, w: World)
    requires Select(events, pcName).Success?
    ensures var bs := Process(events, pcName, w).0.value;
      && SortedBy(bs, StartOf)
      && multiset(bs) == multiset(Select(events, pcName).value)
      && (forall k :: WithKey(bs, StartOf, k) == WithKey(Select(events, pcName).value, StartOf, k))
      && (forall k :: 0 <= k < |bs| ==> bs[k].name == pcName)
  {
    var sel := Select(events, pcName).value;
    var bs := SortBy(sel, StartOf);
    forall k
      ensures WithKey(bs, StartOf, k) == WithKey(sel, StartOf, k)
    {
      SortStable(sel, StartOf, k);
    }
    SelectedForThisPc(events, pcName, sel);
    forall k | 0 <= k < |bs|
      ensures bs[k].name == pcName
    {
      assert bs[k] in multiset(sel);
      var j :| 0 <= j < |sel| && sel[j] == bs[k];
    }
  }

  // ------------------------------------------------ the program

  method SendOscCommand(host: Host, m: OscMessage)
    modifies host
    ensures host.State() == SendCommand(old(host.State()), m)
  {
    var ok := host.SendMessage(m);
    if ok {
      host.Print(OscSent(m));
    } else {
      host.Print(SendError);
    }
  }

  /** The countdown `while` loop. */
  method CountDown(host: Host, b: Booking, timeToStart: int)
    modifies host
    ensures host.State() == Countdown(b, old(host.State()), timeToStart)
  {
    var left := timeToStart;
    while left > 0
      invariant Countdown(b, host.State(), left) == Countdown(b, old(host.State()), timeToStart)
      decreases left
    {
      host.Print(SecondsLeft(b.name, b.command, b.start, left / MicrosPerSecond));
      host.Sleep(MicrosPerSecond as nat);
      left := left - MicrosPerSecond;
    }
  }

  method HandleBooking(host: Host, b: Booking)
    modifies host
    ensures host.State() == Handle(b, old(host.State()))
  {
    var now := host.Now();
    if b.start < now {
      host.Print(PastEventIgnored(b.start));
    } else {
      host.Print(CountdownStarted(b.name, b.command, b.start));
      CountDown(host, b, b.start - now);
      match CommandMessage(b.command)
      case None =>
      case Some(m) =>
        SendOscCommand(host, m);
    }
  }

  /** The selection loop, appending one booking per kept event. */
  method SelectEvents(events: seq<CalendarEvent>, pcName: string) returns (r: Result<seq<Booking>, EventsError>)
    ensures r == Select(events, pcName)
  {
    ghost var vs := Verdicts(events, pcName);
    var valid: seq<Booking> := [];
    for i := 0 to |events|
      invariant Collect(vs[..i]) == Success(valid)
    {
      assert vs[..i + 1][..i] == vs[..i] && vs[..i + 1][i] == Judge(events[i], pcName);
      match Judge(events[i], pcName)
      case NoSummary =>
        r := Failure(MissingSummary(i));
        CollectFailureStays(vs, i + 1);
        return;
      case BadSplit =>
        r := Failure(NotTwoFields(i));
        CollectFailureStays(vs, i + 1);
        return;
      case Skipped =>
      case Kept(b) =>
        valid := valid + [b];
    }
    assert vs[..|events|] == vs;
    r := Success(valid);
  }

  /** The header and one line per booking. */
  method PrintListing(host: Host, bs: seq<Booking>)
    modifies host
    ensures host.State() == old(host.State()).(console := old(host.State()).console + [EventsHeader] + Listing(bs))
  {
    host.Print(EventsHeader);
    for i := 0 to |bs|
      invariant host.State() == old(host.State()).(console := old(host.State()).console + [EventsHeader] + Listing(bs[..i]))
    {
      host.Print(EventListed(bs[i].name, bs[i].command, bs[i].start));
      ListingSnoc(bs, i);
    }
    assert bs[..|bs|] == bs;
  }

  method HandleBookings(host: Host, bs: seq<Booking>)
    modifies host
    ensures host.State() == HandleAll(bs, old(host.State()))
  {
    for i := 0 to |bs|
      invariant HandleAll(bs[i..], host.State()) == HandleAll(bs, old(host.State()))
    {
      assert bs[i..][1..] == bs[i + 1..];
      HandleBooking(host, bs[i]);
    }
  }

  method ProcessCalendarEvents(host: Host, events: seq<CalendarEvent>, pcName: string)
    returns (r: Result<seq<Booking>, EventsError>)
    modifies host
    ensures (r, host.State()) == Process(events, pcName, old(host.State()))
  {
    r := SelectEvents(events, pcName);
    if r.Failure? {
      return;
    }
    var valid := SortBy(r.value, StartOf);
    PrintListing(host, valid);
    HandleBookings(host, valid);
    r := Success(valid);
  }
}
