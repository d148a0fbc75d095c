/** The polling wait the three clock-driven controllers share: read the
    clock, take `int(remaining.total_seconds())`, and once that is zero or
    less the trigger is due; otherwise show the countdown and sleep one
    second. */
module WaitLoop {
  import opened Wrappers
  import opened Instants
  import opened Countdown
  import opened Host

  /** The table-driven controller shows a days part; the others show hours
      without a cap. */
  datatype Style = DaysShown | HoursOnly

  function StatusLine(style: Style, remaining: int): Notice {
    Status(style == DaysShown, remaining)
  }

  /** The countdown a status line shows. */
  datatype Shown = Shown(days: Option<int>, hours: int, minutes: int, seconds: int)

  /** The remaining time as a status line shows it (a status line is only
      printed while time remains): with days only when there is at least one
      whole day, or as uncapped hours. */
  function Display(n: Notice): (d: Shown)
    requires n.Status? && n.remaining > 0
    ensures n.withDays ==> (d.days.Some? <==> n.remaining >= 86400)
    ensures !n.withDays ==> d.days.None?
    ensures d.hours >= 0 && 0 <= d.minutes < 60 && 0 <= d.seconds < 60
    ensures n.withDays ==> d.hours < 24
    ensures (if d.days.Some? then d.days.value else 0) * 86400 + d.hours * 3600 + d.minutes * 60 + d.seconds == n.remaining
  {
    if n.withDays then
      var p := SplitDays(n.remaining);
      Shown(if p.days > 0 then Some(p.days) else None, p.hours, p.minutes, p.seconds)
    else
      var p := SplitHours(n.remaining);
      Shown(None, p.hours, p.minutes, p.seconds)
  }

  /** How many one-second pauses a wait for `play` starting at clock `t`
      takes. */
  function Pauses(play: Instant, t: Instant): nat
    decreases play - t
  {
    if TruncSeconds(play - t) <= 0 then 0 else 1 + Pauses(play, t + MicrosPerSecond)
  }

  /** The world once the wait for `play` is over: only status lines are
      printed (see `WaitPrints`), nothing is sent or logged, and the clock
      moves as `WaitTiming` states. */
  function Wait(play: Instant, style: Style, w: World): (r: World)
    ensures r.outcomes == w.outcomes && r.wire == w.wire && r.errorLog == w.errorLog
    decreases play - w.clock
  {
    var remaining := TruncSeconds(play - w.clock);
    if remaining <= 0 then w
    else
      var w2 := Slept(Printed(w, StatusLine(style, remaining)), MicrosPerSecond as nat);
      Wait(play, style, w2)
  }

  /** The wait ends at the first one-second tick at which less than one
      second remains, and that reading is never past `play` when the wait
      began at or before `play`. */
  lemma {:induction false} WaitTiming(play: Instant, style: Style, w: World)
    ensures TruncSeconds(play - Wait(play, style, w).clock) <= 0
    ensures Wait(play, style, w).clock == w.clock + Pauses(play, w.clock) * MicrosPerSecond
    ensures Wait(play, style, w).clock == w.clock || TruncSeconds(play - (Wait(play, style, w).clock - MicrosPerSecond)) > 0
    ensures w.clock <= play ==> Wait(play, style, w).clock <= play
    decreases play - w.clock
  {
    var remaining := TruncSeconds(play - w.clock);
    if remaining > 0 {
      var w2 := Slept(Printed(w, StatusLine(style, remaining)), MicrosPerSecond as nat);
      WaitTiming(play, style, w2);
    }
  }

  /** A wait begun at or before `play` ends within the second before it. */
  lemma WaitEndsInLastSecond(play: Instant, style: Style, w: World)
    requires w.clock <= play
    ensures play - MicrosPerSecond < Wait(play, style, w).clock <= play
  {
    WaitTiming(play, style, w);
    DueWithinASecond(play - Wait(play, style, w).clock);
  }

  /** The status lines a wait for `play` shows when it starts at clock
      `t`: one per second until the trigger is due. */
  function StatusLines(play: Instant, style: Style, t: Instant): (ls: seq<Notice>)
    ensures forall k :: 0 <= k < |ls| ==> ls[k].Status?
    decreases play - t
  {
    var remaining := TruncSeconds(play - t);
    if remaining <= 0 then []
    else [StatusLine(style, remaining)] + StatusLines(play, style, t + MicrosPerSecond)
  }

  /** The wait only appends its status lines to the console. */
  lemma {:induction false} WaitPrints(play: Instant, style: Style, w: World)
    ensures Wait(play, style, w).console == w.console + StatusLines(play, style, w.clock)
    decreases play - w.clock
  {
    var remaining := TruncSeconds(play - w.clock);
    if remaining > 0 {
      var n := StatusLine(style, remaining);
      var w2 := Slept(Printed(w, n), MicrosPerSecond as nat);
      WaitPrints(play, style, w2);
      assert w.console + [n] + StatusLines(play, style, w2.clock) == w.console + ([n] + StatusLines(play, style, w2.clock));
    }
  }

  /** The `while True` loop up to the point where the trigger is due. */
  method WaitUntilDue(host: Host, play: Instant, style: Style)
    modifies host
    ensures host.State() == Wait(play, style, old(host.State()))
  {
    while true
      invariant Wait(play, style, host.State()) == Wait(play, style, old(host.State()))
      decreases play - host.clock
    {
      var now := host.Now();
      var remaining := TruncSeconds(play - now);
      if remaining <= 0 {
        return;
      }
      host.Print(StatusLine(style, remaining));
      host.Sleep(MicrosPerSecond as nat);
    }
  }
}
