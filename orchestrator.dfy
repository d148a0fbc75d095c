/** The `run` loop of the table-driven and the multi-time controllers: the
    schedule entries are taken in list order; for each, wait until it is
    due, then fire it with up to two attempts. The two controllers differ in
    the countdown display, the success notice and whether a completion
    notice follows the last entry. */
module Orchestrator {
  import opened Wrappers
  import opened PyText
  import opened Instants
  import opened Host
  import opened WaitLoop
  import opened Dispatch

  /** One schedule entry: when to fire and which column to connect. */
  datatype Entry = Entry(time: Instant, column: nat)

  function EntryTime(e: Entry): int {
    e.time
  }

  /** Ver2: days in the countdown, `コラムNにコマンドを送信しました。`, and the
      completion notice after the last entry. Multi: hours-only countdown,
      `コマンドを送信しました。…`, no completion notice. */
  datatype Flavor = Ver2 | Multi

  function StyleOf(f: Flavor): Style {
    if f == Ver2 then DaysShown else HoursOnly
  }

  /** The line printed after a delivered send: it names the column only in
      the table-driven controller. */
  function SentNotice(f: Flavor, column: nat): (n: Notice)
    ensures n.ColumnSent? || n.CommandSent?
    ensures n.ColumnSent? ==> n.column == column
  {
    if f == Ver2 then ColumnSent(column) else CommandSent
  }

  /** `/composition/columns/{column}/connect` with the argument 1. */
  function ConnectMessage(column: nat): OscMessage {
    OscMessage("/composition/columns/" + NatToString(column) + "/connect", 1)
  }

  lemma ConnectAddressFields(n: string)
    ensures Join(["", "composition", "columns", n, "connect"], '/') == "/composition/columns/" + n + "/connect"
  {
    JoinFive("", "composition", "columns", n, "connect", '/');
    assert "" + "/" + "composition" + "/" + "columns" + "/" == "/composition/columns/";
  }

  /** The column is the fourth '/'-separated field of the address, so the
      address names exactly one column and distinct columns give distinct
      messages. */
  lemma ColumnInAddress(column: nat)
    ensures Split(ConnectMessage(column).address, '/') == ["", "composition", "columns", NatToString(column), "connect"]
    ensures ParseInt(Split(ConnectMessage(column).address, '/')[3]) == Some(column)
  {
    var n := NatToString(column);
    var parts := ["", "composition", "columns", n, "connect"];
    forall k | 0 <= k < |n|
      ensures n[k] != '/'
    {
      assert IsAsciiDigit(n[k]);
    }
    ConnectAddressFields(n);
    SplitJoin(parts, '/');
    ParseShow(column);
  }

  /** What the run records about one entry: the clock when its wait began,
      how many one-second pauses the wait took, when it fired, how many
      `send_osc_command` calls it took, whether one of them succeeded, and
      the lines printed meanwhile. */
  datatype Dispatched = Dispatched(
    entry: Entry, waitFrom: Instant, pauses: nat, at: Instant, attempts: nat, ok: bool, printed: seq<Notice>)

  /** The time the retry loop takes: 0.1 s after a first success, 1.1 s
      after a retry that succeeds, 2 s when both fail. */
  function Duration(d: Dispatched): nat {
    if d.attempts == 1 then PauseAfterSend
    else if d.ok then RetryDelay + PauseAfterSend
    else 2 * RetryDelay
  }

  /** An entry was fired correctly: at the first whole-second reading since
      its wait began at which less than a second remained, never after its
      time when the wait began in time, after one or two attempts, two when
      it failed. */
  predicate Fired(d: Dispatched) {
    && TruncSeconds(d.entry.time - d.at) <= 0
    && d.at == d.waitFrom + d.pauses * MicrosPerSecond
    && (d.at == d.waitFrom || TruncSeconds(d.entry.time - (d.at - MicrosPerSecond)) > 0)
    && (d.waitFrom <= d.entry.time ==> d.at <= d.entry.time)
    && 1 <= d.attempts <= Attempts
    && (d.ok || d.attempts == Attempts)
  }

  /** The messages that went out, in order: one per entry that succeeded. */
  function SentOf(ds: seq<Dispatched>): seq<OscMessage> {
    if |ds| == 0 then []
    else (if ds[0].ok then [ConnectMessage(ds[0].entry.column)] else []) + SentOf(ds[1..])
  }

  /** The error-log records, in order: one per entry whose two attempts
      failed, stamped two seconds after it fired. */
  function FailuresOf(ds: seq<Dispatched>): seq<FailureRecord> {
    if |ds| == 0 then []
    else (if ds[0].ok then [] else [FailureRecord(ds[0].at + 2 * RetryDelay, SendFailedText)]) + FailuresOf(ds[1..])
  }

  /** The entries fired, in firing order. */
  function EntriesOf(ds: seq<Dispatched>): (es: seq<Entry>)
    ensures |es| == |ds|
  {
    if |ds| == 0 then [] else [ds[0].entry] + EntriesOf(ds[1..])
  }

  /** Everything printed, in order. */
  function PrintedOf(ds: seq<Dispatched>): seq<Notice> {
    if |ds| == 0 then [] else ds[0].printed + PrintedOf(ds[1..])
  }

  /** An iteration printed something, and the completion notice only as its
      last line, exactly when it `closes`. */
  predicate Closes(d: Dispatched, closes: bool) {
    && |d.printed| > 0
    && (forall k :: 0 <= k < |d.printed| - 1 ==> d.printed[k] != AllDone)
    && (d.printed[|d.printed| - 1] == AllDone <==> closes)
  }

  /** When only the last record closes, the whole output holds the
      completion notice once, as its last line. */
  lemma {:induction false} ClosesOnce(ds: seq<Dispatched>, closing: bool)
    requires forall k :: 0 <= k < |ds| ==> Closes(ds[k], closing && k == |ds| - 1)
    ensures var p := PrintedOf(ds);
      && (forall k :: 0 <= k < |p| - 1 ==> p[k] != AllDone)
      && (|ds| > 0 ==> |p| > 0 && (p[|p| - 1] == AllDone <==> closing))
      && (|ds| == 0 ==> p == [])
  {
    if |ds| > 0 {
      var rest := ds[1..];
      if |rest| == 0 {
        assert PrintedOf(ds) == ds[0].printed + [];
        assert ds[0].printed + [] == ds[0].printed;
      } else {
        forall k | 0 <= k < |rest|
          ensures Closes(rest[k], closing && k == |rest| - 1)
        {
          assert rest[k] == ds[k + 1];
        }
        ClosesOnce(rest, closing);
        var p, a, b := PrintedOf(ds), ds[0].printed, PrintedOf(rest);
        assert p == a + b;
        assert Closes(ds[0], false);
        forall k | 0 <= k < |p| - 1
          ensures p[k] != AllDone
        {
          if k < |a| {
            assert p[k] == a[k];
          } else {
            assert p[k] == b[k - |a|];
          }
        }
      }
    }
  }

  function AttemptsOf(ds: seq<Dispatched>): nat {
    if |ds| == 0 then 0 else ds[0].attempts + AttemptsOf(ds[1..])
  }

  /** One iteration of the `for` loop: the wait, the retry loop, and for the
      last entry of the table-driven controller the completion notice. */
  function Step(e: Entry, last: bool, f: Flavor, w: World): (r: (World, Dispatched))
    ensures r.1.entry == e && r.1.waitFrom == w.clock
  {
    var w1 := Wait(e.time, StyleOf(f), w);
    var rep := SendWithRetry(w1, ConnectMessage(e.column), SentNotice(f, e.column));
    var closes := f == Ver2 && last;
    var w2 := if closes then Printed(rep.world, AllDone) else rep.world;
    var printed := StatusLines(e.time, StyleOf(f), w.clock) + RetryLines(w1.outcomes, SentNotice(f, e.column))
      + (if closes then [AllDone] else []);
    (w2, Dispatched(e, w.clock, Pauses(e.time, w.clock), w1.clock, rep.attempts, rep.ok, printed))
  }

  /** The body of the `for` loop, given the entry, whether it is the last
      one, and the world. */
  type Iteration = (Entry, bool, World) -> (World, Dispatched)

  function IterationOf(f: Flavor): Iteration {
    (e, last, w) => Step(e, last, f, w)
  }

  /** The `for` loop from entry `i` on, with the record of every entry it
      fired. */
  function Loop(body: Iteration, entries: seq<Entry>, i: nat, w: World): (r: (World, seq<Dispatched>))
    requires i <= |entries|
    ensures |r.1| == |entries| - i
    decreases |entries| - i
  {
    if i == |entries| then (w, [])
    else
      var step := body(entries[i], i == |entries| - 1, w);
      var rest := Loop(body, entries, i + 1, step.0);
      (rest.0, [step.1] + rest.1)
  }

  /** The run of a controller from entry `i` on. */
  function RunFrom(entries: seq<Entry>, i: nat, f: Flavor, w: World): (r: (World, seq<Dispatched>))
    requires i <= |entries|
    ensures |r.1| == |entries| - i
  {
    Loop(IterationOf(f), entries, i, w)
  }

  // ------------------------------------------------ what one iteration does

  /** The iteration fired entry `e`, correctly, starting at the clock it was
      given, and the next one starts when its retry loop is over. */
  predicate Timed(e: Entry, w: World, r: (World, Dispatched)) {
    r.1.entry == e && r.1.waitFrom == w.clock && Fired(r.1) && r.0.clock == r.1.at + Duration(r.1)
  }

  /** The iteration used the oracle once per attempt, put its message on the
      wire when it succeeded and logged a record when it did not. */
  predicate Effects(e: Entry, w: World, r: (World, Dispatched)) {
    && r.0.outcomes == Drop(w.outcomes, r.1.attempts)
    && r.0.wire == w.wire + (if r.1.ok then [ConnectMessage(e.column)] else [])
    && r.0.errorLog == w.errorLog + (if r.1.ok then [] else [FailureRecord(r.1.at + 2 * RetryDelay, SendFailedText)])
  }

  /** The iteration appended its record's lines to the console, and those
      close the output exactly when `closes` holds. */
  predicate Prints(closes: bool, w: World, r: (World, Dispatched)) {
    r.0.console == w.console + r.1.printed && Closes(r.1, closes)
  }

  lemma StepTimed(e: Entry, last: bool, f: Flavor, w: World)
    ensures Timed(e, w, Step(e, last, f, w))
  {
    WaitTiming(e.time, StyleOf(f), w);
    var w1 := Wait(e.time, StyleOf(f), w);
    var rep := SendWithRetry(w1, ConnectMessage(e.column), SentNotice(f, e.column));
  }

  lemma StepEffects(e: Entry, last: bool, f: Flavor, w: World)
    ensures Effects(e, w, Step(e, last, f, w))
  {
    var w1 := Wait(e.time, StyleOf(f), w);
    var rep := SendWithRetry(w1, ConnectMessage(e.column), SentNotice(f, e.column));
  }

  /** The console of an iteration is the old one followed by its record's
      lines. */
  lemma StepAppends(e: Entry, last: bool, f: Flavor, w: World)
    ensures Step(e, last, f, w).0.console == w.console + Step(e, last, f, w).1.printed
  {
    var w1 := Wait(e.time, StyleOf(f), w);
    WaitPrints(e.time, StyleOf(f), w);
    var sent := SentNotice(f, e.column);
    RetryConsole(w1, ConnectMessage(e.column), sent);
    var a, b := StatusLines(e.time, StyleOf(f), w.clock), RetryLines(w1.outcomes, sent);
    assert w.console + a + b == w.console + (a + b);
    assert w.console + a + b + [AllDone] == w.console + (a + b + [AllDone]);
  }

  lemma StepPrints(e: Entry, last: bool, f: Flavor, w: World)
    ensures Prints(f == Ver2 && last, w, Step(e, last, f, w))
  {
    StepAppends(e, last, f, w);
    var w1 := Wait(e.time, StyleOf(f), w);
    var sent := SentNotice(f, e.column);
    var a, b := StatusLines(e.time, StyleOf(f), w.clock), RetryLines(w1.outcomes, sent);
    var p := Step(e, last, f, w).1.printed;
    forall k | 0 <= k < |p| - 1
      ensures p[k] != AllDone
    {
      if k < |a| {
        assert p[k] == a[k];
      } else if k < |a| + |b| {
        assert p[k] == b[k - |a|];
      }
    }
  }

  // ------------------------------------------------ what the loop does

  lemma {:induction false} LoopTiming(body: Iteration, entries: seq<Entry>, i: nat, w: World)
    requires i <= |entries|
    requires forall e, last, w0 :: Timed(e, w0, body(e, last, w0))
    ensures var (r, ds) := Loop(body, entries, i, w);
      && EntriesOf(ds) == entries[i..]
      && (forall k :: 0 <= k < |ds| ==> Fired(ds[k]))
      && (|ds| > 0 ==> ds[0].waitFrom == w.clock)
      && (forall k :: 0 <= k < |ds| - 1 ==> ds[k + 1].waitFrom == ds[k].at + Duration(ds[k]))
      && r.clock == if |ds| == 0 then w.clock else ds[|ds| - 1].at + Duration(ds[|ds| - 1])
    decreases |entries| - i
  {
    if i < |entries| {
      var step := body(entries[i], i == |entries| - 1, w);
      var rest := Loop(body, entries, i + 1, step.0);
      LoopTiming(body, entries, i + 1, step.0);
      assert ([step.1] + rest.1)[1..] == rest.1;
      assert entries[i..] == [entries[i]] + entries[i + 1..];
    }
  }

  lemma LoopEffects(body: Iteration, entries: seq<Entry>, i: nat, w: World)
    requires i <= |entries|
    requires forall e, last, w0 :: Effects(e, w0, body(e, last, w0)) && body(e, last, w0).1.entry == e
    ensures Loop(body, entries, i, w).0.outcomes == Drop(w.outcomes, AttemptsOf(Loop(body, entries, i, w).1))
    ensures Loop(body, entries, i, w).0.wire == w.wire + SentOf(Loop(body, entries, i, w).1)
    ensures Loop(body, entries, i, w).0.errorLog == w.errorLog + FailuresOf(Loop(body, entries, i, w).1)
  {
    LoopOutcomes(body, entries, i, w);
    LoopWire(body, entries, i, w);
    LoopErrorLog(body, entries, i, w);
  }

  lemma {:induction false} LoopOutcomes(body: Iteration, entries: seq<Entry>, i: nat, w: World)
    requires i <= |entries|
    requires forall e, last, w0 :: Effects(e, w0, body(e, last, w0))
    ensures Loop(body, entries, i, w).0.outcomes == Drop(w.outcomes, AttemptsOf(Loop(body, entries, i, w).1))
    decreases |entries| - i
  {
    if i < |entries| {
      var step := body(entries[i], i == |entries| - 1, w);
      assert Effects(entries[i], w, step);
      var rest := Loop(body, entries, i + 1, step.0);
      LoopOutcomes(body, entries, i + 1, step.0);
      DropDrop(w.outcomes, step.1.attempts, AttemptsOf(rest.1));
      var ds := [step.1] + rest.1;
      assert ds[0] == step.1 && ds[1..] == rest.1;
      assert AttemptsOf(ds) == step.1.attempts + AttemptsOf(rest.1);
    }
  }

  lemma {:induction false} LoopWire(body: Iteration, entries: seq<Entry>, i: nat, w: World)
    requires i <= |entries|
    requires forall e, last, w0 :: Effects(e, w0, body(e, last, w0)) && body(e, last, w0).1.entry == e
    ensures Loop(body, entries, i, w).0.wire == w.wire + SentOf(Loop(body, entries, i, w).1)
    decreases |entries| - i
  {
    if i < |entries| {
      var step := body(entries[i], i == |entries| - 1, w);
      assert Effects(entries[i], w, step) && step.1.entry == entries[i];
      var rest := Loop(body, entries, i + 1, step.0);
      LoopWire(body, entries, i + 1, step.0);
      var ds := [step.1] + rest.1;
      assert ds[0] == step.1 && ds[1..] == rest.1;
      var sent := if step.1.ok then [ConnectMessage(entries[i].column)] else [];
      assert SentOf(ds) == sent + SentOf(rest.1);
      assert w.wire + sent + SentOf(rest.1) == w.wire + (sent + SentOf(rest.1));
    }
  }

  lemma {:induction false} LoopErrorLog(body: Iteration, entries: seq<Entry>, i: nat, w: World)
    requires i <= |entries|
    requires forall e, last, w0 :: Effects(e, w0, body(e, last, w0))
    ensures Loop(body, entries, i, w).0.errorLog == w.errorLog + FailuresOf(Loop(body, entries, i, w).1)
    decreases |entries| - i
  {
    if i < |entries| {
      var step := body(entries[i], i == |entries| - 1, w);
      assert Effects(entries[i], w, step);
      var rest := Loop(body, entries, i + 1, step.0);
      LoopErrorLog(body, entries, i + 1, step.0);
      var ds := [step.1] + rest.1;
      assert ds[0] == step.1 && ds[1..] == rest.1;
      var failed := if step.1.ok then [] else [FailureRecord(step.1.at + 2 * RetryDelay, SendFailedText)];
      assert FailuresOf(ds) == failed + FailuresOf(rest.1);
      assert w.errorLog + failed + FailuresOf(rest.1) == w.errorLog + (failed + FailuresOf(rest.1));
    }
  }

  lemma {:induction false} LoopPrints(body: Iteration, closing: bool, entries: seq<Entry>, i: nat, w: World)
    requires i <= |entries|
    requires forall e, last, w0 :: Prints(closing && last, w0, body(e, last, w0))
    ensures var (r, ds) := Loop(body, entries, i, w);
      && r.console == w.console + PrintedOf(ds)
      && forall k :: 0 <= k < |ds| ==> Closes(ds[k], closing && k == |ds| - 1)
    decreases |entries| - i
  {
    if i < |entries| {
      var step := body(entries[i], i == |entries| - 1, w);
      var rest := Loop(body, entries, i + 1, step.0);
      LoopPrints(body, closing, entries, i + 1, step.0);
      assert ([step.1] + rest.1)[1..] == rest.1;
      assert |rest.1| == |entries| - (i + 1);
    }
  }

  // ------------------------------------------------ what a run does

  /** Every entry is fired once, in list order, each when due; the first
      wait starts at once and each later one when the previous entry's
      retry loop ended. */
  lemma RunTiming(entries: seq<Entry>, f: Flavor, w: World)
    ensures var (r, ds) := RunFrom(entries, 0, f, w);
      && EntriesOf(ds) == entries
      && (forall k :: 0 <= k < |ds| ==> Fired(ds[k]))
      && (|ds| > 0 ==> ds[0].waitFrom == w.clock)
      && (forall k :: 0 <= k < |ds| - 1 ==> ds[k + 1].waitFrom == ds[k].at + Duration(ds[k]))
      && r.clock == if |ds| == 0 then w.clock else ds[|ds| - 1].at + Duration(ds[|ds| - 1])
  {
    forall e, last, w0
      ensures Timed(e, w0, IterationOf(f)(e, last, w0))
    {
      StepTimed(e, last, f, w0);
    }
    LoopTiming(IterationOf(f), entries, 0, w);
    assert entries[0..] == entries;
  }

  /** The wire holds exactly the messages of the entries that succeeded, in
      order; the error log gains one record per entry whose two attempts
      failed; the oracle is consulted once per attempt. */
  lemma RunEffects(entries: seq<Entry>, f: Flavor, w: World)
    ensures var (r, ds) := RunFrom(entries, 0, f, w);
      && r.outcomes == Drop(w.outcomes, AttemptsOf(ds))
      && r.wire == w.wire + SentOf(ds)
      && r.errorLog == w.errorLog + FailuresOf(ds)
  {
    forall e, last, w0
      ensures Effects(e, w0, IterationOf(f)(e, last, w0)) && IterationOf(f)(e, last, w0).1.entry == e
    {
      StepEffects(e, last, f, w0);
    }
    LoopEffects(IterationOf(f), entries, 0, w);
  }

  /** The console gains exactly the lines the records list. The
      table-driven controller prints one completion notice, as its very last
      line, when the schedule is not empty, and none for an empty one; the
      multi-time controller never prints it. */
  lemma RunConsole(entries: seq<Entry>, f: Flavor, w: World)
    ensures var (r, ds) := RunFrom(entries, 0, f, w);
      && r.console == w.console + PrintedOf(ds)
      && var p := PrintedOf(ds);
      && (forall k :: 0 <= k < |p| - 1 ==> p[k] != AllDone)
      && (|entries| > 0 ==> |p| > 0 && (p[|p| - 1] == AllDone <==> f == Ver2))
      && (|entries| == 0 ==> r.console == w.console)
  {
    forall e, last, w0
      ensures Prints(f == Ver2 && last, w0, IterationOf(f)(e, last, w0))
    {
      StepPrints(e, last, f, w0);
    }
    LoopPrints(IterationOf(f), f == Ver2, entries, 0, w);
    ClosesOnce(RunFrom(entries, 0, f, w).1, f == Ver2);
  }

  /** A retry loop never takes longer than two seconds. */
  lemma DurationBound(d: Dispatched)
    ensures Duration(d) <= 2 * RetryDelay
  {
  }

  /** Under the timing facts of a run, each wait starts no later than its
      entry's time, when the first entry is not already past at the start
      and consecutive entries are at least two seconds apart. */
  lemma {:induction false} WaitsInTime(ds: seq<Dispatched>, k: nat)
    requires k < |ds|
    requires forall j :: 0 <= j < |ds| ==> Fired(ds[j])
    requires ds[0].waitFrom <= ds[0].entry.time
    requires forall j :: 0 <= j < |ds| - 1 ==> ds[j + 1].waitFrom == ds[j].at + Duration(ds[j])
    requires forall j :: 0 <= j < |ds| - 1 ==> ds[j].entry.time + 2 * RetryDelay <= ds[j + 1].entry.time
    ensures ds[k].waitFrom <= ds[k].entry.time
  {
    if k > 0 {
      WaitsInTime(ds, k - 1);
      assert Fired(ds[k - 1]);
      DurationBound(ds[k - 1]);
      assert ds[k].waitFrom == ds[k - 1].at + Duration(ds[k - 1]);
    }
  }

  lemma {:induction false} EntriesOfAt(ds: seq<Dispatched>, k: nat)
    requires k < |ds|
    ensures EntriesOf(ds)[k] == ds[k].entry
  {
    if k > 0 {
      EntriesOfAt(ds[1..], k - 1);
    }
  }

  /** When the first trigger is not already past as the run starts and
      consecutive triggers are at least two seconds apart, every entry fires
      in the second before its time: never late, at most one second early. */
  lemma OnTime(entries: seq<Entry>, f: Flavor, w: World)
    requires |entries| > 0 ==> w.clock <= entries[0].time
    requires forall k :: 0 <= k < |entries| - 1 ==> entries[k].time + 2 * RetryDelay <= entries[k + 1].time
    ensures forall k :: 0 <= k < |entries| ==>
      entries[k].time - MicrosPerSecond < RunFrom(entries, 0, f, w).1[k].at <= entries[k].time
  {
    RunTiming(entries, f, w);
    var ds := RunFrom(entries, 0, f, w).1;
    forall k | 0 <= k < |ds|
      ensures ds[k].entry == entries[k]
    {
      EntriesOfAt(ds, k);
    }
    forall k | 0 <= k < |entries|
      ensures entries[k].time - MicrosPerSecond < ds[k].at <= entries[k].time
    {
      WaitsInTime(ds, k);
      FireWindow(ds[k]);
    }
  }

  /** One iteration of the `for` loop. */
  method Iterate(host: Host, e: Entry, last: bool, f: Flavor)
    modifies host
    ensures host.State() == Step(e, last, f, old(host.State())).0
  {
    WaitUntilDue(host, e.time, StyleOf(f));
    var ok := SendWithRetries(host, ConnectMessage(e.column), SentNotice(f, e.column));
    if f == Ver2 && last {
      host.Print(AllDone);
    }
  }

  /** The `for` loop over the schedule. */
  method RunSchedule(host: Host, entries: seq<Entry>, f: Flavor)
    modifies host
    ensures host.State() == RunFrom(entries, 0, f, old(host.State())).0
  {
    for i := 0 to |entries|
      invariant Loop(IterationOf(f), entries, i, host.State()).0 == RunFrom(entries, 0, f, old(host.State())).0
    {
      Iterate(host, entries[i], i == |entries| - 1, f);
    }
  }

  /** An entry whose wait began in time fires in the second before its time:
      at most one second early, never late. */
  lemma FireWindow(d: Dispatched)
    requires Fired(d) && d.waitFrom <= d.entry.time
    ensures d.entry.time - MicrosPerSecond < d.at <= d.entry.time
  {
    DueWithinASecond(d.entry.time - d.at);
  }

  /** An entry already due when its wait began (a stale time, or one the
      previous entry's retries ran past) fires at once, without a countdown. */
  lemma CatchUp(d: Dispatched)
    requires Fired(d) && TruncSeconds(d.entry.time - d.waitFrom) <= 0
    ensures d.at == d.waitFrom
  {
    DueWithinASecond(d.entry.time - d.waitFrom);
    if d.at != d.waitFrom {
      DueWithinASecond(d.entry.time - (d.at - MicrosPerSecond));
    }
  }
}
