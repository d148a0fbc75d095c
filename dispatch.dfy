/** How the table-driven and the multi-time controllers fire one trigger:
    `send_osc_command` (one `send_message`, a 0.1 s pause, a notice) inside
    `for attempt in range(2)`, with a one-second pause after a failure and,
    when both attempts fail, a record in error_log.txt. */
module Dispatch {
  import opened Instants
  import opened Host

  const Attempts: nat := 2
  const PauseAfterSend: nat := 100_000
  const RetryDelay: nat := 1_000_000
  const SendFailedText: string := "コマンド送信に失敗しました。"

  /** `send_osc_command`: on success a 0.1 s pause and the success notice;
      where `send_message` raises, the exception is printed and nothing
      waits. */
  function SendOnce(w: World, m: OscMessage, sent: Notice): (r: (bool, World))
    ensures r.0 == OutcomeAt(w.outcomes, 0)
    ensures r.1.outcomes == Drop(w.outcomes, 1) && r.1.errorLog == w.errorLog
    ensures r.1.wire == w.wire + (if r.0 then [m] else [])
  {
    var t := Transmit(w, m);
    if t.0 then (true, Printed(Slept(t.1, PauseAfterSend), sent))
    else (false, Printed(t.1, SendError))
  }

  /** The outcome of the retry loop: whether a call succeeded, how many
      `send_osc_command` calls were made in all, and the world afterwards. */
  datatype Report = Report(ok: bool, attempts: nat, world: World)

  /** `for attempt in range(2)` from iteration `from` on: stops at the first
      success; after a failure prints `再試行 attempt+1/2` and sleeps one
      second. */
  function TryFrom(w: World, m: OscMessage, sent: Notice, from: nat): (r: Report)
    requires from < Attempts
    ensures from < r.attempts <= Attempts
    decreases Attempts - from
  {
    var once := SendOnce(w, m, sent);
    if once.0 then Report(true, from + 1, once.1)
    else
      var w2 := Slept(Printed(once.1, Retrying(from + 1)), RetryDelay);
      if from + 1 == Attempts then Report(false, Attempts, w2)
      else TryFrom(w2, m, sent, from + 1)
  }

  /** The whole `for ... else`: the loop, then, when no attempt succeeded, the
      error-log record stamped with the clock at that point and the notice
      pointing at the log.

      The contract spells out the three possible runs: the first call
      succeeds; the first fails and the second succeeds; both fail. The
      message goes out at most once, a retry follows only a failure, and the
      log is written exactly when both calls fail. */
  function SendWithRetry(w: World, m: OscMessage, sent: Notice): (r: Report)
    ensures r.attempts == (if OutcomeAt(w.outcomes, 0) then 1 else 2)
    ensures r.ok == (OutcomeAt(w.outcomes, 0) || OutcomeAt(w.outcomes, 1))
    ensures r.world.outcomes == Drop(w.outcomes, r.attempts)
    ensures r.world.wire == w.wire + (if r.ok then [m] else [])
    ensures r.world.clock == w.clock +
      (if OutcomeAt(w.outcomes, 0) then PauseAfterSend
       else if OutcomeAt(w.outcomes, 1) then RetryDelay + PauseAfterSend
       else 2 * RetryDelay)
    ensures r.world.errorLog == w.errorLog +
      (if r.ok then [] else [FailureRecord(w.clock + 2 * RetryDelay, SendFailedText)])
  {
    var t := TryFrom(w, m, sent, 0);
    assert Drop(Drop(w.outcomes, 1), 1) == Drop(w.outcomes, 2);
    if t.ok then t
    else
      var w1 := Logged(t.world, FailureRecord(t.world.clock, SendFailedText));
      Report(false, t.attempts, Printed(w1, SeeErrorLog))
  }

  /** What the retry loop prints in each of its three possible runs: the
      success notice appears once exactly when a call succeeded, and only a
      failure is followed by a retry notice. */
  function RetryLines(outcomes: seq<bool>, sent: Notice): seq<Notice> {
    if OutcomeAt(outcomes, 0) then [sent]
    else if OutcomeAt(outcomes, 1) then [SendError, Retrying(1), sent]
    else [SendError, Retrying(1), SendError, Retrying(2), SeeErrorLog]
  }

  lemma RetryConsole(w: World, m: OscMessage, sent: Notice)
    ensures SendWithRetry(w, m, sent).world.console == w.console + RetryLines(w.outcomes, sent)
  {
  }

  /** `send_osc_command`; true where it returns True. */
  method SendOscCommand(host: Host, m: OscMessage, sent: Notice) returns (ok: bool)
    modifies host
    ensures (ok, host.State()) == SendOnce(old(host.State()), m, sent)
  {
    ok := host.SendMessage(m);
    if ok {
      host.Sleep(PauseAfterSend);
      host.Print(sent);
    } else {
      host.Print(SendError);
    }
  }

  /** The retry loop of `run`, with its `else` branch. */
  method SendWithRetries(host: Host, m: OscMessage, sent: Notice) returns (ok: bool)
    modifies host
    ensures ok == SendWithRetry(old(host.State()), m, sent).ok
    ensures host.State() == SendWithRetry(old(host.State()), m, sent).world
  {
    ok := false;
    var attempt: nat := 0;
    while attempt < Attempts
      invariant attempt <= Attempts
      invariant !ok
      invariant attempt < Attempts ==> TryFrom(host.State(), m, sent, attempt) == TryFrom(old(host.State()), m, sent, 0)
      invariant attempt == Attempts ==> TryFrom(old(host.State()), m, sent, 0) == Report(false, Attempts, host.State())
    {
      ok := SendOscCommand(host, m, sent);
      if ok {
        break;
      }
      host.Print(Retrying(attempt + 1));
      host.Sleep(RetryDelay);
      attempt := attempt + 1;
    }
    if !ok {
      var now := host.Now();
      host.AppendErrorLog(FailureRecord(now, SendFailedText));
      host.Print(SeeErrorLog);
    }
  }
}
