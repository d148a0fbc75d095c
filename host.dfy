/** The world a controller acts on: the wall clock `datetime.now()` reads,
    the OSC/UDP transport, the append-only `error_log.txt` and the console.

    The clock is advanced only by sleeping; the code between two sleeps is
    taken to run in no time. The transport is an oracle: the next element
    of `outcomes` says whether the next `send_message` call returns normally
    (true) or raises (false); once the oracle is used up every call returns
    normally. A call that returns normally puts its message on `wire`: that
    is all "sent" means here, since UDP gives no delivery acknowledgement. */
module Host {
  import opened Instants
  import opened Wrappers

  /** An OSC message: an address and its one integer argument. */
  datatype OscMessage = OscMessage(address: string, value: int)

  /** One line `<datetime.now()>: <message>` of error_log.txt. */
  datatype FailureRecord = FailureRecord(at: Instant, message: string)

  /** The console output the controllers produce. A status line records the
      whole seconds remaining and whether its countdown has a days part; the
      clock readings inside it (formatted with strftime) are not modelled. */
  datatype Notice =
    | Status(withDays: bool, remaining: int)
    | ColumnSent(column: nat)
    | CommandSent
    | OscSent(message: OscMessage)
    | SendError
    | Retrying(attempt: nat)
    | SeeErrorLog
    | AllDone
    | EventsHeader
    | EventListed(name: string, command: string, start: Instant)
    | PastEventIgnored(start: Instant)
    | CountdownStarted(name: string, command: string, start: Instant)
    | SecondsLeft(name: string, command: string, start: Instant, seconds: int)

  datatype World = World(
    clock: Instant,
    outcomes: seq<bool>,
    wire: seq<OscMessage>,
    errorLog: seq<FailureRecord>,
    console: seq<Notice>)

  /** Whether the `k`-th next `send_message` call returns normally. */
  function OutcomeAt(outcomes: seq<bool>, k: nat): bool {
    k >= |outcomes| || outcomes[k]
  }

  /** The oracle once `n` calls have used it. */
  function Drop(outcomes: seq<bool>, n: nat): seq<bool> {
    if n >= |outcomes| then [] else outcomes[n..]
  }

  /** Skipping `a` outcomes and then `b` skips `a + b`. */
  lemma {:induction false} DropDrop(o: seq<bool>, a: nat, b: nat)
    ensures Drop(Drop(o, a), b) == Drop(o, a + b)
  {
    if a < |o| && a + b < |o| {
      assert o[a..][b..] == o[a + b..];
    }
  }

  /** One `send_message(address, value)` call. */
  function Transmit(w: World, m: OscMessage): (r: (bool, World))
    ensures r.0 == OutcomeAt(w.outcomes, 0)
    ensures r.1 == w.(outcomes := Drop(w.outcomes, 1), wire := if r.0 then w.wire + [m] else w.wire)
  {
    var ok := OutcomeAt(w.outcomes, 0);
    (ok, w.(outcomes := Drop(w.outcomes, 1), wire := if ok then w.wire + [m] else w.wire))
  }

  /** `time.sleep(d)` for `d` microseconds. */
  function Slept(w: World, d: nat): World {
    w.(clock := w.clock + d)
  }

  function Printed(w: World, n: Notice): World {
    w.(console := w.console + [n])
  }

  /** `open('error_log.txt', 'a').write(...)`. */
  function Logged(w: World, rec: FailureRecord): World {
    w.(errorLog := w.errorLog + [rec])
  }

  class Host {
    var clock: Instant
    var outcomes: seq<bool>
    var wire: seq<OscMessage>
    var errorLog: seq<FailureRecord>
    var console: seq<Notice>

    function State(): World
      reads this
    {
      World(clock, outcomes, wire, errorLog, console)
    }

    constructor (w: World)
      ensures State() == w
    {
      clock, outcomes, wire, errorLog, console := w.clock, w.outcomes, w.wire, w.errorLog, w.console;
    }

    /** `datetime.now()`. */
    method Now() returns (t: Instant)
      ensures t == clock
    {
      t := clock;
    }

    method Sleep(d: nat)
      modifies this
      ensures State() == Slept(old(State()), d)
    {
      clock := clock + d;
    }

    /** `osc_client.send_message(address, value)`; false where it raises. */
    method SendMessage(m: OscMessage) returns (ok: bool)
      modifies this
      ensures (ok, State()) == Transmit(old(State()), m)
    {
      ok := OutcomeAt(outcomes, 0);
      outcomes := Drop(outcomes, 1);
      if ok {
        wire := wire + [m];
      }
    }

    method AppendErrorLog(rec: FailureRecord)
      modifies this
      ensures State() == Logged(old(State()), rec)
    {
      errorLog := errorLog + [rec];
    }

    method Print(n: Notice)
      modifies this
      ensures State() == Printed(old(State()), n)
    {
      console := console + [n];
    }
  }
}
