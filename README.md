# Resolume OSC controller, modelled in Dafny

The repository holds four small Python programs that drive Resolume Arena over
OSC (UDP, `127.0.0.1:7000`) at scheduled wall-clock times:

- **Table-driven controller** (`Resolume_Controller_ver2.0.py`). It reads a
  CSV table of (column, `yyyy/mm/dd`, `hh:mm:ss`) rows. Each row is
  validated; bad and past rows are logged with their spreadsheet row number.
  The rest are sorted by time. For each trigger the program counts down
  (days shown), connects the column, retries once after one second, and
  writes `error_log.txt` when both attempts fail. After the last trigger it
  prints a completion notice.
- **Multi-time controller** (`control_resolume_only_column_multi.py`). It
  reads a file of `H:M` lines, one trigger for column 1 per line. Each line
  is rolled forward to tomorrow when already past. Times stay in file order.
  Countdown, send and retry work as in the table-driven controller, but the
  countdown shows hours only.
- **Single-shot controller** (`control_resolume.py`). It reads `hours: H`
  and `minutes: M` from a file, waits until that time, sends four fixed
  clip messages and ends.
- **Calendar controller** (`control_resolume_only_column_googlecal.py`). It
  keeps the calendar events whose summary reads `<pc name>,<command>` for
  this PC and sorts them by start. It lists them, then for each one it
  either passes over a past event or counts down second by second. At the
  start it sends `/composition/columns/1/connect` for `run` or `.../disconnect`
  for `stop`.

How the model is built:

- **The world.** `Host.World` holds the clock, the transport oracle, the
  wire, the error log and the console. `Host.Host` is a class with the same
  fields. Its methods `Now`, `Sleep`, `SendMessage`, `AppendErrorLog` and
  `Print` stand for `datetime.now()`, `time.sleep`, `send_message`, the
  appending `open` and `print`.
- **Instants** are integers counting microseconds, so `int(total_seconds())`
  truncation toward zero is modelled exactly (`Instants.TruncSeconds`).
- **Specifications and programs.** Every program is a pure function of the
  world (`Orchestrator.RunFrom`, `ControllerSingle.Execute`,
  `ControllerCalendar.Process`). The imperative methods, which keep the
  source's loops, are proved equal to those functions. The properties are
  lemmas about the functions.
- **Python's own semantics** are modelled to the precision the programs
  need: `str.strip`, `str.split`, `int()`, `str.isdigit`, the lines of a
  text file, `strptime('%Y/%m/%d')` and the stable `list.sort`. They live in
  `PyText`, `Dates` and `StableSort`.

Behaviours of the code worth knowing, all kept in the model:

- A trigger fires when less than one second remains, because `int()`
  truncates the remaining seconds. Firing can come up to a second before
  the trigger time.
- The table-driven controller prints its completion notice only inside the
  loop, so an empty schedule prints none.
- The multi-time controller does not sort its times and does not roll its
  two default times forward. It prints "sent, the program ends" after each
  send, yet carries on with the next time.
- The single-shot controller does not roll its default 16:45 forward:
  started later in the day, it sends at once.
- The calendar countdown never reads the clock again: it sleeps the seconds
  left, rounded up, one second at a time. With each sleep taken to last
  exactly its length, it ends at the start or less than a second after it,
  and a second booking with the same start is passed over as past unless
  the first countdown began a whole number of seconds before the start.
  Real sleeps run long, so the overshoot grows with the length of the
  countdown, and such a second booking is in practice always passed over.

## Model

| member | source | states |
|---|---|---|
| Instants.At | Resolume_Controller_ver2.0.py:168-169 | `date.replace(hour, minute, second, microsecond=0)`: the instant lies on that date's day number, exactly h:m:s into the day |
| Instants.AtOrder | Resolume_Controller_ver2.0.py:181-182 | instants compare as (date, time of day) stamps compare, both directions |
| Instants.TodayAt | control_resolume_only_column_multi.py:26 | `now.replace(hour=h, minute=m, second=0, microsecond=0)` is on `now`'s day at h:m:00 |
| Instants.RollForwardWindow | control_resolume_only_column_multi.py:26-28 | a time of day rolled forward lies in [now, now + 1 day) at that time of day |
| Instants.NextOccurrence | control_resolume_only_column_multi.py:26-28 | the rolled-forward time is the only instant in [now, now + 1 day) at that time of day |
| Instants.RollForward | control_resolume_only_column_multi.py:27-28 | `if play_time < now: play_time += timedelta(days=1)` (definition; stated by `RollForwardWindow`, `NextOccurrence`, `RollsToTomorrow`) |
| Instants.RollsToTomorrow | control_resolume.py:23-25 | a day is added exactly when now is already past h:m:00 today |
| Instants.TruncSeconds | Resolume_Controller_ver2.0.py:204 | `int(remaining.total_seconds())` truncates toward zero, for either sign of the difference |
| Instants.DueWithinASecond | Resolume_Controller_ver2.0.py:204-205 | the countdown reads ≤ 0 exactly when less than one second remains |
| Host.Host.Now | Resolume_Controller_ver2.0.py:202 | `datetime.now()` reads the modelled clock |
| Host.Host.Sleep | Resolume_Controller_ver2.0.py:240 | `time.sleep(d)` advances the clock by exactly d and changes nothing else |
| Host.Host.SendMessage | Resolume_Controller_ver2.0.py:188 | `send_message` uses one transport outcome; the message is on the wire exactly when the call returns normally |
| Host.Host.AppendErrorLog | Resolume_Controller_ver2.0.py:212-213 | appending to `error_log.txt` adds one record and changes nothing else |
| Host.Host.Print | control_resolume_only_column_googlecal.py:56 | `print` appends one line to the console and changes nothing else |
| Countdown.SplitDays | Resolume_Controller_ver2.0.py:223-226 | days, hours < 24, minutes < 60, seconds < 60 that add back to the remaining seconds; a days part exactly from 86400 s |
| Countdown.SplitDaysUnique | Resolume_Controller_ver2.0.py:223-226 | any decomposition within those bounds is `SplitDays` |
| Countdown.SplitHours | control_resolume_only_column_multi.py:63-64 | hours uncapped, minutes and seconds below 60, adding back to the remaining seconds |
| Countdown.SplitHoursUnique | control_resolume.py:50-51 | any decomposition with no days part within those bounds is `SplitHours` |
| WaitLoop.Display | Resolume_Controller_ver2.0.py:232-236 | a status line shows a days part only in the days style and only from one day up; its parts add back to the remaining seconds |
| WaitLoop.Wait | Resolume_Controller_ver2.0.py:201-240 | the polling wait changes neither the oracle, the wire nor the error log |
| WaitLoop.WaitTiming | Resolume_Controller_ver2.0.py:201-205 | the wait ends at the first one-second tick at which the trigger is due, after a whole number of pauses, never after a trigger it began before |
| WaitLoop.WaitEndsInLastSecond | control_resolume.py:43-49 | a wait begun at or before the trigger ends within the second before it |
| WaitLoop.WaitPrints | Resolume_Controller_ver2.0.py:238-240 | the wait only appends one status line per pause |
| WaitLoop.WaitUntilDue | control_resolume.py:43-56 | the `while True` loop up to the due point is the `Wait` function |
| Dispatch.SendOnce | Resolume_Controller_ver2.0.py:185-195 | one oracle use; the message is on the wire exactly when the call returns normally |
| Dispatch.TryFrom | Resolume_Controller_ver2.0.py:206-210 | the `for attempt in range(2)` loop makes between 1 and 2 calls |
| Dispatch.SendWithRetry | Resolume_Controller_ver2.0.py:206-214 | the three runs (first call succeeds; second does; both fail): attempts, sent at most once, clock advance, and an error-log record stamped 2 s later exactly when both fail |
| Dispatch.RetryConsole | control_resolume_only_column_multi.py:53-61 | the lines printed in each of the three runs |
| Dispatch.SendOscCommand | control_resolume_only_column_multi.py:32-42 | the method is `SendOnce` |
| Dispatch.SendWithRetries | control_resolume_only_column_multi.py:53-61 | the retry loop with its `else` is `SendWithRetry` |
| Orchestrator.SentNotice | Resolume_Controller_ver2.0.py:191 | the line after a delivered send reports the send, naming the column only in the table-driven controller (the multi-time controller prints the generic line, control_resolume_only_column_multi.py:38) |
| Orchestrator.ColumnInAddress | Resolume_Controller_ver2.0.py:188 | the connect address splits into `""`, `composition`, `columns`, the column, `connect`, and its fourth field reads back as the column |
| Orchestrator.ConnectAddressFields | Resolume_Controller_ver2.0.py:188 | joining those five fields with '/' gives the address |
| Orchestrator.ClosesOnce | Resolume_Controller_ver2.0.py:216-219 | when only the last iteration closes, the output holds the completion notice once and only as its last line |
| Orchestrator.Step | Resolume_Controller_ver2.0.py:200-220 | one iteration's record names its entry and the clock its wait began at |
| Orchestrator.Loop | Resolume_Controller_ver2.0.py:200 | one record per remaining entry |
| Orchestrator.StepTimed | Resolume_Controller_ver2.0.py:201-214 | one iteration fires its entry correctly, and the clock ends when its retry loop ends |
| Orchestrator.StepEffects | Resolume_Controller_ver2.0.py:206-214 | one iteration uses the oracle once per attempt and appends its message and failure record |
| Orchestrator.StepAppends | Resolume_Controller_ver2.0.py:238-240 | one iteration appends exactly its record's lines to the console |
| Orchestrator.StepPrints | Resolume_Controller_ver2.0.py:216-219 | one iteration prints the completion notice only as its last line, and only on the table-driven controller's last entry |
| Orchestrator.LoopTiming | Resolume_Controller_ver2.0.py:200-220 | the loop fires every entry once in list order, each wait starting when the previous retry loop ended |
| Orchestrator.LoopEffects | Resolume_Controller_ver2.0.py:206-214 | the loop's oracle use, wire and error log are the sums of its iterations' |
| Orchestrator.LoopOutcomes | Resolume_Controller_ver2.0.py:207 | the oracle is consulted once per attempt over the whole loop |
| Orchestrator.LoopWire | Resolume_Controller_ver2.0.py:188 | the wire gains one message per entry that succeeded, in order |
| Orchestrator.LoopErrorLog | Resolume_Controller_ver2.0.py:211-213 | the error log gains one record per entry whose two attempts failed |
| Orchestrator.LoopPrints | Resolume_Controller_ver2.0.py:209-218 | the console gains the iterations' lines and the completion notice only as the last |
| Orchestrator.RunFrom | Resolume_Controller_ver2.0.py:197-220 | the `for` loop of `run` from entry `i` on, one record per remaining entry (its properties: `RunTiming`, `RunEffects`, `RunConsole`, `OnTime`) |
| Orchestrator.RunTiming | Resolume_Controller_ver2.0.py:197-220 | every entry fires exactly once, in list order, when due; the first wait starts at once |
| Orchestrator.RunEffects | control_resolume_only_column_multi.py:44-62 | the wire holds exactly the successful entries' messages in order; one error-log record per entry that failed twice |
| Orchestrator.RunConsole | Resolume_Controller_ver2.0.py:216-219 | one completion notice as the very last line of a non-empty table-driven run; none for an empty schedule; never for the multi-time controller |
| Orchestrator.DurationBound | Resolume_Controller_ver2.0.py:206-214 | a retry loop takes at most two seconds |
| Orchestrator.WaitsInTime | Resolume_Controller_ver2.0.py:200-203 | with triggers at least 2 s apart and the first not past, every wait begins no later than its trigger |
| Orchestrator.OnTime | Resolume_Controller_ver2.0.py:197-240 | under those conditions every entry fires in the second before its time: never late, at most a second early |
| Orchestrator.FireWindow | Resolume_Controller_ver2.0.py:205 | a wait begun in time fires in the second before the trigger |
| Orchestrator.CatchUp | control_resolume_only_column_multi.py:52 | an entry already due when its wait begins fires at once, with no countdown |
| Orchestrator.Iterate | Resolume_Controller_ver2.0.py:201-220 | the loop body method is `Step` |
| Orchestrator.RunSchedule | Resolume_Controller_ver2.0.py:200 | the `for` loop method is `RunFrom` |
| PyText.StripLeft | control_resolume.py:20 | `lstrip()`: the longest suffix that starts with a non-space; only whitespace removed |
| PyText.StripRight | control_resolume.py:20 | `rstrip()`: the longest prefix that ends with a non-space; only whitespace removed |
| PyText.StripPadded | control_resolume.py:20 | `strip()` removes exactly the surrounding whitespace |
| PyText.StripUnpadded | control_resolume_only_column_googlecal.py:46 | a name with no surrounding whitespace is unchanged by `strip()` |
| PyText.Split | control_resolume.py:20 | `split(sep)` gives at least one piece, none holding the separator |
| PyText.JoinSplit | control_resolume_only_column_googlecal.py:45 | joining the pieces of a split gives the string back |
| PyText.SplitJoin | Resolume_Controller_ver2.0.py:143 | splitting the join of separator-free pieces gives the pieces back |
| PyText.SplitAfterPlain | control_resolume_only_column_googlecal.py:45 | a separator-free prefix extends the first piece |
| PyText.Split2 | control_resolume_only_column_googlecal.py:45 | two separator-free fields split back apart |
| PyText.Split3 | Resolume_Controller_ver2.0.py:143 | three separator-free fields split back apart |
| PyText.SplitMany | control_resolume_only_column_googlecal.py:44-45 | a string holds the separator exactly when splitting gives more than one piece |
| PyText.JoinFive | Resolume_Controller_ver2.0.py:188 | a five-field join written out |
| PyText.Strip | control_resolume.py:20 | `str.strip()` as `rstrip` after `lstrip` (its properties: `StripLeft`, `StripRight`, `StripPadded`, `StripUnpadded`) |
| PyText.SplitCount | control_resolume_only_column_multi.py:24 | `split(sep)` gives one piece more than the string has separators |
| PyText.ParseInt | control_resolume.py:20 | `int()` accepts nothing that is all whitespace |
| PyText.ParseSigned | control_resolume.py:20 | `int()` reads a sign and digits surrounded by whitespace as the signed value |
| PyText.ParsePadded | control_resolume_only_column_multi.py:24 | `int()` reads digits surrounded by whitespace as their value |
| PyText.ParseRejectsOther | Resolume_Controller_ver2.0.py:143 | `int()` raises on a stripped text holding a character other than a digit, '_' or a leading sign |
| PyText.ParseDigits | Resolume_Controller_ver2.0.py:157-160 | a string that passes `isdigit()` reads as its decimal value |
| PyText.NatToString | Resolume_Controller_ver2.0.py:188 | `str(n)` is a digit string whose value is n |
| PyText.ParseShow | Resolume_Controller_ver2.0.py:188 | `int(str(n)) == n` |
| PyText.Pad2 | Resolume_Controller_ver2.0.py:234 | `f'{n:02d}'` is two digits whose value is n |
| PyText.Lines | control_resolume_only_column_multi.py:23 | iterating a text file yields non-empty lines, none for an empty file |
| PyText.ConcatLines | control_resolume.py:19 | the lines put back together are the file |
| PyText.LinesAfterLine | control_resolume.py:19-21 | a first line ending at its only newline comes off whole |
| PyText.LinesShape | control_resolume_only_column_multi.py:23 | every line but the last ends with its only newline |
| Dates.DaysInMonth | Resolume_Controller_ver2.0.py:137 | each month has 28 to 31 days |
| Dates.DayNumberOrder | Resolume_Controller_ver2.0.py:171 | calendar order is day-number order, both directions, and equal dates have equal numbers |
| Dates.StrptimeYmd | Resolume_Controller_ver2.0.py:135-139 | `strptime(s, '%Y/%m/%d')` gives only valid dates |
| Dates.MonthField | Resolume_Controller_ver2.0.py:137 | the `%m` directive reads a month 1..12 of one or two digits followed by '/' |
| Dates.DayField | Resolume_Controller_ver2.0.py:137 | the `%d` directive reads a day 1..31 of one or two characters |
| Dates.ParseDateText | Resolume_Controller_ver2.0.py:131 | every date, written zero-padded as the template writes it, reads back as itself |
| Dates.ParseUnpadded | Resolume_Controller_ver2.0.py:137 | single-digit months and days may be written unpadded |
| Dates.RejectMissingDay | Resolume_Controller_ver2.0.py:137-139 | a day the month does not have (2025/02/29) gives `None` |
| Dates.RejectTrailing | Resolume_Controller_ver2.0.py:137-139 | anything after the day gives `None` |
| ControllerV2.ClockFields | Resolume_Controller_ver2.0.py:143 | `map(int, time_str.split(':'))` unpacked into three names; `None` where that raises (definition; read by `ValidateTimeFields`, `ClockTextReadsBack`) |
| ControllerV2.ValidateTime | Resolume_Controller_ver2.0.py:141-148 | `validate_time`, a bare `except` turning every exception into false (definition; its shape is stated by `ValidateTimeFields` and `ValidateTimeColons`) |
| ControllerV2.ValidateTimeFields | Resolume_Controller_ver2.0.py:141-148 | three colon-free fields joined by ':' are accepted exactly when `int()` reads all three and the values lie in 0..23, 0..59, 0..59 |
| ControllerV2.ValidateTimeColons | Resolume_Controller_ver2.0.py:143 | a text without exactly two ':' is rejected: the three-name unpacking raises |
| ControllerV2.ClockTextReadsBack | Resolume_Controller_ver2.0.py:131-132 | every valid `hh:mm:ss` reads back as itself and is accepted |
| ControllerV2.HourMinuteRejected | Resolume_Controller_ver2.0.py:143 | `hh:mm` without seconds is rejected |
| ControllerV2.HourOutOfRange | Resolume_Controller_ver2.0.py:144 | hours past 23 are rejected even when well formed |
| ControllerV2.ValidateDate | Resolume_Controller_ver2.0.py:135-139 | a date accepted is a valid date; a missing cell gives `None` |
| ControllerV2.RowOutcome | Resolume_Controller_ver2.0.py:155-175 | a kept row is not before the load time; a row reported as past has a time strictly before it |
| ControllerV2.RowAccepted | Resolume_Controller_ver2.0.py:156-169 | a kept row has a digit column read as its value, a valid date and a valid time, and its time is that date at that time |
| ControllerV2.DueNowKept | Resolume_Controller_ver2.0.py:171 | a row exactly at the load time is kept; one microsecond later it is past |
| ControllerV2.Outcomes | Resolume_Controller_ver2.0.py:154 | one outcome per row, in row order |
| ControllerV2.KeptMembers | Resolume_Controller_ver2.0.py:175 | an entry is kept exactly when some outcome yields it |
| ControllerV2.ReportedMembers | Resolume_Controller_ver2.0.py:172-178 | a report (n, why) exists exactly when outcome n - 2 failed with that reason |
| ControllerV2.KeptCount | Resolume_Controller_ver2.0.py:173-179 | kept plus reported is the number of outcomes |
| ControllerV2.AcceptedMembers | Resolume_Controller_ver2.0.py:175 | an entry is accepted exactly when some row yields it |
| ControllerV2.AcceptedNotPast | Resolume_Controller_ver2.0.py:171-173 | no accepted entry is before the load time |
| ControllerV2.RejectedMembers | Resolume_Controller_ver2.0.py:172-178 | a row is reported under its own number (from 2) and reason exactly when it is not accepted |
| ControllerV2.RowsAccounted | Resolume_Controller_ver2.0.py:154-179 | every row is scheduled or reported, never both, never lost |
| ControllerV2.GetPlayTimes | Resolume_Controller_ver2.0.py:150-183 | the schedule is the accepted entries, sorted by time, a permutation, stable for equal times, none in the past; the reports in row order |
| ControllerV2.TemplateRowReads | Resolume_Controller_ver2.0.py:96-99 | a row in the template's format reads as its column at its date and time, or is reported past |
| ControllerV2.TemplateText | Resolume_Controller_ver2.0.py:130-132 | the two sample rows are `1, 2025/01/22, 16:45:00` and `2, 2025/01/23, 14:30:00` |
| ControllerV2.TwoRowsInOrder | Resolume_Controller_ver2.0.py:181-182 | two rows that read, earlier first, give those two entries in that order and no report |
| ControllerV2.TwoRowsAccepted | Resolume_Controller_ver2.0.py:175 | two rows that read are both accepted, in row order |
| ControllerV2.TwoRowsPast | Resolume_Controller_ver2.0.py:172-178 | two failing rows give no entry and reports numbered 2 and 3 |
| ControllerV2.TwoOutcomes | Resolume_Controller_ver2.0.py:154 | kept and reported for a two-row table, in full |
| ControllerV2.TemplateSchedule | Resolume_Controller_ver2.0.py:126-133 | the default table read before its first time gives its two triggers in order; read after both, no trigger and two past warnings |
| ControllerV2.Run | Resolume_Controller_ver2.0.py:197-242 | the program is `RunFrom` on the sorted schedule built with the start-up clock |
| ControllerMulti.LineFields | control_resolume_only_column_multi.py:24 | `map(int, line.strip().split(':'))` unpacked into two names; `None` where that raises (definition; read by `ClockLineReads`) |
| ControllerMulti.ResolveLine | control_resolume_only_column_multi.py:24-28 | one line: today at H:M:00, a day later when already past; `None` where `int()`, the unpacking or `replace` raises (definition; stated by `ResolvedWindow`, `ResolvedIsNext`) |
| ControllerMulti.ResolvedWindow | control_resolume_only_column_multi.py:24-28 | a line whose stripped text does not hold exactly one ':' is refused; a resolved line lies in [now, now + 1 day) at its time of day |
| ControllerMulti.ResolvedIsNext | control_resolume_only_column_multi.py:26-28 | the window and the time of day pin the resolved time down |
| ControllerMulti.TimesPerLine | control_resolume_only_column_multi.py:22-29 | a successful load has one time per line, each the line's own, in file order |
| ControllerMulti.FirstBadLine | control_resolume_only_column_multi.py:23-24 | the load fails exactly when some line does not resolve, and names the first such line |
| ControllerMulti.FailureStays | control_resolume_only_column_multi.py:23-24 | once a prefix fails, the whole file fails the same way |
| ControllerMulti.TimesFromLines | control_resolume_only_column_multi.py:22-29 | the lines in file order, the first raising line ending the load (definition; stated by `TimesPerLine`, `FirstBadLine`, `FailureStays`) |
| ControllerMulti.PlayTimes | control_resolume_only_column_multi.py:13-30 | `get_play_times`: the two unrolled defaults when the file is missing, else the file's lines (definition; stated by `DefaultReadBack`, `DefaultsAgreeWithFile`) |
| ControllerMulti.GetPlayTimes | control_resolume_only_column_multi.py:13-30 | the loop's result is `PlayTimes`; the default text is written exactly when the file is missing |
| ControllerMulti.ClockLineReads | control_resolume_only_column_multi.py:24-28 | every valid `HH:MM` line resolves to the next occurrence of that time |
| ControllerMulti.ClockLineShape | control_resolume_only_column_multi.py:18 | an `HH:MM` line is six characters with its only newline at the end |
| ControllerMulti.TwoClockLines | control_resolume_only_column_multi.py:18 | two such lines are the file's two lines |
| ControllerMulti.TwoLineFile | control_resolume_only_column_multi.py:22-29 | a file of two valid lines gives their two times in file order |
| ControllerMulti.DefaultFileTextIs | control_resolume_only_column_multi.py:18 | the default file is `16:45\n17:00\n` |
| ControllerMulti.DefaultReadBack | control_resolume_only_column_multi.py:16-29 | the default file, read on a later start, gives 16:45 and 17:00 rolled forward |
| ControllerMulti.DefaultsAgreeWithFile | control_resolume_only_column_multi.py:19-20 | the unrolled defaults agree with the file read back exactly when started no later than 16:45 |
| ControllerMulti.FileOrderKept | control_resolume_only_column_multi.py:29-30 | a file with times out of order gives them out of order: nothing sorts |
| ControllerMulti.ColumnOne | control_resolume_only_column_multi.py:35 | every time triggers column 1 |
| ControllerMulti.StaleDefaultsFireAtOnce | control_resolume_only_column_multi.py:19-20 | started after 17:00, both defaults fire without a countdown |
| ControllerMulti.Run | control_resolume_only_column_multi.py:44-75 | a failed load runs nothing; otherwise the program is `RunFrom` on column 1 at each time |
| ControllerSingle.FieldValue | control_resolume.py:20-21 | `int(line.split(':')[1].strip())`; `None` where the index or `int()` raises (definition; stated by `KeyLineField`) |
| ControllerSingle.PlayTime | control_resolume.py:12-26 | `get_play_time`: the unrolled default 16:45 when the file is missing, else the first two lines' values rolled forward (definition; stated by `PlayTimeFromFile`, `FileTimeAhead`, `DefaultReadBack`) |
| ControllerSingle.Sends | control_resolume.py:28-39 | `send_osc_command` on a list of messages, stopping at the first raising send (definition; stated by `SendsWire`, `SendsFlag`, `SendsOutcomes`, `SendsPrints`) |
| ControllerSingle.Execute | control_resolume.py:41-58 | `run`: load, wait, the four sends (definition; stated by `ExecuteEffects`, `FileTimeMet`, `LoadFailureSendsNothing`) |
| ControllerSingle.DefaultFileTextIs | control_resolume.py:15 | the default file is `hours: 16\nminutes: 45\n` |
| ControllerSingle.PlayTimeFromFile | control_resolume.py:18-26 | a file time succeeds exactly when two lines give integer fields in range, and is then in [now, now + 1 day) at that time of day |
| ControllerSingle.KeyFileReads | control_resolume.py:19-21 | the name before ':' and every line after the second are ignored |
| ControllerSingle.TwoLinesRead | control_resolume.py:19-21 | only the first two lines are read |
| ControllerSingle.LinesOfTwo | control_resolume.py:19 | two newline-terminated lines are the file's first two |
| ControllerSingle.FirstTwoLines | control_resolume.py:20-26 | two readable first lines give that time rolled forward |
| ControllerSingle.KeyLineReads | control_resolume.py:20-21 | a `name: value` line reads its value and is one line |
| ControllerSingle.KeyLineField | control_resolume.py:20 | `int(line.split(':')[1].strip())` reads the value back |
| ControllerSingle.KeyLineShape | control_resolume.py:15 | a `name: value` line has its only newline at the end |
| ControllerSingle.DefaultReadBack | control_resolume.py:13-26 | the default file read on a later start gives 16:45 rolled forward |
| ControllerSingle.DefaultsAgreeWithFile | control_resolume.py:16 | the unrolled default agrees with the file read back exactly when started no later than 16:45 |
| ControllerSingle.Delivered | control_resolume.py:30-38 | at most all of the messages go out |
| ControllerSingle.DeliveredCounts | control_resolume.py:30-38 | the messages that go out are those before the first raising send |
| ControllerSingle.SendsWire | control_resolume.py:28-39 | the messages go out as a prefix of the four, each once and in order |
| ControllerSingle.SendsFlag | control_resolume.py:39 | `send_osc_command` returns normally exactly when all messages went out |
| ControllerSingle.SendsOutcomes | control_resolume.py:30-38 | each send uses one oracle outcome, the raising one included |
| ControllerSingle.SendsLogNothing | control_resolume.py:28-39 | sending writes no error log |
| ControllerSingle.SendsPrints | control_resolume.py:31-39 | the notice is printed only after all four; only the 0.1 s pause after the first moves the clock |
| ControllerSingle.FileTimeAhead | control_resolume.py:22-26 | a time read from a file is not before the start |
| ControllerSingle.FileTimeMet | control_resolume.py:43-49 | a time read from a file is met in the second before it, never late |
| ControllerSingle.StaleDefaultFiresAtOnce | control_resolume.py:16 | started after 16:45 without a file, the program sends at once |
| ControllerSingle.ExecuteEffects | control_resolume.py:41-58 | after the status lines, the four messages go out in order up to the first raising send; the notice only when all went out; no log |
| ControllerSingle.LoadFailureSendsNothing | control_resolume.py:18-21 | a file that cannot be read sends and prints nothing |
| ControllerSingle.SendOscCommands | control_resolume.py:28-39 | the method is `Sends` on the four messages |
| ControllerSingle.Run | control_resolume.py:10-58 | the program is `Execute` |
| ControllerCalendar.Collect | control_resolume_only_column_googlecal.py:42-50 | the verdicts in order, the first raising one ending the selection (definition; stated by `CollectFails`, `CollectMembers`, `CollectFailureStays`) |
| ControllerCalendar.Select | control_resolume_only_column_googlecal.py:42-50 | the selection loop over the events (definition; stated by `SelectFails`, `SelectedMembers`, `SelectedForThisPc`) |
| ControllerCalendar.Handle | control_resolume_only_column_googlecal.py:61-76 | one event: passed over when past, else the countdown and its command (definition; stated by `HandleSends`, `PastSendsNothing`) |
| ControllerCalendar.HandleAll | control_resolume_only_column_googlecal.py:61-76 | the bookings handled in order (definition; stated by `OnlyColumnCommands`) |
| ControllerCalendar.Process | control_resolume_only_column_googlecal.py:38-76 | `process_calendar_events`: select, sort, list, handle (definition; stated by `ProcessOrder`, `ProcessCalendarEvents`) |
| ControllerCalendar.Judge | control_resolume_only_column_googlecal.py:43-49 | a kept event is named for this PC and keeps its start |
| ControllerCalendar.Verdicts | control_resolume_only_column_googlecal.py:42 | one verdict per event, in order |
| ControllerCalendar.CollectFails | control_resolume_only_column_googlecal.py:42-49 | collecting fails exactly when some verdict raises, with the first such one |
| ControllerCalendar.SelectFails | control_resolume_only_column_googlecal.py:43-45 | selection fails exactly when some event lacks a summary or splits into other than two, and then with the first |
| ControllerCalendar.CollectMembers | control_resolume_only_column_googlecal.py:49 | a booking is collected exactly when some verdict keeps it |
| ControllerCalendar.SelectedMembers | control_resolume_only_column_googlecal.py:46-49 | a booking is selected exactly when some event yields it |
| ControllerCalendar.SelectedForThisPc | control_resolume_only_column_googlecal.py:46 | every selected booking is for this PC |
| ControllerCalendar.NoCommaIgnored | control_resolume_only_column_googlecal.py:44-50 | an event with no ',' in its summary changes nothing |
| ControllerCalendar.SummaryReads | control_resolume_only_column_googlecal.py:44-49 | `name,command` reads as the stripped pair, kept exactly when the stripped name is this PC's |
| ControllerCalendar.CollectFailureStays | control_resolume_only_column_googlecal.py:42-43 | once a prefix raises, the whole selection raises the same way |
| ControllerCalendar.CommandMessage | control_resolume_only_column_googlecal.py:73-76 | a message exactly for `run` and `stop`: connect or disconnect of column 1 |
| ControllerCalendar.SendCommand | control_resolume_only_column_googlecal.py:78-83 | one attempt, no retry, no wait; the message on the wire and its notice exactly when the call returns normally, the error line otherwise |
| ControllerCalendar.SendOscCommand | control_resolume_only_column_googlecal.py:78-83 | the method is `SendCommand` |
| ControllerCalendar.Countdown | control_resolume_only_column_googlecal.py:67-71 | the countdown changes neither the oracle, the wire nor the log |
| ControllerCalendar.CountdownTiming | control_resolume_only_column_googlecal.py:68-71 | it sleeps once per pass: the seconds left rounded up |
| ControllerCalendar.CountdownPrints | control_resolume_only_column_googlecal.py:69 | it only appends its lines to the console |
| ControllerCalendar.SecondsCountDown | control_resolume_only_column_googlecal.py:68-71 | one line per pass, each one second fewer than the one before |
| ControllerCalendar.CountdownEndsAtStart | control_resolume_only_column_googlecal.py:67-71 | a countdown ends at the start or less than a second after it |
| ControllerCalendar.HandleSends | control_resolume_only_column_googlecal.py:61-76 | a booking sends at most its command's one message, only when not past, at the start or within a second after; no log |
| ControllerCalendar.PastSendsNothing | control_resolume_only_column_googlecal.py:62-64 | a past booking only prints that it is passed over |
| ControllerCalendar.SameStartPassedOver | control_resolume_only_column_googlecal.py:62-71 | the second of two same-start bookings is passed over exactly when the first countdown began a fraction of a second off |
| ControllerCalendar.OnlyColumnCommands | control_resolume_only_column_googlecal.py:61-76 | at most one message per booking, each the connect or disconnect of column 1; nothing logged |
| ControllerCalendar.Listing | control_resolume_only_column_googlecal.py:57-58 | one line per booking, in order |
| ControllerCalendar.ListingSnoc | control_resolume_only_column_googlecal.py:57-58 | the listing grows by one line per booking |
| ControllerCalendar.ProcessOrder | control_resolume_only_column_googlecal.py:53 | the bookings worked through are the selected ones, sorted by start, a permutation, stable, all for this PC |
| ControllerCalendar.CountDown | control_resolume_only_column_googlecal.py:67-71 | the `while` loop method is `Countdown` |
| ControllerCalendar.HandleBooking | control_resolume_only_column_googlecal.py:61-76 | the per-event method is `Handle` |
| ControllerCalendar.SelectEvents | control_resolume_only_column_googlecal.py:39-50 | the selection loop method is `Select` |
| ControllerCalendar.PrintListing | control_resolume_only_column_googlecal.py:56-58 | the header, then the listing |
| ControllerCalendar.HandleBookings | control_resolume_only_column_googlecal.py:61 | the `for` loop method is `HandleAll` |
| ControllerCalendar.ProcessCalendarEvents | control_resolume_only_column_googlecal.py:38-76 | the method is `Process`: on a raising event nothing is printed or sent |
| StableSort.SortBy | Resolume_Controller_ver2.0.py:182 | `list.sort(key=...)` gives a sorted permutation |
| StableSort.SortStable | Resolume_Controller_ver2.0.py:182 | equal keys keep their input order |
| StableSort.SortedUnique | control_resolume_only_column_googlecal.py:53 | two sorted lists with the same per-key orders are equal |
| StableSort.StableSortIsSortBy | control_resolume_only_column_googlecal.py:53 | any stable sort gives `SortBy` |
| StableSort.WithKeyMembers | Resolume_Controller_ver2.0.py:182 | the per-key sublist holds exactly the elements of that key |

## Left out

- The UDP transport is an outcome oracle: the model says whether each `send_message` call returned normally or raised. It says nothing about delivery, since UDP has none.
- Time passes only in sleeps, and each `time.sleep(d)` is taken to last exactly d: the code between two sleeps runs in no time, so each load reads one `datetime.now()`, including the per-line reads of the multi-time controller. The timing bounds `Orchestrator.OnTime`, `WaitLoop.WaitEndsInLastSecond`, `ControllerSingle.FileTimeMet`, `ControllerCalendar.CountdownEndsAtStart`, `ControllerCalendar.HandleSends` and `ControllerCalendar.SameStartPassedOver` depend on this. Real sleeps run long, so real firings can be later than those bounds say.
- Host.Host.AppendErrorLog never fails. In the source the `open('error_log.txt', 'a')` is unguarded (Resolume_Controller_ver2.0.py:212-213, control_resolume_only_column_multi.py:59-60); an `OSError` there ends the schedule, through the `except` of the table-driven controller's `__main__` (Resolume_Controller_ver2.0.py:252-259) or uncaught in the multi-time controller. The model always goes on with the next trigger.
- Clock readings formatted with `strftime`, and the exact text of console lines, are not modelled. A console line is a `Notice` carrying what it reports.
- `print(..., end='\r')` overwriting is not modelled: every status line is kept.
- The error-log record's timestamp is the instant itself, not its `str(datetime)` form.
- Template and CSV writing (`create_template`, `create_default_csv`) and the xlsx workbook are not modelled. Only the two sample rows are, as `ControllerV2.TemplateRows`.
- The default files the multi-time and single-shot controllers write are their texts; writing them is not modelled.
- The table-driven constructor's file discovery (several CSV files, only the xlsx), its `input()` and `sys.exit` paths, and the logging setup are not modelled. The logging setup covers the handlers, `logs/` and the log format.
- `csv.DictReader` quoting is not modelled. Rows are given as their three cells, `None` where a row is too short.
- `get_calendar_events` is not modelled: OAuth, the token file and the API request. The events are given as already fetched.
- For the calendar controller, `fromisoformat`, the `Z` replacement and time zones are not modelled: starts are instants on the clock's scale.
- All-day events (date-only starts), which Python cannot compare with an aware `now`, are left out.
- `KeyboardInterrupt` handling and the final `input()` prompts are not modelled.
- Floating-point `total_seconds()` is not modelled: differences are exact integers of microseconds. The calendar countdown's float `time_to_start` is exact microseconds too.
- `int()` and `str.isdigit()` accept ASCII digits only; non-ASCII Unicode digits are not modelled.
- Dates.StrptimeYmd accepts ASCII digits only. The `%Y`, `%m` and `%d` directives of `strptime` also match non-ASCII decimal digits, which the model rejects.
- Files are read with `\n` line ends only; universal-newline translation of `\r\n` and `\r` is not modelled.
- ControllerSingle.Sends: a raising `send_message` ends the program with an uncaught exception. The model stops the sequence and reports it as not completed.
- `test.py` and the other scripts are not part of this model.
