# DotNetMon watchdog cycle, modelled in Dafny

DotNetMon is a resident watchdog. At a fixed interval it lists every
`dotnet` process and reads each one's private memory. A process whose memory
is strictly greater than `limitInGb * 1024^3` bytes, and whose launch command
line names `JetBrains.Roslyn.Worker.exe`, is an offender. The first time an
offender is seen, a toast is shown. Then the process is either killed
(`--shouldKill`, the default) or its id is put in the set
`exceededProcesses`. While the id stays in that set, no further toast is shown
for it. Every other sampled process has its id removed from the set. Ids
that are not sampled are never touched.

The project models that cycle and proves what it does to each process id.

- `Text` (`text.dfy`): ordinal substring search, and decimal rendering of an
  integer with its inverse parser.
- `MemoryLimit` (`memory_limit.dfy`): the byte limit as a C# `long`, with the
  unchecked two's-complement wrap-around written out.
- `WorkerProbe` (`worker_probe.dfy`): the worker test applied to the
  command-line query's output.
- `Alert` (`alert.dfy`): the toast's body text.
- `Tracker` (`tracker.dfy`): the cycle as pure functions (`Step` for one
  process, `Cycle` for one snapshot, `Session` for a run of cycles) and the
  lemmas about them.
- `Monitor` (`monitor.dfy`): class `Watchdog`. Its field `exceeded` is the set.
  Its method `RunCycle` is the `foreach` loop: it updates the set in place and
  uses `continue` where the source does. It is proved to leave exactly the
  state and event list that `Tracker.Cycle` gives.

The side effects of a cycle are returned as an ordered list of events:

- `ProbeCommandLine(id)`: the command-line query runs. Because `&&`
  short-circuits, this happens only for processes over the limit.
- `Notify(id, killing)`: the call to `ShowNotification`.
- `Kill(id)`: the call to `process.Kill()`.

## Model

| member | source | states |
|---|---|---|
| MemoryLimit.CalculatedLimit | DotNetMon/Program.cs:54 | for a gigabyte count with magnitude below 2^33, the limit is exactly `limitInGb * 1024^3` bytes |
| MemoryLimit.CalculatedLimitWraps | DotNetMon/Program.cs:54 | for every count, the `long` limit is congruent to the mathematical product modulo 2^64 (unchecked wrap-around) |
| MemoryLimit.OversizedLimitWraps | DotNetMon/Program.cs:54 | a count of 2^33 wraps to the most negative `long`, so every process is over the limit; a count of 2^34 wraps to 0 |
| Tracker.OverLimit | DotNetMon/Program.cs:53-56 | against the wrapped limit; for a count that does not wrap, the process is over exactly when its private memory is strictly greater than `limitInGb * 1024^3` bytes (boundary in `LimitIsStrict`) |
| Tracker.IsOffender | DotNetMon/Program.cs:56 | the alert branch is taken exactly when the worker verdict holds and the memory is strictly over `limitInGb * 1024^3` bytes (for a count that does not wrap) |
| Tracker.LimitIsStrict | DotNetMon/Program.cs:54-56 | memory exactly equal to the limit is not over it; one byte more is |
| Text.Contains | DotNetMon/Program.cs:95 | the search returns true exactly when the pattern occurs at some index of the text |
| WorkerProbe.IsRoslynWorker | DotNetMon/Program.cs:94-95 | a process is a worker exactly when there is query output and `JetBrains.Roslyn.Worker.exe` occurs in it; no output means not a worker |
| WorkerProbe.MarkerAnywhereIsWorker | DotNetMon/Program.cs:95 | output that contains the marker anywhere, with any text before or after it, passes the test |
| Text.DecimalString | DotNetMon/Program.cs:102 | the rendering of the id is nonempty, starts with `-` exactly when the id is negative, is otherwise all digits, and has no leading zero unless the id is 0 (leading digit via `DigitsShape`, inverse via `DecimalRoundTrip`) |
| Text.DecimalRoundTrip | DotNetMon/Program.cs:102 | the decimal rendering of the id in the text parses back to the id |
| Alert.NotificationText | DotNetMon/Program.cs:101-102 | the text starts with `Roslyn Worker dotnet process `; it contains the id in double quotes; it ends with ` Killing...` exactly when killing; otherwise it ends with ` has exceeded the memory limit.` |
| Alert.NotificationTextInjective | DotNetMon/Program.cs:101-102 | two texts are equal only when both the ids and the kill flags are equal, so the text determines both |
| Tracker.Step | DotNetMon/Program.cs:53-76 | one loop body: only the process's own id can change membership; the id ends in the set exactly when the process offends and either was in the set already or is not killed; every event is about that id; there are no events exactly when it is under the limit (the branches are stated one by one in the `Cycle...` lemmas below) |
| Tracker.Cycle | DotNetMon/Program.cs:51-77 | one pass of the `foreach`: ids outside the snapshot keep their membership (set after lies between set before minus sampled ids and set before plus sampled ids); at most three events per sample; per-process behaviour in `CycleActsPerSample`, `CycleKeepsUnsampled` and the lemmas below |
| Tracker.Session | DotNetMon/Program.cs:48-80 | a run of cycles, each starting from the set the previous one left; with `shouldKill` the set never grows over the run; behaviour over a run in `SessionAlertsOncePerRun`, `SessionKeepsUnsampled`, `RealertAfterRecovery` |
| Tracker.StepIsLocal | DotNetMon/Program.cs:56-76 | handling one process changes membership and emits events only for that process's id |
| Tracker.CycleKeepsUnsampled | DotNetMon/Program.cs:51-77 | an id not sampled in the cycle keeps its membership and has no events; stale ids are never purged |
| Tracker.CycleActsPerSample | DotNetMon/Program.cs:51-77 | with distinct ids, a sampled process ends the cycle as its own step would leave it, starting from the set at the start of the cycle; that step's events are exactly the cycle's events about that id |
| Tracker.CycleClearsNonOffender | DotNetMon/Program.cs:56-76 | a process that is not over the limit, or is not a worker, ends the cycle outside the set, whether or not it was in it; it is never notified or killed; it is queried only if it is over the limit |
| Tracker.CycleSuppressesRepeatAlert | DotNetMon/Program.cs:56-61 | an offender already in the set stays in it; its only event is the query, with no notification and no kill |
| Tracker.CycleAlertsNewOffender | DotNetMon/Program.cs:56-71 | an offender not in the set gets exactly the query, one notification carrying `shouldKill`, and a kill only when `shouldKill`; it ends in the set exactly when `shouldKill` is false |
| Tracker.CycleEventsExplained | DotNetMon/Program.cs:56-69 | every event of a cycle is about a sampled process over the limit; every notification and kill is about a worker; notifications carry `shouldKill`; kills occur only when `shouldKill` |
| Tracker.KillingNeverGrowsSet | DotNetMon/Program.cs:65-71 | with `shouldKill` the set after a cycle is a subset of the set before it |
| Tracker.CycleNotifiesNewOffenderOnce | DotNetMon/Program.cs:56-71 | an offender is notified once in a cycle if it was not in the set, and never if it was; afterwards it is in the set unless it was killed |
| Tracker.SessionAlertsOncePerRun | DotNetMon/Program.cs:48-80 | over a run of cycles in which an id is an offender every time: 0 notifications if it starts in the set; otherwise 1 notification without killing, or one per cycle with killing; its final membership follows the same cases |
| Tracker.RealertAfterRecovery | DotNetMon/Program.cs:48-80 | a process that is not an offender in one cycle and is an offender in the next gets a fresh query, a notification and, with killing, a kill |
| Tracker.SessionKeepsUnsampled | DotNetMon/Program.cs:48-80 | an id absent from every cycle of a run keeps its membership |
| Tracker.ReusedIdInheritsStaleEntry | DotNetMon/Program.cs:51-77 | an id left in the set by a process that vanished suppresses the notification for a later offender that reuses the id |
| Tracker.OverUnderOverScenario | DotNetMon/Program.cs:48-80 | 2 GB limit, no killing, one worker over four cycles: alerted and recorded; then quiet; then cleared; then alerted again |
| Monitor.Watchdog.constructor | DotNetMon/Program.cs:46 | the set starts empty |
| Monitor.Watchdog.RunCycle | DotNetMon/Program.cs:50-77 | the in-place loop leaves the set and returns the event list exactly as `Tracker.Cycle` specifies, starting from the old set |
| Monitor.Watchdog.Watch | DotNetMon/Program.cs:48-80 | a finite run of cycles leaves the set and the events as `Tracker.Session` specifies |

## Left out

- Command-line parsing with `System.CommandLine`, the defaults and the early
  return on `--help`/`-h` (lines 5-44): library glue. `limitInGb` and
  `shouldKill` are the fields of `Tracker.Config`.
- `checkDelayInMs` and `Thread.Sleep` (line 79): timing has no effect on the
  set. The endless `while (true)` is modelled as finite runs of cycles
  (`Session`, `Watch`).
- `Process.GetProcessesByName("dotnet")` and `PrivateMemorySize64` (lines 50,
  53): the OS process table. Each cycle takes a sequence of samples as input.
  The lemmas that follow one sampled process require the ids in a snapshot to
  be distinct, as the process table guarantees. `RunCycle` itself does not
  need that.
- Spawning `wmic` and reading its output (lines 85-94): external process I/O.
  `WorkerProbe.IsRoslynWorker` models the test on the output, with `None`
  for a query process that could not be started. In the cycle, a sample's
  `isWorker` field is that test's verdict. The verdict is read only for
  processes over the limit, and each read is recorded as a
  `ProbeCommandLine` event. The model does not capture that a process can
  exit between being sampled and being queried.
- The toast itself (lines 104-113): the title, the audio and the display are
  UI. `Alert.NotificationText` models the body text. `Notify(id, killing)`
  models the call.
- `process.Kill()` as an OS action (line 67): modelled only as the `Kill`
  event. The source has no `try`/`catch` anywhere. A failing kill, query or
  enumeration would throw and end the monitor; exceptions are not modelled,
  and the model does not add a recovery that the code lacks.
- Process ids are C# `int`s and are modelled as unbounded integers. The code
  only compares them and stores them in the set, so width does not matter.
  `int.ToString()` is modelled under the invariant culture, with an ASCII
  `-` for negative values.
- Ids of exited processes: the code removes an id from the set only when a
  process with that id is sampled and does not offend, so the id of a
  process that exited stays in the set. The model keeps that behaviour
  (`CycleKeepsUnsampled`, `ReusedIdInheritsStaleEntry`) and adds no purge.
