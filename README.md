# ESP32 bicycle wheel-speed sensor: a Dafny model

This project models the wheel-speed state machine of `src/main.cpp`. The
firmware has two halves, and the model keeps both.

- **Edge capture.** The interrupt handler `RevSenseISR` runs on every
  rising edge of the wheel sensor. It stores the `micros()` timestamp in
  `RevSenseTimeMicros`. It also stores the wrapping difference from its static
  `revSensePreviousMicros` in `RevTimeMicros`.
- **Sampling tick.** The polled body of `loop` does four things in order:
  - It fires on a phase-locked 1000 ms schedule, using wrapping `millis()`
    arithmetic.
  - It snapshots the two shared globals.
  - It gives 0 RPM when more than 2 000 000 µs have passed since the last edge.
  - Otherwise it computes `60000000 / RevTimeMicros` with truncating
    division. It hands the value to `displayRPM` only when the value differs
    from the previous one.

`unsigned long` and `unsigned` are 32 bits wide on the ESP32. Module
`Wrap32` writes out their wrap-around: the subset type `u32` and the
functions `Sub` and `Add`, which work modulo 2^32.

Files:

- `wrap32.dfy` (module `Wrap32`): 32-bit unsigned subtraction and addition,
  and the proof that wrapping differences measure true elapsed time.
- `rate.dfy` (module `Rate`): the constants, the tick gate, the phase-locked
  deadline, the stop rule and the RPM division, as pure functions with
  lemmas.
- `wheel_sensor.dfy` (module `WheelSensor`): class `Sensor`. Its fields are
  the source's globals and statics. It has two methods:
  - `Isr(now)` is `RevSenseISR`.
  - `Loop(currentMillis, nowMicros)` is one pass of `loop`.

  The clock readings are parameters. The ghost field `reports` logs the
  values passed to `displayRPM`. The pure functions `Capture` and `Poll`
  specify the two methods. `Valid()` is the invariant that holds between
  calls.
- `runs.dfy` (module `Runs`): whole runs as sequences of edges and ticks,
  lemmas over every run, and the two findings below.

The model follows the code where the code and its own comments disagree:

- The comments call `RevTimeMicros` the "Microseconds between consecutive
  pulses" (src/main.cpp:18) and the "Time for last revolution"
  (src/main.cpp:36). They call `revSensePreviousMicros` a value retained
  between calls (src/main.cpp:33). The code never writes
  `revSensePreviousMicros`, so `RevTimeMicros` is the absolute edge
  timestamp (see Findings).
- The division at src/main.cpp:62 has no guard against a zero period (see
  Findings).
- The RPM is the truncated quotient of C's unsigned division, not a
  rounded one.

## Model

| member | source | states |
|---|---|---|
| `Wrap32.Sub` | src/main.cpp:36 | unsigned 32-bit `a - b`: the plain difference when `b <= a`, otherwise the difference plus 2^32 |
| `Wrap32.Add` | src/main.cpp:48 | unsigned 32-bit `a + b`: the plain sum when it fits, otherwise the sum less 2^32 |
| `Wrap32.AddThenSub` | src/main.cpp:46-48 | wrapping subtraction undoes wrapping addition |
| `Wrap32.SubThenAdd` | src/main.cpp:36 | wrapping addition undoes wrapping subtraction |
| `Wrap32.ElapsedAcrossWrap` | src/main.cpp:59 | if less than 2^32 ticks separate two true times, the wrapping difference of the counter readings is the true gap, even across a counter wrap |
| `Rate.TickDue` | src/main.cpp:46 | the gate of `loop`: at least 1000 ms have elapsed since the current deadline, measured by wrapping subtraction (partner: `Rate.TickDueAcrossWrap`, `Rate.CatchUpFiresExactly`) |
| `Rate.Stopped` | src/main.cpp:59 | the stop rule: strictly more than 2 000 000 µs since the last edge, measured by wrapping subtraction (partner: `Rate.StoppedAcrossWrap`, `Rate.StopBoundaryIsStrict`) |
| `Rate.DividesByZero` | src/main.cpp:59-62 | the fault condition: the wheel does not count as stopped and the snapshot period is 0, so the unguarded division runs with a zero divisor (partner: `Runs.StartupTickDividesByZero`) |
| `Rate.NextDeadline` | src/main.cpp:48 | the new deadline is exactly one interval (1000 ms, mod 2^32) after the old one |
| `Rate.RpmOf` | src/main.cpp:62 | truncating `60000000 / p` is the largest `r` with `r * p <= 60000000`, and it fits in 32 bits |
| `Rate.NewRpm` | src/main.cpp:58-62 | stopped gives 0; otherwise the result is the truncated quotient of 60 000 000 by the period; defined only where the division has a non-zero divisor |
| `Rate.GuardedRpm` | src/main.cpp:59-62 | corrected rule: agrees with `NewRpm` wherever the source does not divide by zero; a zero period gives 0; a non-zero result means the wheel is not stopped and the period is non-zero |
| `Rate.RpmOfAntitone` | src/main.cpp:62 | a longer revolution never gives a larger RPM |
| `Rate.StoppedAcrossWrap` | src/main.cpp:59 | across a wrap of `micros()`, the wheel counts as stopped exactly when the true gap since the last edge exceeds 2 000 000 µs |
| `Rate.TickDueAcrossWrap` | src/main.cpp:46 | across a wrap of `millis()`, a tick is due exactly when the true time since the deadline is at least 1000 ms |
| `Rate.StopBoundaryIsStrict` | src/main.cpp:59-60 | a gap of exactly 2 000 000 µs is not stopped; 2 000 001 µs is |
| `Rate.DeadlineAdvancesByIntervals` | src/main.cpp:46-48 | after `j` firing ticks, the time owed to the schedule is exactly `j` intervals less, so the schedule does not drift |
| `Rate.CatchUpFiresExactly` | src/main.cpp:46-48 | a loop delayed by `k` whole intervals fires exactly `k` more times at a fixed time and then stops firing |
| `WheelSensor.Capture` | src/main.cpp:31-37 | the handler stores the edge time, stores a period that added to `revSensePreviousMicros` gives that time, and leaves `revSensePreviousMicros` unchanged |
| `WheelSensor.CaptureStoresTimestamp` | src/main.cpp:33-36 | with `revSensePreviousMicros` at its initial 0, the stored period equals the absolute timestamp |
| `WheelSensor.Poll` | src/main.cpp:39-71 | before the deadline, no change and no report; a due tick faults exactly when the unguarded division meets a zero period; otherwise it advances the deadline by one interval, remembers the RPM it computed, and reports exactly when that RPM differs from the remembered one |
| `WheelSensor.PollKeepsChangeLog` | src/main.cpp:64-69 | one pass keeps the report log a change log: no report repeats its predecessor, and the remembered RPM is the last report |
| `WheelSensor.Sensor.constructor` | src/main.cpp:17-45 | all globals (lines 17-18) and statics (lines 33, 41, 45) start at 0 and nothing is reported |
| `WheelSensor.Sensor.Isr` | src/main.cpp:31-37 | the new shared state is `Capture` of the old one; both globals equal `now`; the sampler statics and the reports are unchanged; the invariant is kept |
| `WheelSensor.Sensor.Loop` | src/main.cpp:39-71 | the new statics and the appended reports are those of `Poll`; the shared globals are unchanged; the invariant is kept |
| `Runs.Step` | src/main.cpp:31-71 | one event: an edge applies `RevSenseISR` (`Capture`) to the shared globals, a tick applies one pass of `loop` (`Poll`) to its statics and stops the run at a division by zero (partner: `Runs.StepFrames`) |
| `Runs.Run` | src/main.cpp:31-71 | any interleaving of `RevSenseISR` and `loop` passes, applied in order, collecting the `displayRPM` values or stopping at the first fault (partner: `Runs.RunKeepsChangeLog`, `Runs.RunKeepsPeriodEqualToTimestamp`) |
| `Runs.StepIsChangeLog` | src/main.cpp:64-69 | one edge or tick reports a change log: nothing for an edge, and for a tick at most the new RPM, which then differs from the one remembered before |
| `Runs.RunIsChangeLog` | src/main.cpp:64-69 | the reports of any run are a change log from the remembered RPM at its start to the one at its end |
| `Runs.RunKeepsChangeLog` | src/main.cpp:64-69 | over any run of edges and ticks, the reports stay a change log that ends at the remembered RPM |
| `Runs.RunFromBootReportsChangesOnly` | src/main.cpp:41-69 | from power-on, no two consecutive reports are equal and the first report is never 0 |
| `Runs.StepFrames` | src/main.cpp:52-55 | an edge touches only the shared globals and reports nothing; a tick never writes the shared globals |
| `Runs.RunKeepsPeriodEqualToTimestamp` | src/main.cpp:33-36 | over any run, `revSensePreviousMicros` stays 0, so the stored period always equals the stored timestamp |
| `Runs.RepeatedValueReportedOnce` | src/main.cpp:64-69 | ticks that all compute the same value `v` report at most `[v]`: nothing when `v` is already remembered, exactly once when it is not and the first tick is due |
| `Runs.StoppedWheelReportsZeroOnce` | src/main.cpp:59-69 | ticks that all see a stopped wheel report nothing or a single 0 |
| `Runs.LateTickKeepsSchedule` | src/main.cpp:46-48 | two firing ticks at different lateness leave the same deadline, one interval after the old one |
| `Runs.LateTickExample` | src/main.cpp:46-48 | a tick at 1050 ms moves the deadline from 0 to 1000 ms; 1999 ms is not due, 2000 ms is |
| `Runs.CorrectedCapture` | src/main.cpp:33-36 | corrected handler: it also remembers the edge time, and the stored period added to the previous edge time gives the new one |
| `Runs.CorrectedPeriodIsInterEdgeTime` | src/main.cpp:33-36 | with the corrected handler, after two edges the period is their true separation, even across a counter wrap, and a tick within the timeout computes that period's RPM |
| `Runs.AsWrittenMisreadsPeriod` | src/main.cpp:33-36 | edges at 1 000 000 and 1 500 000 µs give 40 RPM as written and 120 RPM corrected |
| `Runs.StartupTickDividesByZero` | src/main.cpp:53-62 | while no edge has been seen, every due tick whose `micros()` reads at most 2 000 000 divides by zero, whatever the sampler state (after power-on and after each `micros()` wrap); an edge at `micros() == 0` leaves that state unchanged |
| `Runs.FirstTickCrashesWithoutEdge` | src/main.cpp:53-62 | the first tick at 1000 ms and 1 000 000 µs, with no edge yet, crashes |
| `Runs.GuardedRpmNeverFaults` | src/main.cpp:62 | under the corrected rule a zero period gives 0 RPM, where the source would divide by zero unless the wheel counts as stopped |

## Left out

- `displayRPM` (src/main.cpp:73-82): its float arithmetic and Serial output are not modelled. A call is one entry appended to the ghost log `reports`.
- `setup` (src/main.cpp:24-29): Serial and pin set-up, and the registration of the interrupt, are hardware plumbing.
- `RevSensePin`: a pin number used only by `setup` (src/main.cpp:27-28). `WheelRadiusInMeters` and `WheelCircumferenceInMeters`: float constants used only for output.
- `noInterrupts()`/`interrupts()` and `volatile`: the model is sequential. An edge is a call of `Isr` between two calls of `Loop`, and the snapshot is a plain read of both fields.
- `micros()` and `millis()`: platform clock calls. Their readings are parameters. `Loop` takes the single `micros()` reading of the stop rule.
- `WheelSensor.Sensor.Loop`: the division by zero is excluded by a requires rather than modelled as a CPU exception. The pure `Poll` and `Runs.Run` model it as a `DivisionByZero` / `Crashed` outcome.
- The corrected definitions (`Runs.CorrectedCapture`, `Rate.GuardedRpm`) are proved on their own. Class `Sensor` keeps the behaviour as written, because it models the program.

## Findings

| source | as written | input that shows it | evidently intended | confidence | as-written member | corrected member |
|---|---|---|---|---|---|---|
| src/main.cpp:33-36 | `revSensePreviousMicros` is never assigned after its initial 0, so `RevTimeMicros` holds the absolute edge timestamp, not the time for the last revolution | edges at 1 000 000 µs and 1 500 000 µs, then a tick at 1 600 000 µs: 40 RPM instead of 120 | set `revSensePreviousMicros` to the edge time after computing the period | high, not executed | `Runs.AsWrittenMisreadsPeriod` | `Runs.CorrectedPeriodIsInterEdgeTime` |
| src/main.cpp:62 | the division runs with `RevTimeMicros == 0` whenever a tick is due, no edge has been seen (or the only edges came at `micros() == 0`) and `micros()` reads at most 2 000 000 | first tick at `millis() == 1000`, `micros() == 1000000`, no edge yet | treat a zero period as 0 RPM | high, not executed | `Runs.StartupTickDividesByZero` | `Rate.GuardedRpm` |
