/** The wheel-speed state machine of src/main.cpp: the edge interrupt
    handler `RevSenseISR` and the polled body of `loop`. The globals and
    statics they share and keep between calls are the fields of class
    Sensor; the clock readings `micros()` and `millis()` are parameters;
    every call of `displayRPM` appends its argument to the ghost log
    `reports`. Pure functions over value snapshots of that state specify the
    two methods. */
module WheelSensor {
  import opened Wrap32
  import opened Rate

  /** What the interrupt handler keeps: the two shared globals and its own
      static `revSensePreviousMicros`. */
  datatype EdgeState = EdgeState(revSenseTimeMicros: u32, revTimeMicros: u32, revSensePreviousMicros: u32)

  /** What `loop` keeps between calls: its two statics. */
  datatype SamplerState = SamplerState(previousRPM: u32, previousMillis: u32)

  /** One pass through `loop`: either it ends normally, with the new sampler
      state and the values handed to `displayRPM` (none or one), or it
      reaches the division with a zero divisor, which on the target raises a
      CPU exception. */
  datatype PollOutcome =
    | Polled(sampler: SamplerState, emitted: seq<u32>)
    | DivisionByZero

  /** All statics and globals start at zero (`previousRPM` is a zero-initialised static). */
  const InitialEdge: EdgeState := EdgeState(0, 0, 0)
  const InitialSampler: SamplerState := SamplerState(0, 0)

  /** `RevSenseISR` as written: it stores the timestamp and its wrapping
      difference from `revSensePreviousMicros`, and never writes
      `revSensePreviousMicros`. */
  function Capture(e: EdgeState, now: u32): (r: EdgeState)
    ensures r.revSenseTimeMicros == now
    ensures Add(e.revSensePreviousMicros, r.revTimeMicros) == now
    ensures r.revSensePreviousMicros == e.revSensePreviousMicros
  {
    SubThenAdd(now, e.revSensePreviousMicros);
    e.(revSenseTimeMicros := now, revTimeMicros := Sub(now, e.revSensePreviousMicros))
  }

  /** Since `revSensePreviousMicros` stays 0, the stored "period" is the
      absolute edge timestamp. */
  lemma CaptureStoresTimestamp(e: EdgeState, now: u32)
    requires e.revSensePreviousMicros == 0
    ensures Capture(e, now).revTimeMicros == Capture(e, now).revSenseTimeMicros == now
  {
  }

  /** One pass through `loop` with `millis()` reading `currentMillis` and
      `micros()` reading `nowMicros`, against the snapshot `e`. */
  function Poll(s: SamplerState, e: EdgeState, currentMillis: u32, nowMicros: u32): (r: PollOutcome)
    // Before the deadline nothing changes and nothing is reported.
    ensures !TickDue(currentMillis, s.previousMillis) ==> r == Polled(s, [])
    // A due tick faults exactly when the unguarded division meets a zero period.
    ensures TickDue(currentMillis, s.previousMillis) ==>
              (r.DivisionByZero? <==> DividesByZero(nowMicros, e.revSenseTimeMicros, e.revTimeMicros))
    // A due tick moves the deadline by exactly one interval (phase-locked).
    ensures r.Polled? && TickDue(currentMillis, s.previousMillis) ==>
              Sub(r.sampler.previousMillis, s.previousMillis) == DisplayIntervalMillis
    // It remembers the RPM it computed ...
    ensures r.Polled? && TickDue(currentMillis, s.previousMillis) ==>
              r.sampler.previousRPM == NewRpm(nowMicros, e.revSenseTimeMicros, e.revTimeMicros)
    // ... and reports it exactly when it differs from the remembered one.
    ensures r.Polled? ==> (r.emitted == [] <==> r.sampler.previousRPM == s.previousRPM)
    ensures r.Polled? && r.emitted != [] ==> r.emitted == [r.sampler.previousRPM]
  {
    if !TickDue(currentMillis, s.previousMillis) then Polled(s, [])
    else
      var previousMillis := NextDeadline(s.previousMillis);
      if DividesByZero(nowMicros, e.revSenseTimeMicros, e.revTimeMicros) then DivisionByZero
      else
        var newRPM := NewRpm(nowMicros, e.revSenseTimeMicros, e.revTimeMicros);
        if newRPM != s.previousRPM then Polled(SamplerState(newRPM, previousMillis), [newRPM])
        else Polled(SamplerState(s.previousRPM, previousMillis), [])
  }

  /** The history of `displayRPM` calls: starting from the remembered value
      `initial`, every report differs from the one before it, and the
      remembered value is the last report. */
  predicate ChangeLog(initial: u32, log: seq<u32>, current: u32)
  {
    && (log != [] ==> log[0] != initial)
    && (forall i :: 0 < i < |log| ==> log[i - 1] != log[i])
    && current == (if log == [] then initial else log[|log| - 1])
  }

  /** One pass of `loop` extends a change log to a change log. */
  lemma PollKeepsChangeLog(initial: u32, log: seq<u32>, s: SamplerState, e: EdgeState, currentMillis: u32, nowMicros: u32)
    requires ChangeLog(initial, log, s.previousRPM)
    requires Poll(s, e, currentMillis, nowMicros).Polled?
    ensures ChangeLog(initial, log + Poll(s, e, currentMillis, nowMicros).emitted,
                      Poll(s, e, currentMillis, nowMicros).sampler.previousRPM)
  {
  }

  /** The program's state, the globals and statics of src/main.cpp. */
  class Sensor {
    var RevSenseTimeMicros: u32
    var RevTimeMicros: u32
    var revSensePreviousMicros: u32
    var previousRPM: u32
    var previousMillis: u32
    /** The values passed to `displayRPM`, oldest first. */
    ghost var reports: seq<u32>

    function Edge(): EdgeState
      reads this
    {
      EdgeState(RevSenseTimeMicros, RevTimeMicros, revSensePreviousMicros)
    }

    function Sampler(): SamplerState
      reads this
    {
      SamplerState(previousRPM, previousMillis)
    }

    /** What holds between any two calls: `revSensePreviousMicros` keeps its
        initial 0, so the stored period equals the stored timestamp, and the
        reports form a change log starting from the initial `previousRPM` 0. */
    ghost predicate Valid()
      reads this
    {
      && revSensePreviousMicros == 0
      && RevTimeMicros == RevSenseTimeMicros
      && ChangeLog(0, reports, previousRPM)
    }

    /** Static initialisation: everything 0, nothing reported. */
    constructor ()
      ensures Valid()
      ensures Edge() == InitialEdge && Sampler() == InitialSampler && reports == []
    {
      RevSenseTimeMicros, RevTimeMicros, revSensePreviousMicros := 0, 0, 0;
      previousRPM, previousMillis := 0, 0;
      reports := [];
    }

    /** `RevSenseISR`, with `micros()` reading `now`. It writes the two
        shared globals and nothing else. */
    method Isr(now: u32)
      requires Valid()
      modifies this`RevSenseTimeMicros, this`RevTimeMicros
      ensures Valid()
      ensures Edge() == Capture(old(Edge()), now)
      ensures RevSenseTimeMicros == now && RevTimeMicros == now
      ensures Sampler() == old(Sampler()) && reports == old(reports)
    {
      RevSenseTimeMicros := now;
      RevTimeMicros := Sub(RevSenseTimeMicros, revSensePreviousMicros);
    }

    /** One pass through `loop`, with `millis()` reading `currentMillis` and
        the `micros()` call of the stop rule reading `nowMicros`. The source
        divides by the snapshot period unguarded; the second requires names
        that latent fault: a due tick that does not count the wheel as
        stopped must not meet a zero period. `loop` only reads the shared
        globals. */
    method Loop(currentMillis: u32, nowMicros: u32)
      requires Valid()
      requires TickDue(currentMillis, previousMillis) ==>
                 !DividesByZero(nowMicros, RevSenseTimeMicros, RevTimeMicros)
      modifies this`previousRPM, this`previousMillis, this`reports
      ensures Valid()
      ensures Edge() == old(Edge())
      ensures var r := Poll(old(Sampler()), Edge(), currentMillis, nowMicros);
              r.Polled? && Sampler() == r.sampler && reports == old(reports) + r.emitted
    {
      ghost var s0, log0 := Sampler(), reports;
      ghost var r := Poll(s0, Edge(), currentMillis, nowMicros);
      if Sub(currentMillis, previousMillis) >= DisplayIntervalMillis {
        previousMillis := Add(previousMillis, DisplayIntervalMillis);

        // The snapshot taken with interrupts disabled.
        var revSenseTimeMicros := RevSenseTimeMicros;
        var revTimeMicros := RevTimeMicros;

        var newRPM: u32;
        if Sub(nowMicros, revSenseTimeMicros) > MaxRevTimeMicros {
          newRPM := 0;
        } else {
          newRPM := SixtySecondsInMicros / revTimeMicros;
        }
        assert newRPM == NewRpm(nowMicros, revSenseTimeMicros, revTimeMicros);

        if newRPM != previousRPM {
          previousRPM := newRPM;
          reports := reports + [newRPM];
          assert r == Polled(Sampler(), [newRPM]);
        } else {
          assert r == Polled(Sampler(), []);
        }
      } else {
        assert r == Polled(s0, []);
      }
      PollKeepsChangeLog(0, log0, s0, Edge(), currentMillis, nowMicros);
    }
  }
}
