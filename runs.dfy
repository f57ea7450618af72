/** Whole runs of the program: a sequence of sensor edges and passes
    through `loop`, in the order they happen, applied to the state of
    src/main.cpp. The lemmas here state what holds over any such run, and
    the two findings about the source. */
module Runs {
  import opened Wrap32
  import opened Rate
  import opened WheelSensor

  /** An interrupt at a rising edge, with `micros()` reading `atMicros`, or a
      pass through `loop` with `millis()` reading `atMillis` and `micros()`
      reading `atMicros`. */
  datatype Event =
    | Edge(atMicros: u32)
    | Tick(atMillis: u32, atMicros: u32)

  datatype System = System(edge: EdgeState, sampler: SamplerState)

  /** A run ends with the final state and the values reported on the way,
      or stops at the first division by zero. */
  datatype RunOutcome =
    | Ran(system: System, reports: seq<u32>)
    | Crashed

  const Boot: System := System(InitialEdge, InitialSampler)

  function Step(sys: System, ev: Event): RunOutcome
  {
    match ev
    case Edge(t) => Ran(sys.(edge := Capture(sys.edge, t)), [])
    case Tick(m, u) =>
      match Poll(sys.sampler, sys.edge, m, u)
      case DivisionByZero => Crashed
      case Polled(s, emitted) => Ran(sys.(sampler := s), emitted)
  }

  function Run(sys: System, events: seq<Event>): RunOutcome
    decreases |events|
  {
    if events == [] then Ran(sys, [])
    else
      match Step(sys, events[0])
      case Crashed => Crashed
      case Ran(sys1, r1) =>
        match Run(sys1, events[1..])
        case Crashed => Crashed
        case Ran(sys2, r2) => Ran(sys2, r1 + r2)
  }

  /** One event's reports are a change log from the remembered RPM before
      it to the remembered RPM after it: an edge reports nothing, and a tick
      reports at most one value, the RPM it now remembers. */
  lemma StepIsChangeLog(sys: System, ev: Event)
    requires Step(sys, ev).Ran?
    ensures ChangeLog(sys.sampler.previousRPM, Step(sys, ev).reports, Step(sys, ev).system.sampler.previousRPM)
    ensures ev.Edge? ==> Step(sys, ev).reports == []
    ensures ev.Tick? ==> Step(sys, ev).reports == [] || Step(sys, ev).reports == [Step(sys, ev).system.sampler.previousRPM]
  {
  }

  /** Two change logs that meet at the same remembered value make one. */
  lemma ChangeLogConcat(initial: u32, a: seq<u32>, mid: u32, b: seq<u32>, final: u32)
    requires ChangeLog(initial, a, mid) && ChangeLog(mid, b, final)
    ensures ChangeLog(initial, a + b, final)
  {
    var c := a + b;
    forall i | 0 < i < |c|
      ensures c[i - 1] != c[i]
    {
      if i == |a| {
        assert c[i - 1] == mid && c[i] == b[0];
      } else if i > |a| {
        assert c[i - 1] == b[i - 1 - |a|] && c[i] == b[i - |a|];
      } else {
        assert c[i - 1] == a[i - 1] && c[i] == a[i];
      }
    }
    if b != [] {
      assert c[|c| - 1] == b[|b| - 1];
    }
  }

  /** The reports of a whole run are a change log from the remembered RPM at
      its start to the remembered RPM at its end. */
  lemma {:induction false} RunIsChangeLog(sys: System, events: seq<Event>)
    requires Run(sys, events).Ran?
    ensures ChangeLog(sys.sampler.previousRPM, Run(sys, events).reports, Run(sys, events).system.sampler.previousRPM)
    decreases |events|
  {
    if events != [] {
      var step := Step(sys, events[0]);
      assert step.Ran?;
      var rest := Run(step.system, events[1..]);
      assert rest.Ran?;
      assert Run(sys, events) == Ran(rest.system, step.reports + rest.reports);
      StepIsChangeLog(sys, events[0]);
      RunIsChangeLog(step.system, events[1..]);
      ChangeLogConcat(sys.sampler.previousRPM, step.reports, step.system.sampler.previousRPM,
                      rest.reports, rest.system.sampler.previousRPM);
    }
  }

  /** Report only on change, over any run: the reports never repeat the
      value before them, the first differs from the remembered RPM at the
      start, and the remembered RPM at the end is the last report. */
  lemma RunKeepsChangeLog(initial: u32, log: seq<u32>, sys: System, events: seq<Event>)
    requires ChangeLog(initial, log, sys.sampler.previousRPM)
    requires Run(sys, events).Ran?
    ensures ChangeLog(initial, log + Run(sys, events).reports, Run(sys, events).system.sampler.previousRPM)
  {
    RunIsChangeLog(sys, events);
    ChangeLogConcat(initial, log, sys.sampler.previousRPM,
                    Run(sys, events).reports, Run(sys, events).system.sampler.previousRPM);
  }

  /** From power-on no two consecutive reports are equal, and 0 is never the
      first report (the remembered RPM starts at 0). */
  lemma RunFromBootReportsChangesOnly(events: seq<Event>)
    requires Run(Boot, events).Ran?
    ensures var reps := Run(Boot, events).reports;
            && (reps != [] ==> reps[0] != 0)
            && (forall i :: 0 < i < |reps| ==> reps[i - 1] != reps[i])
  {
    RunKeepsChangeLog(0, [], Boot, events);
    assert [] + Run(Boot, events).reports == Run(Boot, events).reports;
  }

  /** Only an edge writes the shared globals and only a tick writes the
      sampler statics. */
  lemma StepFrames(sys: System, ev: Event)
    requires Step(sys, ev).Ran?
    ensures ev.Edge? ==> Step(sys, ev).system.sampler == sys.sampler && Step(sys, ev).reports == []
    ensures ev.Tick? ==> Step(sys, ev).system.edge == sys.edge
  {
  }

  /** As written, `revSensePreviousMicros` keeps its initial 0 for ever, so
      the stored "period" is always the stored edge timestamp. */
  lemma {:induction false} RunKeepsPeriodEqualToTimestamp(sys: System, events: seq<Event>)
    requires sys.edge.revSensePreviousMicros == 0
    requires sys.edge.revTimeMicros == sys.edge.revSenseTimeMicros
    requires Run(sys, events).Ran?
    ensures Run(sys, events).system.edge.revSensePreviousMicros == 0
    ensures Run(sys, events).system.edge.revTimeMicros == Run(sys, events).system.edge.revSenseTimeMicros
    decreases |events|
  {
    if events != [] {
      RunKeepsPeriodEqualToTimestamp(Step(sys, events[0]).system, events[1..]);
    }
  }

  /** Every value in `events` is a tick that computes the same RPM `v` from
      the (fixed) edge state `e`. */
  predicate TicksComputing(events: seq<Event>, e: EdgeState, v: u32)
  {
    forall i :: 0 <= i < |events| ==>
      && events[i].Tick?
      && !DividesByZero(events[i].atMicros, e.revSenseTimeMicros, e.revTimeMicros)
      && NewRpm(events[i].atMicros, e.revSenseTimeMicros, e.revTimeMicros) == v
  }

  /** A stretch of ticks that all compute the same value `v` reports it at
      most once: never when `v` is already the remembered RPM, and exactly
      once when it is not and the first tick is due. */
  lemma {:induction false} RepeatedValueReportedOnce(sys: System, events: seq<Event>, v: u32)
    requires TicksComputing(events, sys.edge, v)
    ensures Run(sys, events).Ran?
    ensures var reps := Run(sys, events).reports;
            && (reps == [] || reps == [v])
            && (sys.sampler.previousRPM == v ==> reps == [])
            && (events != [] && TickDue(events[0].atMillis, sys.sampler.previousMillis) && sys.sampler.previousRPM != v
                ==> reps == [v])
            && (reps != [] ==> Run(sys, events).system.sampler.previousRPM == v)
            && (reps == [] ==> Run(sys, events).system.sampler.previousRPM == sys.sampler.previousRPM)
    decreases |events|
  {
    if events != [] {
      var step := Step(sys, events[0]);
      assert step.Ran? && step.system.edge == sys.edge;
      assert TicksComputing(events[1..], step.system.edge, v) by {
        forall i | 0 <= i < |events[1..]|
          ensures events[1..][i] == events[i + 1]
        {
        }
      }
      RepeatedValueReportedOnce(step.system, events[1..], v);
      if step.reports != [] {
        assert step.system.sampler.previousRPM == v;
      }
    }
  }

  /** A wheel with no edge for more than MaxRevTimeMicros at every tick
      reads 0 RPM: at most one report, and that report is 0. */
  lemma StoppedWheelReportsZeroOnce(sys: System, events: seq<Event>)
    requires forall i :: 0 <= i < |events| ==>
               events[i].Tick? && Stopped(events[i].atMicros, sys.edge.revSenseTimeMicros)
    ensures Run(sys, events).Ran?
    ensures Run(sys, events).reports == [] || Run(sys, events).reports == [0]
  {
    RepeatedValueReportedOnce(sys, events, 0);
  }

  /** However late the firing tick runs, the new deadline is the same: one
      interval after the old one. A tick at 1050 ms after a deadline at 0 ms
      moves the deadline to 1000 ms; the next tick is due from 2000 ms. */
  lemma LateTickKeepsSchedule(s: SamplerState, e: EdgeState, m1: u32, m2: u32, u: u32)
    requires TickDue(m1, s.previousMillis) && TickDue(m2, s.previousMillis)
    requires !DividesByZero(u, e.revSenseTimeMicros, e.revTimeMicros)
    ensures Poll(s, e, m1, u).sampler.previousMillis == Poll(s, e, m2, u).sampler.previousMillis
                                                    == NextDeadline(s.previousMillis)
  {
    SubThenAdd(Poll(s, e, m1, u).sampler.previousMillis, s.previousMillis);
    SubThenAdd(Poll(s, e, m2, u).sampler.previousMillis, s.previousMillis);
  }

  lemma LateTickExample(e: EdgeState, u: u32)
    requires !DividesByZero(u, e.revSenseTimeMicros, e.revTimeMicros)
    ensures Poll(SamplerState(0, 0), e, 1050, u).sampler.previousMillis == 1000
    ensures !TickDue(1999, 1000) && TickDue(2000, 1000)
  {
    LateTickKeepsSchedule(SamplerState(0, 0), e, 1050, 1000, u);
  }

  // ---------------------------------------------------------------------
  // Finding 1: the period is never a period.

  /** The evidently intended handler: it also remembers the edge time for
      the next call. */
  function CorrectedCapture(e: EdgeState, now: u32): (r: EdgeState)
    ensures r.revSenseTimeMicros == r.revSensePreviousMicros == now
    ensures Add(e.revSensePreviousMicros, r.revTimeMicros) == now
  {
    SubThenAdd(now, e.revSensePreviousMicros);
    EdgeState(now, Sub(now, e.revSensePreviousMicros), now)
  }

  /** With the corrected handler, after two edges the stored period is the
      time between them, even across a wrap of `micros()`, and a tick that
      follows within the timeout computes the RPM of that period. */
  lemma CorrectedPeriodIsInterEdgeTime(e: EdgeState, t1: nat, p: nat, tickMicros: u32)
    requires 0 < p < Modulus
    requires !Stopped(tickMicros, (t1 + p) % Modulus)
    ensures var e2 := CorrectedCapture(CorrectedCapture(e, t1 % Modulus), (t1 + p) % Modulus);
            && e2.revTimeMicros == p
            && NewRpm(tickMicros, e2.revSenseTimeMicros, e2.revTimeMicros) == RpmOf(p)
  {
    ElapsedAcrossWrap(t1, p);
  }

  /** As written, two edges 500 000 µs apart (a wheel turning at 120 RPM)
      followed by a tick 100 000 µs later give 40 RPM: the division uses the
      absolute timestamp 1 500 000 µs. The corrected handler gives 120. */
  lemma AsWrittenMisreadsPeriod()
    ensures var e2 := Capture(Capture(InitialEdge, 1000000), 1500000);
            && e2.revTimeMicros == 1500000
            && NewRpm(1600000, e2.revSenseTimeMicros, e2.revTimeMicros) == 40
    ensures var c2 := CorrectedCapture(CorrectedCapture(InitialEdge, 1000000), 1500000);
            && c2.revTimeMicros == 500000
            && NewRpm(1600000, c2.revSenseTimeMicros, c2.revTimeMicros) == 120
  {
  }

  // ---------------------------------------------------------------------
  // Finding 2: division by zero before the first edge.

  /** As written, while no edge has been seen the snapshot is the initial
      (0, 0), so any due tick whose `micros()` reads at most MaxRevTimeMicros
      divides by zero: in the first two seconds after power-on and again for
      two seconds after each wrap of `micros()`, whatever the sampler state.
      An edge at exactly `micros() == 0` leaves the snapshot at (0, 0) too. */
  lemma StartupTickDividesByZero(s: SamplerState, currentMillis: u32, nowMicros: u32)
    requires TickDue(currentMillis, s.previousMillis) && nowMicros <= MaxRevTimeMicros
    ensures Poll(s, InitialEdge, currentMillis, nowMicros) == DivisionByZero
    ensures Capture(InitialEdge, 0) == InitialEdge
    ensures Run(System(InitialEdge, s), [Tick(currentMillis, nowMicros)]) == Crashed
  {
  }

  /** The first loop pass at 1000 ms, 1 000 000 µs after power-on and with
      no edge yet, is such a tick. */
  lemma FirstTickCrashesWithoutEdge()
    ensures Run(Boot, [Tick(1000, 1000000)]) == Crashed
  {
    StartupTickDividesByZero(InitialSampler, 1000, 1000000);
  }

  /** With the corrected rule GuardedRpm a zero period reads as 0 RPM, where
      the rule as written divides by zero unless the wheel counts as stopped. */
  lemma GuardedRpmNeverFaults(e: EdgeState, nowMicros: u32)
    requires e.revTimeMicros == 0
    ensures GuardedRpm(nowMicros, e.revSenseTimeMicros, e.revTimeMicros) == 0
    ensures !Stopped(nowMicros, e.revSenseTimeMicros) ==> DividesByZero(nowMicros, e.revSenseTimeMicros, e.revTimeMicros)
  {
  }
}
