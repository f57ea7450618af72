/** The sampler's arithmetic: the configuration constants of
    src/main.cpp, the phase-locked tick gate, the "stopped" rule and the
    RPM division, as pure functions of the clock readings and the snapshot. */
module Rate {
  import opened Wrap32

  /** Report interval: once per second. */
  const DisplayIntervalMillis: u32 := 1000
  /** More than two seconds per revolution counts as 0 RPM. */
  const MaxRevTimeMicros: u32 := 2000000
  /** Microseconds in a minute. */
  const SixtySecondsInMicros: u32 := 60000000

  /** The gate of `loop`: at least one interval has elapsed since the
      current deadline, measured with wrapping `millis` arithmetic. */
  predicate TickDue(currentMillis: u32, previousMillis: u32)
  {
    Sub(currentMillis, previousMillis) >= DisplayIntervalMillis
  }

  /** The deadline a firing tick moves to: one interval after the previous
      deadline, whatever the time of the tick. */
  function NextDeadline(previousMillis: u32): (r: u32)
    ensures Sub(r, previousMillis) == DisplayIntervalMillis
  {
    Add(previousMillis, DisplayIntervalMillis)
  }

  /** The wheel counts as stopped when strictly more than MaxRevTimeMicros
      have passed since the last edge. */
  predicate Stopped(nowMicros: u32, revSenseTimeMicros: u32)
  {
    Sub(nowMicros, revSenseTimeMicros) > MaxRevTimeMicros
  }

  /** The division of the not-stopped branch would run with a zero divisor. */
  predicate DividesByZero(nowMicros: u32, revSenseTimeMicros: u32, revTimeMicros: u32)
  {
    !Stopped(nowMicros, revSenseTimeMicros) && revTimeMicros == 0
  }

  /** `SixtySecondsInMicros / revTimeMicros` with C's truncating unsigned
      division: the largest whole number of revolutions of that length that
      fit in a minute. The result fits in an `unsigned`. */
  function RpmOf(revTimeMicros: u32): (r: u32)
    requires revTimeMicros != 0
    ensures r * revTimeMicros <= SixtySecondsInMicros < (r + 1) * revTimeMicros
    ensures r <= SixtySecondsInMicros
  {
    var q := SixtySecondsInMicros / revTimeMicros;
    assert q * 1 <= q * revTimeMicros by { MulLeftMono(q, 1, revTimeMicros); }
    q
  }

  /** The value `newRPM` that `loop` computes from the clock reading and the
      snapshot, as written: zero when stopped, otherwise the truncated
      quotient. The source divides without a guard, so the zero divisor is
      excluded here and is modelled as a fault by the callers. */
  function NewRpm(nowMicros: u32, revSenseTimeMicros: u32, revTimeMicros: u32): (r: u32)
    requires !DividesByZero(nowMicros, revSenseTimeMicros, revTimeMicros)
    ensures Stopped(nowMicros, revSenseTimeMicros) ==> r == 0
    ensures !Stopped(nowMicros, revSenseTimeMicros) ==>
              r * revTimeMicros <= SixtySecondsInMicros < (r + 1) * revTimeMicros
  {
    if Sub(nowMicros, revSenseTimeMicros) > MaxRevTimeMicros then 0
    else RpmOf(revTimeMicros)
  }

  /** Corrected RPM rule: a zero period (no edge yet, or two edges at the
      same microsecond) gives 0 RPM instead of a division. It agrees with
      NewRpm wherever NewRpm is defined. */
  function GuardedRpm(nowMicros: u32, revSenseTimeMicros: u32, revTimeMicros: u32): (r: u32)
    ensures !DividesByZero(nowMicros, revSenseTimeMicros, revTimeMicros) ==>
              r == NewRpm(nowMicros, revSenseTimeMicros, revTimeMicros)
    ensures r != 0 ==> !Stopped(nowMicros, revSenseTimeMicros) && revTimeMicros != 0
    ensures revTimeMicros == 0 ==> r == 0
  {
    if Stopped(nowMicros, revSenseTimeMicros) || revTimeMicros == 0 then 0
    else RpmOf(revTimeMicros)
  }

  /** A longer revolution never gives a larger RPM. */
  lemma RpmOfAntitone(p: u32, q: u32)
    requires 0 < p <= q
    ensures RpmOf(q) <= RpmOf(p)
  {
    var a, b := RpmOf(p), RpmOf(q);
    assert b * p <= b * q by { MulLeftMono(b, p, q); }
    assert b * p < (a + 1) * p;
    if a + 1 <= b {
      MulLeftMono(p, a + 1, b);
      assert false;
    }
  }

  lemma MulLeftMono(k: nat, x: int, y: int)
    requires x <= y
    ensures k * x <= k * y
  {
  }

  /** The "stopped" rule decides on the true time since the last edge, even
      when the microsecond counter wrapped (about every 71.6 minutes) in
      between: with `d` the true gap, less than 2^32 µs, the wheel counts as
      stopped exactly when `d` exceeds MaxRevTimeMicros. */
  lemma StoppedAcrossWrap(tEdge: nat, d: nat)
    requires d < Modulus
    ensures Stopped((tEdge + d) % Modulus, tEdge % Modulus) <==> d > MaxRevTimeMicros
  {
    ElapsedAcrossWrap(tEdge, d);
  }

  /** Likewise the tick gate across a wrap of the millisecond counter
      (about every 49.7 days). */
  lemma TickDueAcrossWrap(tDeadline: nat, d: nat)
    requires d < Modulus
    ensures TickDue((tDeadline + d) % Modulus, tDeadline % Modulus) <==> d >= DisplayIntervalMillis
  {
    ElapsedAcrossWrap(tDeadline, d);
  }

  /** The boundary of the stop rule is strict: a gap of exactly
      MaxRevTimeMicros still computes from the period, one more microsecond
      gives 0 RPM. */
  lemma StopBoundaryIsStrict(revSenseTimeMicros: u32)
    ensures !Stopped(Add(revSenseTimeMicros, MaxRevTimeMicros), revSenseTimeMicros)
    ensures Stopped(Add(revSenseTimeMicros, MaxRevTimeMicros + 1), revSenseTimeMicros)
  {
    AddThenSub(revSenseTimeMicros, MaxRevTimeMicros);
    AddThenSub(revSenseTimeMicros, MaxRevTimeMicros + 1);
  }

  /** Iterating NextDeadline `j` times from `previousMillis`. */
  function Deadline(previousMillis: u32, j: nat): u32
  {
    if j == 0 then previousMillis else NextDeadline(Deadline(previousMillis, j - 1))
  }

  /** The schedule never drifts: after `j` firing ticks the deadline is
      exactly `j` intervals later, so the time still owed to the schedule
      shrinks by exactly `j` intervals, however late the ticks ran. */
  lemma {:induction false} DeadlineAdvancesByIntervals(previousMillis: u32, currentMillis: u32, j: nat)
    requires j * DisplayIntervalMillis <= Sub(currentMillis, previousMillis)
    ensures Sub(currentMillis, Deadline(previousMillis, j)) ==
              Sub(currentMillis, previousMillis) - j * DisplayIntervalMillis
  {
    if j > 0 {
      DeadlineAdvancesByIntervals(previousMillis, currentMillis, j - 1);
      var d := Deadline(previousMillis, j - 1);
      var e := Sub(currentMillis, d);
      assert e >= DisplayIntervalMillis;
      SubThenAdd(currentMillis, d);
      assert Sub(currentMillis, NextDeadline(d)) == e - DisplayIntervalMillis;
    }
  }

  /** A loop that was held up by `k` whole intervals (plus a remainder)
      catches up: polled at one fixed time it fires `k` more times and then
      stops firing. */
  lemma CatchUpFiresExactly(previousMillis: u32, currentMillis: u32, k: nat)
    requires k * DisplayIntervalMillis <= Sub(currentMillis, previousMillis) < (k + 1) * DisplayIntervalMillis
    ensures forall j :: 0 <= j < k ==> TickDue(currentMillis, Deadline(previousMillis, j))
    ensures !TickDue(currentMillis, Deadline(previousMillis, k))
  {
    forall j | 0 <= j < k
      ensures TickDue(currentMillis, Deadline(previousMillis, j))
    {
      DeadlineAdvancesByIntervals(previousMillis, currentMillis, j);
    }
    DeadlineAdvancesByIntervals(previousMillis, currentMillis, k);
  }
}
