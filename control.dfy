/** The discipline loop: the four modes (the frequency-locked start mode and three
    phase-locked modes of growing time constant), the moving averages of phase and
    frequency error, the proportional-integral step that computes the DAC value, and
    the transitions between modes. `double` arithmetic is modelled on exact reals.

    The pure functions over `Loop` state what one step does; `Controller` holds the
    same variables as fields and its methods are proved to follow those functions. */
module Control {
  import opened Bytes
  import Pps
  import Tuning

  const MODE_START: nat := 0
  const MODE_FAST: nat := 1
  const MODE_MED: nat := 2
  const MODE_SLOW: nat := 3

  const TC_FAST: nat := 100
  const TC_MED: nat := 1800
  const TC_SLOW: nat := 7200

  /** `GAIN` is `1466 >> BIT_REDUCE` with `BIT_REDUCE` 2. */
  const GAIN: real := 366.0
  const START_GAIN: real := GAIN / 100.0
  const DAMPING: real := 1.75
  const QE_COMPENSATION: real := 1.5
  const PHASE_ADC_MIDPOINT: int := 1024

  /** `1000000000.0 / F_CPU`: nanoseconds per CPU cycle. */
  const NS_PER_CYCLE: real := 1000000000.0 / (Pps.F_CPU as real)

  /** `mode_to_tc`: the loop time constant, in seconds, of each mode; 0 for no mode. */
  function ModeToTc(mode: nat): (tc: nat)
    ensures mode <= MODE_SLOW ==> tc >= TC_FAST && tc % 100 == 0
    ensures mode > MODE_SLOW ==> tc == 0
  {
    if mode == MODE_START || mode == MODE_FAST then TC_FAST
    else if mode == MODE_MED then TC_MED
    else if mode == MODE_SLOW then TC_SLOW
    else 0
  }

  /** `fabs`. */
  function RealAbs(x: real): real
  {
    if x < 0.0 then -x else x
  }

  /** A `double` to integer conversion: truncation toward zero. */
  function Trunc(x: real): (t: int)
    ensures x >= 0.0 ==> 0 <= t && t as real <= x < t as real + 1.0
    ensures x < 0.0 ==> t <= 0 && t as real - 1.0 < x <= t as real
  {
    if x >= 0.0 then x.Floor else -((-x).Floor)
  }

  const LONG_MIN: int32 := -0x8000_0000
  const LONG_MAX: int32 := 0x7fff_ffff

  /** `(long)x`: truncation toward zero, saturating outside the range of `long`. */
  function ToLong(x: real): (v: int32)
    ensures LONG_MIN as real < x + 1.0 && x < LONG_MAX as real + 1.0 ==> v == Trunc(x)
    ensures x >= LONG_MAX as real + 1.0 ==> v == LONG_MAX
    ensures x <= LONG_MIN as real - 1.0 ==> v == LONG_MIN
  {
    var t := Trunc(x);
    if t > LONG_MAX then LONG_MAX else if t < LONG_MIN then LONG_MIN else t
  }

  /** The phase detector's part of the phase error, on the 16-bit `int`: the
      `unsigned int` ADC result read as signed (the converter runs in signed mode), taken
      from the midpoint and shifted right once (an arithmetic shift, so rounding toward
      minus infinity, as `/` by 2 does here). */
  function AdcPhase(adc: uint16): int16
  {
    Signed16(Wrap16(PHASE_ADC_MIDPOINT - Signed16(adc))) / 2
  }

  /** The phase error of one second in nanoseconds: the ADC part plus the receiver's
      quantization error scaled by QE_COMPENSATION and converted by `(int)(x + 0.5)`,
      added on the 16-bit `int`. */
  function PhaseError(adc: uint16, ppsErr: real): int16
  {
    Signed16(Wrap16(AdcPhase(adc) + Trunc(QE_COMPENSATION * ppsErr + 0.5)))
  }

  /** Within the converter's signed 12-bit range no 16-bit sum wraps: each ADC count
      below the midpoint is half a nanosecond (rounded down), a raw result of 0xFFFB is
      -5 counts and gives 514 ns, and a quantization error of up to 20000 ns in
      magnitude is added exactly. */
  lemma PhaseErrorValue(adc: uint16, ppsErr: real)
    requires -2048 <= Signed16(adc) < 2048 && RealAbs(ppsErr) <= 20000.0
    ensures 2 * AdcPhase(adc) <= PHASE_ADC_MIDPOINT - Signed16(adc) <= 2 * AdcPhase(adc) + 1
    ensures PhaseError(adc, ppsErr) == AdcPhase(adc) + Trunc(QE_COMPENSATION * ppsErr + 0.5)
    ensures AdcPhase(0xFFFB) == 514 && AdcPhase(PHASE_ADC_MIDPOINT) == 0
  {
    var d := PHASE_ADC_MIDPOINT - Signed16(adc);
    assert Signed16(Wrap16(d)) == d;
    var q := Trunc(QE_COMPENSATION * ppsErr + 0.5);
    assert -30000 <= q <= 30001;
    assert Signed16(Wrap16(AdcPhase(adc) + q)) == AdcPhase(adc) + q;
    assert Signed16(0xFFFB) == -5 && Wrap16(1029) == 1029;
  }

  /** The quantization correction `(int)(1.5 * e + 0.5)` rounds to the nearest integer
      when the correction is not negative, but a negative one is only brought within 1.5
      of it: -1.35 ns becomes 0, not -1. */
  lemma QeCorrection(ppsErr: real)
    ensures ppsErr >= 0.0 ==> RealAbs(Trunc(QE_COMPENSATION * ppsErr + 0.5) as real - QE_COMPENSATION * ppsErr) <= 0.5
    ensures RealAbs(Trunc(QE_COMPENSATION * ppsErr + 0.5) as real - QE_COMPENSATION * ppsErr) < 1.5
    ensures PhaseError(PHASE_ADC_MIDPOINT, -0.9) == 0
  {
    var x := QE_COMPENSATION * ppsErr + 0.5;
    if x >= 0.0 {
      assert 0.0 <= x - Trunc(x) as real < 1.0;
    } else {
      assert 0.0 <= Trunc(x) as real - x < 1.0;
    }
    assert Trunc(QE_COMPENSATION * -0.9 + 0.5) == 0;
  }

  /** The discipline loop's variables: `mode`, `exit_timer`, `enter_timer`, `iTerm`,
      `trim_value`, `average_phase_error` and `average_pps_error`. */
  datatype Loop = Loop(mode: nat, exitTimer: nat, enterTimer: nat, iTerm: real,
                       trimValue: real, avgPhaseError: real, avgPpsError: real)

  /** What every transition keeps: a valid mode, and timers far below the range of the
      16-bit `unsigned int` that holds them, so their increments never wrap. */
  predicate Inv(s: Loop)
  {
    s.mode <= MODE_SLOW && s.exitTimer < 800 && s.enterTimer <= 300
  }

  /** The state after `reset_pll` at power-on (all globals start at zero). */
  const INITIAL: Loop := Loop(MODE_START, 0, 0, 0.0, 0.0, 0.0, 0.0)

  /** The time constant of the current mode as a `double`. */
  function Tc(s: Loop): (tc: real)
    requires Inv(s)
    ensures tc >= TC_FAST as real
  {
    ModeToTc(s.mode) as real
  }

  /** The frequency the loop holds when the phase error is zero: the trim value in the
      start mode, and the trim value less the integral term's share in the others. */
  function Setpoint(s: Loop): real
    requires Inv(s)
  {
    if s.mode == MODE_START then s.trimValue else s.trimValue - s.iTerm / Tc(s)
  }

  /** `reset_pll`: back to the start mode, with the integral term's last correction
      folded into the trim value, and every average and the integral cleared. */
  function ResetPll(s: Loop): (r: Loop)
    requires Inv(s)
    ensures Inv(r) && r.mode == MODE_START && r.exitTimer == 0 && r.enterTimer == s.enterTimer
    ensures r.iTerm == 0.0 && r.avgPhaseError == 0.0 && r.avgPpsError == 0.0
    ensures Setpoint(r) == Setpoint(s)
  {
    var trim := if s.mode != MODE_START then s.trimValue - s.iTerm / Tc(s) else s.trimValue;
    Loop(MODE_START, 0, s.enterTimer, 0.0, trim, 0.0, 0.0)
  }

  /** `downgrade_mode`: one mode down, with a hold-off of 100 seconds per old mode
      before the next downgrade, and the integral term rescaled to the new time
      constant so that the setpoint does not jump (unless the new mode is the start
      mode, whose setpoint is the bare trim value). */
  function Downgrade(s: Loop): (r: Loop)
    requires Inv(s) && s.mode >= MODE_FAST
    ensures Inv(r) && r.mode == s.mode - 1 && r.enterTimer == 100 * s.mode
    ensures r.exitTimer == s.exitTimer && r.trimValue == s.trimValue
    ensures r.avgPhaseError == s.avgPhaseError && r.avgPpsError == s.avgPpsError
    ensures r.mode >= MODE_FAST ==> Setpoint(r) == Setpoint(s)
    ensures r.mode == MODE_START ==> r.iTerm == s.iTerm
  {
    var m := s.mode - 1;
    var ratio := (ModeToTc(m) as real) / (ModeToTc(m + 1) as real);
    s.(enterTimer := 100 * s.mode, mode := m, iTerm := s.iTerm * ratio)
  }

  /** `filter_time`: a tenth of the time constant. */
  function FilterTime(s: Loop): (ft: nat)
    requires Inv(s)
    ensures ft >= 10
  {
    ModeToTc(s.mode) / 10
  }

  /** The per-second update of the two averages: each moves a `1/filter_time` part of
      the way toward this second's value; the cycle error is first spread over the
      seconds it accumulated in. */
  function Filtered(s: Loop, phaseError: int, intracycle: int, seconds: nat): (r: Loop)
    requires Inv(s)
    ensures Inv(r) && r.mode == s.mode && r.exitTimer == s.exitTimer && r.enterTimer == s.enterTimer
    ensures r.iTerm == s.iTerm && r.trimValue == s.trimValue
    ensures r.avgPhaseError == s.avgPhaseError + (phaseError as real - s.avgPhaseError) / FilterTime(s) as real
    ensures r.avgPpsError ==
      s.avgPpsError + (intracycle as real / (seconds + 1) as real - s.avgPpsError) / FilterTime(s) as real
  {
    var ft := FilterTime(s);
    var ape := s.avgPhaseError - s.avgPhaseError / ft as real + phaseError as real / ft as real;
    var ppe := s.avgPpsError - s.avgPpsError / ft as real
               + intracycle as real / ((seconds + 1) * ft) as real;
    DivProduct(intracycle as real, (seconds + 1) as real, ft as real);
    s.(avgPhaseError := ape, avgPpsError := ppe)
  }

  lemma DivProduct(x: real, a: real, b: real)
    requires a > 0.0 && b > 0.0
    ensures x / (a * b) == (x / a) / b
  {
    var q := x / a;
    assert q * a == x;
    assert (q / b) * (a * b) == q * a;
  }

  /** A steady input is a fixed point of the averages. */
  lemma FilterSteady(s: Loop, phaseError: int, intracycle: int, seconds: nat)
    requires Inv(s)
    requires s.avgPhaseError == phaseError as real
    requires s.avgPpsError == intracycle as real / (seconds + 1) as real
    ensures Filtered(s, phaseError, intracycle, seconds) == s
  {
  }

  /** What one step does besides the new state: the DAC value it writes, if any. */
  datatype Step = Step(next: Loop, dac: Option<int32>)

  /** The start mode's exit rule, decided on the already incremented exit timer: the
      average frequency error within 0.25 cycles per second (about 8 ppb at 30 MHz) for
      a minute with the phase within 20 ns, or for ten minutes regardless of the
      phase. */
  predicate StartExitDue(a: Loop)
  {
    && RealAbs(a.avgPpsError) <= 0.25
    && ((a.exitTimer + 1 >= 60 && RealAbs(a.avgPhaseError) <= 20.0) || a.exitTimer + 1 >= 600)
  }

  /** A start-mode second: the trim value moves against the frequency error, the trim
      value is written to the DAC, and the exit timer counts seconds of small frequency
      error. */
  function StartStep(a: Loop): (r: Step)
    requires Inv(a) && a.mode == MODE_START
    ensures Inv(r.next)
    ensures r.next.mode == (if StartExitDue(a) then MODE_FAST else MODE_START)
    ensures r.next.exitTimer ==
      (if StartExitDue(a) || RealAbs(a.avgPpsError) > 0.25 then 0 else a.exitTimer + 1)
    ensures r.next.trimValue == a.trimValue - NS_PER_CYCLE * START_GAIN * a.avgPpsError
    ensures a.avgPpsError > 0.0 ==> r.next.trimValue < a.trimValue
    ensures a.avgPpsError < 0.0 ==> r.next.trimValue > a.trimValue
    ensures r.dac == Some(ToLong(r.next.trimValue))
    ensures r.next.iTerm == a.iTerm && r.next.enterTimer == a.enterTimer
    ensures r.next.avgPhaseError == a.avgPhaseError && r.next.avgPpsError == a.avgPpsError
  {
    var adj := NS_PER_CYCLE * a.avgPpsError * START_GAIN;
    var b := a.(trimValue := a.trimValue - adj);
    var n :=
      if RealAbs(a.avgPpsError) <= 0.25 then
        var et := a.exitTimer + 1;
        if (et >= 60 && RealAbs(a.avgPhaseError) <= 20.0) || et >= 600 then
          b.(mode := MODE_FAST, exitTimer := 0)
        else
          b.(exitTimer := et)
      else
        b.(exitTimer := 0);
    Step(n, Some(ToLong(b.trimValue)))
  }

  /** The promotion rule, decided on the already incremented exit timer: the phase
      error within 5 ns for 200 seconds times the square of the mode. */
  predicate PromotionDue(s: Loop)
  {
    s.mode != MODE_SLOW && RealAbs(s.avgPhaseError) <= 5.0 && s.exitTimer + 1 >= 200 * s.mode * s.mode
  }

  /** The test for an upgrade in a phase-locked mode: count the seconds of small phase
      error, and after enough of them go one mode up, rescaling the integral term. */
  function Promote(s: Loop): (r: Loop)
    requires Inv(s) && s.mode != MODE_START
    ensures Inv(r) && r.mode != MODE_START
    ensures r.mode == (if PromotionDue(s) then s.mode + 1 else s.mode)
    ensures r.exitTimer ==
      (if s.mode == MODE_SLOW then s.exitTimer
       else if PromotionDue(s) || RealAbs(s.avgPhaseError) > 5.0 then 0
       else s.exitTimer + 1)
    ensures Setpoint(r) == Setpoint(s)
    ensures r.enterTimer == s.enterTimer && r.trimValue == s.trimValue
    ensures r.avgPhaseError == s.avgPhaseError && r.avgPpsError == s.avgPpsError
  {
    if s.mode == MODE_SLOW then s
    else if RealAbs(s.avgPhaseError) <= 5.0 then
      var et := s.exitTimer + 1;
      if et >= 200 * s.mode * s.mode then
        var m := s.mode + 1;
        var ratio := (ModeToTc(m) as real) / (ModeToTc(m - 1) as real);
        s.(exitTimer := 0, mode := m, iTerm := s.iTerm * ratio)
      else
        s.(exitTimer := et)
    else
      s.(exitTimer := 0)
  }

  /** The downgrade rule: out of hold-off and the phase error at least 50 ns per mode. */
  predicate DemotionDue(s: Loop)
  {
    s.mode >= MODE_MED && s.enterTimer == 0 && RealAbs(s.avgPhaseError) >= 50.0 * s.mode as real
  }

  /** The test for a downgrade in the medium and slow modes: count the hold-off down,
      and after it downgrade on a large phase error. The fast mode is never downgraded
      here. */
  function Demote(s: Loop): (r: Loop)
    requires Inv(s) && s.mode != MODE_START
    ensures Inv(r) && r.mode != MODE_START
    ensures r.mode == (if DemotionDue(s) then s.mode - 1 else s.mode)
    ensures r.enterTimer ==
      (if DemotionDue(s) then 100 * s.mode
       else if s.mode >= MODE_MED && s.enterTimer > 0 then s.enterTimer - 1
       else s.enterTimer)
    ensures Setpoint(r) == Setpoint(s)
    ensures r.exitTimer == s.exitTimer && r.trimValue == s.trimValue
    ensures r.avgPhaseError == s.avgPhaseError && r.avgPpsError == s.avgPpsError
  {
    if s.mode == MODE_FAST then s
    else if s.enterTimer > 0 then s.(enterTimer := s.enterTimer - 1)
    else if RealAbs(s.avgPhaseError) >= 50.0 * s.mode as real then Downgrade(s)
    else s
  }

  /** The integral term's off-load: once it exceeds 1000 time constants it gives up
      that much, and the trim value takes it over as 1000 DAC units, so the setpoint
      is unchanged. */
  function Offload(s: Loop): (r: Loop)
    requires Inv(s) && s.mode != MODE_START
    ensures Inv(r) && r.mode == s.mode
    ensures Setpoint(r) == Setpoint(s)
    ensures RealAbs(s.iTerm) > 1000.0 * Tc(s) ==> RealAbs(r.iTerm) == RealAbs(s.iTerm) - 1000.0 * Tc(s)
    ensures RealAbs(s.iTerm) > 1000.0 * Tc(s) ==> (r.iTerm < 0.0 <==> s.iTerm < 0.0)
    ensures RealAbs(s.iTerm) > 1000.0 * Tc(s) ==>
      r.trimValue == s.trimValue - (if s.iTerm < 0.0 then -1000.0 else 1000.0)
    ensures RealAbs(s.iTerm) <= 1000.0 * Tc(s) ==> r == s
    ensures r.exitTimer == s.exitTimer && r.enterTimer == s.enterTimer
    ensures r.avgPhaseError == s.avgPhaseError && r.avgPpsError == s.avgPpsError
  {
    var modulo := 1000.0 * Tc(s);
    if RealAbs(s.iTerm) > modulo then
      var sign := if s.iTerm < 0.0 then -1 else 1;
      s.(iTerm := s.iTerm - sign as real * modulo, trimValue := s.trimValue - (sign * 1000) as real)
    else
      s
  }

  /** The proportional term of the phase error. */
  function PTerm(s: Loop): real
  {
    s.avgPhaseError * GAIN
  }

  /** The proportional-integral step: the integral term accumulates the proportional
      term over the damped time constant, the DAC is written with the setpoint less the
      proportional correction converted by `(long)(x + 0.5)` (the nearest integer when
      `x` is not negative, truncation toward zero of `x + 0.5` otherwise), and the
      integral term is then off-loaded. */
  function PllStep(d: Loop): (r: Step)
    requires Inv(d) && d.mode != MODE_START
    ensures Inv(r.next) && r.next.mode == d.mode
    ensures r.next.iTerm == d.iTerm + PTerm(d) / (Tc(d) * DAMPING) || RealAbs(r.next.iTerm) < RealAbs(d.iTerm + PTerm(d) / (Tc(d) * DAMPING))
    ensures Setpoint(r.next) == Setpoint(d) - PTerm(d) / (Tc(d) * Tc(d) * DAMPING)
    ensures r.dac == Some(ToLong(Setpoint(r.next) - PTerm(d) / Tc(d) + 0.5))
    ensures var j := d.iTerm + PTerm(d) / (Tc(d) * DAMPING);
      && (RealAbs(j) <= 1000.0 * Tc(d) ==> r.next.iTerm == j && r.next.trimValue == d.trimValue)
      && (RealAbs(j) > 1000.0 * Tc(d) ==>
            r.next.trimValue == d.trimValue - (if j < 0.0 then -1000.0 else 1000.0))
    ensures r.next.exitTimer == d.exitTimer && r.next.enterTimer == d.enterTimer
    ensures r.next.avgPhaseError == d.avgPhaseError && r.next.avgPpsError == d.avgPpsError
  {
    var i := Integrate(d);
    assert Setpoint(i) - PTerm(d) / Tc(d) == i.trimValue - (PTerm(d) + i.iTerm) / Tc(i);
    Step(Offload(i), Some(PllDac(i, PTerm(d))))
  }

  /** The integral term's accumulation of the proportional term over the damped time
      constant. */
  function Integrate(d: Loop): (i: Loop)
    requires Inv(d) && d.mode != MODE_START
    ensures Inv(i) && i.mode == d.mode && Tc(i) == Tc(d)
    ensures i.iTerm - d.iTerm == PTerm(d) / (Tc(d) * DAMPING)
    ensures Setpoint(i) == Setpoint(d) - PTerm(d) / (Tc(d) * Tc(d) * DAMPING)
    ensures i.trimValue == d.trimValue && i.exitTimer == d.exitTimer && i.enterTimer == d.enterTimer
    ensures i.avgPhaseError == d.avgPhaseError && i.avgPpsError == d.avgPpsError
  {
    d.(iTerm := d.iTerm + PTerm(d) / (Tc(d) * DAMPING))
  }

  /** The value written by the proportional-integral step, after the integration. */
  function PllDac(i: Loop, pTerm: real): int32
    requires Inv(i)
  {
    ToLong(i.trimValue - (pTerm + i.iTerm) / Tc(i) + 0.5)
  }

  /** One accepted second of the main loop: the averages are updated; the start mode
      runs its frequency-locked step; otherwise an average frequency error of 0.5 cycles
      per second (about 17 ppb) or more
      resets the loop, and if not, the promotion and demotion tests run in that order
      before the proportional-integral step. */
  function SecondStep(s: Loop, phaseError: int, intracycle: int, seconds: nat): (r: Step)
    requires Inv(s)
    ensures Inv(r.next)
  {
    var a := Filtered(s, phaseError, intracycle, seconds);
    if a.mode == MODE_START then StartStep(a)
    else if RealAbs(a.avgPpsError) >= 0.5 then Step(ResetPll(a), None)
    else PllStep(Demote(Promote(a)))
  }

  /** How the mode moves in one second: the start mode only exits to the fast mode; a
      phase-locked mode moves at most one mode up or down, or falls back to the start
      mode, and only on an average frequency error of 0.5 cycles per second or more; and
      a DAC value is written
      except on that reset. */
  lemma SecondModes(s: Loop, phaseError: int, intracycle: int, seconds: nat)
    requires Inv(s)
    ensures var a := Filtered(s, phaseError, intracycle, seconds);
      var r := SecondStep(s, phaseError, intracycle, seconds);
      && (s.mode == MODE_START ==> r.next.mode == (if StartExitDue(a) then MODE_FAST else MODE_START))
      && (s.mode != MODE_START && r.next.mode == MODE_START <==> s.mode != MODE_START && RealAbs(a.avgPpsError) >= 0.5)
      && (r.next.mode != MODE_START ==> s.mode - 1 <= r.next.mode <= s.mode + 1)
      && (r.dac.None? <==> s.mode != MODE_START && RealAbs(a.avgPpsError) >= 0.5)
  {
  }

  /** Promotion and demotion never both happen in one second: promotion needs a phase
      error of at most 5 ns, demotion one of at least 100 ns. Hence a phase error never
      takes the fast mode down: only a reset or the GPS losing its fix does. */
  lemma NoUpAndDown(s: Loop, phaseError: int, intracycle: int, seconds: nat)
    requires Inv(s)
    ensures var a := Filtered(s, phaseError, intracycle, seconds);
      a.mode != MODE_START ==> !(PromotionDue(a) && DemotionDue(Promote(a)))
    ensures var a := Filtered(s, phaseError, intracycle, seconds);
      var r := SecondStep(s, phaseError, intracycle, seconds);
      s.mode == MODE_FAST ==> (r.next.mode >= MODE_FAST <==> RealAbs(a.avgPpsError) < 0.5)
  {
  }

  /** The bounds the loop keeps: the integral term within 1000 time constants (the
      off-load's threshold) and the average phase error within the range of the 16-bit
      phase error it averages. */
  predicate Bounded(s: Loop)
  {
    Inv(s) && RealAbs(s.iTerm) <= 1000.0 * Tc(s) && RealAbs(s.avgPhaseError) <= 32768.0
  }

  /** The integral bound in terms of the integral term's share of the setpoint. */
  lemma ShareBound(x: real, t: real)
    requires t > 0.0
    ensures RealAbs(x) <= 1000.0 * t <==> RealAbs(x / t) <= 1000.0
  {
    var q := x / t;
    var a := RealAbs(q);
    assert x == q * t;
    assert RealAbs(x) == a * t by {
      if q < 0.0 {
        assert -x == (-q) * t;
      }
    }
    assert a * t - 1000.0 * t == (a - 1000.0) * t;
    if a <= 1000.0 {
      assert (a - 1000.0) * t <= 0.0;
    } else {
      assert (a - 1000.0) * t > 0.0;
    }
  }

  /** A change of mode that keeps the setpoint, the trim value and the averages keeps
      the integral term's share of the setpoint, and so the bounds. */
  lemma RescaleBounded(s: Loop, r: Loop)
    requires Bounded(s) && Inv(r) && s.mode != MODE_START && r.mode != MODE_START
    requires Setpoint(r) == Setpoint(s) && r.trimValue == s.trimValue
    requires r.avgPhaseError == s.avgPhaseError
    ensures Bounded(r)
  {
    assert r.iTerm / Tc(r) == s.iTerm / Tc(s);
    ShareBound(s.iTerm, Tc(s));
    ShareBound(r.iTerm, Tc(r));
  }

  /** The average phase error moves part of the way toward a 16-bit phase error, so it
      stays within that range. */
  lemma FilteredBounded(s: Loop, phaseError: int, intracycle: int, seconds: nat)
    requires Bounded(s) && -32768 <= phaseError <= 32768
    ensures Bounded(Filtered(s, phaseError, intracycle, seconds))
  {
    if s.mode <= MODE_FAST {
      assert FilterTime(s) == 10;
    } else if s.mode == MODE_MED {
      assert FilterTime(s) == 180;
    } else {
      assert FilterTime(s) == 720;
    }
  }

  /** One integration adds at most 32768 * 366 / (100 * 1.75) < 68534 to the integral
      term, less than the 100000 of the smallest off-load. */
  lemma IntegrateGrowth(d: Loop)
    requires Bounded(d) && d.mode != MODE_START
    ensures RealAbs(Integrate(d).iTerm) <= 1000.0 * Tc(d) + 68534.0
  {
    var step := PTerm(d) / (Tc(d) * DAMPING);
    assert RealAbs(PTerm(d)) <= 32768.0 * GAIN;
    if d.mode == MODE_FAST {
      assert Tc(d) * DAMPING == 175.0;
    } else if d.mode == MODE_MED {
      assert Tc(d) * DAMPING == 3150.0;
    } else {
      assert Tc(d) * DAMPING == 12600.0;
    }
    assert RealAbs(step) <= 68534.0;
  }

  /** The proportional-integral step keeps the bounds: the off-load brings the grown
      integral term back within 1000 time constants. */
  lemma PllStepBounded(d: Loop)
    requires Bounded(d) && d.mode != MODE_START
    ensures Bounded(PllStep(d).next)
  {
    IntegrateGrowth(d);
    var i := Integrate(d);
    assert Tc(i) >= 100.0;
  }

  /** Every accepted second keeps the bounds, given a 16-bit phase error: however long
      the loop runs, the integral term never exceeds 1000 time constants. */
  lemma SecondStepBounded(s: Loop, phaseError: int, intracycle: int, seconds: nat)
    requires Bounded(s) && -32768 <= phaseError < 32768
    ensures Bounded(SecondStep(s, phaseError, intracycle, seconds).next)
  {
    FilteredBounded(s, phaseError, intracycle, seconds);
    var a := Filtered(s, phaseError, intracycle, seconds);
    if a.mode == MODE_START {
      assert Tc(StartStep(a).next) == Tc(a);
    } else if RealAbs(a.avgPpsError) < 0.5 {
      var p := Promote(a);
      RescaleBounded(a, p);
      var d := Demote(p);
      RescaleBounded(p, d);
      PllStepBounded(d);
    }
  }

  /** The GPS lock edge: when the fix is lost (a change from the last seen state, or
      the first state seen), a phase-locked mode goes one mode down. */
  function GpsEdge(s: Loop, last: Option<bool>, gpsLocked: bool): (r: Loop)
    requires Inv(s)
    ensures Inv(r)
    ensures r.mode == (if last != Some(gpsLocked) && !gpsLocked && s.mode > MODE_START then s.mode - 1 else s.mode)
    ensures last == Some(gpsLocked) || gpsLocked ==> r == s
    ensures r.mode == MODE_START && s.mode != MODE_START ==> s.mode == MODE_FAST && r.iTerm == s.iTerm
    ensures r.exitTimer == s.exitTimer
  {
    if last != Some(gpsLocked) && !gpsLocked && s.mode > MODE_START then Downgrade(s) else s
  }

  /** A fix loss keeps the exit timer, so the start mode it lands in may already count
      the fast mode's seconds of small phase error: with 199 of them, one quiet second
      of the start mode is enough to exit, not the minute its exit rule asks for. */
  lemma StartExitAfterFixLoss()
    ensures var g := GpsEdge(Loop(MODE_FAST, 199, 0, 0.0, 0.0, 0.0, 0.0), Some(true), false);
      && g.mode == MODE_START && g.exitTimer == 199
      && SecondStep(g, 0, 0, 0).next.mode == MODE_FAST
  {
    var g := GpsEdge(Loop(MODE_FAST, 199, 0, 0.0, 0.0, 0.0, 0.0), Some(true), false);
    var a := Filtered(g, 0, 0, 0);
    assert a.avgPpsError == 0.0 && a.avgPhaseError == 0.0 && a.exitTimer == 199;
    assert StartExitDue(a);
  }

  /** The oscillator lock edge: when the oscillator loses lock, the DAC is written with
      0 and the loop is reset. */
  function OscEdge(s: Loop, last: Option<bool>, oscLocked: bool): (r: Step)
    requires Inv(s)
    ensures Inv(r.next)
    ensures r.dac.Some? <==> last != Some(oscLocked) && !oscLocked
    ensures r.dac.Some? ==> r.dac.value == 0 && r.next == ResetPll(s)
    ensures r.dac.None? ==> r.next == s
  {
    if last != Some(oscLocked) && !oscLocked then Step(ResetPll(s), Some(0)) else Step(s, None)
  }

  /** The bounds hold at power-on and survive both lock edges: a fix loss rescales the
      integral term to the lower mode's time constant (from the fast mode it keeps it,
      at the same 100 seconds), and a lock loss clears it. */
  lemma EdgesBounded(s: Loop, lastGps: Option<bool>, gpsLocked: bool, lastOsc: Option<bool>, oscLocked: bool)
    requires Bounded(s)
    ensures Bounded(INITIAL)
    ensures Bounded(GpsEdge(s, lastGps, gpsLocked))
    ensures Bounded(OscEdge(s, lastOsc, oscLocked).next)
  {
    var r := GpsEdge(s, lastGps, gpsLocked);
    if r.mode != MODE_START && s.mode != MODE_START {
      RescaleBounded(s, r);
    } else if s.mode != MODE_START {
      assert Tc(r) == Tc(s);
    }
  }

  /** The bytes a DAC write (volatile) sends, given the last value written. */
  function Sent(last: int32, dac: Option<int32>): seq<byte>
  {
    if dac.None? then [] else Tuning.Emit(last, dac.value, false)
  }

  /** The last value written after an optional DAC write. */
  function LastAfter(last: int32, dac: Option<int32>): int32
  {
    if dac.None? then last else dac.value
  }

  /** The discipline loop's globals, and the oscillator it tunes. */
  class Controller {
    var mode: nat
    var exitTimer: nat
    var enterTimer: nat
    var iTerm: real
    var trimValue: real
    var avgPhaseError: real
    var avgPpsError: real
    var lastGpsLocked: Option<bool>
    var lastOscLocked: Option<bool>
    const osc: Tuning.TuningWriter

    function State(): Loop
      reads this
    {
      Loop(mode, exitTimer, enterTimer, iTerm, trimValue, avgPhaseError, avgPpsError)
    }

    /** Power-on: the start mode after `reset_pll`, no lock state seen yet, and no DAC
        value written. */
    constructor ()
      ensures State() == INITIAL && lastGpsLocked.None? && lastOscLocked.None?
      ensures fresh(osc) && osc.lastDacValue == Tuning.UNSET && osc.sent == []
    {
      mode := MODE_START;
      exitTimer := 0;
      enterTimer := 0;
      iTerm := 0.0;
      trimValue := 0.0;
      avgPhaseError := 0.0;
      avgPpsError := 0.0;
      lastGpsLocked := None;
      lastOscLocked := None;
      osc := new Tuning.TuningWriter();
    }

    method ResetLoop()
      requires Inv(State())
      modifies this
      ensures State() == ResetPll(old(State()))
      ensures lastGpsLocked == old(lastGpsLocked) && lastOscLocked == old(lastOscLocked)
    {
      if mode != MODE_START {
        trimValue := trimValue - iTerm / (ModeToTc(mode) as real);
      }
      iTerm := 0.0;
      avgPhaseError := 0.0;
      avgPpsError := 0.0;
      mode := MODE_START;
      exitTimer := 0;
    }

    method DowngradeMode()
      requires Inv(State()) && mode >= MODE_FAST
      modifies this
      ensures State() == Downgrade(old(State()))
      ensures lastGpsLocked == old(lastGpsLocked) && lastOscLocked == old(lastOscLocked)
    {
      enterTimer := 100 * mode;
      mode := mode - 1;
      var ratio := (ModeToTc(mode) as real) / (ModeToTc(mode + 1) as real);
      iTerm := iTerm * ratio;
    }

    /** The DAC write of the main loop (volatile). */
    method WriteDac(value: int32)
      modifies osc
      ensures osc.lastDacValue == value
      ensures osc.sent == old(osc.sent) + Tuning.Emit(old(osc.lastDacValue), value, false)
    {
      osc.WriteDacValue(value, false);
    }

    /** The lock edges at the top of the main loop, the GPS one first. */
    method CheckLocks(gpsLocked: bool, oscLocked: bool)
      requires Inv(State())
      modifies this, osc
      ensures var g := GpsEdge(old(State()), old(lastGpsLocked), gpsLocked);
        var o := OscEdge(g, old(lastOscLocked), oscLocked);
        && State() == o.next
        && osc.sent == old(osc.sent) + Sent(old(osc.lastDacValue), o.dac)
        && osc.lastDacValue == LastAfter(old(osc.lastDacValue), o.dac)
      ensures lastGpsLocked == Some(gpsLocked) && lastOscLocked == Some(oscLocked)
    {
      if lastGpsLocked != Some(gpsLocked) {
        lastGpsLocked := Some(gpsLocked);
        if !gpsLocked && mode > MODE_START {
          DowngradeMode();
        }
      }
      if lastOscLocked != Some(oscLocked) {
        lastOscLocked := Some(oscLocked);
        if !oscLocked {
          WriteDac(0);
          ResetLoop();
        }
      }
    }

    /** The button's non-volatile save of the trim value, honoured in the slow mode only. */
    method SaveTrim()
      modifies osc
      ensures mode == MODE_SLOW ==>
        osc.sent == old(osc.sent) + Tuning.Emit(old(osc.lastDacValue), ToLong(trimValue), true)
        && osc.lastDacValue == ToLong(trimValue)
      ensures mode != MODE_SLOW ==> osc.sent == old(osc.sent) && osc.lastDacValue == old(osc.lastDacValue)
    {
      if mode == MODE_SLOW {
        osc.WriteDacValue(ToLong(trimValue), true);
      }
    }

    /** The per-second step for an accepted PPS sample. */
    method Second(phaseError: int, intracycle: int, seconds: nat)
      requires Inv(State())
      modifies this, osc
      ensures var r := SecondStep(old(State()), phaseError, intracycle, seconds);
        && State() == r.next
        && osc.sent == old(osc.sent) + Sent(old(osc.lastDacValue), r.dac)
        && osc.lastDacValue == LastAfter(old(osc.lastDacValue), r.dac)
      ensures lastGpsLocked == old(lastGpsLocked) && lastOscLocked == old(lastOscLocked)
    {
      ghost var s := State();
      var timeConstant := ModeToTc(mode);
      var filterTime := timeConstant / 10;
      avgPhaseError := avgPhaseError - avgPhaseError / filterTime as real;
      avgPhaseError := avgPhaseError + phaseError as real / filterTime as real;
      avgPpsError := avgPpsError - avgPpsError / filterTime as real;
      avgPpsError := avgPpsError + intracycle as real / ((seconds + 1) * filterTime) as real;
      ghost var a := State();
      assert a == Filtered(s, phaseError, intracycle, seconds);

      if mode == MODE_START {
        StartSecond();
        return;
      }
      if RealAbs(avgPpsError) >= 0.5 {
        ResetLoop();
        return;
      }
      PromoteIfDue();
      DemoteIfDue();
      PllSecond();
    }

    method StartSecond()
      requires Inv(State()) && mode == MODE_START
      modifies this, osc
      ensures var r := StartStep(old(State()));
        && State() == r.next
        && osc.sent == old(osc.sent) + Sent(old(osc.lastDacValue), r.dac)
        && osc.lastDacValue == LastAfter(old(osc.lastDacValue), r.dac)
      ensures lastGpsLocked == old(lastGpsLocked) && lastOscLocked == old(lastOscLocked)
    {
      var adjVal := NS_PER_CYCLE * avgPpsError * START_GAIN;
      trimValue := trimValue - adjVal;
      WriteDac(ToLong(trimValue));
      if RealAbs(avgPpsError) <= 0.25 {
        exitTimer := exitTimer + 1;
        if (exitTimer >= 60 && RealAbs(avgPhaseError) <= 20.0) || exitTimer >= 600 {
          mode := MODE_FAST;
          exitTimer := 0;
        }
      } else {
        exitTimer := 0;
      }
    }

    method PromoteIfDue()
      requires Inv(State()) && mode != MODE_START
      modifies this
      ensures State() == Promote(old(State()))
      ensures lastGpsLocked == old(lastGpsLocked) && lastOscLocked == old(lastOscLocked)
    {
      if mode != MODE_SLOW {
        if RealAbs(avgPhaseError) <= 5.0 {
          exitTimer := exitTimer + 1;
          if exitTimer >= 200 * mode * mode {
            exitTimer := 0;
            mode := mode + 1;
            var ratio := (ModeToTc(mode) as real) / (ModeToTc(mode - 1) as real);
            iTerm := iTerm * ratio;
          }
        } else {
          exitTimer := 0;
        }
      }
    }

    method DemoteIfDue()
      requires Inv(State()) && mode != MODE_START
      modifies this
      ensures State() == Demote(old(State()))
      ensures lastGpsLocked == old(lastGpsLocked) && lastOscLocked == old(lastOscLocked)
    {
      if mode != MODE_FAST {
        if enterTimer > 0 {
          enterTimer := enterTimer - 1;
        } else if RealAbs(avgPhaseError) >= 50.0 * mode as real {
          DowngradeMode();
        }
      }
    }

    method PllSecond()
      requires Inv(State()) && mode != MODE_START
      modifies this, osc
      ensures var r := PllStep(old(State()));
        && State() == r.next
        && osc.sent == old(osc.sent) + Sent(old(osc.lastDacValue), r.dac)
        && osc.lastDacValue == LastAfter(old(osc.lastDacValue), r.dac)
      ensures lastGpsLocked == old(lastGpsLocked) && lastOscLocked == old(lastOscLocked)
    {
      var timeConstant, pTerm := IntegrateError();
      var adjVal := (pTerm + iTerm) / timeConstant;
      WriteDac(ToLong(trimValue - adjVal + 0.5));
      OffloadIntegral();
    }

    /** The first half of the step: the time constant and proportional term, and the
        integral term's accumulation. */
    method IntegrateError() returns (timeConstant: real, pTerm: real)
      requires Inv(State()) && mode != MODE_START
      modifies this
      ensures State() == Integrate(old(State()))
      ensures timeConstant == Tc(State()) && pTerm == PTerm(old(State()))
      ensures lastGpsLocked == old(lastGpsLocked) && lastOscLocked == old(lastOscLocked)
    {
      timeConstant := ModeToTc(mode) as real;
      pTerm := avgPhaseError * GAIN;
      iTerm := iTerm + pTerm / (timeConstant * DAMPING);
    }

    method OffloadIntegral()
      requires Inv(State()) && mode != MODE_START
      modifies this
      ensures State() == Offload(old(State()))
      ensures lastGpsLocked == old(lastGpsLocked) && lastOscLocked == old(lastOscLocked)
    {
      var iTermModulo := 1000.0 * ModeToTc(mode) as real;
      if RealAbs(iTerm) > iTermModulo {
        var sign := if iTerm < 0.0 then -1 else 1;
        iTerm := iTerm - sign as real * iTermModulo;
        trimValue := trimValue - (sign * 1000) as real;
      }
    }
  }
}
