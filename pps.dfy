/** The PPS interval: the capture interrupt publishes the number of CPU cycles between
    two PPS edges as an `unsigned long` difference, and the main loop splits the
    difference from one second into whole missed seconds and a cycle error within the
    second, rejecting samples whose error exceeds F_CPU / 10000 cycles per second
    (100 ppm). All of it is 32-bit C arithmetic: `F_CPU` is an `unsigned long`
    constant, so the sums are taken modulo 2^32 and reinterpreted as `long` where the
    code assigns them to one. The `long` subtraction of the error within the second
    overflows for spans from 72.5 seconds on, which C leaves undefined; it is wrapped
    here as the AVR does. */
module Pps {
  import opened Bytes
  import Receiver

  const F_CPU: nat := 30_000_000

  /** The plausibility bound: an error of more than this many cycles per second. */
  const MAX_ERROR: nat := F_CPU / 10000

  function Abs(x: int): nat { if x < 0 then -x else x }

  /** `timer_val - last_timer_val` on `unsigned long`. */
  function TimeSpan(last: uint32, now: uint32): uint32
  {
    Wrap(now - last)
  }

  /** `long pps_cycle_delta = irq_time_span - F_CPU`. */
  function CycleDelta(span: uint32): int32
  {
    Signed32(Wrap(span - F_CPU))
  }

  /** `unsigned long seconds_delta = (pps_cycle_delta + F_CPU/2) / F_CPU`. */
  function SecondsDelta(span: uint32): uint32
  {
    Wrap(CycleDelta(span) + F_CPU / 2) / F_CPU
  }

  /** `long intracycle_delta = pps_cycle_delta - ((long)(seconds_delta * F_CPU))`. */
  function IntracycleDelta(span: uint32): int32
  {
    Signed32(Wrap(CycleDelta(span) - Signed32(Wrap(SecondsDelta(span) * F_CPU))))
  }

  /** `labs(intracycle_delta) / (seconds_delta + 1) > (F_CPU / 10000)`. */
  predicate Implausible(span: uint32)
  {
    Abs(IntracycleDelta(span)) / (SecondsDelta(span) + 1) > MAX_ERROR
  }

  /** The value the rounding divides: the span less half a second, modulo 2^32. */
  function Shifted(span: uint32): uint32
  {
    Wrap(span - F_CPU / 2)
  }

  /** Reduction modulo 2^32 with a known quotient. */
  lemma WrapBy(x: int, k: int)
    requires 0 <= x - k * TWO32 < TWO32
    ensures Wrap(x) == x - k * TWO32
  {
  }

  /** Division by F_CPU with a known quotient. */
  lemma DivBy(u: int, k: int)
    requires k * F_CPU <= u < (k + 1) * F_CPU
    ensures u / F_CPU == k && u % F_CPU == u - k * F_CPU
  {
  }

  /** The `long` cycle delta is the true difference from one second, or that less
      2^32 when the span is 2^31 or more cycles beyond one second. */
  lemma CycleDeltaValue(span: uint32)
    ensures CycleDelta(span) == if span - F_CPU < 0x8000_0000 then span - F_CPU else span - F_CPU - TWO32
  {
    if span >= F_CPU {
      WrapBy(span - F_CPU, 0);
    } else {
      WrapBy(span - F_CPU, -1);
    }
  }

  lemma ShiftedValue(span: uint32)
    ensures Wrap(CycleDelta(span) + F_CPU / 2) == Shifted(span)
    ensures Shifted(span) == if span >= F_CPU / 2 then span - F_CPU / 2 else span - F_CPU / 2 + TWO32
  {
    CycleDeltaValue(span);
    if span >= F_CPU / 2 {
      WrapBy(span - F_CPU / 2, 0);
      if span - F_CPU < 0x8000_0000 {
        WrapBy(CycleDelta(span) + F_CPU / 2, 0);
      } else {
        WrapBy(CycleDelta(span) + F_CPU / 2, -1);
      }
    } else {
      WrapBy(span - F_CPU / 2, -1);
      WrapBy(CycleDelta(span) + F_CPU / 2, -1);
    }
  }

  /** The error within the second in terms of the shifted span and the seconds. */
  lemma IntracycleValue(span: uint32)
    ensures SecondsDelta(span) == Shifted(span) / F_CPU
    ensures 0 <= Shifted(span) - SecondsDelta(span) * F_CPU < F_CPU
    ensures IntracycleDelta(span) == Shifted(span) - SecondsDelta(span) * F_CPU - F_CPU / 2
  {
    ShiftedValue(span);
    CycleDeltaValue(span);
    var u := Shifted(span);
    var s := SecondsDelta(span);
    var r := u - s * F_CPU;
    assert 0 <= r < F_CPU;
    var sf: int := Signed32(Wrap(s * F_CPU));
    WrapBy(s * F_CPU, 0);
    var cd: int := CycleDelta(span);
    var x: int := cd - sf;
    var m := r - F_CPU / 2;
    // x and m differ by a multiple of 2^32, and m is a valid `long`.
    var k := (x - m) / TWO32;
    assert x - m == 0 || x - m == TWO32 || x - m == -TWO32;
    assert x - m == k * TWO32;
    if m >= 0 {
      WrapBy(x, k);
    } else {
      WrapBy(x, k - 1);
    }
  }

  /** The decomposition in closed form: the whole seconds are the shifted span divided
      by F_CPU, and the error is what is left, less half a second; so the error always
      lies in [-F_CPU/2, F_CPU/2) and there are never more than 143 seconds. */
  lemma Decomposition(span: uint32)
    ensures SecondsDelta(span) == Shifted(span) / F_CPU <= 143
    ensures IntracycleDelta(span) == Shifted(span) % F_CPU - F_CPU / 2
    ensures -(F_CPU / 2) as int <= IntracycleDelta(span) < F_CPU / 2
  {
    IntracycleValue(span);
    var u := Shifted(span);
    var s := SecondsDelta(span);
    DivBy(u, s);
    assert s * F_CPU < TWO32;
    var r := u - s * F_CPU;
    assert IntracycleDelta(span) == r - 15_000_000 && r < 30_000_000;
  }

  /** A span shorter than half a second is always rejected: it wraps around to a huge
      count of seconds with an error far beyond the bound. */
  lemma ShortSpanRejected(span: uint32)
    requires span < F_CPU / 2
    ensures Implausible(span)
  {
    ShiftedValue(span);
    IntracycleValue(span);
    var u := Shifted(span);
    if u < 143 * F_CPU {
      DivBy(u, 142);
      assert IntracycleDelta(span) >= 4_967_296;
    } else {
      DivBy(u, 143);
      assert IntracycleDelta(span) <= -10_032_704;
    }
  }

  /** Every accepted sample comes from a span of at least half a second, and its whole
      seconds and error add up exactly to the span's difference from one second. */
  lemma AcceptedDecomposes(span: uint32)
    requires !Implausible(span)
    ensures span >= F_CPU / 2
    ensures SecondsDelta(span) * F_CPU + IntracycleDelta(span) == span - F_CPU
  {
    if span < F_CPU / 2 {
      ShortSpanRejected(span);
    }
    ShiftedValue(span);
    IntracycleValue(span);
  }

  /** Rounding to the nearest second: a span within half a second of `k + 1` seconds
      gives `k` missed seconds and the cycles it is off by. */
  lemma NearestSecond(span: uint32, k: nat)
    requires F_CPU / 2 + k * F_CPU <= span < F_CPU / 2 + (k + 1) * F_CPU
    ensures SecondsDelta(span) == k
    ensures IntracycleDelta(span) == span - F_CPU - k * F_CPU
  {
    ShiftedValue(span);
    IntracycleValue(span);
    DivBy(Shifted(span), k);
    assert Shifted(span) == span - 15_000_000 && SecondsDelta(span) == k;
    assert IntracycleDelta(span) == span - 15_000_000 - k * F_CPU - 15_000_000;
  }

  /** One cycle long: no missed second, an error of +1, and the sample is kept. */
  lemma OneCycleLong()
    ensures SecondsDelta(F_CPU + 1) == 0 && IntracycleDelta(F_CPU + 1) == 1
    ensures !Implausible(F_CPU + 1)
  {
    NearestSecond(F_CPU + 1, 0);
  }

  /** One cycle short of two seconds: one missed second and an error of -1, not no
      missed second and an error of F_CPU - 1. */
  lemma OneCycleShortOfTwo()
    ensures SecondsDelta(2 * F_CPU - 1) == 1 && IntracycleDelta(2 * F_CPU - 1) == -1
  {
    NearestSecond(2 * F_CPU - 1, 1);
  }

  /** Integer division's threshold: `e / n > t` exactly when `e >= (t + 1) * n`. */
  lemma QuotientAbove(e: nat, n: nat, t: nat)
    requires n > 0
    ensures e / n > t <==> e >= (t + 1) * n
  {
    var q := e / n;
    assert e == q * n + e % n;
    if q > t {
      assert q >= t + 1;
      assert q * n >= (t + 1) * n;
    } else {
      assert q * n <= t * n;
    }
  }

  /** The rejection test in terms of the error: a sample is rejected exactly when its
      error is at least MAX_ERROR + 1 cycles per elapsed second. */
  lemma RejectionBound(span: uint32)
    ensures Implausible(span) <==> Abs(IntracycleDelta(span)) >= (MAX_ERROR + 1) * (SecondsDelta(span) + 1)
  {
    QuotientAbove(Abs(IntracycleDelta(span)), SecondsDelta(span) + 1, MAX_ERROR);
  }

  /** The unsigned difference of two free-running timer captures is the elapsed count,
      whenever fewer than 2^32 cycles elapsed, even across the counter's wrap-around. */
  lemma TimeSpanWraps(last: uint32, elapsed: nat)
    requires elapsed < TWO32
    ensures TimeSpan(last, Wrap(last + elapsed)) == elapsed
  {
  }

  /** The main loop's computation on the published span, in the C statements' order:
      the cycle delta, its rounding to whole seconds, the rest, and the plausibility
      test. */
  method Decompose(span: uint32) returns (secondsDelta: uint32, intracycleDelta: int32, implausible: bool)
    ensures secondsDelta == SecondsDelta(span) && intracycleDelta == IntracycleDelta(span)
    ensures implausible == Implausible(span)
    ensures !implausible ==> secondsDelta * F_CPU + intracycleDelta == span - F_CPU
  {
    var ppsCycleDelta: int32 := Signed32(Wrap(span - F_CPU));
    secondsDelta := Wrap(ppsCycleDelta + F_CPU / 2) / F_CPU;
    intracycleDelta := Signed32(Wrap(ppsCycleDelta - Signed32(Wrap(secondsDelta * F_CPU))));
    implausible := Abs(intracycleDelta) / (secondsDelta + 1) > MAX_ERROR;
    if !implausible {
      AcceptedDecomposes(span);
    }
  }

  /** The PPS capture interrupt's effect: the published span and ADC reading, the
      static previous capture, and the PPS counter. */
  class PpsCapture {
    var lastTimerVal: uint32
    var irqTimeSpan: uint32
    var irqAdcValue: uint16
    var ppsCount: uint32

    constructor ()
      ensures lastTimerVal == 0 && irqTimeSpan == 0 && irqAdcValue == 0 && ppsCount == 0
    {
      lastTimerVal := 0;
      irqTimeSpan := 0;
      irqAdcValue := 0;
      ppsCount := 0;
    }

    /** A PPS edge captured at `timerVal` with the phase detector reading `adc`: the
        span since the previous edge is published, the quantization error received so
        far is marked stale (the next one belongs to this edge), and the count goes up. */
    method Capture(timerVal: uint32, adc: uint16, rx: Receiver.NmeaReceiver)
      requires rx.Valid()
      modifies this, rx.ppsErrBuf
      ensures irqTimeSpan == TimeSpan(old(lastTimerVal), timerVal)
      ensures lastTimerVal == timerVal && irqAdcValue == adc
      ensures ppsCount == Wrap(old(ppsCount) + 1)
      ensures rx.ppsErrBuf[..] == old(rx.ppsErrBuf[..])[0 := 0]
    {
      irqAdcValue := adc;
      irqTimeSpan := Wrap(timerVal - lastTimerVal);
      lastTimerVal := timerVal;
      rx.ClearPpsErr();
      ppsCount := Wrap(ppsCount + 1);
    }
  }
}
