/** One pass of the firmware's main loop: the lock edges, then, once per PPS edge and
    only after that second's quantization error has arrived, either free-running (no
    GPS fix or no oscillator lock), discarding an implausible interval, or one step of
    the discipline loop. The interrupts are the methods `NmeaReceiver.ReceiveByte` and
    `PpsCapture.Capture`, run between passes. */
module Gpsdo {
  import opened Bytes
  import Nmea
  import Receiver
  import Pps
  import Control
  import Tuning

  /** What a pass did with the PPS sample. */
  datatype Outcome =
    | NoNewPps     // no PPS edge since the last pass that took one
    | AwaitQe      // the quantization error of this second has not arrived yet
    | FreeRun      // the GPS has no fix or the oscillator is unlocked: the error is dropped
    | Discarded    // the interval is off by more than MAX_ERROR cycles per second
    | Disciplined  // the discipline loop ran one step

  /** The order of the main loop's tests. */
  function Classify(lastPpsCount: uint32, ppsCount: uint32, qe0: byte, unlocked: bool, span: uint32): Outcome
  {
    if lastPpsCount == ppsCount then NoNewPps
    else if qe0 == Nmea.NUL then AwaitQe
    else if unlocked then FreeRun
    else if Pps.Implausible(span) then Discarded
    else Disciplined
  }

  /** Whether the pass took the sample, consuming the quantization error. */
  predicate Took(o: Outcome)
  {
    o != NoNewPps && o != AwaitQe
  }

  class Firmware {
    const rx: Receiver.NmeaReceiver
    const pps: Pps.PpsCapture
    const ctl: Control.Controller
    /** The main loop's `static unsigned long last_pps_count`. */
    var lastPpsCount: uint32

    ghost predicate Valid()
      reads this, rx, rx.rxBuf, ctl
    {
      rx.Valid() && Control.Inv(ctl.State())
    }

    /** Power-on: the receiver, the capture and the controller in their initial states. */
    constructor ()
      ensures Valid() && fresh(rx) && fresh(pps) && fresh(ctl)
      ensures lastPpsCount == 0 && pps.ppsCount == 0 && ctl.State() == Control.INITIAL
      ensures rx.Content() == [] && !rx.gpsLocked && rx.ppsErrBuf[0] == Nmea.NUL
    {
      rx := new Receiver.NmeaReceiver();
      pps := new Pps.PpsCapture();
      ctl := new Control.Controller();
      lastPpsCount := 0;
    }

    /** One pass with the oscillator's lock output `oscLocked`; `atof` is the C
        library's conversion of the quantization error text. */
    method Pass(oscLocked: bool, atof: seq<byte> -> real) returns (outcome: Outcome)
      requires Valid()
      modifies this, rx.ppsErrBuf, ctl, ctl.osc
      ensures Valid()
      ensures var o := Control.OscEdge(Control.GpsEdge(old(ctl.State()), old(ctl.lastGpsLocked), rx.gpsLocked),
                                       old(ctl.lastOscLocked), oscLocked);
        var last := Control.LastAfter(old(ctl.osc.lastDacValue), o.dac);
        var span := pps.irqTimeSpan;
        var r := Control.SecondStep(o.next,
                                    Control.PhaseError(pps.irqAdcValue, atof(Nmea.CString(old(rx.ppsErrBuf[..])))),
                                    Pps.IntracycleDelta(span), Pps.SecondsDelta(span));
        && outcome == Classify(old(lastPpsCount), pps.ppsCount, old(rx.ppsErrBuf[0]),
                               !rx.gpsLocked || !oscLocked, span)
        && ctl.State() == (if outcome == Disciplined then r.next else o.next)
        && ctl.osc.sent == old(ctl.osc.sent) + Control.Sent(old(ctl.osc.lastDacValue), o.dac)
                           + (if outcome == Disciplined then Control.Sent(last, r.dac) else [])
        && ctl.osc.lastDacValue == (if outcome == Disciplined then Control.LastAfter(last, r.dac) else last)
      ensures ctl.lastGpsLocked == Some(rx.gpsLocked) && ctl.lastOscLocked == Some(oscLocked)
      ensures Took(outcome) ==> lastPpsCount == pps.ppsCount && rx.ppsErrBuf[..] == old(rx.ppsErrBuf[..])[0 := Nmea.NUL]
      ensures !Took(outcome) ==> lastPpsCount == old(lastPpsCount) && rx.ppsErrBuf[..] == old(rx.ppsErrBuf[..])
    {
      ctl.CheckLocks(rx.gpsLocked, oscLocked);
      outcome := Sample(oscLocked, atof);
    }

    /** The part of a pass after the lock edges: the tests on the PPS sample and, if it
        passes them, the discipline loop's step. */
    method Sample(oscLocked: bool, atof: seq<byte> -> real) returns (outcome: Outcome)
      requires Valid()
      modifies this, rx.ppsErrBuf, ctl, ctl.osc
      ensures Valid()
      ensures var span := pps.irqTimeSpan;
        var r := Control.SecondStep(old(ctl.State()),
                                    Control.PhaseError(pps.irqAdcValue, atof(Nmea.CString(old(rx.ppsErrBuf[..])))),
                                    Pps.IntracycleDelta(span), Pps.SecondsDelta(span));
        && outcome == Classify(old(lastPpsCount), pps.ppsCount, old(rx.ppsErrBuf[0]),
                               !rx.gpsLocked || !oscLocked, span)
        && ctl.State() == (if outcome == Disciplined then r.next else old(ctl.State()))
        && ctl.osc.sent == old(ctl.osc.sent) + (if outcome == Disciplined then Control.Sent(old(ctl.osc.lastDacValue), r.dac) else [])
        && ctl.osc.lastDacValue == (if outcome == Disciplined then Control.LastAfter(old(ctl.osc.lastDacValue), r.dac) else old(ctl.osc.lastDacValue))
      ensures ctl.lastGpsLocked == old(ctl.lastGpsLocked) && ctl.lastOscLocked == old(ctl.lastOscLocked)
      ensures Took(outcome) ==> lastPpsCount == pps.ppsCount && rx.ppsErrBuf[..] == old(rx.ppsErrBuf[..])[0 := Nmea.NUL]
      ensures !Took(outcome) ==> lastPpsCount == old(lastPpsCount) && rx.ppsErrBuf[..] == old(rx.ppsErrBuf[..])
    {
      if lastPpsCount == pps.ppsCount {
        return NoNewPps;
      }
      if rx.ppsErrBuf[0] == Nmea.NUL {
        return AwaitQe;
      }
      lastPpsCount := pps.ppsCount;
      var unlocked := !rx.gpsLocked || !oscLocked;
      if unlocked {
        rx.ClearPpsErr();
        return FreeRun;
      }
      outcome := Discipline(atof);
    }

    /** A sample taken while both are locked: the quantization error is consumed, and
        the interval is either discarded or gives the discipline loop one step. */
    method Discipline(atof: seq<byte> -> real) returns (outcome: Outcome)
      requires Valid()
      modifies rx.ppsErrBuf, ctl, ctl.osc
      ensures Valid()
      ensures var span := pps.irqTimeSpan;
        var r := Control.SecondStep(old(ctl.State()),
                                    Control.PhaseError(pps.irqAdcValue, atof(Nmea.CString(old(rx.ppsErrBuf[..])))),
                                    Pps.IntracycleDelta(span), Pps.SecondsDelta(span));
        && outcome == (if Pps.Implausible(span) then Discarded else Disciplined)
        && ctl.State() == (if outcome == Disciplined then r.next else old(ctl.State()))
        && ctl.osc.sent == old(ctl.osc.sent) + (if outcome == Disciplined then Control.Sent(old(ctl.osc.lastDacValue), r.dac) else [])
        && ctl.osc.lastDacValue == (if outcome == Disciplined then Control.LastAfter(old(ctl.osc.lastDacValue), r.dac) else old(ctl.osc.lastDacValue))
      ensures ctl.lastGpsLocked == old(ctl.lastGpsLocked) && ctl.lastOscLocked == old(ctl.lastOscLocked)
      ensures rx.ppsErrBuf[..] == old(rx.ppsErrBuf[..])[0 := Nmea.NUL]
    {
      var text := rx.TakePpsErr();
      var ppsErr := atof(text);
      var secondsDelta, intracycleDelta, implausible := Pps.Decompose(pps.irqTimeSpan);
      if implausible {
        return Discarded;
      }
      var currentPhaseError: int16 := Signed16(Wrap16(Control.PHASE_ADC_MIDPOINT - Signed16(pps.irqAdcValue))) / 2;
      currentPhaseError := Signed16(Wrap16(currentPhaseError + Control.Trunc(Control.QE_COMPENSATION * ppsErr + 0.5)));
      assert currentPhaseError == Control.PhaseError(pps.irqAdcValue, ppsErr);
      ctl.Second(currentPhaseError, intracycleDelta, secondsDelta);
      return Disciplined;
    }

    /** The button, honoured in the slow mode: a non-volatile write of the trim value. */
    method Button()
      requires Valid()
      modifies ctl.osc
      ensures Valid()
      ensures ctl.mode == Control.MODE_SLOW ==>
        ctl.osc.sent == old(ctl.osc.sent) + Tuning.Emit(old(ctl.osc.lastDacValue), Control.ToLong(ctl.trimValue), true)
      ensures ctl.mode == Control.MODE_SLOW ==> ctl.osc.lastDacValue == Control.ToLong(ctl.trimValue)
      ensures ctl.mode != Control.MODE_SLOW ==>
        ctl.osc.sent == old(ctl.osc.sent) && ctl.osc.lastDacValue == old(ctl.osc.lastDacValue)
    {
      ctl.SaveTrim();
    }
  }
}
