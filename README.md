# GPSDO firmware core, modelled in Dafny

This project models the core of `GPSDO_FE_v3.c`, the firmware of a GPS-disciplined
oscillator. An AVR XMEGA counts the cycles of a tunable oscillator between the pulses
per second (PPS) of a GPS receiver. It reads a phase detector at each pulse, parses
the receiver's NMEA sentences for the fix status and the quantization error of the
pulse, and steers the oscillator with serial tuning commands. The loop has four modes:
a frequency-locked start mode, and phase-locked fast, medium and slow modes.

| module | file | what it holds |
|---|---|---|
| `Bytes` | `bytes.dfy` | `byte` (`bv8`), 16-bit `int`/`unsigned int` and 32-bit `long`/`unsigned long` ranges with wrap-around and two's complement reinterpretation, `Option`, the exclusive-or fold, a byte count |
| `Nmea` | `nmea.dfy` | functions over received lines: framing, `strchr`, `hexChar`, the NMEA 0183 checksum, `skip_commas`, the three sentence handlers, and the lemmas about them |
| `Receiver` | `receiver.dfy` | class `NmeaReceiver`: `rx_buf` and the text buffers as arrays, `rx_str_len`, `gps_locked`; the receive interrupt and `handleGPS` as methods proved against `Nmea` |
| `Tuning` | `tuning.dfy` | the 9-byte tuning command, the oscillator's decoder for it, and class `TuningWriter` (`last_dac_value`, the bytes sent, `writeDacValue`) |
| `Pps` | `pps.dfy` | the PPS interval's split into whole seconds and a cycle error in exact 32-bit C arithmetic, the plausibility test, and class `PpsCapture` (the capture interrupt's effect) |
| `Control` | `control.dfy` | the discipline loop's variables as a `Loop` value, each step as a function with its contract, and class `Controller` whose methods are proved to follow those functions |
| `Gpsdo` | `gpsdo.dfy` | class `Firmware`: one pass of the main loop (the lock edges, the tests on the PPS sample, the step) and the button's save |

`DEBUG` is defined at line 60, so the model includes the `$GPRMC` time/date and
`$GPGSA` PDOP parsing, which are compiled only in debug builds. The constants are the
non-FE405 ones: `BIT_REDUCE` 2, `GAIN` 1466 >> 2 = 366, time constants 100/1800/7200,
and `F_CPU` 30,000,000.

Where the code behaves otherwise than its comments or its purpose suggest, the model
follows the code:

- `hexChar` maps NUL to 16, not 0, because `strchr_P` also finds the table's
  terminator (`Nmea.HexCharValue`).
- A corrupted checksum character is not always detected. `hexChar` gives 0 for every
  byte that is not a hex digit, and the 16 of NUL is shifted out in the first place and
  sets bit 4 in the second. So "$AAAAAA*00" is still accepted with its second digit
  replaced by 'G' or its first by NUL (`Nmea.ChecksumNonHexAccepted`); the exact rule
  is `Nmea.ChecksumDigitRule`.
- The plausibility bound `F_CPU / 10000` is 100 ppm, not the 1000 ppm of the comment
  at line 891 (`Pps.RejectionBound`).
- The frequency thresholds are in CPU cycles per second, and one cycle per second is
  1e9 / F_CPU = 33.3 ppb at 30 MHz. So the start mode's exit test at 0.25 is about
  8 ppb and the reset at 0.5 about 17 ppb. The comments at lines 933, 984 and 1003 give
  100 ppb per cycle, 25 ppb and 50 ppb, the values for a 10 MHz clock.
- `downgrade_mode` sets `enter_timer` to 100 times the *old* mode.
- The fast mode is never demoted because of its phase error. The demotion test is
  skipped in the fast mode, so a sustained 60 ns phase error in the fast mode does not
  demote; only an average frequency error of 0.5 cycles per second or more leaves it,
  for the start mode
  (`Control.NoUpAndDown`).
- A GPS fix loss moves one mode down. It resets nothing. From the fast mode it lands in
  the start mode, and the integral term is kept.
- That fix loss also keeps the exit timer, and the start mode's exit test counts up the
  same timer. So the start mode need not hold the frequency error within 0.25 for a
  minute before it exits. A fast mode with 199 seconds already counted, after a fix
  loss, exits the start mode after one quiet second (`Control.StartExitAfterFixLoss`).
- A body byte turned into '*' is not always detected. The new '*' ends the checked part,
  and the two body bytes after it are read as the checksum. An accepted sentence whose
  body starts "A?41" stays accepted with its second body byte turned into '*', because
  "41" is the checksum of "A" alone (`Nmea.ChecksumStarInBody`).
- The quantization correction `(int)(1.5 * e + 0.5)` rounds to nearest only for a
  non-negative correction (`Control.QeCorrection`).

## Model

| member | source | states |
|---|---|---|
| Nmea.RxNext | GPSDO_FE_v3.c:310-325 | one received byte: ignored while nothing is buffered unless it is '$'; CR or LF hands the buffered line to the parser and empties the buffer; reaching 96 bytes starts over; the buffer never reaches 96 bytes |
| Nmea.RxNextPending | GPSDO_FE_v3.c:313-324 | after any byte the buffer is empty or starts with '$' and holds no line terminator; a line handed over starts with '$', is shorter than the buffer and holds no terminator |
| Nmea.RxRunLines | GPSDO_FE_v3.c:310-325 | over any byte stream, the buffer keeps that shape and every line handed to the parser has it |
| Nmea.RxRunSentence | GPSDO_FE_v3.c:310-325 | a well-formed line followed by CR or LF, from an empty buffer, reaches the parser exactly once and unchanged, and the buffer ends empty |
| Nmea.Find | GPSDO_FE_v3.c:388 | `strchr`: the index found holds the character and no earlier index does; no index found means the character does not occur |
| Nmea.CEnd | GPSDO_FE_v3.c:316 | a C string in the line ends at its first NUL, or at the end of the line |
| Nmea.NextComma | GPSDO_FE_v3.c:388 | the next comma of the C string at `p`: a comma with none before it in the string, or none at all in the string |
| Nmea.HexCharValue | GPSDO_FE_v3.c:327-334 | `hexChar` maps a hex digit of either case to its value, NUL to 16, and every other byte to 0 |
| Nmea.ChecksumAt | GPSDO_FE_v3.c:405-418 | where the checksum loop stops (the first '*' after '$', or the end of the line) decides acceptance: room for two characters after it, and the exclusive-or so far equal to the value they spell |
| Nmea.SentenceAccepted | GPSDO_FE_v3.c:403-418 | every sentence a talker builds, with its checksum in upper-case hex digits, from a body of at least five bytes without '*' is accepted |
| Nmea.NibblesPacked | GPSDO_FE_v3.c:415 | two sent-checksum bytes, each a high nibble shifted left by four and or-ed with a low one, are equal exactly when both nibbles are |
| Nmea.Nibble | GPSDO_FE_v3.c:327-334 | the low four bits of `hexChar`: a hex digit's value, and 0 for every other byte, NUL included |
| Nmea.SentChecksumNibbles | GPSDO_FE_v3.c:415 | the sent checksum is the first character's nibble (with its low bit set when the second is NUL) shifted left by four, or-ed with the second's nibble |
| Nmea.SentChecksumDigits | GPSDO_FE_v3.c:415 | two checksums spelled with hex digits agree only when the digits have the same values |
| Nmea.ChecksumDigitCorrupted | GPSDO_FE_v3.c:411-418 | replacing one checksum digit of an accepted sentence by a hex digit of another value makes it rejected |
| Nmea.SentChecksumReplaced | GPSDO_FE_v3.c:327-334 | replacing one of two hex checksum digits keeps the sent checksum exactly when the new byte has the old digit's nibble, and, in the second place, is NUL only after an odd first digit |
| Nmea.ChecksumCharReplaced | GPSDO_FE_v3.c:405-418 | an accepted sentence with one checksum character replaced is accepted exactly when the two characters spell the same checksum |
| Nmea.ChecksumDigitRule | GPSDO_FE_v3.c:405-418 | an accepted sentence with hex checksum digits stays accepted after one checksum character is replaced exactly when the new byte has the old digit's nibble (any non-hex byte counts as 0), and for the second character a NUL only after an odd first digit |
| Nmea.ChecksumNonHexAccepted | GPSDO_FE_v3.c:327-334 | "$AAAAAA*00" is accepted, and so are its corruptions "$AAAAAA*0G" and the one with NUL as the first checksum character |
| Nmea.ChecksumBodyCorrupted | GPSDO_FE_v3.c:405-418 | replacing any one byte between '$' and '*' of an accepted sentence by another byte other than '*' makes it rejected |
| Nmea.ChecksumStarInBody | GPSDO_FE_v3.c:405-418 | a body byte turned into '*' moves the checked part's end: an accepted sentence whose third and fourth body bytes spell the checksum of its first stays accepted with its second body byte turned into '*' |
| Nmea.SkipCommas | GPSDO_FE_v3.c:386-393 | `skip_commas` yields NULL or a position within the line |
| Nmea.SkipCommasStep | GPSDO_FE_v3.c:387-391 | one loop iteration: no next comma gives NULL, else the rest is skipped from just past that comma |
| Nmea.SkipCommasFails | GPSDO_FE_v3.c:386-393 | `skip_commas(p, num)` is NULL exactly when the C string at `p` has fewer than `num` commas |
| Nmea.SkipCommasStops | GPSDO_FE_v3.c:386-393 | otherwise it points just past the `num`-th comma: the byte before is a comma, and exactly `num` commas lie between `p` and it, all within the string |
| Nmea.SkipCommasAdd | GPSDO_FE_v3.c:386-393 | skipping `m` commas and then `n` more is skipping `m + n` (so the PDOP field is the fifteenth) |
| Nmea.StrNCpy | GPSDO_FE_v3.c:426-431 | `strncpy(dst, ptr, n)` always produces exactly `n` bytes |
| Nmea.CopyField | GPSDO_FE_v3.c:442-445 | the field copy keeps the buffer's size |
| Nmea.CopyFieldText | GPSDO_FE_v3.c:442-445 | a field copy stores the field up to its comma, cut to one less than the buffer, as a NUL-terminated string, and keeps the buffer's bytes after that NUL |
| Nmea.HandleRmc | GPSDO_FE_v3.c:422-432 | the $GPRMC handler keeps every buffer at its declared size |
| Nmea.RmcFields | GPSDO_FE_v3.c:422-432 | $GPRMC stores the C string after its first comma as the time and after its ninth comma as the date, each cut to 6 bytes and NUL-terminated; a missing comma leaves that field (and the date, if the first is missing) unchanged; nothing else changes |
| Nmea.HandleGsa | GPSDO_FE_v3.c:433-446 | the $GPGSA handler keeps every buffer at its declared size |
| Nmea.PdopField | GPSDO_FE_v3.c:440-445 | the PDOP copy keeps the buffer's size |
| Nmea.GsaFix | GPSDO_FE_v3.c:433-437 | an accepted $GPGSA with fewer than two commas changes nothing; otherwise the fix flag becomes true exactly when the byte just past the second comma is '2' or '3', and the quantization error is untouched |
| Nmea.GsaPdop | GPSDO_FE_v3.c:435-445 | the PDOP field found thirteen commas after field 2 is just past the fifteenth comma, and the PDOP buffer becomes the field copy there |
| Nmea.GsaDispatch | GPSDO_FE_v3.c:421-433 | an accepted line starting "$GPGSA" goes to the $GPGSA handler |
| Nmea.HandlePsti | GPSDO_FE_v3.c:447-455 | the $PSTI,00 handler keeps every buffer at its declared size |
| Nmea.PstiDispatch | GPSDO_FE_v3.c:421-447 | an accepted line starting "$PSTI,00" goes to the $PSTI,00 handler |
| Nmea.PstiOnlyPpsErr | GPSDO_FE_v3.c:447-455 | $PSTI,00 writes only the quantization error, and nothing at all with fewer than four commas |
| Nmea.PstiField | GPSDO_FE_v3.c:449-454 | with field 4 followed by a comma, the quantization error buffer holds field 4, cut to 4 bytes, NUL-terminated, and keeps its other bytes; the field starts just past the fourth comma |
| Nmea.HandleSentence | GPSDO_FE_v3.c:400-456 | `handleGPS` keeps every buffer at its declared size |
| Nmea.HandleSentenceWriters | GPSDO_FE_v3.c:400-456 | a rejected line changes no field; the fix flag and PDOP change only on $GPGSA, the quantization error only on $PSTI,00, the time and date only on $GPRMC |
| Receiver.NmeaReceiver.constructor | GPSDO_FE_v3.c:627-643 | power-on: nothing buffered, no fix, every text buffer zero |
| Receiver.NmeaReceiver.ReceiveByte | GPSDO_FE_v3.c:310-325 | the receive interrupt changes the buffered line as `RxNext` does and, on a terminator, the parsed fields as `HandleSentence` does; the buffer invariant is kept |
| Receiver.NmeaReceiver.HandleGps | GPSDO_FE_v3.c:400-456 | `handleGPS` on the buffered line updates the parsed fields exactly as `HandleSentence` |
| Receiver.NmeaReceiver.VerifyChecksum | GPSDO_FE_v3.c:403-418 | the checksum test on the buffered line decides `ChecksumValid` |
| Receiver.XorToStar | GPSDO_FE_v3.c:405-409 | the checksum loop stops at the first '*' after '$', or at the end of the line, with the exclusive-or of the bytes it passed |
| Receiver.ChecksumOf | GPSDO_FE_v3.c:401-418 | the length test, the checksum loop, the room test and the comparison return true exactly for an accepted line |
| Receiver.NmeaReceiver.SkipCommas | GPSDO_FE_v3.c:386-393 | `skip_commas` on the buffered line returns what `Nmea.SkipCommas` specifies |
| Receiver.SkipCommasIn | GPSDO_FE_v3.c:386-393 | the loop that advances `ptr` returns what `Nmea.SkipCommas` specifies |
| Receiver.NmeaReceiver.StrNCpyTo | GPSDO_FE_v3.c:426-431 | `strncpy` then a NUL in the last byte leaves `StrNCpy` of the line plus NUL in the buffer |
| Receiver.StrNCpyInto | GPSDO_FE_v3.c:426-431 | the same on any line |
| Receiver.NmeaReceiver.CopyFieldTo | GPSDO_FE_v3.c:442-445 | the `memcpy` of the field and its NUL leave `CopyField` of the old buffer |
| Receiver.CopyFieldInto | GPSDO_FE_v3.c:442-454 | the same on any line |
| Receiver.NmeaReceiver.HandleRmc | GPSDO_FE_v3.c:422-432 | the $GPRMC branch leaves the parsed fields as `Nmea.HandleRmc` |
| Receiver.NmeaReceiver.HandleGsa | GPSDO_FE_v3.c:433-446 | the $GPGSA branch leaves the parsed fields as `Nmea.HandleGsa` |
| Receiver.NmeaReceiver.CopyPdop | GPSDO_FE_v3.c:440-445 | the PDOP part of $GPGSA leaves `PdopField` of the old buffer |
| Receiver.NmeaReceiver.HandlePsti | GPSDO_FE_v3.c:447-455 | the $PSTI,00 branch leaves the parsed fields as `Nmea.HandlePsti` |
| Receiver.NmeaReceiver.TakePpsErr | GPSDO_FE_v3.c:864-870 | the main loop's copy returns the quantization error text and marks it consumed |
| Receiver.NmeaReceiver.ClearPpsErr | GPSDO_FE_v3.c:860 | marking the quantization error consumed changes only its first byte, to NUL |
| Tuning.ParseFrame | GPSDO_FE_v3.c:257-275 | a command the oscillator accepts is 9 bytes whose last byte is the exclusive-or of the four offset octets |
| Tuning.PayloadAt | GPSDO_FE_v3.c:269-273 | the payload sent is the word's octets, most significant first |
| Tuning.OctetsRecombine | GPSDO_FE_v3.c:269-273 | the four octets put back together give the word |
| Tuning.FrameParses | GPSDO_FE_v3.c:257-275 | every command the firmware builds is accepted, with its id and word |
| Tuning.ParsedIsFrame | GPSDO_FE_v3.c:257-275 | every accepted command is exactly the one the firmware builds for its id and word |
| Tuning.AssembledPayload | GPSDO_FE_v3.c:269-273 | assembling four octets into a word and taking it apart gives the same octets |
| Tuning.FrameCorrupted | GPSDO_FE_v3.c:264-274 | changing any one byte of a command makes the oscillator reject it |
| Tuning.OffsetOfValue | GPSDO_FE_v3.c:262 | the offset applied is four times the value reduced to 30 bits, so exactly four times the value within 2^29 of zero |
| Tuning.EmitDelivers | GPSDO_FE_v3.c:257-259 | nothing is sent exactly when the value is the last written, whatever the volatility flag; otherwise the oscillator receives exactly that value; two writes of the same value in a row send one command |
| Tuning.TuningWriter.constructor | GPSDO_FE_v3.c:652 | `last_dac_value` starts at `0x7fffffff`, so the first write is sent |
| Tuning.TuningWriter.TxOscByte | GPSDO_FE_v3.c:264-274 | one byte is appended to what the oscillator's port has sent |
| Tuning.TuningWriter.WriteDacValue | GPSDO_FE_v3.c:257-275 | `writeDacValue` remembers the value and appends `Emit` of the old last value, so the sent bytes decode to the value per `EmitDelivers` |
| Tuning.TuningWriter.SendOctets | GPSDO_FE_v3.c:268-274 | the octet loop sends the word's octets most significant first and returns their exclusive-or |
| Pps.CycleDeltaValue | GPSDO_FE_v3.c:879 | `pps_cycle_delta` is the span's difference from one second, less 2^32 when that difference is 2^31 or more |
| Pps.ShiftedValue | GPSDO_FE_v3.c:883 | the sum `pps_cycle_delta + F_CPU/2`, taken modulo 2^32, is the span less half a second modulo 2^32 |
| Pps.IntracycleValue | GPSDO_FE_v3.c:879-889 | the whole seconds are the shifted span divided by `F_CPU`, and the error is what remains less half a second |
| Pps.Decomposition | GPSDO_FE_v3.c:879-889 | the error always lies in [-F_CPU/2, F_CPU/2) and there are at most 143 whole seconds |
| Pps.ShortSpanRejected | GPSDO_FE_v3.c:879-891 | a span shorter than half a second is always rejected |
| Pps.AcceptedDecomposes | GPSDO_FE_v3.c:879-891 | an accepted span is at least half a second long, and `seconds_delta * F_CPU + intracycle_delta` is exactly its difference from one second |
| Pps.NearestSecond | GPSDO_FE_v3.c:881-889 | a span within half a second of `k + 1` seconds gives `k` whole seconds and the cycles it is off by |
| Pps.OneCycleLong | GPSDO_FE_v3.c:879-904 | a span of `F_CPU + 1` gives 0 seconds and an error of +1, and is not rejected as implausible |
| Pps.OneCycleShortOfTwo | GPSDO_FE_v3.c:885-889 | a span one cycle short of two seconds gives 1 second and an error of -1 |
| Pps.RejectionBound | GPSDO_FE_v3.c:891 | a sample is rejected exactly when its error is at least 3001 cycles per elapsed second (100 ppm) |
| Pps.TimeSpanWraps | GPSDO_FE_v3.c:299 | the unsigned difference of two timer captures is the elapsed count, across the counter's wrap-around |
| Pps.Decompose | GPSDO_FE_v3.c:879-891 | the main loop's statements compute `SecondsDelta`, `IntracycleDelta` and `Implausible`, and an accepted sample decomposes exactly |
| Pps.PpsCapture.constructor | GPSDO_FE_v3.c:624 | the capture state starts at zero: `pps_count` is cleared, and the interrupt's statics and globals are zero-initialised |
| Pps.PpsCapture.Capture | GPSDO_FE_v3.c:297-304 | the capture interrupt publishes the span since the previous edge and the 16-bit ADC result, marks the quantization error stale, and counts the edge modulo 2^32 |
| Control.ModeToTc | GPSDO_FE_v3.c:460-472 | every mode has a time constant of at least 100 seconds, a multiple of 100; any other value gives 0 |
| Control.Trunc | GPSDO_FE_v3.c:925 | a `double` to integer conversion truncates toward zero |
| Control.ToLong | GPSDO_FE_v3.c:1085 | `(long)` truncates toward zero within the range of `long` and saturates outside it |
| Control.PhaseErrorValue | GPSDO_FE_v3.c:923-925 | within the converter's signed 12-bit range and for a quantization error up to 20000 ns, no 16-bit sum wraps: the ADC part is half a nanosecond per count below the midpoint, rounded down, a raw 0xFFFB (-5 counts) gives 514 ns, and the correction is added exactly |
| Control.QeCorrection | GPSDO_FE_v3.c:923-925 | the quantization correction is within 0.5 ns of exact for a non-negative error and within 1.5 ns always; -0.9 ns at the ADC midpoint gives a phase error of 0 |
| Control.Tc | GPSDO_FE_v3.c:918 | the loop's time constant is at least 100 seconds |
| Control.ResetPll | GPSDO_FE_v3.c:474-485 | `reset_pll` goes to the start mode with the integral, averages and exit timer cleared, and keeps the setpoint by folding the integral's share into the trim value |
| Control.Downgrade | GPSDO_FE_v3.c:487-493 | `downgrade_mode` goes one mode down, sets the hold-off to 100 times the old mode, and rescales the integral so the setpoint is unchanged (kept as is into the start mode) |
| Control.FilterTime | GPSDO_FE_v3.c:929 | the filter time is at least 10 seconds |
| Control.Filtered | GPSDO_FE_v3.c:929-937 | each average moves a `1/filter_time` part of the way toward this second's value, the cycle error first spread over its seconds |
| Control.FilterSteady | GPSDO_FE_v3.c:929-937 | a steady input is a fixed point of the averages |
| Control.StartStep | GPSDO_FE_v3.c:952-1001 | a start-mode second moves the trim value against the frequency error and writes it; the exit timer counts up exactly while the frequency error is within 0.25, even when the phase test fails, and is 0 otherwise; the mode becomes fast, with the timer 0, exactly on the exit rule |
| Control.Promote | GPSDO_FE_v3.c:1016-1043 | a phase error within 5 ns for `200 * mode * mode` seconds goes one mode up, never past slow, and keeps the setpoint; otherwise the exit timer counts or resets |
| Control.Demote | GPSDO_FE_v3.c:1044-1056 | only the medium and slow modes are demoted, one mode, after the hold-off, on a phase error of at least 50 ns per mode; the hold-off counts down; the setpoint is kept |
| Control.Offload | GPSDO_FE_v3.c:1089-1099 | an integral term beyond 1000 time constants gives up exactly that much and keeps its sign, and the trim value moves by exactly 1000 units in the integral's direction, with the setpoint, and so the next DAC value for the same error, unchanged; over any run the integral term stays within 1000 time constants (`Control.SecondStepBounded`) |
| Control.RescaleBounded | GPSDO_FE_v3.c:487-493 | a change of mode that keeps the setpoint keeps the integral term's share of it, so the integral term stays within 1000 of the new time constants |
| Control.FilteredBounded | GPSDO_FE_v3.c:929-937 | the average phase error stays within the 16-bit range of the phase errors it averages |
| Control.IntegrateGrowth | GPSDO_FE_v3.c:1076-1077 | one integration grows the integral term by less than 68534, below the smallest off-load of 100000 |
| Control.PllStepBounded | GPSDO_FE_v3.c:1076-1099 | after the integration and the off-load the integral term is again within 1000 time constants |
| Control.SecondStepBounded | GPSDO_FE_v3.c:918-1099 | every accepted second with a 16-bit phase error keeps the integral term within 1000 time constants and the average phase error within the 16-bit range, in every mode and across every mode change |
| Control.EdgesBounded | GPSDO_FE_v3.c:705-738 | the power-on state is within those bounds, and both lock edges keep them |
| Control.Integrate | GPSDO_FE_v3.c:1076-1077 | the integral term grows by the proportional term over the damped time constant, so the setpoint falls by that over the time constant; the mode, time constant, trim value, timers and averages are kept |
| Control.PllStep | GPSDO_FE_v3.c:1076-1099 | the new setpoint is the old one less the proportional term over the damped squared time constant; the step writes that setpoint less the proportional correction, converted by `(long)(x + 0.5)`: the nearest integer when not negative, else truncated toward zero; without an off-load the integral is the accumulated one and the trim value is kept, with one the trim value moves by exactly 1000 units in the accumulated integral's direction |
| Control.SecondStep | GPSDO_FE_v3.c:918-1099 | one accepted second keeps the mode in 0..3 and the timers within range, so the 16-bit `unsigned int` timers never wrap |
| Control.SecondModes | GPSDO_FE_v3.c:952-1056 | the start mode only exits to fast; a phase-locked mode moves at most one mode, or falls to start exactly on an average frequency error of 0.5 cycles per second (about 17 ppb) or more, the only second without a DAC write |
| Control.NoUpAndDown | GPSDO_FE_v3.c:1016-1056 | promotion and demotion never both happen in one second, and the fast mode stays in a phase-locked mode exactly when the filtered frequency error is below 0.5 cycles per second (about 17 ppb), whatever the phase error |
| Control.GpsEdge | GPSDO_FE_v3.c:705-722 | on a fix loss (a change, or the first state seen) a phase-locked mode goes one mode down; the start mode is reached this way only from fast, with the integral kept; the exit timer is always kept; nothing changes otherwise |
| Control.StartExitAfterFixLoss | GPSDO_FE_v3.c:952-1001 | a fix loss in the fast mode with 199 seconds on the exit timer lands in the start mode with that timer, since `downgrade_mode` leaves it, and one quiet second then exits to the fast mode |
| Control.OscEdge | GPSDO_FE_v3.c:724-738 | on an oscillator lock loss the DAC is written with 0 and the loop is reset; nothing changes otherwise |
| Control.Controller.constructor | GPSDO_FE_v3.c:624-653 | power-on: the start mode with every variable zero, no lock state seen, nothing sent |
| Control.Controller.ResetLoop | GPSDO_FE_v3.c:474-485 | `reset_pll` on the globals follows `ResetPll` |
| Control.Controller.DowngradeMode | GPSDO_FE_v3.c:487-493 | `downgrade_mode` on the globals follows `Downgrade` |
| Control.Controller.WriteDac | GPSDO_FE_v3.c:1087 | the main loop's volatile write appends `Emit` to the oscillator's bytes |
| Control.Controller.CheckLocks | GPSDO_FE_v3.c:705-738 | the lock edges, GPS first, follow `GpsEdge` then `OscEdge`, and record both states seen |
| Control.Controller.SaveTrim | GPSDO_FE_v3.c:821-830 | the button's non-volatile write of the trim value happens in the slow mode only |
| Control.Controller.Second | GPSDO_FE_v3.c:918-1099 | one accepted second on the globals follows `SecondStep`, DAC bytes included |
| Control.Controller.StartSecond | GPSDO_FE_v3.c:952-1001 | the start-mode second follows `StartStep` |
| Control.Controller.PromoteIfDue | GPSDO_FE_v3.c:1016-1043 | the promotion test follows `Promote` |
| Control.Controller.DemoteIfDue | GPSDO_FE_v3.c:1044-1056 | the demotion test follows `Demote` |
| Control.Controller.PllSecond | GPSDO_FE_v3.c:1076-1099 | the proportional-integral step follows `PllStep`, DAC bytes included |
| Control.Controller.IntegrateError | GPSDO_FE_v3.c:1076-1077 | the integral's accumulation follows `Integrate` and returns the time constant and proportional term |
| Control.Controller.OffloadIntegral | GPSDO_FE_v3.c:1089-1099 | the off-load follows `Offload` |
| Gpsdo.Firmware.constructor | GPSDO_FE_v3.c:624-653 | power-on: receiver, capture and controller in their initial states |
| Gpsdo.Firmware.Pass | GPSDO_FE_v3.c:705-1099 | a pass runs the lock edges, then waits for a new PPS edge and its quantization error, free-runs while either lock is lost, discards an implausible interval, and otherwise runs one step; the error text is consumed exactly when the sample is taken |
| Gpsdo.Firmware.Sample | GPSDO_FE_v3.c:833-1099 | the tests on the PPS sample in the code's order, with the step or no change to the loop |
| Gpsdo.Firmware.Discipline | GPSDO_FE_v3.c:862-1099 | a locked sample consumes the error text, then is discarded as implausible or gives one step with `PhaseError` of the 16-bit ADC result read as signed and the quantization error |
| Gpsdo.Firmware.Button | GPSDO_FE_v3.c:821-830 | the button saves the trim value to non-volatile memory in the slow mode only, and then remembers it as the last value written; otherwise nothing is sent or remembered |

## Left out

- Hardware set-up, the clock switch to the external oscillator (lines 741-785), the
  watchdog and the timer/ADC register reads: peripheral I/O. The capture interrupt
  is modelled by its effect, with the timer value and ADC reading as parameters.
- The oscillator's lock line and the C library's `atof` are parameters of
  `Gpsdo.Firmware.Pass`; the serial transmission itself is the sequence of bytes sent.
- The LEDs, the button's debounce and its blink timing: user interface on timer ticks.
  The button is a method that is called when a press is detected.
- The diagnostic transmit ring buffer and every debug print: output only.
- The FE405 build and the compiled-out oscillator read-back (`#if 0`).
- Concurrency between the interrupts and the main loop, including the one-slot
  quantization error mailbox race and the atomic blocks: each interrupt is one atomic
  method call between passes; `gps_locked` is read once per pass.
- Float rounding: `average_phase_error`, `average_pps_error`, `iTerm`, `trim_value`
  and the PI arithmetic are exact reals; conversions to integers truncate toward zero,
  and a `(long)` conversion out of range saturates (undefined in C).
- `DAC_SIGN` is 1 (line 130) and is folded into the expressions.
- Nmea.CopyField: when no comma follows the field, the source subtracts `ptr` from NULL
  (undefined behaviour); the model leaves the buffer unchanged.
- Pps.IntracycleDelta: the `long` subtraction at line 889 overflows for spans of
  72.5 seconds or more (below 2^31 + F_CPU cycles), which C leaves undefined; the
  model wraps it modulo 2^32 as the AVR does, and the wrapped result is still the
  exact error within the second (`Pps.NearestSecond`).
- Control.PhaseError: `current_phase_error` is a 16-bit `int` and the model wraps its
  sums modulo 2^16 as the AVR does; in C an overflowing `int` sum, and a `(int)`
  conversion of a `double` outside the range of `int`, are undefined. Within the
  converter's range no wrap happens (`Control.PhaseErrorValue`).
- Nmea.ChecksumDigitCorrupted: covers only a hex-digit replacement of another value,
  because the code accepts some replacements by other bytes; which replacements are
  accepted is stated exactly by `Nmea.ChecksumDigitRule`.
