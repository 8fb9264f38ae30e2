/** The firmware's GPS receive state: the line buffer the receive interrupt fills, the
    fix flag, and the text buffers the sentence handler writes. Every method is proved
    against the corresponding function of module Nmea. */
module Receiver {
  import opened Bytes
  import opened Nmea

  class NmeaReceiver {
    const rxBuf: array<byte>
    var rxStrLen: nat
    var gpsLocked: bool
    const ppsErrBuf: array<byte>
    const pdopBuf: array<byte>
    const timeBuf: array<byte>
    const dateBuf: array<byte>

    /** The buffers have their declared sizes and are distinct, and the bytes buffered so
        far form the start of a sentence. */
    ghost predicate Valid()
      reads this, rxBuf
    {
      && rxBuf.Length == RX_BUF_LEN
      && ppsErrBuf.Length == 5 && pdopBuf.Length == 5
      && timeBuf.Length == 7 && dateBuf.Length == 7
      && ppsErrBuf != pdopBuf && timeBuf != dateBuf
      && rxStrLen < RX_BUF_LEN
      && Pending(rxBuf[..rxStrLen])
    }

    /** The bytes received since the '$' of the current line. */
    function Content(): seq<byte>
      reads this, rxBuf
      requires rxStrLen <= rxBuf.Length
    {
      rxBuf[..rxStrLen]
    }

    /** What the sentence handler has parsed so far. */
    function Parsed(): Fields
      reads this, ppsErrBuf, pdopBuf, timeBuf, dateBuf
    {
      Fields(gpsLocked, ppsErrBuf[..], pdopBuf[..], timeBuf[..], dateBuf[..])
    }

    /** The power-on state: no fix, nothing buffered, every text buffer empty. */
    constructor ()
      ensures Valid()
      ensures Content() == [] && !gpsLocked
      ensures Parsed() == Fields(false, [0, 0, 0, 0, 0], [0, 0, 0, 0, 0],
                                 [0, 0, 0, 0, 0, 0, 0], [0, 0, 0, 0, 0, 0, 0])
      ensures fresh(rxBuf) && fresh(ppsErrBuf) && fresh(pdopBuf) && fresh(timeBuf) && fresh(dateBuf)
    {
      rxBuf := new byte[RX_BUF_LEN](_ => 0);
      ppsErrBuf := new byte[5](_ => 0);
      pdopBuf := new byte[5](_ => 0);
      timeBuf := new byte[7](_ => 0);
      dateBuf := new byte[7](_ => 0);
      rxStrLen := 0;
      gpsLocked := false;
      new;
      assert ppsErrBuf[..] == [0, 0, 0, 0, 0];
      assert pdopBuf[..] == [0, 0, 0, 0, 0];
      assert timeBuf[..] == [0, 0, 0, 0, 0, 0, 0];
      assert dateBuf[..] == [0, 0, 0, 0, 0, 0, 0];
    }

    /** The receive interrupt for one byte `c`: the buffered line and the parsed fields
        change as `RxNext` and `HandleSentence` say. */
    method ReceiveByte(c: byte)
      requires Valid()
      modifies this, rxBuf, ppsErrBuf, pdopBuf, timeBuf, dateBuf
      ensures Valid()
      ensures Content() == RxNext(old(Content()), c).content
      ensures var o := RxNext(old(Content()), c);
        Parsed() == (if o.line.Some? then HandleSentence(o.line.value, old(Parsed())) else old(Parsed()))
    {
      RxNextPending(Content(), c);
      if rxStrLen == 0 && c != DOLLAR {
        return;
      }
      ghost var before := Content();
      rxBuf[rxStrLen] := c;
      if c == CR || c == LF {
        rxBuf[rxStrLen] := NUL;
        assert Content() == before;
        HandleGps();
        rxStrLen := 0;
        return;
      }
      assert rxBuf[..rxStrLen + 1] == before + [c];
      rxStrLen := rxStrLen + 1;
      if rxStrLen == RX_BUF_LEN {
        rxStrLen := 0;
      }
    }

    /** `handleGPS` on the buffered line: the parsed fields become what
        `HandleSentence` computes from the old ones. */
    method HandleGps()
      requires Valid()
      modifies this`gpsLocked, ppsErrBuf, pdopBuf, timeBuf, dateBuf
      ensures Valid() && Content() == old(Content())
      ensures Parsed() == HandleSentence(Content(), old(Parsed()))
    {
      ghost var s, f := Content(), Parsed();
      var strLen := rxStrLen;
      if strLen < 9 {
        assert !ChecksumValid(s);
        return;
      }
      var ok := VerifyChecksum();
      if !ok {
        return;
      }
      assert rxBuf[..6] == s[..6] && rxBuf[..8] == s[..8];
      if rxBuf[..6] == GPRMC {
        HandleRmc();
      } else if rxBuf[..6] == GPGSA {
        HandleGsa();
      } else if rxBuf[..8] == PSTI00 {
        HandlePsti();
      }
    }

    /** The checksum test of `handleGPS`: the exclusive-or of the bytes after '$' up to
        the first '*', compared with the two hex characters that follow it. */
    method VerifyChecksum() returns (ok: bool)
      requires Valid() && rxStrLen >= 9
      ensures ok == ChecksumValid(Content())
    {
      ok := ChecksumOf(Content());
    }

    /** `skip_commas` on the buffered line. */
    method SkipCommas(p: nat, num: nat) returns (r: Option<nat>)
      requires Valid() && p <= rxStrLen
      ensures r == Nmea.SkipCommas(Content(), p, num)
    {
      r := SkipCommasIn(Content(), p, num);
    }

    /** `strncpy(dst, ptr, n)` followed by a NUL in the last byte. */
    method StrNCpyTo(dst: array<byte>, p: nat)
      requires Valid() && p <= rxStrLen && dst != rxBuf && dst.Length >= 1
      modifies dst
      ensures dst[..] == StrNCpy(Content(), p, dst.Length - 1) + [NUL]
    {
      StrNCpyInto(dst, Content(), p);
    }

    /** The `memcpy` of the field up to the next comma, cut to one less than the buffer,
        and the terminating NUL. */
    method CopyFieldTo(dst: array<byte>, p: nat)
      requires Valid() && p <= rxStrLen && dst != rxBuf && dst.Length >= 1
      modifies dst
      ensures dst[..] == CopyField(old(dst[..]), Content(), p)
    {
      CopyFieldInto(dst, Content(), p);
    }

    /** $GPRMC: the time after the first comma and the date eight commas later. */
    method HandleRmc()
      requires Valid()
      modifies timeBuf, dateBuf
      ensures Parsed() == Nmea.HandleRmc(Content(), old(Parsed()))
    {
      var p := SkipCommas(0, 1);
      if p.None? {
        return;
      }
      StrNCpyTo(timeBuf, p.value);
      var q := SkipCommas(p.value, 8);
      if q.None? {
        return;
      }
      StrNCpyTo(dateBuf, q.value);
    }

    /** $GPGSA: the fix flag after the second comma, the PDOP thirteen commas later. */
    method HandleGsa()
      requires Valid()
      modifies this`gpsLocked, pdopBuf
      ensures Parsed() == Nmea.HandleGsa(Content(), old(Parsed()))
    {
      ghost var s, f := Content(), Parsed();
      var p := SkipCommas(0, 2);
      if p.None? {
        return;
      }
      var ptr := p.value;
      gpsLocked := ptr < rxStrLen && (rxBuf[ptr] == 0x33 || rxBuf[ptr] == 0x32);
      assert gpsLocked == FixLocked(s, ptr);
      CopyPdop(ptr);
      assert Content() == s && Parsed() == f.(gpsLocked := FixLocked(s, ptr), pdop := pdopBuf[..]);
    }

    /** The second half of $GPGSA: the PDOP field thirteen commas on. */
    method CopyPdop(p: nat)
      requires rxStrLen <= rxBuf.Length && p <= rxStrLen
      requires pdopBuf.Length == 5 && pdopBuf != rxBuf
      modifies pdopBuf
      ensures pdopBuf[..] == PdopField(old(pdopBuf[..]), Content(), p)
    {
      var q := SkipCommasIn(Content(), p, 13);
      if q.None? {
        return;
      }
      CopyFieldInto(pdopBuf, Content(), q.value);
    }

    /** $PSTI,00: the quantization error after the fourth comma. */
    method HandlePsti()
      requires Valid()
      modifies ppsErrBuf
      ensures Parsed() == Nmea.HandlePsti(Content(), old(Parsed()))
    {
      var p := SkipCommas(0, 4);
      if p.None? {
        return;
      }
      CopyFieldTo(ppsErrBuf, p.value);
    }

    /** The main loop's atomic copy of the quantization error text, which then marks it
        consumed by clearing its first byte. */
    method TakePpsErr() returns (text: seq<byte>)
      requires Valid()
      modifies ppsErrBuf
      ensures text == CString(old(ppsErrBuf[..]))
      ensures ppsErrBuf[..] == old(ppsErrBuf[..])[0 := NUL]
    {
      var e := CEnd(ppsErrBuf[..], 0);
      text := ppsErrBuf[..e];
      ppsErrBuf[0] := NUL;
    }

    /** Marking the quantization error consumed (or stale) without reading it. */
    method ClearPpsErr()
      requires Valid()
      modifies ppsErrBuf
      ensures ppsErrBuf[..] == old(ppsErrBuf[..])[0 := NUL]
    {
      ppsErrBuf[0] := NUL;
    }
  }

  /** `skip_commas`: `num` times, find the next comma of the C string and step over it. */
  method SkipCommasIn(s: seq<byte>, p: nat, num: nat) returns (r: Option<nat>)
    requires p <= |s|
    ensures r == Nmea.SkipCommas(s, p, num)
  {
    var ptr: nat := p;
    var i: nat := 0;
    while i < num
      invariant i <= num && ptr <= |s|
      invariant Nmea.SkipCommas(s, p, num) == Nmea.SkipCommas(s, ptr, num - i)
    {
      var next := NextComma(s, ptr);
      ghost var rest: nat := num - i - 1;
      SkipCommasStep(s, ptr, rest + 1);
      if next.None? {
        return None;
      }
      ptr := next.value + 1;
      i := i + 1;
      assert num - i == rest;
    }
    assert Nmea.SkipCommas(s, ptr, 0) == Some(ptr);
    return Some(ptr);
  }

  /** The `memcpy` of the field of `s` at `p` up to the next comma, cut to one less
      than the buffer, and the terminating NUL. */
  method CopyFieldInto(dst: array<byte>, s: seq<byte>, p: nat)
    requires p <= |s| && dst.Length >= 1
    modifies dst
    ensures dst[..] == CopyField(old(dst[..]), s, p)
  {
    var next := NextComma(s, p);
    if next.None? {
      return;
    }
    var len := next.value - p;
    if len > dst.Length - 1 {
      len := dst.Length - 1;
    }
    ghost var want := s[p..p + len] + [NUL] + dst[len + 1..];
    forall k | 0 <= k < len {
      dst[k] := s[p + k];
    }
    dst[len] := NUL;
    assert forall k :: 0 <= k < dst.Length ==> dst[k] == want[k];
    assert dst[..] == want;
  }

  /** The checksum loop of `handleGPS`: the exclusive-or of the bytes from index 1 up
      to the first '*' or the end of the line, and where it stopped. */
  method XorToStar(s: seq<byte>) returns (i: nat, checksum: byte)
    requires |s| >= 1
    ensures 1 <= i <= |s| && checksum == Xor(s[1..i])
    ensures forall k :: 1 <= k < i ==> s[k] != STAR
    ensures i < |s| ==> s[i] == STAR
  {
    checksum := 0;
    i := 1;
    while i < |s|
      invariant 1 <= i <= |s|
      invariant checksum == Xor(s[1..i])
      invariant forall k :: 1 <= k < i ==> s[k] != STAR
    {
      if s[i] == STAR {
        break;
      }
      XorSnoc(s[1..i], s[i]);
      assert s[1..i + 1] == s[1..i] + [s[i]];
      checksum := checksum ^ s[i];
      i := i + 1;
    }
  }

  /** The checksum test of `handleGPS` on the line `s`: the exclusive-or of the bytes
      after '$' up to the first '*', compared with the two hex characters that follow it. */
  method ChecksumOf(s: seq<byte>) returns (ok: bool)
    requires |s| >= 9
    ensures ok == ChecksumValid(s)
  {
    var strLen := |s|;
    var i, checksum := XorToStar(s);
    ChecksumAt(s, i);
    if i > strLen - 3 {
      return false;
    }
    i := i + 1;
    var sentChecksum := SentChecksum(s[i], s[i + 1]);
    ok := sentChecksum == checksum;
  }

  /** `strncpy(dst, ptr, n)` from the C string of `s` at `p`, then a NUL in the last byte. */
  method StrNCpyInto(dst: array<byte>, s: seq<byte>, p: nat)
    requires p <= |s| && dst.Length >= 1
    modifies dst
    ensures dst[..] == StrNCpy(s, p, dst.Length - 1) + [NUL]
  {
    var n := dst.Length - 1;
    var e := CEnd(s, p);
    forall k | 0 <= k < n {
      dst[k] := if p + k < e then s[p + k] else NUL;
    }
    dst[n] := NUL;
    assert dst[..] == StrNCpy(s, p, n) + [NUL];
  }
}
