/** The serial command that sets the oscillator's tuning offset: the command id (0x2c
    stores the value in non-volatile memory, 0x2e does not), the length 9 in two bytes,
    a header checksum, the 32-bit offset most significant octet first, and the
    exclusive-or of the four offset octets. The firmware works with the offset divided
    by 4 and shifts the two low bits back in before sending. */
module Tuning {
  import opened Bytes

  const BIT_REDUCE: nat := 2

  /** The value `last_dac_value` starts with, so that the first write is always sent. */
  const UNSET: int32 := 0x7fff_ffff

  const CMD_NV: byte := 0x2c
  const CMD_VOLATILE: byte := 0x2e

  /** `value <<= BIT_REDUCE` on a 32-bit `long`, as the bit pattern that is sent. */
  function Word(v: int32): uint32
  {
    Wrap(v * 4)
  }

  /** `(unsigned char)(value >> (i * 8))`: octet `i` of the bit pattern. */
  function Octet(w: nat, i: nat): byte
    decreases i
  {
    if i == 0 then (w % 256) as byte else Octet(w / 256, i - 1)
  }

  /** Octet `i` of `w` as a number. */
  function Digit(w: nat, i: nat): (d: nat)
    ensures d < 256
    decreases i
  {
    if i == 0 then w % 256 else Digit(w / 256, i - 1)
  }

  lemma {:induction false} OctetDigit(w: nat, i: nat)
    ensures Octet(w, i) as nat == Digit(w, i)
    decreases i
  {
    if i > 0 {
      OctetDigit(w / 256, i - 1);
    } else {
      ByteOfNat(w % 256);
    }
  }

  lemma ByteOfNat(x: nat)
    requires x < 256
    ensures (x as byte) as nat == x
  {
    if x < 16 {
    } else if x < 64 {
    } else if x < 128 {
    } else {
    }
  }

  function Header(nonVolatile: bool): seq<byte>
  {
    if nonVolatile then [CMD_NV, 0x09, 0x00, 0x25] else [CMD_VOLATILE, 0x09, 0x00, 0x27]
  }

  function Payload(w: uint32): seq<byte>
  {
    [Octet(w, 3), Octet(w, 2), Octet(w, 1), Octet(w, 0)]
  }

  lemma PayloadAt(w: uint32, i: nat)
    requires i < 4
    ensures Payload(w)[3 - i] == Octet(w, i)
  {
  }

  /** The nine bytes of one tuning command. */
  function Frame(nonVolatile: bool, w: uint32): seq<byte>
  {
    Header(nonVolatile) + Payload(w) + [Xor(Payload(w))]
  }

  /** A tuning command as the oscillator reads it. */
  datatype Command = Command(nonVolatile: bool, word: uint32)

  /** What the oscillator accepts: a known id, length 9, a header checksum equal to the
      exclusive-or of the first three bytes, and a payload checksum equal to the
      exclusive-or of the four offset octets. */
  function ParseFrame(f: seq<byte>): (r: Option<Command>)
    ensures r.Some? ==> |f| == 9 && f[8] == Xor(f[4..8])
  {
    if |f| != 9 then None
    else if f[0] != CMD_NV && f[0] != CMD_VOLATILE then None
    else if f[1] != 0x09 || f[2] != 0x00 || f[3] != f[0] ^ f[1] ^ f[2] then None
    else if f[8] != Xor(f[4..8]) then None
    else Some(Command(f[0] == CMD_NV, Assemble(f[4..8])))
  }

  /** The offset the oscillator applies for a received word. */
  function Offset(w: uint32): int
  {
    Signed32(w)
  }

  /** The octets of a word, most significant first, put back together give the word. */
  lemma OctetsRecombine(w: uint32)
    ensures Octet(w, 3) as nat * 0x100_0000 + Octet(w, 2) as nat * 0x1_0000
          + Octet(w, 1) as nat * 0x100 + Octet(w, 0) as nat == w
  {
    OctetDigit(w, 0);
    OctetDigit(w, 1);
    OctetDigit(w, 2);
    OctetDigit(w, 3);
    DigitsRecombine(w);
  }

  lemma DigitsRecombine(w: uint32)
    ensures Digit(w, 3) * 0x100_0000 + Digit(w, 2) * 0x1_0000 + Digit(w, 1) * 0x100 + Digit(w, 0) == w
  {
    var w1 := w / 256;
    var w2 := w1 / 256;
    var w3 := w2 / 256;
    assert w3 < 256;
    assert Digit(w, 3) == w3 && Digit(w, 2) == w2 % 256 && Digit(w, 1) == w1 % 256 && Digit(w, 0) == w % 256;
  }

  /** Every command the firmware builds is accepted, with the id and word it was built
      from. */
  lemma FrameParses(nonVolatile: bool, w: uint32)
    ensures ParseFrame(Frame(nonVolatile, w)) == Some(Command(nonVolatile, w))
  {
    var f := Frame(nonVolatile, w);
    assert f[4..8] == Payload(w);
    OctetsRecombine(w);
  }

  lemma NatOfByte(b: byte)
    ensures b as nat < 256 && (b as nat) as byte == b
  {
  }

  /** The digits of a word assembled from four numbers below 256 are those numbers. */
  lemma DigitsOfWord(w: nat, b4: nat, b5: nat, b6: nat, b7: nat)
    requires b4 < 256 && b5 < 256 && b6 < 256 && b7 < 256
    requires w == b4 * 0x100_0000 + b5 * 0x1_0000 + b6 * 0x100 + b7
    ensures Digit(w, 3) == b4 && Digit(w, 2) == b5 && Digit(w, 1) == b6 && Digit(w, 0) == b7
  {
    assert w / 256 == b4 * 0x1_0000 + b5 * 0x100 + b6;
    assert w / 256 / 256 == b4 * 0x100 + b5;
    assert w / 256 / 256 / 256 == b4;
  }

  lemma ParsedHeader(f: seq<byte>)
    requires ParseFrame(f).Some?
    ensures f[..4] == Header(ParseFrame(f).value.nonVolatile)
  {
  }

  /** The number an octet stands for. */
  function Val(b: byte): (n: nat)
    ensures n < 256
  {
    b as nat
  }

  /** The word the oscillator assembles from four octets, most significant first. */
  function Assemble(b: seq<byte>): uint32
    requires |b| == 4
  {
    Val(b[0]) * 0x100_0000 + Val(b[1]) * 0x1_0000 + Val(b[2]) * 0x100 + Val(b[3])
  }

  lemma AssembledDigits(b: seq<byte>)
    requires |b| == 4
    ensures Digit(Assemble(b), 3) == Val(b[0]) && Digit(Assemble(b), 2) == Val(b[1])
    ensures Digit(Assemble(b), 1) == Val(b[2]) && Digit(Assemble(b), 0) == Val(b[3])
  {
    DigitsOfWord(Assemble(b), Val(b[0]), Val(b[1]), Val(b[2]), Val(b[3]));
  }

  /** Assembling four octets and taking the word apart again gives the same octets. */
  lemma AssembledPayload(b: seq<byte>)
    requires |b| == 4
    ensures Payload(Assemble(b)) == b
  {
    var w := Assemble(b);
    AssembledDigits(b);
    OctetByte(w, 3, b[0]);
    OctetByte(w, 2, b[1]);
    OctetByte(w, 1, b[2]);
    OctetByte(w, 0, b[3]);
  }

  /** Every accepted command is exactly the one the firmware builds for its id and word. */
  lemma ParsedIsFrame(f: seq<byte>)
    requires ParseFrame(f).Some?
    ensures f == Frame(ParseFrame(f).value.nonVolatile, ParseFrame(f).value.word)
  {
    ParsedHeader(f);
    AssembledPayload(f[4..8]);
    assert f == f[..4] + f[4..8] + [f[8]];
  }

  lemma OctetByte(w: nat, i: nat, b: byte)
    requires Digit(w, i) == Val(b)
    ensures Octet(w, i) == b
  {
    OctetDigit(w, i);
    NatOfByte(b);
    NatOfByte(Octet(w, i));
  }

  /** Changing any one byte of a command makes the oscillator reject it. */
  lemma FrameCorrupted(nonVolatile: bool, w: uint32, j: nat, d: byte)
    requires j < 9 && d != Frame(nonVolatile, w)[j]
    ensures ParseFrame(Frame(nonVolatile, w)[j := d]).None?
  {
    var f := Frame(nonVolatile, w);
    var g := f[j := d];
    if 4 <= j < 8 {
      assert g[4..8] == f[4..8][j - 4 := d];
      XorUpdate(f[4..8], j - 4, d);
      assert f[4..8] == Payload(w);
    } else if j == 8 {
      assert g[4..8] == f[4..8];
    }
  }

  /** The offset the oscillator applies is four times the firmware's value reduced to 30
      bits, so it is exact for every value within 2^29 of zero. */
  lemma OffsetOfValue(v: int32)
    ensures Offset(Word(v)) == 4 * ((v + 0x2000_0000) % 0x4000_0000 - 0x2000_0000)
    ensures -0x2000_0000 <= v < 0x2000_0000 ==> Offset(Word(v)) == 4 * v
  {
    var m := (v + 0x2000_0000) % 0x4000_0000;
    var q := (v + 0x2000_0000) / 0x4000_0000;
    assert v * 4 == 4 * m - 0x8000_0000 + q * TWO32;
    assert Wrap(v * 4) == (4 * m - 0x8000_0000) % TWO32;
  }

  /** What `writeDacValue(value, nv)` sends after `last` was written: nothing when the
      value is the one last written, else one command. */
  function Emit(last: int32, v: int32, nonVolatile: bool): seq<byte>
  {
    if v == last then [] else Frame(nonVolatile, Word(v))
  }

  /** A write is either suppressed or delivers exactly the requested value to the
      oscillator; two writes of the same value in a row send one command. */
  lemma EmitDelivers(last: int32, v: int32, nonVolatile: bool)
    ensures Emit(last, v, nonVolatile) == [] <==> v == last
    ensures v != last ==> ParseFrame(Emit(last, v, nonVolatile)) == Some(Command(nonVolatile, Word(v)))
    ensures Emit(v, v, nonVolatile) == []
  {
    if v != last {
      FrameParses(nonVolatile, Word(v));
    }
  }

  /** The oscillator's serial port: the firmware's `last_dac_value` and every byte sent. */
  class TuningWriter {
    var lastDacValue: int32
    var sent: seq<byte>

    constructor ()
      ensures lastDacValue == UNSET && sent == []
    {
      lastDacValue := UNSET;
      sent := [];
    }

    /** `tx_osc_byte`: one byte out of the oscillator's serial port. */
    method TxOscByte(c: byte)
      modifies this`sent
      ensures sent == old(sent) + [c]
    {
      sent := sent + [c];
    }

    /** `writeDacValue`: remember the value and send it, unless it is the value last
        written. */
    method WriteDacValue(value: int32, nonVolatile: bool)
      modifies this
      ensures lastDacValue == value
      ensures sent == old(sent) + Emit(old(lastDacValue), value, nonVolatile)
    {
      if value == lastDacValue {
        return;
      }
      lastDacValue := value;
      var shifted: uint32 := Wrap(value * 4);
      ghost var start := sent;
      TxOscByte(if nonVolatile then CMD_NV else CMD_VOLATILE);
      TxOscByte(0x09);
      TxOscByte(0x00);
      TxOscByte(if nonVolatile then 0x25 else 0x27);
      assert sent == start + Header(nonVolatile);
      var cksum := SendOctets(shifted);
      TxOscByte(cksum);
      assert sent == start + (Header(nonVolatile) + Payload(shifted) + [cksum]);
    }

    /** The octet loop of `writeDacValue`: the four octets of the word, most significant
        first, and their exclusive-or. */
    method SendOctets(shifted: uint32) returns (cksum: byte)
      modifies this`sent
      ensures sent == old(sent) + Payload(shifted)
      ensures cksum == Xor(Payload(shifted))
    {
      ghost var payload := Payload(shifted);
      cksum := 0;
      var i: int := 3;
      while i >= 0
        invariant -1 <= i <= 3
        invariant sent == old(sent) + payload[..3 - i]
        invariant cksum == Xor(payload[..3 - i])
      {
        var octet := Octet(shifted, i);
        PayloadAt(shifted, i);
        ghost var done := payload[..3 - i];
        assert payload[..3 - i + 1] == done + [octet];
        XorSnoc(done, octet);
        cksum := cksum ^ octet;
        TxOscByte(octet);
        i := i - 1;
      }
      assert payload[..4] == payload;
    }
  }
}
