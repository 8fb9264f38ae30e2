/** Bytes, 32-bit words, optional values and the exclusive-or fold shared by the NMEA
    checksum and the oscillator command checksum. */
module Bytes {

  /** An 8-bit `unsigned char`. */
  type byte = bv8

  const TWO32: int := 0x1_0000_0000

  /** A 32-bit `long`. */
  type int32 = x: int | -0x8000_0000 <= x < 0x8000_0000

  /** A 32-bit `unsigned long`. */
  type uint32 = x: int | 0 <= x < 0x1_0000_0000

  /** Conversion to `unsigned long`: reduction modulo 2^32. */
  function Wrap(x: int): uint32
  {
    x % TWO32
  }

  /** Conversion of an `unsigned long` bit pattern to `long` (two's complement). */
  function Signed32(w: uint32): int32
  {
    if w < 0x8000_0000 then w else w - TWO32
  }

  const TWO16: int := 0x1_0000

  /** A 16-bit `int`, the width of `int` on the AVR. */
  type int16 = x: int | -0x8000 <= x < 0x8000

  /** A 16-bit `unsigned int`. */
  type uint16 = x: int | 0 <= x < 0x1_0000

  /** Reduction modulo 2^16. */
  function Wrap16(x: int): uint16
  {
    x % TWO16
  }

  /** Conversion of an `unsigned int` bit pattern to `int` (two's complement). */
  function Signed16(w: uint16): int16
  {
    if w < 0x8000 then w else w - TWO16
  }

  /** A C `char *` that may be NULL, or an index that may be absent. */
  datatype Option<T> = None | Some(value: T)

  /** Exclusive-or of all bytes of `s`, folded from the left as the firmware's loops do. */
  function Xor(s: seq<byte>): byte
  {
    if s == [] then 0 else Xor(s[..|s| - 1]) ^ s[|s| - 1]
  }

  lemma XorSnoc(s: seq<byte>, b: byte)
    ensures Xor(s + [b]) == Xor(s) ^ b
  {
    assert (s + [b])[..|s|] == s;
  }

  /** Replacing one byte `s[j]` by `d` changes the fold by exactly `s[j] ^ d`. */
  lemma {:induction false} XorUpdate(s: seq<byte>, j: nat, d: byte)
    requires j < |s|
    ensures Xor(s[j := d]) == Xor(s) ^ s[j] ^ d
  {
    var n := |s| - 1;
    if j == n {
      assert s[j := d][..n] == s[..n];
    } else {
      assert s[j := d][..n] == s[..n][j := d];
      XorUpdate(s[..n], j, d);
    }
  }

  /** How many bytes of `s` equal `c`. */
  function Count(s: seq<byte>, c: byte): nat
  {
    if s == [] then 0 else Count(s[..|s| - 1], c) + (if s[|s| - 1] == c then 1 else 0)
  }

  lemma {:induction false} CountConcat(a: seq<byte>, b: seq<byte>, c: byte)
    ensures Count(a + b, c) == Count(a, c) + Count(b, c)
    decreases |b|
  {
    if b != [] {
      var n := |b| - 1;
      assert (a + b)[..|a + b| - 1] == a + b[..n];
      CountConcat(a, b[..n], c);
    } else {
      assert a + b == a;
    }
  }

  lemma {:induction false} CountAbsent(s: seq<byte>, c: byte)
    requires forall k :: 0 <= k < |s| ==> s[k] != c
    ensures Count(s, c) == 0
    decreases |s|
  {
    if s != [] {
      CountAbsent(s[..|s| - 1], c);
    }
  }
}
