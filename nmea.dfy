/** The GPS receiver's sentence protocol as the firmware handles it: framing of the
    received byte stream into lines, the NMEA 0183 checksum ("*hh": the exclusive-or of
    the characters between '$' and '*' as two hex digits), location of comma-separated
    fields, and the effect of an accepted $GPRMC, $GPGSA or $PSTI,00 sentence on the
    parsed fields.

    A received line is modelled as the bytes the receive buffer holds before the
    terminator; the firmware writes a NUL where the terminator was, so every C string
    operation on the buffer ends at the first NUL of the line or at its end. */
module Nmea {
  import opened Bytes

  const RX_BUF_LEN: nat := 96

  const NUL: byte := 0x00
  const LF: byte := 0x0a
  const CR: byte := 0x0d
  const DOLLAR: byte := 0x24
  const STAR: byte := 0x2a
  const COMMA: byte := 0x2c

  predicate IsEol(c: byte) { c == CR || c == LF }

  /* ---------------- Framing: the receive interrupt ---------------- */

  /** The effect of one received byte on the buffered line: the new buffered bytes and
      the line, if any, handed to the sentence handler. */
  datatype RxOutcome = RxOutcome(content: seq<byte>, line: Option<seq<byte>>)

  function RxNext(content: seq<byte>, c: byte): (r: RxOutcome)
    requires |content| < RX_BUF_LEN
    ensures |r.content| < RX_BUF_LEN
  {
    if |content| == 0 && c != DOLLAR then RxOutcome(content, None)  // wait for '$'
    else if IsEol(c) then RxOutcome([], Some(content))
    else if |content| + 1 == RX_BUF_LEN then RxOutcome([], None)   // too long: start over
    else RxOutcome(content + [c], None)
  }

  /** Feeding a stream of bytes: the buffered bytes at the end and the lines delivered. */
  function RxRun(content: seq<byte>, bytes: seq<byte>): (r: (seq<byte>, seq<seq<byte>>))
    requires |content| < RX_BUF_LEN
    decreases |bytes|
  {
    if bytes == [] then (content, [])
    else
      var o := RxNext(content, bytes[0]);
      var rest := RxRun(o.content, bytes[1..]);
      (rest.0, (if o.line.Some? then [o.line.value] else []) + rest.1)
  }

  /** What the receive buffer can hold between two bytes. */
  predicate Pending(content: seq<byte>)
  {
    && |content| < RX_BUF_LEN
    && (content != [] ==> content[0] == DOLLAR)
    && forall k :: 0 <= k < |content| ==> !IsEol(content[k])
  }

  /** What can reach the sentence handler. */
  predicate Line(line: seq<byte>)
  {
    && 1 <= |line| < RX_BUF_LEN
    && line[0] == DOLLAR
    && forall k :: 0 <= k < |line| ==> !IsEol(line[k])
  }

  /** One received byte keeps the buffer in shape, and a line it delivers can reach the
      sentence handler. */
  lemma RxNextPending(content: seq<byte>, c: byte)
    requires Pending(content)
    ensures Pending(RxNext(content, c).content)
    ensures RxNext(content, c).line.Some? ==> Line(RxNext(content, c).line.value)
  {
  }

  /** Whatever the byte stream, every line delivered starts with '$', is shorter than the
      buffer and holds no terminator, and the buffer stays in that shape. */
  lemma {:induction false} RxRunLines(content: seq<byte>, bytes: seq<byte>)
    requires Pending(content)
    ensures Pending(RxRun(content, bytes).0)
    ensures forall k :: 0 <= k < |RxRun(content, bytes).1| ==> Line(RxRun(content, bytes).1[k])
    decreases |bytes|
  {
    if bytes != [] {
      var o := RxNext(content, bytes[0]);
      RxNextPending(content, bytes[0]);
      RxRunLines(o.content, bytes[1..]);
    }
  }

  lemma {:induction false} RxRunRest(line: seq<byte>, k: nat, eol: byte)
    requires Line(line) && IsEol(eol) && 1 <= k <= |line|
    ensures RxRun(line[..k], line[k..] + [eol]) == ([], [line])
    decreases |line| - k
  {
    var bytes := line[k..] + [eol];
    if k == |line| {
      assert line[..k] == line;
      assert bytes == [eol] && bytes[1..] == [];
      assert RxNext(line, eol) == RxOutcome([], Some(line));
      assert RxRun([], []) == ([], []);
      assert RxRun(line, [eol]) == ([], [line] + []);
      assert [line] + [] == [line];
    } else {
      assert line[k..] == [line[k]] + line[k + 1..];
      assert bytes == [line[k]] + (line[k + 1..] + [eol]);
      assert line[..k] + [line[k]] == line[..k + 1];
      assert RxNext(line[..k], line[k]) == RxOutcome(line[..k + 1], None);
      RxRunRest(line, k + 1, eol);
      var rest := RxRun(line[..k + 1], bytes[1..]);
      assert RxRun(line[..k], bytes) == (rest.0, [] + rest.1);
      assert [] + rest.1 == rest.1;
    }
  }

  /** A well-formed line followed by CR or LF, received from an empty buffer, is handed
      to the sentence handler exactly once and unchanged, and the buffer ends empty. */
  lemma RxRunSentence(line: seq<byte>, eol: byte)
    requires Line(line) && IsEol(eol)
    ensures RxRun([], line + [eol]) == ([], [line])
  {
    var bytes := line + [eol];
    assert bytes[0] == DOLLAR;
    assert bytes[1..] == line[1..] + [eol];
    assert line[..1] == [DOLLAR];
    assert RxNext([], DOLLAR) == RxOutcome(line[..1], None);
    RxRunRest(line, 1, eol);
    var rest := RxRun(line[..1], bytes[1..]);
    assert RxRun([], bytes) == (rest.0, [] + rest.1);
    assert [] + rest.1 == rest.1;
  }

  /* ---------------- Searching: strchr ---------------- */

  /** The first index at or after `i` where `s` holds `c`. */
  function Find(s: seq<byte>, c: byte, i: nat): (r: Option<nat>)
    requires i <= |s|
    ensures r.Some? ==> i <= r.value < |s| && s[r.value] == c
    ensures r.Some? ==> forall k :: i <= k < r.value ==> s[k] != c
    ensures r.None? ==> forall k :: i <= k < |s| ==> s[k] != c
    decreases |s| - i
  {
    if i == |s| then None else if s[i] == c then Some(i) else Find(s, c, i + 1)
  }

  /** `Find` is determined by its contract: the first occurrence is the answer. */
  lemma FindAt(s: seq<byte>, c: byte, i: nat, k: nat)
    requires i <= k < |s| && s[k] == c
    requires forall j :: i <= j < k ==> s[j] != c
    ensures Find(s, c, i) == Some(k)
  {
  }

  /** Where the C string starting at `p` ends: its first NUL, or the end of the line. */
  function CEnd(s: seq<byte>, p: nat): (e: nat)
    requires p <= |s|
    ensures p <= e <= |s|
    ensures forall k :: p <= k < e ==> s[k] != NUL
    ensures e < |s| ==> s[e] == NUL
  {
    match Find(s, NUL, p)
    case None => |s|
    case Some(e) => e
  }

  /** Every suffix of a C string ends where the string ends. */
  lemma CEndSuffix(s: seq<byte>, p: nat, m: nat)
    requires p <= |s| && p <= m <= CEnd(s, p)
    ensures CEnd(s, m) == CEnd(s, p)
  {
  }

  /** The bytes of the C string stored in `s` from its start. */
  function CString(s: seq<byte>): seq<byte>
  {
    s[..CEnd(s, 0)]
  }

  /** `strchr(ptr, ',')`: the next comma of the C string at `p`. */
  function NextComma(s: seq<byte>, p: nat): (r: Option<nat>)
    requires p <= |s|
    ensures r.Some? ==> p <= r.value < CEnd(s, p) && s[r.value] == COMMA
    ensures r.Some? ==> forall k :: p <= k < r.value ==> s[k] != COMMA
    ensures r.None? ==> forall k :: p <= k < CEnd(s, p) ==> s[k] != COMMA
  {
    Find(s[..CEnd(s, p)], COMMA, p)
  }

  /* ---------------- hexChar ---------------- */

  /** "0123456789abcdef", the table `hexChar` searches with `strchr_P`. */
  const HEXES: seq<byte> := [0x30, 0x31, 0x32, 0x33, 0x34, 0x35, 0x36, 0x37,
                             0x38, 0x39, 0x61, 0x62, 0x63, 0x64, 0x65, 0x66]

  /** Upper-case letters are folded to lower case, then the character is looked up in
      the table; `strchr_P` also finds the table's terminating NUL. */
  function HexChar(c: byte): byte
  {
    var lower := if 0x41 <= c <= 0x46 then c + 0x20 else c;
    match Find(HEXES + [NUL], lower, 0)
    case None => 0
    case Some(k) => k as byte
  }

  predicate IsHexDigit(c: byte)
  {
    0x30 <= c <= 0x39 || 0x61 <= c <= 0x66 || 0x41 <= c <= 0x46
  }

  /** The value of a hex digit in either case. */
  function HexValue(c: byte): (v: byte)
    requires IsHexDigit(c)
    ensures v < 16
  {
    if c <= 0x39 then c - 0x30 else if c >= 0x61 then c - 0x61 + 10 else c - 0x41 + 10
  }

  lemma HexTableAt(c: byte, k: nat)
    requires k < 17 && (HEXES + [NUL])[k] == c
    ensures Find(HEXES + [NUL], c, 0) == Some(k)
  {
    var t := HEXES + [NUL];
    assert forall i, j :: 0 <= i < j < 17 ==> t[i] < t[j] || j == 16;
  }

  /** `hexChar` maps a hex digit of either case to its value, NUL to 16 (the index of the
      table's terminator) and every other byte to 0. */
  lemma HexCharValue(c: byte)
    ensures IsHexDigit(c) ==> HexChar(c) == HexValue(c)
    ensures c == NUL ==> HexChar(c) == 16
    ensures !IsHexDigit(c) && c != NUL ==> HexChar(c) == 0
  {
    var t := HEXES + [NUL];
    var lower := if 0x41 <= c <= 0x46 then c + 0x20 else c;
    if IsHexDigit(c) {
      var k := HexValue(c) as nat;
      assert t[k] == lower;
      HexTableAt(lower, k);
    } else if c == NUL {
      HexTableAt(lower, 16);
    } else {
      HexCharOther(c);
    }
  }

  /** A byte that is neither a hex digit nor NUL is not in the table. */
  lemma HexCharOther(c: byte)
    requires !IsHexDigit(c) && c != NUL
    ensures HexChar(c) == 0
  {
    var t := HEXES + [NUL];
    assert forall k :: 0 <= k < 17 ==> t[k] != c;
  }

  /* ---------------- The checksum ---------------- */

  /** Where the checksum loop stops: the first '*' after the '$', or the end of the line. */
  function StarIndex(s: seq<byte>): nat
    requires 1 <= |s|
  {
    match Find(s, STAR, 1)
    case None => |s|
    case Some(k) => k
  }

  /** The checksum the sentence claims, from the two characters after the '*'. */
  function SentChecksum(d1: byte, d2: byte): byte
  {
    (HexChar(d1) << 4) | HexChar(d2)
  }

  /** `handleGPS`'s acceptance test: at least 9 bytes, a '*' with room for two checksum
      characters after it, and the exclusive-or of the bytes between '$' and '*' equal to
      the checksum those two characters spell. */
  predicate ChecksumValid(s: seq<byte>)
  {
    && |s| >= 9
    && StarIndex(s) <= |s| - 3
    && Xor(s[1..StarIndex(s)]) == SentChecksum(s[StarIndex(s) + 1], s[StarIndex(s) + 2])
  }

  /** Where a scan from index 1 has stopped, at the first '*' or the end of the line,
      acceptance is decided by the room after that point and the two characters there. */
  lemma ChecksumAt(s: seq<byte>, i: nat)
    requires |s| >= 9 && 1 <= i <= |s|
    requires forall k :: 1 <= k < i ==> s[k] != STAR
    requires i < |s| ==> s[i] == STAR
    ensures StarIndex(s) == i
    ensures ChecksumValid(s) <==>
      i <= |s| - 3 && Xor(s[1..i]) == SentChecksum(s[i + 1], s[i + 2])
  {
    if i < |s| {
      FindAt(s, STAR, 1, i);
    }
  }

  /** The upper-case digit a talker writes for a nibble. */
  function HexDigit(n: byte): (d: byte)
    requires n < 16
    ensures IsHexDigit(d) && HexValue(d) == n
  {
    if n < 10 then 0x30 + n else 0x41 + (n - 10)
  }

  /** The sentence a talker sends for `body`: '$', the body, '*' and the checksum. */
  function Sentence(body: seq<byte>): seq<byte>
  {
    [DOLLAR] + body + [STAR, HexDigit(Xor(body) >> 4), HexDigit(Xor(body) & 0x0f)]
  }

  /** Every sentence built from a body of at least five bytes without '*' is accepted. */
  lemma SentenceAccepted(body: seq<byte>)
    requires |body| >= 5
    requires forall k :: 0 <= k < |body| ==> body[k] != STAR
    ensures ChecksumValid(Sentence(body))
  {
    var s := Sentence(body);
    var x := Xor(body);
    assert Find(s, STAR, 1) == Some(|body| + 1) by {
      assert s[|body| + 1] == STAR;
      assert forall k :: 1 <= k < |body| + 1 ==> s[k] == body[k - 1];
    }
    assert s[1..|body| + 1] == body;
    HexCharValue(HexDigit(x >> 4));
    HexCharValue(HexDigit(x & 0x0f));
    assert ((x >> 4) << 4) | (x & 0x0f) == x;
  }

  /** Two nibbles are recovered from the byte `hexChar`'s results are packed into, so
      two packed pairs are equal exactly when both nibbles are. */
  lemma NibblesPacked(a1: byte, b1: byte, a2: byte, b2: byte)
    requires a1 < 16 && b1 < 16 && a2 < 16 && b2 < 16
    ensures (a1 << 4) | b1 == (a2 << 4) | b2 <==> a1 == a2 && b1 == b2
  {
    assert ((a1 << 4) | b1) >> 4 == a1 && ((a1 << 4) | b1) & 0x0f == b1;
    assert ((a2 << 4) | b2) >> 4 == a2 && ((a2 << 4) | b2) & 0x0f == b2;
  }

  /** Changing one of two hex-digit checksum characters to a hex digit of another value
      makes an accepted sentence rejected. */
  lemma ChecksumDigitCorrupted(s: seq<byte>, j: nat, d: byte)
    requires ChecksumValid(s)
    requires IsHexDigit(s[StarIndex(s) + 1]) && IsHexDigit(s[StarIndex(s) + 2])
    requires j == StarIndex(s) + 1 || j == StarIndex(s) + 2
    requires IsHexDigit(d) && HexValue(d) != HexValue(s[j])
    ensures !ChecksumValid(s[j := d])
  {
    var t := s[j := d];
    var k := StarIndex(s);
    StarKept(s, t, k);
    assert t[1..k] == s[1..k];
    SentChecksumDigits(s[k + 1], s[k + 2], t[k + 1], t[k + 2]);
  }

  /** Two checksums spelled with hex digits agree only if their digits have the same
      values. */
  lemma SentChecksumDigits(a1: byte, b1: byte, a2: byte, b2: byte)
    requires IsHexDigit(a1) && IsHexDigit(b1) && IsHexDigit(a2) && IsHexDigit(b2)
    ensures SentChecksum(a1, b1) == SentChecksum(a2, b2) ==> HexValue(a1) == HexValue(a2) && HexValue(b1) == HexValue(b2)
  {
    HexCharValue(a1);
    HexCharValue(b1);
    HexCharValue(a2);
    HexCharValue(b2);
    NibblesPacked(HexChar(a1), HexChar(b1), HexChar(a2), HexChar(b2));
  }

  /** The low four bits of `hexChar`'s result: a hex digit's value, and 0 for every
      other byte, NUL included (whose 16 has only bit 4 set). */
  function Nibble(c: byte): (n: byte)
    ensures n < 16
    ensures IsHexDigit(c) ==> n == HexValue(c)
    ensures !IsHexDigit(c) ==> n == 0
  {
    HexCharValue(c);
    HexChar(c) & 0x0f
  }

  /** The packed checksum in terms of nibbles: a NUL as the second character sets the
      low bit of the first one's nibble, and a NUL as the first is shifted out. */
  lemma SentChecksumNibbles(d1: byte, d2: byte)
    ensures SentChecksum(d1, d2) == ((Nibble(d1) | (if d2 == NUL then 1 else 0)) << 4) | Nibble(d2)
  {
    HexCharValue(d1);
    HexCharValue(d2);
    var h := HexChar(d1);
    var l := HexChar(d2);
    assert h << 4 == (h & 0x0f) << 4;
    if d2 == NUL {
      assert (h << 4) | l == ((h & 0x0f) | 1) << 4;
    } else {
      assert (h << 4) | l == ((h & 0x0f) << 4) | (l & 0x0f);
    }
  }

  /** The byte-level form of the rule below: replacing one of two hex digits `a`, `b`
      by `d` leaves the packed checksum the same exactly when `d` has the replaced
      digit's nibble and, in the second place, NUL only after an odd first digit. */
  lemma SentChecksumReplaced(a: byte, b: byte, d: byte)
    requires IsHexDigit(a) && IsHexDigit(b)
    ensures SentChecksum(d, b) == SentChecksum(a, b) <==> Nibble(d) == HexValue(a)
    ensures SentChecksum(a, d) == SentChecksum(a, b) <==>
      Nibble(d) == HexValue(b) && (d == NUL ==> HexValue(a) % 2 == 1)
  {
    SentChecksumNibbles(a, b);
    SentChecksumNibbles(d, b);
    SentChecksumNibbles(a, d);
    var na, nb, nd := Nibble(a), Nibble(b), Nibble(d);
    NibblesPacked(nd, nb, na, nb);
    var hi: byte := na | (if d == NUL then 1 else 0);
    assert hi < 16;
    NibblesPacked(hi, nd, na, nb);
    assert hi == na <==> (d == NUL ==> na % 2 == 1);
  }

  /** Which replacements of a checksum character an accepted sentence, sent with two
      hex digits, survives: exactly those with the same `Nibble`, so any byte that is
      not a hex digit stands for 0; and for the second character also NUL when the
      first digit is odd. */
  lemma ChecksumDigitRule(s: seq<byte>, d: byte)
    requires ChecksumValid(s)
    requires IsHexDigit(s[StarIndex(s) + 1]) && IsHexDigit(s[StarIndex(s) + 2])
    ensures ChecksumValid(s[StarIndex(s) + 1 := d]) <==> Nibble(d) == HexValue(s[StarIndex(s) + 1])
    ensures ChecksumValid(s[StarIndex(s) + 2 := d]) <==>
      Nibble(d) == HexValue(s[StarIndex(s) + 2]) && (d == NUL ==> HexValue(s[StarIndex(s) + 1]) % 2 == 1)
  {
    var k := StarIndex(s);
    ChecksumCharReplaced(s, k + 1, d);
    ChecksumCharReplaced(s, k + 2, d);
    SentChecksumReplaced(s[k + 1], s[k + 2], d);
  }

  /** A checksum character of an accepted sentence replaced: the result is accepted
      exactly when the two characters still spell the same checksum. */
  lemma ChecksumCharReplaced(s: seq<byte>, j: nat, d: byte)
    requires ChecksumValid(s)
    requires j == StarIndex(s) + 1 || j == StarIndex(s) + 2
    ensures ChecksumValid(s[j := d]) <==>
      SentChecksum(s[j := d][StarIndex(s) + 1], s[j := d][StarIndex(s) + 2]) == SentChecksum(s[StarIndex(s) + 1], s[StarIndex(s) + 2])
  {
    var k := StarIndex(s);
    var t := s[j := d];
    StarKept(s, t, k);
    assert t[1..k] == s[1..k];
  }

  /** A sentence a talker builds, "$AAAAAA*00", is still accepted with its second
      checksum digit replaced by 'G' or its first by NUL: corrupting a checksum
      character is not always detected. */
  lemma ChecksumNonHexAccepted()
    ensures var s: seq<byte> := [DOLLAR, 0x41, 0x41, 0x41, 0x41, 0x41, 0x41, STAR, 0x30, 0x30];
      && s == Sentence([0x41, 0x41, 0x41, 0x41, 0x41, 0x41])
      && ChecksumValid(s) && ChecksumValid(s[9 := 0x47]) && ChecksumValid(s[8 := NUL])
  {
    var s: seq<byte> := [DOLLAR, 0x41, 0x41, 0x41, 0x41, 0x41, 0x41, STAR, 0x30, 0x30];
    ExampleSentence();
    ChecksumDigitRule(s, 0x47);
    ChecksumDigitRule(s, NUL);
  }

  /** "$AAAAAA*00" is the sentence a talker sends for "AAAAAA", with its '*' at 7. */
  lemma ExampleSentence()
    ensures var s: seq<byte> := [DOLLAR, 0x41, 0x41, 0x41, 0x41, 0x41, 0x41, STAR, 0x30, 0x30];
      s == Sentence([0x41, 0x41, 0x41, 0x41, 0x41, 0x41]) && ChecksumValid(s) && StarIndex(s) == 7
  {
    var body: seq<byte> := [0x41, 0x41, 0x41, 0x41, 0x41, 0x41];
    var s: seq<byte> := [DOLLAR, 0x41, 0x41, 0x41, 0x41, 0x41, 0x41, STAR, 0x30, 0x30];
    assert Xor(body) == 0 by {
      for k := 0 to 6
        invariant Xor(body[..k]) == (if k % 2 == 0 then 0 else 0x41)
      {
        assert body[..k + 1][..k] == body[..k];
      }
      assert body[..6] == body;
    }
    assert HexDigit(0 >> 4) == 0x30 && HexDigit(0 & 0x0f) == 0x30;
    assert s == Sentence(body);
    SentenceAccepted(body);
    FindAt(s, STAR, 1, 7);
  }

  /** Changing one byte between '$' and '*' to any other byte except '*' makes an
      accepted sentence rejected. */
  lemma ChecksumBodyCorrupted(s: seq<byte>, j: nat, d: byte)
    requires ChecksumValid(s)
    requires 1 <= j < StarIndex(s) && d != s[j] && d != STAR
    ensures !ChecksumValid(s[j := d])
  {
    var t := s[j := d];
    var k := StarIndex(s);
    StarKept(s, t, k);
    assert t[1..k] == s[1..k][j - 1 := d];
    XorUpdate(s[1..k], j - 1, d);
  }

  /** What `ChecksumBodyCorrupted` leaves out: a body byte turned into '*' ends the
      checked part early, and the two body bytes after it are read as the checksum. So
      an accepted sentence whose body starts "A?41" stays accepted with its second body
      byte turned into '*', since "41" spells the checksum of "A" alone. */
  lemma ChecksumStarInBody(body: seq<byte>)
    requires |body| >= 5
    requires forall k :: 0 <= k < |body| ==> body[k] != STAR
    requires SentChecksum(body[2], body[3]) == body[0]
    ensures ChecksumValid(Sentence(body))
    ensures ChecksumValid(Sentence(body)[2 := STAR])
  {
    SentenceAccepted(body);
    var t := Sentence(body)[2 := STAR];
    assert |t| == |body| + 4 && t[1] == body[0] && t[2] == STAR;
    assert t[3] == body[2] && t[4] == body[3];
    var checked := t[1..2];
    assert checked == [] + [body[0]];
    XorSnoc([], body[0]);
    ChecksumAt(t, 2);
  }

  /** A line of the same length with no new '*' up to the first one of an accepted
      line `s` has its '*' at the same place, and is accepted on the same test. */
  lemma StarKept(s: seq<byte>, t: seq<byte>, k: nat)
    requires ChecksumValid(s) && k == StarIndex(s) && |t| == |s|
    requires t[k] == STAR && forall i :: 1 <= i < k ==> t[i] != STAR || t[i] == s[i]
    ensures StarIndex(t) == k
    ensures ChecksumValid(t) <==> Xor(t[1..k]) == SentChecksum(t[k + 1], t[k + 2])
  {
    assert Find(s, STAR, 1) == Some(k);
    ChecksumAt(t, k);
  }

  /* ---------------- Fields: skip_commas ---------------- */

  /** `skip_commas(ptr, num)`: just past the `num`-th comma of the C string at `p`, or
      NULL when it has fewer. */
  function SkipCommas(s: seq<byte>, p: nat, num: nat): (r: Option<nat>)
    requires p <= |s|
    ensures r.Some? ==> p <= r.value <= |s|
    decreases num
  {
    if num == 0 then Some(p)
    else match NextComma(s, p)
      case None => None
      case Some(q) => SkipCommas(s, q + 1, num - 1)
  }

  /** One step of `skip_commas`: find the next comma, then skip the rest after it. */
  lemma SkipCommasStep(s: seq<byte>, p: nat, num: nat)
    requires p <= |s| && num > 0
    ensures NextComma(s, p).None? ==> SkipCommas(s, p, num).None?
    ensures NextComma(s, p).Some? ==> SkipCommas(s, p, num) == SkipCommas(s, NextComma(s, p).value + 1, num - 1)
  {
  }

  /** Splitting a C string at its first comma `q`: the commas from `p` are that one plus
      those after it. */
  lemma CommaSplit(s: seq<byte>, p: nat, q: nat, e: nat)
    requires p <= q < e <= |s| && s[q] == COMMA
    requires forall k :: p <= k < q ==> s[k] != COMMA
    ensures Commas(s, p, e) == 1 + Commas(s, q + 1, e)
  {
    var a, b := s[p..q], s[q + 1..e];
    assert s[p..e] == a + [COMMA] + b;
    CountAbsent(a, COMMA);
    CountConcat(a + [COMMA], b, COMMA);
    CountConcat(a, [COMMA], COMMA);
    assert [COMMA][..0] == [];
  }

  /** `skip_commas` fails exactly when the C string at `p` has fewer than `num` commas. */
  lemma {:induction false} SkipCommasFails(s: seq<byte>, p: nat, num: nat)
    requires p <= |s|
    ensures SkipCommas(s, p, num).None? <==> CommasFrom(s, p) < num
    decreases num
  {
    if num > 0 {
      SkipCommasStep(s, p, num);
      if NextComma(s, p).None? {
        NoCommaCount(s, p);
      } else {
        CommaCount(s, p);
        SkipCommasFails(s, NextComma(s, p).value + 1, num - 1);
      }
    }
  }

  /** The number of commas in the C string at `p`. */
  function CommasFrom(s: seq<byte>, p: nat): nat
    requires p <= |s|
  {
    Commas(s, p, CEnd(s, p))
  }

  /** The number of commas among `s[p..q]`. */
  function Commas(s: seq<byte>, p: nat, q: nat): nat
    requires p <= q <= |s|
  {
    Count(s[p..q], COMMA)
  }

  /** A C string without a comma counts none. */
  lemma NoCommaCount(s: seq<byte>, p: nat)
    requires p <= |s| && NextComma(s, p).None?
    ensures CommasFrom(s, p) == 0
  {
    var f := s[p..CEnd(s, p)];
    assert forall k :: 0 <= k < |f| ==> f[k] == s[p + k];
    CountAbsent(f, COMMA);
  }

  /** A C string's commas are its first one and those of the rest of the string. */
  lemma CommaCount(s: seq<byte>, p: nat)
    requires p <= |s| && NextComma(s, p).Some?
    ensures CommasFrom(s, p) == 1 + CommasFrom(s, NextComma(s, p).value + 1)
  {
    var q := NextComma(s, p).value;
    CEndSuffix(s, p, q + 1);
    CommaSplit(s, p, q, CEnd(s, p));
  }

  /** Skipping `m` commas and then `n` more is skipping `m + n`. */
  lemma {:induction false} SkipCommasAdd(s: seq<byte>, p: nat, m: nat, n: nat)
    requires p <= |s|
    ensures SkipCommas(s, p, m).None? ==> SkipCommas(s, p, m + n).None?
    ensures SkipCommas(s, p, m).Some? ==> SkipCommas(s, p, m + n) == SkipCommas(s, SkipCommas(s, p, m).value, n)
    decreases m, 1
  {
    if m == 0 {
      assert SkipCommas(s, p, 0) == Some(p);
    } else if NextComma(s, p).None? {
      SkipCommasStep(s, p, m);
      SkipCommasStep(s, p, m + n);
    } else {
      SkipCommasAddPast(s, p, NextComma(s, p).value, m, n);
    }
  }

  /** The same, when the C string at `p` has its first comma at `c`. */
  lemma {:induction false} SkipCommasAddPast(s: seq<byte>, p: nat, c: nat, m: nat, n: nat)
    requires p <= |s| && m > 0 && NextComma(s, p) == Some(c)
    ensures SkipCommas(s, p, m).None? ==> SkipCommas(s, p, m + n).None?
    ensures SkipCommas(s, p, m).Some? ==> SkipCommas(s, p, m + n) == SkipCommas(s, SkipCommas(s, p, m).value, n)
    decreases m, 0
  {
    var k := m - 1;
    var r, t := SkipCommas(s, c + 1, k), SkipCommas(s, c + 1, k + n);
    SkipCommasStep(s, p, m);
    SkipCommasStep(s, p, m + n);
    assert SkipCommas(s, p, m) == r && SkipCommas(s, p, m + n) == t;
    SkipCommasAdd(s, c + 1, k, n);
    assert r.Some? ==> t == SkipCommas(s, r.value, n);
  }

  /** `t` is just past the `num`-th comma of the C string at `p`: the byte before it is a
      comma and the bytes from `p` up to it hold exactly `num` commas. */
  predicate StopsAt(s: seq<byte>, p: nat, t: nat, num: nat)
    requires p <= |s|
  {
    p < t <= CEnd(s, p) && s[t - 1] == COMMA && Commas(s, p, t) == num
  }

  /** Otherwise it stops just past the `num`-th comma. */
  lemma {:induction false} SkipCommasStops(s: seq<byte>, p: nat, num: nat)
    requires p <= |s| && num > 0 && SkipCommas(s, p, num).Some?
    ensures StopsAt(s, p, SkipCommas(s, p, num).value, num)
    decreases num
  {
    SkipCommasStep(s, p, num);
    var q := NextComma(s, p).value;
    if num == 1 {
      assert SkipCommas(s, q + 1, 0) == Some(q + 1);
      FirstCommaStop(s, p);
    } else {
      SkipCommasStops(s, q + 1, num - 1);
      StopsPastFirst(s, p, SkipCommas(s, q + 1, num - 1).value, num - 1);
    }
  }

  /** Stepping past the first comma stops there, after one comma. */
  lemma FirstCommaStop(s: seq<byte>, p: nat)
    requires p <= |s| && NextComma(s, p).Some?
    ensures StopsAt(s, p, NextComma(s, p).value + 1, 1)
  {
    var q := NextComma(s, p).value;
    assert s[q + 1..q + 1] == [];
    CEndSuffix(s, p, q + 1);
    CommaSplit(s, p, q, q + 1);
  }

  /** A stop `num` commas after the first comma is a stop `num + 1` commas from `p`. */
  lemma StopsPastFirst(s: seq<byte>, p: nat, t: nat, num: nat)
    requires p <= |s| && NextComma(s, p).Some?
    requires StopsAt(s, NextComma(s, p).value + 1, t, num)
    ensures StopsAt(s, p, t, num + 1)
  {
    var q := NextComma(s, p).value;
    CEndSuffix(s, p, q + 1);
    CommaSplit(s, p, q, t);
  }

  /* ---------------- Sentence handlers ---------------- */

  const GPRMC: seq<byte> := [0x24, 0x47, 0x50, 0x52, 0x4d, 0x43]              // "$GPRMC"
  const GPGSA: seq<byte> := [0x24, 0x47, 0x50, 0x47, 0x53, 0x41]              // "$GPGSA"
  const PSTI00: seq<byte> := [0x24, 0x50, 0x53, 0x54, 0x49, 0x2c, 0x30, 0x30] // "$PSTI,00"

  /** The parsed fields: the fix flag, the quantization error text (5 bytes), and the
      PDOP (5), time (7) and date (7) texts kept for diagnostics. */
  datatype Fields = Fields(gpsLocked: bool, ppsErr: seq<byte>, pdop: seq<byte>,
                           time: seq<byte>, date: seq<byte>)
  {
    predicate Sized()
    {
      |ppsErr| == 5 && |pdop| == 5 && |time| == 7 && |date| == 7
    }
  }

  function Min(a: int, b: int): int { if a <= b then a else b }

  /** `src` written over the front of `dst`. */
  function Overlay(dst: seq<byte>, src: seq<byte>): (r: seq<byte>)
    requires |src| <= |dst|
    ensures |r| == |dst|
  {
    src + dst[|src|..]
  }

  /** `strncpy(dst, ptr, n)`: the C string at `p`, cut or NUL-padded to `n` bytes. */
  function StrNCpy(s: seq<byte>, p: nat, n: nat): (r: seq<byte>)
    requires p <= |s|
    ensures |r| == n
  {
    seq(n, k requires 0 <= k < n => if p + k < CEnd(s, p) then s[p + k] else NUL)
  }

  /** The field copy of the $GPGSA and $PSTI,00 handlers: the bytes from `p` up to the
      next comma, truncated to one less than the buffer, then a NUL. When no comma
      follows, the source computes a length from NULL; the model leaves the
      buffer unchanged. */
  function CopyField(dst: seq<byte>, s: seq<byte>, p: nat): (r: seq<byte>)
    requires p <= |s| && 1 <= |dst|
    ensures |r| == |dst|
  {
    match NextComma(s, p)
    case None => dst
    case Some(q) => Overlay(dst, s[p..p + Min(q - p, |dst| - 1)] + [NUL])
  }

  /** Field 2 of $GPGSA, the fix type, is '2' or '3'; at the NUL terminator it is not. */
  predicate FixLocked(s: seq<byte>, p: nat)
  {
    p < |s| && (s[p] == 0x33 || s[p] == 0x32)
  }

  /** $GPRMC: field 1 (time) then field 9 (date), each cut to 6 characters. The time is
      stored even when the date cannot be found. */
  function HandleRmc(s: seq<byte>, f: Fields): (r: Fields)
    requires f.Sized()
    ensures r.Sized()
  {
    match SkipCommas(s, 0, 1)
    case None => f
    case Some(p) =>
      var f1 := f.(time := StrNCpy(s, p, 6) + [NUL]);
      match SkipCommas(s, p, 8)
      case None => f1
      case Some(q) => f1.(date := StrNCpy(s, q, 6) + [NUL])
  }

  /** $GPGSA: field 2 decides the fix flag, then field 15 (PDOP) is copied. */
  function HandleGsa(s: seq<byte>, f: Fields): (r: Fields)
    requires f.Sized()
    ensures r.Sized()
  {
    match SkipCommas(s, 0, 2)
    case None => f
    case Some(p) => f.(gpsLocked := FixLocked(s, p), pdop := PdopField(f.pdop, s, p))
  }

  /** Field 15 of $GPGSA, 13 commas after field 2, copied over `dst` if it is there. */
  function PdopField(dst: seq<byte>, s: seq<byte>, p: nat): (r: seq<byte>)
    requires p <= |s| && 1 <= |dst|
    ensures |r| == |dst|
  {
    match SkipCommas(s, p, 13)
    case None => dst
    case Some(q) => CopyField(dst, s, q)
  }

  /** $PSTI,00: field 4, the quantization error, is copied. */
  function HandlePsti(s: seq<byte>, f: Fields): (r: Fields)
    requires f.Sized()
    ensures r.Sized()
  {
    match SkipCommas(s, 0, 4)
    case None => f
    case Some(p) => f.(ppsErr := CopyField(f.ppsErr, s, p))
  }

  /** `handleGPS` on a received line `s`. */
  function HandleSentence(s: seq<byte>, f: Fields): (r: Fields)
    requires f.Sized()
    ensures r.Sized()
  {
    if !ChecksumValid(s) then f
    else if s[..6] == GPRMC then HandleRmc(s, f)
    else if s[..6] == GPGSA then HandleGsa(s, f)
    else if s[..8] == PSTI00 then HandlePsti(s, f)
    else f
  }

  /** Each field is written only by its own sentence type, and only after the checksum
      has been accepted: a rejected line changes nothing. */
  lemma HandleSentenceWriters(s: seq<byte>, f: Fields)
    requires f.Sized()
    ensures !ChecksumValid(s) ==> HandleSentence(s, f) == f
    ensures HandleSentence(s, f).gpsLocked != f.gpsLocked || HandleSentence(s, f).pdop != f.pdop
      ==> ChecksumValid(s) && s[..6] == GPGSA
    ensures HandleSentence(s, f).ppsErr != f.ppsErr ==> ChecksumValid(s) && s[..8] == PSTI00
    ensures HandleSentence(s, f).time != f.time || HandleSentence(s, f).date != f.date
      ==> ChecksumValid(s) && s[..6] == GPRMC
  {
  }

  /** $GPRMC stores the C string after its first comma as the time and the one after
      its ninth comma as the date, each cut to 6 bytes, NUL-padded and NUL-terminated;
      a field whose comma is missing is left unchanged, and so is everything else. */
  lemma RmcFields(s: seq<byte>, f: Fields)
    requires f.Sized()
    ensures HandleRmc(s, f) == f.(time := HandleRmc(s, f).time, date := HandleRmc(s, f).date)
    ensures CommasFrom(s, 0) == 0 ==> HandleRmc(s, f) == f
    ensures CommasFrom(s, 0) < 9 ==> HandleRmc(s, f).date == f.date
    ensures SkipCommas(s, 0, 1).Some? ==>
      HandleRmc(s, f).time == StrNCpy(s, SkipCommas(s, 0, 1).value, 6) + [NUL]
    ensures SkipCommas(s, 0, 9).Some? ==>
      && StopsAt(s, 0, SkipCommas(s, 0, 9).value, 9)
      && HandleRmc(s, f).date == StrNCpy(s, SkipCommas(s, 0, 9).value, 6) + [NUL]
  {
    SkipCommasFails(s, 0, 1);
    SkipCommasFails(s, 0, 9);
    SkipCommasAdd(s, 0, 1, 8);
    if SkipCommas(s, 0, 9).Some? {
      SkipCommasStops(s, 0, 9);
    }
  }

  /** When field 2 of $GPGSA is at `g` and field 15, thirteen commas on, is at `p`,
      `p` is just past the fifteenth comma of the line and the PDOP buffer becomes the
      field copy at `p` (whose text `CopyFieldText` states). */
  lemma GsaPdop(s: seq<byte>, f: Fields, g: nat, p: nat)
    requires f.Sized()
    requires SkipCommas(s, 0, 2) == Some(g) && SkipCommas(s, g, 13) == Some(p)
    ensures SkipCommas(s, 0, 15) == Some(p) && StopsAt(s, 0, p, 15)
    ensures HandleGsa(s, f).pdop == CopyField(f.pdop, s, p)
  {
    SkipCommasAdd(s, 0, 2, 13);
    SkipCommasStops(s, 0, 15);
  }

  /** A line starting "$GPGSA" is not $GPRMC. */
  lemma GsaDispatch(s: seq<byte>, f: Fields)
    requires f.Sized() && ChecksumValid(s) && s[..6] == GPGSA
    ensures HandleSentence(s, f) == HandleGsa(s, f)
  {
    assert s[..6][3] == 0x47;
  }

  /** An accepted $GPGSA sets the fix flag from the byte after its second comma, and
      leaves everything unchanged when it has fewer than two commas. */
  lemma GsaFix(s: seq<byte>, f: Fields)
    requires f.Sized() && ChecksumValid(s) && s[..6] == GPGSA
    ensures CommasFrom(s, 0) < 2 ==> HandleSentence(s, f) == f
    ensures SkipCommas(s, 0, 2).Some? ==>
      var p := SkipCommas(s, 0, 2).value;
      && StopsAt(s, 0, p, 2)
      && HandleSentence(s, f).gpsLocked == FixLocked(s, p)
      && HandleSentence(s, f).ppsErr == f.ppsErr
  {
    GsaDispatch(s, f);
    SkipCommasFails(s, 0, 2);
    var r := SkipCommas(s, 0, 2);
    if r.Some? {
      SkipCommasStops(s, 0, 2);
    }
  }

  /** The text a field copy stores is the field up to its comma `q`, cut to `len`, one
      less than the buffer, as a NUL-terminated string; the buffer's bytes after that
      NUL are kept. */
  lemma CopyFieldText(dst: seq<byte>, s: seq<byte>, p: nat, q: nat, len: nat)
    requires p <= |s| && 1 <= |dst| && NextComma(s, p) == Some(q)
    requires len == Min(q - p, |dst| - 1)
    ensures CString(CopyField(dst, s, p)) == s[p..p + len]
    ensures CopyField(dst, s, p)[len + 1..] == dst[len + 1..]
  {
    var text := s[p..p + len];
    var buf := CopyField(dst, s, p);
    assert buf == text + [NUL] + dst[len + 1..];
    assert buf[len] == NUL;
    assert forall k :: 0 <= k < len ==> buf[k] == s[p + k] && s[p + k] != NUL;
    assert CEnd(buf, 0) == len;
    assert buf[..len] == text;
  }

  /** A line starting "$PSTI,00" is neither $GPRMC nor $GPGSA. */
  lemma PstiDispatch(s: seq<byte>, f: Fields)
    requires f.Sized() && ChecksumValid(s) && s[..8] == PSTI00
    ensures HandleSentence(s, f) == HandlePsti(s, f)
  {
    assert s[..6][1] == s[..8][1] == 0x50;
  }

  /** The $PSTI,00 handler writes only the quantization error, and nothing at all when
      the line has fewer than four commas. */
  lemma PstiOnlyPpsErr(s: seq<byte>, f: Fields)
    requires f.Sized()
    ensures HandlePsti(s, f) == f.(ppsErr := HandlePsti(s, f).ppsErr)
    ensures CommasFrom(s, 0) < 4 ==> HandlePsti(s, f) == f
  {
    SkipCommasFails(s, 0, 4);
  }

  /** When the fourth field, at `p`, is followed by a comma at `q`, the $PSTI,00 handler
      stores that field, cut to 4 bytes, as a NUL-terminated string and keeps the
      buffer's remaining bytes. */
  lemma PstiField(s: seq<byte>, f: Fields, p: nat, q: nat)
    requires f.Sized()
    requires SkipCommas(s, 0, 4) == Some(p) && NextComma(s, p) == Some(q)
    ensures StopsAt(s, 0, p, 4)
    ensures CString(HandlePsti(s, f).ppsErr) == s[p..p + Min(q - p, 4)]
    ensures HandlePsti(s, f).ppsErr[Min(q - p, 4) + 1..] == f.ppsErr[Min(q - p, 4) + 1..]
  {
    assert HandlePsti(s, f).ppsErr == CopyField(f.ppsErr, s, p);
    SkipCommasStops(s, 0, 4);
    CopyFieldText(f.ppsErr, s, p, q, Min(q - p, 4));
  }
}
