/** `base32.c`: the bounded base32 codec, with the alphabet of section 6 of RFC 4648 in lower case and no padding. */
module Base32 {
  import opened Bytes
  import opened Bitstream

  const LOWER_0: seq<byte> := [0x61, 0x62, 0x63, 0x64, 0x65, 0x66, 0x67, 0x68]
  const LOWER_1: seq<byte> := [0x69, 0x6A, 0x6B, 0x6C, 0x6D, 0x6E, 0x6F, 0x70]
  const LOWER_2: seq<byte> := [0x71, 0x72, 0x73, 0x74, 0x75, 0x76, 0x77, 0x78]
  const LOWER_3: seq<byte> := [0x79, 0x7A, 0x32, 0x33, 0x34, 0x35, 0x36, 0x37]

  const UPPER_0: seq<byte> := [0x41, 0x42, 0x43, 0x44, 0x45, 0x46, 0x47, 0x48]
  const UPPER_1: seq<byte> := [0x49, 0x4A, 0x4B, 0x4C, 0x4D, 0x4E, 0x4F, 0x50]
  const UPPER_2: seq<byte> := [0x51, 0x52, 0x53, 0x54, 0x55, 0x56, 0x57, 0x58]
  const UPPER_3: seq<byte> := [0x59, 0x5A, 0x32, 0x33, 0x34, 0x35, 0x36, 0x37]

  /** `cb32`. */
  const CB32 := LOWER_0 + LOWER_1 + LOWER_2 + LOWER_3

  /** `cb32_ucase`. */
  const CB32_UCASE := UPPER_0 + UPPER_1 + UPPER_2 + UPPER_3

  /** The alphabet: 'a' to 'z' stand for 0 to 25 and '2' to '7' for 26 to 31. */
  function Letter(v: byte): byte
    requires v < 32
  {
    if v < 26 then v + 0x61 else v + 0x18
  }

  function UpperLetter(v: byte): byte
    requires v < 32
  {
    if v < 26 then v + 0x41 else v + 0x18
  }

  /** The value of a character, in either case; characters outside the alphabet count as zero. */
  function Value(c: byte): byte {
    if 0x61 <= c <= 0x7A then c - 0x61
    else if 0x41 <= c <= 0x5A then c - 0x41
    else if 0x32 <= c <= 0x37 then c - 0x18
    else 0
  }

  predicate InAlphabet(c: byte) {
    0x61 <= c <= 0x7A || 0x41 <= c <= 0x5A || 0x32 <= c <= 0x37
  }

  lemma ValueOfLetter(v: byte)
    requires v < 32
    ensures Value(Letter(v)) == v && InAlphabet(Letter(v)) && ToLower(Letter(v)) == Letter(v)
  {
  }

  lemma LetterOfValue(c: byte)
    ensures Value(c) < 32 && Value(ToLower(c)) == Value(c)
    ensures InAlphabet(c) ==> Letter(Value(c)) == ToLower(c)
  {
  }

  lemma TableRow(v: byte)
    requires v < 32
    ensures v as int < 32 && CB32[v as int] == Letter(v)
  {
  }

  lemma UpperTableRow(v: byte)
    requires v < 32
    ensures v as int < 32 && CB32_UCASE[v as int] == UpperLetter(v)
  {
  }

  /** `cb32[v]`. */
  function Lookup(v: byte): (c: byte)
    requires v < 32
    ensures c == Letter(v)
  {
    TableRow(v);
    CB32[v as int]
  }

  lemma LowerA(s: string)
    requires s == "abcdefgh"
    ensures Codes(LOWER_0, s)
  {
  }

  lemma LowerI(s: string)
    requires s == "ijklmnop"
    ensures Codes(LOWER_1, s)
  {
  }

  lemma LowerQ(s: string)
    requires s == "qrstuvwx"
    ensures Codes(LOWER_2, s)
  {
  }

  lemma LowerY(s: string)
    requires s == "yz234567"
    ensures Codes(LOWER_3, s)
  {
  }

  /** The table is the alphabet of section 6 of RFC 4648 in lower case. */
  lemma AlphabetText()
    ensures CB32 == Text("abcdefgh" + "ijklmnop" + "qrstuvwx" + "yz234567")
  {
    LowerA("abcdefgh");
    LowerI("ijklmnop");
    LowerQ("qrstuvwx");
    LowerY("yz234567");
    CodesOfFour("abcdefgh", LOWER_0, "ijklmnop", LOWER_1, "qrstuvwx", LOWER_2, "yz234567", LOWER_3);
    CodesAreText("abcdefgh" + "ijklmnop" + "qrstuvwx" + "yz234567", LOWER_0 + LOWER_1 + LOWER_2 + LOWER_3);
  }

  lemma UpperA(s: string)
    requires s == "ABCDEFGH"
    ensures Codes(UPPER_0, s)
  {
  }

  lemma UpperI(s: string)
    requires s == "IJKLMNOP"
    ensures Codes(UPPER_1, s)
  {
  }

  lemma UpperQ(s: string)
    requires s == "QRSTUVWX"
    ensures Codes(UPPER_2, s)
  {
  }

  lemma UpperY(s: string)
    requires s == "YZ234567"
    ensures Codes(UPPER_3, s)
  {
  }

  /** And in upper case. */
  lemma UpperAlphabetText()
    ensures CB32_UCASE == Text("ABCDEFGH" + "IJKLMNOP" + "QRSTUVWX" + "YZ234567")
  {
    UpperA("ABCDEFGH");
    UpperI("IJKLMNOP");
    UpperQ("QRSTUVWX");
    UpperY("YZ234567");
    CodesOfFour("ABCDEFGH", UPPER_0, "IJKLMNOP", UPPER_1, "QRSTUVWX", UPPER_2, "YZ234567", UPPER_3);
    CodesAreText("ABCDEFGH" + "IJKLMNOP" + "QRSTUVWX" + "YZ234567", UPPER_0 + UPPER_1 + UPPER_2 + UPPER_3);
  }

  // The specification

  /** How many of `size` bytes fit into `n` characters. */
  function Consumed(size: nat, n: nat): nat {
    Min(size, 5 * n / 8)
  }

  /** How many characters those bytes need. */
  function Produced(size: nat, n: nat): nat {
    CeilDiv(8 * Consumed(size, n), 5)
  }

  /** Character `k`: the letter for bits 5k to 5k+4 of the data, followed by zero bits. */
  function EncodedChar(data: seq<byte>, k: nat): byte {
    QuintetFits(data, k);
    Letter(Read(data, 8, 5 * k, 5))
  }

  lemma QuintetFits(data: seq<byte>, k: nat)
    ensures Read(data, 8, 5 * k, 5) < 32
  {
    var x := Read(data, 8, 5 * k, 5);
    ReadBitPast(data, 8, 5 * k, 5, 5);
    ReadBitPast(data, 8, 5 * k, 5, 6);
    ReadBitPast(data, 8, 5 * k, 5, 7);
    assert !Bit(x, 5) && !Bit(x, 6) && !Bit(x, 7);
  }

  /** The encoding of `data` in at most `n` characters. */
  function Encoded(data: seq<byte>, n: nat): (s: seq<byte>)
    ensures |s| == Produced(|data|, n)
  {
    seq(Produced(|data|, n), k requires 0 <= k => EncodedChar(data, k))
  }

  function Values(s: seq<byte>): (v: seq<byte>)
    ensures |v| == |s|
  {
    seq(|s|, k requires 0 <= k < |s| => Value(s[k]))
  }

  /** The decoding of a NUL-free string to at most `n` bytes: byte `k` is bits 8k to 8k+7 of the character values. */
  function Decoded(s: seq<byte>, n: nat): (d: seq<byte>)
    ensures |d| == Min(n, 5 * |s| / 8)
  {
    Regroup(Values(s), 5, 8, Min(n, 5 * |s| / 8))
  }

  // The mask expressions of the source

  /** Character `p` of a group of eight, from the byte it starts in and the one after. */
  function Quintet(p: nat, x: byte, y: byte): byte
    requires p < 8
  {
    match p
    case 0 => (x & 0xf8) >> 3
    case 1 => ((x & 0x07) << 2) | ((y & 0xc0) >> 6)
    case 2 => (x & 0x3e) >> 1
    case 3 => ((x & 0x01) << 4) | ((y & 0xf0) >> 4)
    case 4 => ((x & 0x0f) << 1) | ((y & 0x80) >> 7)
    case 5 => (x & 0x7c) >> 2
    case 6 => ((x & 0x03) << 3) | ((y & 0xe0) >> 5)
    case 7 => x & 0x1f
  }

  lemma FirstQuintetBit(p: nat, x: byte, y: byte, z: byte, q: nat, b: nat)
    requires p < 2 && q < 5 && b == 5 * p % 8 + 4 - q
    ensures b / 8 < 2 && Bit(Quintet(p, x, y), q) == NearBit(8, b, x, y, z)
  {
    assert q == 0 || q == 1 || q == 2 || q == 3 || q == 4;
    assert p == 0 || p == 1;
  }

  lemma SecondQuintetBit(p: nat, x: byte, y: byte, z: byte, q: nat, b: nat)
    requires 2 <= p < 4 && q < 5 && b == 5 * p % 8 + 4 - q
    ensures b / 8 < 2 && Bit(Quintet(p, x, y), q) == NearBit(8, b, x, y, z)
  {
    assert q == 0 || q == 1 || q == 2 || q == 3 || q == 4;
    assert p == 2 || p == 3;
  }

  lemma ThirdQuintetBit(p: nat, x: byte, y: byte, z: byte, q: nat, b: nat)
    requires 4 <= p < 6 && q < 5 && b == 5 * p % 8 + 4 - q
    ensures b / 8 < 2 && Bit(Quintet(p, x, y), q) == NearBit(8, b, x, y, z)
  {
    assert q == 0 || q == 1 || q == 2 || q == 3 || q == 4;
    assert p == 4 || p == 5;
  }

  lemma LastQuintetBit(p: nat, x: byte, y: byte, z: byte, q: nat, b: nat)
    requires 6 <= p < 8 && q < 5 && b == 5 * p % 8 + 4 - q
    ensures b / 8 < 2 && Bit(Quintet(p, x, y), q) == NearBit(8, b, x, y, z)
  {
    assert q == 0 || q == 1 || q == 2 || q == 3 || q == 4;
    assert p == 6 || p == 7;
  }

  lemma QuintetHigh(p: nat, x: byte, y: byte, q: nat)
    requires p < 8 && 5 <= q < 8
    ensures !Bit(Quintet(p, x, y), q)
  {
  }

  lemma QuintetBitFrom(s: seq<byte>, i: nat, p: nat, q: nat, b: nat, x: byte, y: byte)
    requires p < 8 && q < 5 && b == 5 * p % 8 + 4 - q && x == At(s, i) && y == At(s, i + 1)
    ensures Spelled(Quintet(p, x, y), s, 8, i, 5 * p % 8, 5, q)
  {
    var z := At(s, i + 2);
    if p < 2 {
      FirstQuintetBit(p, x, y, z, q, b);
    } else if p < 4 {
      SecondQuintetBit(p, x, y, z, q, b);
    } else if p < 6 {
      ThirdQuintetBit(p, x, y, z, q, b);
    } else {
      LastQuintetBit(p, x, y, z, q, b);
    }
    SpelledNear(Quintet(p, x, y), s, 8, i, 5 * p % 8, 5, q, b, x, y, z);
  }

  /** Character 8g+p of the encoding is the source's expression on the bytes at its position. */
  lemma QuintetRead(s: seq<byte>, g: nat, p: nat, i: nat, x: byte, y: byte)
    requires p < 8 && i == 5 * g + 5 * p / 8 && x == At(s, i) && y == At(s, i + 1)
    ensures Read(s, 8, 5 * (8 * g + p), 5) == Quintet(p, x, y)
  {
    var c, b := Quintet(p, x, y), 5 * p % 8;
    forall q | 0 <= q < 8
      ensures Spelled(c, s, 8, i, b, 5, q)
    {
      if q < 5 {
        QuintetBitFrom(s, i, p, q, 5 * p % 8 + 4 - q, x, y);
      } else {
        QuintetHigh(p, x, y, q);
      }
    }
    ReadFrom(s, 8, i, b, 5, c);
    assert 8 * i + 5 * p % 8 == 5 * (8 * g + p);
  }

  /** The character itself. */
  lemma CharIs(s: seq<byte>, g: nat, p: nat, i: nat, x: byte, y: byte)
    requires p < 8 && i == 5 * g + 5 * p / 8 && x == At(s, i) && y == At(s, i + 1)
    ensures Quintet(p, x, y) < 32 && EncodedChar(s, 8 * g + p) == Letter(Quintet(p, x, y))
  {
    QuintetRead(s, g, p, i, x, y);
    QuintetFits(s, 8 * g + p);
  }

  /** Byte `p` of a group of five, from the value of the character it starts in and the two after. */
  function Octet(p: nat, x: byte, y: byte, z: byte): byte
    requires p < 5
  {
    match p
    case 0 => ((x & 0x1f) << 3) | ((y & 0x1c) >> 2)
    case 1 => ((x & 0x03) << 6) | ((y & 0x1f) << 1) | ((z & 0x10) >> 4)
    case 2 => ((x & 0x0f) << 4) | ((y & 0x1e) >> 1)
    case 3 => ((x & 0x01) << 7) | ((y & 0x1f) << 2) | ((z & 0x18) >> 3)
    case 4 => ((x & 0x07) << 5) | (y & 0x1f)
  }

  lemma FirstOctetBit(p: nat, x: byte, y: byte, z: byte, q: nat, b: nat)
    requires p < 2 && q < 8 && b == 8 * p % 5 + 7 - q
    ensures b / 5 < 3
    ensures Bit(Octet(p, x, y, z), q) == NearBit(5, b, x, y, z)
  {
    assert q == 0 || q == 1 || q == 2 || q == 3 || q == 4 || q == 5 || q == 6 || q == 7;
    assert p == 0 || p == 1;
  }

  lemma MiddleOctetBit(p: nat, x: byte, y: byte, z: byte, q: nat, b: nat)
    requires 2 <= p < 4 && q < 8 && b == 8 * p % 5 + 7 - q
    ensures b / 5 < 3
    ensures Bit(Octet(p, x, y, z), q) == NearBit(5, b, x, y, z)
  {
    assert q == 0 || q == 1 || q == 2 || q == 3 || q == 4 || q == 5 || q == 6 || q == 7;
    assert p == 2 || p == 3;
  }

  lemma LastOctetBit(p: nat, x: byte, y: byte, z: byte, q: nat, b: nat)
    requires p == 4 && q < 8 && b == 8 * p % 5 + 7 - q
    ensures b / 5 < 3
    ensures Bit(Octet(p, x, y, z), q) == NearBit(5, b, x, y, z)
  {
    assert b == 9 - q;
    assert q == 0 || q == 1 || q == 2 || q == 3 || q == 4 || q == 5 || q == 6 || q == 7;
  }

  lemma OctetBit(p: nat, x: byte, y: byte, z: byte, q: nat, b: nat)
    requires p < 5 && q < 8 && b == 8 * p % 5 + 7 - q
    ensures b / 5 < 3
    ensures Bit(Octet(p, x, y, z), q) == NearBit(5, b, x, y, z)
  {
    if p < 2 {
      FirstOctetBit(p, x, y, z, q, b);
    } else if p < 4 {
      MiddleOctetBit(p, x, y, z, q, b);
    } else {
      LastOctetBit(p, x, y, z, q, b);
    }
  }

  lemma OctetBitFrom(v: seq<byte>, i: nat, p: nat, q: nat, b: nat, x: byte, y: byte, z: byte)
    requires p < 5 && q < 8 && b == 8 * p % 5 + 7 - q && x == At(v, i) && y == At(v, i + 1) && z == At(v, i + 2)
    ensures Spelled(Octet(p, x, y, z), v, 5, i, 8 * p % 5, 8, q)
  {
    OctetBit(p, x, y, z, q, b);
    SpelledNear(Octet(p, x, y, z), v, 5, i, 8 * p % 5, 8, q, b, x, y, z);
  }

  /** Byte 5g+p of the decoding is the source's expression on the character values at its position. */
  lemma OctetRead(v: seq<byte>, g: nat, p: nat, i: nat, x: byte, y: byte, z: byte)
    requires p < 5 && i == 8 * g + 8 * p / 5 && x == At(v, i) && y == At(v, i + 1) && z == At(v, i + 2)
    ensures Read(v, 5, 8 * (5 * g + p), 8) == Octet(p, x, y, z)
  {
    var c, b := Octet(p, x, y, z), 8 * p % 5;
    forall q | 0 <= q < 8
      ensures Spelled(c, v, 5, i, b, 8, q)
    {
      OctetBitFrom(v, i, p, q, 8 * p % 5 + 7 - q, x, y, z);
    }
    ReadFrom(v, 5, i, b, 8, c);
    assert 5 * i + 8 * p % 5 == 8 * (5 * g + p);
  }
}
