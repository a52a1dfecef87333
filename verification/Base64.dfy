/** `base64.c`: the padded base64 codec of section 4 of RFC 4648. */
module Base64 {
  import opened Bytes
  import opened Bitstream

  const PAD: byte := 0x3D

  const TABLE_0: seq<byte> := [0x41, 0x42, 0x43, 0x44, 0x45, 0x46, 0x47, 0x48]
  const TABLE_1: seq<byte> := [0x49, 0x4A, 0x4B, 0x4C, 0x4D, 0x4E, 0x4F, 0x50]
  const TABLE_2: seq<byte> := [0x51, 0x52, 0x53, 0x54, 0x55, 0x56, 0x57, 0x58]
  const TABLE_3: seq<byte> := [0x59, 0x5A, 0x61, 0x62, 0x63, 0x64, 0x65, 0x66]
  const TABLE_4: seq<byte> := [0x67, 0x68, 0x69, 0x6A, 0x6B, 0x6C, 0x6D, 0x6E]
  const TABLE_5: seq<byte> := [0x6F, 0x70, 0x71, 0x72, 0x73, 0x74, 0x75, 0x76]
  const TABLE_6: seq<byte> := [0x77, 0x78, 0x79, 0x7A, 0x30, 0x31, 0x32, 0x33]
  const TABLE_7: seq<byte> := [0x34, 0x35, 0x36, 0x37, 0x38, 0x39, 0x2B, 0x2F]

  const FIRST_HALF := TABLE_0 + TABLE_1 + TABLE_2 + TABLE_3
  const SECOND_HALF := TABLE_4 + TABLE_5 + TABLE_6 + TABLE_7

  /** `encoding_table`. */
  const ENCODING_TABLE := FIRST_HALF + SECOND_HALF

  /** `mod_table`. */
  const MOD_TABLE: seq<nat> := [0, 2, 1]

  function Letter(v: byte): byte
    requires v < 64
  {
    if v < 26 then v + 0x41
    else if v < 52 then v + 0x47
    else if v < 62 then v - 4
    else if v == 62 then 0x2B
    else 0x2F
  }

  predicate InAlphabet(c: byte) {
    0x41 <= c <= 0x5A || 0x61 <= c <= 0x7A || 0x30 <= c <= 0x39 || c == 0x2B || c == 0x2F
  }

  /** The value of a character; '=' and everything outside the alphabet count as zero. */
  function Value(c: byte): byte {
    if 0x41 <= c <= 0x5A then c - 0x41
    else if 0x61 <= c <= 0x7A then c - 0x47
    else if 0x30 <= c <= 0x39 then c + 4
    else if c == 0x2B then 62
    else if c == 0x2F then 63
    else 0
  }

  lemma ValueOfLetter(v: byte)
    requires v < 64
    ensures Value(Letter(v)) == v && InAlphabet(Letter(v)) && Letter(v) != PAD
  {
  }

  lemma LetterOfValue(c: byte)
    ensures Value(c) < 64 && Value(PAD) == 0
    ensures InAlphabet(c) ==> Letter(Value(c)) == c
  {
  }

  lemma FirstRows(v: byte)
    requires v < 32
    ensures v as int < 64 && ENCODING_TABLE[v as int] == Letter(v)
  {
  }

  lemma LastRows(v: byte)
    requires 32 <= v < 64
    ensures v as int < 64 && ENCODING_TABLE[v as int] == Letter(v)
  {
  }

  /** `encoding_table[v]`. */
  function Lookup(v: byte): (c: byte)
    requires v < 64
    ensures c == Letter(v)
  {
    if v < 32 then FirstRows(v); ENCODING_TABLE[v as int] else LastRows(v); ENCODING_TABLE[v as int]
  }

  lemma TableA(s: string)
    requires s == "ABCDEFGH"
    ensures Codes(TABLE_0, s)
  {
  }

  lemma TableI(s: string)
    requires s == "IJKLMNOP"
    ensures Codes(TABLE_1, s)
  {
  }

  lemma TableQ(s: string)
    requires s == "QRSTUVWX"
    ensures Codes(TABLE_2, s)
  {
  }

  lemma TableY(s: string)
    requires s == "YZabcdef"
    ensures Codes(TABLE_3, s)
  {
  }

  lemma TableG(s: string)
    requires s == "ghijklmn"
    ensures Codes(TABLE_4, s)
  {
  }

  lemma TableO(s: string)
    requires s == "opqrstuv"
    ensures Codes(TABLE_5, s)
  {
  }

  lemma TableW(s: string)
    requires s == "wxyz0123"
    ensures Codes(TABLE_6, s)
  {
  }

  lemma Table4(s: string)
    requires s == "456789+/"
    ensures Codes(TABLE_7, s)
  {
  }

  /** The table is the alphabet of section 4 of RFC 4648. */
  lemma FirstHalfText()
    ensures FIRST_HALF == Text("ABCDEFGH" + "IJKLMNOP" + "QRSTUVWX" + "YZabcdef")
  {
    TableA("ABCDEFGH");
    TableI("IJKLMNOP");
    TableQ("QRSTUVWX");
    TableY("YZabcdef");
    CodesOfFour("ABCDEFGH", TABLE_0, "IJKLMNOP", TABLE_1, "QRSTUVWX", TABLE_2, "YZabcdef", TABLE_3);
    CodesAreText("ABCDEFGH" + "IJKLMNOP" + "QRSTUVWX" + "YZabcdef", TABLE_0 + TABLE_1 + TABLE_2 + TABLE_3);
  }

  lemma SecondHalfText()
    ensures SECOND_HALF == Text("ghijklmn" + "opqrstuv" + "wxyz0123" + "456789+/")
  {
    TableG("ghijklmn");
    TableO("opqrstuv");
    TableW("wxyz0123");
    Table4("456789+/");
    CodesOfFour("ghijklmn", TABLE_4, "opqrstuv", TABLE_5, "wxyz0123", TABLE_6, "456789+/", TABLE_7);
    CodesAreText("ghijklmn" + "opqrstuv" + "wxyz0123" + "456789+/", TABLE_4 + TABLE_5 + TABLE_6 + TABLE_7);
  }

  // The specification

  /** How many of the characters carry bits of `n` bytes; the rest of the last group is padding. */
  function Significant(n: nat): nat {
    CeilDiv(4 * n, 3)
  }

  function EncodedChar(data: seq<byte>, k: nat): byte {
    SextetFits(data, k);
    if k < Significant(|data|) then Letter(Read(data, 8, 6 * k, 6)) else PAD
  }

  lemma SextetFits(data: seq<byte>, k: nat)
    ensures Read(data, 8, 6 * k, 6) < 64
  {
    var x := Read(data, 8, 6 * k, 6);
    ReadBitPast(data, 8, 6 * k, 6, 6);
    ReadBitPast(data, 8, 6 * k, 6, 7);
    assert !Bit(x, 6) && !Bit(x, 7);
  }

  function Encoded(data: seq<byte>): (s: seq<byte>)
    ensures |s| == 4 * CeilDiv(|data|, 3)
  {
    seq(4 * CeilDiv(|data|, 3), k requires 0 <= k => EncodedChar(data, k))
  }

  function Sextets(s: seq<byte>): (v: seq<byte>)
    ensures |v| == |s|
  {
    seq(|s|, k requires 0 <= k < |s| => Value(s[k]))
  }

  /** The padding characters that the decoder notices: it looks at the last two places only. */
  function Pads(s: seq<byte>): (p: nat)
    requires 4 <= |s|
    ensures p <= 2
  {
    (if s[|s| - 1] == PAD then 1 else 0) + (if s[|s| - 2] == PAD then 1 else 0)
  }

  function DecodedLength(s: seq<byte>): nat
    requires 4 <= |s|
  {
    |s| / 4 * 3 - Pads(s)
  }

  function Decoded(s: seq<byte>): (d: seq<byte>)
    requires 4 <= |s|
    ensures |d| == DecodedLength(s)
  {
    Regroup(Sextets(s), 6, 8, DecodedLength(s))
  }

  /** What is not data is '=', and only that. */
  lemma PaddingChar(data: seq<byte>, k: nat)
    requires k < |Encoded(data)|
    ensures Encoded(data)[k] == '=' as byte <==> Significant(|data|) <= k
  {
    SextetFits(data, k);
    ValueOfLetter(Read(data, 8, 6 * k, 6));
  }

  /** The decoder looks for '='. */
  lemma PadsAre(s: seq<byte>)
    requires 4 <= |s|
    ensures var last, before := s[|s| - 1] == '=' as byte, s[|s| - 2] == '=' as byte;
            Pads(s) == if last && before then 2 else if last || before then 1 else 0
  {
  }

  // The expressions of the source

  /** `(triple >> (3 - p) * 6) & 0x3F` for the triple of three octets. */
  function Sextet(p: nat, a: byte, b: byte, c: byte): byte
    requires p < 4
  {
    var triple := ((a as bv32) << 16) + ((b as bv32) << 8) + (c as bv32);
    match p
    case 0 => ((triple >> 18) & 0x3F) as byte
    case 1 => ((triple >> 12) & 0x3F) as byte
    case 2 => ((triple >> 6) & 0x3F) as byte
    case 3 => (triple & 0x3F) as byte
  }

  /** `(triple >> (2 - p) * 8) & 0xFF` for the triple of four sextets. */
  function Octet(p: nat, a: byte, b: byte, c: byte, d: byte): byte
    requires p < 3
  {
    var triple := ((a as bv32) << 18) + ((b as bv32) << 12) + ((c as bv32) << 6) + (d as bv32);
    match p
    case 0 => ((triple >> 16) & 0xFF) as byte
    case 1 => ((triple >> 8) & 0xFF) as byte
    case 2 => (triple & 0xFF) as byte
  }

  /** The same four sextets, taken from the bytes directly. */
  function Split(p: nat, a: byte, b: byte, c: byte): byte
    requires p < 4
  {
    match p
    case 0 => a >> 2
    case 1 => ((a & 0x03) << 4) | (b >> 4)
    case 2 => ((b & 0x0F) << 2) | (c >> 6)
    case 3 => c & 0x3F
  }

  lemma SextetIsSplit(p: nat, a: byte, b: byte, c: byte)
    requires p < 4
    ensures Sextet(p, a, b, c) == Split(p, a, b, c)
  {
  }

  lemma FirstSplitBit(p: nat, a: byte, b: byte, c: byte, q: nat, i: nat)
    requires p == 0 && q < 6 && i == 6 * p + 5 - q
    ensures i / 8 < 3 && Bit(Split(p, a, b, c), q) == NearBit(8, i, a, b, c)
  {
    assert i == 5 - q;
    assert q == 0 || q == 1 || q == 2 || q == 3 || q == 4 || q == 5;
  }

  lemma SecondSplitBit(p: nat, a: byte, b: byte, c: byte, q: nat, i: nat)
    requires p == 1 && q < 6 && i == 6 * p + 5 - q
    ensures i / 8 < 3 && Bit(Split(p, a, b, c), q) == NearBit(8, i, a, b, c)
  {
    assert i == 11 - q;
    assert q == 0 || q == 1 || q == 2 || q == 3 || q == 4 || q == 5;
  }

  lemma ThirdSplitBit(p: nat, a: byte, b: byte, c: byte, q: nat, i: nat)
    requires p == 2 && q < 6 && i == 6 * p + 5 - q
    ensures i / 8 < 3 && Bit(Split(p, a, b, c), q) == NearBit(8, i, a, b, c)
  {
    assert i == 17 - q;
    assert q == 0 || q == 1 || q == 2 || q == 3 || q == 4 || q == 5;
  }

  lemma FourthSplitBit(p: nat, a: byte, b: byte, c: byte, q: nat, i: nat)
    requires p == 3 && q < 6 && i == 6 * p + 5 - q
    ensures i / 8 < 3 && Bit(Split(p, a, b, c), q) == NearBit(8, i, a, b, c)
  {
    assert i == 23 - q;
    assert q == 0 || q == 1 || q == 2 || q == 3 || q == 4 || q == 5;
  }

  lemma SplitHigh(p: nat, a: byte, b: byte, c: byte, q: nat)
    requires p < 4 && 6 <= q < 8
    ensures !Bit(Split(p, a, b, c), q)
  {
  }

  /** The same three bytes, put together from the sextets directly. */
  function Joined(p: nat, a: byte, b: byte, c: byte, d: byte): byte
    requires p < 3
  {
    match p
    case 0 => (a << 2) | (b >> 4)
    case 1 => (b << 4) | (c >> 2)
    case 2 => (c << 6) | d
  }

  lemma OctetIsJoined(p: nat, a: byte, b: byte, c: byte, d: byte)
    requires p < 3 && a < 64 && b < 64 && c < 64 && d < 64
    ensures Octet(p, a, b, c, d) == Joined(p, a, b, c, d)
  {
  }

  lemma FirstJoinedBit(a: byte, b: byte, c: byte, d: byte, q: nat)
    requires q < 8 && b < 64
    ensures Bit(Joined(0, a, b, c, d), q) == if 2 <= q then Bit(a, q - 2) else Bit(b, q + 4)
  {
  }

  lemma SecondJoinedBit(a: byte, b: byte, c: byte, d: byte, q: nat)
    requires q < 8 && c < 64
    ensures Bit(Joined(1, a, b, c, d), q) == if 4 <= q then Bit(b, q - 4) else Bit(c, q + 2)
  {
  }

  lemma ThirdJoinedBit(a: byte, b: byte, c: byte, d: byte, q: nat)
    requires q < 8 && d < 64
    ensures Bit(Joined(2, a, b, c, d), q) == if 6 <= q then Bit(c, q - 6) else Bit(d, q)
  {
  }

  lemma SplitBitFrom(s: seq<byte>, i: nat, p: nat, q: nat, k: nat, a: byte, b: byte, c: byte)
    requires p < 4 && q < 6 && k == 6 * p + 5 - q && a == At(s, i) && b == At(s, i + 1) && c == At(s, i + 2)
    ensures Spelled(Split(p, a, b, c), s, 8, i, 6 * p, 6, q)
  {
    if p == 0 {
      FirstSplitBit(p, a, b, c, q, k);
    } else if p == 1 {
      SecondSplitBit(p, a, b, c, q, k);
    } else if p == 2 {
      ThirdSplitBit(p, a, b, c, q, k);
    } else {
      FourthSplitBit(p, a, b, c, q, k);
    }
    SpelledNear(Split(p, a, b, c), s, 8, i, 6 * p, 6, q, k, a, b, c);
  }

  /** Character 4g+p carries what the source takes from the three bytes of group `g`. */
  lemma SextetRead(s: seq<byte>, g: nat, p: nat, i: nat, a: byte, b: byte, c: byte)
    requires p < 4 && i == 3 * g && a == At(s, i) && b == At(s, i + 1) && c == At(s, i + 2)
    ensures Read(s, 8, 6 * (4 * g + p), 6) == Sextet(p, a, b, c)
  {
    var x, from := Split(p, a, b, c), 6 * p;
    forall q | 0 <= q < 8
      ensures Spelled(x, s, 8, i, from, 6, q)
    {
      if q < 6 {
        SplitBitFrom(s, i, p, q, 6 * p + 5 - q, a, b, c);
      } else {
        SplitHigh(p, a, b, c, q);
      }
    }
    ReadFrom(s, 8, i, from, 6, x);
    SextetIsSplit(p, a, b, c);
    assert 8 * i + from == 6 * (4 * g + p);
  }

  lemma FirstOctet(v: seq<byte>, i: nat, q: nat, a: byte, b: byte, c: byte, d: byte)
    requires q < 8 && a < 64 && b < 64 && c < 64 && d < 64
    requires a == At(v, i) && b == At(v, i + 1) && c == At(v, i + 2) && d == At(v, i + 3)
    ensures Spelled(Octet(0, a, b, c, d), v, 6, i, 0, 8, q)
  {
    OctetIsJoined(0, a, b, c, d);
    FirstJoinedBit(a, b, c, d, q);
    if 2 <= q {
      SpelledAt(Octet(0, a, b, c, d), v, 6, i, 0, 8, q, 0, 7 - q);
    } else {
      SpelledAt(Octet(0, a, b, c, d), v, 6, i, 0, 8, q, 1, 1 - q);
    }
  }

  lemma SecondOctet(v: seq<byte>, i: nat, q: nat, a: byte, b: byte, c: byte, d: byte)
    requires q < 8 && a < 64 && b < 64 && c < 64 && d < 64
    requires a == At(v, i) && b == At(v, i + 1) && c == At(v, i + 2) && d == At(v, i + 3)
    ensures Spelled(Octet(1, a, b, c, d), v, 6, i, 8, 8, q)
  {
    OctetIsJoined(1, a, b, c, d);
    SecondJoinedBit(a, b, c, d, q);
    if 4 <= q {
      SpelledAt(Octet(1, a, b, c, d), v, 6, i, 8, 8, q, 1, 9 - q);
    } else {
      SpelledAt(Octet(1, a, b, c, d), v, 6, i, 8, 8, q, 2, 3 - q);
    }
  }

  lemma ThirdOctet(v: seq<byte>, i: nat, q: nat, a: byte, b: byte, c: byte, d: byte)
    requires q < 8 && a < 64 && b < 64 && c < 64 && d < 64
    requires a == At(v, i) && b == At(v, i + 1) && c == At(v, i + 2) && d == At(v, i + 3)
    ensures Spelled(Octet(2, a, b, c, d), v, 6, i, 16, 8, q)
  {
    OctetIsJoined(2, a, b, c, d);
    ThirdJoinedBit(a, b, c, d, q);
    if 6 <= q {
      SpelledAt(Octet(2, a, b, c, d), v, 6, i, 16, 8, q, 2, 11 - q);
    } else {
      SpelledAt(Octet(2, a, b, c, d), v, 6, i, 16, 8, q, 3, 5 - q);
    }
  }

  lemma OctetBitFrom(v: seq<byte>, i: nat, p: nat, q: nat, a: byte, b: byte, c: byte, d: byte)
    requires p < 3 && q < 8 && a < 64 && b < 64 && c < 64 && d < 64
    requires a == At(v, i) && b == At(v, i + 1) && c == At(v, i + 2) && d == At(v, i + 3)
    ensures Spelled(Octet(p, a, b, c, d), v, 6, i, 8 * p, 8, q)
  {
    if p == 0 {
      FirstOctet(v, i, q, a, b, c, d);
    } else if p == 1 {
      SecondOctet(v, i, q, a, b, c, d);
    } else {
      ThirdOctet(v, i, q, a, b, c, d);
    }
  }

  /** Byte 3g+p is what the source takes from the four sextets of group `g`. */
  lemma OctetRead(v: seq<byte>, g: nat, p: nat, a: byte, b: byte, c: byte, d: byte)
    requires p < 3 && a < 64 && b < 64 && c < 64 && d < 64
    requires a == At(v, 4 * g) && b == At(v, 4 * g + 1) && c == At(v, 4 * g + 2) && d == At(v, 4 * g + 3)
    ensures Read(v, 6, 8 * (3 * g + p), 8) == Octet(p, a, b, c, d)
  {
    var x, i, from := Octet(p, a, b, c, d), 4 * g, 8 * p;
    forall q | 0 <= q < 8
      ensures Spelled(x, v, 6, i, from, 8, q)
    {
      OctetBitFrom(v, i, p, q, a, b, c, d);
    }
    ReadFrom(v, 6, i, from, 8, x);
    assert 6 * i + from == 8 * (3 * g + p);
  }
}
