/** SHA-1 as FIPS 180-4 defines it: plain functions on messages, written without regard to how `sha1.c`
    computes them. */
module Fips180 {
  import opened Bytes

  type word = bv32

  datatype State = State(a: word, b: word, c: word, d: word, e: word)

  /** Section 5.3.1. */
  const INITIAL := State(0x67452301, 0xEFCDAB89, 0x98BADCFE, 0x10325476, 0xC3D2E1F0)

  /** Section 2.2.2: circular left shift. */
  function Rotl(x: word, n: word): word
    requires 0 < n < 32
  {
    (x << n) | (x >> (32 - n))
  }

  // Section 4.1.1.
  function Ch(x: word, y: word, z: word): word {
    (x & y) ^ (!x & z)
  }

  function Parity(x: word, y: word, z: word): word {
    x ^ y ^ z
  }

  function Maj(x: word, y: word, z: word): word {
    (x & y) ^ (x & z) ^ (y & z)
  }

  function F(t: nat, x: word, y: word, z: word): word {
    if t < 20 then Ch(x, y, z)
    else if t < 40 then Parity(x, y, z)
    else if t < 60 then Maj(x, y, z)
    else Parity(x, y, z)
  }

  /** Section 4.2.1. */
  function K(t: nat): word {
    if t < 20 then 0x5A827999
    else if t < 40 then 0x6ED9EBA1
    else if t < 60 then 0x8F1BBCDC
    else 0xCA62C1D6
  }

  /** The schedule recurrence of section 6.1.2, step 1. */
  function Mix(w3: word, w8: word, w14: word, w16: word): word {
    Rotl(w3 ^ w8 ^ w14 ^ w16, 1)
  }

  /** Section 6.1.2, step 1: the message schedule. */
  function W(m: seq<word>, t: nat): word
    requires |m| == 16
  {
    if t < 16 then m[t] else Mix(W(m, t - 3), W(m, t - 8), W(m, t - 14), W(m, t - 16))
  }

  /** The five-term sum of section 6.1.2, step 3. */
  function Temp(rotated: word, f: word, e: word, k: word, w: word): word {
    rotated + f + e + k + w
  }

  /** Section 6.1.2, step 3: one iteration of the register-shifting loop. */
  function Round(s: State, t: nat, w: word): State {
    State(Temp(Rotl(s.a, 5), F(t, s.b, s.c, s.d), s.e, K(t), w), s.a, Rotl(s.b, 30), s.c, s.d)
  }

  function Rounds(h: State, m: seq<word>, t: nat): State
    requires |m| == 16
  {
    if t == 0 then h else Round(Rounds(h, m, t - 1), t - 1, W(m, t - 1))
  }

  /** Section 3.2: addition modulo 2^32. */
  function Add(x: word, y: word): word {
    x + y
  }

  /** Section 6.1.2, step 4. */
  function AddStates(h: State, s: State): State {
    State(Add(h.a, s.a), Add(h.b, s.b), Add(h.c, s.c), Add(h.d, s.d), Add(h.e, s.e))
  }

  function Compress(h: State, m: seq<word>): State
    requires |m| == 16
  {
    AddStates(h, Rounds(h, m, 80))
  }

  /** Section 3.1: a word is four bytes, most significant first. */
  function BigEndianWord(b0: byte, b1: byte, b2: byte, b3: byte): word {
    ((b0 as word) << 24) | ((b1 as word) << 16) | ((b2 as word) << 8) | (b3 as word)
  }

  /** Section 5.2.1: a 64-byte block is sixteen words. */
  function ParseBlock(b: seq<byte>): (m: seq<word>)
    requires |b| == 64
    ensures |m| == 16
  {
    seq(16, i requires 0 <= i < 16 => BigEndianWord(b[4 * i], b[4 * i + 1], b[4 * i + 2], b[4 * i + 3]))
  }

  /** The hash value after the first `n` blocks of `msg`. */
  function Hash(msg: seq<byte>, n: nat): State
    requires 64 * n <= |msg|
  {
    if n == 0 then INITIAL
    else Compress(Hash(msg, n - 1), ParseBlock(msg[64 * (n - 1)..64 * n]))
  }

  /** The number of zero bytes after the 0x80 byte. */
  function ZeroCount(n: nat): (k: nat) {
    (119 - n % 64) % 64
  }

  function Zeros(k: nat): (z: seq<byte>)
    ensures |z| == k
  {
    seq(k, _ => 0)
  }

  lemma ZeroCountFills(n: nat)
    ensures (n + 1 + ZeroCount(n)) % 64 == 56
  {
  }

  /** Section 5.1.1: `k` is the smallest non-negative solution of l + 1 + k = 448 (mod 512), counted here in bytes. */
  lemma ZeroCountIsSmallest(n: nat, k: nat)
    requires (n + 1 + k) % 64 == 56
    ensures (n + 1 + ZeroCount(n)) % 64 == 56 && ZeroCount(n) <= k && ZeroCount(n) == (55 - n) % 64
  {
    var q, r := n / 64, n % 64;
    assert n == 64 * q + r;
    assert ZeroCount(n) == if r < 56 then 55 - r else 119 - r;
  }

  /** The byte with value `n`, reached by counting up; it wraps around at 256. */
  function ByteOf(n: nat): byte {
    if n == 0 then 0 else ByteOf(n - 1) + 1
  }

  lemma {:induction false} ByteOfValue(n: nat)
    requires n < 256
    ensures ByteOf(n) as int == n
  {
    if n == 0 {
    } else {
      ByteOfValue(n - 1);
      NextByte(ByteOf(n - 1));
    }
  }

  lemma NextByte(b: byte)
    requires b as int < 255
    ensures (b + 1) as int == b as int + 1
  {
  }

  function LowByte(x: nat): byte {
    ByteOf(x % 256)
  }

  /** A 32-bit number as four bytes, most significant first. */
  function BigEndian32(x: nat): (b: seq<byte>)
    ensures |b| == 4
  {
    [LowByte(x / 0x100_0000), LowByte(x / 0x1_0000), LowByte(x / 0x100), LowByte(x)]
  }

  /** A 64-bit number as eight bytes: the high word, then the low word. */
  function BigEndian64(x: nat): (b: seq<byte>)
    ensures |b| == 8
  {
    BigEndian32(x / 0x1_0000_0000) + BigEndian32(x % 0x1_0000_0000)
  }

  lemma LowByteValue(x: nat)
    ensures LowByte(x) as int == x % 256
  {
    ByteOfValue(x % 256);
  }

  lemma BytesOfNumber(x: nat)
    requires x < 0x1_0000_0000
    ensures x == x / 0x100_0000 % 256 * 0x100_0000 + x / 0x1_0000 % 256 * 0x1_0000 + x / 0x100 % 256 * 0x100 + x % 256
  {
    var x1 := x / 0x100;
    var x2 := x1 / 0x100;
    var x3 := x2 / 0x100;
    assert x == 0x1_0000 * x2 + (0x100 * (x1 % 0x100) + x % 0x100);
    assert x == 0x100_0000 * x3 + (0x1_0000 * (x2 % 0x100) + 0x100 * (x1 % 0x100) + x % 0x100);
    Quotients(x, x2, x3);
  }

  lemma Quotients(x: nat, x2: nat, x3: nat)
    requires 0x1_0000 * x2 <= x < 0x1_0000 * x2 + 0x1_0000
    requires 0x100_0000 * x3 <= x < 0x100_0000 * x3 + 0x100_0000
    ensures x / 0x1_0000 == x2 && x / 0x100_0000 == x3
  {
  }

  /** The number that bytes spell, most significant first. */
  function Number(b: seq<byte>): nat {
    if b == [] then 0 else 256 * Number(b[..|b| - 1]) + b[|b| - 1] as int
  }

  lemma NumberOfNext(b: seq<byte>, c: byte)
    ensures Number(b + [c]) == 256 * Number(b) + c as int
  {
    assert (b + [c])[..|b|] == b;
  }

  lemma NumberOfTwoMore(b: seq<byte>, c: byte, d: byte)
    ensures Number(b + [c, d]) == 0x1_0000 * Number(b) + 256 * c as int + d as int
  {
    NumberOfNext(b, c);
    NumberOfNext(b + [c], d);
    assert b + [c, d] == b + [c] + [d];
  }

  lemma NumberOfFourMore(b: seq<byte>, c0: byte, c1: byte, c2: byte, c3: byte)
    ensures Number(b + [c0, c1, c2, c3]) == Number(b) * 0x1_0000_0000
              + c0 as int * 0x100_0000 + c1 as int * 0x1_0000 + c2 as int * 0x100 + c3 as int
  {
    NumberOfTwoMore(b, c0, c1);
    NumberOfTwoMore(b + [c0, c1], c2, c3);
    assert b + [c0, c1, c2, c3] == b + [c0, c1] + [c2, c3];
  }

  /** The four bytes of a 32-bit number spell it, as the low word of whatever comes before them. */
  lemma BigEndian32Spells(b: seq<byte>, x: nat)
    requires x < 0x1_0000_0000
    ensures Number(b + BigEndian32(x)) == Number(b) * 0x1_0000_0000 + x
  {
    NumberOfFourMore(b, LowByte(x / 0x100_0000), LowByte(x / 0x1_0000), LowByte(x / 0x100), LowByte(x));
    LowByteValue(x / 0x100_0000);
    LowByteValue(x / 0x1_0000);
    LowByteValue(x / 0x100);
    LowByteValue(x);
    BytesOfNumber(x);
  }

  /** The eight bytes of a 64-bit number spell it, most significant byte first. */
  lemma BigEndian64Spells(x: nat)
    requires x < 0x1_0000_0000_0000_0000
    ensures Number(BigEndian64(x)) == x
  {
    var high, low := x / 0x1_0000_0000, x % 0x1_0000_0000;
    BigEndian32Spells([], high);
    BigEndian32Spells(BigEndian32(high), low);
    assert [] + BigEndian32(high) == BigEndian32(high);
  }

  /** Section 5.1.1 with `bits` in the length field. */
  function PadWith(msg: seq<byte>, bits: nat): (p: seq<byte>)
    ensures |p| % 64 == 0
  {
    msg + [0x80] + Zeros(ZeroCount(|msg|)) + BigEndian64(bits)
  }

  /** The length field; the standard defines SHA-1 for messages shorter than 2^64 bits, where nothing is reduced. */
  function LengthField(n: nat): nat {
    8 * n % 0x1_0000_0000_0000_0000
  }

  function WordByte(x: word, i: nat): byte
    requires i < 4
  {
    match i
    case 0 => ((x >> 24) & 255) as byte
    case 1 => ((x >> 16) & 255) as byte
    case 2 => ((x >> 8) & 255) as byte
    case 3 => (x & 255) as byte
  }

  function StateWord(s: State, i: nat): word
    requires i < 5
  {
    match i
    case 0 => s.a
    case 1 => s.b
    case 2 => s.c
    case 3 => s.d
    case 4 => s.e
  }

  function DigestBytes(s: State): (d: seq<byte>)
    ensures |d| == 20
  {
    seq(20, i requires 0 <= i < 20 => WordByte(StateWord(s, i / 4), i % 4))
  }

  function HashPadded(msg: seq<byte>, bits: nat): seq<byte> {
    var p := PadWith(msg, bits);
    DigestBytes(Hash(p, |p| / 64))
  }

  function Sha1(msg: seq<byte>): (d: seq<byte>)
    ensures |d| == 20
  {
    HashPadded(msg, LengthField(|msg|))
  }

  lemma WordBytes(x: word)
    ensures BigEndianWord(WordByte(x, 0), WordByte(x, 1), WordByte(x, 2), WordByte(x, 3)) == x
  {
  }

  /** The digest bytes are the five words, most significant byte first. */
  lemma DigestWords(s: State, i: nat)
    requires i < 5
    ensures var d := DigestBytes(s);
            BigEndianWord(d[4 * i], d[4 * i + 1], d[4 * i + 2], d[4 * i + 3]) == StateWord(s, i)
  {
    var d, x := DigestBytes(s), StateWord(s, i);
    WordBytes(x);
    forall k | 0 <= k < 4
      ensures d[4 * i + k] == WordByte(x, k)
    {
      assert (4 * i + k) / 4 == i && (4 * i + k) % 4 == k;
    }
  }

  // What the definitions come to, in terms of bits, bytes and numbers

  /** Rotation moves the top bits to the bottom and all the others up; the standard rotates by 1, 5 and 30. */
  lemma RotlByOne(x: word)
    ensures Rotl(x, 1) >> 1 == x & 0x7FFF_FFFF && Rotl(x, 1) & 0x1 == x >> 31
  {
  }

  lemma RotlByFive(x: word)
    ensures Rotl(x, 5) >> 5 == x & 0x07FF_FFFF && Rotl(x, 5) & 0x1F == x >> 27
  {
  }

  lemma RotlByThirty(x: word)
    ensures Rotl(x, 30) >> 30 == x & 0x3 && Rotl(x, 30) & 0x3FFF_FFFF == x >> 2
  {
  }

  /** Each bit of x chooses between y and z. */
  lemma ChBits(x: word, y: word, z: word)
    ensures Ch(x, y, z) & x == y & x && Ch(x, y, z) & !x == z & !x
  {
  }

  lemma ParityBits(x: word, y: word, z: word)
    ensures Parity(x, y, z) ^ x ^ y ^ z == 0
  {
  }

  /** Where x and y agree they decide, elsewhere z does. */
  lemma MajWhereBoth(x: word, y: word, z: word)
    ensures Maj(x, y, z) & (x & y) == x & y
  {
  }

  lemma MajWhereNeither(x: word, y: word, z: word)
    ensures Maj(x, y, z) & !(x | y) == 0
  {
  }

  lemma MajWhereOne(x: word, y: word, z: word)
    ensures Maj(x, y, z) & (x ^ y) == z & (x ^ y)
  {
  }

  /** Twenty rounds of each. */
  lemma FunctionOfRound(t: nat, x: word, y: word, z: word)
    ensures t <= 19 ==> F(t, x, y, z) == Ch(x, y, z)
    ensures 20 <= t <= 39 || 60 <= t <= 79 ==> F(t, x, y, z) == Parity(x, y, z)
    ensures 40 <= t <= 59 ==> F(t, x, y, z) == Maj(x, y, z)
  {
  }

  lemma ConstantValues()
    ensures K(0) as int == 0x5A827999 && K(20) as int == 0x6ED9EBA1
    ensures K(40) as int == 0x8F1BBCDC && K(60) as int == 0xCA62C1D6
  {
  }

  /** The constant of each round is 2^30 times the square root of 2, 3, 5 or 10, rounded down. */
  lemma SquareRoots(t: nat)
    ensures var k := K(t) as int;
            var n := if t <= 19 then 2 else if t <= 39 then 3 else if t <= 59 then 5 else 10;
            k * k <= n * 0x1000_0000_0000_0000 < (k + 1) * (k + 1)
  {
    ConstantValues();
  }

  /** Addition counts on. */
  lemma AddCounts(x: word, y: word)
    ensures Add(x, 0) == x && Add(x, y + 1) == Add(x, y) + 1
  {
  }

  lemma TempCounts(r: word, f: word, e: word, k: word, w: word)
    ensures Temp(0, f, e, k, w) == w + k + e + f && Temp(r + 1, f, e, k, w) == Temp(r, f, e, k, w) + 1
  {
  }

  /** Register by register. */
  lemma StatesAdd(s: State)
    ensures AddStates(s, State(0, 0, 0, 0, 0)) == AddStates(State(0, 0, 0, 0, 0), s) == s
  {
  }

  /** The recurrence in full: the exclusive or of four earlier words, rotated by one bit. */
  lemma ScheduleRotates(m: seq<word>, t: nat)
    requires |m| == 16 && 16 <= t
    ensures W(m, t) == Rotl(W(m, t - 3) ^ W(m, t - 8) ^ W(m, t - 14) ^ W(m, t - 16), 1)
  {
  }

  /** A round can be undone: its result determines the registers before it. */
  lemma RoundUndone(s: State, t: nat, w: word)
    ensures var r := Round(s, t, w);
            && s.a == r.b && s.b >> 2 == r.c & 0x3FFF_FFFF && s.b & 0x3 == r.c >> 30 && s.c == r.d && s.d == r.e
            && r.a == Temp(Rotl(s.a, 5), F(t, s.b, s.c, s.d), s.e, K(t), w)
  {
    RotlByThirty(s.b);
  }

  lemma WordParts(b0: byte, b1: byte, b2: byte, b3: byte)
    ensures var x := BigEndianWord(b0, b1, b2, b3);
            && x >> 24 == b0 as word && (x >> 16) & 0xFF == b1 as word
            && (x >> 8) & 0xFF == b2 as word && x & 0xFF == b3 as word
  {
  }

  /** Word i of a block has bytes 4i to 4i+3 of it in its four parts, from the top down. */
  lemma BlockBytes(b: seq<byte>, i: nat)
    requires |b| == 64 && i < 16
    ensures var x := ParseBlock(b)[i];
            && x >> 24 == b[4 * i] as word && (x >> 16) & 0xFF == b[4 * i + 1] as word
            && (x >> 8) & 0xFF == b[4 * i + 2] as word && x & 0xFF == b[4 * i + 3] as word
  {
    WordParts(b[4 * i], b[4 * i + 1], b[4 * i + 2], b[4 * i + 3]);
  }

  /** The digest is the five registers in their order, each with the most significant byte first. */
  lemma DigestInOrder(a: word, b: word, c: word, d: word, e: word)
    ensures var t := DigestBytes(State(a, b, c, d, e));
            && BigEndianWord(t[0], t[1], t[2], t[3]) == a && BigEndianWord(t[4], t[5], t[6], t[7]) == b
            && BigEndianWord(t[8], t[9], t[10], t[11]) == c && BigEndianWord(t[12], t[13], t[14], t[15]) == d
            && BigEndianWord(t[16], t[17], t[18], t[19]) == e
  {
    var s := State(a, b, c, d, e);
    DigestWords(s, 0);
    DigestWords(s, 1);
    DigestWords(s, 2);
    DigestWords(s, 3);
    DigestWords(s, 4);
  }

  /** The padded message, without its definition: whole blocks that begin with the message and a one bit, end with the
      length, and hold as few zeros between as possible. */
  lemma PaddingIs(msg: seq<byte>, bits: nat)
    requires bits < 0x1_0000_0000_0000_0000
    ensures var p, n := PadWith(msg, bits), |msg|;
            && |p| % 64 == 0 && n + 9 <= |p| < n + 9 + 64
            && p[..n] == msg && p[n] == 0x80 && (forall k :: n < k < |p| - 8 ==> p[k] == 0)
            && Number(p[|p| - 8..]) == bits
  {
    var p := PadWith(msg, bits);
    assert p[|p| - 8..] == BigEndian64(bits);
    BigEndian64Spells(bits);
  }

  lemma FieldOfShort(n: nat)
    requires n < 0x2000_0000_0000_0000
    ensures LengthField(n) == 8 * n
  {
  }
}
