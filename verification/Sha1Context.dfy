/** The streaming interface of `sha1.c`: a context fed in pieces of any size. */
module Sha1Context {
  import opened Bytes
  import opened Fips180
  import opened Sha1Transform

  const WORD_MOD := 0x1_0000_0000
  const COUNT_MOD := 0x1_0000_0000_0000_0000

  type uint32 = x: int | 0 <= x < WORD_MOD

  /** What the source depends on in its compilation. */
  datatype Target = Target(build: Build, wideSize: bool) {
    /** One more than the largest `size_t`: 64-bit or 32-bit. */
    function SizeMod(): nat {
      if wideSize then COUNT_MOD else WORD_MOD
    }

    /** `len << 3`, computed in `size_t`. */
    function Shifted(len: nat): nat {
      if wideSize then 8 * len % COUNT_MOD else 8 * len % WORD_MOD
    }

    /** When the carry test of `SHA1_Update` is right: `len << 3` fits 32 bits, or there is a carry anyway. */
    predicate CarryExact(count0: uint32, len: nat) {
      Shifted(len) < WORD_MOD || WORD_MOD <= count0 + 8 * len % WORD_MOD
    }

    /** What a wrong carry test adds to the 64-bit count: one unit of its high word. */
    function Surplus(count0: uint32, len: nat): nat {
      if CarryExact(count0, len) then 0 else WORD_MOD
    }
  }

  /** The two assignments to `count[0]` and `count[1]` at the head of `SHA1_Update`. */
  function Counted(target: Target, count0: uint32, count1: uint32, len: nat): (c: (uint32, uint32)) {
    var shifted := target.Shifted(len);
    var low := (count0 + shifted) % WORD_MOD;
    var carry := if low < shifted then 1 else 0;
    (low, ((count1 + carry) % WORD_MOD + len / 0x2000_0000) % WORD_MOD)
  }

  // Quotient and remainder are determined by the sum they make.

  lemma Word(x: nat, q: nat, r: uint32)
    requires x == q * WORD_MOD + r
    ensures x / WORD_MOD == q && x % WORD_MOD == r
  {
  }

  lemma LongWord(x: nat, q: nat, r: nat)
    requires x == q * COUNT_MOD + r && r < COUNT_MOD
    ensures x / COUNT_MOD == q && x % COUNT_MOD == r
  {
  }

  lemma ModSum(x: nat, y: nat, z: nat)
    requires y % WORD_MOD == z % WORD_MOD
    ensures (x + y) % WORD_MOD == (x + z) % WORD_MOD
  {
    var s := x + y % WORD_MOD;
    Word(x + y, y / WORD_MOD + s / WORD_MOD, s % WORD_MOD);
    Word(x + z, z / WORD_MOD + s / WORD_MOD, s % WORD_MOD);
  }

  lemma ShiftedLow(target: Target, len: nat)
    ensures target.Shifted(len) % WORD_MOD == 8 * len % WORD_MOD
  {
    if target.wideSize {
      var q, s := 8 * len / COUNT_MOD, 8 * len % COUNT_MOD;
      Word(8 * len, q * WORD_MOD + s / WORD_MOD, s % WORD_MOD);
    } else {
      var s := 8 * len % WORD_MOD;
      Word(s, 0, s);
    }
  }

  /** The low word is right for every length. */
  lemma LowCount(target: Target, count0: uint32, count1: uint32, len: nat)
    ensures Counted(target, count0, count1, len).0 == (count0 + 8 * len) % WORD_MOD
  {
    ShiftedLow(target, len);
    ModSum(count0, target.Shifted(len), 8 * len);
  }

  lemma TwoWords(high: nat, low: uint32)
    ensures (high * WORD_MOD + low) % COUNT_MOD == high % WORD_MOD * WORD_MOD + low
  {
    LongWord(high * WORD_MOD + low, high / WORD_MOD, high % WORD_MOD * WORD_MOD + low);
  }

  lemma ShiftedWords(len: nat)
    ensures 8 * len == len / 0x2000_0000 * WORD_MOD + 8 * len % WORD_MOD
    ensures 8 * len % WORD_MOD == 8 * (len % 0x2000_0000)
  {
    Word(8 * len, len / 0x2000_0000, 8 * (len % 0x2000_0000));
  }

  lemma LowSum(count0: uint32, len: nat, low: uint32)
    requires low == 8 * len % WORD_MOD
    ensures (count0 + 8 * len) % WORD_MOD == (count0 + low) % WORD_MOD
  {
    Word(low, 0, low);
    ModSum(count0, 8 * len, low);
  }

  lemma CarryTest(target: Target, count0: uint32, count1: uint32, len: nat)
    ensures var low := Counted(target, count0, count1, len).0;
            (low < target.Shifted(len) <==> WORD_MOD <= count0 + 8 * len % WORD_MOD) <==> target.CarryExact(count0, len)
  {
    var low := Counted(target, count0, count1, len).0;
    ShiftedLow(target, len);
    LowCount(target, count0, count1, len);
    LowSum(count0, len, 8 * len % WORD_MOD);
    CarryOf(count0, target.Shifted(len), 8 * len % WORD_MOD, low);
  }

  /** Comparing the low word with an addend `y` detects the carry of its low half `z` exactly when `y` fits a word. */
  lemma CarryOf(x: uint32, y: nat, z: uint32, low: uint32)
    requires y % WORD_MOD == z && low == (x + z) % WORD_MOD
    ensures (low < y <==> WORD_MOD <= x + z) <==> y < WORD_MOD || WORD_MOD <= x + z
  {
  }

  /** `extra` is what is carried into the high word although it is not due. */
  lemma TotalCount(count0: uint32, count1: uint32, len: nat, low: uint32, due: nat, extra: nat)
    requires count0 + 8 * len % WORD_MOD == due * WORD_MOD + low
    ensures (count1 * WORD_MOD + count0 + 8 * len + extra * WORD_MOD) % COUNT_MOD
            == (count1 + len / 0x2000_0000 + due + extra) % WORD_MOD * WORD_MOD + low
  {
    ShiftedWords(len);
    TwoWords(count1 + len / 0x2000_0000 + due + extra, low);
  }

  lemma CountAfter(target: Target, count0: uint32, count1: uint32, len: nat)
    ensures var (low, high) := Counted(target, count0, count1, len);
            high * WORD_MOD + low == (count1 * WORD_MOD + count0 + 8 * len + target.Surplus(count0, len)) % COUNT_MOD
  {
    var low := Counted(target, count0, count1, len).0;
    var due := if WORD_MOD <= count0 + 8 * len % WORD_MOD then 1 else 0;
    var carry := if low < target.Shifted(len) then 1 else 0;
    LowCount(target, count0, count1, len);
    LowDue(count0, len, low, due);
    CarryTest(target, count0, count1, len);
    TotalCount(count0, count1, len, low, due, carry - due);
    HighSum(count1, carry, len / 0x2000_0000);
  }

  /** The 64-bit count grows by `8 * len`, and by 2^32 more exactly when the carry test is wrong. */
  lemma CountGrows(target: Target, count0: uint32, count1: uint32, len: nat)
    ensures var (low, high) := Counted(target, count0, count1, len);
            && high * WORD_MOD + low == (count1 * WORD_MOD + count0 + 8 * len + target.Surplus(count0, len)) % COUNT_MOD
            && (high * WORD_MOD + low == (count1 * WORD_MOD + count0 + 8 * len) % COUNT_MOD
                <==> target.CarryExact(count0, len))
  {
    CountAfter(target, count0, count1, len);
    SurplusIf(target, count0, len, count1 * WORD_MOD + count0 + 8 * len);
  }

  lemma SurplusIf(target: Target, count0: uint32, len: nat, x: nat)
    ensures (x + target.Surplus(count0, len)) % COUNT_MOD == x % COUNT_MOD <==> target.CarryExact(count0, len)
  {
    SmallSurplus(x, target.Surplus(count0, len));
  }

  /** Units of the high word leave the 64-bit count as it is exactly when their number is a multiple of 2^32. */
  lemma SurplusShows(x: nat, m: nat)
    ensures (x + WORD_MOD * m) % COUNT_MOD == x % COUNT_MOD <==> m % WORD_MOD == 0
  {
    var a, r := m / WORD_MOD, m % WORD_MOD;
    assert WORD_MOD * m == COUNT_MOD * a + WORD_MOD * r;
    CountPeriod(x + WORD_MOD * r, a);
    SmallSurplus(x, WORD_MOD * r);
  }

  lemma CountPeriod(x: nat, a: nat)
    ensures (x + COUNT_MOD * a) % COUNT_MOD == x % COUNT_MOD
  {
    LongWord(x + COUNT_MOD * a, x / COUNT_MOD + a, x % COUNT_MOD);
  }

  lemma SmallSurplus(x: nat, y: nat)
    requires y < COUNT_MOD
    ensures (x + y) % COUNT_MOD == x % COUNT_MOD <==> y == 0
  {
    var q, s := x / COUNT_MOD, x % COUNT_MOD + y;
    if s < COUNT_MOD {
      LongWord(x + y, q, s);
    } else {
      LongWord(x + y, q + 1, s - COUNT_MOD);
    }
  }

  lemma LowDue(count0: uint32, len: nat, low: uint32, due: nat)
    requires low == (count0 + 8 * len) % WORD_MOD
    requires due == if WORD_MOD <= count0 + 8 * len % WORD_MOD then 1 else 0
    ensures count0 + 8 * len % WORD_MOD == due * WORD_MOD + low
  {
  }

  lemma HighSum(count1: uint32, carry: nat, q: nat)
    ensures ((count1 + carry) % WORD_MOD + q) % WORD_MOD == (count1 + q + carry) % WORD_MOD
  {
    var c := count1 + carry;
    var s := c % WORD_MOD + q;
    Word(c + q, c / WORD_MOD + s / WORD_MOD, s % WORD_MOD);
  }

  /** Pieces under 512 MiB are always counted right, and so is everything where `size_t` has 32 bits. */
  lemma ShortPiecesCount(target: Target, count0: uint32, len: nat)
    requires len < 0x2000_0000 || !target.wideSize
    ensures target.CarryExact(count0, len)
  {
  }

  /** The first length that a 64-bit build miscounts: a fresh context would claim 2^33 bits instead of 2^32. */
  lemma LongPieceMiscounted(build: Build)
    ensures !Target(build, true).CarryExact(0, 0x2000_0000)
    ensures Counted(Target(build, true), 0, 0, 0x2000_0000) == (0, 2)
  {
  }

  // What a build computes

  function Block(msg: seq<byte>, n: nat): (b: seq<byte>)
    requires 64 * (n + 1) <= |msg|
    ensures |b| == 64
  {
    msg[64 * n..64 * n + 64]
  }

  /** The hash value after the first `n` blocks of `msg`, as a build reads them. */
  function HashOn(build: Build, msg: seq<byte>, n: nat): State
    requires 64 * n <= |msg|
  {
    if n == 0 then INITIAL else Compress(HashOn(build, msg, n - 1), BlockWords(build, Block(msg, n - 1)))
  }

  function DigestOn(build: Build, msg: seq<byte>, bits: nat): (d: seq<byte>)
    ensures |d| == 20
  {
    var p := PadWith(msg, bits);
    DigestBytes(HashOn(build, p, |p| / 64))
  }

  lemma HashStep(build: Build, msg: seq<byte>, n: nat, h: State, b: seq<byte>)
    requires 64 * (n + 1) <= |msg| && h == HashOn(build, msg, n) && b == Block(msg, n)
    ensures HashOn(build, msg, n + 1) == Compress(h, BlockWords(build, b))
  {
  }

  lemma StandardStep(msg: seq<byte>, n: nat, h: State, b: seq<byte>)
    requires 64 * (n + 1) <= |msg| && h == Hash(msg, n) && b == Block(msg, n)
    ensures Hash(msg, n + 1) == Compress(h, ParseBlock(b))
  {
    assert b == msg[64 * n..64 * (n + 1)];
  }

  lemma {:induction false} HashOfAgreeing(build: Build, msg: seq<byte>, n: nat)
    requires 64 * n <= |msg| && build.Agrees()
    ensures HashOn(build, msg, n) == Hash(msg, n)
  {
    if n == 0 {
    } else {
      var k := n - 1;
      var h, b := Hash(msg, k), Block(msg, k);
      HashOfAgreeing(build, msg, k);
      BlockOfAgreeing(build, b);
      HashStep(build, msg, k, h, b);
      StandardStep(msg, k, h, b);
    }
  }

  /** With the macro as it should be, that is the standard's digest. */
  lemma DigestOfAgreeing(build: Build, msg: seq<byte>, bits: nat)
    requires build.Agrees()
    ensures DigestOn(build, msg, bits) == HashPadded(msg, bits)
  {
    var p := PadWith(msg, bits);
    HashOfAgreeing(build, p, |p| / 64);
  }

  lemma BlockOfPrefix(msg: seq<byte>, longer: seq<byte>, n: nat)
    requires msg <= longer && 64 * (n + 1) <= |msg|
    ensures Block(longer, n) == Block(msg, n)
  {
  }

  lemma {:induction false} HashOfPrefix(build: Build, msg: seq<byte>, longer: seq<byte>, n: nat)
    requires msg <= longer && 64 * n <= |msg|
    ensures HashOn(build, longer, n) == HashOn(build, msg, n)
  {
    if n == 0 {
    } else {
      var k := n - 1;
      var h, b := HashOn(build, msg, k), Block(msg, k);
      HashOfPrefix(build, msg, longer, k);
      BlockOfPrefix(msg, longer, k);
      HashStep(build, msg, k, h, b);
      HashStep(build, longer, k, h, b);
    }
  }

  /** What is in place of byte `g` of a message once its blocks have been hashed in place. */
  function LeftByte(build: Build, msg: seq<byte>, g: nat): byte
    requires g < |msg|
  {
    var n := g / 64;
    if 64 * (n + 1) <= |msg| then Spent(build, Block(msg, n))[g % 64] else msg[g]
  }

  ghost function LeftOver(build: Build, msg: seq<byte>): (left: seq<byte>)
    ensures |left| == |msg|
  {
    seq(|msg|, g requires 0 <= g < |msg| => LeftByte(build, msg, g))
  }

  lemma LeftOfPrefix(build: Build, msg: seq<byte>, longer: seq<byte>, g: nat)
    requires msg <= longer && 64 * (g / 64 + 1) <= |msg|
    ensures LeftOver(build, longer)[g] == LeftOver(build, msg)[g]
  {
    BlockOfPrefix(msg, longer, g / 64);
  }

  // The context

  /** The blocks of `msg` are in the state and its unfinished block is the filled part of the buffer. What the buffer
      holds beyond that is left over from earlier blocks and means nothing. */
  ghost predicate Holds(build: Build, state: array<word>, buffer: array<byte>, msg: seq<byte>)
    reads state, buffer
  {
    && state.Length == 5 && buffer.Length == 64
    && (forall n: nat {:trigger HashOn(build, msg, n)} :: n == |msg| / 64 ==> StateOf(state) == HashOn(build, msg, n))
    && buffer[..|msg| % 64] == msg[|msg| - |msg| % 64..]
  }

  /** The bytes of a piece that `SHA1_Update` hands to the transform in place, and so overwrites: whole blocks after the
      one that completes the buffer. `j` is the number of bytes buffered before the piece. */
  predicate InPlace(j: nat, len: nat, k: int) {
    63 < j + len && 64 - j <= k < len - (j + len) % 64
  }

  lemma NoneInPlace(j: nat, len: nat, k: int)
    requires j < 64 && len < 64
    ensures !InPlace(j, len, k)
  {
  }

  /** The hashing of a message laid out in advance: all the hash values, block by block, and the bytes that the blocks
      are overwritten with. */
  datatype Course = Course(build: Build, msg: seq<byte>, hs: seq<State>, left: seq<byte>) {
    ghost predicate Valid() {
      && |hs| == |msg| / 64 + 1 && left == LeftOver(build, msg)
      && (forall n: nat {:trigger HashOn(build, msg, n)} :: 64 * n <= |msg| ==> hs[n] == HashOn(build, msg, n))
    }
  }

  ghost function CourseOf(build: Build, msg: seq<byte>): (c: Course)
    ensures c.Valid() && c.build == build && c.msg == msg
  {
    Course(build, msg,
           seq(|msg| / 64 + 1, n requires 0 <= n <= |msg| / 64 => HashOn(build, msg, n)),
           LeftOver(build, msg))
  }

  lemma CourseStep(c: Course, n: nat)
    requires c.Valid() && 64 * (n + 1) <= |c.msg|
    ensures c.hs[n + 1] == Compress(c.hs[n], BlockWords(c.build, Block(c.msg, n)))
  {
    assert c.hs[n + 1] == HashOn(c.build, c.msg, n + 1) && c.hs[n] == HashOn(c.build, c.msg, n);
  }

  lemma LeftAt(build: Build, msg: seq<byte>, n: nat, k: nat, g: nat)
    requires 64 * (n + 1) <= |msg| && k < 64 && g == 64 * n + k
    ensures LeftOver(build, msg)[g] == Spent(build, Block(msg, n))[k]
  {
    Remainder(n, k);
  }

  lemma SliceIs(s: seq<byte>, lo: nat, t: seq<byte>)
    requires lo + |t| <= |s| && forall k :: 0 <= k < |t| ==> s[lo + k] == t[k]
    ensures s[lo..lo + |t|] == t
  {
  }

  lemma LeftBlock(build: Build, msg: seq<byte>, n: nat)
    requires 64 * (n + 1) <= |msg|
    ensures LeftOver(build, msg)[64 * n..64 * n + 64] == Spent(build, Block(msg, n))
  {
    var left, lo, spent := LeftOver(build, msg), 64 * n, Spent(build, Block(msg, n));
    forall k | 0 <= k < |spent|
      ensures left[lo + k] == spent[k]
    {
      LeftAt(build, msg, n, k, lo + k);
    }
    SliceIs(left, lo, spent);
  }

  /** `SHA1_Transform` on block `n` of a message. */
  method HashBlock(state: array<word>, a: array<byte>, off: nat, build: Build, ghost c: Course, ghost n: nat)
    requires state.Length == 5 && off + 64 <= a.Length && c.Valid() && c.build == build
    requires 64 * (n + 1) <= |c.msg| && Block(c.msg, n) == a[off..off + 64] && StateOf(state) == c.hs[n]
    modifies state, a
    ensures StateOf(state) == c.hs[n + 1] && a[off..off + 64] == c.left[64 * n..64 * n + 64]
    ensures forall k :: 0 <= k < a.Length && !(off <= k < off + 64) ==> a[k] == old(a[k])
  {
    CourseStep(c, n);
    LeftBlock(build, c.msg, n);
    Transform(state, a, off, build);
  }

  /** The bytes from `lo` to `hi` of the data are left over from the message, `shift` further on in it, and the others
      are kept. */
  ghost predicate Swept(was: seq<byte>, now: seq<byte>, left: seq<byte>, lo: nat, hi: nat, shift: int) {
    && |was| == |now| && 0 <= lo + shift && hi + shift <= |left|
    && forall k :: 0 <= k < |was| ==> now[k] == if lo <= k < hi then left[k + shift] else was[k]
  }

  lemma BlockSwept(was: seq<byte>, now: seq<byte>, left: seq<byte>, off: nat, shift: int)
    requires |was| == |now| && off + 64 <= |was| && 0 <= off + shift && off + shift + 64 <= |left|
    requires now[off..off + 64] == left[off + shift..off + shift + 64]
    requires forall k :: 0 <= k < |was| && !(off <= k < off + 64) ==> now[k] == was[k]
    ensures Swept(was, now, left, off, off + 64, shift)
  {
    forall k | off <= k < off + 64
      ensures now[k] == left[k + shift]
    {
      assert now[k] == now[off..off + 64][k - off] == left[off + shift..off + shift + 64][k - off];
    }
  }

  lemma SweptFurther(was: seq<byte>, mid: seq<byte>, now: seq<byte>, left: seq<byte>, lo: nat, hi: nat, next: nat,
                     shift: int)
    requires lo <= hi <= next && Swept(was, mid, left, lo, hi, shift) && Swept(mid, now, left, hi, next, shift)
    ensures Swept(was, now, left, lo, next, shift)
  {
  }

  lemma NextBlock(msg: seq<byte>, data: seq<byte>, off: nat, end: nat, n: nat, shift: int)
    requires off + 64 <= end <= |data| && 64 * n == off + shift && |msg| == end + shift
    requires msg[off + shift..] == data[off..end]
    ensures Block(msg, n) == data[off..off + 64] && msg[off + 64 + shift..] == data[off + 64..end]
  {
    var rest := msg[off + shift..];
    assert Block(msg, n) == rest[..64] == data[off..end][..64];
    assert msg[off + 64 + shift..] == rest[64..] == data[off..end][64..];
  }

  /** The data, which was `was`, has been hashed in place from `lo` to `off`, the end of block `n`; the rest up to `end`
      ends the message. */
  ghost predicate HashedTo(state: array<word>, data: array<byte>, c: Course, was: seq<byte>,
                           lo: nat, off: nat, end: nat, n: nat, shift: int)
    requires state.Length == 5 && c.Valid() && lo <= off <= end <= data.Length
    requires 64 * n == off + shift && |c.msg| == end + shift
    reads state, data
  {
    && StateOf(state) == c.hs[n] && c.msg[off + shift..] == data[off..end]
    && Swept(was, data[..], c.left, lo, off, shift)
  }

  /** One pass of the block loop of `SHA1_Update`. */
  method HashNext(state: array<word>, data: array<byte>, off: nat, build: Build,
                  ghost c: Course, ghost was: seq<byte>, ghost lo: nat, ghost end: nat, ghost n: nat, ghost shift: int)
    requires state.Length == 5 && c.Valid() && c.build == build && lo <= off && off + 64 <= end <= data.Length
    requires 64 * n == off + shift && |c.msg| == end + shift && HashedTo(state, data, c, was, lo, off, end, n, shift)
    modifies state, data
    ensures HashedTo(state, data, c, was, lo, off + 64, end, n + 1, shift)
  {
    ghost var mid := data[..];
    NextBlock(c.msg, mid, off, end, n, shift);
    HashBlock(state, data, off, build, c, n);
    BlockSwept(mid, data[..], c.left, off, shift);
    SweptFurther(was, mid, data[..], c.left, lo, off, off + 64, shift);
  }

  /** The loop. */
  method HashLoop(state: array<word>, data: array<byte>, start: nat, from: nat, len: nat, build: Build, ghost c: Course,
                  ghost was: seq<byte>, ghost lo: nat, ghost end: nat, ghost done: nat, ghost shift: int)
    returns (i: nat, ghost n: nat)
    requires state.Length == 5 && c.Valid() && c.build == build
    requires lo == start + from <= end == start + len <= data.Length
    requires 64 * done == lo + shift && |c.msg| == end + shift
    requires HashedTo(state, data, c, was, lo, lo, end, done, shift)
    modifies state, data
    ensures done <= n && from <= i <= len < i + 64 && 64 * n == start + i + shift
    ensures HashedTo(state, data, c, was, lo, start + i, end, n, shift)
  {
    ghost var off := start + from;
    i, n := from, done;
    while i + 63 < len
      invariant from <= i <= len && done <= n && off == start + i && 64 * n == off + shift
      invariant HashedTo(state, data, c, was, lo, off, end, n, shift)
    {
      HashNext(state, data, start + i, build, c, was, lo, end, n, shift);
      i, n, off := i + 64, n + 1, off + 64;
    }
  }

  /** The blocks of a piece that lie entirely in the caller's data: `for ( ; i + 63 < len; i += 64)`. The ghost result
      is the number of blocks hashed so far. */
  method HashInPlace(state: array<word>, data: array<byte>, start: nat, from: nat, len: nat, build: Build,
                     ghost c: Course, ghost done: nat, ghost shift: int)
    returns (i: nat, ghost n: nat)
    requires state.Length == 5 && start + len <= data.Length && from <= len && c.Valid() && c.build == build
    requires 64 * done == start + from + shift && |c.msg| == start + len + shift
    requires c.msg[start + from + shift..] == data[start + from..start + len] && StateOf(state) == c.hs[done]
    modifies state, data
    ensures done <= n && from <= i <= len < i + 64 && 64 * n == start + i + shift
    ensures StateOf(state) == c.hs[n] && c.msg[64 * n..] == data[start + i..start + len]
    ensures Swept(old(data[..]), data[..], c.left, start + from, start + i, shift)
  {
    ghost var was, lo, end := data[..], start + from, start + len;
    i, n := HashLoop(state, data, start, from, len, build, c, was, lo, end, done, shift);
  }

  lemma Remainder(q: nat, r: nat)
    requires r < 64
    ensures (64 * q + r) / 64 == q && (64 * q + r) % 64 == r
  {
  }

  method FillBlock(state: array<word>, buffer: array<byte>, data: array<byte>, start: nat, j: nat, build: Build,
                   ghost c: Course, ghost n: nat, ghost piece: seq<byte>)
    requires state.Length == 5 && buffer.Length == 64 && buffer != data && start + |piece| <= data.Length
    requires j < 64 && 64 <= j + |piece| && data[start..start + |piece|] == piece && c.Valid() && c.build == build
    requires 64 * (n + 1) <= |c.msg| && c.msg[64 * n..] == buffer[..j] + piece && StateOf(state) == c.hs[n]
    modifies state, buffer
    ensures StateOf(state) == c.hs[n + 1]
  {
    MemCpy(buffer, j, data, start, 64 - j);
    assert data[start..start + (64 - j)] == piece[..64 - j];
    assert buffer[0..64] == c.msg[64 * n..][..64] == Block(c.msg, n);
    HashBlock(state, buffer, 0, build, c, n);
  }

  /** What an update makes of the caller's data: the bytes in place are left over from the message, in which the piece
      begins at `before`, and the others are kept. */
  ghost predicate Updated(was: seq<byte>, now: seq<byte>, start: nat, len: nat, before: nat, left: seq<byte>) {
    && |was| == |now| && before + len <= |left|
    && forall k :: 0 <= k < |was| ==>
         now[k] == if InPlace(before % 64, len, k - start) then left[before + k - start] else was[k]
  }

  lemma NothingUpdated(was: seq<byte>, start: nat, len: nat, j: nat, n0: nat, before: nat, left: seq<byte>)
    requires j + len < 64 && before == 64 * n0 + j && before + len <= |left|
    ensures Updated(was, was, start, len, before, left)
  {
    Remainder(n0, j);
  }

  lemma SweptIsUpdated(was: seq<byte>, now: seq<byte>, start: nat, len: nat, j: nat, i: nat, n0: nat, n: nat,
                       before: nat, left: seq<byte>)
    requires j < 64 && 63 < j + len && before == 64 * n0 + j && before + len <= |left|
    requires i <= len < i + 64 && n0 <= n && before + i == 64 * n
    requires Swept(was, now, left, start + 64 - j, start + i, before - start)
    ensures Updated(was, now, start, len, before, left)
  {
    Remainder(n0, j);
    Remainder(n - n0, len - i);
    assert j + len == 64 * (n - n0) + (len - i);
  }

  /** The block loop, begun behind the bytes that complete the buffered block. */
  method HashRest(state: array<word>, data: array<byte>, start: nat, len: nat, j: nat,
                  build: Build, ghost c: Course, ghost n0: nat, ghost before: nat)
    returns (i: nat, ghost n: nat)
    requires state.Length == 5 && start + len <= data.Length && j < 64 && 63 < j + len
    requires |c.msg| == before + len && before == 64 * n0 + j && c.Valid() && c.build == build
    requires c.msg[64 * (n0 + 1)..] == data[start + 64 - j..start + len] && StateOf(state) == c.hs[n0 + 1]
    modifies state, data
    ensures i <= len < i + 64 && 64 * n + len - i == |c.msg|
    ensures StateOf(state) == c.hs[n] && c.msg[64 * n..] == data[start + i..start + len]
    ensures Updated(old(data[..]), data[..], start, len, before, c.left)
  {
    ghost var was := data[..];
    i, n := HashInPlace(state, data, start, 64 - j, len, build, c, n0 + 1, before - start);
    SweptIsUpdated(was, data[..], start, len, j, i, n0, n, before, c.left);
  }

  /** The branch of `SHA1_Update` that completes the buffered block: returns how much of the piece is used up. */
  method FillAndHash(state: array<word>, buffer: array<byte>, data: array<byte>, start: nat, len: nat, j: nat,
                     build: Build, ghost c: Course, ghost n0: nat, ghost before: nat)
    returns (i: nat, ghost n: nat)
    requires state.Length == 5 && buffer.Length == 64 && buffer != data && start + len <= data.Length
    requires j < 64 && 63 < j + len && |c.msg| == before + len && before == 64 * n0 + j && c.Valid() && c.build == build
    requires c.msg[64 * n0..] == buffer[..j] + data[start..start + len] && StateOf(state) == c.hs[n0]
    modifies state, buffer, data
    ensures i <= len < i + 64 && 64 * n + len - i == |c.msg|
    ensures StateOf(state) == c.hs[n] && c.msg[64 * n..] == data[start + i..start + len]
    ensures Updated(old(data[..]), data[..], start, len, before, c.left)
  {
    FillBlock(state, buffer, data, start, j, build, c, n0, data[start..start + len]);
    assert data[start + 64 - j..start + len] == c.msg[64 * n0..][64..] == c.msg[64 * (n0 + 1)..];
    i, n := HashRest(state, data, start, len, j, build, c, n0, before);
  }

  /** The branch of `SHA1_Update` on whether a block is completed: returns what is left to be buffered, and where. */
  method HashBlocks(state: array<word>, buffer: array<byte>, data: array<byte>, start: nat, len: nat, j: nat,
                    build: Build, ghost c: Course, ghost n0: nat, ghost before: nat)
    returns (i: nat, fill: nat, ghost n: nat)
    requires state.Length == 5 && buffer.Length == 64 && buffer != data && start + len <= data.Length
    requires j < 64 && |c.msg| == before + len && before == 64 * n0 + j && c.Valid() && c.build == build
    requires c.msg[64 * n0..] == buffer[..j] + data[start..start + len] && StateOf(state) == c.hs[n0]
    modifies state, buffer, data
    ensures i <= len && fill + len - i < 64 && |c.msg| == 64 * n + fill + len - i
    ensures StateOf(state) == c.hs[n] && c.msg[64 * n..] == buffer[..fill] + data[start + i..start + len]
    ensures Updated(old(data[..]), data[..], start, len, before, c.left)
  {
    i, fill, n := 0, j, n0;
    if 63 < j + len {
      i, n := FillAndHash(state, buffer, data, start, len, j, build, c, n0, before);
      fill := 0;
    } else {
      NothingUpdated(data[..], start, len, j, n0, before, c.left);
    }
  }

  /** The final `memcpy` of `SHA1_Update`: `rest` is then all buffered. */
  method CopyRest(buffer: array<byte>, fill: nat, data: array<byte>, start: nat, i: nat, len: nat,
                  ghost rest: seq<byte>)
    requires buffer != data && i <= len && start + len <= data.Length && fill + len - i <= buffer.Length
    requires rest == buffer[..fill] + data[start + i..start + len]
    modifies buffer
    ensures buffer[..|rest|] == rest
  {
    MemCpy(buffer, fill, data, start + i, len - i);
  }

  /** What `SHA1_Update` does after counting, with `j` bytes in the buffer. */
  method Absorb(state: array<word>, buffer: array<byte>, data: array<byte>, start: nat, len: nat, j: nat,
                build: Build, ghost c: Course, ghost n0: nat, ghost before: nat)
    returns (ghost n: nat)
    requires state.Length == 5 && buffer.Length == 64 && buffer != data && start + len <= data.Length
    requires j < 64 && |c.msg| == before + len && before == 64 * n0 + j && c.Valid() && c.build == build
    requires c.msg[64 * n0..] == buffer[..j] + data[start..start + len] && StateOf(state) == c.hs[n0]
    modifies state, buffer, data
    ensures 64 * n <= |c.msg| < 64 * n + 64
    ensures StateOf(state) == c.hs[n] && buffer[..|c.msg| - 64 * n] == c.msg[64 * n..]
    ensures Updated(old(data[..]), data[..], start, len, before, c.left)
  {
    var i, fill;
    i, fill, n := HashBlocks(state, buffer, data, start, len, j, build, c, n0, before);
    CopyRest(buffer, fill, data, start, i, len, c.msg[64 * n..]);
  }

  lemma DropConcat(a: seq<byte>, b: seq<byte>, k: nat)
    requires k <= |a|
    ensures (a + b)[k..] == a[k..] + b
  {
  }

  lemma StartCourse(build: Build, state: array<word>, buffer: array<byte>, msg: seq<byte>, piece: seq<byte>)
    returns (c: Course, n: nat)
    requires Holds(build, state, buffer, msg)
    ensures c.Valid() && c.build == build && c.msg == msg + piece && n == |msg| / 64 && StateOf(state) == c.hs[n]
    ensures c.msg[64 * n..] == buffer[..|msg| % 64] + piece
  {
    n, c := |msg| / 64, CourseOf(build, msg + piece);
    HashOfPrefix(build, msg, msg + piece, n);
    DropConcat(msg, piece, 64 * n);
  }

  lemma EndCourse(state: array<word>, buffer: array<byte>, c: Course, n: nat)
    requires state.Length == 5 && buffer.Length == 64 && c.Valid()
    requires 64 * n <= |c.msg| < 64 * n + 64
    requires StateOf(state) == c.hs[n] && buffer[..|c.msg| - 64 * n] == c.msg[64 * n..]
    ensures Holds(c.build, state, buffer, c.msg)
  {
    Remainder(n, |c.msg| - 64 * n);
    assert n == |c.msg| / 64 && c.hs[n] == HashOn(c.build, c.msg, n);
  }

  /** `count[i] >> ((3 - (k & 3)) * 8) & 255`: byte `k` of a word, most significant first. */
  function CountByte(x: uint32, k: nat): byte
    requires k < 4
  {
    match k
    case 0 => LowByte(x / 0x100_0000)
    case 1 => LowByte(x / 0x1_0000)
    case 2 => LowByte(x / 0x100)
    case 3 => LowByte(x)
  }

  lemma WordOfCount(x: uint32, k: nat)
    requires k < 4
    ensures CountByte(x, k) == BigEndian32(x)[k]
  {
  }

  /** Together they are the 64-bit count, most significant byte first. */
  lemma TwoHalves(count0: uint32, count1: uint32, x: nat)
    requires x == count1 * WORD_MOD + count0
    ensures BigEndian64(x) == BigEndian32(count1) + BigEndian32(count0)
  {
    CountHalves(count0, count1, x);
  }

  lemma CountByteAt(count0: uint32, count1: uint32, x: nat, i: nat)
    requires x == count1 * WORD_MOD + count0 && i < 8
    ensures CountByte(if 4 <= i then count0 else count1, i % 4) == BigEndian64(x)[i]
  {
    TwoHalves(count0, count1, x);
    HalfAt(BigEndian32(count1), BigEndian32(count0), i);
    WordOfCount(if 4 <= i then count0 else count1, i % 4);
  }

  lemma HalfAt(high: seq<byte>, low: seq<byte>, i: nat)
    requires |high| == |low| == 4 && i < 8
    ensures (high + low)[i] == (if 4 <= i then low else high)[i % 4]
  {
  }

  lemma CountHalves(count0: uint32, count1: uint32, x: nat)
    requires x == count1 * WORD_MOD + count0
    ensures x / WORD_MOD == count1 && x % WORD_MOD == count0
  {
    Word(x, count1, count0);
  }

  /** The fill of the buffer, as the source takes it from the low count word. */
  lemma BufferFill(n: nat)
    ensures 8 * n % WORD_MOD / 8 % 64 == n % 64
  {
    ShiftedWords(n);
    var q, r := n / 0x2000_0000, n % 0x2000_0000;
    assert 8 * r / 8 == r;
    Remainder(0x80_0000 * q + r / 64, r % 64);
  }

  lemma LowCountOfPieces(target: Target, count0: uint32, count1: uint32, n: nat, len: nat)
    requires count0 == 8 * n % WORD_MOD
    ensures Counted(target, count0, count1, len).0 == 8 * (n + len) % WORD_MOD
  {
    LowCount(target, count0, count1, len);
    ModSum(8 * len, count0, 8 * n);
  }

  /** One update: what it does to the count, and when a right count stays right. */
  lemma CountOfPieces(target: Target, count0: uint32, count1: uint32, n: nat, len: nat)
    ensures var (low, high) := Counted(target, count0, count1, len);
            var was, now := count1 * WORD_MOD + count0, high * WORD_MOD + low;
            && now == (was + 8 * len + target.Surplus(count0, len)) % COUNT_MOD
            && (was == 8 * n % COUNT_MOD ==> (now == 8 * (n + len) % COUNT_MOD <==> target.CarryExact(count0, len)))
  {
    CountGrows(target, count0, count1, len);
    CountSum(8 * n, 8 * len);
  }

  /** All that `SHA1_Update` relies on or establishes about the count of `n` bytes when `len` more come. */
  lemma CountsAfter(target: Target, count0: uint32, count1: uint32, n: nat, len: nat)
    requires count0 == 8 * n % WORD_MOD
    ensures count0 / 8 % 64 == n % 64
    ensures var (low, high) := Counted(target, count0, count1, len);
            var was, now := count1 * WORD_MOD + count0, high * WORD_MOD + low;
            && low == 8 * (n + len) % WORD_MOD
            && now == (was + 8 * len + target.Surplus(count0, len)) % COUNT_MOD
            && (was == 8 * n % COUNT_MOD ==> (now == 8 * (n + len) % COUNT_MOD <==> target.CarryExact(count0, len)))
  {
    BufferFill(n);
    LowCountOfPieces(target, count0, count1, n, len);
    CountOfPieces(target, count0, count1, n, len);
  }

  lemma CountSum(x: nat, y: nat)
    ensures (x % COUNT_MOD + y) % COUNT_MOD == (x + y) % COUNT_MOD
  {
    var s := x % COUNT_MOD + y;
    LongWord(x + y, x / COUNT_MOD + s / COUNT_MOD, s % COUNT_MOD);
  }

  lemma ZerosSoFar(n: nat, z: nat)
    requires z <= ZeroCount(n)
    ensures (n + 1 + z) % 64 == 56 <==> z == ZeroCount(n)
  {
    ZeroCountFills(n);
    if (n + 1 + z) % 64 == 56 {
      ZeroCountIsSmallest(n, z);
    }
  }

  /** The five assignments of `SHA1_Init` to the state. */
  method SetInitial(state: array<word>)
    requires state.Length == 5
    modifies state
    ensures StateOf(state) == INITIAL
    ensures state[..] == [0x67452301, 0xEFCDAB89, 0x98BADCFE, 0x10325476, 0xC3D2E1F0]
  {
    state[0], state[1], state[2], state[3], state[4] := 0x67452301, 0xEFCDAB89, 0x98BADCFE, 0x10325476, 0xC3D2E1F0;
  }

  lemma EmptyHolds(build: Build, state: array<word>, buffer: array<byte>)
    requires state.Length == 5 && buffer.Length == 64 && StateOf(state) == INITIAL
    ensures Holds(build, state, buffer, [])
  {
    assert HashOn(build, [], 0) == INITIAL;
  }

  lemma EmptyCount(msg: seq<byte>)
    requires msg == []
    ensures 8 * |msg| % WORD_MOD == 0 && 8 * |msg| % COUNT_MOD == 0
  {
  }

  class ShaCtx {
    const target: Target
    const state: array<word>
    const buffer: array<byte>
    var count0: uint32
    var count1: uint32
    /** Everything fed since `SHA1_Init`. */
    ghost var fed: seq<byte>

    ghost predicate Valid()
      reads this, state, buffer
    {
      Holds(target.build, state, buffer, fed) && count0 == 8 * |fed| % WORD_MOD
    }

    function Count(): nat
      reads this
    {
      count1 * WORD_MOD + count0
    }

    /** The 64-bit bit count is right as well; only `Final` looks at its high word. */
    ghost predicate Counts()
      reads this
    {
      Count() == 8 * |fed| % COUNT_MOD
    }

    constructor (target: Target)
      ensures this.target == target && fresh(state) && fresh(buffer)
      ensures state.Length == 5 && buffer.Length == 64
    {
      this.target := target;
      state := new word[5];
      buffer := new byte[64];
    }

    /** `SHA1_Init`. */
    method Init()
      requires state.Length == 5 && buffer.Length == 64
      modifies this, state
      ensures Valid() && Counts() && fed == [] && Count() == 0
      ensures state[..] == [0x67452301, 0xEFCDAB89, 0x98BADCFE, 0x10325476, 0xC3D2E1F0]
    {
      SetInitial(state);
      count0, count1, fed := 0, 0, [];
      Begun();
    }

    lemma Begun()
      requires state.Length == 5 && buffer.Length == 64 && StateOf(state) == INITIAL
      requires count0 == 0 && count1 == 0 && fed == []
      ensures Valid() && Counts()
    {
      EmptyHolds(target.build, state, buffer);
      EmptyCount(fed);
    }

    /** The counting at the head of `SHA1_Update`. */
    method AddCount(len: nat)
      modifies this`count0, this`count1
      ensures (count0, count1) == Counted(target, old(count0), old(count1), len)
    {
      var shifted := target.Shifted(len);
      count0 := (count0 + shifted) % WORD_MOD;
      if count0 < shifted {
        count1 := (count1 + 1) % WORD_MOD;
      }
      count1 := (count1 + len / 0x2000_0000) % WORD_MOD;
    }

    /** `SHA1_Update(context, data + start, len)`. */
    method Update(data: array<byte>, start: nat, len: nat)
      requires Valid() && data != buffer
      requires start + len <= data.Length && len + 63 < target.SizeMod()
      modifies this, state, buffer, data
      ensures Valid() && fed == old(fed) + old(data[start..start + len])
      ensures Count() == (old(Count()) + 8 * len + target.Surplus(old(count0), len)) % COUNT_MOD
      ensures old(Counts()) ==> (Counts() <==> target.CarryExact(old(count0), len))
      ensures Updated(old(data[..]), data[..], start, len, old(|fed|), LeftOver(target.build, fed))
    {
      var j := count0 / 8 % 64;
      CountsAfter(target, count0, count1, |fed|, len);
      AddCount(len);
      AbsorbPiece(data, start, len, j);
    }

    /** The rest of `SHA1_Update`. */
    method AbsorbPiece(data: array<byte>, start: nat, len: nat, j: nat)
      requires Holds(target.build, state, buffer, fed) && j == |fed| % 64
      requires data != buffer && start + len <= data.Length
      modifies this`fed, state, buffer, data
      ensures Holds(target.build, state, buffer, fed) && fed == old(fed) + old(data[start..start + len])
      ensures Updated(old(data[..]), data[..], start, len, old(|fed|), LeftOver(target.build, fed))
    {
      ghost var c, n := StartCourse(target.build, state, buffer, fed, data[start..start + len]);
      fed := fed + data[start..start + len];
      n := Absorb(state, buffer, data, start, len, j, target.build, c, n, |old(fed)|);
      EndCourse(state, buffer, c, n);
    }

    /** `SHA1_Final(digest, context)`. The context is wiped: it must be initialised again before it is reused. */
    method Final(digest: array<byte>)
      requires Valid() && digest.Length == 20 && digest != buffer
      modifies this, state, buffer, digest
      ensures digest[..] == DigestOn(target.build, old(fed), old(Count()))
      ensures target.build.Agrees() ==> digest[..] == HashPadded(old(fed), old(Count()))
      ensures target.build.Agrees() && old(Counts()) ==> digest[..] == Sha1(old(fed))
      ensures count0 == count1 == 0
      ensures (forall k :: 0 <= k < 5 ==> state[k] == 0) && (forall k :: 0 <= k < 64 ==> buffer[k] == 0)
    {
      if target.build.Agrees() {
        DigestOfAgreeing(target.build, fed, Count());
      }
      var finalcount := EncodeCount();
      Pad(finalcount);
      Output(digest);
      Wipe();
    }

    /** The wipes at the end of `SHA1_Final`. */
    method Wipe()
      requires state.Length == 5 && buffer.Length == 64
      modifies this`count0, this`count1, state, buffer
      ensures count0 == count1 == 0
      ensures (forall k :: 0 <= k < 5 ==> state[k] == 0) && (forall k :: 0 <= k < 64 ==> buffer[k] == 0)
    {
      count0, count1 := 0, 0;
      forall k | 0 <= k < 5 {
        state[k] := 0;
      }
      forall k | 0 <= k < 64 {
        buffer[k] := 0;
      }
    }

    /** `count[i >= 4 ? 0 : 1] >> ((3 - (i & 3)) * 8) & 255`: the high word's bytes come first. */
    method PickCountByte(i: nat) returns (b: byte)
      requires i < 8
      ensures b == BigEndian64(Count())[i]
    {
      CountByteAt(count0, count1, Count(), i);
      b := CountByte(if 4 <= i then count0 else count1, i % 4);
    }

    /** The first loop of `SHA1_Final`. */
    method EncodeCount() returns (finalcount: array<byte>)
      ensures fresh(finalcount) && finalcount[..] == BigEndian64(Count())
      ensures Number(finalcount[..]) == Count()
    {
      finalcount := new byte[8];
      ghost var bytes := BigEndian64(Count());
      var i := 0;
      while i < 8
        invariant i <= 8
        invariant forall k :: 0 <= k < i ==> finalcount[k] == bytes[k]
      {
        var b := PickCountByte(i);
        finalcount[i] := b;
        i := i + 1;
      }
      assert finalcount[..] == bytes;
      BigEndian64Spells(Count());
    }

    /** The updates of `SHA1_Final`: they feed the padding, and leave the arrays they feed it from alone. */
    method Pad(finalcount: array<byte>)
      requires Valid() && finalcount.Length == 8 && finalcount != buffer
      modifies this, state, buffer, finalcount
      ensures Valid()
      ensures fed == old(fed) + [0x80] + Zeros(ZeroCount(old(|fed|))) + old(finalcount[..])
      ensures finalcount[..] == old(finalcount[..])
    {
      ghost var was, length := fed, finalcount[..];
      var mark := new byte[1](_ => 0x80);
      assert mark[..] == [0x80];
      Feed(mark);
      PadZeros(|was|);
      assert finalcount[..] == length;
      Feed(finalcount);
    }

    /** `SHA1_Update` on one of the small constant inputs of `SHA1_Final`. */
    method Feed(a: array<byte>)
      requires Valid() && a != buffer && a.Length < 64
      modifies this, state, buffer, a
      ensures Valid() && fed == old(fed) + old(a[..]) && a[..] == old(a[..])
    {
      ghost var was, j := a[..], |fed| % 64;
      assert a[0..a.Length] == was;
      Update(a, 0, a.Length);
      forall k | 0 <= k < a.Length
        ensures a[k] == was[k]
      {
        NoneInPlace(j, a.Length, k);
      }
    }

    method FeedZero(zero: array<byte>, ghost start: seq<byte>, ghost z: nat)
      requires Valid() && zero != buffer && zero[..] == [0] && fed == start + Zeros(z)
      modifies this, state, buffer, zero
      ensures Valid() && zero[..] == [0] && fed == start + Zeros(z + 1) && count0 / 8 % 64 == |fed| % 64
    {
      assert Zeros(z) + [0] == Zeros(z + 1);
      Feed(zero);
      BufferFill(|fed|);
    }

    /** `while ((context->count[0] & 504) != 448)`: exactly the standard's number of zeros, for `n` message bytes. */
    method PadZeros(ghost n: nat)
      requires Valid() && |fed| == n + 1
      modifies this, state, buffer
      ensures Valid() && fed == old(fed) + Zeros(ZeroCount(n))
    {
      var zero := new byte[1](_ => 0);
      ghost var start, z := fed, 0;
      BufferFill(|fed|);
      while count0 / 8 % 64 != 56
        invariant Valid() && zero[..] == [0]
        invariant z <= ZeroCount(n) && fed == start + Zeros(z)
        invariant count0 / 8 % 64 == |fed| % 64
        decreases ZeroCount(n) - z
      {
        ZerosSoFar(n, z);
        FeedZero(zero, start, z);
        z := z + 1;
      }
      ZerosSoFar(n, z);
    }

    /** The last loop of `SHA1_Final`. */
    method Output(digest: array<byte>)
      requires state.Length == 5 && digest.Length == 20
      modifies digest
      ensures digest[..] == DigestBytes(StateOf(state))
    {
      var i := 0;
      while i < 20
        invariant i <= 20
        invariant forall k :: 0 <= k < i ==> digest[k] == WordByte(state[k / 4], k % 4)
      {
        digest[i] := WordByte(state[i / 4], i % 4);
        i := i + 1;
      }
    }
  }
}
