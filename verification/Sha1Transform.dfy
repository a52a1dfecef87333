/** The compression function of `sha1.c`: sixteen words expanded in place, registers renamed instead of shifted. */
module Sha1Transform {
  import opened Bytes
  import opened Fips180

  /** The `blk0` byte swap: a native little-endian word becomes the big-endian one, and back. */
  function Swap(l: word): word {
    (Rotl(l, 24) & 0xFF00FF00) | (Rotl(l, 8) & 0x00FF00FF)
  }

  /** How the file is compiled: the byte order of the machine, and whether the macro `WORDS_BIGENDIAN` is defined, which
      chooses the definition of `blk0`. */
  datatype Build = Build(bigEndian: bool, wordsBigEndian: bool) {
    predicate Agrees() {
      bigEndian == wordsBigEndian
    }
  }

  /** The 32-bit word that the machine sees in four bytes of memory. */
  function NativeWord(bigEndian: bool, b0: byte, b1: byte, b2: byte, b3: byte): word {
    if bigEndian then BigEndianWord(b0, b1, b2, b3) else BigEndianWord(b3, b2, b1, b0)
  }

  /** The value of `blk0`. */
  function Converted(wordsBigEndian: bool, l: word): word {
    if wordsBigEndian then l else Swap(l)
  }

  /** What a not yet converted slot holds when its converted value is `x`. */
  function RawWord(wordsBigEndian: bool, x: word): word {
    if wordsBigEndian then x else Swap(x)
  }

  lemma SwapReversesBytes(b0: byte, b1: byte, b2: byte, b3: byte)
    ensures Swap(BigEndianWord(b3, b2, b1, b0)) == BigEndianWord(b0, b1, b2, b3)
  {
  }

  lemma SwapTwice(x: word)
    ensures Swap(Swap(x)) == x
  {
  }

  /** The word that a build takes four bytes for. */
  function WordOn(build: Build, b0: byte, b1: byte, b2: byte, b3: byte): word {
    Converted(build.wordsBigEndian, NativeWord(build.bigEndian, b0, b1, b2, b3))
  }

  /** The words that it takes a 64-byte block for. */
  function BlockWords(build: Build, b: seq<byte>): (m: seq<word>)
    requires |b| == 64
    ensures |m| == 16
  {
    seq(16, i requires 0 <= i < 16 => WordOn(build, b[4 * i], b[4 * i + 1], b[4 * i + 2], b[4 * i + 3]))
  }

  lemma WordOfBuild(build: Build, b0: byte, b1: byte, b2: byte, b3: byte)
    ensures WordOn(build, b0, b1, b2, b3)
            == if build.Agrees() then BigEndianWord(b0, b1, b2, b3) else BigEndianWord(b3, b2, b1, b0)
  {
    SwapReversesBytes(b0, b1, b2, b3);
    SwapReversesBytes(b3, b2, b1, b0);
  }

  lemma SlotOfAgreeing(build: Build, b: seq<byte>, i: nat)
    requires |b| == 64 && build.Agrees() && i < 16
    ensures BlockWords(build, b)[i] == ParseBlock(b)[i]
  {
    WordOfBuild(build, b[4 * i], b[4 * i + 1], b[4 * i + 2], b[4 * i + 3]);
  }

  lemma BlockOfAgreeing(build: Build, b: seq<byte>)
    requires |b| == 64 && build.Agrees()
    ensures BlockWords(build, b) == ParseBlock(b)
  {
    forall i | 0 <= i < 16
      ensures BlockWords(build, b)[i] == ParseBlock(b)[i]
    {
      SlotOfAgreeing(build, b, i);
    }
  }

  /** A build reads blocks as the standard does if and only if the macro agrees with the machine. */
  lemma BlocksRight(build: Build)
    ensures (forall b: seq<byte> | |b| == 64 :: BlockWords(build, b) == ParseBlock(b)) <==> build.Agrees()
  {
    if build.Agrees() {
      forall b: seq<byte> | |b| == 64
        ensures BlockWords(build, b) == ParseBlock(b)
      {
        BlockOfAgreeing(build, b);
      }
    } else {
      var b: seq<byte> := [1] + Zeros(63);
      WordOfBuild(build, 1, 0, 0, 0);
      assert BlockWords(build, b)[0] == BigEndianWord(0, 0, 0, 1) != BigEndianWord(1, 0, 0, 0) == ParseBlock(b)[0];
    }
  }

  // The rewritten logical functions of the macros R0 to R3.
  lemma ChooseRewritten(w: word, x: word, y: word)
    ensures (w & (x ^ y)) ^ y == Ch(w, x, y)
  {
  }

  lemma MajorityRewritten(w: word, x: word, y: word)
    ensures ((w | x) & y) | (w & x) == Maj(w, x, y)
  {
  }

  /** The common shape of the round macros: the value of `z` after `z += f + blk + k + rol(v,5)`. */
  function Accumulate(z: word, f: word, b: word, k: word, r: word): word {
    z + (f + b + k + r)
  }

  lemma SumReordered(z: word, f: word, b: word, k: word, r: word)
    ensures Accumulate(z, f, b, k, r) == Temp(r, f, z, k, b)
  {
  }

  /** The standard's computation on one block, laid out in advance: the raw words in memory, the schedule, and the
      registers after each round. */
  datatype Run = Run(wordsBigEndian: bool, h: State, m: seq<word>, raw: seq<word>, ws: seq<word>, regs: seq<State>) {
    ghost predicate Valid() {
      && |m| == |raw| == 16 && |ws| == 80 && |regs| == 81
      && (forall k {:trigger RawWord(wordsBigEndian, m[k])} :: 0 <= k < 16 ==> raw[k] == RawWord(wordsBigEndian, m[k]))
      && (forall t: nat {:trigger W(m, t)} :: t < 80 ==> ws[t] == W(m, t))
      && (forall t: nat {:trigger Rounds(h, m, t)} :: t <= 80 ==> regs[t] == Rounds(h, m, t))
    }

    /** The in-place schedule after `t` words have been produced: each of the last sixteen of them sits in its circular
        slot, and slots not reached yet still hold the block. */
    ghost predicate Expanded(l: seq<word>, t: nat)
      requires |l| == |raw| == 16 && |ws| == 80
    {
      && t <= 80
      && (forall s: nat :: s < t <= s + 16 ==> l[s % 16] == ws[s])
      && (forall k :: t <= k < 16 ==> l[k] == raw[k])
    }
  }

  ghost function RunOf(wordsBigEndian: bool, h: State, m: seq<word>): (r: Run)
    requires |m| == 16
    ensures r.Valid() && r.wordsBigEndian == wordsBigEndian && r.h == h && r.m == m
  {
    Run(wordsBigEndian, h, m,
        seq(16, k requires 0 <= k < 16 => RawWord(wordsBigEndian, m[k])),
        seq(80, t requires 0 <= t => W(m, t)),
        seq(81, t requires 0 <= t => Rounds(h, m, t)))
  }

  /** Writing word `t` of the schedule into slot `t & 15` advances the expansion by one. */
  lemma ExpandStep(r: Run, l: seq<word>, t: nat)
    requires |l| == |r.raw| == 16 && |r.ws| == 80 && t < 80 && r.Expanded(l, t)
    ensures r.Expanded(l[t % 16 := r.ws[t]], t + 1)
  {
  }

  lemma FirstExpandStep(r: Run, l: seq<word>, t: nat)
    requires |l| == |r.raw| == 16 && |r.ws| == 80 && t < 16 && r.Expanded(l, t)
    ensures r.Expanded(l[t := r.ws[t]], t + 1)
  {
    assert t % 16 == t;
    ExpandStep(r, l, t);
  }

  lemma SlotHolds(r: Run, l: seq<word>, t: nat, s: nat)
    requires r.Valid() && |l| == 16 && t <= 80 && r.Expanded(l, t) && s < t <= s + 16
    ensures l[s % 16] == W(r.m, s)
  {
    assert r.ws[s] == W(r.m, s);
  }

  lemma NextLap(s: nat)
    ensures (s + 16) % 16 == s % 16
  {
  }

  /** The four slots that `blk` combines are the four schedule words of the recurrence. */
  lemma NextWord(r: Run, l: seq<word>, t: nat)
    requires r.Valid() && |l| == 16 && 16 <= t < 80 && r.Expanded(l, t)
    ensures Mix(l[(t + 13) % 16], l[(t + 8) % 16], l[(t + 2) % 16], l[t % 16]) == r.ws[t]
  {
    SlotHolds(r, l, t, t - 3);
    SlotHolds(r, l, t, t - 8);
    SlotHolds(r, l, t, t - 14);
    SlotHolds(r, l, t, t - 16);
    NextLap(t - 3);
    NextLap(t - 8);
    NextLap(t - 14);
    NextLap(t - 16);
    assert r.ws[t] == W(r.m, t);
  }

  /** `blk0` turns the raw word into the first-sixteen schedule word, under either byte order. */
  lemma FirstWord(r: Run, l: seq<word>, t: nat)
    requires r.Valid() && |l| == 16 && t < 16 && r.Expanded(l, t)
    ensures Converted(r.wordsBigEndian, l[t]) == r.ws[t]
  {
    assert r.raw[t] == RawWord(r.wordsBigEndian, r.m[t]) && r.ws[t] == W(r.m, t);
    SwapTwice(r.m[t]);
  }

  /** The union's view `block->l`: the sixteen words in the 64 bytes at `off`. */
  function Slots(a: array<byte>, off: nat, bigEndian: bool): (l: seq<word>)
    requires off + 64 <= a.Length
    reads a
    ensures |l| == 16
  {
    seq(16, i requires 0 <= i < 16 && off + 64 <= a.Length reads a =>
      NativeWord(bigEndian, a[off + 4 * i], a[off + 4 * i + 1], a[off + 4 * i + 2], a[off + 4 * i + 3]))
  }

  /** `block->l[i]`. */
  method Load(a: array<byte>, off: nat, bigEndian: bool, i: nat) returns (x: word)
    requires off + 64 <= a.Length && i < 16
    ensures x == Slots(a, off, bigEndian)[i]
  {
    x := NativeWord(bigEndian, a[off + 4 * i], a[off + 4 * i + 1], a[off + 4 * i + 2], a[off + 4 * i + 3]);
  }

  /** The four bytes of a native word. */
  function NativeBytes(bigEndian: bool, x: word): (b: seq<byte>)
    ensures |b| == 4 && NativeWord(bigEndian, b[0], b[1], b[2], b[3]) == x
  {
    WordBytes(x);
    if bigEndian then [WordByte(x, 0), WordByte(x, 1), WordByte(x, 2), WordByte(x, 3)]
    else [WordByte(x, 3), WordByte(x, 2), WordByte(x, 1), WordByte(x, 0)]
  }

  /** `block->l[i] = x`. */
  method Store(a: array<byte>, off: nat, bigEndian: bool, i: nat, x: word)
    requires off + 64 <= a.Length && i < 16
    modifies a
    ensures Slots(a, off, bigEndian) == old(Slots(a, off, bigEndian))[i := x]
    ensures forall k :: 0 <= k < a.Length && !(off <= k < off + 64) ==> a[k] == old(a[k])
  {
    var b := NativeBytes(bigEndian, x);
    StoreBytes(a, off + 4 * i, b);
    forall k | 0 <= k < 16 && k != i
      ensures Slots(a, off, bigEndian)[k] == old(Slots(a, off, bigEndian))[k]
    {
      var q := off + 4 * k;
      assert a[q] == old(a[q]) && a[q + 1] == old(a[q + 1]) && a[q + 2] == old(a[q + 2]) && a[q + 3] == old(a[q + 3]);
    }
  }

  method StoreBytes(a: array<byte>, p: nat, b: seq<byte>)
    requires p + 4 <= a.Length && |b| == 4
    modifies a
    ensures a[p] == b[0] && a[p + 1] == b[1] && a[p + 2] == b[2] && a[p + 3] == b[3]
    ensures forall k :: 0 <= k < a.Length && !(p <= k < p + 4) ==> a[k] == old(a[k])
  {
    a[p], a[p + 1], a[p + 2], a[p + 3] := b[0], b[1], b[2], b[3];
  }

  /** The macro `blk0`, in both its definitions. */
  method Blk0(a: array<byte>, off: nat, build: Build, i: nat, ghost r: Run) returns (x: word)
    requires off + 64 <= a.Length && r.Valid() && r.wordsBigEndian == build.wordsBigEndian && i < 16
    requires r.Expanded(Slots(a, off, build.bigEndian), i)
    modifies a
    ensures x == r.ws[i] && r.Expanded(Slots(a, off, build.bigEndian), i + 1)
    ensures forall k :: 0 <= k < a.Length && !(off <= k < off + 64) ==> a[k] == old(a[k])
  {
    ghost var l := Slots(a, off, build.bigEndian);
    FirstWord(r, l, i);
    FirstExpandStep(r, l, i);
    var raw := Load(a, off, build.bigEndian, i);
    x := Converted(build.wordsBigEndian, raw);
    if !build.wordsBigEndian {
      Store(a, off, build.bigEndian, i, x);
    } else {
      assert Slots(a, off, build.bigEndian) == l == l[i := x];
    }
  }

  /** The macro `blk`: the next schedule word replaces the one sixteen places back. */
  method Blk(a: array<byte>, off: nat, build: Build, i: nat, ghost r: Run) returns (x: word)
    requires off + 64 <= a.Length && r.Valid() && r.wordsBigEndian == build.wordsBigEndian && 16 <= i < 80
    requires r.Expanded(Slots(a, off, build.bigEndian), i)
    modifies a
    ensures x == r.ws[i] && r.Expanded(Slots(a, off, build.bigEndian), i + 1)
    ensures forall k :: 0 <= k < a.Length && !(off <= k < off + 64) ==> a[k] == old(a[k])
  {
    ExpandStep(r, Slots(a, off, build.bigEndian), i);
    NextWord(r, Slots(a, off, build.bigEndian), i);
    var w3 := Load(a, off, build.bigEndian, (i + 13) % 16);
    var w8 := Load(a, off, build.bigEndian, (i + 8) % 16);
    var w14 := Load(a, off, build.bigEndian, (i + 2) % 16);
    var w16 := Load(a, off, build.bigEndian, i % 16);
    x := Mix(w3, w8, w14, w16);
    Store(a, off, build.bigEndian, i % 16, x);
  }

  // The macros R0 to R4. With arguments (v, w, x, y, z), `z` becomes the new first register and `w` is rotated: read as
  // (z, v, w, x, y), the variables are the standard's registers after the round.

  lemma ChooseRound(i: nat, v: word, w: word, x: word, y: word, z: word, b: word)
    requires i < 20
    ensures State(Accumulate(z, (w & (x ^ y)) ^ y, b, 0x5A827999, Rotl(v, 5)), v, Rotl(w, 30), x, y)
            == Round(State(v, w, x, y, z), i, b)
  {
    ChooseRewritten(w, x, y);
    SumReordered(z, (w & (x ^ y)) ^ y, b, 0x5A827999, Rotl(v, 5));
  }

  lemma ParityRound(i: nat, v: word, w: word, x: word, y: word, z: word, b: word)
    requires 20 <= i < 40
    ensures State(Accumulate(z, w ^ x ^ y, b, 0x6ED9EBA1, Rotl(v, 5)), v, Rotl(w, 30), x, y)
            == Round(State(v, w, x, y, z), i, b)
  {
    SumReordered(z, w ^ x ^ y, b, 0x6ED9EBA1, Rotl(v, 5));
  }

  lemma MajorityRound(i: nat, v: word, w: word, x: word, y: word, z: word, b: word)
    requires 40 <= i < 60
    ensures State(Accumulate(z, ((w | x) & y) | (w & x), b, 0x8F1BBCDC, Rotl(v, 5)), v, Rotl(w, 30), x, y)
            == Round(State(v, w, x, y, z), i, b)
  {
    MajorityRewritten(w, x, y);
    SumReordered(z, ((w | x) & y) | (w & x), b, 0x8F1BBCDC, Rotl(v, 5));
  }

  lemma LastParityRound(i: nat, v: word, w: word, x: word, y: word, z: word, b: word)
    requires 60 <= i < 80
    ensures State(Accumulate(z, w ^ x ^ y, b, 0xCA62C1D6, Rotl(v, 5)), v, Rotl(w, 30), x, y)
            == Round(State(v, w, x, y, z), i, b)
  {
    SumReordered(z, w ^ x ^ y, b, 0xCA62C1D6, Rotl(v, 5));
  }

  lemma NextRegisters(r: Run, i: nat)
    requires r.Valid() && i < 80
    ensures r.regs[i + 1] == Round(r.regs[i], i, r.ws[i])
  {
    assert r.regs[i + 1] == Rounds(r.h, r.m, i + 1) && r.regs[i] == Rounds(r.h, r.m, i) && r.ws[i] == W(r.m, i);
  }

  method R0(a: array<byte>, off: nat, build: Build, v: word, w: word, x: word, y: word, z: word, i: nat,
            ghost r: Run)
    returns (z': word, w': word)
    requires off + 64 <= a.Length && r.Valid() && r.wordsBigEndian == build.wordsBigEndian && i < 16
    requires r.Expanded(Slots(a, off, build.bigEndian), i) && r.regs[i] == State(v, w, x, y, z)
    modifies a
    ensures r.Expanded(Slots(a, off, build.bigEndian), i + 1) && r.regs[i + 1] == State(z', v, w', x, y)
    ensures forall k :: 0 <= k < a.Length && !(off <= k < off + 64) ==> a[k] == old(a[k])
  {
    var b := Blk0(a, off, build, i, r);
    NextRegisters(r, i);
    ChooseRound(i, v, w, x, y, z, b);
    z', w' := Accumulate(z, (w & (x ^ y)) ^ y, b, 0x5A827999, Rotl(v, 5)), Rotl(w, 30);
  }

  method R1(a: array<byte>, off: nat, build: Build, v: word, w: word, x: word, y: word, z: word, i: nat,
            ghost r: Run)
    returns (z': word, w': word)
    requires off + 64 <= a.Length && r.Valid() && r.wordsBigEndian == build.wordsBigEndian && 16 <= i < 20
    requires r.Expanded(Slots(a, off, build.bigEndian), i) && r.regs[i] == State(v, w, x, y, z)
    modifies a
    ensures r.Expanded(Slots(a, off, build.bigEndian), i + 1) && r.regs[i + 1] == State(z', v, w', x, y)
    ensures forall k :: 0 <= k < a.Length && !(off <= k < off + 64) ==> a[k] == old(a[k])
  {
    var b := Blk(a, off, build, i, r);
    NextRegisters(r, i);
    ChooseRound(i, v, w, x, y, z, b);
    z', w' := Accumulate(z, (w & (x ^ y)) ^ y, b, 0x5A827999, Rotl(v, 5)), Rotl(w, 30);
  }

  method R2(a: array<byte>, off: nat, build: Build, v: word, w: word, x: word, y: word, z: word, i: nat,
            ghost r: Run)
    returns (z': word, w': word)
    requires off + 64 <= a.Length && r.Valid() && r.wordsBigEndian == build.wordsBigEndian && 20 <= i < 40
    requires r.Expanded(Slots(a, off, build.bigEndian), i) && r.regs[i] == State(v, w, x, y, z)
    modifies a
    ensures r.Expanded(Slots(a, off, build.bigEndian), i + 1) && r.regs[i + 1] == State(z', v, w', x, y)
    ensures forall k :: 0 <= k < a.Length && !(off <= k < off + 64) ==> a[k] == old(a[k])
  {
    var b := Blk(a, off, build, i, r);
    NextRegisters(r, i);
    ParityRound(i, v, w, x, y, z, b);
    z', w' := Accumulate(z, w ^ x ^ y, b, 0x6ED9EBA1, Rotl(v, 5)), Rotl(w, 30);
  }

  method R3(a: array<byte>, off: nat, build: Build, v: word, w: word, x: word, y: word, z: word, i: nat,
            ghost r: Run)
    returns (z': word, w': word)
    requires off + 64 <= a.Length && r.Valid() && r.wordsBigEndian == build.wordsBigEndian && 40 <= i < 60
    requires r.Expanded(Slots(a, off, build.bigEndian), i) && r.regs[i] == State(v, w, x, y, z)
    modifies a
    ensures r.Expanded(Slots(a, off, build.bigEndian), i + 1) && r.regs[i + 1] == State(z', v, w', x, y)
    ensures forall k :: 0 <= k < a.Length && !(off <= k < off + 64) ==> a[k] == old(a[k])
  {
    var b := Blk(a, off, build, i, r);
    NextRegisters(r, i);
    MajorityRound(i, v, w, x, y, z, b);
    z', w' := Accumulate(z, ((w | x) & y) | (w & x), b, 0x8F1BBCDC, Rotl(v, 5)), Rotl(w, 30);
  }

  method R4(a: array<byte>, off: nat, build: Build, v: word, w: word, x: word, y: word, z: word, i: nat,
            ghost r: Run)
    returns (z': word, w': word)
    requires off + 64 <= a.Length && r.Valid() && r.wordsBigEndian == build.wordsBigEndian && 60 <= i < 80
    requires r.Expanded(Slots(a, off, build.bigEndian), i) && r.regs[i] == State(v, w, x, y, z)
    modifies a
    ensures r.Expanded(Slots(a, off, build.bigEndian), i + 1) && r.regs[i + 1] == State(z', v, w', x, y)
    ensures forall k :: 0 <= k < a.Length && !(off <= k < off + 64) ==> a[k] == old(a[k])
  {
    var b := Blk(a, off, build, i, r);
    NextRegisters(r, i);
    LastParityRound(i, v, w, x, y, z, b);
    z', w' := Accumulate(z, w ^ x ^ y, b, 0xCA62C1D6, Rotl(v, 5)), Rotl(w, 30);
  }

  // Five rounds in a row: after them the variables are back under their own names.

  method FiveR0(buf: array<byte>, off: nat, build: Build, s: State, i: nat, ghost r: Run) returns (s': State)
    requires off + 64 <= buf.Length && r.Valid() && r.wordsBigEndian == build.wordsBigEndian && 0 <= i <= 10
    requires r.Expanded(Slots(buf, off, build.bigEndian), i) && s == r.regs[i]
    modifies buf
    ensures r.Expanded(Slots(buf, off, build.bigEndian), i + 5) && s' == r.regs[i + 5]
    ensures forall k :: 0 <= k < buf.Length && !(off <= k < off + 64) ==> buf[k] == old(buf[k])
  {
    var State(a, b, c, d, e) := s;
    e, b := R0(buf, off, build, a, b, c, d, e, i, r);
    d, a := R0(buf, off, build, e, a, b, c, d, i + 1, r);
    c, e := R0(buf, off, build, d, e, a, b, c, i + 2, r);
    b, d := R0(buf, off, build, c, d, e, a, b, i + 3, r);
    a, c := R0(buf, off, build, b, c, d, e, a, i + 4, r);
    s' := State(a, b, c, d, e);
  }

  method FiveR0R1(buf: array<byte>, off: nat, build: Build, s: State, i: nat, ghost r: Run) returns (s': State)
    requires off + 64 <= buf.Length && r.Valid() && r.wordsBigEndian == build.wordsBigEndian && i == 15
    requires r.Expanded(Slots(buf, off, build.bigEndian), i) && s == r.regs[i]
    modifies buf
    ensures r.Expanded(Slots(buf, off, build.bigEndian), i + 5) && s' == r.regs[i + 5]
    ensures forall k :: 0 <= k < buf.Length && !(off <= k < off + 64) ==> buf[k] == old(buf[k])
  {
    var State(a, b, c, d, e) := s;
    e, b := R0(buf, off, build, a, b, c, d, e, i, r);
    d, a := R1(buf, off, build, e, a, b, c, d, i + 1, r);
    c, e := R1(buf, off, build, d, e, a, b, c, i + 2, r);
    b, d := R1(buf, off, build, c, d, e, a, b, i + 3, r);
    a, c := R1(buf, off, build, b, c, d, e, a, i + 4, r);
    s' := State(a, b, c, d, e);
  }

  method FiveR2(buf: array<byte>, off: nat, build: Build, s: State, i: nat, ghost r: Run) returns (s': State)
    requires off + 64 <= buf.Length && r.Valid() && r.wordsBigEndian == build.wordsBigEndian && 20 <= i <= 35
    requires r.Expanded(Slots(buf, off, build.bigEndian), i) && s == r.regs[i]
    modifies buf
    ensures r.Expanded(Slots(buf, off, build.bigEndian), i + 5) && s' == r.regs[i + 5]
    ensures forall k :: 0 <= k < buf.Length && !(off <= k < off + 64) ==> buf[k] == old(buf[k])
  {
    var State(a, b, c, d, e) := s;
    e, b := R2(buf, off, build, a, b, c, d, e, i, r);
    d, a := R2(buf, off, build, e, a, b, c, d, i + 1, r);
    c, e := R2(buf, off, build, d, e, a, b, c, i + 2, r);
    b, d := R2(buf, off, build, c, d, e, a, b, i + 3, r);
    a, c := R2(buf, off, build, b, c, d, e, a, i + 4, r);
    s' := State(a, b, c, d, e);
  }

  method FiveR3(buf: array<byte>, off: nat, build: Build, s: State, i: nat, ghost r: Run) returns (s': State)
    requires off + 64 <= buf.Length && r.Valid() && r.wordsBigEndian == build.wordsBigEndian && 40 <= i <= 55
    requires r.Expanded(Slots(buf, off, build.bigEndian), i) && s == r.regs[i]
    modifies buf
    ensures r.Expanded(Slots(buf, off, build.bigEndian), i + 5) && s' == r.regs[i + 5]
    ensures forall k :: 0 <= k < buf.Length && !(off <= k < off + 64) ==> buf[k] == old(buf[k])
  {
    var State(a, b, c, d, e) := s;
    e, b := R3(buf, off, build, a, b, c, d, e, i, r);
    d, a := R3(buf, off, build, e, a, b, c, d, i + 1, r);
    c, e := R3(buf, off, build, d, e, a, b, c, i + 2, r);
    b, d := R3(buf, off, build, c, d, e, a, b, i + 3, r);
    a, c := R3(buf, off, build, b, c, d, e, a, i + 4, r);
    s' := State(a, b, c, d, e);
  }

  method FiveR4(buf: array<byte>, off: nat, build: Build, s: State, i: nat, ghost r: Run) returns (s': State)
    requires off + 64 <= buf.Length && r.Valid() && r.wordsBigEndian == build.wordsBigEndian && 60 <= i <= 75
    requires r.Expanded(Slots(buf, off, build.bigEndian), i) && s == r.regs[i]
    modifies buf
    ensures r.Expanded(Slots(buf, off, build.bigEndian), i + 5) && s' == r.regs[i + 5]
    ensures forall k :: 0 <= k < buf.Length && !(off <= k < off + 64) ==> buf[k] == old(buf[k])
  {
    var State(a, b, c, d, e) := s;
    e, b := R4(buf, off, build, a, b, c, d, e, i, r);
    d, a := R4(buf, off, build, e, a, b, c, d, i + 1, r);
    c, e := R4(buf, off, build, d, e, a, b, c, i + 2, r);
    b, d := R4(buf, off, build, c, d, e, a, b, i + 3, r);
    a, c := R4(buf, off, build, b, c, d, e, a, i + 4, r);
    s' := State(a, b, c, d, e);
  }

  /** The five state words as the standard's registers. */
  function StateOf(state: array<word>): State
    requires state.Length == 5
    reads state
  {
    State(state[0], state[1], state[2], state[3], state[4])
  }

  lemma RawSlot(b: seq<byte>, build: Build, r: Run, k: nat)
    requires |b| == 64 && r.Valid() && r.wordsBigEndian == build.wordsBigEndian && r.m == BlockWords(build, b) && k < 16
    ensures NativeWord(build.bigEndian, b[4 * k], b[4 * k + 1], b[4 * k + 2], b[4 * k + 3]) == r.raw[k]
  {
    assert r.raw[k] == RawWord(r.wordsBigEndian, r.m[k]);
    SwapTwice(NativeWord(build.bigEndian, b[4 * k], b[4 * k + 1], b[4 * k + 2], b[4 * k + 3]));
  }

  /** Before the first round the slots are the raw words of the block. */
  lemma RawBlock(a: array<byte>, off: nat, build: Build, r: Run)
    requires off + 64 <= a.Length && r.Valid() && r.wordsBigEndian == build.wordsBigEndian
    requires r.m == BlockWords(build, a[off..off + 64])
    ensures r.Expanded(Slots(a, off, build.bigEndian), 0)
  {
    var b, l := a[off..off + 64], Slots(a, off, build.bigEndian);
    forall k | 0 <= k < 16
      ensures l[k] == r.raw[k]
    {
      RawSlot(b, build, r, k);
    }
  }

  lemma FinishedRun(r: Run)
    requires r.Valid()
    ensures r.regs[0] == r.h && AddStates(r.h, r.regs[80]) == Compress(r.h, r.m)
  {
    assert r.regs[0] == Rounds(r.h, r.m, 0) && r.regs[80] == Rounds(r.h, r.m, 80);
  }

  // The four groups of twenty operations.

  method Rounds0To14(buf: array<byte>, off: nat, build: Build, s0: State, ghost r: Run) returns (s: State)
    requires off + 64 <= buf.Length && r.Valid() && r.wordsBigEndian == build.wordsBigEndian
    requires r.Expanded(Slots(buf, off, build.bigEndian), 0) && s0 == r.regs[0]
    modifies buf
    ensures r.Expanded(Slots(buf, off, build.bigEndian), 15) && s == r.regs[15]
    ensures forall k :: 0 <= k < buf.Length && !(off <= k < off + 64) ==> buf[k] == old(buf[k])
  {
    s := s0;
    s := FiveR0(buf, off, build, s, 0, r);
    s := FiveR0(buf, off, build, s, 5, r);
    s := FiveR0(buf, off, build, s, 10, r);
  }

  method Rounds0To19(buf: array<byte>, off: nat, build: Build, s0: State, ghost r: Run) returns (s: State)
    requires off + 64 <= buf.Length && r.Valid() && r.wordsBigEndian == build.wordsBigEndian
    requires r.Expanded(Slots(buf, off, build.bigEndian), 0) && s0 == r.regs[0]
    modifies buf
    ensures r.Expanded(Slots(buf, off, build.bigEndian), 20) && s == r.regs[20]
    ensures forall k :: 0 <= k < buf.Length && !(off <= k < off + 64) ==> buf[k] == old(buf[k])
  {
    s := Rounds0To14(buf, off, build, s0, r);
    s := FiveR0R1(buf, off, build, s, 15, r);
  }

  method Rounds20To39(buf: array<byte>, off: nat, build: Build, s0: State, ghost r: Run) returns (s: State)
    requires off + 64 <= buf.Length && r.Valid() && r.wordsBigEndian == build.wordsBigEndian
    requires r.Expanded(Slots(buf, off, build.bigEndian), 20) && s0 == r.regs[20]
    modifies buf
    ensures r.Expanded(Slots(buf, off, build.bigEndian), 40) && s == r.regs[40]
    ensures forall k :: 0 <= k < buf.Length && !(off <= k < off + 64) ==> buf[k] == old(buf[k])
  {
    s := s0;
    s := FiveR2(buf, off, build, s, 20, r);
    s := FiveR2(buf, off, build, s, 25, r);
    s := FiveR2(buf, off, build, s, 30, r);
    s := FiveR2(buf, off, build, s, 35, r);
  }

  method Rounds40To59(buf: array<byte>, off: nat, build: Build, s0: State, ghost r: Run) returns (s: State)
    requires off + 64 <= buf.Length && r.Valid() && r.wordsBigEndian == build.wordsBigEndian
    requires r.Expanded(Slots(buf, off, build.bigEndian), 40) && s0 == r.regs[40]
    modifies buf
    ensures r.Expanded(Slots(buf, off, build.bigEndian), 60) && s == r.regs[60]
    ensures forall k :: 0 <= k < buf.Length && !(off <= k < off + 64) ==> buf[k] == old(buf[k])
  {
    s := s0;
    s := FiveR3(buf, off, build, s, 40, r);
    s := FiveR3(buf, off, build, s, 45, r);
    s := FiveR3(buf, off, build, s, 50, r);
    s := FiveR3(buf, off, build, s, 55, r);
  }

  method Rounds60To79(buf: array<byte>, off: nat, build: Build, s0: State, ghost r: Run) returns (s: State)
    requires off + 64 <= buf.Length && r.Valid() && r.wordsBigEndian == build.wordsBigEndian
    requires r.Expanded(Slots(buf, off, build.bigEndian), 60) && s0 == r.regs[60]
    modifies buf
    ensures r.Expanded(Slots(buf, off, build.bigEndian), 80) && s == r.regs[80]
    ensures forall k :: 0 <= k < buf.Length && !(off <= k < off + 64) ==> buf[k] == old(buf[k])
  {
    s := s0;
    s := FiveR4(buf, off, build, s, 60, r);
    s := FiveR4(buf, off, build, s, 65, r);
    s := FiveR4(buf, off, build, s, 70, r);
    s := FiveR4(buf, off, build, s, 75, r);
  }

  /** The schedule words that are in the slots in the end. */
  function LastWords(m: seq<word>): (l: seq<word>)
    requires |m| == 16
    ensures |l| == 16
  {
    seq(16, i requires 0 <= i < 16 => W(m, 64 + i))
  }

  lemma LastSlots(r: Run, l: seq<word>)
    requires r.Valid() && |l| == 16 && r.Expanded(l, 80)
    ensures l == LastWords(r.m)
  {
    forall i | 0 <= i < 16
      ensures l[i] == W(r.m, 64 + i)
    {
      assert (64 + i) % 16 == i;
      SlotHolds(r, l, 80, 64 + i);
    }
  }

  /** The 80 operations. */
  method AllRounds(buf: array<byte>, off: nat, build: Build, s0: State, ghost r: Run) returns (s: State)
    requires off + 64 <= buf.Length && r.Valid() && r.wordsBigEndian == build.wordsBigEndian
    requires r.Expanded(Slots(buf, off, build.bigEndian), 0) && s0 == r.regs[0]
    modifies buf
    ensures Slots(buf, off, build.bigEndian) == LastWords(r.m) && s == r.regs[80]
    ensures forall k :: 0 <= k < buf.Length && !(off <= k < off + 64) ==> buf[k] == old(buf[k])
  {
    s := Rounds0To19(buf, off, build, s0, r);
    s := Rounds20To39(buf, off, build, s, r);
    s := Rounds40To59(buf, off, build, s, r);
    s := Rounds60To79(buf, off, build, s, r);
    LastSlots(r, Slots(buf, off, build.bigEndian));
  }

  /** `state[0] += a; ... state[4] += e;` */
  method AddInto(state: array<word>, s: State)
    requires state.Length == 5
    modifies state
    ensures StateOf(state) == AddStates(old(StateOf(state)), s)
  {
    state[0] := Add(state[0], s.a);
    state[1] := Add(state[1], s.b);
    state[2] := Add(state[2], s.c);
    state[3] := Add(state[3], s.d);
    state[4] := Add(state[4], s.e);
  }

  // What is left in memory

  /** The bytes of sixteen words in memory. */
  function BytesOfWords(bigEndian: bool, l: seq<word>): (t: seq<byte>)
    requires |l| == 16
    ensures |t| == 64
  {
    seq(64, k requires 0 <= k < 64 => NativeBytes(bigEndian, l[k / 4])[k % 4])
  }

  /** The bytes of a block after the transform: its last sixteen schedule words. */
  function Spent(build: Build, b: seq<byte>): (t: seq<byte>)
    requires |b| == 64
    ensures |t| == 64
  {
    BytesOfWords(build.bigEndian, LastWords(BlockWords(build, b)))
  }

  lemma BytesOfWord(b0: byte, b1: byte, b2: byte, b3: byte)
    ensures var x := BigEndianWord(b0, b1, b2, b3);
            WordByte(x, 0) == b0 && WordByte(x, 1) == b1 && WordByte(x, 2) == b2 && WordByte(x, 3) == b3
  {
  }

  lemma BytesOfNative(bigEndian: bool, b0: byte, b1: byte, b2: byte, b3: byte)
    ensures NativeBytes(bigEndian, NativeWord(bigEndian, b0, b1, b2, b3)) == [b0, b1, b2, b3]
  {
    if bigEndian {
      BytesOfWord(b0, b1, b2, b3);
    } else {
      BytesOfWord(b3, b2, b1, b0);
    }
  }

  lemma SlotByte(bigEndian: bool, x: word, t: seq<byte>, i: nat, c: nat)
    requires |t| == 64 && i < 16 && c < 4
    requires x == NativeWord(bigEndian, t[4 * i], t[4 * i + 1], t[4 * i + 2], t[4 * i + 3])
    ensures NativeBytes(bigEndian, x)[c] == t[4 * i + c]
  {
    BytesOfNative(bigEndian, t[4 * i], t[4 * i + 1], t[4 * i + 2], t[4 * i + 3]);
  }

  lemma SlotIs(a: array<byte>, off: nat, bigEndian: bool, t: seq<byte>, i: nat)
    requires off + 64 <= a.Length && t == a[off..off + 64] && i < 16
    ensures Slots(a, off, bigEndian)[i] == NativeWord(bigEndian, t[4 * i], t[4 * i + 1], t[4 * i + 2], t[4 * i + 3])
  {
  }

  lemma StoredByte(a: array<byte>, off: nat, bigEndian: bool, i: nat, c: nat)
    requires off + 64 <= a.Length && i < 16 && c < 4
    ensures NativeBytes(bigEndian, Slots(a, off, bigEndian)[i])[c] == a[off..off + 64][4 * i + c]
  {
    var t := a[off..off + 64];
    SlotIs(a, off, bigEndian, t, i);
    SlotByte(bigEndian, Slots(a, off, bigEndian)[i], t, i, c);
  }

  lemma ByteOfSlot(bigEndian: bool, l: seq<word>, k: nat, i: nat, c: nat)
    requires |l| == 16 && k == 4 * i + c && k < 64 && c < 4
    ensures BytesOfWords(bigEndian, l)[k] == NativeBytes(bigEndian, l[i])[c]
  {
    assert k / 4 == i && k % 4 == c;
  }

  lemma SlotsByte(a: array<byte>, off: nat, bigEndian: bool, k: nat)
    requires off + 64 <= a.Length && k < 64
    ensures BytesOfWords(bigEndian, Slots(a, off, bigEndian))[k] == a[off..off + 64][k]
  {
    StoredByte(a, off, bigEndian, k / 4, k % 4);
    ByteOfSlot(bigEndian, Slots(a, off, bigEndian), k, k / 4, k % 4);
  }

  lemma SlotsAreBytes(a: array<byte>, off: nat, bigEndian: bool)
    requires off + 64 <= a.Length
    ensures a[off..off + 64] == BytesOfWords(bigEndian, Slots(a, off, bigEndian))
  {
    forall k | 0 <= k < 64
      ensures BytesOfWords(bigEndian, Slots(a, off, bigEndian))[k] == a[off..off + 64][k]
    {
      SlotsByte(a, off, bigEndian, k);
    }
  }

  /** The operations of `SHA1_Transform` up to the sums at its end. */
  method Operations(buffer: array<byte>, off: nat, build: Build, h: State) returns (s: State)
    requires off + 64 <= buffer.Length
    modifies buffer
    ensures AddStates(h, s) == Compress(h, BlockWords(build, old(buffer[off..off + 64])))
    ensures buffer[off..off + 64] == Spent(build, old(buffer[off..off + 64]))
    ensures forall k :: 0 <= k < buffer.Length && !(off <= k < off + 64) ==> buffer[k] == old(buffer[k])
  {
    ghost var b := buffer[off..off + 64];
    ghost var r := RunOf(build.wordsBigEndian, h, BlockWords(build, b));
    FinishedRun(r);
    RawBlock(buffer, off, build, r);
    s := AllRounds(buffer, off, build, h, r);
    SlotsAreBytes(buffer, off, build.bigEndian);
  }

  /** `SHA1_Transform(state, buffer + off)`: the compression function of section 6.1.2 on the words that the build takes
      the block for, which is left overwritten with the last sixteen schedule words. */
  method Transform(state: array<word>, buffer: array<byte>, off: nat, build: Build)
    requires state.Length == 5 && off + 64 <= buffer.Length
    modifies state, buffer
    ensures StateOf(state) == Compress(old(StateOf(state)), BlockWords(build, old(buffer[off..off + 64])))
    ensures build.Agrees() ==>
              StateOf(state) == Compress(old(StateOf(state)), ParseBlock(old(buffer[off..off + 64])))
    ensures buffer[off..off + 64] == Spent(build, old(buffer[off..off + 64]))
    ensures forall k :: 0 <= k < buffer.Length && !(off <= k < off + 64) ==> buffer[k] == old(buffer[k])
  {
    if build.Agrees() {
      BlockOfAgreeing(build, buffer[off..off + 64]);
    }
    var s := Operations(buffer, off, build, State(state[0], state[1], state[2], state[3], state[4]));
    AddInto(state, s);
  }

  // The initial value

  /** In little-endian memory the five initial words count up and down: 01 23 45 67, 89 AB CD EF, FE DC BA 98,
      76 54 32 10, and F0 E1 D2 C3. */
  lemma InitialBytes()
    ensures NativeBytes(false, INITIAL.a) == [0x01, 0x23, 0x45, 0x67]
    ensures NativeBytes(false, INITIAL.b) == [0x89, 0xAB, 0xCD, 0xEF]
    ensures NativeBytes(false, INITIAL.c) == [0xFE, 0xDC, 0xBA, 0x98]
    ensures NativeBytes(false, INITIAL.d) == [0x76, 0x54, 0x32, 0x10]
    ensures NativeBytes(false, INITIAL.e) == [0xF0, 0xE1, 0xD2, 0xC3]
  {
  }
}
