/** Sequences of digits as streams of bits: the common definition behind base32 and base64. A digit of width `w` is a
    byte whose low `w` bits count, and a stream lists the bits of its digits from the most significant down. */
module Bitstream {
  import opened Bytes

  /** Bit `p` of a byte; bit 0 is the least significant. */
  function Bit(x: byte, p: nat): bool
    requires p < 8
  {
    match p
    case 0 => x & 0x01 != 0
    case 1 => x & 0x02 != 0
    case 2 => x & 0x04 != 0
    case 3 => x & 0x08 != 0
    case 4 => x & 0x10 != 0
    case 5 => x & 0x20 != 0
    case 6 => x & 0x40 != 0
    case 7 => x & 0x80 != 0
  }

  lemma SameBits(x: byte, y: byte)
    requires forall p :: 0 <= p < 8 ==> Bit(x, p) == Bit(y, p)
    ensures x == y
  {
    assert Bit(x, 0) == Bit(y, 0) && Bit(x, 1) == Bit(y, 1) && Bit(x, 2) == Bit(y, 2) && Bit(x, 3) == Bit(y, 3);
    assert Bit(x, 4) == Bit(y, 4) && Bit(x, 5) == Bit(y, 5) && Bit(x, 6) == Bit(y, 6) && Bit(x, 7) == Bit(y, 7);
  }

  /** Bit `i` of the stream of the width-`w` digits `s`; the stream goes on with zero bits for ever. */
  function StreamBit(s: seq<byte>, w: nat, i: nat): bool
    requires 1 <= w <= 8
  {
    i / w < |s| && Bit(s[i / w], w - 1 - i % w)
  }

  /** A bit shifted in at the low end. */
  function Append(x: byte, b: bool): byte {
    (x << 1) | (if b then 1 else 0)
  }

  lemma AppendBit(x: byte, b: bool, p: nat)
    requires p < 8
    ensures Bit(Append(x, b), p) == if p == 0 then b else Bit(x, p - 1)
  {
  }

  /** The `v` bits of the stream from `from` on, as a number. */
  function Read(s: seq<byte>, w: nat, from: nat, v: nat): byte
    requires 1 <= w <= 8
  {
    if v == 0 then 0 else Append(Read(s, w, from, v - 1), StreamBit(s, w, from + v - 1))
  }

  lemma ZeroBit(p: nat)
    requires p < 8
    ensures !Bit(0, p)
  {
  }

  /** Bit `p` of a read is bit `i` of the stream. */
  lemma {:induction false} ReadBitAt(s: seq<byte>, w: nat, from: nat, v: nat, i: nat, p: nat)
    requires 1 <= w <= 8 && from <= i && i + p + 1 == from + v <= from + 8
    ensures Bit(Read(s, w, from, v), p) == StreamBit(s, w, i)
    decreases p
  {
    if p == 0 {
      LastBit(s, w, from, v, i);
    } else {
      ReadBitAt(s, w, from, v - 1, i, p - 1);
      AppendBit(Read(s, w, from, v - 1), StreamBit(s, w, from + v - 1), p);
    }
  }

  lemma LastBit(s: seq<byte>, w: nat, from: nat, v: nat, i: nat)
    requires 1 <= w <= 8 && 0 < v && i == from + v - 1
    ensures Bit(Read(s, w, from, v), 0) == StreamBit(s, w, i)
  {
    AppendBit(Read(s, w, from, v - 1), StreamBit(s, w, i), 0);
  }

  /** Above the bits that were read there are zeros. */
  lemma {:induction false} ReadBitPast(s: seq<byte>, w: nat, from: nat, v: nat, p: nat)
    requires 1 <= w <= 8 && v <= p < 8
    ensures !Bit(Read(s, w, from, v), p)
  {
    if v == 0 {
      ZeroBit(p);
    } else {
      AppendBit(Read(s, w, from, v - 1), StreamBit(s, w, from + v - 1), p);
      ReadBitPast(s, w, from, v - 1, p - 1);
    }
  }

  lemma ReadBit(s: seq<byte>, w: nat, from: nat, v: nat, p: nat)
    requires 1 <= w <= 8 && v <= 8 && p < 8
    ensures Bit(Read(s, w, from, v), p) == (p < v && StreamBit(s, w, from + v - 1 - p))
  {
    if p < v {
      ReadBitAt(s, w, from, v, from + v - 1 - p, p);
    } else {
      ReadBitPast(s, w, from, v, p);
    }
  }

  /** `x` is what a read yields if its bits are those of the stream. */
  lemma ReadIs(s: seq<byte>, w: nat, from: nat, v: nat, x: byte)
    requires 1 <= w <= 8 && v <= 8
    requires forall p :: 0 <= p < 8 ==> Bit(x, p) == (p < v && StreamBit(s, w, from + v - 1 - p))
    ensures Read(s, w, from, v) == x
  {
    forall p | 0 <= p < 8
      ensures Bit(Read(s, w, from, v), p) == Bit(x, p)
    {
      ReadBit(s, w, from, v, p);
    }
    SameBits(Read(s, w, from, v), x);
  }

  /** The first `n` width-`v` digits of the stream of the width-`w` digits `s`. */
  function Regroup(s: seq<byte>, w: nat, v: nat, n: nat): (r: seq<byte>)
    requires 1 <= w <= 8
    ensures |r| == n
  {
    seq(n, k requires 0 <= k => Read(s, w, v * k, v))
  }

  lemma RegroupPrefix(s: seq<byte>, w: nat, v: nat, n: nat, m: nat)
    requires 1 <= w <= 8 && m <= n
    ensures Regroup(s, w, v, n)[..m] == Regroup(s, w, v, m)
  {
  }

  /** Every digit fits its width. */
  predicate Fits(s: seq<byte>, w: nat) {
    forall k, p :: 0 <= k < |s| && w <= p < 8 ==> !Bit(s[k], p)
  }

  lemma DivMod(v: nat, q: nat, r: nat)
    requires 1 <= v <= 8 && r < v
    ensures (v * q + r) / v == q && (v * q + r) % v == r
  {
  }

  /** The bits of digit `k`. */
  lemma StreamAt(s: seq<byte>, w: nat, k: nat, r: nat, i: nat)
    requires 1 <= w <= 8 && r < w && i == w * k + r
    ensures StreamBit(s, w, i) == (k < |s| && Bit(s[k], w - 1 - r))
  {
    DivMod(w, k, r);
  }

  lemma Place(v: nat, n: nat, i: nat)
    requires 1 <= v <= 8
    ensures i == v * (i / v) + i % v
    ensures i / v < n <==> i < v * n
  {
  }

  /** Regrouping keeps the stream, as far as it goes. */
  lemma RegroupKeepsStream(s: seq<byte>, w: nat, v: nat, n: nat, i: nat)
    requires 1 <= w <= 8 && 1 <= v <= 8
    ensures StreamBit(Regroup(s, w, v, n), v, i) == (i < v * n && StreamBit(s, w, i))
  {
    var q, r := i / v, i % v;
    Place(v, n, i);
    StreamAt(Regroup(s, w, v, n), v, q, r, i);
    if q < n {
      RegroupedBit(s, w, v, n, q, r, i, v * q);
    }
  }

  lemma RegroupedBit(s: seq<byte>, w: nat, v: nat, n: nat, q: nat, r: nat, i: nat, from: nat)
    requires 1 <= w <= 8 && 1 <= v <= 8 && q < n && r < v && from == v * q && i == from + r
    ensures Bit(Regroup(s, w, v, n)[q], v - 1 - r) == StreamBit(s, w, i)
  {
    assert Regroup(s, w, v, n)[q] == Read(s, w, from, v);
    ReadBitAt(s, w, from, v, i, v - 1 - r);
  }

  lemma DigitBit(s: seq<byte>, w: nat, k: nat, p: nat, i: nat)
    requires 1 <= w <= 8 && p < w && i == w * k + (w - 1 - p)
    ensures StreamBit(s, w, i) == Bit(if k < |s| then s[k] else 0, p)
  {
    StreamAt(s, w, k, w - 1 - p, i);
    ZeroBit(p);
  }

  lemma DigitBits(s: seq<byte>, w: nat, k: nat, p: nat, from: nat, x: byte)
    requires 1 <= w <= 8 && p < 8 && Fits(s, w) && from == w * k && x == if k < |s| then s[k] else 0
    ensures Bit(x, p) == (p < w && StreamBit(s, w, from + w - 1 - p))
  {
    if p < w {
      DigitBit(s, w, k, p, from + w - 1 - p);
    } else {
      ZeroBit(p);
    }
  }

  /** Digit `k` of a stream of fitting digits is what reading `w` bits at its place gives. */
  lemma ReadDigit(s: seq<byte>, w: nat, k: nat)
    requires 1 <= w <= 8 && Fits(s, w)
    ensures Read(s, w, w * k, w) == if k < |s| then s[k] else 0
  {
    var x: byte := if k < |s| then s[k] else 0;
    var from := w * k;
    forall p | 0 <= p < 8
      ensures Bit(x, p) == (p < w && StreamBit(s, w, from + w - 1 - p))
    {
      DigitBits(s, w, k, p, from, x);
    }
    ReadIs(s, w, from, w, x);
  }

  /** Reads agree where the streams agree. */
  lemma SameRead(s: seq<byte>, w: nat, t: seq<byte>, u: nat, from: nat, v: nat)
    requires 1 <= w <= 8 && 1 <= u <= 8 && v <= 8
    requires forall i :: from <= i < from + v ==> StreamBit(s, w, i) == StreamBit(t, u, i)
    ensures Read(s, w, from, v) == Read(t, u, from, v)
  {
  }

  /** Regrouping to another width and back gives the digits back, as many as the intermediate digits cover; digits past
      the end are zero. */
  lemma RegroupBack(s: seq<byte>, w: nat, v: nat, n: nat, k: nat)
    requires 1 <= w <= 8 && 1 <= v <= 8 && Fits(s, w) && w * (k + 1) <= v * n
    ensures Read(Regroup(s, w, v, n), v, w * k, w) == if k < |s| then s[k] else 0
  {
    forall i | w * k <= i < w * k + w
      ensures StreamBit(Regroup(s, w, v, n), v, i) == StreamBit(s, w, i)
    {
      RegroupKeepsStream(s, w, v, n, i);
    }
    SameRead(Regroup(s, w, v, n), v, s, w, w * k, w);
    ReadDigit(s, w, k);
  }

  function At(s: seq<byte>, i: nat): byte {
    if i < |s| then s[i] else 0
  }

  /** Bit `b` of the stream from digit `i` on. */
  function BitFrom(s: seq<byte>, w: nat, i: nat, b: nat): bool
    requires 1 <= w <= 8
  {
    Bit(At(s, i + b / w), w - 1 - b % w)
  }

  lemma SplitPlace(w: nat, i: nat, b: nat)
    requires 1 <= w <= 8
    ensures w * i + b == w * (i + b / w) + b % w && b % w < w
  {
  }

  lemma StreamFrom(s: seq<byte>, w: nat, i: nat, b: nat, j: nat)
    requires 1 <= w <= 8 && j == w * i + b
    ensures StreamBit(s, w, j) == BitFrom(s, w, i, b)
  {
    SplitPlace(w, i, b);
    StreamAt(s, w, i + b / w, b % w, j);
    ZeroBit(w - 1 - b % w);
  }

  /** Bit `q` of `x` is what it must be for `x` to be the `v` bits from bit `b` of digit `i` on. */
  ghost predicate Spelled(x: byte, s: seq<byte>, w: nat, i: nat, b: nat, v: nat, q: nat)
    requires 1 <= w <= 8 && q < 8
  {
    Bit(x, q) == (q < v && BitFrom(s, w, i, b + v - 1 - q))
  }

  lemma ReadBitFrom(s: seq<byte>, w: nat, i: nat, b: nat, v: nat, q: nat, from: nat, c: nat)
    requires 1 <= w <= 8 && q < v <= 8 && from == w * i + b && c == b + v - 1 - q
    ensures Bit(Read(s, w, from, v), q) == BitFrom(s, w, i, c)
  {
    var j := from + v - 1 - q;
    ReadBitAt(s, w, from, v, j, q);
    StreamFrom(s, w, i, c, j);
  }

  lemma ReadFrom(s: seq<byte>, w: nat, i: nat, b: nat, v: nat, x: byte)
    requires 1 <= w <= 8 && v <= 8
    requires forall q :: 0 <= q < 8 ==> Spelled(x, s, w, i, b, v, q)
    ensures Read(s, w, w * i + b, v) == x
  {
    var from := w * i + b;
    forall q | 0 <= q < 8
      ensures Bit(Read(s, w, from, v), q) == Bit(x, q)
    {
      assert Spelled(x, s, w, i, b, v, q);
      if q < v {
        ReadBitFrom(s, w, i, b, v, q, from, b + v - 1 - q);
      } else {
        ReadBitPast(s, w, from, v, q);
      }
    }
    SameBits(Read(s, w, from, v), x);
  }

  /** Bit `b` from digit `i` on is bit `r` of the digit `e` further on, counted from the most significant. */
  lemma SpelledAt(x: byte, s: seq<byte>, w: nat, i: nat, from: nat, v: nat, q: nat, e: nat, r: nat)
    requires 1 <= w <= 8 && q < 8 && q < v && r < w && from + v - 1 - q == w * e + r
    requires Bit(x, q) == Bit(At(s, i + e), w - 1 - r)
    ensures Spelled(x, s, w, i, from, v, q)
  {
    DivMod(w, e, r);
  }

  /** Bit `b` counted from the first of three digits. */
  predicate NearBit(w: nat, b: nat, x: byte, y: byte, z: byte)
    requires 1 <= w <= 8
  {
    Bit(if b / w == 0 then x else if b / w == 1 then y else z, w - 1 - b % w)
  }

  /** Three digits are enough for a read that ends in one of them. */
  lemma SpelledNear(c: byte, s: seq<byte>, w: nat, i: nat, from: nat, v: nat, q: nat, b: nat, x: byte, y: byte, z: byte)
    requires 1 <= w <= 8 && q < 8 && q < v && b == from + v - 1 - q && b / w < 3
    requires x == At(s, i) && y == At(s, i + 1) && z == At(s, i + 2)
    requires Bit(c, q) == NearBit(w, b, x, y, z)
    ensures Spelled(c, s, w, i, from, v, q)
  {
  }
}
