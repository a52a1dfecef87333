/** The two codec routines of `base32.c`, with the reverse table they share. */
module Base32Codec {
  import opened Bytes
  import opened Bitstream
  import opened Base32

  predicate Useless(p: nat) {
    p == 1 || p == 3 || p == 6
  }

  /** The lengths at an exit of the encoder: `p` characters into group `g`, either the output limit or the end of the
      data is reached. After characters 1, 3 and 6 the last one is useless and taken back. */
  lemma EncoderExit(size: nat, n: nat, g: nat, p: nat)
    requires p < 8 && 8 * g + p <= n && 5 * g + 5 * p / 8 <= size
    requires 8 * g + p == n || 5 * g + 5 * p / 8 == size
    requires Useless(p) ==> 5 * g + 5 * p / 8 < size
    ensures Consumed(size, n) == 5 * g + 5 * p / 8
    ensures Produced(size, n) == if Useless(p) then 8 * g + p - 1 else 8 * g + p
  {
  }

  /** Every character is written within the room that the result and its terminator take. */
  lemma EncoderRoom(size: nat, n: nat, g: nat, p: nat)
    requires p < 8 && 8 * g + p < n && 5 * g + 5 * p / 8 < size
    ensures 8 * g + p <= Produced(size, n)
  {
  }

  /** `chars` lists the characters of the encoding of `s`. */
  ghost predicate Spells(chars: seq<byte>, s: seq<byte>) {
    forall k: nat {:trigger EncodedChar(s, k)} :: k < |chars| ==> chars[k] == EncodedChar(s, k)
  }

  lemma SpellsPrefix(chars: seq<byte>, s: seq<byte>)
    requires Spells(chars, s)
    ensures Produced(|s|, |chars|) <= |chars| && chars[..Produced(|s|, |chars|)] == Encoded(s, |chars|)
  {
  }

  ghost function CharsOf(s: seq<byte>, n: nat): (chars: seq<byte>)
    ensures |chars| == n && Spells(chars, s)
  {
    seq(n, k requires 0 <= k => EncodedChar(s, k))
  }

  /** One character of the unrolled loop: number `p` of group `g`, starting in byte `iin`. */
  method Put(buf: array<byte>, n: nat, iout: nat, data: array<byte>, size: nat, iin: nat, p: nat,
             ghost g: nat, ghost chars: seq<byte>, ghost before: seq<byte>)
    requires buf != data && size <= data.Length && Produced(size, n) < buf.Length
    requires p < 8 && iout == 8 * g + p < n == |chars| && iin == 5 * g + 5 * p / 8 < size
    requires Spells(chars, data[..size]) && |before| == buf.Length
    requires iout <= buf.Length && buf[..] == chars[..iout] + before[iout..]
    modifies buf
    ensures iout < buf.Length && buf[..] == chars[..iout + 1] + before[iout + 1..]
  {
    EncoderRoom(size, n, g, p);
    var x, y := data[iin], if iin + 1 < size then data[iin + 1] else 0;
    CharIs(data[..size], g, p, iin, x, y);
    assert chars[iout] == EncodedChar(data[..size], iout);
    var c := Lookup(Quintet(p, x, y));
    buf[iout] := c;
  }

  /** Where a pass through the unrolled loop stands: `p` characters into group `g`. It stops there if the output limit
      or the end of the data is reached, and takes a useless last character back. */
  ghost predicate Reached(b: seq<byte>, chars: seq<byte>, before: seq<byte>, n: nat, size: nat,
                          iout: nat, iin: nat, stop: bool, g: nat, p: nat)
    requires |chars| == n && |before| == |b|
  {
    && 8 * g + p <= n && 8 * g + p <= |b| && iin == 5 * g + 5 * p / 8 <= size
    && b == chars[..8 * g + p] + before[8 * g + p..]
    && iout == (if stop && Useless(p) then 8 * g + p - 1 else 8 * g + p)
    && (stop ==> p < 8 && (8 * g + p == n || iin == size) && (Useless(p) ==> iin < size))
  }

  /** Characters 0 and 1 of the loop body, which complete byte 0; `stop` stands for its `break`. */
  method FirstByte(buf: array<byte>, n: nat, iout0: nat, data: array<byte>, size: nat, iin0: nat,
                  ghost g: nat, ghost chars: seq<byte>, ghost before: seq<byte>)
    returns (iout: nat, iin: nat, stop: bool, ghost p: nat)
    requires buf != data && size <= data.Length && Produced(size, n) < buf.Length
    requires Spells(chars, data[..size]) && |chars| == n && |before| == buf.Length
    requires Reached(buf[..], chars, before, n, size, iout0, iin0, false, g, 0)
    modifies buf
    ensures Reached(buf[..], chars, before, n, size, iout, iin, stop, g, p)
    ensures !stop ==> p == 2
  {
    iout, iin, stop, p := iout0, iin0, true, 0;
    if iout >= n || iin >= size {
      return;
    }
    Put(buf, n, iout, data, size, iin, 0, g, chars, before);
    iout, p := iout + 1, 1;

    if iout >= n || iin >= size {
      iout := iout - 1;    // the previous character is useless
      return;
    }
    Put(buf, n, iout, data, size, iin, 1, g, chars, before);
    iin := iin + 1;
    iout, p := iout + 1, 2;
    stop := false;
  }

  /** Characters 2 and 3, which complete byte 1. */
  method SecondByte(buf: array<byte>, n: nat, iout0: nat, data: array<byte>, size: nat, iin0: nat,
                    ghost g: nat, ghost chars: seq<byte>, ghost before: seq<byte>)
    returns (iout: nat, iin: nat, stop: bool, ghost p: nat)
    requires buf != data && size <= data.Length && Produced(size, n) < buf.Length
    requires Spells(chars, data[..size]) && |chars| == n && |before| == buf.Length
    requires Reached(buf[..], chars, before, n, size, iout0, iin0, false, g, 2)
    modifies buf
    ensures Reached(buf[..], chars, before, n, size, iout, iin, stop, g, p)
    ensures !stop ==> p == 4
  {
    iout, iin, stop, p := iout0, iin0, true, 2;
    if iout >= n || iin >= size {
      return;
    }
    Put(buf, n, iout, data, size, iin, 2, g, chars, before);
    iout, p := iout + 1, 3;

    if iout >= n || iin >= size {
      iout := iout - 1;    // the previous character is useless
      return;
    }
    Put(buf, n, iout, data, size, iin, 3, g, chars, before);
    iin := iin + 1;
    iout, p := iout + 1, 4;
    stop := false;
  }

  /** Character 4, which completes byte 2. */
  method ThirdByte(buf: array<byte>, n: nat, iout0: nat, data: array<byte>, size: nat, iin0: nat,
                   ghost g: nat, ghost chars: seq<byte>, ghost before: seq<byte>)
    returns (iout: nat, iin: nat, stop: bool, ghost p: nat)
    requires buf != data && size <= data.Length && Produced(size, n) < buf.Length
    requires Spells(chars, data[..size]) && |chars| == n && |before| == buf.Length
    requires Reached(buf[..], chars, before, n, size, iout0, iin0, false, g, 4)
    modifies buf
    ensures Reached(buf[..], chars, before, n, size, iout, iin, stop, g, p)
    ensures !stop ==> p == 5
  {
    iout, iin, stop, p := iout0, iin0, true, 4;
    if iout >= n || iin >= size {
      return;
    }
    Put(buf, n, iout, data, size, iin, 4, g, chars, before);
    iin := iin + 1;
    iout, p := iout + 1, 5;
    stop := false;
  }

  /** Characters 5 and 6, which complete byte 3. */
  method FourthByte(buf: array<byte>, n: nat, iout0: nat, data: array<byte>, size: nat, iin0: nat,
                    ghost g: nat, ghost chars: seq<byte>, ghost before: seq<byte>)
    returns (iout: nat, iin: nat, stop: bool, ghost p: nat)
    requires buf != data && size <= data.Length && Produced(size, n) < buf.Length
    requires Spells(chars, data[..size]) && |chars| == n && |before| == buf.Length
    requires Reached(buf[..], chars, before, n, size, iout0, iin0, false, g, 5)
    modifies buf
    ensures Reached(buf[..], chars, before, n, size, iout, iin, stop, g, p)
    ensures !stop ==> p == 7
  {
    iout, iin, stop, p := iout0, iin0, true, 5;
    if iout >= n || iin >= size {
      return;
    }
    Put(buf, n, iout, data, size, iin, 5, g, chars, before);
    iout, p := iout + 1, 6;

    if iout >= n || iin >= size {
      iout := iout - 1;    // the previous character is useless
      return;
    }
    Put(buf, n, iout, data, size, iin, 6, g, chars, before);
    iin := iin + 1;
    iout, p := iout + 1, 7;
    stop := false;
  }

  /** Character 7, which completes byte 4. */
  method FifthByte(buf: array<byte>, n: nat, iout0: nat, data: array<byte>, size: nat, iin0: nat,
                   ghost g: nat, ghost chars: seq<byte>, ghost before: seq<byte>)
    returns (iout: nat, iin: nat, stop: bool, ghost p: nat)
    requires buf != data && size <= data.Length && Produced(size, n) < buf.Length
    requires Spells(chars, data[..size]) && |chars| == n && |before| == buf.Length
    requires Reached(buf[..], chars, before, n, size, iout0, iin0, false, g, 7)
    modifies buf
    ensures Reached(buf[..], chars, before, n, size, iout, iin, stop, g, p)
    ensures !stop ==> p == 8
  {
    iout, iin, stop, p := iout0, iin0, true, 7;
    if iout >= n || iin >= size {
      return;
    }
    Put(buf, n, iout, data, size, iin, 7, g, chars, before);
    iin := iin + 1;
    iout, p := iout + 1, 8;
    stop := false;
  }

  /** The loop of `base32_encode`. */
  method EncodeLoop(buf: array<byte>, n: nat, data: array<byte>, size: nat,
                    ghost chars: seq<byte>, ghost before: seq<byte>)
    returns (iout: nat, iin: nat, ghost g: nat, ghost p: nat)
    requires buf != data && size <= data.Length && Produced(size, n) < buf.Length
    requires Spells(chars, data[..size]) && |chars| == n && before == buf[..]
    modifies buf
    ensures Reached(buf[..], chars, before, n, size, iout, iin, true, g, p)
  {
    iout, iin, g, p := 0, 0, 0, 0;
    while true
      invariant Reached(buf[..], chars, before, n, size, iout, iin, false, g, 0)
      decreases size - iin
    {
      var stop;
      iout, iin, stop, p := FirstByte(buf, n, iout, data, size, iin, g, chars, before);
      if stop {
        break;
      }
      iout, iin, stop, p := SecondByte(buf, n, iout, data, size, iin, g, chars, before);
      if stop {
        break;
      }
      iout, iin, stop, p := ThirdByte(buf, n, iout, data, size, iin, g, chars, before);
      if stop {
        break;
      }
      iout, iin, stop, p := FourthByte(buf, n, iout, data, size, iin, g, chars, before);
      if stop {
        break;
      }
      iout, iin, stop, p := FifthByte(buf, n, iout, data, size, iin, g, chars, before);
      if stop {
        break;
      }
      g := g + 1;
    }
  }

  /** `base32_encode`: returns the number of characters and, as the new `*buflen`, the number of bytes they carry. The
      buffer needs room for those characters and the terminator. */
  method Encode(buf: array<byte>, buflen: nat, data: array<byte>, size: nat) returns (iout: nat, iin: nat)
    requires buf != data && size <= data.Length && Produced(size, buflen) < buf.Length
    modifies buf
    ensures iout == Produced(size, buflen) && iin == Consumed(size, buflen)
    ensures buf[..iout] == Encoded(data[..size], buflen) && buf[iout] == 0
    ensures buf[iout + 1..] == old(buf[iout + 1..])
  {
    ghost var chars, before := CharsOf(data[..size], buflen), buf[..];
    ghost var g, p;
    iout, iin, g, p := EncodeLoop(buf, buflen, data, size, chars, before);
    EncoderExit(size, buflen, g, p);
    SpellsPrefix(chars, data[..size]);
    buf[iout] := NUL;
    assert buf[..iout] == chars[..iout];
  }

  /** The lengths at an exit of the decoder, `p` bytes into group `g`: the limit is reached or the next byte's last
      character is missing. */
  lemma DecoderExit(n: nat, len: nat, g: nat, p: nat)
    requires p < 5 && 5 * g + p <= n && 8 * (5 * g + p) <= 5 * len
    requires 5 * g + p == n || len <= (8 * (5 * g + p) + 7) / 5
    ensures Min(n, 5 * len / 8) == 5 * g + p
  {
  }

  /** The static table `rev32` and its flag. */
  class ReverseTable {
    const rev32: array<byte>
    var reverseInit: bool

    ghost predicate Valid()
      reads this, rev32
    {
      && rev32.Length == 256
      && (reverseInit ==> forall c: byte :: rev32[c as int] == Value(c))
    }

    constructor ()
      ensures Valid() && fresh(rev32) && !reverseInit
    {
      rev32 := new byte[256];
      reverseInit := false;
    }

    /** The two entries for value `v`. */
    method SetRow(v: byte, ghost next: byte)
      requires rev32.Length == 256 && v < 32 && next == v + 1
      requires forall c: byte :: rev32[c as int] == PartialValue(c, v)
      modifies rev32
      ensures forall c: byte :: rev32[c as int] == PartialValue(c, next)
    {
      TableRow(v);
      UpperTableRow(v);
      rev32[CB32[v as int] as int] := v;
      rev32[CB32_UCASE[v as int] as int] := v;
      forall c: byte
        ensures rev32[c as int] == PartialValue(c, next)
      {
        NextRow(c, v);
        Injective(c, Letter(v));
        Injective(c, UpperLetter(v));
      }
    }

    /** `base32_reverse_init`. */
    method ReverseInit()
      requires Valid()
      modifies this, rev32
      ensures Valid() && reverseInit
    {
      if !reverseInit {
        forall k | 0 <= k < 256 {
          rev32[k] := 0;
        }
        var v: byte := 0;
        while v < 32
          invariant v <= 32
          invariant forall c: byte :: rev32[c as int] == PartialValue(c, v)
          decreases 32 - v as int
        {
          SetRow(v, v + 1);
          v := v + 1;
        }
        forall c: byte
          ensures rev32[c as int] == Value(c)
        {
          AllRows(c);
        }
        reverseInit := true;
      }
    }

    /** `REV32(c)`. */
    function Rev32(c: byte): byte
      requires rev32.Length == 256
      reads rev32
    {
      rev32[c as int]
    }

    /** One byte of the unrolled loop: number `p` of group `g`, starting in character `iin`. */
    method PutByte(buf: array<byte>, n: nat, iout: nat, str: array<byte>, iin: nat, p: nat,
                   ghost g: nat, ghost t: seq<byte>, ghost bytes: seq<byte>, ghost before: seq<byte>)
      requires Valid() && reverseInit && buf != rev32 && buf != str
      requires p < 5 && iout == 5 * g + p < n <= buf.Length && iin == 8 * g + 8 * p / 5
      requires iin + (if p == 1 || p == 3 then 2 else 1) < |t| <= str.Length && str[..|t|] == t
      requires bytes == Regroup(Values(t), 5, 8, n) && |before| == buf.Length
      requires buf[..] == bytes[..iout] + before[iout..]
      modifies buf
      ensures buf[..] == bytes[..iout + 1] + before[iout + 1..]
    {
      var x, y := Rev32(str[iin]), Rev32(str[iin + 1]);
      var z := if p == 1 || p == 3 then Rev32(str[iin + 2]) else 0;
      assert str[iin] == t[iin] && str[iin + 1] == t[iin + 1];
      assert p == 1 || p == 3 ==> str[iin + 2] == t[iin + 2];
      ByteIs(t, g, p, iin, x, y, z);
      var b := Octet(p, x, y, z);
      buf[iout] := b;
    }

    /** The test before each byte: no room, or one of the `k + 1` characters it needs is missing. */
    method AtEnd(n: nat, iout: nat, str: array<byte>, slen: nat, iin: nat, k: nat, ghost t: seq<byte>)
      returns (end: bool)
      requires IsText(t, str[..], slen) && iin <= |t| && 1 <= k <= 2
      ensures end <==> iout >= n || iin + k >= |t|
    {
      end := iout >= n || iin + k >= slen || str[iin] == NUL || str[iin + 1] == NUL || (k == 2 && str[iin + 2] == NUL);
    }

    /** Bytes 0 to 2 of the loop body of `base32_decode`; `stop` stands for its `break`. */
    method FirstThreeBytes(buf: array<byte>, n: nat, iout0: nat, str: array<byte>, slen: nat, iin0: nat,
                           ghost g: nat, ghost t: seq<byte>, ghost bytes: seq<byte>, ghost before: seq<byte>)
      returns (iout: nat, iin: nat, stop: bool)
      requires Valid() && reverseInit && buf != rev32 && buf != str
      requires IsText(t, str[..], slen) && iout0 == 5 * g <= n <= buf.Length && iin0 == 8 * g <= |t|
      requires bytes == Regroup(Values(t), 5, 8, n) && |before| == buf.Length
      requires buf[..] == bytes[..iout0] + before[iout0..]
      modifies buf
      ensures iout <= n && buf[..] == bytes[..iout] + before[iout..]
      ensures stop ==> iout == Min(n, 5 * |t| / 8)
      ensures !stop ==> iout == 5 * g + 3 && iin == 8 * g + 4 < |t|
    {
      iout, iin, stop := iout0, iin0, true;
      var end0 := AtEnd(n, iout, str, slen, iin, 1, t);
      if end0 {
        DecoderExit(n, |t|, g, 0);
        return;
      }
      PutByte(buf, n, iout, str, iin, 0, g, t, bytes, before);
      iin, iout := iin + 1, iout + 1;

      var end1 := AtEnd(n, iout, str, slen, iin, 2, t);
      if end1 {
        DecoderExit(n, |t|, g, 1);
        return;
      }
      PutByte(buf, n, iout, str, iin, 1, g, t, bytes, before);
      iin, iout := iin + 2, iout + 1;

      var end2 := AtEnd(n, iout, str, slen, iin, 1, t);
      if end2 {
        DecoderExit(n, |t|, g, 2);
        return;
      }
      PutByte(buf, n, iout, str, iin, 2, g, t, bytes, before);
      iin, iout := iin + 1, iout + 1;
      stop := false;
    }

    /** Bytes 3 and 4. */
    method LastTwoBytes(buf: array<byte>, n: nat, iout0: nat, str: array<byte>, slen: nat, iin0: nat,
                        ghost g: nat, ghost t: seq<byte>, ghost bytes: seq<byte>, ghost before: seq<byte>)
      returns (iout: nat, iin: nat, stop: bool)
      requires Valid() && reverseInit && buf != rev32 && buf != str
      requires IsText(t, str[..], slen) && iout0 == 5 * g + 3 <= n <= buf.Length && iin0 == 8 * g + 4 < |t|
      requires bytes == Regroup(Values(t), 5, 8, n) && |before| == buf.Length
      requires buf[..] == bytes[..iout0] + before[iout0..]
      modifies buf
      ensures iout <= n && buf[..] == bytes[..iout] + before[iout..]
      ensures stop ==> iout == Min(n, 5 * |t| / 8)
      ensures !stop ==> iout == 5 * (g + 1) && iin == 8 * (g + 1) <= |t|
    {
      iout, iin, stop := iout0, iin0, true;
      var end3 := AtEnd(n, iout, str, slen, iin, 2, t);
      if end3 {
        DecoderExit(n, |t|, g, 3);
        return;
      }
      PutByte(buf, n, iout, str, iin, 3, g, t, bytes, before);
      iin, iout := iin + 2, iout + 1;

      var end4 := AtEnd(n, iout, str, slen, iin, 1, t);
      if end4 {
        DecoderExit(n, |t|, g, 4);
        return;
      }
      PutByte(buf, n, iout, str, iin, 4, g, t, bytes, before);
      iin, iout := iin + 2, iout + 1;
      stop := false;
    }

    /** One pass through the loop of `base32_decode`. */
    method DecodePass(buf: array<byte>, n: nat, iout0: nat, str: array<byte>, slen: nat, iin0: nat,
                      ghost g: nat, ghost t: seq<byte>, ghost bytes: seq<byte>, ghost before: seq<byte>)
      returns (iout: nat, iin: nat, stop: bool)
      requires Valid() && reverseInit && buf != rev32 && buf != str
      requires IsText(t, str[..], slen) && iout0 == 5 * g <= n <= buf.Length && iin0 == 8 * g <= |t|
      requires bytes == Regroup(Values(t), 5, 8, n) && |before| == buf.Length
      requires buf[..] == bytes[..iout0] + before[iout0..]
      modifies buf
      ensures iout <= n && buf[..] == bytes[..iout] + before[iout..]
      ensures stop ==> iout == Min(n, 5 * |t| / 8)
      ensures !stop ==> iout == 5 * (g + 1) && iin == 8 * (g + 1) <= |t|
    {
      iout, iin, stop := FirstThreeBytes(buf, n, iout0, str, slen, iin0, g, t, bytes, before);
      if stop {
        return;
      }
      iout, iin, stop := LastTwoBytes(buf, n, iout, str, slen, iin, g, t, bytes, before);
    }

    /** `base32_decode`: decoding stops at the first NUL or after `slen` characters, and nothing behind that is read. */
    method Decode(buf: array<byte>, buflen: nat, str: array<byte>, slen: nat) returns (iout: nat)
      requires Valid() && buf != rev32 && str != rev32 && buf != str && buflen <= buf.Length
      requires slen <= str.Length || Terminated(str[..])
      requires forall c :: c in TextOf(str[..], slen) ==> c < 0x80
      modifies this, rev32, buf
      ensures Valid() && reverseInit
      ensures var d := Decoded(TextOf(old(str[..]), slen), buflen);
              iout == |d| && buf[..iout] == d && buf[iout..] == old(buf[iout..])
    {
      ReverseInit();
      ghost var t := TextOf(str[..], slen);
      TextOfIs(str[..], slen);
      ghost var bytes, before := Regroup(Values(t), 5, 8, buflen), buf[..];
      ghost var g := 0;
      var iin, stop := 0, false;
      iout := 0;
      while !stop
        invariant Valid() && reverseInit && IsText(t, str[..], slen)
        invariant iout <= buflen && buf[..] == bytes[..iout] + before[iout..]
        invariant !stop ==> iout == 5 * g && iin == 8 * g <= |t|
        invariant stop ==> iout == Min(buflen, 5 * |t| / 8)
        decreases !stop, |t| - 8 * g
      {
        iout, iin, stop := DecodePass(buf, buflen, iout, str, slen, iin, g, t, bytes, before);
        g := g + 1;
      }
      RegroupPrefix(Values(t), 5, 8, buflen, iout);
      assert buf[..iout] == bytes[..iout];
    }
  }

  lemma ThirdUnused(p: nat, x: byte, y: byte, z: byte, z': byte)
    requires p < 5 && p != 1 && p != 3
    ensures Octet(p, x, y, z) == Octet(p, x, y, z')
  {
  }

  lemma ByteIs(t: seq<byte>, g: nat, p: nat, i: nat, x: byte, y: byte, z: byte)
    requires p < 5 && i == 8 * g + 8 * p / 5 && i + (if p == 1 || p == 3 then 2 else 1) < |t|
    requires x == Value(t[i]) && y == Value(t[i + 1]) && (p == 1 || p == 3 ==> z == Value(t[i + 2]))
    ensures Read(Values(t), 5, 8 * (5 * g + p), 8) == Octet(p, x, y, z)
  {
    var v := Values(t);
    OctetRead(v, g, p, i, x, y, At(v, i + 2));
    if p != 1 && p != 3 {
      ThirdUnused(p, x, y, z, At(v, i + 2));
    }
  }

  /** The characters that `base32_decode` takes from `slen` of them. */
  function TextOf(s: seq<byte>, slen: nat): seq<byte> {
    CString(s[..Min(slen, |s|)])
  }

  ghost predicate IsText(t: seq<byte>, s: seq<byte>, slen: nat) {
    && |t| <= |s| && |t| <= slen && s[..|t|] == t
    && (forall k :: 0 <= k < |t| ==> s[k] != NUL)
    && (|t| < slen ==> |t| < |s| && s[|t|] == NUL)
  }

  lemma TextOfIs(s: seq<byte>, slen: nat)
    requires slen <= |s| || Terminated(s)
    ensures IsText(TextOf(s, slen), s, slen)
  {
    var u := s[..Min(slen, |s|)];
    CStringPrefix(u);
    var t := CString(u);
    assert forall k :: 0 <= k < |t| ==> s[k] == u[k];
  }

  /** The table after the first `n` rows. */
  function PartialValue(c: byte, n: byte): byte {
    if InAlphabet(c) && Value(c) < n then Value(c) else 0
  }

  lemma NextRow(c: byte, v: byte)
    requires v < 32
    ensures PartialValue(c, v + 1) == if c == Letter(v) || c == UpperLetter(v) then v else PartialValue(c, v)
  {
  }

  lemma AllRows(c: byte)
    ensures PartialValue(c, 32) == Value(c)
  {
  }
}
