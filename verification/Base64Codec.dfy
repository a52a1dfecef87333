/** The two codec routines of `base64.c`, with the reverse table of the decoder. */
module Base64Codec {
  import opened Bytes
  import opened Bitstream
  import opened Base64

  /** The padding loop overwrites exactly the characters that carry no data. */
  lemma PaddingLength(n: nat)
    ensures n % 3 < |MOD_TABLE| && Significant(n) == 4 * CeilDiv(n, 3) - MOD_TABLE[n % 3]
    ensures CeilDiv(n, 3) == (n + 2) / 3
  {
    var q, r := n / 3, n % 3;
    assert n == 3 * q + r;
    if r == 0 {
      assert CeilDiv(4 * n, 3) == 4 * q && CeilDiv(n, 3) == q;
    } else {
      assert CeilDiv(4 * n, 3) == 4 * q + r + 1 && CeilDiv(n, 3) == q + 1;
    }
  }

  function UnpaddedChar(s: seq<byte>, k: nat): byte {
    SextetFits(s, k);
    Letter(Read(s, 8, 6 * k, 6))
  }

  /** The characters before padding is written over them. */
  function Unpadded(s: seq<byte>, n: nat): (r: seq<byte>)
    ensures |r| == n
  {
    seq(n, k requires 0 <= k => UnpaddedChar(s, k))
  }

  lemma UnpaddedGroup(s: seq<byte>, n: nat, w: byte, x: byte, y: byte, z: byte)
    requires w == UnpaddedChar(s, n) && x == UnpaddedChar(s, n + 1)
    requires y == UnpaddedChar(s, n + 2) && z == UnpaddedChar(s, n + 3)
    ensures Unpadded(s, n + 4) == Unpadded(s, n) + [w, x, y, z]
  {
  }

  /** Character `p` of a group. */
  method GroupLetter(p: nat, a: byte, b: byte, c: byte, ghost s: seq<byte>, ghost g: nat, ghost k: nat)
    returns (w: byte)
    requires p < 4 && k == 4 * g + p && a == At(s, 3 * g) && b == At(s, 3 * g + 1) && c == At(s, 3 * g + 2)
    ensures w == UnpaddedChar(s, k)
  {
    SextetRead(s, g, p, 3 * g, a, b, c);
    SextetFits(s, k);
    w := Lookup(Sextet(p, a, b, c));
  }

  method PutFour(out: array<byte>, j: nat, w: byte, x: byte, y: byte, z: byte)
    requires j + 4 <= out.Length
    modifies out
    ensures out[..j + 4] == old(out[..j]) + [w, x, y, z]
  {
    out[j], out[j + 1], out[j + 2], out[j + 3] := w, x, y, z;
  }

  /** The four characters of one group. */
  method PutGroup(out: array<byte>, j: nat, a: byte, b: byte, c: byte, ghost s: seq<byte>, ghost g: nat)
    requires j == 4 * g && j + 4 <= out.Length && out[..j] == Unpadded(s, j)
    requires a == At(s, 3 * g) && b == At(s, 3 * g + 1) && c == At(s, 3 * g + 2)
    modifies out
    ensures out[..j + 4] == Unpadded(s, j + 4)
  {
    var w := GroupLetter(0, a, b, c, s, g, j);
    var x := GroupLetter(1, a, b, c, s, g, j + 1);
    var y := GroupLetter(2, a, b, c, s, g, j + 2);
    var z := GroupLetter(3, a, b, c, s, g, j + 3);
    UnpaddedGroup(s, j, w, x, y, z);
    PutFour(out, j, w, x, y, z);
  }

  /** The first loop of `base64_encode`. */
  method EncodeLoop(out: array<byte>, data: array<byte>, n: nat)
    requires n <= data.Length && out != data && out.Length == 4 * CeilDiv(n, 3)
    modifies out
    ensures out[..] == Unpadded(data[..n], out.Length)
  {
    ghost var s, g := data[..n], 0;
    var i, j := 0, 0;
    while i < n
      invariant i == Min(3 * g, n) && j == 4 * g <= out.Length
      invariant out[..j] == Unpadded(s, j)
    {
      var a, b, c: byte := 0, 0, 0;
      if i < n {
        a, i := data[i], i + 1;
      }
      if i < n {
        b, i := data[i], i + 1;
      }
      if i < n {
        c, i := data[i], i + 1;
      }
      PutGroup(out, j, a, b, c, s, g);
      j, g := j + 4, g + 1;
    }
    assert j == out.Length;
    assert out[..j] == out[..];
  }

  /** `base64_encode`. */
  method Encode(data: array<byte>, n: nat) returns (out: array<byte>)
    requires n <= data.Length
    ensures fresh(out) && out[..] == Encoded(data[..n])
    ensures forall k :: 0 <= k < out.Length ==> (out[..][k] == '=' as byte <==> Significant(n) <= k)
  {
    ghost var s := data[..n];
    PaddingLength(n);
    var outputLength := 4 * ((n + 2) / 3);
    out := new byte[outputLength];
    EncodeLoop(out, data, n);
    var pads := MOD_TABLE[n % 3];
    var i := 0;
    while i < pads
      invariant i <= pads <= outputLength
      invariant out[..outputLength - i] == Unpadded(s, outputLength)[..outputLength - i]
      invariant forall k :: outputLength - i <= k < outputLength ==> out[k] == PAD
    {
      out[outputLength - 1 - i] := PAD;
      i := i + 1;
    }
    PaddedIs(s, out[..]);
    forall k | 0 <= k < out.Length
      ensures out[..][k] == '=' as byte <==> Significant(n) <= k
    {
      PaddingChar(s, k);
    }
  }

  lemma PaddedIs(s: seq<byte>, r: seq<byte>)
    requires |r| == 4 * CeilDiv(|s|, 3) && Significant(|s|) <= |r|
    requires r[..Significant(|s|)] == Unpadded(s, |r|)[..Significant(|s|)]
    requires forall k :: Significant(|s|) <= k < |r| ==> r[k] == PAD
    ensures r == Encoded(s)
  {
  }

  /** Byte `p` of a group. */
  method GroupOctet(p: nat, a: byte, b: byte, c: byte, d: byte, ghost v: seq<byte>, ghost g: nat, ghost k: nat)
    returns (x: byte)
    requires p < 3 && k == 3 * g + p && IsGroup(v, 4 * g, a, b, c, d)
    ensures x == Read(v, 6, 8 * k, 8)
  {
    OctetRead(v, g, p, a, b, c, d);
    x := Octet(p, a, b, c, d);
  }

  /** The four sextets from `i` on. */
  predicate IsGroup(v: seq<byte>, i: nat, a: byte, b: byte, c: byte, d: byte) {
    && a < 64 && b < 64 && c < 64 && d < 64
    && a == At(v, i) && b == At(v, i + 1) && c == At(v, i + 2) && d == At(v, i + 3)
  }

  /** `if (j < *output_length) decoded_data[j++] = x;` for byte `k` of the stream. */
  method PutIfRoom(out: array<byte>, j0: nat, x: byte, ghost v: seq<byte>, ghost k: nat) returns (j: nat)
    requires j0 == Min(k, out.Length) && out[..j0] == Regroup(v, 6, 8, j0) && x == Read(v, 6, 8 * k, 8)
    modifies out
    ensures j == Min(k + 1, out.Length) && out[..j] == Regroup(v, 6, 8, j)
  {
    j := j0;
    if j < out.Length {
      RegroupNext(v, 6, 8, j, x);
      out[j] := x;
      j := j + 1;
    }
  }

  /** The three bytes of a group. */
  method PutOctets(out: array<byte>, j0: nat, a: byte, b: byte, c: byte, d: byte, ghost v: seq<byte>, ghost g: nat)
    returns (j: nat)
    requires IsGroup(v, 4 * g, a, b, c, d)
    requires j0 == Min(3 * g, out.Length) && out[..j0] == Regroup(v, 6, 8, j0)
    modifies out
    ensures j == Min(3 * g + 3, out.Length) && out[..j] == Regroup(v, 6, 8, j)
  {
    ghost var k := 3 * g;
    var x := GroupOctet(0, a, b, c, d, v, g, k);
    var y := GroupOctet(1, a, b, c, d, v, g, k + 1);
    var z := GroupOctet(2, a, b, c, d, v, g, k + 2);
    j := PutIfRoom(out, j0, x, v, k);
    j := PutIfRoom(out, j, y, v, k + 1);
    j := PutIfRoom(out, j, z, v, k + 2);
  }

  /** The table after the first `n` rows. */
  function PartialValue(c: byte, n: byte): byte {
    if InAlphabet(c) && Value(c) < n then Value(c) else 0
  }

  lemma NextRow(c: byte, v: byte)
    requires v < 64
    ensures PartialValue(c, v + 1) == if c == Letter(v) then v else PartialValue(c, v)
    ensures PartialValue(c, 0) == 0
  {
  }

  lemma AllRows(c: byte)
    ensures PartialValue(c, 64) == Value(c)
  {
  }

  /** The static `decoding_table` and `decode_initialised`. */
  class DecodingTable {
    const table: array<byte>
    var initialised: bool

    ghost predicate Valid()
      reads this, table
    {
      && table.Length == 256
      && (initialised ==> forall c: byte :: table[c as int] == Value(c))
      && (!initialised ==> forall k :: 0 <= k < 256 ==> table[k] == 0)
    }

    constructor ()
      ensures Valid() && fresh(table) && !initialised
    {
      table := new byte[256](_ => 0);
      initialised := false;
    }

    method Initialise()
      requires Valid()
      modifies this, table
      ensures Valid() && initialised
    {
      if !initialised {
        var v: byte := 0;
        while v < 64
          invariant v <= 64 && !initialised
          invariant forall c: byte :: table[c as int] == PartialValue(c, v)
          decreases 64 - v as int
        {
          var letter := Lookup(v);
          table[letter as int] := v;
          ghost var was := v;
          v := v + 1;
          forall c: byte
            ensures table[c as int] == PartialValue(c, v)
          {
            NextRow(c, was);
            Injective(c, letter);
          }
        }
        forall c: byte
          ensures table[c as int] == Value(c)
        {
          AllRows(c);
        }
        initialised := true;
      }
    }

    /** `data[i] == '=' ? 0 : decoding_table[data[i]]`. */
    function SextetOf(c: byte): byte
      requires table.Length == 256
      reads table
    {
      if c == PAD then 0 else table[c as int]
    }

    /** The four sextets of a group. */
    method ReadGroup(data: array<byte>, i: nat, ghost s: seq<byte>) returns (a: byte, b: byte, c: byte, d: byte)
      requires Valid() && initialised && i + 4 <= |s| <= data.Length && s == data[..|s|]
      ensures IsGroup(Sextets(s), i, a, b, c, d)
    {
      LetterOfValue(PAD);
      LetterOfValue(s[i]);
      LetterOfValue(s[i + 1]);
      LetterOfValue(s[i + 2]);
      LetterOfValue(s[i + 3]);
      a, b, c, d := SextetOf(data[i]), SextetOf(data[i + 1]), SextetOf(data[i + 2]), SextetOf(data[i + 3]);
    }

    /** One pass of the loop of `base64_decode`: up to three bytes, no more than the precomputed length. */
    method DecodeGroup(out: array<byte>, j0: nat, data: array<byte>, i: nat, ghost s: seq<byte>, ghost g: nat)
      returns (j: nat)
      requires Valid() && initialised && out != table && out != data
      requires i == 4 * g && i + 4 <= |s| <= data.Length && s == data[..|s|]
      requires j0 == Min(3 * g, out.Length) && out[..j0] == Regroup(Sextets(s), 6, 8, j0)
      modifies out
      ensures j == Min(3 * (g + 1), out.Length) && out[..j] == Regroup(Sextets(s), 6, 8, j)
    {
      var a, b, c, d := ReadGroup(data, i, s);
      j := PutOctets(out, j0, a, b, c, d, Sextets(s), g);
    }

    /** `base64_decode`; null for lengths that are not a multiple of four. The last two characters are looked at, so
        there must be some input. */
    method Decode(data: array<byte>, n: nat) returns (out: array?<byte>)
      requires Valid() && data != table && 0 < n <= data.Length
      modifies this, table
      ensures Valid() && initialised
      ensures out == null <==> n % 4 != 0
      ensures out != null ==> fresh(out) && out[..] == Decoded(data[..n])
      ensures var last, before := data[n - 1] == '=' as byte, 1 < n && data[n - 2] == '=' as byte;
              out != null ==> out.Length == n / 4 * 3 - if last && before then 2 else if last || before then 1 else 0
    {
      Initialise();
      if n % 4 != 0 {
        return null;
      }
      var outputLength := n / 4 * 3;
      if data[n - 1] == PAD {
        outputLength := outputLength - 1;
      }
      if data[n - 2] == PAD {
        outputLength := outputLength - 1;
      }
      var r := new byte[outputLength];
      DecodeLoop(r, data, n);
      return r;
    }

    /** The loop of `base64_decode`. */
    method DecodeLoop(out: array<byte>, data: array<byte>, n: nat)
      requires Valid() && initialised && out != table && out != data
      requires 0 < n <= data.Length && n % 4 == 0 && out.Length == DecodedLength(data[..n])
      modifies out
      ensures out[..] == Decoded(data[..n])
    {
      ghost var s, g := data[..n], 0;
      var i, j := 0, 0;
      while i < n
        invariant i == 4 * g <= n && j == Min(3 * g, out.Length)
        invariant Valid() && initialised && data[..n] == s
        invariant out[..j] == Regroup(Sextets(s), 6, 8, j)
      {
        j := DecodeGroup(out, j, data, i, s, g);
        i, g := i + 4, g + 1;
      }
      assert out[..j] == out[..];
    }
  }

  lemma RegroupNext(s: seq<byte>, w: nat, v: nat, n: nat, x: byte)
    requires 1 <= w <= 8 && x == Read(s, w, v * n, v)
    ensures Regroup(s, w, v, n + 1) == Regroup(s, w, v, n) + [x]
  {
  }
}
