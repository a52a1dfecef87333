/** What the base32 codec promises: truncation, round trips, chunks. All on the specification functions, which the codec
    routines are proved to compute. */
module Base32Laws {
  import opened Bytes
  import opened Bitstream
  import opened Base32

  /** The encoding with room to spare. */
  function FullEncoded(data: seq<byte>): (s: seq<byte>)
    ensures |s| == CeilDiv(8 * |data|, 5)
  {
    Encoded(data, CeilDiv(8 * |data|, 5))
  }

  function Lower(s: seq<byte>): (t: seq<byte>)
    ensures |t| == |s|
  {
    seq(|s|, k requires 0 <= k < |s| => ToLower(s[k]))
  }

  /** The encoder takes as many whole bytes as fit, and no more. */
  lemma ConsumesWhatFits(size: nat, n: nat, c: nat)
    ensures c <= size && CeilDiv(8 * c, 5) <= n <==> c <= Consumed(size, n)
    ensures Produced(size, n) <= n
  {
  }

  /** A truncated encoding is a prefix of the encoding of the whole input. */
  lemma TruncationIsPrefix(data: seq<byte>, n: nat)
    ensures Encoded(data, n) <= FullEncoded(data)
  {
  }

  /** The values of the characters are the data regrouped. */
  lemma EncodedValues(data: seq<byte>, n: nat)
    ensures Values(Encoded(data, n)) == Regroup(data, 8, 5, Produced(|data|, n))
  {
    forall k | 0 <= k < Produced(|data|, n)
      ensures Value(EncodedChar(data, k)) == Read(data, 8, 5 * k, 5)
    {
      QuintetFits(data, k);
      ValueOfLetter(Read(data, 8, 5 * k, 5));
    }
  }

  /** Decoding what was encoded under any limit gives back exactly the bytes reported as consumed. */
  lemma DecodeEncode(data: seq<byte>, n: nat, m: nat)
    ensures Decoded(Encoded(data, n), m) == data[..Min(m, Consumed(|data|, n))]
  {
    var p := Produced(|data|, n);
    var d := Decoded(Encoded(data, n), m);
    EncodedValues(data, n);
    forall k | 0 <= k < |d|
      ensures d[k] == data[k]
    {
      RegroupBack(data, 8, 5, p, k);
    }
  }

  /** No bits are left over from the last whole byte. */
  ghost predicate TrailingBitsZero(s: seq<byte>) {
    forall i :: 5 * |s| / 8 * 8 <= i < 5 * |s| ==> !StreamBit(Values(s), 5, i)
  }

  /** A string that an encoder can have made, in either case. */
  ghost predicate Canonical(s: seq<byte>) {
    && (forall c :: c in s ==> InAlphabet(c))
    && (|s| % 8 == 0 || |s| % 8 == 2 || |s| % 8 == 4 || |s| % 8 == 5 || |s| % 8 == 7)
    && TrailingBitsZero(s)
  }

  lemma CanonicalLength(n: nat)
    ensures CeilDiv(8 * (5 * n / 8), 5) == n <==> n % 8 == 0 || n % 8 == 2 || n % 8 == 4 || n % 8 == 5 || n % 8 == 7
  {
    var q, r := n / 8, n % 8;
    assert n == 8 * q + r;
    assert 5 * n / 8 == 5 * q + 5 * r / 8;
    CeilOfGroups(q, 8 * (5 * r / 8));
  }

  lemma CeilOfGroups(q: nat, x: nat)
    ensures CeilDiv(8 * (5 * q) + x, 5) == 8 * q + CeilDiv(x, 5)
  {
  }

  lemma ValuesFit(s: seq<byte>)
    ensures Fits(Values(s), 5)
  {
  }

  /** One decoded-and-encoded-again character is the original one exactly when its bits all survive. */
  lemma CharAgain(s: seq<byte>, k: nat)
    requires k < |s| && InAlphabet(s[k])
    ensures var d := Decoded(s, |s|);
            EncodedChar(d, k) == ToLower(s[k]) <==> Read(d, 8, 5 * k, 5) == Value(s[k])
  {
    var x := Read(Decoded(s, |s|), 8, 5 * k, 5);
    QuintetFits(Decoded(s, |s|), k);
    ValueOfLetter(x);
    LetterOfValue(s[k]);
  }

  lemma DecodedBit(s: seq<byte>, i: nat)
    ensures StreamBit(Decoded(s, |s|), 8, i) == (i < 5 * |s| / 8 * 8 && StreamBit(Values(s), 5, i))
  {
    RegroupKeepsStream(Values(s), 5, 8, 5 * |s| / 8, i);
  }

  /** Encoding the decoding of a string gives its lower-case form if and only if it is canonical. */
  lemma EncodeDecode(s: seq<byte>)
    ensures FullEncoded(Decoded(s, |s|)) == Lower(s) <==> Canonical(s)
  {
    CanonicalLength(|s|);
    if Canonical(s) {
      CanonicalComesBack(s);
    }
    if FullEncoded(Decoded(s, |s|)) == Lower(s) {
      OnlyCanonicalComesBack(s);
    }
  }

  lemma CanonicalComesBack(s: seq<byte>)
    requires Canonical(s)
    ensures FullEncoded(Decoded(s, |s|)) == Lower(s)
  {
    CanonicalLength(|s|);
    var d, v := Decoded(s, |s|), Values(s);
    forall k | 0 <= k < |s|
      ensures EncodedChar(d, k) == ToLower(s[k])
    {
      forall i | 5 * k <= i < 5 * k + 5
        ensures StreamBit(d, 8, i) == StreamBit(v, 5, i)
      {
        DecodedBit(s, i);
      }
      SameRead(d, 8, v, 5, 5 * k, 5);
      ValuesFit(s);
      ReadDigit(v, 5, k);
      CharAgain(s, k);
    }
  }

  lemma EncodedInAlphabet(data: seq<byte>, c: byte, k: nat)
    requires EncodedChar(data, k) == ToLower(c)
    ensures InAlphabet(c)
  {
    QuintetFits(data, k);
    ValueOfLetter(Read(data, 8, 5 * k, 5));
  }

  lemma OnlyCanonicalComesBack(s: seq<byte>)
    requires FullEncoded(Decoded(s, |s|)) == Lower(s)
    ensures Canonical(s)
  {
    CanonicalLength(|s|);
    var d, v := Decoded(s, |s|), Values(s);
    assert |FullEncoded(d)| == |Lower(s)|;
    forall k | 0 <= k < |s|
      ensures InAlphabet(s[k])
    {
      assert FullEncoded(d)[k] == EncodedChar(d, k) && Lower(s)[k] == ToLower(s[k]);
      EncodedInAlphabet(d, s[k], k);
    }
    forall i | 5 * |s| / 8 * 8 <= i < 5 * |s|
      ensures !StreamBit(v, 5, i)
    {
      var k := i / 5;
      assert FullEncoded(d)[k] == EncodedChar(d, k) && Lower(s)[k] == ToLower(s[k]);
      CharAgain(s, k);
      ReadBitAt(d, 8, 5 * k, 5, i, 4 - i % 5);
      DecodedBit(s, i);
    }
  }

  /** Upper and lower case decode alike. */
  lemma CaseDoesNotMatter(s: seq<byte>, t: seq<byte>, n: nat)
    requires Lower(s) == Lower(t)
    ensures Decoded(s, n) == Decoded(t, n)
  {
    assert |Lower(s)| == |Lower(t)|;
    forall k | 0 <= k < |s|
      ensures Value(s[k]) == Value(t[k])
    {
      LetterOfValue(s[k]);
      LetterOfValue(t[k]);
      assert Lower(s)[k] == Lower(t)[k];
    }
    assert Values(s) == Values(t);
  }

  // Chunked encoding: encode with a limit, drop the bytes reported as consumed, repeat.

  /** The encoder makes progress on any remaining data exactly when its limit allows two characters. */
  lemma ProgressNeedsTwo(size: nat, n: nat)
    requires 0 < size
    ensures 0 < Consumed(size, n) <==> 2 <= n
  {
  }

  function Chunks(data: seq<byte>, n: nat): seq<seq<byte>>
    requires 2 <= n
    decreases |data|
  {
    if data == [] then []
    else
      ProgressNeedsTwo(|data|, n);
      [Encoded(data, n)] + Chunks(data[Consumed(|data|, n)..], n)
  }

  function Concat(parts: seq<seq<byte>>): seq<byte> {
    if parts == [] then [] else parts[0] + Concat(parts[1..])
  }

  function DecodeEach(chunks: seq<seq<byte>>): seq<byte> {
    if chunks == [] then [] else Decoded(chunks[0], |chunks[0]|) + DecodeEach(chunks[1..])
  }

  lemma ChunksNext(data: seq<byte>, n: nat, c: nat)
    requires 2 <= n && data != [] && c == Consumed(|data|, n)
    ensures 0 < c && Chunks(data, n) == [Encoded(data, n)] + Chunks(data[c..], n)
  {
    ProgressNeedsTwo(|data|, n);
  }

  lemma Carried(data: seq<byte>, chunk: seq<byte>, chunks: seq<seq<byte>>, c: nat)
    requires c <= |data| && Decoded(chunk, |chunk|) == data[..c] && DecodeEach(chunks) == data[c..]
    ensures DecodeEach([chunk] + chunks) == data
  {
    assert ([chunk] + chunks)[1..] == chunks;
  }

  lemma ConcatNext(part: seq<byte>, parts: seq<seq<byte>>)
    ensures Concat([part] + parts) == part + Concat(parts)
  {
    assert ([part] + parts)[1..] == parts;
  }

  lemma ChunkDecodes(data: seq<byte>, n: nat, c: nat)
    requires c == Consumed(|data|, n)
    ensures Decoded(Encoded(data, n), |Encoded(data, n)|) == data[..c]
  {
    DecodeEncode(data, n, Produced(|data|, n));
  }

  /** Each byte is carried by exactly one chunk. */
  lemma {:induction false} ChunksCarryData(data: seq<byte>, n: nat)
    requires 2 <= n
    ensures DecodeEach(Chunks(data, n)) == data
    decreases |data|
  {
    if data == [] {
    } else {
      var c := Consumed(|data|, n);
      ChunksNext(data, n, c);
      ChunkDecodes(data, n, c);
      ChunksCarryData(data[c..], n);
      Carried(data, Encoded(data, n), Chunks(data[c..], n), c);
    }
  }

  lemma AtAfter(data: seq<byte>, n: nat, i: nat)
    requires n <= |data|
    ensures At(data[n..], i) == At(data, n + i)
  {
  }

  lemma CharInGroup(data: seq<byte>, g: nat, h: nat, p: nat, i: nat)
    requires 5 * g <= |data| && p < 8 && i == 5 * h + 5 * p / 8
    ensures EncodedChar(data, 8 * (g + h) + p) == EncodedChar(data[5 * g..], 8 * h + p)
  {
    var rest := data[5 * g..];
    var x, y := At(rest, i), At(rest, i + 1);
    AtAfter(data, 5 * g, i);
    AtAfter(data, 5 * g, i + 1);
    CharIs(rest, h, p, i, x, y);
    CharIs(data, g + h, p, 5 * g + i, x, y);
  }

  /** Characters on a group boundary start afresh. */
  lemma CharAfterGroups(data: seq<byte>, g: nat, k: nat)
    requires 5 * g <= |data|
    ensures EncodedChar(data, 8 * g + k) == EncodedChar(data[5 * g..], k)
  {
    var h, p := k / 8, k % 8;
    assert k == 8 * h + p;
    CharInGroup(data, g, h, p, 5 * h + 5 * p / 8);
  }

  lemma GroupLengths(size: nat, g: nat)
    ensures 5 * g <= size ==> Consumed(size, 8 * g) == 5 * g && Produced(size, 8 * g) == 8 * g
    ensures 5 * g <= size ==> CeilDiv(8 * size, 5) == 8 * g + CeilDiv(8 * (size - 5 * g), 5)
    ensures size < 5 * g ==> Consumed(size, 8 * g) == size
  {
  }

  lemma FullAfterGroups(data: seq<byte>, g: nat)
    requires 5 * g <= |data|
    ensures FullEncoded(data) == Encoded(data, 8 * g) + FullEncoded(data[5 * g..])
  {
    GroupLengths(|data|, g);
    var a, b, f := Encoded(data, 8 * g), FullEncoded(data[5 * g..]), FullEncoded(data);
    forall k | 8 * g <= k < |f|
      ensures f[k] == b[k - 8 * g]
    {
      CharAfterGroups(data, g, k - 8 * g);
    }
  }

  /** With a limit of whole groups the chunks together are the one-shot encoding. */
  lemma {:induction false} WholeGroupChunks(data: seq<byte>, g: nat)
    requires 0 < g
    ensures Concat(Chunks(data, 8 * g)) == FullEncoded(data)
    decreases |data|
  {
    if data == [] {
    } else {
      var c := Consumed(|data|, 8 * g);
      ChunksNext(data, 8 * g, c);
      ConcatNext(Encoded(data, 8 * g), Chunks(data[c..], 8 * g));
      WholeGroupChunks(data[c..], g);
      GroupLengths(|data|, g);
      if 5 * g <= |data| {
        FullAfterGroups(data, g);
      } else {
        assert data[c..] == [];
        assert Encoded(data, 8 * g) == FullEncoded(data);
      }
    }
  }
}
