/** What the base64 codec promises: both round trips. */
module Base64Laws {
  import opened Bytes
  import opened Bitstream
  import opened Base64

  lemma Lengths(n: nat)
    requires 0 < n
    ensures var len := 4 * CeilDiv(n, 3);
            && 4 <= len && Significant(n) <= len <= Significant(n) + 2
            && len / 4 * 3 - (len - Significant(n)) == n
            && 8 * n <= 6 * Significant(n)
  {
  }

  /** Past the data there are only zero bits, so the sextets of an encoding are the data regrouped. */
  lemma EncodedSextets(data: seq<byte>)
    ensures Sextets(Encoded(data)) == Regroup(data, 8, 6, |Encoded(data)|)
  {
    forall k | 0 <= k < |Encoded(data)|
      ensures Value(EncodedChar(data, k)) == Read(data, 8, 6 * k, 6)
    {
      SextetFits(data, k);
      if k < Significant(|data|) {
        ValueOfLetter(Read(data, 8, 6 * k, 6));
      } else {
        LetterOfValue(PAD);
        ReadPastEnd(data, 6 * k);
      }
    }
  }

  lemma ReadPastEnd(data: seq<byte>, from: nat)
    requires 8 * |data| <= from
    ensures Read(data, 8, from, 6) == 0
  {
    forall p | 0 <= p < 8
      ensures Bit(0, p) == (p < 6 && StreamBit(data, 8, from + 6 - 1 - p))
    {
      ZeroBit(p);
    }
    ReadIs(data, 8, from, 6, 0);
  }

  /** The decoder finds exactly the padding that the encoder wrote. */
  lemma EncodedPads(data: seq<byte>)
    requires data != []
    ensures 4 <= |Encoded(data)| && Pads(Encoded(data)) == |Encoded(data)| - Significant(|data|)
    ensures forall k :: 0 <= k < |Encoded(data)| ==> (Encoded(data)[k] == '=' as byte <==> Significant(|data|) <= k)
  {
    forall k | 0 <= k < |Encoded(data)|
      ensures Encoded(data)[k] == '=' as byte <==> Significant(|data|) <= k
    {
      PaddingChar(data, k);
    }
  }

  lemma LetterIsNoPad(data: seq<byte>, k: nat)
    ensures EncodedChar(data, k) == PAD <==> Significant(|data|) <= k
    ensures k < Significant(|data|) ==> InAlphabet(EncodedChar(data, k))
  {
  }

  /** Decoding an encoding gives the bytes back. */
  lemma DecodeEncode(data: seq<byte>)
    requires data != []
    ensures 4 <= |Encoded(data)| && Decoded(Encoded(data)) == data
  {
    Lengths(|data|);
    EncodedPads(data);
    EncodedSextets(data);
    var n := |Encoded(data)|;
    forall k | 0 <= k < |data|
      ensures Decoded(Encoded(data))[k] == data[k]
    {
      RegroupBack(data, 8, 6, n, k);
    }
  }

  // Canonical strings, section 3.5 of RFC 4648

  /** Only zero bits between the last whole byte and the padding. */
  ghost predicate TrailingBitsZero(s: seq<byte>)
    requires 4 <= |s|
  {
    forall i :: 8 * DecodedLength(s) <= i < 6 * (|s| - Pads(s)) ==> !StreamBit(Sextets(s), 6, i)
  }

  ghost predicate Canonical(s: seq<byte>)
    requires 4 <= |s|
  {
    && (forall k :: 0 <= k < |s| - Pads(s) ==> InAlphabet(s[k]))
    && (forall k :: |s| - Pads(s) <= k < |s| ==> s[k] == PAD)
    && TrailingBitsZero(s)
  }

  /** The alphabet, then at most two '=' and nothing behind them. */
  lemma CanonicalChars(s: seq<byte>, k: nat)
    requires 4 <= |s| && Canonical(s) && k < |s|
    ensures InAlphabet(s[k]) || (s[k] == '=' as byte && |s| - 2 <= k)
    ensures s[k] == '=' as byte ==> forall j :: k <= j < |s| ==> s[j] == '=' as byte
  {
  }

  lemma DecodedLengths(s: seq<byte>)
    requires 4 <= |s| && |s| % 4 == 0
    ensures 4 * CeilDiv(DecodedLength(s), 3) == |s| && Significant(DecodedLength(s)) == |s| - Pads(s)
    ensures 8 * DecodedLength(s) <= 6 * (|s| - Pads(s))
  {
  }

  lemma SextetsFit(s: seq<byte>)
    ensures Fits(Sextets(s), 6)
  {
  }

  lemma DecodedBit(s: seq<byte>, i: nat)
    requires 4 <= |s|
    ensures StreamBit(Decoded(s), 8, i) == (i < 8 * DecodedLength(s) && StreamBit(Sextets(s), 6, i))
  {
    RegroupKeepsStream(Sextets(s), 6, 8, DecodedLength(s), i);
  }

  lemma CharAgain(s: seq<byte>, k: nat)
    requires 4 <= |s| && |s| % 4 == 0 && k < |s| - Pads(s) && InAlphabet(s[k])
    ensures EncodedChar(Decoded(s), k) == s[k] <==> Read(Decoded(s), 8, 6 * k, 6) == Value(s[k])
  {
    DecodedLengths(s);
    var x := Read(Decoded(s), 8, 6 * k, 6);
    SextetFits(Decoded(s), k);
    ValueOfLetter(x);
    LetterOfValue(s[k]);
  }

  /** Encoding the decoding of a string gives the string back if and only if it is canonical. */
  lemma EncodeDecode(s: seq<byte>)
    requires 4 <= |s| && |s| % 4 == 0
    ensures Encoded(Decoded(s)) == s <==> Canonical(s)
  {
    if Canonical(s) {
      CanonicalComesBack(s);
    }
    if Encoded(Decoded(s)) == s {
      OnlyCanonicalComesBack(s);
    }
  }

  lemma CanonicalComesBack(s: seq<byte>)
    requires 4 <= |s| && |s| % 4 == 0 && Canonical(s)
    ensures Encoded(Decoded(s)) == s
  {
    DecodedLengths(s);
    SextetsFit(s);
    var d, v := Decoded(s), Sextets(s);
    forall k | 0 <= k < |s|
      ensures EncodedChar(d, k) == s[k]
    {
      if k < |s| - Pads(s) {
        forall i | 6 * k <= i < 6 * k + 6
          ensures StreamBit(d, 8, i) == StreamBit(v, 6, i)
        {
          DecodedBit(s, i);
        }
        SameRead(d, 8, v, 6, 6 * k, 6);
        ReadDigit(v, 6, k);
        CharAgain(s, k);
      }
    }
  }

  lemma OnlyCanonicalComesBack(s: seq<byte>)
    requires 4 <= |s| && |s| % 4 == 0 && Encoded(Decoded(s)) == s
    ensures Canonical(s)
  {
    DecodedLengths(s);
    var d, v := Decoded(s), Sextets(s);
    forall k | 0 <= k < |s|
      ensures s[k] == EncodedChar(d, k)
    {
      assert s[k] == Encoded(d)[k];
    }
    forall k | 0 <= k < |s|
      ensures if k < |s| - Pads(s) then InAlphabet(s[k]) else s[k] == PAD
    {
      LetterIsNoPad(d, k);
    }
    forall i | 8 * DecodedLength(s) <= i < 6 * (|s| - Pads(s))
      ensures !StreamBit(v, 6, i)
    {
      var k := i / 6;
      CharAgain(s, k);
      ReadBitAt(d, 8, 6 * k, 6, i, 5 - i % 6);
      DecodedBit(s, i);
    }
  }
}
