/** Bytes and the few libc operations the library uses on them. Both `uint8_t` and `char` buffers are arrays of `byte`;
    a C pointer into a buffer is an array together with a start index. */
module Bytes {
  type byte = bv8

  const NUL: byte := 0

  function Min(x: int, y: int): int {
    if x < y then x else y
  }

  function CeilDiv(x: int, y: int): int
    requires 0 < y
  {
    (x + y - 1) / y
  }

  /** Different bytes index different table entries. */
  lemma Injective(c: byte, d: byte)
    ensures c as int == d as int ==> c == d
  {
  }

  /** `tolower` and `toupper` in the C locale. */
  function ToLower(c: byte): byte {
    if 0x41 <= c <= 0x5A then c + 0x20 else c
  }

  function ToUpper(c: byte): byte {
    if 0x61 <= c <= 0x7A then c - 0x20 else c
  }

  lemma LowerLetters(c: byte)
    ensures ToLower(c) == if 'A' as byte <= c <= 'Z' as byte then c - 'A' as byte + 'a' as byte else c
    ensures ToUpper(c) == if 'a' as byte <= c <= 'z' as byte then c - 'a' as byte + 'A' as byte else c
  {
  }

  /** The bytes of a string literal. */
  function Text(s: string): (t: seq<byte>)
    ensures |t| == |s|
  {
    seq(|s|, k requires 0 <= k < |s| => if s[k] < 128 as char then s[k] as byte else NUL)
  }

  /** `t` has the codes of the characters of `s`. */
  predicate Codes(t: seq<byte>, s: string) {
    |t| == |s| && forall k :: 0 <= k < |s| ==> t[k] as int == s[k] as int < 128
  }

  lemma CodesOfConcat(s: string, t: seq<byte>, s': string, t': seq<byte>)
    requires Codes(t, s) && Codes(t', s')
    ensures Codes(t + t', s + s')
  {
  }

  lemma CodesOfFour(s0: string, t0: seq<byte>, s1: string, t1: seq<byte>, s2: string, t2: seq<byte>,
                    s3: string, t3: seq<byte>)
    requires Codes(t0, s0) && Codes(t1, s1) && Codes(t2, s2) && Codes(t3, s3)
    ensures Codes(t0 + t1 + t2 + t3, s0 + s1 + s2 + s3)
  {
    CodesOfConcat(s0, t0, s1, t1);
    CodesOfConcat(s0 + s1, t0 + t1, s2, t2);
    CodesOfConcat(s0 + s1 + s2, t0 + t1 + t2, s3, t3);
  }

  lemma CodeIs(c: char, b: byte)
    requires b as int == c as int < 128
    ensures c < 128 as char && c as byte == b
  {
  }

  lemma CodesAreText(s: string, t: seq<byte>)
    requires Codes(t, s)
    ensures t == Text(s)
  {
    forall k | 0 <= k < |s|
      ensures t[k] == Text(s)[k]
    {
      CodeIs(s[k], t[k]);
    }
  }

  /** What a C string function sees: everything before the first NUL. */
  function CString(s: seq<byte>): seq<byte> {
    if s == [] || s[0] == NUL then [] else [s[0]] + CString(s[1..])
  }

  /** `s` is a C string: it has a terminator. */
  predicate Terminated(s: seq<byte>) {
    exists k :: 0 <= k < |s| && s[k] == NUL
  }

  /** `CString` is exactly the longest NUL-free prefix. */
  lemma {:induction false} CStringIs(s: seq<byte>, n: nat)
    requires n <= |s|
    requires forall k :: 0 <= k < n ==> s[k] != NUL
    requires n == |s| || s[n] == NUL
    ensures CString(s) == s[..n]
  {
    if n == 0 {
    } else {
      CStringIs(s[1..], n - 1);
      assert s[..n] == [s[0]] + s[1..][..n - 1];
    }
  }

  lemma {:induction false} CStringPrefix(s: seq<byte>)
    ensures |CString(s)| <= |s| && CString(s) == s[..|CString(s)|]
    ensures forall k :: 0 <= k < |CString(s)| ==> s[k] != NUL
    ensures |CString(s)| < |s| ==> s[|CString(s)|] == NUL
  {
    if s == [] || s[0] == NUL {
    } else {
      CStringPrefix(s[1..]);
      var n := |CString(s[1..])|;
      assert forall k :: 1 <= k < n + 1 ==> s[k] == s[1..][k - 1];
    }
  }

  /** `memcpy` between two different arrays. */
  method MemCpy(dst: array<byte>, d: nat, src: array<byte>, s: nat, n: nat)
    requires dst != src
    requires d + n <= dst.Length && s + n <= src.Length
    modifies dst
    ensures dst[..d + n] == old(dst[..d]) + src[s..s + n]
    ensures dst[d + n..] == old(dst[d + n..])
  {
    forall k | 0 <= k < n {
      dst[d + k] := src[s + k];
    }
  }
}
