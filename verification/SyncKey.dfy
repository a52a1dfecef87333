/** The user form of a sync key in `crypto.c`: 26 base32 characters, made friendly and grouped with hyphens. */
module SyncKey {
  import opened Bytes
  import opened Bitstream
  import opened Base32
  import opened Base32Codec
  import opened Base32Laws

  const SYNCKEY_LENGTH := 16
  const BASE32_SYNCKEY_LENGTH := 26
  const ENCODED_SYNCKEY_LENGTH := 31
  const HYPHEN: byte := 0x2D

  datatype Option<T> = None | Some(value: T)

  /** `tofriendly`: lower case, 'l' becomes '8', 'o' becomes '9', '=' ends the string. */
  function ToFriendly(val: byte): byte {
    var c := ToLower(val);
    if c == 0x6C then 0x38 else if c == 0x6F then 0x39 else if c == 0x3D then NUL else c
  }

  /** `fromfriendly`: upper case, '8' becomes 'L', '9' becomes 'O', '-' is dropped. */
  function FromFriendly(val: byte): byte {
    var c := ToUpper(val);
    if c == 0x38 then 0x4C else if c == 0x39 then 0x4F else if c == HYPHEN then NUL else c
  }

  function Friendly(s: seq<byte>): (t: seq<byte>)
    ensures |t| == |s|
  {
    seq(|s|, k requires 0 <= k < |s| => ToFriendly(s[k]))
  }

  function Unfriendly(s: seq<byte>): (t: seq<byte>)
    ensures |t| == |s|
  {
    seq(|s|, k requires 0 <= k < |s| => FromFriendly(s[k]))
  }

  /** Groups of five, each with a hyphen before it. */
  function Hyphenated(s: seq<byte>): seq<byte> {
    if |s| <= 5 then (if s == [] then [] else [HYPHEN] + s)
    else [HYPHEN] + s[..5] + Hyphenated(s[5..])
  }

  /** The string without its hyphens. */
  function Strip(s: seq<byte>): (t: seq<byte>)
    ensures |t| <= |s|
  {
    if s == [] then []
    else
      var rest := Strip(s[..|s| - 1]);
      if s[|s| - 1] == HYPHEN then rest else rest + [s[|s| - 1]]
  }

  /** The user form of a 16-byte key. */
  function KeyText(key: seq<byte>): seq<byte>
    requires |key| == SYNCKEY_LENGTH
  {
    var f := Friendly(FullEncoded(key));
    f[..1] + Hyphenated(f[1..])
  }

  /** What a user's string stands for. */
  function ParsedKey(s: seq<byte>): Option<seq<byte>> {
    var t := Unfriendly(Strip(s));
    if |t| < BASE32_SYNCKEY_LENGTH then None
    else Some(Decoded(t[..BASE32_SYNCKEY_LENGTH], SYNCKEY_LENGTH))
  }

  // About the character maps

  lemma FriendlyRoundTrip(v: byte)
    requires v < 32
    ensures Value(FromFriendly(ToFriendly(Letter(v)))) == v && ToFriendly(Letter(v)) != HYPHEN
  {
  }

  lemma FromFriendlyIgnoresCase(c: byte)
    ensures FromFriendly(ToLower(c)) == FromFriendly(c)
    ensures FromFriendly(c) == NUL <==> c == NUL || c == HYPHEN
    ensures c < 0x80 ==> FromFriendly(c) < 0x80
  {
  }

  /** The user's alphabet: that of base32, with '8' for 'l' and '9' for 'o'. */
  lemma FriendlyLetter(v: byte)
    requires v < 32
    ensures ToFriendly(Letter(v)) == if v == 11 then '8' as byte else if v == 14 then '9' as byte else Letter(v)
  {
  }

  /** Back to upper-case base32; of the others only the hyphen changes, and is dropped. */
  lemma FromFriendlyIs(c: byte)
    ensures c == '8' as byte ==> FromFriendly(c) == 'L' as byte
    ensures c == '9' as byte ==> FromFriendly(c) == 'O' as byte
    ensures FromFriendly(c) == 0 <==> c == 0 || c == '-' as byte
    ensures c != '8' as byte && c != '9' as byte && c != '-' as byte ==> FromFriendly(c) == ToUpper(c)
  {
  }

  // About stripping

  lemma {:induction false} StripOfConcat(s: seq<byte>, t: seq<byte>)
    ensures Strip(s + t) == Strip(s) + Strip(t)
  {
    if t == [] {
      assert s + t == s;
    } else {
      StripOfConcat(s, t[..|t| - 1]);
      assert (s + t)[..|s + t| - 1] == s + t[..|t| - 1];
    }
  }

  lemma {:induction false} StripNothing(s: seq<byte>)
    requires HYPHEN !in s
    ensures Strip(s) == s
  {
    if s == [] {
    } else {
      StripNothing(s[..|s| - 1]);
    }
  }

  lemma {:induction false} StripHyphenated(s: seq<byte>)
    requires HYPHEN !in s
    ensures Strip(Hyphenated(s)) == s
  {
    if s == [] {
    } else {
      var n := if |s| <= 5 then |s| else 5;
      StripNothing(s[..n]);
      StripOfConcat([HYPHEN], s[..n]);
      assert Strip([HYPHEN]) == [];
      if |s| > 5 {
        StripHyphenated(s[5..]);
        StripOfConcat([HYPHEN] + s[..5], Hyphenated(s[5..]));
      } else {
        assert s[..n] == s;
      }
    }
  }

  /** How many characters are not hyphens. */
  function KeyChars(s: seq<byte>): nat {
    if s == [] then 0 else (if s[0] == HYPHEN then 0 else 1) + KeyChars(s[1..])
  }

  lemma {:induction false} StripCount(s: seq<byte>)
    ensures |Strip(s)| == KeyChars(s)
  {
    if s == [] {
    } else {
      StripCount(s[1..]);
      StripOfConcat(s[..1], s[1..]);
      assert s[..1] + s[1..] == s;
      assert s[..1][..0] == [];
    }
  }

  lemma StripPrefix(s: seq<byte>, t: seq<byte>, rest: seq<byte>)
    requires s == t + rest
    ensures Strip(t) <= Strip(s)
  {
    StripOfConcat(t, rest);
  }

  lemma {:induction false} HyphenatedLength(s: seq<byte>)
    ensures |Hyphenated(s)| == |s| + CeilDiv(|s|, 5)
  {
    if |s| <= 5 {
    } else {
      HyphenatedLength(s[5..]);
    }
  }

  /** Group `g` begins with a hyphen, and goes on with the next five characters of the string. */
  lemma {:induction false} HyphenatedAt(s: seq<byte>, g: nat, r: nat)
    requires r < 6 && (if r == 0 then 5 * g < |s| else 5 * g + r <= |s|)
    ensures 6 * g + r < |Hyphenated(s)|
    ensures Hyphenated(s)[6 * g + r] == if r == 0 then '-' as byte else s[5 * g + r - 1]
  {
    if |s| <= 5 {
      assert g == 0 && Hyphenated(s) == [HYPHEN] + s;
    } else if g == 0 {
      assert Hyphenated(s)[..6] == [HYPHEN] + s[..5];
      assert Hyphenated(s)[r] == Hyphenated(s)[..6][r];
    } else {
      HyphenatedAt(s[5..], g - 1, r);
      assert Hyphenated(s)[6 * g + r] == Hyphenated(s[5..])[6 * (g - 1) + r];
    }
  }

  // The laws

  lemma StrippedText(key: seq<byte>)
    requires |key| == SYNCKEY_LENGTH
    ensures Strip(KeyText(key)) == Friendly(FullEncoded(key))
  {
    var e := FullEncoded(key);
    var f := Friendly(e);
    forall k | 0 <= k < |e|
      ensures f[k] != HYPHEN
    {
      QuintetFits(key, k);
      FriendlyRoundTrip(Read(key, 8, 5 * k, 5));
    }
    StripNothing(f[..1]);
    StripHyphenated(f[1..]);
    StripOfConcat(f[..1], Hyphenated(f[1..]));
  }

  /** A key survives being shown to the user and typed back. */
  lemma ParseText(key: seq<byte>)
    requires |key| == SYNCKEY_LENGTH
    ensures ParsedKey(KeyText(key)) == Some(key)
  {
    var e := FullEncoded(key);
    var t := Unfriendly(Friendly(e));
    StrippedText(key);
    forall k | 0 <= k < |e|
      ensures Value(t[k]) == Value(e[k])
    {
      QuintetFits(key, k);
      ValueOfLetter(Read(key, 8, 5 * k, 5));
      FriendlyRoundTrip(Read(key, 8, 5 * k, 5));
    }
    assert t[..26] == t;
    assert Values(t) == Values(e);
    DecodeEncode(key, 26, 16);
    assert key[..16] == key;
  }

  /** Hyphens anywhere and letters in any case make no difference. */
  lemma HyphensAndCaseDoNotMatter(s: seq<byte>, t: seq<byte>)
    requires Lower(Strip(s)) == Lower(Strip(t))
    ensures ParsedKey(s) == ParsedKey(t)
  {
    var a, b := Strip(s), Strip(t);
    assert |Lower(a)| == |Lower(b)|;
    forall k | 0 <= k < |a|
      ensures FromFriendly(a[k]) == FromFriendly(b[k])
    {
      FromFriendlyIgnoresCase(a[k]);
      FromFriendlyIgnoresCase(b[k]);
      assert Lower(a)[k] == Lower(b)[k];
    }
    assert Unfriendly(a) == Unfriendly(b);
  }

  /** So every way of typing a key's text gives the key. */
  lemma ParseTypedText(key: seq<byte>, s: seq<byte>)
    requires |key| == SYNCKEY_LENGTH && Lower(Strip(s)) == Lower(Strip(KeyText(key)))
    ensures ParsedKey(s) == Some(key)
  {
    HyphensAndCaseDoNotMatter(s, KeyText(key));
    ParseText(key);
  }

  /** Parsing succeeds exactly on strings with at least 26 characters that are not hyphens. */
  lemma ParseSucceeds(s: seq<byte>)
    ensures ParsedKey(s).Some? <==> BASE32_SYNCKEY_LENGTH <= KeyChars(s)
  {
    StripCount(s);
  }

  /** Writing a parsed key out and parsing it again changes nothing, whatever was parsed. */
  lemma ParseTextParse(s: seq<byte>)
    requires ParsedKey(s).Some?
    ensures |ParsedKey(s).value| == SYNCKEY_LENGTH && ParsedKey(KeyText(ParsedKey(s).value)) == ParsedKey(s)
  {
    ParseText(ParsedKey(s).value);
  }

  // The routines

  /** The base32 step of `nssync_crypto_synckey_encode`. The buffer has just the 27 bytes that the 26 characters and the
      terminator need, although its whole size is passed as the character limit. */
  method EncodeKey32(key: array<byte>) returns (key32: array<byte>)
    requires key.Length == SYNCKEY_LENGTH
    ensures fresh(key32) && key32.Length == BASE32_SYNCKEY_LENGTH + 1
    ensures key32[..BASE32_SYNCKEY_LENGTH] == FullEncoded(key[..])
  {
    key32 := new byte[BASE32_SYNCKEY_LENGTH + 1];
    var _, _ := Encode(key32, BASE32_SYNCKEY_LENGTH + 1, key, SYNCKEY_LENGTH);
    assert key[..SYNCKEY_LENGTH] == key[..];
    TruncationIsPrefix(key[..], 27);
  }

  /** One pass of the loop of `nssync_crypto_synckey_encode`: a hyphen and five characters. */
  method WriteGroup(genkey: array<byte>, keyidx: nat, key32: array<byte>, key32idx: nat)
    requires genkey != key32 && keyidx + 6 <= genkey.Length && key32idx + 5 <= key32.Length
    modifies genkey
    ensures genkey[..keyidx + 6] == old(genkey[..keyidx]) + [HYPHEN] + Friendly(key32[key32idx..key32idx + 5])
  {
    ghost var head, group := genkey[..keyidx], key32[key32idx..key32idx + 5];
    ghost var f := Friendly(group);
    genkey[keyidx] := HYPHEN;
    var idx := 0;
    while idx < 5
      invariant idx <= 5 && key32[key32idx..key32idx + 5] == group
      invariant genkey[..keyidx + 1 + idx] == head + [HYPHEN] + f[..idx]
    {
      assert key32[key32idx + idx] == group[idx];
      genkey[keyidx + 1 + idx] := ToFriendly(key32[key32idx + idx]);
      assert f[..idx + 1] == f[..idx] + [ToFriendly(group[idx])];
      idx := idx + 1;
    }
  }

  /** The same pass, as a step through the text: what is written and what is still to come stay the same together. */
  method WriteNext(genkey: array<byte>, keyidx: nat, key32: array<byte>, key32idx: nat, ghost e: seq<byte>)
    requires genkey != key32 && keyidx + 6 <= genkey.Length && key32idx + 5 <= BASE32_SYNCKEY_LENGTH <= key32.Length
    requires e == key32[..BASE32_SYNCKEY_LENGTH]
    modifies genkey
    ensures genkey[..keyidx + 6] + Hyphenated(Friendly(e)[key32idx + 5..])
            == old(genkey[..keyidx]) + Hyphenated(Friendly(e)[key32idx..])
  {
    ghost var head := genkey[..keyidx];
    NextGroup(key32[..], head, key32idx);
    WriteGroup(genkey, keyidx, key32, key32idx);
  }

  /** The loop of `nssync_crypto_synckey_encode`. */
  method WriteGroups(genkey: array<byte>, key32: array<byte>, ghost e: seq<byte>, ghost text: seq<byte>)
    requires genkey != key32 && genkey.Length == ENCODED_SYNCKEY_LENGTH + 1 && BASE32_SYNCKEY_LENGTH <= key32.Length
    requires e == key32[..BASE32_SYNCKEY_LENGTH] && text == genkey[..1] + Hyphenated(Friendly(e)[1..])
    modifies genkey
    ensures genkey[..ENCODED_SYNCKEY_LENGTH] == text
  {
    ghost var f := Friendly(e);
    var keyidx, key32idx := 1, 1;
    while keyidx < ENCODED_SYNCKEY_LENGTH
      invariant keyidx <= ENCODED_SYNCKEY_LENGTH && 5 * (keyidx - 1) == 6 * (key32idx - 1)
      invariant key32[..BASE32_SYNCKEY_LENGTH] == e && genkey[..keyidx] + Hyphenated(f[key32idx..]) == text
    {
      WriteNext(genkey, keyidx, key32, key32idx, e);
      keyidx, key32idx := keyidx + 6, key32idx + 5;
    }
    assert f[key32idx..] == [];
  }

  lemma SliceOfPrefix(s: seq<byte>, n: nat, i: nat, j: nat)
    requires i <= j <= n <= |s|
    ensures s[..n][i..j] == s[i..j]
  {
    forall k | 0 <= k < j - i
      ensures s[..n][i..j][k] == s[i..j][k]
    {
      assert s[..n][i..j][k] == s[..n][i + k] == s[i + k];
    }
  }

  lemma NextGroup(key32: seq<byte>, head: seq<byte>, i: nat)
    requires i + 5 <= BASE32_SYNCKEY_LENGTH <= |key32|
    ensures var f := Friendly(key32[..BASE32_SYNCKEY_LENGTH]);
            head + Hyphenated(f[i..]) == head + [HYPHEN] + Friendly(key32[i..i + 5]) + Hyphenated(f[i + 5..])
  {
    var e, group := key32[..BASE32_SYNCKEY_LENGTH], key32[i..i + 5];
    SliceOfPrefix(key32, BASE32_SYNCKEY_LENGTH, i, i + 5);
    GroupOf(e, group, i);
    Reassociate(head, [HYPHEN], Friendly(group), Hyphenated(Friendly(e)[i + 5..]));
  }

  lemma Reassociate(a: seq<byte>, b: seq<byte>, c: seq<byte>, d: seq<byte>)
    ensures a + (b + c + d) == a + b + c + d
  {
  }

  /** `nssync_crypto_synckey_encode`. */
  method EncodeKey(key: array<byte>) returns (genkey: array<byte>)
    requires key.Length == SYNCKEY_LENGTH
    ensures fresh(genkey) && genkey[..] == KeyText(key[..]) + [0]
  {
    var key32 := EncodeKey32(key);
    genkey := new byte[ENCODED_SYNCKEY_LENGTH + 1];
    genkey[0] := ToFriendly(key32[0]);
    ghost var e := FullEncoded(key[..]);
    assert key32[0] == e[0];
    assert genkey[..1] == Friendly(e)[..1];
    WriteGroups(genkey, key32, e, KeyText(key[..]));
    genkey[ENCODED_SYNCKEY_LENGTH] := NUL;
    assert genkey[..] == genkey[..ENCODED_SYNCKEY_LENGTH] + [NUL];
  }

  lemma GroupOf(e: seq<byte>, group: seq<byte>, i: nat)
    requires i + 5 <= |e| && group == e[i..i + 5]
    ensures var f := Friendly(e);
            Hyphenated(f[i..]) == [HYPHEN] + Friendly(group) + Hyphenated(f[i + 5..])
  {
    var rest := Friendly(e)[i..];
    assert rest[..5] == Friendly(group) && rest[5..] == Friendly(e)[i + 5..];
    if |rest| == 5 {
      assert rest[..5] == rest && rest[5..] == [];
    }
  }

  /** What `base32_decode` sees of the characters collected and the NUL behind them. */
  lemma KeyIsText(key32: seq<byte>, n: nat)
    requires n <= BASE32_SYNCKEY_LENGTH < |key32| && DecoderInput(key32[..n]) && key32[n] == NUL
    ensures TextOf(key32, BASE32_SYNCKEY_LENGTH) == key32[..n]
    ensures forall c :: c in TextOf(key32, BASE32_SYNCKEY_LENGTH) ==> c < 0x80
  {
    assert key32[..BASE32_SYNCKEY_LENGTH][..n] == key32[..n];
    CStringIs(key32[..BASE32_SYNCKEY_LENGTH], n);
  }

  /** `nssync_crypto_synckey_decode`; no key is returned where the source returns -2. */
  method DecodeKey(table: ReverseTable, key: array<byte>) returns (synckey: array?<byte>)
    requires table.Valid() && Terminated(key[..]) && key != table.rev32
    requires forall c :: c in CString(key[..]) ==> c < 0x80
    modifies table, table.rev32
    ensures table.Valid()
    ensures synckey != null <==> ParsedKey(CString(key[..])).Some?
    ensures synckey != null ==> fresh(synckey) && synckey[..] == ParsedKey(CString(key[..])).value
  {
    var buf := new byte[SYNCKEY_LENGTH];
    var key32 := new byte[BASE32_SYNCKEY_LENGTH + 1];
    var key32idx := ReadKey32(key, key32);
    key32[key32idx] := NUL;
    ghost var s := CString(key[..]);
    ghost var t := Unfriendly(Strip(s));
    KeyIsText(key32[..], key32idx);
    var ret := table.Decode(buf, SYNCKEY_LENGTH, key32, BASE32_SYNCKEY_LENGTH);
    if ret != SYNCKEY_LENGTH {
      return null;
    }
    assert buf[..16] == buf[..];
    return buf;
  }

  /** The loop of `nssync_crypto_synckey_decode`: the first 26 characters that are not hyphens. */
  method ReadKey32(key: array<byte>, key32: array<byte>) returns (key32idx: nat)
    requires key32.Length == BASE32_SYNCKEY_LENGTH + 1 && key != key32 && Terminated(key[..])
    requires forall c :: c in CString(key[..]) ==> c < 0x80
    modifies key32
    ensures var t := Unfriendly(Strip(CString(key[..])));
            key32idx == Min(BASE32_SYNCKEY_LENGTH, |t|) && key32[..key32idx] == t[..key32idx]
    ensures DecoderInput(key32[..key32idx])
  {
    ghost var s := CString(key[..]);
    CStringPrefix(key[..]);
    key32idx := 0;
    var keyidx := 0;
    while key32idx < BASE32_SYNCKEY_LENGTH && key[keyidx] != NUL
      invariant keyidx <= |s| && key32idx <= BASE32_SYNCKEY_LENGTH
      invariant key32[..key32idx] == Unfriendly(Strip(s[..keyidx]))
      invariant DecoderInput(key32[..key32idx])
      decreases |s| - keyidx
    {
      assert s[keyidx] == key[keyidx] && s[keyidx] in s;
      KeyCharStep(s, keyidx);
      key32idx := PutKeyChar(key32, key32idx, FromFriendly(key[keyidx]));
      keyidx := keyidx + 1;
    }
    ReadEnough(s, keyidx, key32[..key32idx]);
  }

  /** What has been read when there is enough of it, or nothing is left. */
  lemma ReadEnough(s: seq<byte>, k: nat, t: seq<byte>)
    requires k <= |s| && t == Unfriendly(Strip(s[..k]))
    requires |t| == BASE32_SYNCKEY_LENGTH || (|t| < BASE32_SYNCKEY_LENGTH && k == |s|)
    ensures var u := Unfriendly(Strip(s));
            |t| == Min(BASE32_SYNCKEY_LENGTH, |u|) && t == u[..|t|]
  {
    if k == |s| {
      assert s[..k] == s;
    } else {
      StripPrefix(s, s[..k], s[k..]);
    }
  }

  /** Store a character, and keep it unless it is NUL. */
  method PutKeyChar(key32: array<byte>, i: nat, c: byte) returns (next: nat)
    requires i < key32.Length && DecoderInput(key32[..i]) && c < 0x80
    modifies key32
    ensures next == (if c == NUL then i else i + 1) && DecoderInput(key32[..next])
    ensures key32[..next] == if c == NUL then old(key32[..i]) else old(key32[..i]) + [c]
  {
    key32[i] := c;
    next := if c == NUL then i else i + 1;
  }

  /** Characters that `base32_decode` may be given. */
  predicate DecoderInput(t: seq<byte>) {
    forall k :: 0 <= k < |t| ==> t[k] != NUL && t[k] < 0x80
  }

  lemma KeyCharStep(s: seq<byte>, k: nat)
    requires k < |s| && s[k] != NUL && s[k] < 0x80
    ensures var t, c := Unfriendly(Strip(s[..k])), FromFriendly(s[k]);
            c < 0x80 && Unfriendly(Strip(s[..k + 1])) == if c == NUL then t else t + [c]
  {
    FromFriendlyIgnoresCase(s[k]);
    assert s[..k + 1][..k] == s[..k];
  }
}
