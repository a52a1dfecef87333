/** The username derivation of `registration.c`: a valid account name in lower case, or the base32 form of its SHA-1. */
module Registration {
  import opened Bytes
  import opened Bitstream
  import opened Base32
  import opened Base32Codec
  import opened Base32Laws
  import opened Fips180
  import opened Sha1Context

  const A_TO_M: seq<byte> := [0x41, 0x42, 0x43, 0x44, 0x45, 0x46, 0x47, 0x48, 0x49, 0x4A, 0x4B, 0x4C, 0x4D]
  const N_TO_Z: seq<byte> := [0x4E, 0x4F, 0x50, 0x51, 0x52, 0x53, 0x54, 0x55, 0x56, 0x57, 0x58, 0x59, 0x5A]
  const SMALL_A_TO_M: seq<byte> := [0x61, 0x62, 0x63, 0x64, 0x65, 0x66, 0x67, 0x68, 0x69, 0x6A, 0x6B, 0x6C, 0x6D]
  const SMALL_N_TO_Z: seq<byte> := [0x6E, 0x6F, 0x70, 0x71, 0x72, 0x73, 0x74, 0x75, 0x76, 0x77, 0x78, 0x79, 0x7A]
  const DIGITS_AND_SIGNS: seq<byte> := [0x30, 0x31, 0x32, 0x33, 0x34, 0x35, 0x36, 0x37, 0x38, 0x39, 0x2E, 0x5F, 0x2D]

  /** The match string of `isvalidusername`. */
  const MATCH := A_TO_M + N_TO_Z + SMALL_A_TO_M + SMALL_N_TO_Z + DIGITS_AND_SIGNS

  lemma FirstRowText(s: string)
    requires s == "ABCDEFGHIJKLM"
    ensures Codes(A_TO_M, s)
  {
  }

  lemma SecondRowText(s: string)
    requires s == "NOPQRSTUVWXYZ"
    ensures Codes(N_TO_Z, s)
  {
  }

  lemma ThirdRowText(s: string)
    requires s == "abcdefghijklm"
    ensures Codes(SMALL_A_TO_M, s)
  {
  }

  lemma FourthRowText(s: string)
    requires s == "nopqrstuvwxyz"
    ensures Codes(SMALL_N_TO_Z, s)
  {
  }

  lemma LastRowText(s: string)
    requires s == "0123456789._-"
    ensures Codes(DIGITS_AND_SIGNS, s)
  {
  }

  /** It is the string of the source. */
  lemma MatchText()
    ensures MATCH == Text("ABCDEFGHIJKLM" + "NOPQRSTUVWXYZ" + "abcdefghijklm" + "nopqrstuvwxyz" + "0123456789._-")
  {
    FirstRowText("ABCDEFGHIJKLM");
    SecondRowText("NOPQRSTUVWXYZ");
    ThirdRowText("abcdefghijklm");
    FourthRowText("nopqrstuvwxyz");
    LastRowText("0123456789._-");
    CodesOfFour("ABCDEFGHIJKLM", A_TO_M, "NOPQRSTUVWXYZ", N_TO_Z,
                "abcdefghijklm", SMALL_A_TO_M, "nopqrstuvwxyz", SMALL_N_TO_Z);
    var s := "ABCDEFGHIJKLM" + "NOPQRSTUVWXYZ" + "abcdefghijklm" + "nopqrstuvwxyz";
    var t := A_TO_M + N_TO_Z + SMALL_A_TO_M + SMALL_N_TO_Z;
    CodesOfConcat(s, t, "0123456789._-", DIGITS_AND_SIGNS);
    CodesAreText(s + "0123456789._-", t + DIGITS_AND_SIGNS);
  }

  /** Letters, digits, '.', '_' and '-'. */
  predicate IsNameChar(c: byte) {
    || 0x41 <= c <= 0x5A || 0x61 <= c <= 0x7A || 0x30 <= c <= 0x39
    || c == 0x2E || c == 0x5F || c == 0x2D
  }

  lemma FirstRow(c: byte)
    ensures c in A_TO_M <==> 0x41 <= c <= 0x4D
  {
  }

  lemma SecondRow(c: byte)
    ensures c in N_TO_Z <==> 0x4E <= c <= 0x5A
  {
  }

  lemma ThirdRow(c: byte)
    ensures c in SMALL_A_TO_M <==> 0x61 <= c <= 0x6D
  {
  }

  lemma FourthRow(c: byte)
    ensures c in SMALL_N_TO_Z <==> 0x6E <= c <= 0x7A
  {
  }

  lemma LastRow(c: byte)
    ensures c in DIGITS_AND_SIGNS <==> 0x30 <= c <= 0x39 || c == 0x2E || c == 0x5F || c == 0x2D
  {
  }

  /** The characters that `strchr` finds in it. */
  lemma MatchIs(c: byte)
    ensures c in MATCH <==> IsNameChar(c)
  {
    FirstRow(c);
    SecondRow(c);
    ThirdRow(c);
    FourthRow(c);
    LastRow(c);
  }

  predicate ValidName(s: seq<byte>) {
    forall c :: c in s ==> IsNameChar(c)
  }

  predicate NoUpperCase(s: seq<byte>) {
    forall c :: c in s ==> !(0x41 <= c <= 0x5A)
  }

  /** The username that the account name stands for. */
  function Username(account: seq<byte>): seq<byte> {
    if ValidName(account) then Lower(account) else FullEncoded(Sha1(account))
  }

  /** The length field of a message of `n` bytes fed in one piece. */
  function LongField(target: Target, n: nat): nat {
    (8 * n + target.Surplus(0, n)) % COUNT_MOD
  }

  /** The digest of a name fed in one piece. */
  function LongDigest(target: Target, name: seq<byte>): (d: seq<byte>)
    ensures |d| == 20
  {
    DigestOn(target.build, name, LongField(target, |name|))
  }

  /** What the routine derives from any name. */
  function DerivedName(target: Target, account: seq<byte>): seq<byte> {
    if ValidName(account) then Lower(account) else FullEncoded(LongDigest(target, account))
  }

  lemma LowerChar(c: byte)
    ensures ToLower(ToLower(c)) == ToLower(c) && !(0x41 <= ToLower(c) <= 0x5A)
    ensures IsNameChar(c) ==> IsNameChar(ToLower(c))
    ensures !(0x41 <= c <= 0x5A) ==> ToLower(c) == c
    ensures c != NUL ==> ToLower(c) != NUL
  {
  }

  lemma LetterChar(v: byte)
    requires v < 32
    ensures IsNameChar(Letter(v)) && !(0x41 <= Letter(v) <= 0x5A) && Letter(v) != NUL
  {
  }

  /** A base32 text is a valid lower-case name. */
  lemma EncodedIsName(data: seq<byte>)
    ensures ValidName(FullEncoded(data)) && NoUpperCase(FullEncoded(data)) && NUL !in FullEncoded(data)
  {
    forall k | 0 <= k < |FullEncoded(data)|
      ensures var c := FullEncoded(data)[k]; IsNameChar(c) && !(0x41 <= c <= 0x5A) && c != NUL
    {
      QuintetFits(data, k);
      LetterChar(Read(data, 8, 5 * k, 5));
    }
  }

  lemma LowerIsName(s: seq<byte>)
    requires ValidName(s)
    ensures ValidName(Lower(s)) && NoUpperCase(Lower(s))
  {
  }

  lemma LowerOfLower(s: seq<byte>)
    requires NoUpperCase(s)
    ensures Lower(s) == s
  {
    forall k | 0 <= k < |s|
      ensures ToLower(s[k]) == s[k]
    {
      assert s[k] in s;
      LowerChar(s[k]);
    }
  }

  lemma LongDigestHolds(target: Target, name: seq<byte>)
    requires target.build.Agrees() && target.CarryExact(0, |name|)
    ensures LongDigest(target, name) == Sha1(name)
  {
    DigestOfAgreeing(target.build, name, LengthField(|name|));
    assert LongField(target, |name|) == LengthField(|name|);
  }

  /** The digest is SHA-1 for every name whose bits the carry test counts right, so for every name under 512 MiB, if the
      byte order is right. */
  lemma LongDigestIsSha1(target: Target, name: seq<byte>)
    requires target.build.Agrees()
    ensures target.CarryExact(0, |name|) ==> LongDigest(target, name) == Sha1(name)
    ensures |name| < 0x2000_0000 || !target.wideSize ==> target.CarryExact(0, |name|)
  {
    if target.CarryExact(0, |name|) {
      LongDigestHolds(target, name);
    }
    if |name| < 0x2000_0000 || !target.wideSize {
      ShortPiecesCount(target, 0, |name|);
    }
  }

  /** A target derives the specified username from valid names, and from the others if it computes SHA-1 of them. */
  lemma DerivedIsUsername(target: Target, account: seq<byte>)
    ensures ValidName(account) || (target.build.Agrees() && (|account| < 0x2000_0000 || !target.wideSize)) ==>
              DerivedName(target, account) == Username(account)
  {
    if !ValidName(account) && target.build.Agrees() {
      LongDigestIsSha1(target, account);
    }
  }

  /** A name that is no username is hashed once, and the digest can be read back from the name made of it. */
  lemma UsernameHoldsDigest(target: Target, account: seq<byte>)
    ensures !ValidName(account) ==> Decoded(Username(account), 20) == Sha1(account)
    ensures !ValidName(account) ==> Decoded(DerivedName(target, account), 20) == LongDigest(target, account)
  {
    EncodedHolds(Sha1(account));
    EncodedHolds(LongDigest(target, account));
  }

  lemma EncodedHolds(d: seq<byte>)
    requires |d| == 20
    ensures Decoded(FullEncoded(d), 20) == d
  {
    DecodeEncode(d, 32, 20);
    assert Consumed(20, 32) == 20 && d[..20] == d;
  }

  predicate IsUsername(name: seq<byte>) {
    ValidName(name) && NoUpperCase(name)
  }

  lemma UsernameStays(target: Target, name: seq<byte>)
    requires IsUsername(name)
    ensures DerivedName(target, name) == Username(name) == name
  {
    LowerOfLower(name);
  }

  /** Every derived name is a valid name without upper case, whatever it was derived from and on whatever target; one
      made from a digest has 32 characters. The specified usernames are no exception. */
  lemma UsernameIsValid(target: Target, account: seq<byte>)
    ensures IsUsername(DerivedName(target, account)) && IsUsername(Username(account))
    ensures !ValidName(account) ==> |DerivedName(target, account)| == |Username(account)| == 32
  {
    if ValidName(account) {
      LowerIsName(account);
    } else {
      EncodedIsName(LongDigest(target, account));
      EncodedIsName(Sha1(account));
    }
  }

  /** Deriving again changes nothing, on the same target or another, and the names that the derivation leaves alone are
      the valid ones in lower case. */
  lemma UsernameIsIdempotent(target: Target, again: Target, account: seq<byte>)
    ensures DerivedName(again, DerivedName(target, account)) == DerivedName(target, account)
    ensures Username(Username(account)) == Username(account)
    ensures DerivedName(target, account) == account <==> IsUsername(account)
    ensures Username(account) == account <==> IsUsername(account)
  {
    UsernameIsValid(target, account);
    UsernameStays(again, DerivedName(target, account));
    UsernameStays(again, Username(account));
    if IsUsername(account) {
      UsernameStays(target, account);
    }
  }

  // The routines

  /** `strchr(match, c)`. */
  method StrChr(c: byte) returns (found: bool)
    ensures found <==> IsNameChar(c)
  {
    MatchIs(c);
    found := c in MATCH;
  }

  /** `isvalidusername`. */
  method IsValidUsername(s: array<byte>) returns (valid: bool)
    requires Terminated(s[..])
    ensures valid <==> ValidName(CString(s[..]))
  {
    CStringPrefix(s[..]);
    ghost var t := CString(s[..]);
    var i := 0;
    while s[i] != NUL
      invariant i <= |t| && ValidName(t[..i])
      decreases |t| - i
    {
      assert s[i] == t[i];
      var found := StrChr(s[i]);
      if !found {
        return false;
      }
      i := i + 1;
    }
    assert t[..i] == t;
    return true;
  }

  /** `strlen`. */
  method StrLen(s: array<byte>) returns (n: nat)
    requires Terminated(s[..])
    ensures n == |CString(s[..])| < s.Length && s[..n] == CString(s[..])
  {
    CStringPrefix(s[..]);
    n := 0;
    while s[n] != NUL
      invariant n <= |CString(s[..])|
      decreases |CString(s[..])| - n
    {
      n := n + 1;
    }
  }

  /** `strduptolower`. */
  method StrDupToLower(s: array<byte>) returns (ret: array<byte>)
    requires Terminated(s[..])
    ensures fresh(ret) && Terminated(ret[..]) && CString(ret[..]) == Lower(CString(s[..]))
  {
    var n := StrLen(s);
    ghost var t := CString(s[..]);
    ret := new byte[n + 1];
    CStringPrefix(s[..]);
    var i := 0;
    while s[i] != NUL
      invariant i <= n && s[..n] == t && ret[..i] == Lower(t[..i]) && s[n] == NUL
      invariant forall k :: 0 <= k < n ==> s[k] != NUL
      decreases n - i
    {
      assert s[i] == t[i];
      ret[i] := ToLower(s[i]);
      assert Lower(t[..i + 1]) == Lower(t[..i]) + [ToLower(t[i])];
      i := i + 1;
    }
    ret[i] := NUL;
    assert ret[..][i] == NUL && t[..i] == t;
    NoNulInLower(t);
    CStringIs(ret[..], n);
  }

  lemma NoNulInLower(s: seq<byte>)
    requires NUL !in s
    ensures NUL !in Lower(s)
  {
  }

  /** The digest step of `moz_sync_username_from_accountname`. A long name is overwritten block by block. */
  method DigestOf(target: Target, account: array<byte>, n: nat) returns (digest: array<byte>)
    requires n <= account.Length && n + 63 < target.SizeMod()
    modifies account
    ensures fresh(digest) && digest.Length == 20
    ensures digest[..] == LongDigest(target, old(account[..n]))
    ensures Updated(old(account[..]), account[..], 0, n, 0, LeftOver(target.build, old(account[..n])))
  {
    var context := new ShaCtx(target);
    digest := new byte[20];
    InitAndUpdate(context, account, n);
    context.Final(digest);
  }

  method InitAndUpdate(context: ShaCtx, account: array<byte>, n: nat)
    requires context.state.Length == 5 && context.buffer.Length == 64 && account != context.buffer
    requires n <= account.Length && n + 63 < context.target.SizeMod()
    modifies context, context.state, context.buffer, account
    ensures context.Valid() && context.fed == old(account[..n])
    ensures context.Count() == LongField(context.target, n)
    ensures Updated(old(account[..]), account[..], 0, n, 0, LeftOver(context.target.build, old(account[..n])))
  {
    context.Init();
    assert account[0..n] == account[..n];
    context.Update(account, 0, n);
  }

  /** The base32 step: 80 zeroed bytes, all of them offered to the encoder. */
  method EncodeDigest(digest: array<byte>) returns (username: array<byte>)
    requires digest.Length == 20
    ensures fresh(username) && Terminated(username[..]) && CString(username[..]) == FullEncoded(digest[..])
  {
    username := new byte[80](_ => 0);
    var iout, _ := Encode(username, 80, digest, 20);
    assert digest[..20] == digest[..];
    TruncationIsPrefix(digest[..], 80);
    EncodedIsName(digest[..]);
    assert username[..32] == FullEncoded(digest[..]) && username[..][32] == NUL;
    CStringIs(username[..], 32);
  }

  /** `moz_sync_username_from_accountname`: always a proper username, terminated, and the one specified for valid names
      and for all those whose SHA-1 comes out right. A valid account name is kept; in another, the whole blocks after
      the first are overwritten. */
  method UsernameFromAccount(target: Target, account: array<byte>) returns (username: array<byte>)
    requires Terminated(account[..]) && |CString(account[..])| + 63 < target.SizeMod()
    modifies account
    ensures fresh(username) && Terminated(username[..])
    ensures var name := CString(old(account[..]));
            && CString(username[..]) == DerivedName(target, name)
            && IsUsername(CString(username[..]))
            && (!ValidName(name) ==> Decoded(CString(username[..]), 20) == LongDigest(target, name))
            && (ValidName(name) || (target.build.Agrees() && (|name| < 0x2000_0000 || !target.wideSize)) ==>
                  CString(username[..]) == Username(name))
            && (if ValidName(name) then account[..] == old(account[..])
                else Updated(old(account[..]), account[..], 0, |name|, 0, LeftOver(target.build, name)))
  {
    ghost var name := CString(account[..]);
    DerivedIsUsername(target, name);
    UsernameIsValid(target, name);
    UsernameHoldsDigest(target, name);
    var valid := IsValidUsername(account);
    if valid {
      username := StrDupToLower(account);
      return;
    }
    var n := StrLen(account);
    var digest := DigestOf(target, account, n);
    username := EncodeDigest(digest);
  }

  /** Deriving a username from a username: the same again, and the first one is kept. */
  method UsernameTwice(target: Target, account: array<byte>) returns (username: array<byte>, again: array<byte>)
    requires Terminated(account[..]) && |CString(account[..])| + 63 < target.SizeMod()
    modifies account
    ensures CString(again[..]) == CString(username[..]) == DerivedName(target, CString(old(account[..])))
  {
    ghost var name := CString(account[..]);
    username := UsernameFromAccount(target, account);
    UsernameIsValid(target, name);
    UsernameIsIdempotent(target, target, name);
    again := UsernameFromAccount(target, username);
  }
}
