/** The key and the text of `test/synckey.c`. */
module SyncKeyExample {
  import opened Bytes
  import opened Bitstream
  import opened Base32
  import opened Base32Laws
  import opened SyncKey

  const KEY_0: seq<byte> := [0xc7, 0x1a, 0xa7, 0xcb, 0xd8]
  const KEY_1: seq<byte> := [0xb8, 0x2a, 0x8f, 0xf6, 0xed]
  const KEY_2: seq<byte> := [0xa5, 0x5c, 0x39, 0x47, 0x9f]
  const KEY_3: seq<byte> := [0xd2]

  /** `orig_synckey`. */
  const KEY := KEY_0 + KEY_1 + KEY_2 + KEY_3

  /** The character in place `p` of a group of eight, and zero behind the group. */
  function Char(p: nat, x: byte, y: byte): byte {
    if p < 8 then QuintetIsSmall(p, x, y); ToFriendly(Letter(Quintet(p, x, y))) else 0
  }

  type Place = (nat, byte, byte) -> byte

  /** The eight characters for five bytes. */
  function Eight(at: Place, b: seq<byte>): (t: seq<byte>)
    requires |b| == 5
    ensures |t| == 8
  {
    [at(0, b[0], b[1]), at(1, b[0], b[1]), at(2, b[1], b[2]), at(3, b[1], b[2]),
     at(4, b[2], b[3]), at(5, b[3], b[4]), at(6, b[3], b[4]), at(7, b[4], b[4])]
  }

  /** A character is made from the byte it starts in and the next; the last one ends with its first byte. */
  lemma EightAt(at: Place, b: seq<byte>, p: nat, i: nat)
    requires |b| == 5 && p < 8 && i == 5 * p / 8
    ensures i < 5 && (p == 7 || i < 4) && Eight(at, b)[p] == at(p, b[i], if p == 7 then b[i] else b[i + 1])
  {
    assert p == 0 || p == 1 || p == 2 || p == 3 || p == 4 || p == 5 || p == 6 || p == 7;
  }

  lemma QuintetIsSmall(p: nat, x: byte, y: byte)
    requires p < 8
    ensures Quintet(p, x, y) < 32
  {
  }

  lemma FirstChars(b: seq<byte>, t: string)
    requires b == KEY_0 && t == "y4nkps6y"
    ensures Codes(Eight(Char, b), t)
  {
  }

  lemma SecondChars(b: seq<byte>, t: string)
    requires b == KEY_1 && t == "xavi75xn"
    ensures Codes(Eight(Char, b), t)
  {
  }

  lemma ThirdChars(b: seq<byte>, t: string)
    requires b == KEY_2 && t == "uv9dsr47"
    ensures Codes(Eight(Char, b), t)
  {
  }

  lemma LastChars(t: string)
    requires t == "2i"
    ensures Codes([Char(0, 0xd2, 0), Char(1, 0xd2, 0)], t)
  {
  }

  lemma CharAt(s: seq<byte>, g: nat, p: nat, x: byte, y: byte)
    requires p < 8 && 8 * g + p < |FullEncoded(s)|
    requires x == At(s, 5 * g + 5 * p / 8) && (p == 7 || y == At(s, 5 * g + 5 * p / 8 + 1))
    ensures Friendly(FullEncoded(s))[8 * g + p] == Char(p, x, y)
  {
    CharIs(s, g, p, 5 * g + 5 * p / 8, x, At(s, 5 * g + 5 * p / 8 + 1));
  }

  /** `f` has the characters of group `g` of the bytes `s`. */
  ghost predicate Placed(at: Place, f: seq<byte>, s: seq<byte>, g: nat)
    requires 8 * g + 8 <= |f|
  {
    forall p, x, y | 0 <= p < 8 && Supplies(s, 5 * g, p, x, y) :: at(p, x, y) == f[8 * g + p]
  }

  /** Character `p` of a group that begins at byte `n` is made from `x` and `y`; the last one is made from `x` alone. */
  predicate Supplies(s: seq<byte>, n: nat, p: nat, x: byte, y: byte) {
    x == At(s, n + 5 * p / 8) && (p == 7 || y == At(s, n + 5 * p / 8 + 1))
  }

  lemma CharsPlaced(s: seq<byte>, g: nat)
    requires 8 * g + 8 <= |FullEncoded(s)|
    ensures Placed(Char, Friendly(FullEncoded(s)), s, g)
  {
    forall p, x, y | 0 <= p < 8 && Supplies(s, 5 * g, p, x, y)
      ensures Char(p, x, y) == Friendly(FullEncoded(s))[8 * g + p]
    {
      CharAt(s, g, p, x, y);
    }
  }

  lemma ByteAt(s: seq<byte>, n: nat, b: seq<byte>, i: nat)
    requires n + |b| <= |s| && s[n..n + |b|] == b && i < |b|
    ensures At(s, n + i) == b[i]
  {
  }

  lemma GroupChar(at: Place, f: seq<byte>, s: seq<byte>, g: nat, b: seq<byte>, p: nat, i: nat)
    requires 8 * g + 8 <= |f| && Placed(at, f, s, g)
    requires |b| == 5 && 5 * g + 5 <= |s| && s[5 * g..5 * g + 5] == b && p < 8 && i == 5 * p / 8
    ensures f[8 * g + p] == Eight(at, b)[p]
  {
    EightAt(at, b, p, i);
    ByteAt(s, 5 * g, b, i);
    if p < 7 {
      ByteAt(s, 5 * g, b, i + 1);
    }
    assert Supplies(s, 5 * g, p, b[i], if p == 7 then b[i] else b[i + 1]);
  }

  /** The characters of five bytes, in place. */
  lemma GroupCode(at: Place, f: seq<byte>, s: seq<byte>, g: nat, b: seq<byte>, t: string)
    requires 8 * g + 8 <= |f| && Placed(at, f, s, g)
    requires |b| == 5 && 5 * g + 5 <= |s| && s[5 * g..5 * g + 5] == b && Codes(Eight(at, b), t)
    ensures Codes(f[8 * g..8 * g + 8], t)
  {
    forall p | 0 <= p < 8
      ensures f[8 * g + p] == Eight(at, b)[p]
    {
      GroupChar(at, f, s, g, b, p, 5 * p / 8);
    }
  }

  lemma LastCode(s: seq<byte>, t: string)
    requires |s| == 16 && s[15] == 0xd2 && t == "2i"
    ensures |FullEncoded(s)| == 26 && Codes(Friendly(FullEncoded(s))[24..26], t)
  {
    CharAt(s, 3, 0, 0xd2, 0);
    CharAt(s, 3, 1, 0xd2, 0);
    LastChars(t);
  }

  lemma Slices(s: seq<byte>, b0: seq<byte>, b1: seq<byte>, b2: seq<byte>, b3: seq<byte>)
    requires |b0| == |b1| == |b2| == 5 && |b3| == 1 && s == b0 + b1 + b2 + b3
    ensures |s| == 16 && s[0..5] == b0 && s[5..10] == b1 && s[10..15] == b2 && s[15] == b3[0]
  {
  }

  lemma Pieces(f: seq<byte>)
    requires |f| == 26
    ensures f == f[0..8] + f[8..16] + f[16..24] + f[24..26]
  {
  }

  lemma FirstCode(s: seq<byte>, t: string)
    requires |s| == 16 && s[0..5] == KEY_0 && t == "y4nkps6y"
    ensures |FullEncoded(s)| == 26 && Codes(Friendly(FullEncoded(s))[0..8], t)
  {
    FirstChars(KEY_0, t);
    CharsPlaced(s, 0);
    GroupCode(Char, Friendly(FullEncoded(s)), s, 0, KEY_0, t);
  }

  lemma SecondCode(s: seq<byte>, t: string)
    requires |s| == 16 && s[5..10] == KEY_1 && t == "xavi75xn"
    ensures |FullEncoded(s)| == 26 && Codes(Friendly(FullEncoded(s))[8..16], t)
  {
    SecondChars(KEY_1, t);
    CharsPlaced(s, 1);
    GroupCode(Char, Friendly(FullEncoded(s)), s, 1, KEY_1, t);
  }

  lemma ThirdCode(s: seq<byte>, t: string)
    requires |s| == 16 && s[10..15] == KEY_2 && t == "uv9dsr47"
    ensures |FullEncoded(s)| == 26 && Codes(Friendly(FullEncoded(s))[16..24], t)
  {
    ThirdChars(KEY_2, t);
    CharsPlaced(s, 2);
    GroupCode(Char, Friendly(FullEncoded(s)), s, 2, KEY_2, t);
  }

  lemma CharsCode(f: seq<byte>)
    requires f == Friendly(FullEncoded(KEY))
    ensures Codes(f, "y4nkps6y" + "xavi75xn" + "uv9dsr47" + "2i")
  {
    Slices(KEY, KEY_0, KEY_1, KEY_2, KEY_3);
    FirstCode(KEY, "y4nkps6y");
    SecondCode(KEY, "xavi75xn");
    ThirdCode(KEY, "uv9dsr47");
    LastCode(KEY, "2i");
    Pieces(f);
    CodesOfFour("y4nkps6y", f[0..8], "xavi75xn", f[8..16], "uv9dsr47", f[16..24], "2i", f[24..26]);
  }

  /** The same characters, cut into groups of five behind the first. */
  lemma Regrouped(s: string)
    requires s == "y4nkps6y" + "xavi75xn" + "uv9dsr47" + "2i"
    ensures |s| == 26 && s[0..1] == "y" && s[1..6] == "4nkps" && s[6..11] == "6yxav" && s[11..16] == "i75xn"
    ensures s[16..21] == "uv9ds" && s[21..26] == "r472i"
  {
  }

  function Group(f: seq<byte>, i: nat): seq<byte>
    requires i + 5 <= |f|
  {
    [HYPHEN] + f[i..i + 5]
  }

  lemma HyphensFrom(f: seq<byte>, i: nat)
    requires i + 5 <= |f|
    ensures Hyphenated(f[i..]) == Group(f, i) + Hyphenated(f[i + 5..])
  {
    var rest := f[i..];
    assert rest[..5] == f[i..i + 5] && rest[5..] == f[i + 5..];
    if |rest| == 5 {
      assert rest == rest[..5] && rest[5..] == [];
    }
  }

  /** Twenty-five characters make five groups. */
  lemma FiveGroups(f: seq<byte>)
    requires |f| == 26
    ensures f[..1] + Hyphenated(f[1..])
            == f[..1] + Group(f, 1) + Group(f, 6) + Group(f, 11) + Group(f, 16) + Group(f, 21)
  {
    LastTwoGroups(f);
    FirstThreeGroups(f);
    Reassociated(f[..1], Group(f, 1), Group(f, 6), Group(f, 11), Group(f, 16), Group(f, 21));
  }

  lemma FirstThreeGroups(f: seq<byte>)
    requires |f| == 26
    ensures Hyphenated(f[1..]) == Group(f, 1) + (Group(f, 6) + (Group(f, 11) + Hyphenated(f[16..])))
  {
    HyphensFrom(f, 1);
    HyphensFrom(f, 6);
    HyphensFrom(f, 11);
  }

  lemma LastTwoGroups(f: seq<byte>)
    requires |f| == 26
    ensures Hyphenated(f[16..]) == Group(f, 16) + Group(f, 21)
  {
    HyphensFrom(f, 16);
    HyphensFrom(f, 21);
    assert Hyphenated(f[26..]) == [];
  }

  lemma Reassociated(a: seq<byte>, b: seq<byte>, c: seq<byte>, d: seq<byte>, e: seq<byte>, f: seq<byte>)
    ensures a + (b + (c + (d + (e + f)))) == a + b + c + d + e + f
  {
  }

  lemma GroupCodes(f: seq<byte>, s: string, i: nat, g: string, h: string)
    requires Codes(f, s) && i + 5 <= |s| && s[i..i + 5] == g && h == "-" + g
    ensures Codes(Group(f, i), h)
  {
    HyphenCode("-");
    SliceCodes(f, s, i, i + 5);
    CodesOfConcat("-", [HYPHEN], g, f[i..i + 5]);
  }

  lemma HyphenCode(s: string)
    requires s == "-"
    ensures Codes([HYPHEN], s)
  {
  }

  lemma SliceCodes(f: seq<byte>, s: string, i: nat, j: nat)
    requires Codes(f, s) && i <= j <= |s|
    ensures Codes(f[i..j], s[i..j])
  {
  }

  lemma GroupsCode(f: seq<byte>, s: string)
    requires Codes(f, s) && s == "y4nkps6y" + "xavi75xn" + "uv9dsr47" + "2i"
    ensures |f| == 26
    ensures Codes(f[..1] + Group(f, 1) + Group(f, 6) + Group(f, 11) + Group(f, 16) + Group(f, 21),
                  "y" + "-4nkps" + "-6yxav" + "-i75xn" + "-uv9ds" + "-r472i")
  {
    Regrouped(s);
    SliceCodes(f, s, 0, 1);
    GroupCodes(f, s, 1, "4nkps", "-4nkps");
    GroupCodes(f, s, 6, "6yxav", "-6yxav");
    GroupCodes(f, s, 11, "i75xn", "-i75xn");
    GroupCodes(f, s, 16, "uv9ds", "-uv9ds");
    GroupCodes(f, s, 21, "r472i", "-r472i");
    CodesOfFour("y", f[..1], "-4nkps", Group(f, 1), "-6yxav", Group(f, 6), "-i75xn", Group(f, 11));
    CodesOfConcat("y" + "-4nkps" + "-6yxav" + "-i75xn", f[..1] + Group(f, 1) + Group(f, 6) + Group(f, 11),
                  "-uv9ds", Group(f, 16));
    CodesOfConcat("y" + "-4nkps" + "-6yxav" + "-i75xn" + "-uv9ds",
                  f[..1] + Group(f, 1) + Group(f, 6) + Group(f, 11) + Group(f, 16), "-r472i", Group(f, 21));
  }

  /** The key prints as the text of the test. */
  lemma KeyPrintsAs()
    ensures KeyText(KEY) == Text("y" + "-4nkps" + "-6yxav" + "-i75xn" + "-uv9ds" + "-r472i")
  {
    var f := Friendly(FullEncoded(KEY));
    CharsCode(f);
    GroupsCode(f, "y4nkps6y" + "xavi75xn" + "uv9dsr47" + "2i");
    FiveGroups(f);
    CodesAreText("y" + "-4nkps" + "-6yxav" + "-i75xn" + "-uv9ds" + "-r472i",
                 f[..1] + Group(f, 1) + Group(f, 6) + Group(f, 11) + Group(f, 16) + Group(f, 21));
  }

  /** And the text is read as the key. */
  lemma TextParsesAs()
    ensures ParsedKey(Text("y" + "-4nkps" + "-6yxav" + "-i75xn" + "-uv9ds" + "-r472i")) == Some(KEY)
  {
    KeyPrintsAs();
    ParseText(KEY);
  }
}
