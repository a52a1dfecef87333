/** The derivation of a key bundle from a sync key in `crypto.c`, over any HMAC. */
module KeyBundle {
  import opened Bytes
  import opened Base32Codec
  import opened SyncKey

  const DIGEST_LENGTH := 32
  const BUFFER_LENGTH := 128

  /** `HMAC(EVP_sha256(), key, data)` as a function of its key and data. */
  type Hmac = (seq<byte>, seq<byte>) -> seq<byte>

  ghost predicate IsHmac(hmac: Hmac) {
    forall key, data :: |hmac(key, data)| == DIGEST_LENGTH
  }

  // HKDF-Expand, section 2.3 of RFC 5869

  function T(hmac: Hmac, prk: seq<byte>, info: seq<byte>, n: nat): seq<byte> {
    if n == 0 then [] else hmac(prk, T(hmac, prk, info, n - 1) + info + [(n % 256) as byte])
  }

  function Ts(hmac: Hmac, prk: seq<byte>, info: seq<byte>, n: nat): seq<byte> {
    if n == 0 then [] else Ts(hmac, prk, info, n - 1) + T(hmac, prk, info, n)
  }

  function Take(s: seq<byte>, n: nat): seq<byte> {
    if n <= |s| then s[..n] else s
  }

  function HkdfExpand(hmac: Hmac, prk: seq<byte>, info: seq<byte>, length: nat): seq<byte> {
    Take(Ts(hmac, prk, info, CeilDiv(length, DIGEST_LENGTH)), length)
  }

  // The derivation

  const LABEL_0: seq<byte> := [0x53, 0x79, 0x6E, 0x63, 0x2D, 0x41]
  const LABEL_1: seq<byte> := [0x45, 0x53, 0x5F, 0x32, 0x35, 0x36]
  const LABEL_2: seq<byte> := [0x5F, 0x43, 0x42, 0x43, 0x2D, 0x48]
  const LABEL_3: seq<byte> := [0x4D, 0x41, 0x43, 0x32, 0x35, 0x36]

  /** `hmac_input`. */
  const HMAC_INPUT := LABEL_0 + LABEL_1 + LABEL_2 + LABEL_3

  lemma FirstPart(s: string)
    requires s == "Sync-A"
    ensures Codes(LABEL_0, s)
  {
  }

  lemma SecondPart(s: string)
    requires s == "ES_256"
    ensures Codes(LABEL_1, s)
  {
  }

  lemma ThirdPart(s: string)
    requires s == "_CBC-H"
    ensures Codes(LABEL_2, s)
  {
  }

  lemma LastPart(s: string)
    requires s == "MAC256"
    ensures Codes(LABEL_3, s)
  {
  }

  /** The label is the text of the source. */
  lemma LabelText()
    ensures HMAC_INPUT == Text("Sync-A" + "ES_256" + "_CBC-H" + "MAC256")
  {
    FirstPart("Sync-A");
    SecondPart("ES_256");
    ThirdPart("_CBC-H");
    LastPart("MAC256");
    CodesOfFour("Sync-A", LABEL_0, "ES_256", LABEL_1, "_CBC-H", LABEL_2, "MAC256", LABEL_3);
    CodesAreText("Sync-A" + "ES_256" + "_CBC-H" + "MAC256", LABEL_0 + LABEL_1 + LABEL_2 + LABEL_3);
  }

  /** The HKDF info of a name. */
  function Info(name: seq<byte>): seq<byte> {
    Text("Sync-A" + "ES_256" + "_CBC-H" + "MAC256") + name
  }

  lemma InfoIs(name: seq<byte>)
    ensures Info(name) == HMAC_INPUT + name
  {
    LabelText();
  }

  /** What `snprintf` leaves at the start of `size` bytes when it prints `text`: cut to leave room for a NUL. */
  function Printed(text: seq<byte>, size: nat): (p: seq<byte>)
    requires 0 < size
    ensures |p| == Min(|text| + 1, size)
  {
    if |text| < size then text + [NUL] else text[..size - 1] + [NUL]
  }

  function LabelledName(name: seq<byte>, counter: byte): (text: seq<byte>)
    ensures |text| == |name| + 25
  {
    HMAC_INPUT + name + [counter]
  }

  /** The bytes past the end of the 128-byte buffer when message 1 or 2 is hashed: nothing is known about them. */
  type Beyond = (nat, nat) -> byte

  /** The first `len` bytes of memory at the buffer: as much of its contents, then what lies beyond it. */
  function FromMemory(buffer: seq<byte>, len: nat, message: nat, beyond: Beyond): (m: seq<byte>)
    ensures |m| == len
  {
    if len <= |buffer| then buffer[..len] else buffer + seq(len - |buffer|, k requires 0 <= k => beyond(message, k))
  }

  /** The bytes hashed for message 1 or 2, printed behind `first`: as many as the untruncated text would need, although
      the print is cut at the end of the buffer. */
  function Message(first: seq<byte>, name: seq<byte>, counter: byte, beyond: Beyond): (m: seq<byte>)
    requires |first| < BUFFER_LENGTH
    ensures |m| == |first| + |LabelledName(name, counter)|
  {
    var text := LabelledName(name, counter);
    FromMemory(first + Printed(text, BUFFER_LENGTH - |first|), |first| + |text|, counter as nat, beyond)
  }

  function FirstKey(hmac: Hmac, key: seq<byte>, name: seq<byte>, beyond: Beyond): seq<byte> {
    hmac(key, Message([], name, 1, beyond))
  }

  function SecondKey(hmac: Hmac, key: seq<byte>, name: seq<byte>, beyond: Beyond): (k: seq<byte>)
    requires IsHmac(hmac)
  {
    hmac(key, Message(FirstKey(hmac, key, name, beyond), name, 2, beyond))
  }

  /** Each message is the text it should be exactly if the buffer has room for its terminator as well. */
  lemma MessageIs(first: seq<byte>, name: seq<byte>, counter: byte, beyond: Beyond)
    requires |first| < BUFFER_LENGTH && NUL !in name && counter != NUL
    ensures Message(first, name, counter, beyond) == first + LabelledName(name, counter)
            <==> |first| + |LabelledName(name, counter)| < BUFFER_LENGTH
    ensures BUFFER_LENGTH <= |first| + |LabelledName(name, counter)| ==>
              && Message(first, name, counter, beyond)[BUFFER_LENGTH - 1] == NUL
              && (first + LabelledName(name, counter))[BUFFER_LENGTH - 1] != NUL
  {
    if |first| + |LabelledName(name, counter)| < BUFFER_LENGTH {
      ShortMessage(first, name, counter, beyond);
    } else {
      CutMessage(first, name, counter, beyond);
    }
  }

  lemma ShortMessage(first: seq<byte>, name: seq<byte>, counter: byte, beyond: Beyond)
    requires |first| + |LabelledName(name, counter)| < BUFFER_LENGTH
    ensures Message(first, name, counter, beyond) == first + LabelledName(name, counter)
  {
  }

  lemma CutMessage(first: seq<byte>, name: seq<byte>, counter: byte, beyond: Beyond)
    requires |first| < BUFFER_LENGTH <= |first| + |LabelledName(name, counter)| && NUL !in name && counter != NUL
    ensures Message(first, name, counter, beyond)[BUFFER_LENGTH - 1] == NUL
    ensures (first + LabelledName(name, counter))[BUFFER_LENGTH - 1] != NUL
  {
    var text, room := LabelledName(name, counter), BUFFER_LENGTH - |first|;
    assert Message(first, name, counter, beyond)[..BUFFER_LENGTH] == first + Printed(text, room);
    assert text[room - 1] != NUL;
  }

  /** The second message has its counter, and is the one HKDF hashes, exactly for names of at most 70 bytes. */
  lemma CounterKept(first: seq<byte>, name: seq<byte>, beyond: Beyond)
    requires |first| == DIGEST_LENGTH && NUL !in name
    ensures Message(first, name, 2, beyond) == first + Info(name) + [2] <==> |name| <= 70
  {
    MessageIs(first, name, 2, beyond);
    InfoIs(name);
    assert first + LabelledName(name, 2) == first + (HMAC_INPUT + name) + [2];
  }

  /** What is hashed stays inside the buffer for names of at most 103 and 71 bytes. */
  lemma MessageInBuffer(first: seq<byte>, name: seq<byte>, beyond: Beyond)
    requires |first| == DIGEST_LENGTH
    ensures |Message([], name, 1, beyond)| <= BUFFER_LENGTH <==> |name| <= 103
    ensures |Message(first, name, 2, beyond)| <= BUFFER_LENGTH <==> |name| <= 71
  {
  }

  lemma TwoBlocks(hmac: Hmac, key: seq<byte>, info: seq<byte>)
    requires IsHmac(hmac)
    ensures var t1 := hmac(key, info + [1]);
            HkdfExpand(hmac, key, info, 64) == t1 + hmac(key, t1 + info + [2])
  {
    assert [] + info + [1] == info + [1];
    assert T(hmac, key, info, 1) == hmac(key, T(hmac, key, info, 0) + info + [1]);
    assert Ts(hmac, key, info, 1) == [] + T(hmac, key, info, 1);
    assert Ts(hmac, key, info, 2) == Ts(hmac, key, info, 1) + T(hmac, key, info, 2);
  }

  ghost predicate IsHkdf(hmac: Hmac, key: seq<byte>, name: seq<byte>, beyond: Beyond)
    requires IsHmac(hmac)
  {
    FirstKey(hmac, key, name, beyond) + SecondKey(hmac, key, name, beyond)
    == HkdfExpand(hmac, key, Info(name), 64)
  }

  /** The bundle is the 64-byte HKDF-Expand output for the sync key and the labelled name. */
  lemma BundleIsHkdf(hmac: Hmac, key: seq<byte>, name: seq<byte>, beyond: Beyond)
    requires IsHmac(hmac) && NUL !in name && |name| <= 70
    ensures IsHkdf(hmac, key, name, beyond)
  {
    FirstKeyIs(hmac, key, name, beyond);
    SecondKeyIs(hmac, key, name, beyond);
    InfoIs(name);
    TwoBlocks(hmac, key, HMAC_INPUT + name);
  }

  lemma FirstKeyIs(hmac: Hmac, key: seq<byte>, name: seq<byte>, beyond: Beyond)
    requires NUL !in name && |name| <= 102
    ensures FirstKey(hmac, key, name, beyond) == hmac(key, HMAC_INPUT + name + [1])
  {
    ShortMessage([], name, 1, beyond);
    assert [] + LabelledName(name, 1) == HMAC_INPUT + name + [1];
  }

  lemma SecondKeyIs(hmac: Hmac, key: seq<byte>, name: seq<byte>, beyond: Beyond)
    requires IsHmac(hmac) && NUL !in name && |name| <= 70
    ensures SecondKey(hmac, key, name, beyond)
            == hmac(key, FirstKey(hmac, key, name, beyond) + (HMAC_INPUT + name) + [2])
  {
    var first := FirstKey(hmac, key, name, beyond);
    ShortMessage(first, name, 2, beyond);
    assert first + LabelledName(name, 2) == first + (HMAC_INPUT + name) + [2];
  }

  /** An HMAC stand-in that shows the last byte of the buffer. */
  ghost function BufferEnd(): (hmac: Hmac)
    ensures IsHmac(hmac)
  {
    (key: seq<byte>, data: seq<byte>) =>
      seq(DIGEST_LENGTH, _ => if BUFFER_LENGTH <= |data| then data[BUFFER_LENGTH - 1] else NUL)
  }

  /** Over all HMACs, the derivation is HKDF-Expand if and only if the name has at most 70 bytes, whatever lies beyond
      the buffer. */
  lemma HkdfExactly(key: seq<byte>, name: seq<byte>, beyond: Beyond)
    requires NUL !in name
    ensures (forall hmac | IsHmac(hmac) :: IsHkdf(hmac, key, name, beyond)) <==> |name| <= 70
  {
    if |name| <= 70 {
      forall hmac | IsHmac(hmac)
        ensures IsHkdf(hmac, key, name, beyond)
      {
        BundleIsHkdf(hmac, key, name, beyond);
      }
    } else {
      LongNameDiffers(key, name, beyond);
    }
  }

  lemma LongNameDiffers(key: seq<byte>, name: seq<byte>, beyond: Beyond)
    requires NUL !in name && 70 < |name|
    ensures !IsHkdf(BufferEnd(), key, name, beyond)
  {
    InfoIs(name);
    LongNameKeys(key, name, beyond);
  }

  /** The second key is wrong: HKDF hashes a byte of the name or the counter where the derivation hashes a NUL. */
  lemma LongNameKeys(key: seq<byte>, name: seq<byte>, beyond: Beyond)
    requires NUL !in name && 70 < |name|
    ensures FirstKey(BufferEnd(), key, name, beyond) + SecondKey(BufferEnd(), key, name, beyond)
            != HkdfExpand(BufferEnd(), key, HMAC_INPUT + name, 64)
  {
    var hmac, info := BufferEnd(), HMAC_INPUT + name;
    var t1, first := hmac(key, info + [1]), FirstKey(hmac, key, name, beyond);
    TwoBlocks(hmac, key, info);
    MessageIs(first, name, 2, beyond);
    MessageIs(t1, name, 2, beyond);
    assert t1 + LabelledName(name, 2) == t1 + info + [2];
    assert (first + SecondKey(hmac, key, name, beyond))[32] == NUL;
    assert (t1 + hmac(key, t1 + info + [2]))[32] != NUL;
  }

  // The routines

  /** `snprintf(buf + off, size, "%s%s%c", tag, name, counter)`: returns the untruncated length. */
  method Snprintf(buf: array<byte>, off: nat, size: nat, tag: seq<byte>, name: seq<byte>, counter: byte)
    returns (len: nat)
    requires 0 < size && off + size <= buf.Length
    modifies buf
    ensures len == |tag + name + [counter]|
    ensures var p := Printed(tag + name + [counter], size);
            buf[..off + |p|] == old(buf[..off]) + p
  {
    var text := tag + name + [counter];
    len := |text|;
    var n := Min(len, size - 1);
    var i := 0;
    while i < n
      invariant i <= n && buf[..off + i] == old(buf[..off]) + text[..i]
    {
      buf[off + i] := text[i];
      i := i + 1;
    }
    buf[off + n] := NUL;
    assert Printed(text, size) == text[..n] + [NUL];
    assert buf[..off + n + 1] == buf[..off + n] + [NUL];
  }

  /** `struct nssync_crypto_keybundle`. */
  class Bundle {
    const encryption: array<byte>
    const hmac: array<byte>

    constructor ()
      ensures fresh(encryption) && fresh(hmac) && encryption != hmac
      ensures encryption.Length == hmac.Length == DIGEST_LENGTH
    {
      encryption := new byte[DIGEST_LENGTH](_ => 0);
      hmac := new byte[DIGEST_LENGTH](_ => 0);
    }
  }

  /** `HMAC(EVP_sha256(), key, SYNCKEY_LENGTH, data, len, out, ...)`, where `len` may exceed the buffer. */
  method ComputeHmac(hmac: Hmac, key: array<byte>, data: array<byte>, len: nat, message: nat, beyond: Beyond,
                     out: array<byte>)
    requires IsHmac(hmac) && out.Length == DIGEST_LENGTH
    modifies out
    ensures out[..] == hmac(old(key[..]), FromMemory(old(data[..]), len, message, beyond))
  {
    var digest := hmac(key[..], FromMemory(data[..], len, message, beyond));
    forall k | 0 <= k < DIGEST_LENGTH {
      out[k] := digest[k];
    }
  }

  /** Only what was printed and what lies beyond the buffer is hashed. */
  lemma HashedIsMessage(data: seq<byte>, first: seq<byte>, name: seq<byte>, counter: byte, beyond: Beyond)
    requires |first| < BUFFER_LENGTH == |data|
    requires first + Printed(LabelledName(name, counter), BUFFER_LENGTH - |first|) <= data
    ensures var len := |first| + |LabelledName(name, counter)|;
            FromMemory(data, len, counter as nat, beyond) == Message(first, name, counter, beyond)
  {
  }

  /** Half of `nssync_crypto_keybundle_new_synckey`: print behind the first `off` bytes, hash what was printed. */
  method HashPrinted(hmac: Hmac, syncKey: array<byte>, data: array<byte>, off: nat, name: seq<byte>, counter: byte,
                     beyond: Beyond, out: array<byte>)
    requires IsHmac(hmac) && data.Length == BUFFER_LENGTH && out.Length == DIGEST_LENGTH && off < BUFFER_LENGTH
    requires data != out && data != syncKey && out != syncKey
    modifies data, out
    ensures out[..] == hmac(syncKey[..], Message(old(data[..off]), name, counter, beyond))
  {
    ghost var first := data[..off];
    var printed := Snprintf(data, off, BUFFER_LENGTH - off, HMAC_INPUT, name, counter);
    HashedIsMessage(data[..], first, name, counter, beyond);
    ComputeHmac(hmac, syncKey, data, off + printed, counter as nat, beyond, out);
  }

  /** The two keys of `nssync_crypto_keybundle_new_synckey`, made with one 128-byte buffer for both messages. */
  method DeriveKeys(hmac: Hmac, syncKey: array<byte>, name: seq<byte>, beyond: Beyond,
                    encryption: array<byte>, mac: array<byte>)
    requires IsHmac(hmac) && encryption.Length == mac.Length == DIGEST_LENGTH
    requires encryption != mac && syncKey != encryption && syncKey != mac
    modifies encryption, mac
    ensures encryption[..] == FirstKey(hmac, syncKey[..], name, beyond)
    ensures mac[..] == SecondKey(hmac, syncKey[..], name, beyond)
  {
    var data := new byte[BUFFER_LENGTH];
    assert data[..0] == [];
    HashPrinted(hmac, syncKey, data, 0, name, 1, beyond, encryption);
    MemCpy(data, 0, encryption, 0, DIGEST_LENGTH);
    assert data[..DIGEST_LENGTH] == encryption[..];
    HashPrinted(hmac, syncKey, data, DIGEST_LENGTH, name, 2, beyond, mac);
  }

  /** `nssync_crypto_keybundle_new_synckey`. */
  method NewSynckey(hmac: Hmac, syncKey: array<byte>, name: seq<byte>, beyond: Beyond) returns (bundle: Bundle)
    requires IsHmac(hmac) && syncKey.Length == SYNCKEY_LENGTH && NUL !in name
    ensures fresh(bundle) && fresh(bundle.encryption) && fresh(bundle.hmac)
    ensures bundle.encryption[..] == FirstKey(hmac, syncKey[..], name, beyond)
    ensures bundle.hmac[..] == SecondKey(hmac, syncKey[..], name, beyond)
    ensures |name| <= 70 ==>
              bundle.encryption[..] + bundle.hmac[..] == HkdfExpand(hmac, syncKey[..], Info(name), 64)
  {
    bundle := new Bundle();
    DeriveKeys(hmac, syncKey, name, beyond, bundle.encryption, bundle.hmac);
    if |name| <= 70 {
      BundleIsHkdf(hmac, syncKey[..], name, beyond);
    }
  }

  /** `nssync_crypto_keybundle_new_user_synckey`; no bundle where the source returns an error. */
  method NewUserSynckey(table: ReverseTable, hmac: Hmac, userKey: array<byte>, name: seq<byte>, beyond: Beyond)
    returns (bundle: Bundle?)
    requires table.Valid() && Terminated(userKey[..]) && userKey != table.rev32
    requires forall c :: c in CString(userKey[..]) ==> c < 0x80
    requires IsHmac(hmac) && NUL !in name
    modifies table, table.rev32
    ensures table.Valid()
    ensures bundle != null <==> ParsedKey(CString(userKey[..])).Some?
    ensures bundle != null ==>
              var key := ParsedKey(CString(userKey[..])).value;
              && bundle.encryption[..] == FirstKey(hmac, key, name, beyond)
              && bundle.hmac[..] == SecondKey(hmac, key, name, beyond)
              && (|name| <= 70 ==>
                    bundle.encryption[..] + bundle.hmac[..] == HkdfExpand(hmac, key, Info(name), 64))
  {
    var syncKey := DecodeKey(table, userKey);
    if syncKey == null {
      return null;
    }
    bundle := NewSynckey(hmac, syncKey, name, beyond);
  }
}
