# Verification model of libnssync's codecs, hash and key handling

libnssync talks to a Firefox Sync 1.1 server. Its own algorithms are a streaming SHA-1, a bounded base32 codec, a base64
codec, the user form of a sync key, the key bundle derived from it, and the derivation of usernames. This project models
them in Dafny with their buffers, in-place updates, lazily filled tables and unrolled loops, and proves them against
independent definitions: FIPS 180-4, the bit streams behind RFC 4648, and HKDF-Expand of RFC 5869.

`dafny verify dfyconfig.toml` checks everything.

## How it is organised

- `Bytes`: bytes, C strings, `memcpy`, `tolower`. Every `uint8_t` or `char` buffer is an array of `bv8`; a pointer
  into one is the array with a start index.
- `Fips180`: SHA-1 as the standard writes it, and what its definitions come to in bits, bytes and numbers. Alphabets,
  labels and signs are likewise compared with their text (`Bytes.Text`), so that no routine is proved only against
  constants that it shares with its specification.
- `Sha1Transform`: the compression function of `sha1.c` with its macros: sixteen words expanded in place through the
  byte/word union, under both definitions of `blk0`, and registers renamed instead of shifted. The 80 macro calls are
  kept in their order and with their argument names; they are grouped by five, where the names come round, and by
  twenty. A ghost value of type `Run` lays out the standard's computation on the block, and each step is tied to its
  place in it.
- `Sha1Context`: the context with its two count words, and `SHA1_Init`, `SHA1_Update`, `SHA1_Final`.
- `Sha1Runs`: whole runs over any split of a message.
- `Bitstream`: sequences of `w`-bit digits as bit streams, and regrouping from one width to another. Base32 and base64
  are both regroupings, so their round trips share one proof.
- `Base32`, `Base32Codec`, `Base32Laws`: specification with the mask expressions, the two routines, the laws. The loop
  body of the encoder is in five parts and that of the decoder in two; their `stop` result stands for the `break`
  statements.
- `Base64`, `Base64Codec`, `Base64Laws`: likewise.
- `SyncKey`, `KeyBundle`: the two halves of `crypto.c` that are its own. `SyncKeyExample`: the key and the text of
  `test/synckey.c`.
- `Registration`: usernames, on top of SHA-1 and base32.

## What the source demands, and what it gets wrong

- `SHA1_Update` (src/sha1.c:176) compares a 32-bit sum with `len << 3` computed in `size_t`. The model takes the width
  of `size_t` as a parameter. One update counts right if and only if `len << 3` fits 32 bits or there is a carry
  anyway, and otherwise counts 2^32 bits too many (`Sha1Context.CountGrows`); a 64-bit build miscounts a fresh context
  fed 2^29 bytes (`Sha1Context.LongPieceMiscounted`). Over a run the length field is off by 2^32 for every miscounted
  piece, modulo 2^64, so it is right if and only if their number, which depends on the offsets and lengths of the
  pieces alone, is a multiple of 2^32 (`Sha1Runs.FieldRight`). State and buffer are right whatever happens to the
  count.
- `blk0` is right if and only if the macro `WORDS_BIGENDIAN` is defined exactly on machines with that byte order
  (`Sha1Transform.BlocksRight`). Nothing in the repository defines it, so a big-endian build would read every word
  with its bytes reversed. The model takes byte order and macro as two parameters; the hash of such a build is
  `HashOn`, and it is the standard's where they agree (`Sha1Context.HashOfAgreeing`).
- `SHA1_Transform` overwrites the blocks it hashes, the caller's included, although the parameter is `const`. The
  update is proved to hash what was there before and to leave every other byte of the caller's array alone. What the
  array holds after a run is stated for every byte: in the blocks that begin behind the start of a piece and end
  within it (`Sha1Runs.OverwrittenBlocks`) it is the bytes of the block's last sixteen schedule words, elsewhere the
  old byte.
- `SHA1_Update` thus also overwrites the account name that `moz_sync_username_from_accountname` takes as `const`, if
  it is no valid username and longer than 127 bytes.
- `base32.h` asks for one byte more than `*buflen`. Both callers in the repository pass the whole size of their buffer
  (src/crypto.c:64, src/registration.c:81). `Base32Codec.Encode` is proved under the weaker demand that the characters
  really produced and the terminator fit, which those calls meet.
- The second message of the key derivation has 96 bytes of the buffer left for the label, the account name, the
  counter and a terminator. The result is HKDF-Expand if and only if the name has at most 70 bytes
  (`KeyBundle.HkdfExactly`); at 71 the counter byte is replaced by a NUL, and from 72 bytes on, for the first message
  from 104 on, the length handed to HMAC exceeds the buffer (`KeyBundle.MessageInBuffer`). The bytes read there are a
  parameter of which nothing is assumed.
- Base32 and base64 decoding accept strings that are not canonical; re-encoding gives the string back if and only if
  it is canonical, with the condition spelled out (`Base32Laws.EncodeDecode`, `Base64Laws.EncodeDecode`).
- The build takes SHA-1 from OpenSSL under the same function names (src/Makefile:9 does not list `sha1.c`). The model
  of `registration.c` uses the repository's own `sha1.c`.

## Conventions

The count words are integers below 2^32 and their shifts and masks are divisions and remainders: `(count >> 3) & 63`
is `count / 8 % 64`, and the loop test `(count & 504) != 448` is `count / 8 % 64 != 56`. State and schedule words are
`bv32`. Text is ASCII; `tolower` and `toupper` are those of the C locale. HMAC is any function to 32 bytes. Allocation
succeeds. A null result stands for the error return of the sync-key decoder and of `base64_decode`.

## Model

| member | source | states |
|---|---|---|
| Fips180.RotlByOne | src/sha1.c:80 | `rol` by one: the top bit goes to the bottom, the others up |
| Fips180.RotlByFive | src/sha1.c:80 | the same by five |
| Fips180.RotlByThirty | src/sha1.c:80 | the same by thirty |
| Fips180.WordParts | src/sha1.c:86 | the four parts of a word read from a block are its bytes, from the top down |
| Fips180.BlockBytes | src/sha1.c:85-90 | and so for each of the sixteen words of a block |
| Sha1Transform.SwapReversesBytes | src/sha1.c:88-89 | the rotate-and-mask expression of `blk0` turns a little-endian read into the big-endian word of the same bytes |
| Sha1Transform.WordOfBuild | src/sha1.c:85-90 | for every byte order and either definition of `blk0`: it yields the big-endian word of the four bytes if macro and machine agree, and the little-endian one if not |
| Sha1Transform.BlocksRight | src/sha1.c:85-90 | a build reads all blocks as the standard does if and only if macro and machine agree |
| Sha1Transform.FirstWord | src/sha1.c:85-90 | under either definition `blk0` turns the word in its slot into schedule word t < 16 of the block's words |
| Sha1Transform.NextWord | src/sha1.c:91-92 | the four slots `(i+13)&15`, `(i+8)&15`, `(i+2)&15`, `i&15` hold W[t-3], W[t-8], W[t-14], W[t-16], so `blk` computes W[t] |
| Fips180.ScheduleRotates | src/sha1.c:91-92 | W[t] is the exclusive or of W[t-3], W[t-8], W[t-14], W[t-16] rotated left by one, for every t from 16 on |
| Sha1Transform.ExpandStep | src/sha1.c:91-92 | storing W[t] in slot t & 15 keeps the sixteen most recent schedule words in their circular slots |
| Sha1Transform.Store | src/sha1.c:88-92 | a word stored through the union changes its slot and no other, and no byte outside the block |
| Sha1Transform.Blk0 | src/sha1.c:85-90 | returns W[i] and advances the in-place expansion, touching only the block |
| Sha1Transform.Blk | src/sha1.c:91-92 | returns W[i] for i >= 16 and advances the in-place expansion, touching only the block |
| Fips180.ChBits | src/sha1.c:95-96 | the function of rounds 0 to 19: each bit of the first word chooses between the other two |
| Fips180.ParityBits | src/sha1.c:97 | the function of rounds 20 to 39 and 60 to 79: its exclusive or with its three arguments is zero |
| Fips180.MajWhereBoth | src/sha1.c:98 | the function of rounds 40 to 59 has the bits that the first two words share |
| Fips180.MajWhereNeither | src/sha1.c:98 | it has none that neither of them has |
| Fips180.MajWhereOne | src/sha1.c:98 | where they differ it has those of the third |
| Fips180.FunctionOfRound | src/sha1.c:123-142 | which of the three functions belongs to which of the 80 rounds |
| Fips180.SquareRoots | src/sha1.c:95-99 | the constant of each round is the integer part of 2^30 times the square root of 2, 3, 5 or 10 |
| Fips180.TempCounts | src/sha1.c:95-99 | the sum of a round: with nothing rotated in it is the sum of the other four, and it counts on modulo 2^32 |
| Fips180.RoundUndone | src/sha1.c:95-99 | the registers before a round can be read off those after it, and the new one is the sum of the five terms |
| Sha1Transform.ChooseRewritten | src/sha1.c:95-96 | `(w&(x^y))^y` is Ch of section 4.1.1 |
| Sha1Transform.MajorityRewritten | src/sha1.c:98 | `((w\|x)&y)\|(w&x)` is Maj of section 4.1.1 |
| Sha1Transform.ChooseRound | src/sha1.c:95-96 | the in-place update of two of five variables by R0 and R1 is one register-shifting round of section 6.1.2 |
| Sha1Transform.MajorityRound | src/sha1.c:98 | the same for R3 and rounds 40 to 59 |
| Sha1Transform.ParityRound | src/sha1.c:97 | the same for R2 and rounds 20 to 39 |
| Sha1Transform.LastParityRound | src/sha1.c:99 | the same for R4 and rounds 60 to 79 |
| Sha1Transform.R0 | src/sha1.c:95 | reads the registers of round i under rotated names and leaves those of round i + 1, for rounds 0 to 15 |
| Sha1Transform.R1 | src/sha1.c:96 | the same for rounds 16 to 19 |
| Sha1Transform.R2 | src/sha1.c:97 | the same for rounds 20 to 39 |
| Sha1Transform.R3 | src/sha1.c:98 | the same for rounds 40 to 59 |
| Sha1Transform.R4 | src/sha1.c:99 | the same for rounds 60 to 79 |
| Sha1Transform.FiveR0R1 | src/sha1.c:126-127 | the five calls that change over from R0 to R1 bring the names back in line with the registers |
| Sha1Transform.Rounds0To19 | src/sha1.c:123-127 | the first twenty calls are the standard's rounds 0 to 19 |
| Sha1Transform.Rounds20To39 | src/sha1.c:128-132 | the next twenty are rounds 20 to 39 |
| Sha1Transform.Rounds40To59 | src/sha1.c:133-137 | the next twenty are rounds 40 to 59 |
| Sha1Transform.Rounds60To79 | src/sha1.c:138-142 | the last twenty are rounds 60 to 79 |
| Fips180.AddCounts | src/sha1.c:145-149 | the final additions count modulo 2^32 |
| Fips180.StatesAdd | src/sha1.c:145-149 | they are made register by register: a zero state on either side changes nothing |
| Sha1Transform.SlotsAreBytes | src/sha1.c:108-113 | the 64 bytes of the union are the native bytes of its sixteen words |
| Sha1Transform.Transform | src/sha1.c:104-153 | the new state is the compression function of section 6.1.2 on the old state and the old bytes of the block, for every build in which macro and machine agree, and on the words that the build reads otherwise; the 64 bytes of the block are left spelling W[64] to W[79]; no other byte changes |
| Sha1Context.HashOfAgreeing | src/sha1.c:85-90 | where macro and machine agree, the hash that a build computes is the standard's |
| Sha1Context.DigestOfAgreeing | src/sha1.c:196-221 | and so is the digest, whatever the length field |
| Sha1Context.CountGrows | src/sha1.c:176-179 | the 64-bit count grows by exactly 8 * len if and only if the carry test is exact, and by 2^32 more if it is not |
| Sha1Context.LowCount | src/sha1.c:176 | the low count word is right for every length |
| Sha1Context.ShortPiecesCount | src/sha1.c:176-179 | pieces under 2^29 bytes are counted right, and every piece where `size_t` has 32 bits |
| Sha1Context.LongPieceMiscounted | src/sha1.c:176-179 | with a 64-bit `size_t`, 2^29 bytes into a fresh context leave the count at 2^33 bits |
| Sha1Context.BufferFill | src/sha1.c:175 | the fill computed from the low count word is the message length modulo 64, also after the count has wrapped |
| Sha1Context.HashInPlace | src/sha1.c:183-185 | the block loop hashes every whole block left in the caller's data as it was before, and overwrites those blocks, with their last schedule words, and no others |
| Sha1Context.FillAndHash | src/sha1.c:181-185 | completes the buffered block and hashes on, up to the last whole block |
| Sha1Transform.InitialBytes | src/sha1.c:160-164 | the five initial words in little-endian memory are the bytes 01 23 45 67 89 AB CD EF FE DC BA 98 76 54 32 10 F0 E1 D2 C3 |
| Sha1Context.ShaCtx.Init | src/sha1.c:157-166 | the context holds the empty message; the state is the five words of the source, in order |
| Sha1Context.ShaCtx.Update | src/sha1.c:170-192 | keeps the invariant of every reachable context for the message extended by the old bytes of the piece: state is the hash of all whole blocks, the filled prefix of the buffer is the rest; says what the count becomes from any value, when a right count stays right, and what every byte of the caller's array is afterwards |
| Sha1Context.ShaCtx.EncodeCount | src/sha1.c:201-203 | the eight bytes picked from the two count words are the length field of the standard, and spell the 64-bit count |
| Fips180.BigEndian32Spells | src/sha1.c:201-203 | the four bytes of a count word, read as a base-256 number, are that word |
| Fips180.BigEndian64Spells | src/sha1.c:201-203 | the eight bytes of the length field, read as a base-256 number, most significant first, are the count |
| Sha1Context.ShaCtx.PadZeros | src/sha1.c:205-207 | the loop feeds exactly the standard's number of zero bytes and ends |
| Sha1Context.ShaCtx.Pad | src/sha1.c:204-208 | the bytes fed are exactly the padding of section 5.1.1, and the constant inputs are never overwritten |
| Sha1Context.ShaCtx.Final | src/sha1.c:196-221 | the digest is the hash of the message padded with the counted length, which is SHA-1 of the message when the count is right; the context is wiped |
| Fips180.ZeroCountIsSmallest | src/sha1.c:205 | the number of zeros is (55 - n) mod 64, the smallest that completes the padding |
| Fips180.PaddingIs | src/sha1.c:204-208 | the padded message: whole blocks, fewer than 64 bytes more than message, 0x80 and length field take, that begin with the message and 0x80, end with the length field and hold zeros between |
| Sha1Context.HashOfPrefix | src/sha1.c:180-188 | the hash of the blocks so far does not depend on what follows |
| Sha1Context.LeftOfPrefix | src/sha1.c:180-188 | nor does what a hashed block is overwritten with |
| Fips180.DigestWords | src/sha1.c:209-212 | the digest bytes spell the five state words, most significant byte first |
| Fips180.DigestInOrder | src/sha1.c:209-212 | the digest of the registers a, b, c, d, e: its five big-endian words are a, b, c, d, e in this order |
| Sha1Runs.DigestOfPieces | src/sha1.c:157-221 | for every message and every split into pieces, empty ones included, Init, the Updates and Final give the digest of the message as it was before the first call, with 2^32 added to the length field for each miscounted piece; if macro and machine agree, that is SHA-1 for short pieces, and whenever the misses add up to a multiple of 2^32; says what every byte of the caller's array is afterwards |
| Sha1Runs.FieldRight | src/sha1.c:176-179 | the length field after a run is right if and only if the number of miscounted pieces is a multiple of 2^32 |
| Sha1Runs.PaddingRight | src/sha1.c:176-208 | the padded message is the standard's under the same condition |
| Sha1Runs.ShortPiecesNeverMissed | src/sha1.c:176-179 | no piece under 2^29 bytes is miscounted, wherever it starts, and none at all where `size_t` has 32 bits |
| Sha1Runs.OverwrittenBlocks | src/sha1.c:180-190 | the bytes of the caller's data that a run replaces by left-over schedule words are those whose 64-byte block begins behind the start of some piece and ends within it |
| Sha1Runs.FeedPieces | src/sha1.c:170-192 | any number of updates leave the invariant for the whole message, the exact count, and in the caller's data the left-over words in the overwritten blocks and the old bytes elsewhere |
| Sha1Runs.SameMessageSameContext | src/sha1.c:170-192 | contexts fed the same bytes in whatever pieces agree on state, counts and filled prefix, though not on the rest of the buffer |
| Sha1Runs.AnyTwoSplits | src/sha1.c:170-192 | two contexts fed the same bytes in any two splits, two pieces or one, say, agree on state, low count and filled prefix; high count words that were equal stay equal if and only if both splits miscount equally often modulo 2^32 |
| Bitstream.RegroupBack | src/base32.c:67-209 | regrouping digits to another width and back returns the digits that the intermediate ones cover |
| Base32.QuintetRead | src/base32.c:81-134 | each of the eight mask expressions of the encoder is bits 5k to 5k+4 of the data followed by zero bits |
| Base32.OctetRead | src/base32.c:166-203 | each of the five mask expressions of the decoder is bits 8k to 8k+7 of the character values |
| Base32.TableRow | src/base32.c:29 | the table is the RFC 4648 alphabet in lower case |
| Base32.AlphabetText | src/base32.c:29 | `cb32` is the text of the source, character by character |
| Base32.UpperAlphabetText | src/base32.c:30 | and so is `cb32_ucase` |
| Base32Codec.EncoderExit | src/base32.c:79-133 | at each of the eight exits, after the rollback, the counts are min(size, floor(5n/8)) and the exact ceiling |
| Base32Codec.Put | src/base32.c:81-134 | a character is written in bounds and is the specified one |
| Base32Codec.FirstByte | src/base32.c:79-92 | the two checks and characters that complete byte 0 of a group, with their exits and rollback |
| Base32Codec.SecondByte | src/base32.c:94-107 | the two that complete byte 1, likewise |
| Base32Codec.ThirdByte | src/base32.c:109-115 | the one that completes byte 2 |
| Base32Codec.FourthByte | src/base32.c:117-130 | the two that complete byte 3, with exits and rollback |
| Base32Codec.FifthByte | src/base32.c:132-136 | the one that completes byte 4 |
| Base32Codec.Encode | src/base32.c:68-145 | for all data and limits: consumed and produced counts, the characters, the terminator in bounds, nothing behind it changed |
| Base32Codec.ReverseTable.ReverseInit | src/base32.c:35-51 | the lazily filled table gives every byte its value, upper and lower case alike, and zero outside the alphabet |
| Base32Codec.ReverseTable.AtEnd | src/base32.c:163-200 | each exit test of the decoder, reading no further than the first NUL |
| Base32Codec.ReverseTable.DecodePass | src/base32.c:163-205 | five bytes of the loop with their exits; at an exit exactly min(limit, floor(5L/8)) bytes are written |
| Base32Codec.ReverseTable.Decode | src/base32.c:151-209 | returns the specified decoding of the text up to the first NUL or slen, and leaves the rest of the buffer alone |
| Base32Laws.ConsumesWhatFits | src/base32.h:1-8 | the encoder takes exactly the whole bytes whose characters fit |
| Base32Laws.TruncationIsPrefix | src/base32.c:78-137 | a truncated encoding is a prefix of the encoding of the whole input |
| Base32Laws.DecodeEncode | src/base32.c:68-209 | decoding an encoding made under any limit gives exactly the consumed bytes |
| Base32Laws.EncodeDecode | src/base32.c:68-209 | for strings over the alphabet, re-encoding the decoding gives the lower-case string if and only if it is canonical |
| Base32Laws.CaseDoesNotMatter | src/base32.c:44-47 | strings that differ in case decode alike |
| Base32Laws.ProgressNeedsTwo | src/base32.c:79-92 | the encoder makes progress exactly when the limit is at least two |
| Base32Laws.ChunksCarryData | src/base32.h:1-10 | encoding in chunks by the reported count carries each byte exactly once |
| Base32Laws.WholeGroupChunks | src/base32.h:1-10 | with a limit of whole groups the chunks joined are the one-shot encoding |
| SyncKey.EncodeKey | src/crypto.c:59-87 | produces the 31-character text of the key and its terminator |
| SyncKey.ReadKey32 | src/crypto.c:104-110 | collects the first 26 characters that are not hyphens, translated back |
| SyncKey.DecodeKey | src/crypto.c:91-123 | returns the parsed key, or nothing exactly when parsing fails |
| SyncKey.FriendlyLetter | src/crypto.c:33-43 | the printed form of each of the 32 letters: 'l' becomes '8', 'o' becomes '9', the others stay |
| SyncKey.FromFriendlyIs | src/crypto.c:45-55 | '8' and '9' go back to 'L' and 'O', '-' and only '-' is dropped, and every other character becomes upper case |
| SyncKey.HyphenatedAt | src/crypto.c:75-82 | every sixth character is '-', and the five behind it are the next five of the string |
| SyncKey.FriendlyRoundTrip | src/crypto.c:33-55 | the two character maps undo each other on the alphabet and never produce a hyphen |
| SyncKey.StrippedText | src/crypto.c:75-82 | removing the hyphens from a key's text leaves its friendly base32 characters in order |
| SyncKey.ParseText | src/crypto.c:59-123 | decoding an encoded key gives the key |
| SyncKey.ParseTypedText | src/crypto.c:45-55 | also with hyphens added or removed anywhere and letters in either case |
| SyncKey.HyphensAndCaseDoNotMatter | src/crypto.c:104-110 | strings that differ in hyphens and case only parse alike |
| SyncKey.ParseSucceeds | src/crypto.c:104-118 | decoding succeeds if and only if at least 26 characters are not hyphens |
| SyncKey.ParseTextParse | src/crypto.c:59-123 | decoding, encoding and decoding again changes nothing, for every string that decodes |
| SyncKeyExample.KeyPrintsAs | test/synckey.c:35-39 | the key c7 1a a7 cb ... 9f d2 prints as y-4nkps-6yxav-i75xn-uv9ds-r472i |
| SyncKeyExample.TextParsesAs | test/synckey.c:35-39 | and that text is read as the key |
| KeyBundle.LabelText | src/crypto.c:203 | the label is the text of the source, character by character |
| KeyBundle.Snprintf | src/crypto.c:213 | the bounded print: cut text, terminator, untruncated length |
| KeyBundle.DeriveKeys | src/crypto.c:213-233 | prints, hashes and overwrites the one buffer twice; both keys as functions of HMAC, sync key and name, for names of any length |
| KeyBundle.NewSynckey | src/crypto.c:194-237 | a fresh bundle with those keys, which for names up to 70 bytes are the HKDF-Expand output with the text of the label and the name as info |
| KeyBundle.NewUserSynckey | src/crypto.c:176-191 | decoding and derivation in one, with the error passed on; that HKDF-Expand output for the parsed key and names up to 70 bytes |
| KeyBundle.MessageIs | src/crypto.c:213-228 | a message is the text it should be if and only if its terminator fits the buffer as well; otherwise the last byte of the buffer is a NUL where the text has none |
| KeyBundle.MessageInBuffer | src/crypto.c:213-233 | the length handed to HMAC stays inside the buffer if and only if the name has at most 103 bytes for the first message and 71 for the second |
| KeyBundle.CounterKept | src/crypto.c:223-228 | for every name, the second message is the one HKDF hashes if and only if the name has at most 70 bytes |
| KeyBundle.TwoBlocks | src/crypto.c:213-233 | 64 bytes of HKDF-Expand are two HMACs: of the info and 1, and of the first HMAC, the info and 2 |
| KeyBundle.BundleIsHkdf | src/crypto.c:213-233 | encryption key followed by HMAC key is the 64-byte HKDF-Expand output of RFC 5869, section 2.3, with the text of the label and the name as info |
| KeyBundle.HkdfExactly | src/crypto.c:213-233 | for every name and whatever lies beyond the buffer: over all HMACs, that holds if and only if the name has at most 70 bytes |
| Base64.FirstHalfText | src/base64.c:8-11 | the first half of `encoding_table` is the text of the source, character by character |
| Base64.SecondHalfText | src/base64.c:12-15 | and so is the second |
| Base64.PaddingChar | src/base64.c:48-50 | a character of an encoding is '=' if and only if it carries no data |
| Base64.PadsAre | src/base64.c:77-78 | the decoder subtracts one for each '=' in the last two places |
| Base64.SextetRead | src/base64.c:40-45 | the shifted and masked triple is bits 6k to 6k+5 of the data followed by zero bits |
| Base64.OctetRead | src/base64.c:92-99 | the shifted and masked triple is bits 8k to 8k+7 of the sextets |
| Base64Codec.PaddingLength | src/base64.c:16 | `mod_table` counts exactly the characters that carry no data |
| Base64Codec.Encode | src/base64.c:19-53 | the padded encoding of section 4 of RFC 4648, '=' exactly where no data is left, written over the last characters |
| Base64Codec.DecodingTable.Initialise | src/base64.c:65-70 | the lazily filled table gives every byte its value |
| Base64Codec.DecodingTable.DecodeGroup | src/base64.c:85-100 | keeps j = min(3 * groups, precomputed length), so no byte is written outside it and none is missing |
| Base64Codec.DecodingTable.Decode | src/base64.c:56-103 | fails exactly on lengths that are not a multiple of four, and otherwise returns the specified decoding, as many bytes as the '=' in the last two places leave |
| Base64Laws.EncodedPads | src/base64.c:76-78 | the decoder finds exactly the padding the encoder wrote, '=' where no data is left and nowhere else |
| Base64Laws.DecodeEncode | src/base64.c:19-103 | decoding an encoding gives the bytes back, for every non-empty byte string |
| Base64Laws.CanonicalChars | src/base64.c:48-50 | a canonical string has characters of the alphabet, then at most two '=' and nothing behind them |
| Base64Laws.EncodeDecode | src/base64.c:19-103 | re-encoding a decoding gives the string back if and only if it is canonical in the sense of section 3.5 of RFC 4648 |
| Registration.MatchText | src/registration.c:43 | the match string is the text of the source, character by character |
| Registration.MatchIs | src/registration.c:43 | the match string holds exactly the letters, the digits and the three signs |
| Registration.IsValidUsername | src/registration.c:41-52 | true exactly if every character up to the terminator is a name character |
| Registration.StrDupToLower | src/registration.c:54-67 | a fresh, terminated lower-case copy |
| Registration.UsernameFromAccount | src/registration.c:76-97 | a terminated valid name without upper case: the account name in lower case or the base32 form of its digest, from which the digest can be decoded, with the length field as `SHA1_Update` counts it; the specified name for valid names and, where SHA-1 reads words right, for all under 2^29 bytes; a valid account name is kept, and of others every byte afterwards is given |
| Registration.LongDigestIsSha1 | src/registration.c:87-89 | where macro and machine agree, that digest is SHA-1 for every name whose bits are counted right, so for every name under 2^29 bytes |
| Registration.UsernameHoldsDigest | src/registration.c:87-94 | an account name that is no username is hashed once: decoding the name made of it gives the digest, SHA-1 of the account name in the specified case |
| Registration.UsernameIsValid | src/registration.c:76-97 | for every target and account name, the name that the routine derives passes the validity check, has no upper case, and has 32 characters when it came from a digest |
| Registration.UsernameIsIdempotent | src/registration.c:76-97 | deriving again, on the same target or another, changes nothing, for every account name; the names left alone are exactly the valid ones in lower case |
| Registration.UsernameTwice | src/registration.c:76-97 | the routine called on its own result returns the same name, for every account name |

## Left out

- `fetcher.c`, `storage.c`, `sync.c`, `bookmarks.c`, `util.c`: network, JSON and formatting around libraries.
- AES, HMAC and SHA-256 themselves, and `nssync_crypto_decrypt_record`: calls into OpenSSL around one comparison.
- `nssync_crypto_keybundle_new_b64`, the bundle getters, `b32_5to8`, `b32_8to5`, `hex16.c`: they would only add easy
  members.
- Allocation failure, freeing, and the registration object with its HTTP request.
- Sha1Context.ShaCtx.Update: the caller's data and the context's buffer are different arrays, and the data is small
  enough that adding 63 to its length does not wrap `size_t`.
- Base32Codec.ReverseTable.Decode: characters are 7-bit, because the table index is a plain `char`.
- KeyBundle.NewSynckey: what the source reads past its buffer for names of 72 bytes and more is a parameter, and names
  so long that the printed length does not fit an `int` are treated like the others.
- Base64Codec.DecodingTable.Decode: empty input, for which the source reads before its start, is not modelled.
- Strict aliasing and alignment of the byte/word union.
