/** Whole runs of the SHA-1 interface: any message, cut into any pieces. */
module Sha1Runs {
  import opened Bytes
  import opened Fips180
  import opened Sha1Transform
  import opened Sha1Context

  function Sum(cuts: seq<nat>): nat {
    if cuts == [] then 0 else Sum(cuts[..|cuts| - 1]) + cuts[|cuts| - 1]
  }

  lemma {:induction false} SumPrefix(cuts: seq<nat>, n: nat)
    requires n <= |cuts|
    ensures Sum(cuts[..n]) <= Sum(cuts)
    decreases |cuts|
  {
    if n == |cuts| {
      assert cuts[..n] == cuts;
    } else {
      SumPrefix(cuts[..|cuts| - 1], n);
      assert cuts[..|cuts| - 1][..n] == cuts[..n];
    }
  }

  // What becomes of the count

  /** `SHA1_Update` miscounts a piece of `len` bytes that comes after `before` others. */
  predicate Missed(target: Target, before: nat, len: nat) {
    !target.CarryExact(8 * before % WORD_MOD, len)
  }

  /** How many pieces of a run are miscounted, if `before` bytes have been fed already. */
  function Misses(target: Target, before: nat, cuts: seq<nat>): nat {
    if cuts == [] then 0
    else
      var n := |cuts| - 1;
      Misses(target, before, cuts[..n]) + if Missed(target, before + Sum(cuts[..n]), cuts[n]) then 1 else 0
  }

  /** What a run adds to the count. */
  function CountOf(target: Target, before: nat, cuts: seq<nat>): nat {
    8 * Sum(cuts) + WORD_MOD * Misses(target, before, cuts)
  }

  /** The length field of a message fed in pieces. */
  function CountedField(target: Target, cuts: seq<nat>): (bits: nat)
    ensures bits < COUNT_MOD
  {
    CountOf(target, 0, cuts) % COUNT_MOD
  }

  /** The length field is right if and only if the number of miscounted pieces is a multiple of 2^32. */
  lemma FieldRight(target: Target, cuts: seq<nat>)
    ensures CountedField(target, cuts) == LengthField(Sum(cuts)) <==> Misses(target, 0, cuts) % WORD_MOD == 0
  {
    SurplusShows(8 * Sum(cuts), Misses(target, 0, cuts));
  }

  /** So the padded message is the standard's under the same condition. */
  lemma PaddingRight(target: Target, msg: seq<byte>, cuts: seq<nat>)
    requires Sum(cuts) == |msg|
    ensures PadWith(msg, CountedField(target, cuts)) == PadWith(msg, LengthField(|msg|))
            <==> Misses(target, 0, cuts) % WORD_MOD == 0
  {
    FieldRight(target, cuts);
    PaddingShowsField(msg, CountedField(target, cuts), LengthField(|msg|));
  }

  lemma PaddingShowsField(msg: seq<byte>, x: nat, y: nat)
    requires x < COUNT_MOD && y < COUNT_MOD
    ensures PadWith(msg, x) == PadWith(msg, y) <==> x == y
  {
    var n := |PadWith(msg, x)| - 8;
    assert PadWith(msg, x)[n..] == BigEndian64(x) && PadWith(msg, y)[n..] == BigEndian64(y);
    BigEndian64Spells(x);
    BigEndian64Spells(y);
  }

  /** No piece is one whose length `SHA1_Update` could miscount. */
  predicate ShortPieces(target: Target, cuts: seq<nat>) {
    forall k :: 0 <= k < |cuts| ==> cuts[k] < 0x2000_0000 || !target.wideSize
  }

  lemma {:induction false} ShortPiecesNeverMissed(target: Target, before: nat, cuts: seq<nat>)
    requires ShortPieces(target, cuts)
    ensures Misses(target, before, cuts) == 0
  {
    if cuts == [] {
    } else {
      var n := |cuts| - 1;
      ShortPiecesNeverMissed(target, before, cuts[..n]);
      ShortPiecesCount(target, 8 * (before + Sum(cuts[..n])) % WORD_MOD, cuts[n]);
    }
  }

  lemma Sha1Is(build: Build, msg: seq<byte>, bits: nat)
    requires build.Agrees() && bits == LengthField(|msg|)
    ensures DigestOn(build, msg, bits) == Sha1(msg)
  {
    DigestOfAgreeing(build, msg, bits);
  }

  /** Digests come out as SHA-1 when the field is right. */
  lemma FieldGivesSha1(target: Target, msg: seq<byte>, cuts: seq<nat>)
    requires Sum(cuts) == |msg|
    requires target.build.Agrees()
    ensures Misses(target, 0, cuts) % WORD_MOD == 0 || ShortPieces(target, cuts) ==>
              DigestOn(target.build, msg, CountedField(target, cuts)) == Sha1(msg)
  {
    if ShortPieces(target, cuts) {
      ShortPiecesNeverMissed(target, 0, cuts);
    }
    if Misses(target, 0, cuts) % WORD_MOD == 0 {
      FieldRight(target, cuts);
      Sha1Is(target.build, msg, CountedField(target, cuts));
    }
  }

  // What becomes of the caller's bytes

  /** Byte `k` of the caller's data has been overwritten, if `before` bytes had been fed before the run. */
  predicate Overwritten(before: nat, cuts: seq<nat>, k: nat) {
    cuts != [] &&
    var n := |cuts| - 1;
    var start := Sum(cuts[..n]);
    Overwritten(before, cuts[..n], k) || InPlace((before + start) % 64, cuts[n], k - start)
  }

  /** One update overwrites the blocks that begin behind the start of its piece and end no later than it. */
  lemma InPlaceIsBlock(before: nat, start: nat, len: nat, k: nat)
    ensures InPlace((before + start) % 64, len, k - start) <==>
            var block := (before + k) / 64 * 64;
            before + start < block && block + 64 <= before + start + len
  {
    var q, j := (before + start) / 64, (before + start) % 64;
    assert before + start == 64 * q + j;
    var b, c := (before + k) / 64, (before + k) % 64;
    assert before + k == 64 * b + c;
    var e, f := (j + len) / 64, (j + len) % 64;
    assert j + len == 64 * e + f;
  }

  /** The 64-byte block of byte `k` begins behind the start of piece `p` and ends no later than the piece. */
  ghost predicate BlockInPiece(before: nat, cuts: seq<nat>, k: nat, p: nat)
    requires p < |cuts|
  {
    var block := (before + k) / 64 * 64;
    before + Sum(cuts[..p]) < block && block + 64 <= before + Sum(cuts[..p]) + cuts[p]
  }

  /** Over a run, exactly the blocks that lie within one piece and do not begin with it are overwritten. */
  lemma {:induction false} OverwrittenBlocks(before: nat, cuts: seq<nat>, k: nat)
    ensures Overwritten(before, cuts, k) <==> exists p: nat :: p < |cuts| && BlockInPiece(before, cuts, k, p)
  {
    if cuts == [] {
    } else {
      var n := |cuts| - 1;
      var start := Sum(cuts[..n]);
      OverwrittenBlocks(before, cuts[..n], k);
      forall p: nat | p < n
        ensures BlockInPiece(before, cuts[..n], k, p) == BlockInPiece(before, cuts, k, p)
      {
        assert cuts[..n][..p] == cuts[..p];
      }
      InPlaceIsBlock(before, start, cuts[n], k);
      assert BlockInPiece(before, cuts, k, n) <==> InPlace((before + start) % 64, cuts[n], k - start);
    }
  }

  // Runs

  /** The pieces `cuts` of the message `was` have been fed from `data` on top of the bytes `fed`, which makes `now`.
      What follows them is still there to be fed, and what precedes them is kept or left over from its block. */
  ghost predicate Delivered(now: seq<byte>, data: seq<byte>, fed: seq<byte>, was: seq<byte>, left: seq<byte>,
                            cuts: seq<nat>) {
    && |was| == |data| && Sum(cuts) <= |was|
    && now == fed + was[..Sum(cuts)] && data[Sum(cuts)..] == was[Sum(cuts)..]
    && Leaves(data, was, left, |fed|, cuts)
  }

  /** What a run makes of the caller's data, where `before` bytes had been fed before and `left` is left over from the
      whole message. */
  ghost predicate Leaves(data: seq<byte>, was: seq<byte>, left: seq<byte>, before: nat, cuts: seq<nat>) {
    && |data| == |was| && |left| == before + |was|
    && forall k :: 0 <= k < |was| ==> data[k] == if Overwritten(before, cuts, k) then left[before + k] else was[k]
  }

  /** `ctx` has been fed the pieces, and its count has grown from `count` by what the run adds. */
  ghost predicate Fed(ctx: ShaCtx, data: array<byte>, fed: seq<byte>, count: nat, was: seq<byte>, left: seq<byte>,
                      cuts: seq<nat>)
    reads ctx, ctx.state, ctx.buffer, data
  {
    && ctx.Valid() && Delivered(ctx.fed, data[..], fed, was, left, cuts)
    && ctx.Count() == (count + CountOf(ctx.target, |fed|, cuts)) % COUNT_MOD
  }

  lemma NextStart(cuts: seq<nat>, len: nat)
    ensures Sum(cuts + [len]) == Sum(cuts) + len
  {
    assert (cuts + [len])[..|cuts|] == cuts;
  }

  lemma CutIsAppended(cuts: seq<nat>, n: nat)
    requires n < |cuts|
    ensures cuts[..n + 1] == cuts[..n] + [cuts[n]]
  {
  }

  lemma NextCut(cuts: seq<nat>, n: nat)
    requires n < |cuts|
    ensures cuts[..n + 1] == cuts[..n] + [cuts[n]]
    ensures Sum(cuts[..n]) + cuts[n] == Sum(cuts[..n + 1]) <= Sum(cuts)
  {
    CutIsAppended(cuts, n);
    NextStart(cuts[..n], cuts[n]);
    SumPrefix(cuts, n + 1);
  }

  lemma NextMisses(target: Target, before: nat, cuts: seq<nat>, len: nat, fed: nat)
    requires fed == before + Sum(cuts)
    ensures Misses(target, before, cuts + [len])
            == Misses(target, before, cuts) + if Missed(target, fed, len) then 1 else 0
  {
    assert (cuts + [len])[..|cuts|] == cuts;
  }

  lemma MissedSurplus(target: Target, fed: nat, len: nat, low: uint32)
    requires low == 8 * fed % WORD_MOD
    ensures target.Surplus(low, len) == if Missed(target, fed, len) then WORD_MOD else 0
  {
  }

  lemma AddUp(target: Target, before: nat, cuts: seq<nat>, next: seq<nat>, len: nat, miss: nat)
    requires Sum(next) == Sum(cuts) + len && Misses(target, before, next) == Misses(target, before, cuts) + miss
    ensures CountOf(target, before, next) == CountOf(target, before, cuts) + 8 * len + WORD_MOD * miss
  {
  }

  lemma NextCountOf(target: Target, before: nat, cuts: seq<nat>, len: nat, fed: nat, low: uint32)
    requires fed == before + Sum(cuts) && low == 8 * fed % WORD_MOD
    ensures CountOf(target, before, cuts + [len]) == CountOf(target, before, cuts) + 8 * len + target.Surplus(low, len)
  {
    NextStart(cuts, len);
    NextMisses(target, before, cuts, len, fed);
    MissedSurplus(target, fed, len, low);
    AddUp(target, before, cuts, cuts + [len], len, if Missed(target, fed, len) then 1 else 0);
  }

  lemma NextCount(target: Target, before: nat, count: nat, cuts: seq<nat>, len: nat, now: nat, surplus: nat)
    requires now == (count + CountOf(target, before, cuts)) % COUNT_MOD
    requires CountOf(target, before, cuts + [len]) == CountOf(target, before, cuts) + 8 * len + surplus
    ensures (now + 8 * len + surplus) % COUNT_MOD == (count + CountOf(target, before, cuts + [len])) % COUNT_MOD
  {
    CountSum(count + CountOf(target, before, cuts), 8 * len + surplus);
  }

  lemma FedCount(target: Target, before: nat, count: nat, cuts: seq<nat>, len: nat, fed: nat, low: uint32, now: nat)
    requires fed == before + Sum(cuts) && low == 8 * fed % WORD_MOD
    requires now == (count + CountOf(target, before, cuts)) % COUNT_MOD
    ensures (now + 8 * len + target.Surplus(low, len)) % COUNT_MOD
            == (count + CountOf(target, before, cuts + [len])) % COUNT_MOD
  {
    NextCountOf(target, before, cuts, len, fed, low);
    NextCount(target, before, count, cuts, len, now, target.Surplus(low, len));
  }

  lemma NextOverwritten(before: nat, cuts: seq<nat>, len: nat, k: nat, fed: nat, start: nat)
    requires start == Sum(cuts) && fed == before + start
    ensures Overwritten(before, cuts + [len], k) <==> Overwritten(before, cuts, k) || InPlace(fed % 64, len, k - start)
  {
    assert (cuts + [len])[..|cuts|] == cuts;
  }

  /** A byte that an update leaves over stays what it is however the message goes on. */
  lemma LeftInPiece(build: Build, part: seq<byte>, whole: seq<byte>, before: nat, len: nat, start: nat, k: nat)
    requires part <= whole && |part| == before + len && start <= before && InPlace(before % 64, len, k - start)
    ensures before + k - start < |part|
    ensures LeftOver(build, part)[before + k - start] == LeftOver(build, whole)[before + k - start]
  {
    var g := before + k - start;
    InPlaceIsBlock(before - start, start, len, k);
    LeftOfPrefix(build, part, whole, g);
  }

  lemma UpdatedInWhole(build: Build, part: seq<byte>, whole: seq<byte>, data: seq<byte>, next: seq<byte>,
                       start: nat, len: nat, before: nat, left: seq<byte>, left': seq<byte>)
    requires part <= whole && |part| == before + len && start <= before
    requires left == LeftOver(build, part) && left' == LeftOver(build, whole)
    requires Updated(data, next, start, len, before, left)
    ensures Updated(data, next, start, len, before, left')
  {
    forall k | 0 <= k < |data|
      ensures next[k] == if InPlace(before % 64, len, k - start) then left'[before + k - start] else data[k]
    {
      if InPlace(before % 64, len, k - start) {
        LeftInPiece(build, part, whole, before, len, start, k);
      }
    }
  }

  lemma NextLeaves(data: seq<byte>, was: seq<byte>, left: seq<byte>, before: nat, cuts: seq<nat>,
                   start: nat, len: nat, now: nat, next: seq<byte>)
    requires start == Sum(cuts) && now == before + start
    requires Leaves(data, was, left, before, cuts) && Updated(data, next, start, len, now, left)
    ensures Leaves(next, was, left, before, cuts + [len])
  {
    forall k | 0 <= k < |was|
      ensures next[k] == if Overwritten(before, cuts + [len], k) then left[before + k] else was[k]
    {
      NextOverwritten(before, cuts, len, k, now, start);
    }
  }

  lemma NextTaken(data: seq<byte>, fed: seq<byte>, was: seq<byte>, start: nat, len: nat)
    requires start + len <= |data| == |was| && data[start..] == was[start..]
    ensures fed + was[..start] + data[start..start + len] == fed + was[..start + len]
  {
    assert data[start..start + len] == data[start..][..len] == was[start..][..len];
  }

  lemma NextLeft(data: seq<byte>, was: seq<byte>, start: nat, len: nat, next: seq<byte>, before: nat, left: seq<byte>)
    requires start + len <= |data| == |was| && data[start..] == was[start..]
    requires Updated(data, next, start, len, before, left)
    ensures next[start + len..] == was[start + len..]
  {
    assert next[start + len..] == data[start + len..] == data[start..][len..] == was[start..][len..];
  }

  lemma NextDelivered(now: seq<byte>, data: seq<byte>, fed: seq<byte>, was: seq<byte>, left: seq<byte>, cuts: seq<nat>,
                      start: nat, len: nat, next: seq<byte>)
    requires Delivered(now, data, fed, was, left, cuts) && start == Sum(cuts) && start + len <= |data|
    requires Updated(data, next, start, len, |now|, left)
    ensures Delivered(now + data[start..start + len], next, fed, was, left, cuts + [len])
  {
    NextStart(cuts, len);
    NextTaken(data, fed, was, start, len);
    NextLeaves(data, was, left, |fed|, cuts, start, len, |now|, next);
    NextLeft(data, was, start, len, next, |now|, left);
  }

  /** What is fed so far begins the whole message. */
  lemma DeliveredSoFar(now: seq<byte>, data: seq<byte>, fed: seq<byte>, was: seq<byte>, left: seq<byte>, cuts: seq<nat>,
                       start: nat, len: nat)
    requires Delivered(now, data, fed, was, left, cuts) && start == Sum(cuts) && start + len <= |data|
    ensures now + data[start..start + len] <= fed + was && |now| == |fed| + start
  {
    NextTaken(data, fed, was, start, len);
  }

  /** `SHA1_Update` in a run: what it leaves over is left over from the whole message. */
  method UpdateInRun(ctx: ShaCtx, data: array<byte>, start: nat, len: nat,
                     ghost whole: seq<byte>, ghost left: seq<byte>)
    requires ctx.Valid() && data != ctx.buffer && start + len <= data.Length && len + 63 < ctx.target.SizeMod()
    requires start <= |ctx.fed| && ctx.fed + data[start..start + len] <= whole
    requires left == LeftOver(ctx.target.build, whole)
    modifies ctx, ctx.state, ctx.buffer, data
    ensures ctx.Valid() && ctx.fed == old(ctx.fed) + old(data[start..start + len])
    ensures ctx.Count() == (old(ctx.Count()) + 8 * len + ctx.target.Surplus(old(ctx.count0), len)) % COUNT_MOD
    ensures Updated(old(data[..]), data[..], start, len, old(|ctx.fed|), left)
  {
    ghost var was, before := data[..], |ctx.fed|;
    ctx.Update(data, start, len);
    ghost var build := ctx.target.build;
    UpdatedInWhole(build, ctx.fed, whole, was, data[..], start, len, before, LeftOver(build, ctx.fed), left);
  }

  /** One update in a run. */
  method FeedPiece(ctx: ShaCtx, data: array<byte>, start: nat, len: nat, ghost fed: seq<byte>, ghost count: nat,
                   ghost was: seq<byte>, ghost left: seq<byte>, ghost cuts: seq<nat>)
    requires Fed(ctx, data, fed, count, was, left, cuts) && start == Sum(cuts)
    requires left == LeftOver(ctx.target.build, fed + was)
    requires data != ctx.buffer && start + len <= data.Length && len + 63 < ctx.target.SizeMod()
    modifies ctx, ctx.state, ctx.buffer, data
    ensures Fed(ctx, data, fed, count, was, left, cuts + [len])
  {
    ghost var now, mid := ctx.fed, data[..];
    DeliveredSoFar(now, mid, fed, was, left, cuts, start, len);
    FedCount(ctx.target, |fed|, count, cuts, len, |now|, ctx.count0, ctx.Count());
    UpdateInRun(ctx, data, start, len, fed + was, left);
    NextDelivered(now, mid, fed, was, left, cuts, start, len, data[..]);
  }

  lemma NothingDelivered(fed: seq<byte>, data: seq<byte>, left: seq<byte>)
    requires |left| == |fed| + |data|
    ensures Delivered(fed, data, fed, data, left, [])
  {
    assert data[..0] == [];
  }

  /** A message fed in consecutive pieces of the given lengths. */
  method FeedPieces(ctx: ShaCtx, data: array<byte>, cuts: seq<nat>)
    requires ctx.Valid() && data != ctx.buffer && Sum(cuts) == data.Length
    requires forall k :: 0 <= k < |cuts| ==> cuts[k] + 63 < ctx.target.SizeMod()
    modifies ctx, ctx.state, ctx.buffer, data
    ensures var fed, was := old(ctx.fed), old(data[..]);
            && ctx.fed == fed + was
            && Fed(ctx, data, fed, old(ctx.Count()), was, LeftOver(ctx.target.build, fed + was), cuts)
  {
    ghost var fed, count, was := ctx.fed, ctx.Count(), data[..];
    ghost var left := LeftOver(ctx.target.build, fed + was);
    NothingDelivered(fed, was, left);
    FeedAll(ctx, data, cuts, fed, count, was, left);
    assert was[..data.Length] == was;
  }

  /** The calls of the run. */
  method FeedAll(ctx: ShaCtx, data: array<byte>, cuts: seq<nat>, ghost fed: seq<byte>, ghost count: nat,
                 ghost was: seq<byte>, ghost left: seq<byte>)
    requires data != ctx.buffer && Sum(cuts) == data.Length
    requires forall k :: 0 <= k < |cuts| ==> cuts[k] + 63 < ctx.target.SizeMod()
    requires Fed(ctx, data, fed, count, was, left, []) && left == LeftOver(ctx.target.build, fed + was)
    modifies ctx, ctx.state, ctx.buffer, data
    ensures Fed(ctx, data, fed, count, was, left, cuts)
  {
    var start, n := 0, 0;
    assert cuts[..n] == [];
    while n < |cuts|
      invariant n <= |cuts| && start == Sum(cuts[..n])
      invariant Fed(ctx, data, fed, count, was, left, cuts[..n])
    {
      NextCut(cuts, n);
      FeedPiece(ctx, data, start, cuts[n], fed, count, was, left, cuts[..n]);
      start, n := start + cuts[n], n + 1;
    }
    assert cuts[..n] == cuts;
  }

  method StartAndFeed(ctx: ShaCtx, data: array<byte>, cuts: seq<nat>)
    requires ctx.state.Length == 5 && ctx.buffer.Length == 64 && data != ctx.buffer && Sum(cuts) == data.Length
    requires forall k :: 0 <= k < |cuts| ==> cuts[k] + 63 < ctx.target.SizeMod()
    modifies ctx, ctx.state, ctx.buffer, data
    ensures ctx.Valid() && ctx.fed == old(data[..]) && ctx.Count() == CountedField(ctx.target, cuts)
    ensures Leaves(data[..], old(data[..]), LeftOver(ctx.target.build, old(data[..])), 0, cuts)
  {
    ghost var was := data[..];
    ctx.Init();
    FeedPieces(ctx, data, cuts);
    AllDelivered(ctx.fed, data[..], was, LeftOver(ctx.target.build, [] + was), cuts);
  }

  lemma AllDelivered(now: seq<byte>, data: seq<byte>, was: seq<byte>, left: seq<byte>, cuts: seq<nat>)
    requires Delivered(now, data, [], was, left, cuts) && Sum(cuts) == |was|
    ensures now == was == [] + was && Leaves(data, was, left, 0, cuts)
  {
  }

  /** Init, one Update for each of the given lengths, Final: the digest of the message as it was before the first call,
      although the updates have overwritten parts of it. Miscounted pieces show in the length field and nowhere else. */
  method DigestOfPieces(ctx: ShaCtx, data: array<byte>, cuts: seq<nat>, digest: array<byte>)
    requires ctx.state.Length == 5 && ctx.buffer.Length == 64 && digest.Length == 20
    requires data != ctx.buffer && digest != ctx.buffer && digest != data
    requires Sum(cuts) == data.Length
    requires forall k :: 0 <= k < |cuts| ==> cuts[k] + 63 < ctx.target.SizeMod()
    modifies ctx, ctx.state, ctx.buffer, data, digest
    ensures digest[..] == DigestOn(ctx.target.build, old(data[..]), CountedField(ctx.target, cuts))
    ensures ctx.target.build.Agrees() ==>
              digest[..] == HashPadded(old(data[..]), CountedField(ctx.target, cuts))
    ensures ctx.target.build.Agrees() && (Misses(ctx.target, 0, cuts) % WORD_MOD == 0 || ShortPieces(ctx.target, cuts))
            ==> digest[..] == Sha1(old(data[..]))
    ensures Leaves(data[..], old(data[..]), LeftOver(ctx.target.build, old(data[..])), 0, cuts)
  {
    StartAndFeed(ctx, data, cuts);
    if ctx.target.build.Agrees() {
      FieldGivesSha1(ctx.target, ctx.fed, cuts);
    }
    ctx.Final(digest);
  }

  /** Contexts fed the same bytes agree on everything that later calls read, however the bytes arrived. */
  lemma SameMessageSameContext(c: ShaCtx, d: ShaCtx)
    requires c.Valid() && d.Valid() && c.fed == d.fed && c.target.build == d.target.build
    ensures c.state[..] == d.state[..] && c.count0 == d.count0
    ensures c.buffer[..|c.fed| % 64] == d.buffer[..|d.fed| % 64]
    ensures c.Counts() && d.Counts() ==> c.count1 == d.count1
  {
    assert StateOf(c.state) == HashOn(c.target.build, c.fed, |c.fed| / 64) == StateOf(d.state);
  }

  /** Counts that differ in units of the high word are equal exactly if the units differ by a multiple of 2^32. */
  lemma SameCount(x: nat, m: nat, l: nat)
    ensures (x + WORD_MOD * m) % COUNT_MOD == (x + WORD_MOD * l) % COUNT_MOD <==> m % WORD_MOD == l % WORD_MOD
  {
    var a, r, b, t := m / WORD_MOD, m % WORD_MOD, l / WORD_MOD, l % WORD_MOD;
    assert WORD_MOD * m == COUNT_MOD * a + WORD_MOD * r && WORD_MOD * l == COUNT_MOD * b + WORD_MOD * t;
    CountPeriod(x + WORD_MOD * r, a);
    CountPeriod(x + WORD_MOD * t, b);
    if t <= r {
      SmallSurplus(x + WORD_MOD * t, WORD_MOD * (r - t));
    } else {
      SmallSurplus(x + WORD_MOD * r, WORD_MOD * (t - r));
    }
  }

  lemma SameHigh(high: int, low: int, high': int, low': int)
    requires low == low'
    ensures high * WORD_MOD + low == high' * WORD_MOD + low' <==> high == high'
  {
  }

  lemma CountModulo(target: Target, before: nat, cuts: seq<nat>, was: nat, x: nat, now: nat)
    requires x == was + 8 * Sum(cuts) && now == (was + CountOf(target, before, cuts)) % COUNT_MOD
    ensures now == (x + WORD_MOD * Misses(target, before, cuts)) % COUNT_MOD
  {
  }

  lemma NeitherMisses(target: Target, before: nat, cuts: seq<nat>, cuts': seq<nat>)
    requires ShortPieces(target, cuts) && ShortPieces(target, cuts')
    ensures Misses(target, before, cuts) == Misses(target, before, cuts')
  {
    ShortPiecesNeverMissed(target, before, cuts);
    ShortPiecesNeverMissed(target, before, cuts');
  }

  /** The counts of two runs from the same count, with the same low word. */
  lemma SplitsAgree(target: Target, before: nat, cuts: seq<nat>, cuts': seq<nat>, was: nat, now: nat, now': nat)
    requires Sum(cuts) == Sum(cuts')
    requires now == (was + CountOf(target, before, cuts)) % COUNT_MOD
    requires now' == (was + CountOf(target, before, cuts')) % COUNT_MOD
    ensures now == now' <==> Misses(target, before, cuts) % WORD_MOD == Misses(target, before, cuts') % WORD_MOD
    ensures ShortPieces(target, cuts) && ShortPieces(target, cuts') ==> now == now'
  {
    var x := was + 8 * Sum(cuts);
    CountModulo(target, before, cuts, was, x, now);
    CountModulo(target, before, cuts', was, x, now');
    CountsAgree(target, before, cuts, cuts', x, now, now');
  }

  lemma CountsAgree(target: Target, before: nat, cuts: seq<nat>, cuts': seq<nat>, x: nat, now: nat, now': nat)
    requires now == (x + WORD_MOD * Misses(target, before, cuts)) % COUNT_MOD
    requires now' == (x + WORD_MOD * Misses(target, before, cuts')) % COUNT_MOD
    ensures now == now' <==> Misses(target, before, cuts) % WORD_MOD == Misses(target, before, cuts') % WORD_MOD
    ensures ShortPieces(target, cuts) && ShortPieces(target, cuts') ==> now == now'
  {
    SameCount(x, Misses(target, before, cuts), Misses(target, before, cuts'));
    if ShortPieces(target, cuts) && ShortPieces(target, cuts') {
      NeitherMisses(target, before, cuts, cuts');
    }
  }

  method FeedCounted(ctx: ShaCtx, data: array<byte>, cuts: seq<nat>)
    requires ctx.Valid() && data != ctx.buffer && Sum(cuts) == data.Length
    requires forall k :: 0 <= k < |cuts| ==> cuts[k] + 63 < ctx.target.SizeMod()
    modifies ctx, ctx.state, ctx.buffer, data
    ensures ctx.Valid() && ctx.fed == old(ctx.fed) + old(data[..])
    ensures ctx.Count() == (old(ctx.Count()) + CountOf(ctx.target, old(|ctx.fed|), cuts)) % COUNT_MOD
  {
    FeedPieces(ctx, data, cuts);
  }

  method FeedBoth(c: ShaCtx, d: ShaCtx, data: array<byte>, copy: array<byte>, cuts: seq<nat>, cuts': seq<nat>)
    requires c.Valid() && d.Valid() && c.fed == d.fed && c.target == d.target
    requires c != d && c.state != d.state && c.buffer != d.buffer
    requires data != copy && {data, copy} !! {c.buffer, d.buffer} && data[..] == copy[..]
    requires Sum(cuts) == Sum(cuts') == data.Length
    requires forall k :: 0 <= k < |cuts| ==> cuts[k] + 63 < c.target.SizeMod()
    requires forall k :: 0 <= k < |cuts'| ==> cuts'[k] + 63 < c.target.SizeMod()
    modifies c, c.state, c.buffer, d, d.state, d.buffer, data, copy
    ensures c.Valid() && d.Valid() && c.fed == d.fed == old(c.fed) + old(data[..])
    ensures c.Count() == (old(c.Count()) + CountOf(c.target, old(|c.fed|), cuts)) % COUNT_MOD
    ensures d.Count() == (old(d.Count()) + CountOf(c.target, old(|c.fed|), cuts')) % COUNT_MOD
    ensures c.state[..] == d.state[..] && c.count0 == d.count0
    ensures c.buffer[..|c.fed| % 64] == d.buffer[..|d.fed| % 64]
  {
    FeedCounted(c, data, cuts);
    FeedCounted(d, copy, cuts');
    SameMessageSameContext(c, d);
  }

  /** However the same bytes are cut, as two pieces or as one, say, the context is the same. High count words that
      agreed before agree again exactly if both ways miscount equally often, modulo 2^32; short pieces are never
      miscounted. */
  method AnyTwoSplits(c: ShaCtx, d: ShaCtx, data: array<byte>, copy: array<byte>, cuts: seq<nat>, cuts': seq<nat>)
    requires c.Valid() && d.Valid() && c.fed == d.fed && c.target == d.target
    requires c != d && c.state != d.state && c.buffer != d.buffer
    requires data != copy && {data, copy} !! {c.buffer, d.buffer} && data[..] == copy[..]
    requires Sum(cuts) == Sum(cuts') == data.Length
    requires forall k :: 0 <= k < |cuts| ==> cuts[k] + 63 < c.target.SizeMod()
    requires forall k :: 0 <= k < |cuts'| ==> cuts'[k] + 63 < c.target.SizeMod()
    modifies c, c.state, c.buffer, d, d.state, d.buffer, data, copy
    ensures c.Valid() && d.Valid() && c.fed == d.fed == old(c.fed) + old(data[..])
    ensures c.state[..] == d.state[..] && c.count0 == d.count0
    ensures c.buffer[..|c.fed| % 64] == d.buffer[..|d.fed| % 64]
    ensures old(c.count1 == d.count1) ==>
              (c.count1 == d.count1 <==>
               Misses(c.target, old(|c.fed|), cuts) % WORD_MOD == Misses(c.target, old(|c.fed|), cuts') % WORD_MOD)
    ensures old(c.count1 == d.count1) && ShortPieces(c.target, cuts) && ShortPieces(c.target, cuts') ==>
              c.count1 == d.count1
  {
    ghost var before, was, same := |c.fed|, c.Count(), c.count1 == d.count1;
    FeedBoth(c, d, data, copy, cuts, cuts');
    SameHigh(c.count1, c.count0, d.count1, d.count0);
    if same {
      SplitsAgree(c.target, before, cuts, cuts', was, c.Count(), d.Count());
    }
  }
}
