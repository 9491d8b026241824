/** The opcodes of the compressing QOI encoder in QOID.hpp, following the Quite OK Image Format
    specification v1.0: their wire bytes, the colour cache they consult, and the fixed priority
    RUN > DIFF > LUMA > INDEX > NEW by which the encoder chooses one for each pixel. */
module QoiOps {
  import opened Bytes
  import opened Channels
  import opened Pixel32

  /** Value ranges of the operands, as the encoder checks them before choosing an opcode. */
  type RunLength = n: int | 1 <= n <= 62 witness 1
  type SmallDiff = d: int | -2 <= d <= 1 witness 0
  type LumaGreen = d: int | -32 <= d <= 31 witness 0
  type LumaDiff = d: int | -8 <= d <= 7 witness 0

  /** One chunk of the encoded stream. `New` carries the pixel's channels. */
  datatype Opcode =
    | Run(length: RunLength)
    | Diff(dr: SmallDiff, dg: SmallDiff, db: SmallDiff)
    | Luma(lumaDg: LumaGreen, drDg: LumaDiff, dbDg: LumaDiff)
    | Index(slot: byte)
    | New(r: byte, g: byte, b: byte, a: byte)

  /** The slot the cache stores for a colour: `(3R + 5G + 7B + 11A) % 64`. */
  function Hash(big: bool, p: Pixel): (h: nat)
    ensures h < 64
  {
    (3 * R(big, p) + 5 * G(big, p) + 7 * B(big, p) + 11 * A(big, p)) % 64
  }

  /** QOI_OP_RUN: `(n - 1) | 0xC0`; the two fields do not overlap, so `|` is `+`. */
  function RunByte(n: RunLength): (b: byte)
    ensures b / 64 == 3 && b % 64 == n - 1 && b < 0xFE
  {
    DivMod(3, n - 1, 64);
    0xC0 + (n - 1)
  }

  /** QOI_OP_DIFF: `0x40 | (dr + 2) << 4 | (dg + 2) << 2 | (db + 2)`. */
  function DiffByte(dr: SmallDiff, dg: SmallDiff, db: SmallDiff): (b: byte)
    ensures b / 64 == 1
    ensures (b / 16) % 4 == dr + 2 && (b / 4) % 4 == dg + 2 && b % 4 == db + 2
  {
    var b := 0x40 + (dr + 2) * 16 + (dg + 2) * 4 + (db + 2);
    DivMod(1, (dr + 2) * 16 + (dg + 2) * 4 + (db + 2), 64);
    DivMod(4 + (dr + 2), (dg + 2) * 4 + (db + 2), 16);
    DivMod(1, dr + 2, 4);
    DivMod(16 + (dr + 2) * 4 + (dg + 2), db + 2, 4);
    DivMod(4 * (4 + (dr + 2)), dg + 2, 4);
    DivMod(4 * (1 * 4 + (dr + 2)) + (dg + 2), db + 2, 4);
    b
  }

  /** The 16-bit QOI_OP_LUMA word `0x8000 | (dg + 32) << 8 | (dr - dg + 8) << 4 | (db - dg + 8)`. */
  function LumaWord(dg: LumaGreen, drDg: LumaDiff, dbDg: LumaDiff): (w: u16)
    ensures w / 0x100 == 0x80 + (dg + 32)
    ensures w % 0x100 == (drDg + 8) * 16 + (dbDg + 8)
  {
    DivMod(0x80 + (dg + 32), (drDg + 8) * 16 + (dbDg + 8), 0x100);
    0x8000 + (dg + 32) * 0x100 + (drDg + 8) * 16 + (dbDg + 8)
  }

  /** The two bytes `memcpy` copies for LUMA: a big-endian host stores the word as it is, a
      little-endian host stores `std::byteswap` of it. Both give the wire order of the format:
      tag `10` with the green difference, then the red and blue differences against green. */
  function LumaBytes(big: bool, dg: LumaGreen, drDg: LumaDiff, dbDg: LumaDiff): (s: seq<byte>)
    ensures |s| == 2
    ensures s[0] / 64 == 2 && s[0] % 64 == dg + 32
    ensures s[1] / 16 == drDg + 8 && s[1] % 16 == dbDg + 8
  {
    var w := LumaWord(dg, drDg, dbDg);
    DivMod(2, dg + 32, 64);
    DivMod(drDg + 8, dbDg + 8, 16);
    if big then Bytes16(w, true) else Bytes16(ByteSwap16(w), false)
  }

  /** QOI_OP_RGBA: `0xFF`, then `memcpy` of the packed pixel, whose bytes lie in memory as
      R, G, B, A on either host. */
  function NewBytes(big: bool, r: byte, g: byte, b: byte, a: byte): (s: seq<byte>)
    ensures s == [0xFF, r, g, b, a]
  {
    [0xFF] + MemoryBytes(big, FromChannels(big, r, g, b, a))
  }

  /** The bytes the encoder writes for one opcode. */
  function OpBytes(big: bool, op: Opcode): (s: seq<byte>)
    ensures 1 <= |s| <= 5
  {
    match op
    case Run(n) => [RunByte(n)]
    case Diff(dr, dg, db) => [DiffByte(dr, dg, db)]
    case Luma(dg, drDg, dbDg) => LumaBytes(big, dg, drDg, dbDg)
    case Index(slot) => [slot]
    case New(r, g, b, a) => NewBytes(big, r, g, b, a)
  }

  /** The wire bytes of every opcode are the same on a big- and a little-endian host. */
  lemma {:induction false} OpBytesSameOnBothHosts(op: Opcode)
    ensures OpBytes(true, op) == OpBytes(false, op)
  {
    match op
    case Luma(dg, drDg, dbDg) =>
      var s, t := LumaBytes(true, dg, drDg, dbDg), LumaBytes(false, dg, drDg, dbDg);
      assert s[0] == 64 * 2 + (dg + 32) == t[0];
      assert s[1] == 16 * (drDg + 8) + (dbDg + 8) == t[1];
    case _ =>
  }

  /** How many pixels an opcode accounts for. */
  function Covers(op: Opcode): (n: nat)
    ensures 1 <= n <= 62
  {
    if op.Run? then op.length else 1
  }

  /** The tag bits of each opcode's first byte are those of the format (INDEX `00` when the slot is
      below 64, DIFF `01`, LUMA `10`, RUN `11` with a length field of at most 61, RGBA `0xFF`), so a
      decoder tells them apart. Each opcode spends at most 5 bytes per pixel it covers. */
  lemma {:induction false} OpTags(big: bool, op: Opcode)
    ensures op.Index? && op.slot < 64 ==> OpBytes(big, op)[0] / 64 == 0
    ensures op.Diff? ==> OpBytes(big, op)[0] / 64 == 1
    ensures op.Luma? ==> OpBytes(big, op)[0] / 64 == 2
    ensures op.Run? ==> OpBytes(big, op)[0] / 64 == 3 && OpBytes(big, op)[0] < 0xFE
    ensures op.New? ==> OpBytes(big, op)[0] == 0xFF
    ensures !op.New? && (op.Index? ==> op.slot < 64) ==> OpBytes(big, op)[0] != 0xFF
    ensures |OpBytes(big, op)| <= 5 * Covers(op)
  {
  }

  /** The worked example of a DIFF: on either host and whatever the cache holds, the pixel
      (101, 99, 100, 255) after (100, 100, 100, 255) is encoded as DIFF with dr = 1, dg = -1,
      db = 0, which is the single byte 0x76. */
  lemma DiffExample(big: bool, cache: map<u32, byte>)
    ensures SelectOp(big, [FromChannels(big, 100, 100, 100, 255), FromChannels(big, 101, 99, 100, 255)], 1, cache)
            == Diff(1, -1, 0)
    ensures OpBytes(big, Diff(1, -1, 0)) == [0x76]
  {
    var prev, cur := FromChannels(big, 100, 100, 100, 255), FromChannels(big, 101, 99, 100, 255);
    assert Delta(big, prev, cur, Red) == 1;
    assert Delta(big, prev, cur, Green) == -1;
    assert Delta(big, prev, cur, Blue) == 0;
  }

  /** The channel differences of two pixels, as the encoder computes them in `int`. */
  /** The channel differences of two pixels, as the encoder computes them in `int`. */
  function Delta(big: bool, prev: Pixel, cur: Pixel, c: Channel): int {
    Get(big, cur, c) - Get(big, prev, c)
  }

  /** RUN applies when the packed pixel repeats the previous one. */
  predicate CanRun(prev: Pixel, cur: Pixel) {
    cur.packed == prev.packed
  }

  /** DIFF applies when alpha is unchanged and each colour channel moves by -2 .. 1. */
  predicate CanDiff(big: bool, prev: Pixel, cur: Pixel) {
    A(big, cur) == A(big, prev)
    && -2 <= Delta(big, prev, cur, Red) <= 1
    && -2 <= Delta(big, prev, cur, Green) <= 1
    && -2 <= Delta(big, prev, cur, Blue) <= 1
  }

  /** LUMA applies when alpha is unchanged, green moves by -32 .. 31 and red and blue move by
      -8 .. 7 more than green. */
  predicate CanLuma(big: bool, prev: Pixel, cur: Pixel) {
    A(big, cur) == A(big, prev)
    && -32 <= Delta(big, prev, cur, Green) <= 31
    && -8 <= Delta(big, prev, cur, Red) - Delta(big, prev, cur, Green) <= 7
    && -8 <= Delta(big, prev, cur, Blue) - Delta(big, prev, cur, Green) <= 7
  }

  /** INDEX applies when the packed pixel is a key of the cache. */
  predicate CanIndex(cur: Pixel, cache: map<u32, byte>) {
    cur.packed in cache
  }

  /** Computed in `int`, a difference never wraps: it is what a decoder adds to the previous
      channel to get the current one. */
  lemma DeltaRestores(big: bool, prev: Pixel, cur: Pixel, c: Channel)
    ensures -255 <= Delta(big, prev, cur, c) <= 255
    ensures Get(big, prev, c) + Delta(big, prev, cur, c) == Get(big, cur, c)
  {
  }

  /** The RUN test compares packed words, which is the same as comparing the pixels. */
  lemma CanRunMeans(prev: Pixel, cur: Pixel)
    ensures CanRun(prev, cur) <==> cur == prev
  {
  }

  /** The DIFF test passes exactly when some DIFF chunk describes the pixel, and then the chunk of
      its three deltas does. */
  lemma CanDiffMeans(big: bool, prev: Pixel, cur: Pixel)
    ensures CanDiff(big, prev, cur) <==>
              exists dr: SmallDiff, dg: SmallDiff, db: SmallDiff :: Describes(big, Diff(dr, dg, db), prev, cur, map[])
  {
    if CanDiff(big, prev, cur) {
      assert Describes(big, Diff(Delta(big, prev, cur, Red), Delta(big, prev, cur, Green),
                                 Delta(big, prev, cur, Blue)), prev, cur, map[]);
    }
  }

  /** The LUMA test passes exactly when some LUMA chunk describes the pixel. */
  lemma CanLumaMeans(big: bool, prev: Pixel, cur: Pixel)
    ensures CanLuma(big, prev, cur) <==>
              exists dg: LumaGreen, drDg: LumaDiff, dbDg: LumaDiff :: Describes(big, Luma(dg, drDg, dbDg), prev, cur, map[])
  {
    if CanLuma(big, prev, cur) {
      var dg := Delta(big, prev, cur, Green);
      assert Describes(big, Luma(dg, Delta(big, prev, cur, Red) - dg, Delta(big, prev, cur, Blue) - dg),
                       prev, cur, map[]);
    }
  }

  /** The INDEX test passes exactly when some INDEX chunk describes the pixel: the one naming the
      slot the cache holds for it. */
  lemma CanIndexMeans(big: bool, prev: Pixel, cur: Pixel, cache: map<u32, byte>)
    ensures CanIndex(cur, cache) <==> exists slot: byte :: Describes(big, Index(slot), prev, cur, cache)
  {
    if CanIndex(cur, cache) {
      assert Describes(big, Index(cache[cur.packed]), prev, cur, cache);
    }
  }

  /** The length of the run that starts at `pos` given that its first `count` pixels already
      repeat `pixels[pos]`: the counting loop of the RUN case, which stops at 62 pixels, at the
      end of the data or at the first different pixel. */
  function RunFrom(pixels: seq<Pixel>, pos: nat, count: nat): (n: RunLength)
    requires 1 <= count <= 62 && pos + count <= |pixels|
    requires forall k :: pos <= k < pos + count ==> pixels[k] == pixels[pos]
    ensures count <= n && pos + n <= |pixels|
    ensures forall k :: pos <= k < pos + n ==> pixels[k] == pixels[pos]
    ensures n == 62 || pos + n == |pixels| || pixels[pos + n] != pixels[pos]
    decreases 62 - count
  {
    if count < 62 && pos + count != |pixels| && pixels[pos + count].packed == pixels[pos].packed then
      RunFrom(pixels, pos, count + 1)
    else
      count
  }

  /** The run the encoder emits at `pos`: the longest stretch of pixels equal to `pixels[pos]`,
      capped at 62. */
  function RunAt(pixels: seq<Pixel>, pos: nat): (n: RunLength)
    requires pos < |pixels|
    ensures pos + n <= |pixels|
    ensures forall k :: pos <= k < pos + n ==> pixels[k] == pixels[pos]
    ensures n == 62 || pos + n == |pixels| || pixels[pos + n] != pixels[pos]
  {
    RunFrom(pixels, pos, 1)
  }

  /** What an opcode says about the current pixel given the previous one and the cache: what a
      QOI decoder reading it would reconstruct. */
  predicate Describes(big: bool, op: Opcode, prev: Pixel, cur: Pixel, cache: map<u32, byte>) {
    match op
    case Run(_) => cur == prev
    case Diff(dr, dg, db) =>
      A(big, cur) == A(big, prev) && Delta(big, prev, cur, Red) == dr
      && Delta(big, prev, cur, Green) == dg && Delta(big, prev, cur, Blue) == db
    case Luma(dg, drDg, dbDg) =>
      A(big, cur) == A(big, prev) && Delta(big, prev, cur, Green) == dg
      && Delta(big, prev, cur, Red) == dg + drDg && Delta(big, prev, cur, Blue) == dg + dbDg
    case Index(slot) => cur.packed in cache && cache[cur.packed] == slot
    case New(r, g, b, a) => cur == FromChannels(big, r, g, b, a)
  }

  /** The opcode `WriteToBuffer` chooses for the pixel at `pos` (never the first pixel). It is
      an opcode that describes the pixel, and of the opcodes that could, it is the first in the
      order RUN, DIFF, LUMA, INDEX, NEW. A RUN covers the maximal run from `pos`. */
  function SelectOp(big: bool, pixels: seq<Pixel>, pos: nat, cache: map<u32, byte>): (op: Opcode)
    requires 1 <= pos < |pixels|
    ensures Describes(big, op, pixels[pos - 1], pixels[pos], cache)
    ensures op.Run? <==> CanRun(pixels[pos - 1], pixels[pos])
    ensures op.Run? ==> op.length == RunAt(pixels, pos)
    ensures op.Diff? <==> !CanRun(pixels[pos - 1], pixels[pos]) && CanDiff(big, pixels[pos - 1], pixels[pos])
    ensures op.Luma? <==> !CanRun(pixels[pos - 1], pixels[pos]) && !CanDiff(big, pixels[pos - 1], pixels[pos])
                          && CanLuma(big, pixels[pos - 1], pixels[pos])
    ensures op.Index? <==> !CanRun(pixels[pos - 1], pixels[pos]) && !CanDiff(big, pixels[pos - 1], pixels[pos])
                           && !CanLuma(big, pixels[pos - 1], pixels[pos]) && CanIndex(pixels[pos], cache)
    ensures pos + Covers(op) <= |pixels|
  {
    var prev, cur := pixels[pos - 1], pixels[pos];
    if CanRun(prev, cur) then
      Run(RunAt(pixels, pos))
    else if CanDiff(big, prev, cur) then
      Diff(Delta(big, prev, cur, Red), Delta(big, prev, cur, Green), Delta(big, prev, cur, Blue))
    else if CanLuma(big, prev, cur) then
      var dg := Delta(big, prev, cur, Green);
      Luma(dg, Delta(big, prev, cur, Red) - dg, Delta(big, prev, cur, Blue) - dg)
    else if CanIndex(cur, cache) then
      Index(cache[cur.packed])
    else
      ChannelsDetermine(big, cur, FromChannels(big, R(big, cur), G(big, cur), B(big, cur), A(big, cur)));
      New(R(big, cur), G(big, cur), B(big, cur), A(big, cur))
  }

  /** The opcode `WriteFirstCol` always emits for the first pixel. */
  function FirstOp(big: bool, p: Pixel): (op: Opcode)
    ensures op.New? && Describes(big, op, p, p, map[])
  {
    ChannelsDetermine(big, p, FromChannels(big, R(big, p), G(big, p), B(big, p), A(big, p)));
    New(R(big, p), G(big, p), B(big, p), A(big, p))
  }

  /** What the cache of `updateIndex` always satisfies: at most 64 entries, each storing the hash
      of its own key, hence a slot below 64. */
  ghost predicate CacheInv(big: bool, cache: map<u32, byte>) {
    |cache| <= 64 && forall k :: k in cache ==> cache[k] == Hash(big, Pixel(k))
  }

  /** One `updateIndex(SeenPixels, px, SwapNum)`: a full cache (64 entries or more) first loses one
      entry, which one being left open because the iteration order of `std::unordered_map` is
      unspecified; then the pixel's key is stored with its hash. */
  ghost predicate Inserted(big: bool, before: map<u32, byte>, p: Pixel, after: map<u32, byte>) {
    if |before| >= 64 then
      exists victim :: victim in before && after == (before - {victim})[p.packed := Hash(big, p)]
    else
      after == before[p.packed := Hash(big, p)]
  }

  /** DIFF, LUMA and NEW insert the pixel into the cache; RUN and INDEX leave it as it is. */
  ghost predicate CacheStep(big: bool, before: map<u32, byte>, op: Opcode, cur: Pixel, after: map<u32, byte>) {
    if op.Diff? || op.Luma? || op.New? then Inserted(big, before, cur, after) else after == before
  }

  /** What one `updateIndex` does to the cache: the pixel's key ends up holding its hash, every
      other key it holds was there before with the same slot, and a cache that was not full keeps
      all its keys. */
  lemma InsertedEffect(big: bool, before: map<u32, byte>, p: Pixel, after: map<u32, byte>)
    requires Inserted(big, before, p, after)
    ensures p.packed in after && after[p.packed] == Hash(big, p)
    ensures forall k :: k in after && k != p.packed ==> k in before && after[k] == before[k]
    ensures |before| < 64 ==> after.Keys == before.Keys + {p.packed}
  {
  }

  /** What a chunk does to the cache: DIFF, LUMA and NEW leave the pixel's hash under its key, and
      no chunk adds or changes any other key. */
  lemma CacheStepEffect(big: bool, before: map<u32, byte>, op: Opcode, cur: Pixel, after: map<u32, byte>)
    requires CacheStep(big, before, op, cur, after)
    ensures op.Diff? || op.Luma? || op.New? ==> cur.packed in after && after[cur.packed] == Hash(big, cur)
    ensures forall k :: k in after && k != cur.packed ==> k in before && after[k] == before[k]
  {
    if op.Diff? || op.Luma? || op.New? {
      InsertedEffect(big, before, cur, after);
    }
  }

  /** Storing one key grows a map by at most one entry; removing a present key shrinks it by one. */
  lemma {:induction false} StoreSize(m: map<u32, byte>, k: u32, v: byte)
    ensures |m[k := v]| <= |m| + 1
  {
    assert m[k := v].Keys == m.Keys + {k};
  }

  lemma {:induction false} RemoveSize(m: map<u32, byte>, k: u32)
    requires k in m
    ensures |m - {k}| == |m| - 1
  {
    assert (m - {k}).Keys == m.Keys - {k};
  }

  /** Every stored entry holds the hash of its key before and after one store of a hash. */
  lemma {:induction false} StoreKeepsHashes(big: bool, m: map<u32, byte>, p: Pixel)
    requires forall k :: k in m ==> m[k] == Hash(big, Pixel(k))
    ensures forall k :: k in m[p.packed := Hash(big, p)] ==> m[p.packed := Hash(big, p)][k] == Hash(big, Pixel(k))
  {
  }

  /** `updateIndex` keeps the cache invariant, and afterwards the pixel's key is present. */
  lemma {:induction false} InsertedKeepsInv(big: bool, before: map<u32, byte>, p: Pixel, after: map<u32, byte>)
    requires CacheInv(big, before) && Inserted(big, before, p, after)
    ensures CacheInv(big, after)
    ensures p.packed in after && after[p.packed] == Hash(big, p)
  {
    var base := before;
    if |before| >= 64 {
      var victim :| victim in before && after == (before - {victim})[p.packed := Hash(big, p)];
      base := before - {victim};
      RemoveSize(before, victim);
    }
    assert after == base[p.packed := Hash(big, p)];
    assert |base| <= 63 || |before| < 64;
    StoreSize(base, p.packed, Hash(big, p));
    StoreKeepsHashes(big, base, p);
  }

  /** Every step of the encoder keeps the cache invariant. */
  lemma {:induction false} CacheStepKeepsInv(big: bool, before: map<u32, byte>, op: Opcode, cur: Pixel, after: map<u32, byte>)
    requires CacheInv(big, before) && CacheStep(big, before, op, cur, after)
    ensures CacheInv(big, after)
  {
    if op.Diff? || op.Luma? || op.New? {
      InsertedKeepsInv(big, before, cur, after);
    }
  }

  /** With the cache invariant, an INDEX byte has its top two bits clear and names the slot
      `(3R + 5G + 7B + 11A) % 64` of the pixel it stands for. */
  lemma {:induction false} IndexSlotIsHash(big: bool, pixels: seq<Pixel>, pos: nat, cache: map<u32, byte>)
    requires 1 <= pos < |pixels| && CacheInv(big, cache)
    requires SelectOp(big, pixels, pos, cache).Index?
    ensures SelectOp(big, pixels, pos, cache).slot == Hash(big, pixels[pos])
    ensures OpBytes(big, SelectOp(big, pixels, pos, cache))[0] / 64 == 0
  {
    var op := SelectOp(big, pixels, pos, cache);
    assert pixels[pos].packed in cache;
    assert Pixel(pixels[pos].packed) == pixels[pos];
    OpTags(big, op);
  }
}
