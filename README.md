# QOI-Image in Dafny

A model of the QOI-Image C++ library: its compressing encoder for the Quite OK Image Format
(QOI, specification v1.0), the pixel types it packs colours into, the two pixel grids, the TGA
writer and the draft QOI writer. The model covers the byte-exact behaviour of each writer and
proves what the formats and the code promise about it.

Host byte order (`BIG_ENDIAN` in the source) is a parameter `big: bool` throughout. Every
property is proved for both values, and the wire bytes are proved equal on both hosts.

## Layout

| file | module | what it models |
|---|---|---|
| `bytes.dfy` | `Bytes` | bytes and words as bounded integers, memory order on either host, `std::byteswap`, clamped channel arithmetic, `|` `&` `^`, `memcpy` into an array |
| `channels.dfy` | `Channels` | the four colour channels |
| `pixel32.dfy` | `Pixel32` | the packed 32-bit `struct Pixel` of `QOID.hpp`, `src/QOID/DataTypes/pixel.hpp` and `Code/QOID/pixel.hpp`, and a `PixelVar` class for its mutators |
| `union_pixel.dfy` | `UnionPixel` | the `union Pixel` of `Better_Pixel_If_I_Ever_Update.hpp`, seen through its channel struct |
| `grid.dfy` | `Grids` | row-major indexing `x + y * width`, the pixel count and the exceptions the grids throw |
| `image.dfy` | `Images` | `QOID::Image`, whose text is the same in `QOID.hpp` and `src/QOID/image.hpp` |
| `raw_image.dfy` | `RawImages` | `QOID::RawImage` of `Code/QOID/rawimage.hpp` and `rawimage.cpp` |
| `qoi_ops.dfy` | `QoiOps` | the five QOI opcodes, their wire bytes, the colour cache, and the opcode the encoder chooses (`SelectOp`) |
| `qoi_encoder.dfy` | `QoiEncoder` | `updateIndex`, `WriteFirstCol`, `WriteToBuffer`, `writeData` and the non-compressing body writer, proved against a trace specification |
| `qoi_hosts.dfy` | `QoiHosts` | the encoder writes the same bytes on a big- and a little-endian host |
| `qoi_container.dfy` | `QoiContainer` | `writeHeader` and `writeTrail` of the QOI writer |
| `qoi_file.dfy` | `QoiFile` | `qoi::GenerateFile` and `GenerateFileNonCompressed`, without the stream |
| `qoi_draft.dfy` | `QoiDraft` | the draft writer `src/QOID/DataTypes/ImageFunctions/qoi.hpp` |
| `tga.dfy` | `Tga` | the TGA writer, whose text is the same in `QOID.hpp` and `buildPhaseStuff/.../TGA.hpp` |
| `paths.dfy` | `Paths` | the rule that appends `.qoi` or `.tga` to a path that lacks it |

## How the encoder is specified

The encoder is a set of imperative methods. The worst-case buffer of 5 bytes per pixel is an
`array<byte>` that they write in place. The iterator, `bufferIndex`, `SeenPixels` and
`SwapNum` are passed by reference in the source; here they are in- and out-parameters.

Its specification is a *trace*: a sequence of `Step(op, cache)`. The first step is the NEW of
pixel 0 (`FirstOp`). Every later step is the opcode `SelectOp` picks at the next unencoded
pixel, given the cache the earlier steps left. The cache changes only as `updateIndex` may
change it. `SelectOp` states the opcode priority RUN > DIFF > LUMA > INDEX > NEW as
if-and-only-if clauses, and it states that the opcode describes the pixel.

`std::unordered_map` leaves its iteration order unspecified. When the cache is full, the entry
`updateIndex` evicts is therefore any entry. So the encoder's output is specified as the stream
of *some* complete trace. `QoiEncoder.WriteData` proves that the chunks it writes concatenate
to such a stream. The lemmas about traces give what every chunk of the stream means.

Where the specification of the library and its code differ, the model follows the code:

- The cache is an `std::unordered_map`, not an insertion-ordered map. The victim of an eviction is left open.
- An image with no pixels is not rejected. `writeData` dereferences `begin()` of an empty vector. The model requires at least one pixel.
- `writeData` returns `true` whatever its `file.write` calls report.
- A full cache evicts an entry even when the colour being stored is already in it. This happens for a DIFF or LUMA of a cached colour.

## Model

| member | source | states |
|---|---|---|
| `Bytes.Pack4` | QOID.hpp:52 | the word `b3 << 24 \| b2 << 16 \| b1 << 8 \| b0` has bytes b3..b0 from the most significant down |
| `Bytes.ByteSwap16` | QOID.hpp:364-365 | a byte-swapped 16-bit word stored little-endian lies in memory as the original does big-endian, and vice versa |
| `Bytes.ByteSwap32` | QOID.hpp:258-259 | the same for 32-bit words |
| `Bytes.Word32BE` | QOID.hpp:261-262 | four big-endian bytes decode to the word whose big-endian bytes they are |
| `Bytes.ClampedAdd` | QOID.hpp:91-94 | a channel sum saturates at 255, and equals the true sum when that fits |
| `Bytes.ClampedSub` | QOID.hpp:96-99 | a channel difference stops at 0, and equals the true difference when that is not negative |
| `Bytes.WordBitwise` | QOID.hpp:86-88 | the bytewise assembly of `\|`, `&`, `^` is the whole-word operator on the 32 bits of p and q, and each byte of it is the operator on the matching bytes |
| `Bytes.WordSplit` | QOID.hpp:86-88 | a 32-bit bitwise operator is the sum of the operator on each byte, weighted 1, 2^8, 2^16, 2^24 |
| `Bytes.OrDisjoint` | buildPhaseStuff/src/QOID/DataTypes/Better_Pixel_If_I_Ever_Update.hpp:103-128 | or-ing a value below 2^k into a word whose low k bits are clear is addition |
| `Bytes.OrByte` | buildPhaseStuff/src/QOID/DataTypes/Better_Pixel_If_I_Ever_Update.hpp:103-128 | or-ing a byte shifted to bit k into a word holding only bits from k + 8 up puts that byte in bits k + 7..k |
| `Bytes.XorTwice` | QOID.hpp:88 | xor-ing the same bits in twice gives the value back |
| `Bytes.CopyAt` | QOID.hpp:301-302 | `memcpy` into the buffer: the bytes land at the cursor, the prefix before it and the bytes after it are unchanged |
| `Pixel32.GetterShifts` | QOID.hpp:54-57 | `R()`, `G()`, `B()`, `A()` are `packed >> 24`, `(packed >> 16) & 0xFF`, `(packed >> 8) & 0xFF`, `packed & 0xFF` on a big-endian host |
| `Pixel32.GetIsMemoryByte` | QOID.hpp:68-71 | on a little-endian host the same shifts read A, B, G, R, so on both hosts a getter reads the channel's byte of the word as it lies in memory |
| `Pixel32.Slot` | QOID.hpp:49-71 | on both hosts, channel c of the packed word is byte c of its in-memory image (R, G, B, A) |
| `Pixel32.FromChannels` | QOID.hpp:50-66 | `Pixel(r, g, b, a)` on either host: the getters give r, g, b, a back |
| `Pixel32.Default` | QOID.hpp:64-66 | `Pixel()` is opaque black (0, 0, 0, 255) on both hosts |
| `Pixel32.ChannelsDetermine` | QOID.hpp:54-71 | two pixels with the same four channels are the same packed word |
| `Pixel32.MemoryBytes` | QOID.hpp:383-384 | the 4 bytes a `memcpy` of a pixel copies are R, G, B, A on both hosts |
| `Pixel32.Size` | Code/QOID/pixel.hpp:57 | `Size()` is the number of bytes of the packed word, 4 |
| `Pixel32.Add` | src/QOID/DataTypes/pixel.hpp:50-53 | `operator+` gives each channel `min(255, a + b)` |
| `Pixel32.Sub` | src/QOID/DataTypes/pixel.hpp:55-58 | `operator-` gives each channel `max(0, a - b)` |
| `Pixel32.BitwiseOp` | src/QOID/DataTypes/pixel.hpp:45-47 | `\|`, `&`, `^` on the packed words apply the operator to every channel, on either host, and the packed word is the whole-word operator on the two 32-bit words |
| `Pixel32.XorMaskTwice` | src/QOID/DataTypes/pixel.hpp:47 | `p ^ q ^ q == p` |
| `Pixel32.Equal` | src/QOID/DataTypes/pixel.hpp:83 | `==` on packed words holds exactly when all four channels agree |
| `Pixel32.NotEqual` | src/QOID/DataTypes/pixel.hpp:84 | `!=` holds exactly when some channel differs |
| `Pixel32.WithByte` | Code/QOID/pixel.hpp:28-31 | masking out one byte and or-ing in a value replaces that byte and keeps the other three |
| `Pixel32.PixelVar.constructor` | QOID.hpp:47 | a pixel variable holding the given packed word |
| `Pixel32.PixelVar.Set` | Code/QOID/pixel.hpp:44-47 | writing a channel sets it and leaves the other three channels as they were |
| `Pixel32.PixelVar.SetR` | Code/QOID/pixel.hpp:47 | `setR` changes only the red channel, on both hosts |
| `Pixel32.PixelVar.SetG` | Code/QOID/pixel.hpp:46 | `setG` changes only the green channel, on both hosts, whatever its parameter is called |
| `Pixel32.PixelVar.SetB` | QOID.hpp:74 | `setB` changes only the blue channel, on both hosts |
| `Pixel32.PixelVar.SetA` | QOID.hpp:73 | `setA` changes only the alpha channel, on both hosts |
| `Pixel32.PixelVar.UnPack` | QOID.hpp:79-82 | after `unPack(p)`, `Pack()` is p |
| `Pixel32.PixelVar.BitwiseAssign` | Code/QOID/pixel.hpp:83-94 | `\|=`, `&=`, `^=` leave the value of the corresponding binary operator |
| `Pixel32.PixelVar.AddAssign` | Code/QOID/pixel.hpp:95 | `+=` leaves `*this + p` |
| `Pixel32.PixelVar.SubAssign` | Code/QOID/pixel.hpp:96 | `-=` leaves `*this - p` |
| `UnionPixel.Offset` | buildPhaseStuff/src/QOID/DataTypes/Better_Pixel_If_I_Ever_Update.hpp:26-39 | each channel has one of the four struct offsets, reversed on a little-endian host |
| `UnionPixel.Make` | buildPhaseStuff/src/QOID/DataTypes/Better_Pixel_If_I_Ever_Update.hpp:63-70 | constructing from (r, g, b, a) and calling `getR()`..`getA()` gives r, g, b, a back, on both hosts |
| `UnionPixel.Get` | buildPhaseStuff/src/QOID/DataTypes/Better_Pixel_If_I_Ever_Update.hpp:75-78 | `getR()`..`getA()` read the struct member of the channel: the members in declaration order on a big-endian host, reversed on a little-endian one |
| `UnionPixel.Default` | buildPhaseStuff/src/QOID/DataTypes/Better_Pixel_If_I_Ever_Update.hpp:63 | the default pixel is (0, 0, 0, 255) |
| `UnionPixel.With` | buildPhaseStuff/src/QOID/DataTypes/Better_Pixel_If_I_Ever_Update.hpp:80-83 | assigning one struct member sets that channel and keeps the others |
| `UnionPixel.PixelVar.constructor` | buildPhaseStuff/src/QOID/DataTypes/Better_Pixel_If_I_Ever_Update.hpp:19-39 | a union variable holding the given channels |
| `UnionPixel.PixelVar.Set` | buildPhaseStuff/src/QOID/DataTypes/Better_Pixel_If_I_Ever_Update.hpp:80-83 | each setter changes only its own channel |
| `UnionPixel.ShiftFactors` | buildPhaseStuff/src/QOID/DataTypes/Better_Pixel_If_I_Ever_Update.hpp:44-52 | with a 64-bit `p_color`, `total_channel_bits` is 32 and `base_shift` is 64 - 32 = 32: the four shifts are 2^32, 2^40, 2^48, 2^56 |
| `UnionPixel.FieldsOr` | buildPhaseStuff/src/QOID/DataTypes/Better_Pixel_If_I_Ever_Update.hpp:103-128 | the four `out \|=` steps with shifts 56, 48, 40, 32 give the packed channels times 2^32: the channels occupy disjoint bits |
| `UnionPixel.Reorder` | buildPhaseStuff/src/QOID/DataTypes/Better_Pixel_If_I_Ever_Update.hpp:103-128 | the value is the source's `out \|=` chain of the four channels shifted by `base_shift + 3 * channel_bits` down to `base_shift`; that chain puts the four chosen channels in bits 63..32, most significant first, and zeros below |
| `UnionPixel.ARGB` | buildPhaseStuff/src/QOID/DataTypes/Better_Pixel_If_I_Ever_Update.hpp:103-110 | `ARGB()` is A, R, G, B in bits 63..32 from the top down, and its low 32 bits are zero |
| `UnionPixel.ABGR` | buildPhaseStuff/src/QOID/DataTypes/Better_Pixel_If_I_Ever_Update.hpp:112-119 | `ABGR()` is A, B, G, R in bits 63..32, low 32 bits zero |
| `UnionPixel.BGRA` | buildPhaseStuff/src/QOID/DataTypes/Better_Pixel_If_I_Ever_Update.hpp:121-128 | `BGRA()` is B, G, R, A in bits 63..32, low 32 bits zero |
| `UnionPixel.CanByteswap` | buildPhaseStuff/src/QOID/DataTypes/Better_Pixel_If_I_Ever_Update.hpp:131-132 | `can_byteswap` is false for a 64-bit `p_color` |
| `UnionPixel.ARGBByteswap` | buildPhaseStuff/src/QOID/DataTypes/Better_Pixel_If_I_Ever_Update.hpp:136-138 | `ARGB_byteswap()` is therefore the left-aligned A, R, G, B word of `ARGB()` |
| `UnionPixel.ARGBRightAligned` | buildPhaseStuff/src/QOID/DataTypes/Better_Pixel_If_I_Ever_Update.hpp:50-52 | the right-aligned ARGB word the comment describes: the channels in bits 31..0, nothing above |
| `UnionPixel.ARGBIsLeftAligned` | buildPhaseStuff/src/QOID/DataTypes/Better_Pixel_If_I_Ever_Update.hpp:48-52 | `ARGB()` is the right-aligned word times 2^32; for opaque black, 0xFF00000000000000 instead of 0xFF000000 |
| `UnionPixel.Size` | buildPhaseStuff/src/QOID/DataTypes/Better_Pixel_If_I_Ever_Update.hpp:235 | `Size()` is `sizeof(p_color)`, 8 |
| `UnionPixel.Add` | buildPhaseStuff/src/QOID/DataTypes/Better_Pixel_If_I_Ever_Update.hpp:156-173 | each channel of the sum is `min(255, a + b)` |
| `UnionPixel.Sub` | buildPhaseStuff/src/QOID/DataTypes/Better_Pixel_If_I_Ever_Update.hpp:174-191 | each channel of the difference is `max(0, a - b)` |
| `Grids.CellIndex` | src/QOID/image.hpp:55-64 | for x < width the index `x + y * width` gives back y as its quotient by width and x as its remainder |
| `Grids.CellIndexInBounds` | src/QOID/image.hpp:49-56 | an in-bounds (x, y) has `x + y * width < width * height` |
| `Grids.CellIndexInjective` | src/QOID/image.hpp:54-56 | distinct in-bounds cells have distinct indices |
| `Grids.CellCountAsWritten` | src/QOID/image.hpp:13 | the `uint32_t` product `width * height` is the true product when that fits in 32 bits |
| `Grids.CellCountAsWrittenSymmetric` | QOID.hpp:393 | the wrapped count does not depend on the order of the factors |
| `Grids.CellCountAsWrittenTooSmall` | src/QOID/image.hpp:13 | when the product does not fit, the last in-bounds cell lies past the vector; a 65536 x 65536 image gets 0 pixels |
| `Grids.CellCount` | src/QOID/image.hpp:13 | the intended count: every in-bounds cell has an index inside the vector |
| `Images.Image.constructor` | src/QOID/image.hpp:13 | `width * height` cells, every one opaque black |
| `Images.Image.Copy` | src/QOID/image.hpp:14 | the copy has the same size and the same pixels |
| `Images.Image.FSetPixel` | src/QOID/image.hpp:54-56 | the unchecked store writes cell `x + y * width` and nothing else |
| `Images.Image.SetPixel` | src/QOID/image.hpp:49-52 | out-of-range coordinates throw `out_of_range` and change nothing; otherwise cell (x, y) becomes P and every other cell keeps its pixel |
| `Images.Image.FGetPixel` | src/QOID/image.hpp:64 | the unchecked read gives cell `x + y * width` |
| `Images.Image.GetPixel` | src/QOID/image.hpp:58-62 | an empty image throws `runtime_error`; otherwise out-of-range coordinates throw `out_of_range` and in-range ones give cell (x, y) |
| `Images.Image.Fill` | src/QOID/image.hpp:29 | every cell becomes P |
| `RawImages.RawImage.constructor` | Code/QOID/rawimage.hpp:14 | `X * Y` cells, every one opaque black |
| `RawImages.RawImage.SetPixel` | Code/QOID/rawimage.hpp:16-20 | out-of-range coordinates throw and change nothing; otherwise only cell (X, Y) changes, to P |
| `RawImages.RawImage.GetPixel` | Code/QOID/rawimage.hpp:22-25 | out-of-range coordinates throw; otherwise the result is cell (X, Y) |
| `RawImages.RawImage.Fill` | Code/QOID/rawimage.hpp:28 | every cell becomes P |
| `RawImages.RawImage.Resize` | Code/QOID/rawimage.hpp:30-42 | the new size is `new_x` x `new_y`; the top-left overlap keeps its pixels, and every other cell is opaque black |
| `RawImages.StoreCell` | Code/QOID/rawimage.hpp:35 | `newData[x + y * new_x] = v` changes cell (x, y) and no other |
| `RawImages.RawImage.FillRegion` | Code/QOID/rawimage.cpp:11-21 | checks the start corner, the end corner and the order of the corners, in that order, before any write, and a throw changes nothing; on success exactly the cells of [x1, x2) x [y1, y2) become P |
| `QoiOps.Hash` | QOID.hpp:291-292 | the cache slot `(3R + 5G + 7B + 11A) % 64` is below 64 |
| `QoiOps.RunByte` | QOID.hpp:323 | `(n - 1) \| 0xC0` has tag `11`, the length field n - 1, and is never 0xFE or 0xFF |
| `QoiOps.DiffByte` | QOID.hpp:339-343 | the DIFF byte has tag `01` and the three 2-bit fields dr + 2, dg + 2, db + 2 |
| `QoiOps.LumaWord` | QOID.hpp:361-365 | the LUMA word has high byte `0x80 + dg + 32` and low byte `(dr - dg + 8) << 4 \| (db - dg + 8)` |
| `QoiOps.LumaBytes` | QOID.hpp:360-367 | on either host the two LUMA bytes are, in order, tag `10` with dg + 32, then dr - dg + 8 and db - dg + 8 |
| `QoiOps.NewBytes` | QOID.hpp:380-384 | the RGBA chunk is `0xFF`, R, G, B, A |
| `QoiOps.OpBytes` | QOID.hpp:309-390 | every chunk is 1 to 5 bytes long |
| `QoiOps.OpBytesSameOnBothHosts` | QOID.hpp:360-366 | every opcode has the same wire bytes on a big- and a little-endian host |
| `QoiOps.Covers` | QOID.hpp:326 | a chunk covers 1 to 62 pixels |
| `QoiOps.OpTags` | QOID.hpp:315-389 | the first byte's tag is `00` for INDEX, `01` DIFF, `10` LUMA, `11` RUN, 0xFF RGBA, and only RGBA starts with 0xFF; every chunk spends at most 5 bytes per pixel it covers |
| `QoiOps.DiffExample` | QOID.hpp:332-349 | on either host and whatever the cache, the pixel (101, 99, 100, 255) after (100, 100, 100, 255) selects DIFF(1, -1, 0), whose byte is 0x76 |
| `QoiOps.DeltaRestores` | QOID.hpp:332-334 | a channel difference computed in `int` lies in -255..255 and added to the previous channel gives the current one |
| `QoiOps.CanRunMeans` | QOID.hpp:315 | the RUN test on packed words holds exactly when the two pixels are equal |
| `QoiOps.CanDiffMeans` | QOID.hpp:331-336 | the DIFF test holds exactly when some DIFF chunk describes the pixel |
| `QoiOps.CanLumaMeans` | QOID.hpp:331-353 | the LUMA test holds exactly when some LUMA chunk describes the pixel |
| `QoiOps.CanIndexMeans` | QOID.hpp:374 | the INDEX test `SeenPixels.count(packed)` holds exactly when some INDEX chunk describes the pixel |
| `QoiOps.RunFrom` | QOID.hpp:317-322 | the counting loop stops at 62, at the end of the data or at the first different pixel, and every pixel it counts repeats the first |
| `QoiOps.RunAt` | QOID.hpp:315-322 | the run at `pos` is the longest stretch equal to `pixels[pos]`, capped at 62, and stays inside the data |
| `QoiOps.SelectOp` | QOID.hpp:315-389 | the chosen opcode describes the pixel; RUN iff it repeats the previous one; DIFF iff not RUN and DIFF fits; LUMA iff neither and LUMA fits; INDEX iff none of these and the colour is cached; NEW otherwise |
| `QoiOps.FirstOp` | QOID.hpp:402-403 | pixel 0 is always a NEW that describes it |
| `QoiOps.InsertedEffect` | QOID.hpp:283-294 | after `updateIndex` the pixel's key holds its hash, every other key was there before with the same slot, and a cache below 64 entries keeps all its keys |
| `QoiOps.CacheStepEffect` | QOID.hpp:346 | DIFF, LUMA and NEW leave the pixel's hash under its key, and no chunk adds or changes another key |
| `QoiOps.InsertedKeepsInv` | QOID.hpp:283-294 | `updateIndex` keeps at most 64 entries, each storing its key's hash, and stores the pixel's hash under its key |
| `QoiOps.CacheStepKeepsInv` | QOID.hpp:346 | every chunk keeps the cache invariant: DIFF, LUMA and NEW insert, RUN and INDEX leave the cache alone |
| `QoiOps.IndexSlotIsHash` | QOID.hpp:374-379 | an INDEX byte is the hash of the pixel it stands for, so its top two bits are `00` |
| `QoiEncoder.UpdateIndex` | QOID.hpp:283-294 | evicts some entry of a full cache, stores the pixel's hash under its packed value, and moves `SwapNum` on by one modulo 64 |
| `QoiEncoder.WriteNew` | QOID.hpp:380-389 | writes `0xFF` and the pixel's 4 bytes after the cursor, keeping what is before it |
| `QoiEncoder.WriteRun` | QOID.hpp:315-328 | the counting loop finds `RunAt(pixels, pos)` and writes its RUN byte |
| `QoiEncoder.WriteFirstCol` | QOID.hpp:295-307 | writes pixel 0 as NEW, advances by one pixel and 5 bytes, and inserts it into the cache |
| `QoiEncoder.WriteDiff` | QOID.hpp:332-349 | when RUN does not apply and DIFF does, the chosen opcode is DIFF; writes its byte and inserts the pixel |
| `QoiEncoder.WriteLuma` | QOID.hpp:350-372 | when RUN and DIFF do not apply and LUMA does, the chosen opcode is LUMA; writes its two bytes and inserts the pixel |
| `QoiEncoder.WriteIndex` | QOID.hpp:374-379 | writes the stored slot byte |
| `QoiEncoder.WriteToBuffer` | QOID.hpp:309-390 | writes exactly the bytes of `SelectOp`'s opcode after the cursor, advances the iterator by the pixels it covers, and changes the cache as that opcode may |
| `QoiEncoder.WriteChange` | QOID.hpp:330-373 | for a pixel that differs from the previous one, the DIFF, LUMA, INDEX and NEW branches write `SelectOp`'s opcode and advance by one pixel |
| `QoiEncoder.WriteCached` | QOID.hpp:374-389 | INDEX for a cached colour, leaving the cache and `SwapNum` alone; NEW otherwise |
| `QoiEncoder.Concat` | QOID.hpp:411-421 | the bytes the `file.write` calls write start with the first chunk and end with the last |
| `QoiEncoder.FlushChunks` | QOID.hpp:409-421 | `bufferIndex / 4096` full chunks, then the remainder if any, cover the first `bufferIndex` bytes exactly once, in order |
| `QoiEncoder.WriteData` | QOID.hpp:392-423 | the chunks written are the stream of a complete trace over the pixels, at most 5 bytes per pixel: `bufferIndex / 4096` full chunks of 4096 bytes, then the remainder if any, each chunk 1 to 4096 bytes |
| `QoiEncoder.WriteRest` | QOID.hpp:404-407 | the loop extends the trace by one chunk per call until every pixel is covered, keeping `bufferIndex <= 5 * pixels consumed` |
| `QoiEncoder.WriteDataNonCompressed` | QOID.hpp:273-281 | every pixel as `0xFF`, R, G, B, A, which is its NEW chunk; 5 bytes per pixel |
| `QoiEncoder.TraceBounds` | QOID.hpp:395-396 | along a trace, the chunks cover at most the pixels there are, the cache keeps its invariant, and the stream fits the 5-bytes-per-pixel buffer |
| `QoiEncoder.TracePrefix` | QOID.hpp:404-407 | every prefix of the encoder's run is a run of the encoder |
| `QoiEncoder.Extend` | QOID.hpp:405-406 | one more chunk adds its pixels, its cache and its bytes |
| `QoiEncoder.TraceStepAt` | QOID.hpp:402-407 | chunk i starts at pixel 0 only for i = 0, where it is NEW; later chunks are `SelectOp`'s opcode against the cache before them |
| `QoiEncoder.TraceChunk` | QOID.hpp:315-389 | every chunk after the first describes its pixel and is the first of RUN, DIFF, LUMA, INDEX, NEW that could |
| `QoiEncoder.TraceRun` | QOID.hpp:315-327 | all pixels a RUN chunk covers exist and repeat the pixel before the run |
| `QoiEncoder.TraceCacheKept` | QOID.hpp:374-379 | RUN and INDEX chunks leave the cache as it was |
| `QoiEncoder.AdvanceStep` | QOID.hpp:326 | each chunk starts where the chunk before it left off |
| `QoiEncoder.Starts` | QOID.hpp:404-407 | the pixel each chunk starts at, and the pixel after the last one |
| `QoiEncoder.SelectOpRunLaw` | QOID.hpp:315-322 | past pixel 0 the opcode is a RUN exactly when the pixel repeats the one before, and then it is the maximal run `RunAt` counts |
| `QoiEncoder.TraceRunLaw` | QOID.hpp:402-407 | every chunk of a trace obeys that rule at the pixel it starts at, and pixel 0 is never a RUN |
| `QoiEncoder.RunChunkCount` | QOID.hpp:317 | a stretch of n repeats takes ⌈n / 62⌉ RUN chunks: the least count of chunks of at most 62 pixels that holds n |
| `QoiEncoder.RunChunkLengths` | QOID.hpp:317-326 | those chunks hold 1 to 62 pixels each, and n together |
| `QoiEncoder.RunChunksCons` | QOID.hpp:317-326 | a RUN of min(62, n) followed by the RUN chunks of the rest are the RUN chunks of all n |
| `QoiEncoder.RunAtInStretch` | QOID.hpp:318-322 | inside a maximal stretch of one colour the counting loop stops at the end of the stretch or at 62 |
| `QoiEncoder.RunsTo` | QOID.hpp:404-407 | from a chunk starting inside a maximal stretch past its first pixel, the chunks are 62 / ... / 62 / remainder RUNs ending exactly at the stretch's end, and the next chunk is not a RUN |
| `QoiEncoder.RunsCombine` | QOID.hpp:315-328 | one RUN chunk then the rest of the stretch's RUN chunks give the stretch's RUN chunks from that chunk |
| `QoiEncoder.StretchRuns` | QOID.hpp:404-407 | `RunStretch` for any chunks that obey the run rule and cover the image |
| `QoiEncoder.RunStretch` | QOID.hpp:315-328 | in a complete encoding, a maximal stretch `pixels[b..e)` of one colour starts with a non-RUN chunk covering pixel b, followed by ⌈(e - b - 1) / 62⌉ RUN chunks of 62 pixels but the last, which takes the remainder, ending exactly at e; the chunk after them is not a RUN |
| `QoiEncoder.AdvanceAtLeastLength` | QOID.hpp:404-407 | every chunk consumes at least one pixel |
| `QoiEncoder.SinglePixel` | QOID.hpp:403 | a 1 x 1 image encodes as `0xFF`, R, G, B, A |
| `QoiEncoder.RepeatedPixel` | QOID.hpp:402-407 | two equal pixels encode as the NEW of the first, then the RUN byte 0xC0 |
| `QoiHosts.Moved` | QOID.hpp:49-71 | the pixel with the same channels, packed the other host's way |
| `QoiHosts.MovedBack` | QOID.hpp:49-71 | packing for the other host and back gives the pixel back |
| `QoiHosts.Relabel` | QOID.hpp:397 | the cache with every key relabelled keeps the slots |
| `QoiHosts.ImageCount` | QOID.hpp:285 | relabelling keeps the number of distinct keys |
| `QoiHosts.RelabelSize` | QOID.hpp:285 | relabelling keeps the cache size, which decides whether `updateIndex` evicts |
| `QoiHosts.RelabelStore` | QOID.hpp:291-292 | storing under a key relabels to storing under the relabelled key |
| `QoiHosts.RelabelEvict` | QOID.hpp:286-288 | evicting a key relabels to evicting the relabelled key |
| `QoiHosts.HashMoves` | QOID.hpp:291-292 | the slot depends only on the channels |
| `QoiHosts.EvictStoreMoves` | QOID.hpp:285-292 | an eviction then a store is the same on the other host, with the relabelled victim |
| `QoiHosts.InsertedMoves` | QOID.hpp:283-294 | `updateIndex` on one host relabels to `updateIndex` on the other |
| `QoiHosts.SamePixelsMove` | QOID.hpp:315 | two pixels are equal on one host exactly when they are on the other |
| `QoiHosts.RepeatsMove` | QOID.hpp:319-320 | a stretch of repeats is one on the other host too |
| `QoiHosts.RunFromMoves` | QOID.hpp:317-322 | a run has the same length on both hosts |
| `QoiHosts.DeltasMove` | QOID.hpp:332-353 | the channel differences, and so the DIFF and LUMA tests, are the same on both hosts |
| `QoiHosts.RunOpMoves` | QOID.hpp:315-328 | a RUN is the same opcode on both hosts |
| `QoiHosts.ChangeOpMoves` | QOID.hpp:330-389 | DIFF, LUMA, INDEX and NEW are the same opcodes on both hosts |
| `QoiHosts.SelectOpMoves` | QOID.hpp:309-390 | the opcode chosen at a pixel is the same on both hosts |
| `QoiHosts.MoveSteps` | QOID.hpp:397 | the steps with every cache relabelled, opcodes unchanged |
| `QoiHosts.StepMoves` | QOID.hpp:403-406 | one chunk of a trace is a chunk of the trace on the other host |
| `QoiHosts.MoveStepsSplit` | QOID.hpp:404-407 | relabelling commutes with taking the last chunk |
| `QoiHosts.AdvanceMoves` | QOID.hpp:404-407 | relabelling keeps the pixels covered |
| `QoiHosts.StreamBytesMoves` | QOID.hpp:405-406 | relabelling keeps the bytes, whichever host writes them |
| `QoiHosts.CacheAfterMoves` | QOID.hpp:397 | the cache after relabelled steps is the relabelled cache |
| `QoiHosts.TraceMoves` | QOID.hpp:392-407 | a run of the encoder on one host, relabelled, is a run on the other over the same image packed that host's way |
| `QoiHosts.RepackInverses` | QOID.hpp:49-71 | re-packing there and back is the identity, both ways |
| `QoiHosts.MovedImage` | QOID.hpp:49-71 | the image as the other host holds it, pixel by pixel |
| `QoiHosts.MovedImageSame` | QOID.hpp:49-71 | that image has the same channels and relabelled keys |
| `QoiHosts.StreamSameOnBothHosts` | QOID.hpp:16-19 | whatever a complete encoding writes on one host, the encoder on the other host can write byte for byte |
| `QoiContainer.WireHeader` | QOID.hpp:242-269 | the 14-byte header: "qoif", then width and height as big-endian words a reader gets back, then channels 4 and colorspace 1 |
| `QoiContainer.HeaderBytes` | QOID.hpp:249-265 | what `writeHeader` copies into its array is that header on both hosts |
| `QoiContainer.HeaderParts` | QOID.hpp:252-260 | the byte-swapped width and height and the `combined` word lie in memory in wire order on both hosts |
| `QoiContainer.HostOrderWord` | QOID.hpp:258-262 | a word byte-swapped on a little-endian host is stored big-endian |
| `QoiContainer.Trail` | QOID.hpp:232-240 | the end marker written in memory order is seven 0x00 bytes and 0x01 on both hosts |
| `QoiFile.GenerateFile` | QOID.hpp:427-433 | the path gets `.qoi` if it lacks it; the file is the header, the stream of a complete trace, and the end marker |
| `QoiFile.GenerateFileNonCompressed` | QOID.hpp:435-443 | the file is the header, the NEW chunk of every pixel in order, and the end marker |
| `QoiDraft.NumberColour` | src/QOID/DataTypes/ImageFunctions/qoi.hpp:81 | the key gets the map's size before insertion, modulo 256; no other entry changes |
| `QoiDraft.WriteToBuffer` | src/QOID/DataTypes/ImageFunctions/qoi.hpp:72-89 | NEW copies the pixel's 4 bytes with no tag, advances cursor by 4 and iterator by 1, and numbers the colour; the other opcodes change nothing |
| `QoiDraft.NumberingCountsColours` | src/QOID/DataTypes/ImageFunctions/qoi.hpp:81 | distinct colours are numbered 0, 1, 2, ... in order of first sight, one entry each |
| `QoiDraft.WriteHeader` | src/QOID/DataTypes/ImageFunctions/qoi.hpp:50-61 | the little-endian header is "qoif", big-endian width and height, 0x04, 0x01 |
| `QoiDraft.WriteData` | src/QOID/DataTypes/ImageFunctions/qoi.hpp:91-104 | only the first pixel is encoded, into a local buffer of 5 bytes per pixel, its colour numbered 0, and the result is `true` |
| `Tga.HeaderFor` | QOID.hpp:463-488 | the header is 18 bytes |
| `Tga.HeaderFields` | QOID.hpp:449-488 | image type 2 with no ID field and no colour map, zeros in bytes 3-11, width and height modulo 2^16 low byte first, 32 bits per pixel, descriptor 0x28 with 8 alpha bits and bit 5 set |
| `Tga.WriteHeader` | QOID.hpp:463-491 | the zeroed array filled field by field is exactly that header |
| `Tga.SetType` | QOID.hpp:464-466 | bytes 0-2 become 0, 0, 2 and no other byte changes |
| `Tga.SetOrigin` | QOID.hpp:470-474 | bytes 8-11 become 0 and no other byte changes |
| `Tga.SetSize` | QOID.hpp:477-484 | bytes 12-15 become the width and height bytes and no other byte changes |
| `Tga.SetFormat` | QOID.hpp:486-488 | bytes 16-17 become 32 and 0x28 and no other byte changes |
| `Tga.LowHigh` | QOID.hpp:478-479 | `w & 0xFF` and `(w >> 8) & 0xFF`, read low byte first, give w back |
| `Tga.Bgra` | QOID.hpp:502 | one pixel's group is 4 bytes |
| `Tga.WriteData` | QOID.hpp:497-506 | 4 bytes per pixel in pixel order, each group B, G, R, A: the in-memory bytes with red and blue exchanged |
| `Tga.GenerateFile` | QOID.hpp:510-520 | the path gets `.tga` if it lacks it; the file is the header followed by the body |
| `Paths.EndsWith` | QOID.hpp:512 | `ends_with` holds exactly when the path is some stem followed by the extension |
| `Paths.WithExtension` | QOID.hpp:512-515 | the name ends with the extension, starts with the path, and equals the path exactly when the path already ends with the extension |
| `Paths.WithExtensionIdempotent` | QOID.hpp:428-430 | applying the rule twice gives the name applying it once does |

## Left out

- File and stream I/O: every writer returns the bytes it would write, and every write is taken to succeed. Not modelled: opening the `ofstream`, `file.write` failing, `if (!file) return false`, and the `&&` in the `GenerateFile`s that stops after a failed write.
- `Image::GenerateFile` and `RawImage::GenerateFile` (`QOID.hpp:216-228`, `src/QOID/image.hpp:84-92`, `Code/QOID/rawimage.cpp:23-34`) are left out. They only dispatch on the image type, after an empty-path and a directory check.
- `Code/QOID/tiff.hpp`, `src/QOID/DataTypes/ImageFunctions/tiff.hpp` and `Code/QOID/qoi.cpp` are not part of this model. They are I/O plumbing, a text stub, and a placeholder writer.
- `operator*(float)` and `*=` in every pixel type are left out. They use floating point.
- The packed member `RGBA` of the union pixel is left out, with its `getRGBA`, `|`, `&`, `^`, the compound operators, `==` and `!=`. It is read after the channels are written, which is type punning with four uninitialised bytes. Only the channel view is modelled.
- The draft writer's `writeDataNonCompressedNonOptimized`, `GenerateFile` and `GenerateFileNonCompressed` (`src/QOID/DataTypes/ImageFunctions/qoi.hpp:64-70`, `106-121`) are left out. What they write depends on `operator<<` text formatting: `file << 0xFF` prints "255".
- The draft `writeHeader`'s big-endian branch calls `getWidthR`, which no `Image` declares, so only its little-endian branch is modelled. The draft `writeTrail` is the same text as the finished one and is covered by `QoiContainer.Trail`.
- There is no decoder and no decode round-trip. The source has no decoder. The cache can also hold two colours with the same slot, so an INDEX byte does not always name one colour.
- No property is stated about which colours stay cached after many insertions, since that depends on the eviction order.
- QoiEncoder.UpdateIndex: the evicted entry is any entry of the cache, not the `SwapNum`-th in iteration order, because that order is unspecified for `std::unordered_map`; `SwapNum` itself is modelled exactly.
- QoiEncoder.WriteData: requires at least one pixel and fewer than 2^32. An empty image makes the source dereference `begin()` of an empty vector. A larger one makes its `uint32_t` size wrap.
- QoiFile.GenerateFile: has the same precondition as `QoiEncoder.WriteData`. Its file is the one written when every write succeeds.
- QoiDraft.WriteData: requires the pixel count to fit in 32 bits, for the same reason as `QoiEncoder.WriteData`.
- Images.Image.GetPixel: returns the pixel's value. `GetPixel` and `fGetPixel` return a reference, and writes through that reference are not modelled.
- Images.Image.FGetPixel: returns the pixel's value, not the reference `fGetPixel` returns.
- RawImages.RawImage.GetPixel: returns the pixel's value, not the reference `GetPixel` returns; writes through it, or through `GetData`, are not modelled.
- Images.Image.constructor: makes `width * height` pixels with the product taken exactly. The source's `uint32_t` product wraps, as the first finding below shows.
- RawImages.RawImage.constructor: makes `X * Y` pixels with the product taken exactly, where the source's `uint32_t` product wraps.
- RawImages.RawImage.Resize: makes `new_x * new_y` pixels with the product taken exactly, where the source's `uint32_t` product wraps.
- Pixel32.PixelVar.SetR: the little-endian branches of `QOID.hpp` and `src/QOID/DataTypes/pixel.hpp` declare only `setA` and `setB`. `setR` follows `Code/QOID/pixel.hpp`, which has all four setters on both branches.
- Pixel32.PixelVar.SetG: absent from the same little-endian branches; it follows `Code/QOID/pixel.hpp` as `setR` does.
- Host byte order: `big` stands for "`BIG_ENDIAN` is defined exactly on big-endian hosts", as `QOID.hpp:16-18` intends. The header pulls in `<cstdlib>` (`QOID.hpp:6`), and on glibc with `_GNU_SOURCE` that reaches `<endian.h>`, which defines a `BIG_ENDIAN` constant on every host. The `#if defined(BIG_ENDIAN)` tests at `QOID.hpp:49`, `233`, `252` and `360` would then take the big-endian branch on a little-endian host, and the pixel layout, header, LUMA and trailer bytes would be written in the wrong order. That toolchain behaviour is outside the source text and is not modelled. `Code/QOID/pixel.hpp:17` tests `__BYTE_ORDER__` directly and is unaffected.
- The accessors `getWidth`, `getHeight`, `GetWidth`, `GetHeight`, `GetData` and `GetRawVector` are left out. They are the class fields themselves.
- `QOID_General.hpp`, both `main.cpp` files and the `ImageType` enums are left out. They hold type aliases, globals and entry points with timers.

## Findings

| source | as written | input that shows it | evidently intended | confidence | as-written member | corrected member |
|---|---|---|---|---|---|---|
| src/QOID/image.hpp:13 | `m_pixel_data(width * height)` multiplies two `uint32_t` values, and the product wraps modulo 2^32. `QOID.hpp:134` and `Code/QOID/rawimage.hpp:14` do the same. | a 65536 x 65536 image gets 0 pixels, yet `SetPixel(P, 0, 0)` passes the bounds check and writes past the end of the vector | one pixel per in-bounds cell | not executed; follows from integer semantics | `Grids.CellCountAsWritten`, `Grids.CellCountAsWrittenTooSmall` | `Grids.CellCount` |
| buildPhaseStuff/src/QOID/DataTypes/Better_Pixel_If_I_Ever_Update.hpp:50-52 | `base_shift` is `64 - 32 = 32`, so `ARGB()`, `ABGR()` and `BGRA()` put the channels in bits 63..32 | `ARGB()` of opaque black is 0xFF00000000000000 | channels right-aligned in the low 32 bits, as the comment says: 0xFF000000 for opaque black | not executed | `UnionPixel.ARGB`, `UnionPixel.ARGBIsLeftAligned` | `UnionPixel.ARGBRightAligned` |
