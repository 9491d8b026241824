/** The draft QOI writer of src/QOID/DataTypes/ImageFunctions/qoi.hpp: the same header and end
    marker as the finished encoder (little-endian hosts only), and a `WriteToBuffer` in which only
    the NEW case does anything, copying the raw pixel without its `0xFF` tag and numbering colours
    in order of first sight. Its `writeData` encodes the first pixel into a local buffer and
    returns. */
module QoiDraft {
  import opened Bytes
  import opened Pixel32
  import opened Grids
  import opened Images
  import opened QoiContainer

  /** `enum class Opcodes`. */
  datatype DraftOpcode = IndexOp | DiffOp | LumaOp | RunOp | NewOp

  /** `SeenPixels[key] = static_cast<uint8_t>(SeenPixels.size())`. The right operand of `=` is
      evaluated first, so the value is the size before any insertion, cut to 8 bits; a key that
      is already present is renumbered. */
  function NumberColour(seen: map<u32, byte>, key: u32): (seen': map<u32, byte>)
    ensures key in seen' && seen'[key] == |seen| % 256
    ensures forall k :: k != key ==> (k in seen' <==> k in seen)
    ensures forall k :: k in seen && k != key ==> seen'[k] == seen[k]
    ensures |seen'| == if key in seen then |seen| else |seen| + 1
  {
    seen[key := |seen| % 256]
  }

  /** `WriteToBuffer(op, buffer, RawVecPointer, SeenPixels, bufferIndex)`. NEW copies the 4 bytes
      of the pixel at `pos` to `bufferIndex` with no tag byte, moves the cursor on by 4 and the
      iterator by 1, and numbers the colour. Every other opcode changes nothing. */
  method WriteToBuffer(big: bool, op: DraftOpcode, buffer: array<byte>, pixels: seq<Pixel>, pos: nat,
                       seen: map<u32, byte>, bufferIndex: nat)
    returns (pos': nat, seen': map<u32, byte>, bufferIndex': nat)
    requires op.NewOp? ==> pos < |pixels| && bufferIndex + 4 <= buffer.Length
    modifies buffer
    ensures op.NewOp? ==>
              pos' == pos + 1 && bufferIndex' == bufferIndex + 4
              && buffer[..bufferIndex'] == old(buffer[..bufferIndex]) + [R(big, pixels[pos]), G(big, pixels[pos]), B(big, pixels[pos]), A(big, pixels[pos])]
              && buffer[bufferIndex'..] == old(buffer[bufferIndex'..])
              && seen' == NumberColour(seen, pixels[pos].packed)
    ensures !op.NewOp? ==>
              pos' == pos && bufferIndex' == bufferIndex && seen' == seen && buffer[..] == old(buffer[..])
  {
    pos', seen', bufferIndex' := pos, seen, bufferIndex;
    match op {
      case NewOp =>
        CopyAt(buffer, bufferIndex, MemoryBytes(big, pixels[pos]));
        bufferIndex' := bufferIndex + Size(big, pixels[pos]);
        seen' := NumberColour(seen, pixels[pos].packed);
        pos' := pos + 1;
      case IndexOp =>
      case DiffOp =>
      case LumaOp =>
      case RunOp =>
    }
  }

  /** The map that NEW on each key in turn leaves behind, starting from an empty one. */
  function Numbering(keys: seq<u32>): map<u32, byte> {
    if |keys| == 0 then map[] else NumberColour(Numbering(keys[..|keys| - 1]), keys[|keys| - 1])
  }

  /** Colours seen once each are numbered 0, 1, 2, ... in order of first sight (modulo 256, the
      width of the stored value), and the map has one entry per colour. */
  lemma {:induction false} NumberingCountsColours(keys: seq<u32>)
    requires forall i, j :: 0 <= i < j < |keys| ==> keys[i] != keys[j]
    ensures |Numbering(keys)| == |keys|
    ensures forall k :: k in Numbering(keys) <==> k in keys
    ensures forall i :: 0 <= i < |keys| ==> Numbering(keys)[keys[i]] == i % 256
  {
    if |keys| > 0 {
      var init := keys[..|keys| - 1];
      NumberingCountsColours(init);
      var last := keys[|keys| - 1];
      assert last !in init;
      forall i | 0 <= i < |keys|
        ensures Numbering(keys)[keys[i]] == i % 256
      {
        if i < |keys| - 1 {
          assert keys[i] == init[i];
        }
      }
    }
  }

  /** `writeHeader` on a little-endian host: "qoif", the byte-swapped width and height and the
      `combined` word `colorspace << 8 | channels`, each `memcpy`'d into a zeroed 14-byte array.
      The result is the header of the format. */
  method WriteHeader(width: u32, height: u32) returns (header: seq<byte>)
    ensures header == WireHeader(width, height)
  {
    var buffer := new byte[14](_ => 0);
    CopyAt(buffer, 0, Magic);
    var swappedWidth := ByteSwap32(width);
    var swappedHeight := ByteSwap32(height);
    CopyAt(buffer, 4, Bytes32(swappedWidth, false));
    CopyAt(buffer, 8, Bytes32(swappedHeight, false));
    var combined: u16 := Colorspace * 0x100 + ChannelCount;
    CopyAt(buffer, 12, Bytes16(combined, false));
    header := buffer[..];
    HeaderParts(false, width, height);
    assert header == buffer[..14];
  }

  /** `writeData`: the pixel count as `uint32_t`, a zeroed buffer of five bytes per pixel, the
      first pixel through the NEW case, then `true`. Nothing reaches the file: the staged buffer
      holds the first pixel's four bytes and zeros, and the first colour is numbered 0. */
  method WriteData(image: Image) returns (ok: bool, staged: seq<byte>, seen: map<u32, byte>)
    requires image.Valid() && 1 <= |image.data| && image.width * image.height < 0x1_0000_0000
    ensures ok
    ensures |staged| == 5 * |image.data|
    ensures staged[..4] == MemoryBytes(image.big, image.data[0])
    ensures forall i :: 4 <= i < |staged| ==> staged[i] == 0
    ensures seen == map[image.data[0].packed := 0]
  {
    var pixels, big := image.data, image.big;
    var imageSize := CellCountAsWritten(image.height, image.width);
    CellCountAsWrittenSymmetric(image.width, image.height);
    var buffer := new byte[imageSize * 5](_ => 0);
    seen := map[];
    var dataIterator := 0;
    var bufferIndex := 0;
    dataIterator, seen, bufferIndex := WriteToBuffer(big, NewOp, buffer, pixels, dataIterator, seen, bufferIndex);
    staged := buffer[..];
    assert staged[..4] == buffer[..4];
    ghost var empty: map<u32, byte> := map[];
    assert seen == empty[pixels[0].packed := 0] by {
      assert |empty| == 0;
    }
    ok := true;
  }
}
