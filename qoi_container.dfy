/** The framing of a QOI file as QOID.hpp writes it (`qoi::writeHeader`, `qoi::writeTrail`): a
    14-byte header, the chunk stream, then an 8-byte end marker. Section "File format" of the QOI
    specification 1.0 fixes the wire layout; the source builds it from host-order words, swapping
    bytes on a little-endian host. */
module QoiContainer {
  import opened Bytes

  /** The magic "qoif". */
  const Magic: seq<byte> := [0x71, 0x6F, 0x69, 0x66]

  /** `channels`: RGBA. */
  const ChannelCount: byte := 4

  /** `colorspace`: all channels linear. */
  const Colorspace: byte := 1

  /** The header of the format: magic, width and height as big-endian 32-bit words, channels,
      colorspace. A reader gets each field back. */
  function WireHeader(width: u32, height: u32): (h: seq<byte>)
    ensures |h| == 14 && h[..4] == Magic
    ensures Word32BE(h[4..8]) == width && Word32BE(h[8..12]) == height
    ensures h[12] == ChannelCount && h[13] == Colorspace
  {
    Unpack4(width);
    Unpack4(height);
    Magic + Bytes32(width, true) + Bytes32(height, true) + [ChannelCount, Colorspace]
  }

  /** `writeHeader`: `memcpy` of "qoif", of the width and the height (byte-swapped first on a
      little-endian host) and of the 16-bit `combined` word (`channels << 8 | colorspace` on a
      big-endian host, `colorspace << 8 | channels` on a little-endian one) into a 14-byte array.
      On either host the bytes are the header of the format. */
  function HeaderBytes(big: bool, width: u32, height: u32): (h: seq<byte>)
    ensures h == WireHeader(width, height)
  {
    var combined: u16 := if big then ChannelCount * 0x100 + Colorspace else Colorspace * 0x100 + ChannelCount;
    var swappedWidth := if big then width else ByteSwap32(width);
    var swappedHeight := if big then height else ByteSwap32(height);
    HeaderParts(big, width, height);
    Magic + Bytes32(swappedWidth, big) + Bytes32(swappedHeight, big) + Bytes16(combined, big)
  }

  /** The pieces `writeHeader` copies are the fields of the format. */
  lemma HeaderParts(big: bool, width: u32, height: u32)
    ensures Bytes16(if big then 0x0401 else 0x0104, big) == [ChannelCount, Colorspace]
    ensures Bytes32(if big then width else ByteSwap32(width), big) == Bytes32(width, true)
    ensures Bytes32(if big then height else ByteSwap32(height), big) == Bytes32(height, true)
  {
    HostOrderWord(big, width);
    HostOrderWord(big, height);
  }

  /** A word byte-swapped on a little-endian host and stored in memory order is stored
      big-endian. */
  lemma HostOrderWord(big: bool, w: u32)
    ensures Bytes32(if big then w else ByteSwap32(w), big) == Bytes32(w, true)
  {
    if !big {
      assert Bytes32(ByteSwap32(w), false) == Bytes32(w, true);
    }
  }

  /** The end marker: seven zero bytes and a one. */
  const EndMarker: seq<byte> := [0, 0, 0, 0, 0, 0, 0, 1]

  /** `writeTrail`: the 64-bit `end_marker`, 1 on a big-endian host and `0x0100000000000000` on a
      little-endian one, written in memory order, which is the end marker on either host. */
  function Trail(big: bool): (t: seq<byte>)
    ensures t == EndMarker
  {
    Bytes64(if big then 1 else 0x0100_0000_0000_0000, big)
  }
}
