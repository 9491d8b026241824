/** The TGA writer of QOID.hpp and buildPhaseStuff/.../TGA.hpp (the same text): an 18-byte
    header for an uncompressed true-colour image (image type 2 of the Truevision TGA File Format
    Specification 2.0), then every pixel as B, G, R, A. */
module Tga {
  import opened Bytes
  import opened Pixel32
  import opened Paths
  import opened Images

  /** The value of two bytes read least significant first. */
  function Word16LE(lo: byte, hi: byte): nat {
    lo + 0x100 * hi
  }

  /** The 18 header bytes for an image of the given size: no ID field and no colour map, image
      type 2, origin (0, 0), width and height cut to 16 bits and stored low byte first, 32 bits
      per pixel, and the descriptor `0x28`. */
  function HeaderFor(width: u32, height: u32): (s: seq<byte>)
    ensures |s| == 18
  {
    var w16: u16 := width % 0x1_0000;
    var h16: u16 := height % 0x1_0000;
    [0, 0, 2, 0, 0, 0, 0, 0, 0, 0, 0, 0,
     w16 % 0x100, (w16 / 0x100) % 0x100, h16 % 0x100, (h16 / 0x100) % 0x100, 32, 0x28]
  }

  /** The TGA header fields: image type 2 (uncompressed true colour) with no ID field and no
      colour map, zero colour-map specification and origin, the width and height modulo 2^16
      stored least significant byte first, 32 bits per pixel, and a descriptor with 8 alpha bits
      (bits 0-3) and a top-left origin (bit 5). */
  lemma HeaderFields(width: u32, height: u32)
    ensures var header := HeaderFor(width, height);
            header[0] == 0 && header[1] == 0 && header[2] == 2
            && (forall i :: 3 <= i < 12 ==> header[i] == 0)
            && Word16LE(header[12], header[13]) == width % 0x1_0000
            && Word16LE(header[14], header[15]) == height % 0x1_0000
            && header[16] == 32 && header[17] == 0x28
            && header[17] % 16 == 8 && (header[17] / 32) % 2 == 1
  {
    LowHigh(width % 0x1_0000);
    LowHigh(height % 0x1_0000);
  }

  /** `writeHeader`: a zeroed 18-byte array filled field by field; the result is `HeaderFor`. */
  method WriteHeader(width: u32, height: u32) returns (header: seq<byte>)
    ensures header == HeaderFor(width, height)
  {
    var w16: u16 := width % 0x1_0000;
    var h16: u16 := height % 0x1_0000;
    var h := new byte[18](_ => 0);
    SetType(h);
    SetOrigin(h);
    SetSize(h, w16 % 0x100, (w16 / 0x100) % 0x100, h16 % 0x100, (h16 / 0x100) % 0x100);
    SetFormat(h);
    header := h[..];
  }

  /** Bytes 0-2: ID length 0, colour map type 0, image type 2; no other byte changes. */
  method SetType(h: array<byte>)
    requires h.Length == 18
    modifies h
    ensures h[0] == 0 && h[1] == 0 && h[2] == 2
    ensures forall i :: 3 <= i < 18 ==> h[i] == old(h[i])
  {
    h[0] := 0;
    h[1] := 0;
    h[2] := 2;
  }

  /** Bytes 8-11: the x and y origin, both 0; no other byte changes. */
  method SetOrigin(h: array<byte>)
    requires h.Length == 18
    modifies h
    ensures h[8] == 0 && h[9] == 0 && h[10] == 0 && h[11] == 0
    ensures forall i :: 0 <= i < 18 && !(8 <= i < 12) ==> h[i] == old(h[i])
  {
    h[8] := 0;
    h[9] := 0;
    h[10] := 0;
    h[11] := 0;
  }

  /** Bytes 12-15: the width and then the height, low byte first; no other byte changes. */
  method SetSize(h: array<byte>, widthLo: byte, widthHi: byte, heightLo: byte, heightHi: byte)
    requires h.Length == 18
    modifies h
    ensures h[12] == widthLo && h[13] == widthHi && h[14] == heightLo && h[15] == heightHi
    ensures forall i :: 0 <= i < 18 && !(12 <= i < 16) ==> h[i] == old(h[i])
  {
    h[12] := widthLo;
    h[13] := widthHi;
    h[14] := heightLo;
    h[15] := heightHi;
  }

  /** Bytes 16-17: 32 bits per pixel and the descriptor `0x28`; no other byte changes. */
  method SetFormat(h: array<byte>)
    requires h.Length == 18
    modifies h
    ensures h[16] == 32 && h[17] == 0x28
    ensures forall i :: 0 <= i < 16 ==> h[i] == old(h[i])
  {
    h[16] := 32;
    h[17] := 0x28;
  }

  /** The two bytes `w & 0xFF` and `(w >> 8) & 0xFF` of a 16-bit word give it back. */
  lemma LowHigh(w: u16)
    ensures Word16LE(w % 0x100, (w / 0x100) % 0x100) == w
  {
  }

  /** The four bytes `writeData` writes for one pixel. */
  function Bgra(big: bool, p: Pixel): (s: seq<byte>)
    ensures |s| == 4
  {
    [B(big, p), G(big, p), R(big, p), A(big, p)]
  }

  /** `writeData`: for each pixel in order, the 4-byte group B, G, R, A. The body is 4 bytes per
      pixel, and group i is pixel i with red and blue exchanged from its in-memory order. */
  method WriteData(big: bool, pixels: seq<Pixel>) returns (out: seq<byte>)
    ensures |out| == 4 * |pixels|
    ensures forall i :: 0 <= i < |pixels| ==> out[4 * i..4 * i + 4] == Bgra(big, pixels[i])
    ensures forall i :: 0 <= i < |pixels| ==>
              var m := MemoryBytes(big, pixels[i]);
              out[4 * i..4 * i + 4] == [m[2], m[1], m[0], m[3]]
  {
    out := [];
    for i := 0 to |pixels|
      invariant |out| == 4 * i
      invariant forall j :: 0 <= j < i ==> out[4 * j..4 * j + 4] == Bgra(big, pixels[j])
    {
      var px := pixels[i];
      var bgra := [B(big, px), G(big, px), R(big, px), A(big, px)];
      var before := out;
      out := out + bgra;
      forall j | 0 <= j < i
        ensures out[4 * j..4 * j + 4] == Bgra(big, pixels[j])
      {
        assert 4 * j + 4 <= |before|;
        assert out[4 * j..4 * j + 4] == before[4 * j..4 * j + 4];
      }
      assert out[4 * i..4 * i + 4] == bgra;
    }
  }

  /** The extension `GenerateFile` gives the path, through `WithExtension`. */
  const Extension: string := ".tga"

  /** `GenerateFile` with the stream left out: the path it opens and, when every write succeeds,
      the header for the image's size followed by one B, G, R, A group per pixel. */
  method GenerateFile(image: Image, path: string) returns (name: string, file: seq<byte>)
    requires image.Valid()
    ensures name == WithExtension(path, Extension)
    ensures |file| == 18 + 4 * |image.data|
    ensures file[..18] == HeaderFor(image.width, image.height)
    ensures forall i :: 0 <= i < |image.data| ==> file[18 + 4 * i..18 + 4 * i + 4] == Bgra(image.big, image.data[i])
  {
    name := WithExtension(path, Extension);
    var header := WriteHeader(image.width, image.height);
    var body := WriteData(image.big, image.data);
    file := header + body;
    forall i | 0 <= i < |image.data|
      ensures file[18 + 4 * i..18 + 4 * i + 4] == Bgra(image.big, image.data[i])
    {
      assert file[18 + 4 * i..18 + 4 * i + 4] == body[4 * i..4 * i + 4];
    }
  }
}
