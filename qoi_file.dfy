/** `qoi::GenerateFile` and `qoi::GenerateFileNonCompressed` of QOID.hpp, with the stream left
    out: the path they open and the bytes they write when every write succeeds. */
module QoiFile {
  import opened Bytes
  import opened Pixel32
  import opened Images
  import opened Paths
  import opened QoiOps
  import opened QoiContainer
  import opened QoiEncoder

  /** The extension both functions make sure the path has. */
  const Extension: string := ".qoi"

  /** `GenerateFile`: the header, the compressed chunk stream, the end marker. The file is the
      header of the format for the image's size, the bytes of a complete trace over its pixels, and
      the end marker, on either host. */
  method GenerateFile(image: Image, path: string) returns (name: string, file: seq<byte>, ghost steps: seq<Step>)
    requires image.Valid() && 1 <= |image.data| < 0x1_0000_0000
    ensures name == WithExtension(path, Extension)
    ensures IsTrace(image.big, image.data, steps) && Advance(steps) == |image.data|
    ensures file == WireHeader(image.width, image.height) + StreamBytes(image.big, steps) + EndMarker
    ensures |file| <= 14 + 5 * |image.data| + 8
  {
    name := WithExtension(path, Extension);
    var header := HeaderBytes(image.big, image.width, image.height);
    var chunks;
    chunks, steps := WriteData(image.big, image.data);
    file := header + Concat(chunks) + Trail(image.big);
  }

  /** `GenerateFileNonCompressed`: the header, every pixel as a NEW chunk, the end marker. */
  method GenerateFileNonCompressed(image: Image, path: string) returns (name: string, file: seq<byte>)
    requires image.Valid()
    ensures name == WithExtension(path, Extension)
    ensures |file| == 14 + 5 * |image.data| + 8
    ensures file[..14] == WireHeader(image.width, image.height)
    ensures forall i :: 0 <= i < |image.data| ==>
              file[14 + 5 * i..14 + 5 * i + 5] == OpBytes(image.big, FirstOp(image.big, image.data[i]))
    ensures file[14 + 5 * |image.data|..] == EndMarker
  {
    name := WithExtension(path, Extension);
    var header := HeaderBytes(image.big, image.width, image.height);
    var body := WriteDataNonCompressed(image.big, image.data);
    file := header + body + Trail(image.big);
    forall i | 0 <= i < |image.data|
      ensures file[14 + 5 * i..14 + 5 * i + 5] == OpBytes(image.big, FirstOp(image.big, image.data[i]))
    {
      assert file[14 + 5 * i..14 + 5 * i + 5] == body[5 * i..5 * i + 5];
    }
    assert file[14 + 5 * |image.data|..] == Trail(image.big);
  }
}
