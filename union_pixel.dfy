/** The union `Pixel` of buildPhaseStuff/src/QOID/DataTypes/Better_Pixel_If_I_Ever_Update.hpp,
    seen through its channel struct: four `uint8_t` members whose order in memory depends on the
    host (R G B A on a big-endian host, A B G R on a little-endian one). The packed member `RGBA` is
    a 64-bit `p_color` here; this model does not read it (see README). */
module UnionPixel {
  import opened Bytes
  import opened Channels

  /** The channel struct's four bytes, in memory order. */
  datatype Pixel = Pixel(m0: byte, m1: byte, m2: byte, m3: byte)

  /** `num_channels`, `channel_bits`, `total_channel_bits`, `total_bits` and `base_shift`. */
  const NumChannels: nat := 4
  const ChannelBits: nat := 8
  const TotalChannelBits: nat := NumChannels * ChannelBits
  const TotalBits: nat := 64
  const BaseShift: nat := TotalBits - TotalChannelBits

  /** The memory offset of channel c in the struct. */
  function Offset(big: bool, c: Channel): (k: nat)
    ensures k < 4
  {
    if big then Index(c) else 3 - Index(c)
  }

  function ByteAt(p: Pixel, k: nat): byte
    requires k < 4
  {
    if k == 0 then p.m0 else if k == 1 then p.m1 else if k == 2 then p.m2 else p.m3
  }

  /** `getR()`, `getG()`, `getB()`, `getA()`: read one struct member. */
  function Get(big: bool, p: Pixel, c: Channel): (v: byte)
    ensures big ==> v == [p.m0, p.m1, p.m2, p.m3][Index(c)]
    ensures !big ==> v == [p.m3, p.m2, p.m1, p.m0][Index(c)]
  {
    ByteAt(p, Offset(big, c))
  }

  /** The channel constructor `Pixel(r, g, b, a)`, which initialises the struct members in
      their declared order; the getters give the channels back on both hosts. */
  function Make(big: bool, r: byte, g: byte, b: byte, a: byte): (p: Pixel)
    ensures Get(big, p, Red) == r && Get(big, p, Green) == g
    ensures Get(big, p, Blue) == b && Get(big, p, Alpha) == a
  {
    if big then Pixel(r, g, b, a) else Pixel(a, b, g, r)
  }

  /** The default constructor: opaque black. */
  function Default(big: bool): (p: Pixel)
    ensures Get(big, p, Red) == 0 && Get(big, p, Green) == 0
    ensures Get(big, p, Blue) == 0 && Get(big, p, Alpha) == 255
  {
    Make(big, 0, 0, 0, 255)
  }

  /** The struct with member c replaced by v. */
  function With(big: bool, p: Pixel, c: Channel, v: byte): (q: Pixel)
    ensures Get(big, q, c) == v
    ensures forall d :: d != c ==> Get(big, q, d) == Get(big, p, d)
  {
    var k := Offset(big, c);
    Pixel(if k == 0 then v else p.m0, if k == 1 then v else p.m1,
          if k == 2 then v else p.m2, if k == 3 then v else p.m3)
  }

  /** A pixel variable whose setters assign one struct member in place. */
  class PixelVar {
    const big: bool
    var channels: Pixel

    constructor (big: bool, p: Pixel)
      ensures this.big == big && channels == p
    {
      this.big := big;
      channels := p;
    }

    /** `setR(r)`, `setG(g)`, `setB(b)`, `setA(a)`: `R = r` and so on. */
    method Set(c: Channel, v: byte)
      modifies this
      ensures Get(big, channels, c) == v
      ensures forall d :: d != c ==> Get(big, channels, d) == Get(big, old(channels), d)
    {
      channels := With(big, channels, c, v);
    }
  }

  lemma Pow2Add(a: nat, b: nat)
    ensures Pow2(a + b) == Pow2(a) * Pow2(b)
  {
    if a > 0 {
      Pow2Add(a - 1, b);
    }
  }

  lemma {:induction false} ShiftFactors()
    ensures TotalChannelBits == 32 && BaseShift == 32
    ensures Pow2(BaseShift) == 0x1_0000_0000
    ensures Pow2(BaseShift + ChannelBits) == 0x1_0000_0000 * 0x100
    ensures Pow2(BaseShift + 2 * ChannelBits) == 0x1_0000_0000 * 0x1_0000
    ensures Pow2(BaseShift + 3 * ChannelBits) == 0x1_0000_0000 * 0x100_0000
  {
    assert Pow2(8) == 0x100;
    Pow2Add(8, 8);
    Pow2Add(16, 8);
    Pow2Add(16, 16);
    Pow2Add(32, 8);
    Pow2Add(32, 16);
    Pow2Add(32, 24);
  }

  /** One `out |= static_cast<p_color>(v) << shift` of the alternate-order getters, for a shift
      that keeps the byte inside the 64 bits. */
  function OrIn(out: nat, v: byte, shift: nat): nat {
    Bitwise(Or, out, ShiftLeft(v, shift), TotalBits)
  }

  /** The four fields the getters or together lie in disjoint bytes, so or-ing them into 0 from the
      highest down gives the four bytes packed into bits 63..32. */
  lemma FieldsOr(v3: byte, v2: byte, v1: byte, v0: byte)
    ensures OrIn(OrIn(OrIn(OrIn(0, v3, 56), v2, 48), v1, 40), v0, 32) == ShiftLeft(Pack4(v3, v2, v1, v0), 32)
  {
    assert TotalBits == 64;
    var top: nat := 0x1_0000_0000_0000_0000;
    assert Pow2(32) == 0x1_0000_0000 && Pow2(64) == top by {
      ShiftFactors();
      Pow2Add(32, 32);
    }
    var a2: nat := v3 * 0x100 + v2;
    var a1: nat := a2 * 0x100 + v1;
    var a0: nat := a1 * 0x100 + v0;
    assert a0 == Pack4(v3, v2, v1, v0);
    assert ShiftLeft(a0, 32) < top by {
      ShiftLeftBy(a0, 32, 0x1_0000_0000);
    }
    assert ShiftLeft(a1, 40) < top by {
      ShiftedBelow(a1, v0, 32, 64);
    }
    assert ShiftLeft(a2, 48) < top by {
      ShiftedBelow(a2, v1, 40, 64);
    }
    assert ShiftLeft(v3, 56) < top by {
      ShiftedBelow(v3, v2, 48, 64);
    }
    var o0 := ShiftLeft(v3, 56);
    assert OrIn(0, v3, 56) == o0 by {
      assert ShiftLeft(0, 64) == 0 by {
        ShiftLeftBy(0, 64, top);
      }
      OrByte(0, v3, 56, 64);
    }
    assert OrIn(o0, v2, 48) == ShiftLeft(a2, 48) by {
      OrByte(v3, v2, 48, 64);
    }
    assert OrIn(ShiftLeft(a2, 48), v1, 40) == ShiftLeft(a1, 40) by {
      OrByte(a2, v1, 40, 64);
    }
    assert OrIn(ShiftLeft(a1, 40), v0, 32) == ShiftLeft(a0, 32) by {
      OrByte(a1, v0, 32, 64);
    }
  }

  /** An alternate-order getter: the four channels c3, c2, c1, c0 shifted by
      `base_shift + k * channel_bits`, k = 3 .. 0, and or-ed into 0 in that order. Since the
      fields do not overlap, the result is their sum. */
  function Reorder(big: bool, p: Pixel, c3: Channel, c2: Channel, c1: Channel, c0: Channel): (w: u64)
    ensures w == OrIn(OrIn(OrIn(OrIn(0, Get(big, p, c3), BaseShift + 3 * ChannelBits),
                                Get(big, p, c2), BaseShift + 2 * ChannelBits),
                           Get(big, p, c1), BaseShift + ChannelBits), Get(big, p, c0), BaseShift)
    ensures w % 0x1_0000_0000 == 0
    ensures w / 0x1_0000_0000 == Pack4(Get(big, p, c3), Get(big, p, c2), Get(big, p, c1), Get(big, p, c0))
  {
    var v3, v2, v1, v0 := Get(big, p, c3), Get(big, p, c2), Get(big, p, c1), Get(big, p, c0);
    assert BaseShift + 3 * ChannelBits == 56 && BaseShift + 2 * ChannelBits == 48
        && BaseShift + ChannelBits == 40 && BaseShift == 32;
    FieldsOr(v3, v2, v1, v0);
    var hi := Pack4(v3, v2, v1, v0);
    var w := ShiftLeft(hi, 32);
    assert w == hi * 0x1_0000_0000 by {
      ShiftFactors();
      ShiftLeftBy(hi, 32, 0x1_0000_0000);
    }
    DivMod(hi, 0, 0x1_0000_0000);
    w
  }

  /** `ARGB()`: A, R, G, B from the most significant byte down, in bits 63..32; bits 31..0 are 0. */
  function ARGB(big: bool, p: Pixel): (w: u64)
    ensures w % 0x1_0000_0000 == 0
    ensures Bytes64(w, true)[..4] == [Get(big, p, Alpha), Get(big, p, Red), Get(big, p, Green), Get(big, p, Blue)]
  {
    Reorder(big, p, Alpha, Red, Green, Blue)
  }

  /** `ABGR()`: A, B, G, R from the most significant byte down, in bits 63..32. */
  function ABGR(big: bool, p: Pixel): (w: u64)
    ensures w % 0x1_0000_0000 == 0
    ensures Bytes64(w, true)[..4] == [Get(big, p, Alpha), Get(big, p, Blue), Get(big, p, Green), Get(big, p, Red)]
  {
    Reorder(big, p, Alpha, Blue, Green, Red)
  }

  /** `BGRA()`: B, G, R, A from the most significant byte down, in bits 63..32. */
  function BGRA(big: bool, p: Pixel): (w: u64)
    ensures w % 0x1_0000_0000 == 0
    ensures Bytes64(w, true)[..4] == [Get(big, p, Blue), Get(big, p, Green), Get(big, p, Red), Get(big, p, Alpha)]
  {
    Reorder(big, p, Blue, Green, Red, Alpha)
  }

  /** `can_byteswap`: whether `p_color` is exactly as wide as the four channels. */
  function CanByteswap(): (b: bool)
    ensures !b
  {
    TotalBits == NumChannels * ChannelBits
  }

  /** `ARGB_byteswap()`: `std::byteswap(RGBA)` when `can_byteswap`, else `ARGB()`. With a 64-bit
      `p_color` the swap is never taken, so the result is the left-aligned ARGB word. */
  function ARGBByteswap(big: bool, p: Pixel): (w: u64)
    ensures w % 0x1_0000_0000 == 0
    ensures Bytes64(w, true)[..4] == [Get(big, p, Alpha), Get(big, p, Red), Get(big, p, Green), Get(big, p, Blue)]
  {
    assert !CanByteswap();
    ARGB(big, p)
  }

  /** The ARGB word right-aligned, as the comment on `base_shift` describes it: the channels in the
      low 32 bits and nothing above them. */
  function ARGBRightAligned(big: bool, p: Pixel): (w: u64)
    ensures w < 0x1_0000_0000
    ensures Bytes64(w, true)[4..] == [Get(big, p, Alpha), Get(big, p, Red), Get(big, p, Green), Get(big, p, Blue)]
  {
    DivMod(0, Pack4(Get(big, p, Alpha), Get(big, p, Red), Get(big, p, Green), Get(big, p, Blue)), 0x1_0000_0000);
    Pack4(Get(big, p, Alpha), Get(big, p, Red), Get(big, p, Green), Get(big, p, Blue))
  }

  /** What `ARGB()` returns is the right-aligned word shifted up by `base_shift` = 32 bits, so for
      opaque black it is 0xFF00_0000_0000_0000 instead of 0xFF00_0000. */
  lemma {:induction false} ARGBIsLeftAligned(big: bool, p: Pixel)
    ensures ARGB(big, p) == ARGBRightAligned(big, p) * 0x1_0000_0000
    ensures ARGB(big, Default(big)) == 0xFF00_0000_0000_0000
    ensures ARGBRightAligned(big, Default(big)) == 0xFF00_0000
  {
    var w := ARGB(big, p);
    assert w == (w / 0x1_0000_0000) * 0x1_0000_0000 + w % 0x1_0000_0000;
  }

  /** `Size()`: `sizeof(RGBA)`, the bytes of the 64-bit packed member. */
  function Size(): (n: nat)
    ensures n == 8
  {
    TotalBits / ChannelBits
  }

  /** `operator+`: each channel is `255` if the sum exceeds 255, else the sum. */
  function Add(big: bool, p: Pixel, q: Pixel): (r: Pixel)
    ensures forall c :: Get(big, r, c) == Min(255, Get(big, p, c) + Get(big, q, c))
  {
    Make(big, ClampedAdd(Get(big, p, Red), Get(big, q, Red)), ClampedAdd(Get(big, p, Green), Get(big, q, Green)),
         ClampedAdd(Get(big, p, Blue), Get(big, q, Blue)), ClampedAdd(Get(big, p, Alpha), Get(big, q, Alpha)))
  }

  /** `operator-`: each channel is `0` if the difference is negative, else the difference. */
  function Sub(big: bool, p: Pixel, q: Pixel): (r: Pixel)
    ensures forall c :: Get(big, r, c) == Max(0, Get(big, p, c) - Get(big, q, c))
  {
    Make(big, ClampedSub(Get(big, p, Red), Get(big, q, Red)), ClampedSub(Get(big, p, Green), Get(big, q, Green)),
         ClampedSub(Get(big, p, Blue), Get(big, q, Blue)), ClampedSub(Get(big, p, Alpha), Get(big, q, Alpha)))
  }
}
