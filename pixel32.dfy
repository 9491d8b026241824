/** The 32-bit packed pixel (`struct Pixel`) of QOID.hpp, src/QOID/DataTypes/pixel.hpp and
    Code/QOID/pixel.hpp. The three headers carry the same struct: four 8-bit channels packed into
    one `uint32_t`, in an order that depends on the host (`BIG_ENDIAN`, here the parameter `big`). */
module Pixel32 {
  import opened Bytes
  import opened Channels

  datatype Pixel = Pixel(packed: u32)

  /** The byte of `packed` (0 = least significant) that holds channel c. A big-endian host packs
      `r << 24 | g << 16 | b << 8 | a`, a little-endian one `a << 24 | b << 16 | g << 8 | r`;
      either way channel c is byte `Index(c)` of the word as it lies in memory. */
  function Slot(big: bool, c: Channel): (k: nat)
    ensures k < 4
    ensures forall w: u32 {:trigger Bytes32(w, big)} :: Bytes32(w, big)[Index(c)] == ByteOf(w, k)
  {
    if big then 3 - Index(c) else Index(c)
  }

  /** The channel getters `R()`, `G()`, `B()`, `A()`: a shift and a mask of `packed`. */
  function Get(big: bool, p: Pixel, c: Channel): byte {
    ByteOf(p.packed, Slot(big, c))
  }

  function R(big: bool, p: Pixel): byte { Get(big, p, Red) }
  function G(big: bool, p: Pixel): byte { Get(big, p, Green) }
  function B(big: bool, p: Pixel): byte { Get(big, p, Blue) }
  function A(big: bool, p: Pixel): byte { Get(big, p, Alpha) }

  /** The getters are the source's shifts and masks: on a big-endian host `R()` is
      `packed >> 24`, `G()` is `(packed >> 16) & 0xFF`, `B()` is `(packed >> 8) & 0xFF` and `A()`
      is `packed & 0xFF`; a little-endian host takes the same shifts in the order A, B, G, R. */
  lemma GetterShifts(big: bool, p: Pixel)
    ensures R(big, p) == if big then p.packed / 0x100_0000 else p.packed % 0x100
    ensures G(big, p) == if big then (p.packed / 0x1_0000) % 0x100 else (p.packed / 0x100) % 0x100
    ensures B(big, p) == if big then (p.packed / 0x100) % 0x100 else (p.packed / 0x1_0000) % 0x100
    ensures A(big, p) == if big then p.packed % 0x100 else p.packed / 0x100_0000
  {
  }

  /** Whatever the host, a getter reads the channel's byte of the word as it lies in memory, in
      the order R, G, B, A. */
  lemma GetIsMemoryByte(big: bool, p: Pixel, c: Channel)
    ensures Get(big, p, c) == Bytes32(p.packed, big)[Index(c)]
  {
  }

  /** The channel constructor `Pixel(r, g, b, a)`; the getters give the channels back on both hosts. */
  function FromChannels(big: bool, r: byte, g: byte, b: byte, a: byte): (p: Pixel)
    ensures R(big, p) == r && G(big, p) == g && B(big, p) == b && A(big, p) == a
  {
    if big then Pixel(Pack4(r, g, b, a)) else Pixel(Pack4(a, b, g, r))
  }

  /** The default constructor `Pixel()`: opaque black. */
  function Default(big: bool): (p: Pixel)
    ensures R(big, p) == 0 && G(big, p) == 0 && B(big, p) == 0 && A(big, p) == 0xFF
  {
    FromChannels(big, 0, 0, 0, 255)
  }

  /** A pixel is determined by its four channels. */
  lemma ChannelsDetermine(big: bool, p: Pixel, q: Pixel)
    requires R(big, p) == R(big, q) && G(big, p) == G(big, q)
    requires B(big, p) == B(big, q) && A(big, p) == A(big, q)
    ensures p == q
  {
    Unpack4(p.packed);
    Unpack4(q.packed);
    if big {
      assert ByteOf(p.packed, 3) == ByteOf(q.packed, 3) && ByteOf(p.packed, 0) == ByteOf(q.packed, 0);
    } else {
      assert ByteOf(p.packed, 0) == ByteOf(q.packed, 0) && ByteOf(p.packed, 3) == ByteOf(q.packed, 3);
    }
  }

  /** The four bytes that `memcpy(dst, &pixel, sizeof(Pixel))` copies: R, G, B, A on both hosts. */
  function MemoryBytes(big: bool, p: Pixel): (s: seq<byte>)
    ensures s == [R(big, p), G(big, p), B(big, p), A(big, p)]
  {
    Bytes32(p.packed, big)
  }

  /** `Size()`: the number of bytes of the packed word. */
  function Size(big: bool, p: Pixel): (n: nat)
    ensures n == |MemoryBytes(big, p)|
  {
    4
  }

  /** `operator+`: each channel is `std::min(255, a + b)`. */
  function Add(big: bool, p: Pixel, q: Pixel): (r: Pixel)
    ensures forall c :: Get(big, r, c) == Min(255, Get(big, p, c) + Get(big, q, c))
  {
    FromChannels(big, ClampedAdd(R(big, p), R(big, q)), ClampedAdd(G(big, p), G(big, q)),
                 ClampedAdd(B(big, p), B(big, q)), ClampedAdd(A(big, p), A(big, q)))
  }

  /** `operator-`: each channel is `std::max(0, a - b)`. */
  function Sub(big: bool, p: Pixel, q: Pixel): (r: Pixel)
    ensures forall c :: Get(big, r, c) == Max(0, Get(big, p, c) - Get(big, q, c))
  {
    FromChannels(big, ClampedSub(R(big, p), R(big, q)), ClampedSub(G(big, p), G(big, q)),
                 ClampedSub(B(big, p), B(big, q)), ClampedSub(A(big, p), A(big, q)))
  }

  /** `operator|`, `operator&`, `operator^` on the packed words; since they act bit by bit,
      on either host each channel of the result is the operator applied to the two channels. */
  function BitwiseOp(op: BitOp, p: Pixel, q: Pixel): (r: Pixel)
    ensures r.packed == Bitwise(op, p.packed, q.packed, 32)
    ensures forall big, c :: Get(big, r, c) == ByteBitwise(op, Get(big, p, c), Get(big, q, c))
  {
    Pixel(WordBitwise(op, p.packed, q.packed))
  }

  /** `p ^ q ^ q == p`: xor-ing a mask in twice restores the pixel. */
  lemma XorMaskTwice(p: Pixel, q: Pixel)
    ensures BitwiseOp(Xor, BitwiseOp(Xor, p, q), q) == p
  {
    var once := BitwiseOp(Xor, p, q);
    var twice := BitwiseOp(Xor, once, q);
    assert Pow2(8) == 0x100;
    forall k | 0 <= k < 4
      ensures ByteOf(twice.packed, k) == ByteOf(p.packed, k)
    {
      Bytes.XorTwice(ByteOf(p.packed, k), ByteOf(q.packed, k), 8);
    }
    Unpack4(p.packed);
    Unpack4(twice.packed);
  }

  /** `operator==` and `operator!=` compare `packed`, which is the same as comparing every channel. */
  function Equal(big: bool, p: Pixel, q: Pixel): (b: bool)
    ensures b <==> forall c :: Get(big, p, c) == Get(big, q, c)
  {
    if forall c :: Get(big, p, c) == Get(big, q, c) then
      ChannelsDetermine(big, p, q);
      p.packed == q.packed
    else
      p.packed == q.packed
  }

  function NotEqual(big: bool, p: Pixel, q: Pixel): (b: bool)
    ensures b <==> exists c :: Get(big, p, c) != Get(big, q, c)
  {
    !Equal(big, p, q)
  }

  /** The word `w` with byte k replaced by v: `(w & ~(0xFF << 8k)) | (v << 8k)`. */
  function WithByte(w: u32, k: nat, v: byte): (r: u32)
    requires k < 4
    ensures ByteOf(r, k) == v
    ensures forall j :: 0 <= j < 4 && j != k ==> ByteOf(r, j) == ByteOf(w, j)
  {
    Pack4(if k == 3 then v else ByteOf(w, 3), if k == 2 then v else ByteOf(w, 2),
          if k == 1 then v else ByteOf(w, 1), if k == 0 then v else ByteOf(w, 0))
  }

  /** A pixel variable: the setters, `unPack` and the compound operators update `packed` in place. */
  class PixelVar {
    const big: bool
    var packed: u32

    constructor (big: bool, p: Pixel)
      ensures this.big == big && Value() == p
    {
      this.big := big;
      packed := p.packed;
    }

    function Value(): Pixel
      reads this
    {
      Pixel(packed)
    }

    /** Writes byte `Slot(big, c)`; the other three channels keep their values. */
    method Set(c: Channel, v: byte)
      modifies this
      ensures Get(big, Value(), c) == v
      ensures forall d :: d != c ==> Get(big, Value(), d) == Get(big, old(Value()), d)
    {
      packed := WithByte(packed, Slot(big, c), v);
    }

    /** `setR`: on a big-endian host `packed & 0x00FFFFFF | r << 24`, on a little-endian one
        `packed & 0xFFFFFF00 | r`. */
    method SetR(r: byte)
      modifies this
      ensures Value() == FromChannels(big, r, G(big, old(Value())), B(big, old(Value())), A(big, old(Value())))
    {
      ghost var was := Value();
      Set(Red, r);
      ChannelsDetermine(big, Value(), FromChannels(big, r, G(big, was), B(big, was), A(big, was)));
    }

    /** `setG`: bits 16-23 on a big-endian host, bits 8-15 on a little-endian one. */
    method SetG(g: byte)
      modifies this
      ensures Value() == FromChannels(big, R(big, old(Value())), g, B(big, old(Value())), A(big, old(Value())))
    {
      ghost var was := Value();
      Set(Green, g);
      ChannelsDetermine(big, Value(), FromChannels(big, R(big, was), g, B(big, was), A(big, was)));
    }

    /** `setB`: bits 8-15 on a big-endian host, bits 16-23 on a little-endian one. */
    method SetB(b: byte)
      modifies this
      ensures Value() == FromChannels(big, R(big, old(Value())), G(big, old(Value())), b, A(big, old(Value())))
    {
      ghost var was := Value();
      Set(Blue, b);
      ChannelsDetermine(big, Value(), FromChannels(big, R(big, was), G(big, was), b, A(big, was)));
    }

    /** `setA`: the low byte on a big-endian host, the top byte on a little-endian one. */
    method SetA(a: byte)
      modifies this
      ensures Value() == FromChannels(big, R(big, old(Value())), G(big, old(Value())), B(big, old(Value())), a)
    {
      ghost var was := Value();
      Set(Alpha, a);
      ChannelsDetermine(big, Value(), FromChannels(big, R(big, was), G(big, was), B(big, was), a));
    }

    /** `unPack(p)`: replaces the packed word, so that `Pack()` returns p. */
    method UnPack(p: u32)
      modifies this
      ensures Value().packed == p
    {
      packed := p;
    }

    /** `|=`, `&=`, `^=`: the packed word becomes the corresponding binary operator's result. */
    method BitwiseAssign(op: BitOp, q: Pixel)
      modifies this
      ensures Value() == BitwiseOp(op, old(Value()), q)
    {
      packed := WordBitwise(op, packed, q.packed);
    }

    /** `+=`: `*this = *this + p`. */
    method AddAssign(q: Pixel)
      modifies this
      ensures Value() == Add(big, old(Value()), q)
    {
      packed := Add(big, Value(), q).packed;
    }

    /** `-=`: `*this = *this - p`. */
    method SubAssign(q: Pixel)
      modifies this
      ensures Value() == Sub(big, old(Value()), q)
    {
      packed := Sub(big, Value(), q).packed;
    }
  }
}
