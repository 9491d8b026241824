/** Byte-level helpers shared by the pixel types and the file writers.

    Bytes and machine words are bounded integers; a word's bytes are its base-256 digits. This
    gives the layout of a word in memory on a big- or little-endian host, `std::byteswap`,
    clamped channel arithmetic and the bitwise operators `|`, `&`, `^`. */
module Bytes {

  type byte = x: int | 0 <= x < 0x100
  type u16 = x: int | 0 <= x < 0x1_0000
  type u32 = x: int | 0 <= x < 0x1_0000_0000
  type u64 = x: int | 0 <= x < 0x1_0000_0000_0000_0000

  lemma MulBound(d: int, t: int)
    requires 0 < d
    ensures t >= 1 ==> d * t >= d
    ensures t <= -1 ==> d * t <= -d
    decreases if t >= 0 then t else -t
  {
    if t >= 1 {
      assert d * t == d + d * (t - 1);
      MulBound(d, t - 1);
    } else if t <= -1 {
      assert d * t == -d + d * (t + 1);
      MulBound(d, t + 1);
    }
  }

  /** Euclidean division is unique: `q * d + r` with `0 <= r < d` has quotient q and remainder r. */
  lemma {:induction false} DivMod(q: int, r: int, d: int)
    requires 0 < d && 0 <= r < d
    ensures (q * d + r) / d == q && (q * d + r) % d == r
  {
    var k := q * d + r;
    var t := k / d - q;
    assert k == d * (k / d) + k % d;
    assert d * t == r - k % d by { assert d * (k / d) == d * t + d * q; }
    MulBound(d, t);
  }

  /** Byte `k` of `w`, counting from the least significant: `(w >> 8k) & 0xFF`. */
  function ByteOf(w: u32, k: nat): byte
    requires k < 4
  {
    if k == 0 then w % 0x100
    else if k == 1 then (w / 0x100) % 0x100
    else if k == 2 then (w / 0x1_0000) % 0x100
    else w / 0x100_0000
  }

  /** The word whose bytes, most significant first, are b3, b2, b1, b0:
      `b3 << 24 | b2 << 16 | b1 << 8 | b0`. */
  function Pack4(b3: byte, b2: byte, b1: byte, b0: byte): (w: u32)
    ensures ByteOf(w, 3) == b3 && ByteOf(w, 2) == b2 && ByteOf(w, 1) == b1 && ByteOf(w, 0) == b0
  {
    var w := b3 * 0x100_0000 + b2 * 0x1_0000 + b1 * 0x100 + b0;
    DivMod(b3 * 0x1_0000 + b2 * 0x100 + b1, b0, 0x100);
    DivMod(b3 * 0x100 + b2, b1 * 0x100 + b0, 0x1_0000);
    DivMod(b3, b2 * 0x1_0000 + b1 * 0x100 + b0, 0x100_0000);
    DivMod(b3 * 0x100 + b2, b1, 0x100);
    DivMod(b3, b2, 0x100);
    w
  }

  /** Every word is the packing of its own four bytes. */
  lemma {:induction false} Unpack4(w: u32)
    ensures Pack4(ByteOf(w, 3), ByteOf(w, 2), ByteOf(w, 1), ByteOf(w, 0)) == w
  {
    var q1 := w / 0x100;
    var q2 := q1 / 0x100;
    var b0, b1, b2, b3 := w % 0x100, q1 % 0x100, q2 % 0x100, q2 / 0x100;
    assert w == q1 * 0x100 + b0;
    assert q1 == q2 * 0x100 + b1;
    assert q2 == b3 * 0x100 + b2;
    assert w == q2 * 0x1_0000 + (b1 * 0x100 + b0);
    assert w == b3 * 0x100_0000 + (b2 * 0x1_0000 + b1 * 0x100 + b0);
    DivMod(q2, b1 * 0x100 + b0, 0x1_0000);
    DivMod(b3, b2 * 0x1_0000 + b1 * 0x100 + b0, 0x100_0000);
    assert ByteOf(w, 1) == b1 && ByteOf(w, 2) == b2 && ByteOf(w, 3) == b3;
  }

  /** The two bytes of `w` in memory order on a big-endian (`big`) or little-endian host. */
  function Bytes16(w: u16, big: bool): (s: seq<byte>)
    ensures |s| == 2
  {
    if big then [w / 0x100, w % 0x100] else [w % 0x100, w / 0x100]
  }

  /** The four bytes of `w` in memory order. */
  function Bytes32(w: u32, big: bool): (s: seq<byte>)
    ensures |s| == 4
  {
    if big then [ByteOf(w, 3), ByteOf(w, 2), ByteOf(w, 1), ByteOf(w, 0)]
    else [ByteOf(w, 0), ByteOf(w, 1), ByteOf(w, 2), ByteOf(w, 3)]
  }

  /** The eight bytes of `w` in memory order. */
  function Bytes64(w: u64, big: bool): (s: seq<byte>)
    ensures |s| == 8
  {
    var hi := w / 0x1_0000_0000;
    var lo := w % 0x1_0000_0000;
    if big then Bytes32(hi, true) + Bytes32(lo, true) else Bytes32(lo, false) + Bytes32(hi, false)
  }

  /** The value of four bytes read most significant first (the wire order of QOI). */
  function Word32BE(s: seq<byte>): (w: u32)
    requires |s| == 4
    ensures Bytes32(w, true) == s
  {
    Pack4(s[0], s[1], s[2], s[3])
  }

  /** `std::byteswap` on a 16-bit word: stored little-endian it gives the big-endian bytes. */
  function ByteSwap16(w: u16): (r: u16)
    ensures Bytes16(r, false) == Bytes16(w, true)
    ensures Bytes16(r, true) == Bytes16(w, false)
  {
    var r := (w % 0x100) * 0x100 + w / 0x100;
    DivMod(w % 0x100, w / 0x100, 0x100);
    r
  }

  /** `std::byteswap` on a 32-bit word. */
  function ByteSwap32(w: u32): (r: u32)
    ensures Bytes32(r, false) == Bytes32(w, true)
    ensures Bytes32(r, true) == Bytes32(w, false)
  {
    Pack4(ByteOf(w, 0), ByteOf(w, 1), ByteOf(w, 2), ByteOf(w, 3))
  }

  function Min(x: int, y: int): int { if x <= y then x else y }
  function Max(x: int, y: int): int { if x >= y then x else y }

  /** Channel addition that saturates at 255 instead of wrapping. */
  function ClampedAdd(x: byte, y: byte): (r: byte)
    ensures r == Min(255, x + y)
    ensures x + y <= 255 ==> r - y == x
  {
    if x + y > 255 then 255 else x + y
  }

  /** Channel subtraction that stops at 0 instead of wrapping. */
  function ClampedSub(x: byte, y: byte): (r: byte)
    ensures r == Max(0, x - y)
    ensures y <= x ==> r + y == x
  {
    if x - y < 0 then 0 else x - y
  }

  /** The three bitwise operators of C++ on unsigned words. */
  datatype BitOp = Or | And | Xor

  function BitRule(op: BitOp, a: bool, b: bool): bool {
    match op
    case Or => a || b
    case And => a && b
    case Xor => a != b
  }

  function Pow2(n: nat): (r: nat)
    ensures r >= 1
  {
    if n == 0 then 1 else 2 * Pow2(n - 1)
  }

  /** `op` applied bit by bit to the low `n` bits of x and y. */
  function Bitwise(op: BitOp, x: nat, y: nat, n: nat): (r: nat)
    ensures r < Pow2(n)
  {
    if n == 0 then 0
    else (if BitRule(op, x % 2 == 1, y % 2 == 1) then 1 else 0) + 2 * Bitwise(op, x / 2, y / 2, n - 1)
  }

  /** Bit i of `Bitwise(op, x, y, n)` is `op` applied to bit i of x and bit i of y. */
  lemma {:induction false} BitwiseBit(op: BitOp, x: nat, y: nat, n: nat, i: nat)
    requires i < n
    ensures (Bitwise(op, x, y, n) / Pow2(i)) % 2 == 1
            <==> BitRule(op, (x / Pow2(i)) % 2 == 1, (y / Pow2(i)) % 2 == 1)
  {
    var r := Bitwise(op, x, y, n);
    var bit := if BitRule(op, x % 2 == 1, y % 2 == 1) then 1 else 0;
    var rest := Bitwise(op, x / 2, y / 2, n - 1);
    assert r == rest * 2 + bit;
    if i > 0 {
      DivMod(rest, bit, 2);
      BitwiseBit(op, x / 2, y / 2, n - 1, i - 1);
      DivOfDiv(r, i);
      DivOfDiv(x, i);
      DivOfDiv(y, i);
    } else {
      DivMod(rest, bit, 2);
    }
  }

  /** Dividing by 2 and then by 2^(i-1) is dividing by 2^i. */
  lemma {:induction false} DivOfDiv(x: nat, i: nat)
    requires i > 0
    ensures x / Pow2(i) == (x / 2) / Pow2(i - 1)
  {
    var p := Pow2(i - 1);
    var q := (x / 2) / p;
    var r := (x / 2) % p;
    assert x / 2 == q * p + r;
    assert x == (x / 2) * 2 + x % 2;
    assert x == q * (2 * p) + (2 * r + x % 2);
    DivMod(q, 2 * r + x % 2, 2 * p);
  }

  /** Applying `^ y` twice gives back the low n bits of x. */
  lemma {:induction false} XorTwice(x: nat, y: nat, n: nat)
    requires x < Pow2(n)
    ensures Bitwise(Xor, Bitwise(Xor, x, y, n), y, n) == x
  {
    if n > 0 {
      var once := Bitwise(Xor, x, y, n);
      var rest := Bitwise(Xor, x / 2, y / 2, n - 1);
      var bit := if x % 2 != y % 2 then 1 else 0;
      assert once == rest * 2 + bit;
      DivMod(rest, bit, 2);
      XorTwice(x / 2, y / 2, n - 1);
    }
  }

  /** The 8-bit operator `op` on two channels. */
  function ByteBitwise(op: BitOp, x: byte, y: byte): byte {
    assert Pow2(8) == 0x100;
    Bitwise(op, x, y, 8)
  }

  /** `x >> k`, one bit at a time. */
  function ShiftRight(x: nat, k: nat): nat {
    if k == 0 then x else ShiftRight(x / 2, k - 1)
  }

  /** `x << k` without a width, one bit at a time. */
  function ShiftLeft(x: nat, k: nat): nat {
    if k == 0 then x else 2 * ShiftLeft(x, k - 1)
  }

  lemma {:induction false} ShiftRightIsDiv(x: nat, k: nat)
    ensures ShiftRight(x, k) == x / Pow2(k)
  {
    if k > 0 {
      ShiftRightIsDiv(x / 2, k - 1);
      DivOfDiv(x, k);
    }
  }

  lemma {:induction false} ShiftLeftIsMul(x: nat, k: nat)
    ensures ShiftLeft(x, k) == x * Pow2(k)
  {
    if k > 0 {
      ShiftLeftIsMul(x, k - 1);
      assert 2 * (x * Pow2(k - 1)) == x * (2 * Pow2(k - 1));
    }
  }

  /** `(a << m) << k == a << (m + k)`. */
  lemma {:induction false} ShiftLeftCompose(a: nat, m: nat, k: nat)
    ensures ShiftLeft(a, m + k) == ShiftLeft(ShiftLeft(a, m), k)
  {
    if k > 0 {
      ShiftLeftCompose(a, m, k - 1);
    }
  }

  /** A shift distributes over a sum. */
  lemma {:induction false} ShiftLeftAdd(x: nat, y: nat, k: nat)
    ensures ShiftLeft(x, k) + ShiftLeft(y, k) == ShiftLeft(x + y, k)
  {
    if k > 0 {
      ShiftLeftAdd(x, y, k - 1);
    }
  }

  /** A shift keeps the order of its operands. */
  lemma {:induction false} ShiftLeftMono(x: nat, y: nat, k: nat)
    ensures x <= y ==> ShiftLeft(x, k) <= ShiftLeft(y, k)
    ensures x < y ==> ShiftLeft(x, k) < ShiftLeft(y, k)
  {
    if k > 0 {
      ShiftLeftMono(x, y, k - 1);
    }
  }

  lemma {:induction false} ShiftLeftOne(k: nat)
    ensures ShiftLeft(1, k) == Pow2(k)
  {
    if k > 0 {
      ShiftLeftOne(k - 1);
    }
  }

  /** A shift by a width whose power of two is known. */
  lemma ShiftLeftBy(x: nat, k: nat, p: nat)
    requires Pow2(k) == p
    ensures ShiftLeft(x, k) == x * p
  {
    ShiftLeftIsMul(x, k);
  }

  /** The low `m + n` bits of an operation are its low `m` bits followed by the next `n`. */
  lemma {:induction false} BitwiseSplit(op: BitOp, x: nat, y: nat, m: nat, n: nat)
    ensures Bitwise(op, x, y, m + n)
            == Bitwise(op, x, y, m) + ShiftLeft(Bitwise(op, ShiftRight(x, m), ShiftRight(y, m), n), m)
    decreases m
  {
    if m > 0 {
      BitwiseSplit(op, x / 2, y / 2, m - 1, n);
      assert m + n - 1 == m - 1 + n;
    }
  }

  /** An n-bit operation does not see the bits of its operands from bit n up. */
  lemma {:induction false} BitwiseHigh(op: BitOp, x: nat, y: nat, c: nat, d: nat, n: nat)
    ensures Bitwise(op, x + ShiftLeft(c, n), y + ShiftLeft(d, n), n) == Bitwise(op, x, y, n)
    decreases n
  {
    if n > 0 {
      var hx, hy := ShiftLeft(c, n - 1), ShiftLeft(d, n - 1);
      assert (x + 2 * hx) % 2 == x % 2 && (x + 2 * hx) / 2 == x / 2 + hx;
      assert (y + 2 * hy) % 2 == y % 2 && (y + 2 * hy) / 2 == y / 2 + hy;
      BitwiseHigh(op, x / 2, y / 2, c, d, n - 1);
    }
  }

  lemma BitwiseLowPart(op: BitOp, x: nat, y: nat, x0: nat, y0: nat, c: nat, d: nat, n: nat)
    requires x == x0 + ShiftLeft(c, n) && y == y0 + ShiftLeft(d, n)
    ensures Bitwise(op, x, y, n) == Bitwise(op, x0, y0, n)
  {
    BitwiseHigh(op, x0, y0, c, d, n);
  }

  /** The 8-bit operation on two words is the 8-bit operator on their low bytes. */
  lemma LowByte(op: BitOp, x: nat, y: nat)
    ensures Bitwise(op, x, y, 8) == ByteBitwise(op, x % 0x100, y % 0x100)
  {
    var c, d := x / 0x100, y / 0x100;
    assert ShiftLeft(c, 8) == 0x100 * c && ShiftLeft(d, 8) == 0x100 * d by {
      ShiftLeftIsMul(c, 8);
      ShiftLeftIsMul(d, 8);
      assert Pow2(8) == 0x100;
    }
    BitwiseLowPart(op, x, y, x % 0x100, y % 0x100, c, d, 8);
  }

  /** The low `8 + n` bits of an operation are its low byte followed by the next `n` bits. */
  lemma Split8(op: BitOp, x: nat, y: nat, n: nat)
    ensures Bitwise(op, x, y, 8 + n)
            == Bitwise(op, x, y, 8) + 0x100 * Bitwise(op, x / 0x100, y / 0x100, n)
  {
    assert Pow2(8) == 0x100;
    BitwiseSplit(op, x, y, 8, n);
    ShiftRightIsDiv(x, 8);
    ShiftRightIsDiv(y, 8);
    ShiftLeftIsMul(Bitwise(op, x / 0x100, y / 0x100, n), 8);
  }

  /** The 32-bit operator on whole words is the sum of the 8-bit operator on each pair of
      corresponding bytes, each in its place. */
  lemma WordSplit(op: BitOp, p: u32, q: u32)
    ensures Bitwise(op, p, q, 32)
            == ByteBitwise(op, ByteOf(p, 0), ByteOf(q, 0))
               + 0x100 * ByteBitwise(op, ByteOf(p, 1), ByteOf(q, 1))
               + 0x1_0000 * ByteBitwise(op, ByteOf(p, 2), ByteOf(q, 2))
               + 0x100_0000 * ByteBitwise(op, ByteOf(p, 3), ByteOf(q, 3))
  {
    var p1, q1 := p / 0x100, q / 0x100;
    var p2, q2 := p1 / 0x100, q1 / 0x100;
    var p3, q3 := p2 / 0x100, q2 / 0x100;
    assert p2 == p / 0x1_0000 && q2 == q / 0x1_0000;
    assert p3 == p / 0x100_0000 && q3 == q / 0x100_0000;
    var r0: int := ByteBitwise(op, ByteOf(p, 0), ByteOf(q, 0));
    var r1: int := ByteBitwise(op, ByteOf(p, 1), ByteOf(q, 1));
    var r2: int := ByteBitwise(op, ByteOf(p, 2), ByteOf(q, 2));
    var r3: int := ByteBitwise(op, ByteOf(p, 3), ByteOf(q, 3));
    assert Bitwise(op, p2, q2, 16) == r2 + 0x100 * r3 by {
      Split8(op, p2, q2, 8);
      LowByte(op, p2, q2);
      LowByte(op, p3, q3);
    }
    assert Bitwise(op, p1, q1, 24) == r1 + 0x100 * (r2 + 0x100 * r3) by {
      Split8(op, p1, q1, 16);
      LowByte(op, p1, q1);
    }
    assert Bitwise(op, p, q, 32) == r0 + 0x100 * (r1 + 0x100 * (r2 + 0x100 * r3)) by {
      Split8(op, p, q, 24);
      LowByte(op, p, q);
    }
  }

  /** `0 | y == y` and `x | 0 == x` on n-bit words. */
  lemma {:induction false} OrZero(x: nat, n: nat)
    requires x < Pow2(n)
    ensures Bitwise(Or, 0, x, n) == x && Bitwise(Or, x, 0, n) == x
  {
    if n > 0 {
      OrZero(x / 2, n - 1);
    }
  }

  /** When every bit of y lies below bit k, and so none of `a << k` does, `(a << k) | y` is the
      sum of the two. */
  lemma {:induction false} OrDisjoint(a: nat, k: nat, y: nat, n: nat)
    requires k <= n && ShiftLeft(a, k) < Pow2(n) && y < Pow2(k)
    ensures Bitwise(Or, ShiftLeft(a, k), y, n) == ShiftLeft(a, k) + y
    decreases k
  {
    if k == 0 {
      OrZero(a, n);
    } else {
      OrDisjoint(a, k - 1, y / 2, n - 1);
    }
  }

  /** Or-ing `v << k` into a word that holds `a` from bit k + 8 up puts the byte v just below a.
      A bound on the last shift keeps every earlier one below 2^n as well. */
  lemma ShiftedBelow(a: nat, v: byte, k: nat, n: nat)
    requires ShiftLeft(a * 0x100 + v, k) < Pow2(n)
    ensures ShiftLeft(a, k + 8) == ShiftLeft(a * 0x100, k)
    ensures ShiftLeft(a, k + 8) + ShiftLeft(v, k) == ShiftLeft(a * 0x100 + v, k)
    ensures ShiftLeft(a, k + 8) < Pow2(n)
    ensures ShiftLeft(v, k) < Pow2(k + 8)
  {
    var hi, lo, x := ShiftLeft(a, k + 8), ShiftLeft(v, k), a * 0x100;
    assert Pow2(8) == 0x100;
    assert hi == ShiftLeft(x, k) by {
      ShiftLeftCompose(a, 8, k);
      ShiftLeftBy(a, 8, 0x100);
    }
    assert hi + lo == ShiftLeft(x + v, k) by {
      ShiftLeftAdd(x, v, k);
    }
    assert hi < Pow2(n) by {
      ShiftLeftMono(x, x + v, k);
    }
    assert lo < Pow2(k + 8) by {
      ShiftLeftMono(v, 0x100, k);
      ShiftLeftBy(1, 8, 0x100);
      ShiftLeftCompose(1, 8, k);
      ShiftLeftOne(k + 8);
    }
  }

  /** `(a << (k + 8)) | (v << k)` is `(a * 256 + v) << k` when it fits in n bits. */
  lemma OrByte(a: nat, v: byte, k: nat, n: nat)
    requires k + 8 <= n && ShiftLeft(a * 0x100 + v, k) < Pow2(n)
    ensures Bitwise(Or, ShiftLeft(a, k + 8), ShiftLeft(v, k), n) == ShiftLeft(a * 0x100 + v, k)
    ensures ShiftLeft(a, k + 8) < Pow2(n)
  {
    ShiftedBelow(a, v, k, n);
    OrDisjoint(a, k + 8, ShiftLeft(v, k), n);
  }

  /** A bitwise operator on 32-bit words: the whole-word operator, which is the same as applying
      `op` to each pair of corresponding bytes. */
  function WordBitwise(op: BitOp, p: u32, q: u32): (r: u32)
    ensures r == Bitwise(op, p, q, 32)
    ensures forall k :: 0 <= k < 4 ==> ByteOf(r, k) == ByteBitwise(op, ByteOf(p, k), ByteOf(q, k))
  {
    WordSplit(op, p, q);
    Pack4(ByteBitwise(op, ByteOf(p, 3), ByteOf(q, 3)), ByteBitwise(op, ByteOf(p, 2), ByteOf(q, 2)),
          ByteBitwise(op, ByteOf(p, 1), ByteOf(q, 1)), ByteBitwise(op, ByteOf(p, 0), ByteOf(q, 0)))
  }

  /** `std::memcpy(buffer.data() + at, bytes, n)`. */
  method CopyAt(buffer: array<byte>, at: nat, bytes: seq<byte>)
    requires at + |bytes| <= buffer.Length
    modifies buffer
    ensures buffer[..at + |bytes|] == old(buffer[..at]) + bytes
    ensures buffer[at + |bytes|..] == old(buffer[at + |bytes|..])
  {
    for k := 0 to |bytes|
      invariant buffer[..at + k] == old(buffer[..at]) + bytes[..k]
      invariant buffer[at + k..] == old(buffer[at + k..])
    {
      buffer[at + k] := bytes[k];
      assert bytes[..k + 1] == bytes[..k] + [bytes[k]];
    }
  }
}
