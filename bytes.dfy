/**
 * Fixed-width integer ranges of the C++ source, an Option type, and the
 * bit-level helpers shared by the font walk and the pixel writer.
 * Storage bytes (framebuffer, font tables, glyph bitmaps) are `bv8`;
 * codes, metrics and coordinates are mathematical integers restricted to
 * the range of their C type.
 */
module Bytes {

  type uint8 = x: int | 0 <= x < 0x100
  type int8 = x: int | -0x80 <= x < 0x80
  type uint16 = x: int | 0 <= x < 0x1_0000
  type int16 = x: int | -0x8000 <= x < 0x8000

  datatype Option<+T> = None | Some(value: T)

  /** The value a `uint16_t` parameter receives from an `int16_t` argument. */
  function ToUint16(v: int16): (r: uint16)
    ensures 0 <= v ==> r == v
    ensures v < 0 ==> r == v + 0x1_0000
  {
    v % 0x1_0000
  }

  /** True when bit `k` (0 = least significant) of `b` is one: `(b >> k) & 1`. */
  predicate Bit(b: bv8, k: nat)
    requires k < 8
  {
    ShiftedRight(b, k) & 1 == 1
  }

  /** The one-bit mask `1 << k`. */
  function Mask(k: nat): bv8
    requires k < 8
  {
    ShiftedLeft(1, k)
  }

  /** The mask has bit k and no other. */
  lemma MaskBits(k: nat)
    requires k < 8
    ensures forall j :: 0 <= j < 8 ==> (Bit(Mask(k), j) <==> j == k)
  {
    assert Mask(0) == 0x01 && Mask(1) == 0x02 && Mask(2) == 0x04 && Mask(3) == 0x08;
    assert Mask(4) == 0x10 && Mask(5) == 0x20 && Mask(6) == 0x40 && Mask(7) == 0x80;
    forall j | 0 <= j < 8
      ensures Bit(Mask(k), j) <==> j == k
    {
      ShiftedRightShift(Mask(k), j);
    }
  }

  /** n single right shifts are one shift by n. */
  lemma {:induction false} ShiftedRightShift(b: bv8, n: nat)
    requires n < 8
    ensures ShiftedRight(b, n) == b >> n
  {
    if n > 0 {
      ShiftedRightShift(b, n - 1);
    }
  }

  /** n single left shifts are one shift by n: the mask is `1 << k`. */
  lemma {:induction false} ShiftedLeftShift(b: bv8, n: nat)
    requires n < 8
    ensures ShiftedLeft(b, n) == b << n
  {
    if n > 0 {
      ShiftedLeftShift(b, n - 1);
    }
  }

  /** `b` with bit `k` cleared, as `b & (0xFF ^ (1 << k))`. */
  function ClearBit(b: bv8, k: nat): bv8
    requires k < 8
  {
    b & (0xFF ^ Mask(k))
  }

  /** `b` with bit `k` set, as `b | (1 << k)`. */
  function SetBit(b: bv8, k: nat): bv8
    requires k < 8
  {
    b | Mask(k)
  }

  /** Clearing bit k makes it 0 and leaves the other seven bits alone. */
  lemma ClearBitSpec(b: bv8, k: nat)
    requires k < 8
    ensures !Bit(ClearBit(b, k), k)
    ensures forall j :: 0 <= j < 8 && j != k ==> (Bit(ClearBit(b, k), j) <==> Bit(b, j))
  {
    ShiftedLeftShift(1, k);
    forall j | 0 <= j < 8
      ensures Bit(ClearBit(b, k), j) <==> (j != k && Bit(b, j))
    {
      ShiftedRightShift(ClearBit(b, k), j);
      ShiftedRightShift(b, j);
    }
  }

  /** Setting bit k makes it 1 and leaves the other seven bits alone. */
  lemma SetBitSpec(b: bv8, k: nat)
    requires k < 8
    ensures Bit(SetBit(b, k), k)
    ensures forall j :: 0 <= j < 8 && j != k ==> (Bit(SetBit(b, k), j) <==> Bit(b, j))
  {
    ShiftedLeftShift(1, k);
    forall j | 0 <= j < 8
      ensures Bit(SetBit(b, k), j) <==> (j == k || Bit(b, j))
    {
      ShiftedRightShift(SetBit(b, k), j);
      ShiftedRightShift(b, j);
    }
  }

  /** The eight bits of a byte, most significant first. */
  function ByteBits(b: bv8): (r: seq<bool>)
    ensures |r| == 8
  {
    [Bit(b, 7), Bit(b, 6), Bit(b, 5), Bit(b, 4), Bit(b, 3), Bit(b, 2), Bit(b, 1), Bit(b, 0)]
  }

  /** The bits of a byte string, byte after byte, each byte most significant bit first. */
  function PackedBits(bytes: seq<bv8>): (r: seq<bool>)
    ensures |r| == 8 * |bytes|
  {
    if bytes == [] then [] else PackedBits(bytes[..|bytes| - 1]) + ByteBits(bytes[|bytes| - 1])
  }

  /** Entry i of a byte's bits is bit 7 - i. */
  lemma ByteBitsAt(b: bv8, i: nat)
    requires i < 8
    ensures ByteBits(b)[i] == Bit(b, 7 - i)
  {
  }

  /** Bit k of a packed string is bit 7 - k % 8 of byte k / 8. */
  lemma {:induction false} PackedBitsAt(bytes: seq<bv8>, k: nat)
    requires k < 8 * |bytes|
    ensures PackedBits(bytes)[k] == Bit(bytes[k / 8], 7 - k % 8)
  {
    var n := |bytes| - 1;
    var front := PackedBits(bytes[..n]);
    assert PackedBits(bytes) == front + ByteBits(bytes[n]);
    if k < 8 * n {
      PackedBitsAt(bytes[..n], k);
      assert k / 8 < n;
      assert PackedBits(bytes)[k] == front[k];
    } else {
      var i := k - 8 * n;
      assert k / 8 == n && k % 8 == i;
      ByteBitsAt(bytes[n], i);
      assert PackedBits(bytes)[k] == ByteBits(bytes[n])[i];
    }
  }

  /** Two bytes that agree on every bit are equal. */
  lemma BitsDetermineByte(a: bv8, b: bv8)
    requires forall j :: 0 <= j < 8 ==> (Bit(a, j) <==> Bit(b, j))
    ensures a == b
  {
    assert Bit(a, 0) == Bit(b, 0) && Bit(a, 1) == Bit(b, 1);
    assert Bit(a, 2) == Bit(b, 2) && Bit(a, 3) == Bit(b, 3);
    assert Bit(a, 4) == Bit(b, 4) && Bit(a, 5) == Bit(b, 5);
    assert Bit(a, 6) == Bit(b, 6) && Bit(a, 7) == Bit(b, 7);
  }

  /** `b` shifted right one place at a time, n times (`line >>= 1` in a loop). */
  function ShiftedRight(b: bv8, n: nat): bv8
  {
    if n == 0 then b else ShiftedRight(b, n - 1) >> 1
  }

  /** `b` shifted left one place at a time, n times (`bits <<= 1` in a loop). */
  function ShiftedLeft(b: bv8, n: nat): bv8
  {
    if n == 0 then b else ShiftedLeft(b, n - 1) << 1
  }

  /** After s single left shifts the top bit (mask 0x80) is bit 7 - s of the original byte. */
  lemma {:induction false} TopBitAfterShifts(b: bv8, s: nat)
    requires s < 8
    ensures (ShiftedLeft(b, s) & 0x80 != 0) <==> Bit(b, 7 - s)
  {
    ShiftedRightShift(b, 7 - s);
    ShiftedLeftShift(b, s);
  }
}
