/** Fixed-width fields of an AFS2 block as they appear in a byte sequence.
    `EndianStream` is not part of this model; its byte order is taken to be
    little-endian throughout, for 16-bit and 32-bit fields alike. */
module Wire {

  type byte = x: int | 0 <= x < 0x100

  /** C#'s `ushort` and `uint`. */
  type u16 = x: int | 0 <= x < 0x1_0000
  type u32 = x: int | 0 <= x < 0x1_0000_0000

  /** The four ASCII bytes "AFS2" that open every block. */
  const Signature: seq<byte> := [0x41, 0x46, 0x53, 0x32]

  /** `(ushort)x` and `(uint)x`: truncation to the low 16 or 32 bits. */
  function ToU16(x: int): (r: u16)
    ensures 0 <= x < 0x1_0000 ==> r == x
  {
    x % 0x1_0000
  }

  function ToU32(x: int): (r: u32)
    ensures 0 <= x < 0x1_0000_0000 ==> r == x
  {
    x % 0x1_0000_0000
  }

  // ---------------------------------------------------------------------
  // Little-endian fields

  /** How many values `k` bytes can hold: 256 to the power `k`. */
  function ByteRange(k: nat): nat
  {
    if k == 0 then 1 else 0x100 * ByteRange(k - 1)
  }

  /** The unsigned value of the bytes `b`, least significant byte first. */
  function Value(b: seq<byte>): (v: nat)
    ensures v < ByteRange(|b|)
  {
    if b == [] then 0 else b[0] + 0x100 * Value(b[1..])
  }

  /** The low `k` bytes of `x`, least significant byte first. */
  function LittleEndian(x: nat, k: nat): (b: seq<byte>)
    ensures |b| == k
  {
    if k == 0 then [] else [x % 0x100] + LittleEndian(x / 0x100, k - 1)
  }

  /** `k` bytes read back the value they were written from, when it fits. */
  lemma {:induction false} LittleEndianRoundTrip(x: nat, k: nat)
    requires x < ByteRange(k)
    ensures Value(LittleEndian(x, k)) == x
  {
    if k > 0 {
      var b := LittleEndian(x, k);
      assert b[1..] == LittleEndian(x / 0x100, k - 1);
      LittleEndianRoundTrip(x / 0x100, k - 1);
    }
  }

  /** `ReadUInt16` and `ReadUInt32` at offset `off`. */
  function U16At(s: seq<byte>, off: nat): u16
    requires off + 2 <= |s|
  {
    assert ByteRange(2) == 0x1_0000;
    Value(s[off..off + 2])
  }

  function U32At(s: seq<byte>, off: nat): u32
    requires off + 4 <= |s|
  {
    assert ByteRange(4) == 0x1_0000_0000;
    Value(s[off..off + 4])
  }

  /** `WriteUInt16` and `WriteUInt32`. */
  function LE16(x: u16): (b: seq<byte>)
    ensures |b| == 2
  {
    LittleEndian(x, 2)
  }

  function LE32(x: u32): (b: seq<byte>)
    ensures |b| == 4
  {
    LittleEndian(x, 4)
  }

  // ---------------------------------------------------------------------
  // The control word

  /** 2 to the power `k`. */
  function Pow2(k: nat): nat
  {
    if k == 0 then 1 else 2 * Pow2(k - 1)
  }

  /** Bitwise or of the low `k` bits of `x` and `y`, one bit at a time. */
  function OrBits(x: nat, y: nat, k: nat): (r: nat)
    ensures r < Pow2(k)
  {
    if k == 0 then 0
    else 2 * OrBits(x / 2, y / 2, k - 1) + (if x % 2 == 1 || y % 2 == 1 then 1 else 0)
  }

  /** `a | b` on bytes. */
  function OrByte(a: byte, b: byte): byte
  {
    assert Pow2(8) == 0x100;
    OrBits(a, b, 8)
  }

  /** Bitwise or of the low `k` bytes of `x` and `y`; each byte of the result
      depends only on the same byte of the operands. */
  function OrWord(x: nat, y: nat, k: nat): (r: nat)
    ensures r < ByteRange(k)
  {
    if k == 0 then 0
    else OrByte(x % 0x100, y % 0x100) + 0x100 * OrWord(x / 0x100, y / 0x100, k - 1)
  }

  /** `x | y` on `uint`s. */
  function Or32(x: u32, y: u32): u32
  {
    assert ByteRange(4) == 0x1_0000_0000;
    OrWord(x, y, 4)
  }

  /** The control word `1 | (idW << 16) | (posW << 8)`, the shifts losing
      whatever passes bit 31 as they do on a `uint`. */
  function PackControl(idW: u32, posW: u32): u32
  {
    Or32(Or32(1, ToU32(idW * 0x1_0000)), ToU32(posW * 0x100))
  }

  /** The three sub-fields of a control word: `w & 0xFF`, `(w >> 16) & 0xFF`
      and `(w >> 8) & 0xFF`. */
  function TypeOf(w: u32): u32
  {
    w % 0x100
  }

  function IdWidthOf(w: u32): u32
  {
    w / 0x1_0000 % 0x100
  }

  function PositionWidthOf(w: u32): u32
  {
    w / 0x100 % 0x100
  }

  /** Or-ing in no bits changes nothing, on either side. */
  lemma {:induction false} OrZero(x: nat, k: nat)
    requires x < Pow2(k)
    ensures OrBits(x, 0, k) == x && OrBits(0, x, k) == x
  {
    if k > 0 {
      OrZero(x / 2, k - 1);
    }
  }

  lemma OrByteZero(a: byte)
    ensures OrByte(a, 0) == a && OrByte(0, a) == a
  {
    assert Pow2(8) == 0x100;
    OrZero(a, 8);
  }

  lemma {:induction false} OrWordZero(x: nat, k: nat)
    requires x < ByteRange(k)
    ensures OrWord(x, 0, k) == x && OrWord(0, x, k) == x
  {
    if k > 0 {
      OrByteZero(x % 0x100);
      OrWordZero(x / 0x100, k - 1);
    }
  }

  /** Quotient and remainder of `x == 256 q + r` and `x == 65536 q + r`. */
  lemma DivMod256(x: int, q: int, r: int)
    requires 0 <= r < 0x100 && x == q * 0x100 + r
    ensures x / 0x100 == q && x % 0x100 == r
  {
  }

  lemma DivMod65536(x: int, q: int, r: int)
    requires 0 <= r < 0x1_0000 && x == q * 0x1_0000 + r
    ensures x / 0x1_0000 == q && x % 0x1_0000 == r
  {
  }

  /** The low byte of an or is the or of the low bytes; the rest is the or
      of the rest. */
  lemma OrWordBytes(x: nat, xq: nat, xr: byte, y: nat, yq: nat, yr: byte, k: nat)
    requires k > 0 && x == xq * 0x100 + xr && y == yq * 0x100 + yr
    ensures OrWord(x, y, k) == OrByte(xr, yr) + 0x100 * OrWord(xq, yq, k - 1)
  {
    DivMod256(x, xq, xr);
    DivMod256(y, yq, yr);
  }

  /** `1 | (i << 16)` for a byte `i`. */
  lemma OrTypeAndId(i: byte)
    ensures Or32(1, i * 0x1_0000) == i * 0x1_0000 + 1
  {
    OrWordBytes(1, 0, 1, i * 0x1_0000, i * 0x100, 0, 4);
    OrByteZero(1);
    OrWordZero(i * 0x100, 3);
  }

  /** `(1 | (i << 16)) | (p << 8)` for bytes `i` and `p`. */
  lemma OrPosition(i: byte, p: byte)
    ensures Or32(i * 0x1_0000 + 1, p * 0x100) == i * 0x1_0000 + p * 0x100 + 1
  {
    OrWordBytes(i * 0x1_0000 + 1, i * 0x100, 1, p * 0x100, p, 0, 4);
    OrWordBytes(i * 0x100, i, 0, p, 0, p, 3);
    OrByteZero(1);
    OrByteZero(p);
    OrWordZero(i, 2);
  }

  /** For widths below 256 the three parts occupy different bytes, and the
      word is their sum. */
  lemma PackedSum(idW: u32, posW: u32)
    requires idW < 0x100 && posW < 0x100
    ensures PackControl(idW, posW) == idW * 0x1_0000 + posW * 0x100 + 1
  {
    OrTypeAndId(idW);
    OrPosition(idW, posW);
  }

  /** The decoder's masks and shifts take such a sum apart again. */
  lemma FieldsOfSum(w: u32, i: byte, p: byte)
    requires w == i * 0x1_0000 + p * 0x100 + 1
    ensures TypeOf(w) == 1 && IdWidthOf(w) == i && PositionWidthOf(w) == p
  {
    DivMod256(w, i * 0x100 + p, 1);
    DivMod256(w / 0x100, i, p);
    DivMod65536(w, i, p * 0x100 + 1);
    DivMod256(w / 0x1_0000, 0, i);
  }

  /** Widths below 256 survive packing: the decoder's masks and shifts recover
      them, and the table type is 1. */
  lemma ControlRoundTrip(idW: u32, posW: u32)
    requires idW < 0x100 && posW < 0x100
    ensures TypeOf(PackControl(idW, posW)) == 1
    ensures IdWidthOf(PackControl(idW, posW)) == idW
    ensures PositionWidthOf(PackControl(idW, posW)) == posW
  {
    PackedSum(idW, posW);
    FieldsOfSum(PackControl(idW, posW), idW, posW);
  }
}
