/**
 * Fixed-width unsigned integers and their bytes in memory.
 *
 * The records of `src/elf.rs` are read by copying raw memory, so a
 * multi-byte field is stored in the byte order of the machine.  The source
 * never names that order; here it is a parameter, `ByteOrder`, and every
 * encoder and decoder is stated for both orders.
 */
module Bytes {

  /** Rust `u8`, `u16`, `u32` */
  newtype u8 = x: int | 0 <= x < 0x100
  newtype u16 = x: int | 0 <= x < 0x1_0000
  newtype u32 = x: int | 0 <= x < 0x1_0000_0000

  /** Byte order of a multi-byte integer in memory. */
  datatype ByteOrder = LittleEndian | BigEndian

  /** Byte `k` of `x`, counting from the least significant (k = 0) to the most (k = 3). */
  function ByteOf(x: int, k: nat): u8
    requires 0 <= x < 0x1_0000_0000 && k < 4
  {
    match k
    case 0 => (x % 0x100) as u8
    case 1 => (x / 0x100 % 0x100) as u8
    case 2 => (x / 0x1_0000 % 0x100) as u8
    case 3 => (x / 0x100_0000) as u8
  }

  /** The byte at address offset `j` (0 or 1) of a `u16` stored in `order`. */
  function U16Byte(order: ByteOrder, v: u16, j: nat): (r: u8)
    requires j < 2
    ensures r as int == if (order == LittleEndian) == (j == 0) then v as int % 0x100 else v as int / 0x100
  {
    ByteOf(v as int, if order == LittleEndian then j else 1 - j)
  }

  /** The byte at address offset `j` (0 to 3) of a `u32` stored in `order`. */
  function U32Byte(order: ByteOrder, v: u32, j: nat): (r: u8)
    requires j < 4
    ensures j == (if order == LittleEndian then 0 else 3) ==> r as int == v as int % 0x100
    ensures j == (if order == LittleEndian then 3 else 0) ==> r as int == v as int / 0x100_0000
  {
    ByteOf(v as int, if order == LittleEndian then j else 3 - j)
  }

  /** The `u16` stored in `order` at bytes `off` and `off + 1` of `b`. */
  function U16At(order: ByteOrder, b: seq<u8>, off: nat): (v: u16)
    requires off + 2 <= |b|
    ensures v as int % 0x100 == b[off + if order == LittleEndian then 0 else 1] as int
    ensures v as int / 0x100 == b[off + if order == LittleEndian then 1 else 0] as int
  {
    match order
    case LittleEndian =>
      DivMod256(b[off] as int + 0x100 * b[off + 1] as int, b[off] as int, b[off + 1] as int);
      (b[off] as int + 0x100 * b[off + 1] as int) as u16
    case BigEndian =>
      DivMod256(0x100 * b[off] as int + b[off + 1] as int, b[off + 1] as int, b[off] as int);
      (0x100 * b[off] as int + b[off + 1] as int) as u16
  }

  /** The `u32` stored in `order` at bytes `off` to `off + 3` of `b`. */
  function U32At(order: ByteOrder, b: seq<u8>, off: nat): (v: u32)
    requires off + 4 <= |b|
    ensures v as int % 0x100 == b[off + if order == LittleEndian then 0 else 3] as int
    ensures v as int / 0x100_0000 == b[off + if order == LittleEndian then 3 else 0] as int
  {
    var b0, b1, b2, b3 := b[off], b[off + 1], b[off + 2], b[off + 3];
    match order
    case LittleEndian =>
      ByteOfSum(b0, b1, b2, b3);
      (b0 as int + 0x100 * b1 as int + 0x1_0000 * b2 as int + 0x100_0000 * b3 as int) as u32
    case BigEndian =>
      ByteOfSum(b3, b2, b1, b0);
      (b3 as int + 0x100 * b2 as int + 0x1_0000 * b1 as int + 0x100_0000 * b0 as int) as u32
  }

  /** A number below 2^32 is the sum of its four bytes, each weighted by its place. */
  lemma BytesOfU32(x: int)
    requires 0 <= x < 0x1_0000_0000
    ensures x == ByteOf(x, 0) as int + 0x100 * ByteOf(x, 1) as int
      + 0x1_0000 * ByteOf(x, 2) as int + 0x100_0000 * ByteOf(x, 3) as int
  {
    var q1 := x / 0x100;
    var q2 := q1 / 0x100;
    assert x == x % 0x100 + 0x100 * q1;
    assert q1 == q1 % 0x100 + 0x100 * q2;
    assert q2 == q2 % 0x100 + 0x100 * (q2 / 0x100);
    assert q2 == x / 0x1_0000;
    assert q2 / 0x100 == x / 0x100_0000;
  }

  /** The bytes of `b0 + 256 * b1 + 65536 * b2 + 16777216 * b3` are b0 to b3. */
  lemma ByteOfSum(b0: u8, b1: u8, b2: u8, b3: u8)
    ensures var x := b0 as int + 0x100 * b1 as int + 0x1_0000 * b2 as int + 0x100_0000 * b3 as int;
      ByteOf(x, 0) == b0 && ByteOf(x, 1) == b1 && ByteOf(x, 2) == b2 && ByteOf(x, 3) == b3
  {
    var x := b0 as int + 0x100 * b1 as int + 0x1_0000 * b2 as int + 0x100_0000 * b3 as int;
    var q1 := b1 as int + 0x100 * b2 as int + 0x1_0000 * b3 as int;
    var q2 := b2 as int + 0x100 * b3 as int;
    DivMod256(x, b0 as int, q1);
    DivMod256(q1, b1 as int, q2);
    DivMod256(q2, b2 as int, b3 as int);
    assert x / 0x1_0000 == q2;
    assert x / 0x100_0000 == b3 as int;
  }

  /** Splitting off the lowest byte of `lo + 256 * hi`. */
  lemma DivMod256(v: int, lo: int, hi: int)
    requires 0 <= lo < 0x100 && 0 <= hi && v == lo + 0x100 * hi
    ensures v % 0x100 == lo && v / 0x100 == hi
  {
  }

  /** Reading a `u16` from the two bytes that store `v` gives `v`. */
  lemma U16AtBytes(order: ByteOrder, v: u16, b: seq<u8>, off: nat)
    requires off + 2 <= |b|
    requires b[off] == U16Byte(order, v, 0) && b[off + 1] == U16Byte(order, v, 1)
    ensures U16At(order, b, off) == v
  {
    BytesOfU32(v as int);
  }

  /** The two bytes that store the `u16` read at `off` are the bytes it was read from. */
  lemma U16BytesAt(order: ByteOrder, b: seq<u8>, off: nat)
    requires off + 2 <= |b|
    ensures forall j | 0 <= j < 2 :: U16Byte(order, U16At(order, b, off), j) == b[off + j]
  {
    if order == LittleEndian {
      ByteOfSum(b[off], b[off + 1], 0, 0);
    } else {
      ByteOfSum(b[off + 1], b[off], 0, 0);
    }
  }

  /** Reading a `u32` from the four bytes that store `v` gives `v`. */
  lemma U32AtBytes(order: ByteOrder, v: u32, b: seq<u8>, off: nat)
    requires off + 4 <= |b|
    requires b[off] == U32Byte(order, v, 0) && b[off + 1] == U32Byte(order, v, 1)
    requires b[off + 2] == U32Byte(order, v, 2) && b[off + 3] == U32Byte(order, v, 3)
    ensures U32At(order, b, off) == v
  {
    BytesOfU32(v as int);
  }

  /** The four bytes that store the `u32` read at `off` are the bytes it was read from. */
  lemma U32BytesAt(order: ByteOrder, b: seq<u8>, off: nat)
    requires off + 4 <= |b|
    ensures forall j | 0 <= j < 4 :: U32Byte(order, U32At(order, b, off), j) == b[off + j]
  {
    if order == LittleEndian {
      ByteOfSum(b[off], b[off + 1], b[off + 2], b[off + 3]);
    } else {
      ByteOfSum(b[off + 3], b[off + 2], b[off + 1], b[off]);
    }
  }

  /** The 2 bytes in memory of a `u16`; reading them back gives it. */
  function EncodeU16(order: ByteOrder, v: u16): (s: seq<u8>)
    ensures |s| == 2 && U16At(order, s, 0) == v
  {
    var s := [U16Byte(order, v, 0), U16Byte(order, v, 1)];
    U16AtBytes(order, v, s, 0);
    s
  }

  /** The 4 bytes in memory of a `u32`; reading them back gives it. */
  function EncodeU32(order: ByteOrder, v: u32): (s: seq<u8>)
    ensures |s| == 4 && U32At(order, s, 0) == v
  {
    var s := [U32Byte(order, v, 0), U32Byte(order, v, 1), U32Byte(order, v, 2), U32Byte(order, v, 3)];
    U32AtBytes(order, v, s, 0);
    s
  }
}
