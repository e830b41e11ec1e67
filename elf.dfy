/**
 * The ELF32 records of `src/elf.rs`: the file header `ElfHeader`, the
 * section header `SectionHeader`, the `sh_type` and `sh_flags` code tables
 * and the constants `EI_NIDENT`, `EM_ARM` and `ELFMAG`.
 *
 * The source reads a header by copying the bytes at a pointer into a
 * `#[repr(C)]` struct. Here that copy is a decoder from a byte sequence, the
 * struct layout is the one Rust's `#[repr(C)]` rules give (module Repr), and
 * each decoder has a matching encoder. Multi-byte fields are stored in the
 * byte order of the machine doing the copy, which the source leaves implicit;
 * it is the parameter `order` throughout (usually little-endian on ARM).
 */
module Elf {
  import opened Bytes
  import Repr

  // The ELF32 scalar types, as the source declares them.
  type Elf32_Addr = u32
  type Elf32_Half = u16
  type Elf32_Off = u32
  /** Declared unsigned in the source, unlike the standard's signed word. */
  type Elf32_Sword = u32
  type Elf32_Word = u32
  type uchar = u8

  /** Length of the identification array at the start of the header. */
  const EI_NIDENT: u32 := 16

  /** Machine code of the ARM architecture. */
  const EM_ARM: Elf32_Half := 0x28

  /** The four magic bytes 0x7f 'E' 'L' 'F', written as one number. */
  const ELFMAG: u32 := 0x7f454C46

  /** Why a record could not be read from a byte sequence. */
  datatype DecodeError = Truncated(needed: nat, available: nat)

  datatype Result<T> = Ok(value: T) | Err(error: DecodeError)

  // ---------------------------------------------------------------------
  // The file header
  // ---------------------------------------------------------------------

  type Ident = s: seq<uchar> | |s| == EI_NIDENT as int
    witness [0, 0, 0, 0, 0, 0, 0, 0, 0, 0, 0, 0, 0, 0, 0, 0]

  /**
   * The ELF file header, field for field as the source declares it
   * (including its spelling `e_indent` and its 16-bit `e_entry`).
   */
  datatype ElfHeader = ElfHeader(
    e_indent: Ident,
    e_type: Elf32_Half,
    e_machine: Elf32_Half,
    e_version: Elf32_Word,
    e_entry: Elf32_Half,
    e_phoff: Elf32_Off,
    e_shoff: Elf32_Off,
    e_flags: Elf32_Word,
    e_ehsize: Elf32_Half,
    e_phentsize: Elf32_Half,
    e_phnum: Elf32_Half,
    e_shentsize: Elf32_Half,
    e_shnum: Elf32_Half,
    e_shstrndx: Elf32_Half)

  /** Size and alignment of each field of `ElfHeader`, in declaration order. */
  const HEADER_FIELDS: seq<Repr.Field> := [
    Repr.Field(EI_NIDENT as nat, Repr.Align1), // e_indent: [uchar; EI_NIDENT]
    Repr.Field(2, Repr.Align2),                // e_type
    Repr.Field(2, Repr.Align2),                // e_machine
    Repr.Field(4, Repr.Align4),                // e_version
    Repr.Field(2, Repr.Align2),                // e_entry, an Elf32_Half
    Repr.Field(4, Repr.Align4),                // e_phoff
    Repr.Field(4, Repr.Align4),                // e_shoff
    Repr.Field(4, Repr.Align4),                // e_flags
    Repr.Field(2, Repr.Align2),                // e_ehsize
    Repr.Field(2, Repr.Align2),                // e_phentsize
    Repr.Field(2, Repr.Align2),                // e_phnum
    Repr.Field(2, Repr.Align2),                // e_shentsize
    Repr.Field(2, Repr.Align2),                // e_shnum
    Repr.Field(2, Repr.Align2)                 // e_shstrndx
  ]

  /** The header of the ELF standard (Figure 1-3), where `e_entry` is a 4-byte Elf32_Addr. */
  const STANDARD_HEADER_FIELDS: seq<Repr.Field> := [
    Repr.Field(16, Repr.Align1), Repr.Field(2, Repr.Align2), Repr.Field(2, Repr.Align2),
    Repr.Field(4, Repr.Align4), Repr.Field(4, Repr.Align4), Repr.Field(4, Repr.Align4),
    Repr.Field(4, Repr.Align4), Repr.Field(4, Repr.Align4), Repr.Field(2, Repr.Align2),
    Repr.Field(2, Repr.Align2), Repr.Field(2, Repr.Align2), Repr.Field(2, Repr.Align2),
    Repr.Field(2, Repr.Align2), Repr.Field(2, Repr.Align2)
  ]

  /** `size_of::<ElfHeader>()` */
  const HEADER_SIZE: nat := 52

  /** What the encoder writes in the two padding bytes after the 16-bit `e_entry`. */
  const ENTRY_PADDING: seq<u8> := [0, 0]

  /** The offset `#[repr(C)]` gives each field of `ElfHeader`. */
  const HEADER_OFFSETS: seq<nat> := [0, 16, 18, 20, 24, 28, 32, 36, 40, 42, 44, 46, 48, 50]

  /**
   * Where `#[repr(C)]` puts each field of `ElfHeader`: `e_indent` at 0..16,
   * `e_type` 16, `e_machine` 18, `e_version` 20, `e_entry` 24, two bytes of
   * padding, `e_phoff` 28, `e_shoff` 32, `e_flags` 36, then the six half
   * words from 40 to 50; the struct is 52 bytes.
   */
  lemma HeaderLayout()
    ensures |HEADER_FIELDS| == |HEADER_OFFSETS| == 14
    ensures forall k | 0 <= k < |HEADER_FIELDS| :: Repr.Offset(HEADER_FIELDS, k) == HEADER_OFFSETS[k]
    ensures Repr.SizeOf(HEADER_FIELDS) == HEADER_SIZE
  {
    Repr.LayoutIs(HEADER_FIELDS, HEADER_OFFSETS, HEADER_SIZE, Repr.Align4, 3);
  }

  /**
   * The only padding inside `ElfHeader` is the two bytes after `e_entry`:
   * every other field is followed directly by the next one, and the last
   * field ends the struct.
   */
  lemma HeaderPadding()
    ensures forall k | 0 <= k < |HEADER_FIELDS| ::
      Repr.PaddingAfter(HEADER_FIELDS, k) == if k == 4 then 2 else 0
  {
    HeaderLayout();
    Repr.PaddingsAre(HEADER_FIELDS, HEADER_OFFSETS, HEADER_SIZE);
    HeaderGaps();
  }

  /** The gaps between the offsets of `ElfHeader`'s fields, and after the last one. */
  lemma HeaderGaps()
    ensures forall k | 0 <= k < |HEADER_FIELDS| ::
      HEADER_OFFSETS[k] + HEADER_FIELDS[k].size + (if k == 4 then 2 else 0)
      == if k + 1 < |HEADER_FIELDS| then HEADER_OFFSETS[k + 1] else HEADER_SIZE
  {
  }

  /** The standard's header layout: the same offsets as `ElfHeader`, and 52 bytes. */
  lemma StandardLayout()
    ensures |STANDARD_HEADER_FIELDS| == |HEADER_OFFSETS|
    ensures forall k | 0 <= k < |STANDARD_HEADER_FIELDS| ::
      Repr.Offset(STANDARD_HEADER_FIELDS, k) == HEADER_OFFSETS[k]
    ensures Repr.SizeOf(STANDARD_HEADER_FIELDS) == HEADER_SIZE
  {
    Repr.LayoutIs(STANDARD_HEADER_FIELDS, HEADER_OFFSETS, HEADER_SIZE, Repr.Align4, 3);
  }

  /**
   * The 16-bit `e_entry` leaves every field where the standard's 32-bit
   * `e_entry` would put it, and the struct 52 bytes long: the two layouts
   * differ only in that field's width, and the two missing bytes become
   * padding.
   */
  lemma HeaderMatchesStandard()
    ensures |STANDARD_HEADER_FIELDS| == |HEADER_FIELDS|
    ensures forall k | 0 <= k < |HEADER_FIELDS| ::
      Repr.Offset(STANDARD_HEADER_FIELDS, k) == Repr.Offset(HEADER_FIELDS, k)
    ensures Repr.SizeOf(STANDARD_HEADER_FIELDS) == Repr.SizeOf(HEADER_FIELDS)
  {
    HeaderLayout();
    StandardLayout();
  }

  /** The standard's header and `ElfHeader` declare the same fields but for the width of `e_entry`. */
  lemma HeaderDiffersInEntry()
    ensures |STANDARD_HEADER_FIELDS| == |HEADER_FIELDS|
    ensures forall k | 0 <= k < |HEADER_FIELDS| && k != 4 :: STANDARD_HEADER_FIELDS[k] == HEADER_FIELDS[k]
    ensures HEADER_FIELDS[4] == Repr.Field(2, Repr.Align2) && STANDARD_HEADER_FIELDS[4] == Repr.Field(4, Repr.Align4)
  {
  }

  /** Byte i of `ElfHeader` is padding: the two bytes between `e_entry` and `e_phoff`. */
  predicate IsHeaderPadding(i: nat)
  {
    26 <= i < 28
  }

  /** Byte j of field k of `h`, as that field is stored in memory. */
  function HeaderFieldByte(order: ByteOrder, h: ElfHeader, k: nat, j: nat): u8
    requires k < |HEADER_FIELDS| && j < HEADER_FIELDS[k].size
  {
    match k
    case 0 => h.e_indent[j]
    case 1 => U16Byte(order, h.e_type, j)
    case 2 => U16Byte(order, h.e_machine, j)
    case 3 => U32Byte(order, h.e_version, j)
    case 4 => U16Byte(order, h.e_entry, j)
    case 5 => U32Byte(order, h.e_phoff, j)
    case 6 => U32Byte(order, h.e_shoff, j)
    case 7 => U32Byte(order, h.e_flags, j)
    case 8 => U16Byte(order, h.e_ehsize, j)
    case 9 => U16Byte(order, h.e_phentsize, j)
    case 10 => U16Byte(order, h.e_phnum, j)
    case 11 => U16Byte(order, h.e_shentsize, j)
    case 12 => U16Byte(order, h.e_shnum, j)
    case 13 => U16Byte(order, h.e_shstrndx, j)
  }

  /**
   * Byte i of the memory that holds `h`: a byte of the field laid over i,
   * and 0 in the padding after `e_entry` (whose contents Rust leaves
   * unspecified; the encoder writes zeros there).
   */
  function HeaderByte(order: ByteOrder, h: ElfHeader, i: nat): (r: u8)
    requires i < HEADER_SIZE
    ensures forall k | 0 <= k < |HEADER_FIELDS| && HeaderFieldCovers(k, i) ::
      r == HeaderFieldByte(order, h, k, i - HEADER_OFFSETS[k])
    ensures IsHeaderPadding(i) ==> r == 0
  {
    if i < 16 then h.e_indent[i]
    else if i < 18 then U16Byte(order, h.e_type, i - 16)
    else if i < 20 then U16Byte(order, h.e_machine, i - 18)
    else if i < 24 then U32Byte(order, h.e_version, i - 20)
    else if i < 26 then U16Byte(order, h.e_entry, i - 24)
    else if i < 28 then 0
    else if i < 32 then U32Byte(order, h.e_phoff, i - 28)
    else if i < 36 then U32Byte(order, h.e_shoff, i - 32)
    else if i < 40 then U32Byte(order, h.e_flags, i - 36)
    else if i < 42 then U16Byte(order, h.e_ehsize, i - 40)
    else if i < 44 then U16Byte(order, h.e_phentsize, i - 42)
    else if i < 46 then U16Byte(order, h.e_phnum, i - 44)
    else if i < 48 then U16Byte(order, h.e_shentsize, i - 46)
    else if i < 50 then U16Byte(order, h.e_shnum, i - 48)
    else U16Byte(order, h.e_shstrndx, i - 50)
  }

  /** Field k of `ElfHeader` is laid over byte i. */
  predicate HeaderFieldCovers(k: nat, i: nat)
    requires k < |HEADER_FIELDS|
  {
    HEADER_OFFSETS[k] <= i < HEADER_OFFSETS[k] + HEADER_FIELDS[k].size
  }

  /**
   * The memory image of `h` holds field k at its `#[repr(C)]` offset, and
   * the bytes no field covers are exactly the padding after `e_entry`.
   */
  lemma HeaderByteLayout(order: ByteOrder, h: ElfHeader)
    ensures forall k, j | 0 <= k < |HEADER_FIELDS| && 0 <= j < HEADER_FIELDS[k].size ::
      HEADER_OFFSETS[k] + j < HEADER_SIZE &&
      HeaderByte(order, h, HEADER_OFFSETS[k] + j) == HeaderFieldByte(order, h, k, j)
    ensures forall i | 0 <= i < HEADER_SIZE ::
      IsHeaderPadding(i) <==> forall k | 0 <= k < |HEADER_FIELDS| :: !HeaderFieldCovers(k, i)
  {
    forall i | 0 <= i < HEADER_SIZE && !IsHeaderPadding(i)
      ensures exists k | 0 <= k < |HEADER_FIELDS| :: HeaderFieldCovers(k, i)
    {
      var k := if i < 16 then 0 else if i < 18 then 1 else if i < 20 then 2 else if i < 24 then 3
        else if i < 26 then 4 else if i < 32 then 5 else if i < 36 then 6 else if i < 40 then 7
        else 8 + (i - 40) / 2;
      assert HeaderFieldCovers(k, i);
    }
  }

  /**
   * `h` is what a bitwise copy of the `ElfHeader` at the start of `b`
   * gives: outside the padding, the first 52 bytes of `b` are the memory
   * image of `h`.
   */
  ghost predicate HeaderOverlay(order: ByteOrder, h: ElfHeader, b: seq<u8>)
  {
    && |b| >= HEADER_SIZE
    && forall i | 0 <= i < HEADER_SIZE && !IsHeaderPadding(i) :: b[i] == HeaderByte(order, h, i)
  }

  /** The bitwise copy of the header at the start of `b`. */
  function ReadHeader(order: ByteOrder, b: seq<u8>): (h: ElfHeader)
    requires |b| >= HEADER_SIZE
    ensures HeaderOverlay(order, h, b)
  {
    var h := ElfHeader(
      b[0..16],
      U16At(order, b, 16),
      U16At(order, b, 18),
      U32At(order, b, 20),
      U16At(order, b, 24),
      U32At(order, b, 28),
      U32At(order, b, 32),
      U32At(order, b, 36),
      U16At(order, b, 40),
      U16At(order, b, 42),
      U16At(order, b, 44),
      U16At(order, b, 46),
      U16At(order, b, 48),
      U16At(order, b, 50));
    ReadHeaderOverlay(order, b, h);
    h
  }

  /** A header whose fields are the values stored at their offsets in `b` overlays `b`. */
  lemma ReadHeaderOverlay(order: ByteOrder, b: seq<u8>, h: ElfHeader)
    requires |b| >= HEADER_SIZE
    requires h.e_indent == b[0..16]
    requires h.e_type == U16At(order, b, 16) && h.e_machine == U16At(order, b, 18)
    requires h.e_version == U32At(order, b, 20) && h.e_entry == U16At(order, b, 24)
    requires h.e_phoff == U32At(order, b, 28) && h.e_shoff == U32At(order, b, 32)
    requires h.e_flags == U32At(order, b, 36) && h.e_ehsize == U16At(order, b, 40)
    requires h.e_phentsize == U16At(order, b, 42) && h.e_phnum == U16At(order, b, 44)
    requires h.e_shentsize == U16At(order, b, 46) && h.e_shnum == U16At(order, b, 48)
    requires h.e_shstrndx == U16At(order, b, 50)
    ensures HeaderOverlay(order, h, b)
  {
    U16BytesAt(order, b, 16);
    U16BytesAt(order, b, 18);
    U32BytesAt(order, b, 20);
    U16BytesAt(order, b, 24);
    U32BytesAt(order, b, 28);
    U32BytesAt(order, b, 32);
    U32BytesAt(order, b, 36);
    U16BytesAt(order, b, 40);
    U16BytesAt(order, b, 42);
    U16BytesAt(order, b, 44);
    U16BytesAt(order, b, 46);
    U16BytesAt(order, b, 48);
    U16BytesAt(order, b, 50);
  }

  /**
   * `ElfHeader::get_header`: the header at the start of `b`. A block shorter
   * than the struct is an error; bytes past the struct are never read.
   */
  function GetHeader(order: ByteOrder, b: seq<u8>): (r: Result<ElfHeader>)
    ensures r.Err? <==> |b| < HEADER_SIZE
    ensures r.Err? ==> r.error == Truncated(HEADER_SIZE, |b|)
    ensures r.Ok? ==> HeaderOverlay(order, r.value, b)
  {
    if |b| < HEADER_SIZE then Err(Truncated(HEADER_SIZE, |b|)) else Ok(ReadHeader(order, b))
  }

  /** Only one header overlays a block: the bytes outside the padding determine every field. */
  lemma HeaderOverlayUnique(order: ByteOrder, h: ElfHeader, b: seq<u8>)
    requires HeaderOverlay(order, h, b)
    ensures ReadHeader(order, b) == h
  {
    IdentOverlay(order, h, b);
    HeaderOverlayLow(order, h, b);
    HeaderOverlayHigh(order, h, b);
  }

  /** The fields from `e_type` to `e_flags` read back from an overlay. */
  lemma HeaderOverlayLow(order: ByteOrder, h: ElfHeader, b: seq<u8>)
    requires HeaderOverlay(order, h, b)
    ensures U16At(order, b, 16) == h.e_type && U16At(order, b, 18) == h.e_machine
    ensures U32At(order, b, 20) == h.e_version && U16At(order, b, 24) == h.e_entry
    ensures U32At(order, b, 28) == h.e_phoff && U32At(order, b, 32) == h.e_shoff
    ensures U32At(order, b, 36) == h.e_flags
  {
    U16AtBytes(order, h.e_type, b, 16);
    U16AtBytes(order, h.e_machine, b, 18);
    U32AtBytes(order, h.e_version, b, 20);
    U16AtBytes(order, h.e_entry, b, 24);
    U32AtBytes(order, h.e_phoff, b, 28);
    U32AtBytes(order, h.e_shoff, b, 32);
    U32AtBytes(order, h.e_flags, b, 36);
  }

  /** The six half words from `e_ehsize` to `e_shstrndx` read back from an overlay. */
  lemma HeaderOverlayHigh(order: ByteOrder, h: ElfHeader, b: seq<u8>)
    requires HeaderOverlay(order, h, b)
    ensures U16At(order, b, 40) == h.e_ehsize && U16At(order, b, 42) == h.e_phentsize
    ensures U16At(order, b, 44) == h.e_phnum && U16At(order, b, 46) == h.e_shentsize
    ensures U16At(order, b, 48) == h.e_shnum && U16At(order, b, 50) == h.e_shstrndx
  {
    U16AtBytes(order, h.e_ehsize, b, 40);
    U16AtBytes(order, h.e_phentsize, b, 42);
    U16AtBytes(order, h.e_phnum, b, 44);
    U16AtBytes(order, h.e_shentsize, b, 46);
    U16AtBytes(order, h.e_shnum, b, 48);
    U16AtBytes(order, h.e_shstrndx, b, 50);
  }

  /** The identification bytes of an overlay are the first 16 bytes of the block. */
  lemma IdentOverlay(order: ByteOrder, h: ElfHeader, b: seq<u8>)
    requires HeaderOverlay(order, h, b)
    ensures b[0..16] == h.e_indent
  {
    forall i | 0 <= i < 16
      ensures b[0..16][i] == h.e_indent[i]
    {
      assert b[i] == HeaderByte(order, h, i);
    }
  }

  /** The 52 bytes of memory that hold `h`, with zeros in the padding after `e_entry`. */
  function EncodeHeader(order: ByteOrder, h: ElfHeader): (b: seq<u8>)
    ensures |b| == HEADER_SIZE
    ensures b[26..28] == ENTRY_PADDING
  {
    var b := seq(HEADER_SIZE, i requires 0 <= i < HEADER_SIZE => HeaderByte(order, h, i));
    assert b[26..28] == [b[26], b[27]];
    b
  }

  // ---------------------------------------------------------------------
  // Properties of the header decoder and encoder
  // ---------------------------------------------------------------------

  /** The decoder finds exactly the header the bytes overlay: no other header fits them. */
  lemma GetHeaderIsOverlay(order: ByteOrder, b: seq<u8>, h: ElfHeader)
    ensures GetHeader(order, b) == Ok(h) <==> HeaderOverlay(order, h, b)
  {
    if HeaderOverlay(order, h, b) {
      HeaderOverlayUnique(order, h, b);
    }
  }

  /** Reading back an encoded header gives that header, whatever bytes follow it. */
  lemma DecodeEncodeHeader(order: ByteOrder, h: ElfHeader, rest: seq<u8>)
    ensures GetHeader(order, EncodeHeader(order, h) + rest) == Ok(h)
  {
    var b := EncodeHeader(order, h) + rest;
    assert HeaderOverlay(order, h, b);
    GetHeaderIsOverlay(order, b, h);
  }

  /**
   * Writing back a header that was read gives the 52 bytes it was read from,
   * except that the two padding bytes after `e_entry` come back as zero.
   */
  lemma EncodeDecodeHeader(order: ByteOrder, b: seq<u8>)
    requires |b| >= HEADER_SIZE
    ensures GetHeader(order, b).Ok?
    ensures EncodeHeader(order, GetHeader(order, b).value) == b[..26] + ENTRY_PADDING + b[28..HEADER_SIZE]
  {
    var e := EncodeHeader(order, GetHeader(order, b).value);
    var t := b[..26] + ENTRY_PADDING + b[28..HEADER_SIZE];
    forall i | 0 <= i < HEADER_SIZE
      ensures e[i] == t[i]
    {
      if i < 26 {
        assert t[i] == b[i];
      } else if i >= 28 {
        assert t[i] == b[28..HEADER_SIZE][i - 28];
      }
    }
  }

  /**
   * Two blocks give the same header exactly when they agree on the 52 bytes
   * of the struct outside the padding after `e_entry`; bytes past the struct
   * and the padding bytes are never read.
   */
  lemma SameHeaderIff(order: ByteOrder, b: seq<u8>, c: seq<u8>)
    requires |b| >= HEADER_SIZE && |c| >= HEADER_SIZE
    ensures GetHeader(order, b) == GetHeader(order, c) <==>
      forall i | 0 <= i < HEADER_SIZE && !IsHeaderPadding(i) :: b[i] == c[i]
  {
    var h := ReadHeader(order, b);
    if forall i | 0 <= i < HEADER_SIZE && !IsHeaderPadding(i) :: b[i] == c[i] {
      assert HeaderOverlay(order, h, c);
      HeaderOverlayUnique(order, h, c);
    }
  }

  /** A block whose padding bytes are not both zero does not come back from a decode and re-encode. */
  lemma PaddingNotPreserved(order: ByteOrder, b: seq<u8>)
    requires |b| >= HEADER_SIZE && (b[26] != 0 || b[27] != 0)
    ensures EncodeHeader(order, GetHeader(order, b).value) != b[..HEADER_SIZE]
  {
    EncodeDecodeHeader(order, b);
    var e := EncodeHeader(order, GetHeader(order, b).value);
    if b[26] != 0 {
      assert e[26] == 0 != b[..HEADER_SIZE][26];
    } else {
      assert e[27] == 0 != b[..HEADER_SIZE][27];
    }
  }

  /**
   * Read over a standard header, whose `e_entry` is a 32-bit address at
   * offset 24, the 16-bit `e_entry` keeps only the half of the address stored
   * first: its low half little-endian, its high half big-endian.
   */
  lemma EntryIsHalfOfAddress(b: seq<u8>)
    requires |b| >= HEADER_SIZE
    ensures GetHeader(LittleEndian, b).value.e_entry as int == U32At(LittleEndian, b, 24) as int % 0x1_0000
    ensures GetHeader(BigEndian, b).value.e_entry as int == U32At(BigEndian, b, 24) as int / 0x1_0000
  {
    var lo, hi := b[24] as int + 0x100 * b[25] as int, b[26] as int + 0x100 * b[27] as int;
    assert U32At(LittleEndian, b, 24) as int == lo + 0x1_0000 * hi;
    SplitHalves(lo, hi);
    var lo', hi' := 0x100 * b[26] as int + b[27] as int, 0x100 * b[24] as int + b[25] as int;
    assert U32At(BigEndian, b, 24) as int == lo' + 0x1_0000 * hi';
    SplitHalves(lo', hi');
  }

  /** A 32-bit number made of two 16-bit halves gives back its low half by `%` and its high half by `/`. */
  lemma SplitHalves(lo: int, hi: int)
    requires 0 <= lo < 0x1_0000 && 0 <= hi < 0x1_0000
    ensures (lo + 0x1_0000 * hi) % 0x1_0000 == lo && (lo + 0x1_0000 * hi) / 0x1_0000 == hi
  {
  }

  // ---------------------------------------------------------------------
  // The constants
  // ---------------------------------------------------------------------

  /**
   * `ELFMAG` holds the magic bytes most significant first: stored big-endian
   * it is 0x7f 'E' 'L' 'F', and little-endian the same bytes reversed.
   */
  lemma ElfMagBytes()
    ensures EncodeU32(BigEndian, ELFMAG) == [0x7f, 'E' as u8, 'L' as u8, 'F' as u8]
    ensures EncodeU32(LittleEndian, ELFMAG) == ['F' as u8, 'L' as u8, 'E' as u8, 0x7f]
  {
    BytesOfU32(ELFMAG as int);
  }

  /**
   * `EM_ARM` is the 16-bit 0x28: on a little-endian target a header is for
   * ARM exactly when its `e_machine` bytes are 0x28 0x00.
   */
  lemma ArmMachineBytes(b: seq<u8>)
    requires |b| >= HEADER_SIZE
    ensures EncodeU16(LittleEndian, EM_ARM) == [0x28, 0x00]
    ensures GetHeader(LittleEndian, b).value.e_machine == EM_ARM <==> b[18] == 0x28 && b[19] == 0x00
  {
    if GetHeader(LittleEndian, b).value.e_machine == EM_ARM {
      U16BytesAt(LittleEndian, b, 18);
    }
  }

  // ---------------------------------------------------------------------
  // The section header
  // ---------------------------------------------------------------------

  /** An ELF section header, field for field as the source declares it (including `sh_offfset`). */
  datatype SectionHeader = SectionHeader(
    sh_name: Elf32_Word,
    sh_type: Elf32_Word,
    sh_flags: Elf32_Word,
    sh_addr: Elf32_Addr,
    sh_offfset: Elf32_Off,
    sh_size: Elf32_Word,
    sh_link: Elf32_Word,
    sh_info: Elf32_Word,
    sh_addralign: Elf32_Word,
    sh_entsize: Elf32_Word)

  /** Number of fields of `SectionHeader`; every one is a 32-bit word. */
  const SECTION_WORDS: nat := 10

  /** `size_of::<SectionHeader>()` */
  const SECTION_SIZE: nat := 40

  /** Size and alignment of each field of `SectionHeader`: ten 4-byte words. */
  const SECTION_FIELDS: seq<Repr.Field> := seq(SECTION_WORDS, _ => Repr.Field(4, Repr.Align4))

  /** The offset `#[repr(C)]` gives each field of `SectionHeader`. */
  const SECTION_OFFSETS: seq<nat> := seq(SECTION_WORDS, k => 4 * k)

  /**
   * Where `#[repr(C)]` puts each field of `SectionHeader`: word k at byte
   * 4 * k, with no padding anywhere, in a struct of 40 bytes.
   */
  lemma SectionLayout()
    ensures |SECTION_FIELDS| == SECTION_WORDS
    ensures forall k | 0 <= k < |SECTION_FIELDS| :: Repr.Offset(SECTION_FIELDS, k) == 4 * k
    ensures Repr.SizeOf(SECTION_FIELDS) == SECTION_SIZE
  {
    forall k | 0 <= k < SECTION_WORDS
      ensures SECTION_OFFSETS[k] == Repr.AlignUp(if k == 0 then 0 else SECTION_OFFSETS[k - 1] + 4, Repr.Align4)
    {
      Repr.AlignUpAligned(4 * k, Repr.Align4);
    }
    Repr.LayoutIs(SECTION_FIELDS, SECTION_OFFSETS, SECTION_SIZE, Repr.Align4, 0);
  }

  /** No field of `SectionHeader` is followed by padding. */
  lemma SectionPadding()
    ensures forall k | 0 <= k < |SECTION_FIELDS| :: Repr.PaddingAfter(SECTION_FIELDS, k) == 0
  {
    SectionLayout();
    Repr.PaddingsAre(SECTION_FIELDS, SECTION_OFFSETS, SECTION_SIZE);
  }

  /** The fields of a section header in declaration order. */
  function Words(sh: SectionHeader): (ws: seq<u32>)
    ensures |ws| == SECTION_WORDS
  {
    [sh.sh_name, sh.sh_type, sh.sh_flags, sh.sh_addr, sh.sh_offfset,
     sh.sh_size, sh.sh_link, sh.sh_info, sh.sh_addralign, sh.sh_entsize]
  }

  /** Byte i of the memory that holds `sh`: the byte of the word laid over i. */
  function SectionByte(order: ByteOrder, sh: SectionHeader, i: nat): (r: u8)
    requires i < SECTION_SIZE
    ensures forall k | 0 <= k < SECTION_WORDS && 4 * k <= i < 4 * k + 4 :: r == U32Byte(order, Words(sh)[k], i - 4 * k)
  {
    if i < 4 then U32Byte(order, sh.sh_name, i)
    else if i < 8 then U32Byte(order, sh.sh_type, i - 4)
    else if i < 12 then U32Byte(order, sh.sh_flags, i - 8)
    else if i < 16 then U32Byte(order, sh.sh_addr, i - 12)
    else if i < 20 then U32Byte(order, sh.sh_offfset, i - 16)
    else if i < 24 then U32Byte(order, sh.sh_size, i - 20)
    else if i < 28 then U32Byte(order, sh.sh_link, i - 24)
    else if i < 32 then U32Byte(order, sh.sh_info, i - 28)
    else if i < 36 then U32Byte(order, sh.sh_addralign, i - 32)
    else U32Byte(order, sh.sh_entsize, i - 36)
  }

  /** The memory image of `sh` holds word k, in declaration order, at its `#[repr(C)]` offset 4 * k. */
  lemma SectionByteLayout(order: ByteOrder, sh: SectionHeader)
    ensures forall k, j | 0 <= k < SECTION_WORDS && 0 <= j < 4 ::
      SECTION_OFFSETS[k] + j < SECTION_SIZE &&
      SectionByte(order, sh, SECTION_OFFSETS[k] + j) == U32Byte(order, Words(sh)[k], j)
  {
  }

  /**
   * `sh` is what a bitwise copy of the `SectionHeader` at the start of `b`
   * gives: the first 40 bytes of `b` are the memory image of `sh`.
   */
  ghost predicate SectionOverlay(order: ByteOrder, sh: SectionHeader, b: seq<u8>)
  {
    && |b| >= SECTION_SIZE
    && forall i | 0 <= i < SECTION_SIZE :: b[i] == SectionByte(order, sh, i)
  }

  /** The bitwise copy of the section header at the start of `b`. */
  function ReadSectionHeader(order: ByteOrder, b: seq<u8>): (sh: SectionHeader)
    requires |b| >= SECTION_SIZE
    ensures SectionOverlay(order, sh, b)
  {
    var sh := SectionHeader(
      U32At(order, b, 0), U32At(order, b, 4), U32At(order, b, 8), U32At(order, b, 12),
      U32At(order, b, 16), U32At(order, b, 20), U32At(order, b, 24), U32At(order, b, 28),
      U32At(order, b, 32), U32At(order, b, 36));
    U32BytesAt(order, b, 0);
    U32BytesAt(order, b, 4);
    U32BytesAt(order, b, 8);
    U32BytesAt(order, b, 12);
    U32BytesAt(order, b, 16);
    U32BytesAt(order, b, 20);
    U32BytesAt(order, b, 24);
    U32BytesAt(order, b, 28);
    U32BytesAt(order, b, 32);
    U32BytesAt(order, b, 36);
    sh
  }

  /**
   * The section header at the start of `b`, read the way `get_header` reads
   * the file header: a block shorter than the struct is an error, and bytes
   * past the struct are never read.
   */
  function GetSectionHeader(order: ByteOrder, b: seq<u8>): (r: Result<SectionHeader>)
    ensures r.Err? <==> |b| < SECTION_SIZE
    ensures r.Err? ==> r.error == Truncated(SECTION_SIZE, |b|)
    ensures r.Ok? ==> SectionOverlay(order, r.value, b)
  {
    if |b| < SECTION_SIZE then Err(Truncated(SECTION_SIZE, |b|)) else Ok(ReadSectionHeader(order, b))
  }

  /** Only one section header overlays a block: its 40 bytes determine every word. */
  lemma SectionOverlayUnique(order: ByteOrder, sh: SectionHeader, b: seq<u8>)
    requires SectionOverlay(order, sh, b)
    ensures ReadSectionHeader(order, b) == sh
  {
    SectionOverlayLow(order, sh, b);
    SectionOverlayHigh(order, sh, b);
  }

  /** The first five words of an overlay read back as the first five fields. */
  lemma SectionOverlayLow(order: ByteOrder, sh: SectionHeader, b: seq<u8>)
    requires SectionOverlay(order, sh, b)
    ensures U32At(order, b, 0) == sh.sh_name && U32At(order, b, 4) == sh.sh_type
    ensures U32At(order, b, 8) == sh.sh_flags && U32At(order, b, 12) == sh.sh_addr
    ensures U32At(order, b, 16) == sh.sh_offfset
  {
    U32AtBytes(order, sh.sh_name, b, 0);
    U32AtBytes(order, sh.sh_type, b, 4);
    U32AtBytes(order, sh.sh_flags, b, 8);
    U32AtBytes(order, sh.sh_addr, b, 12);
    U32AtBytes(order, sh.sh_offfset, b, 16);
  }

  /** The last five words of an overlay read back as the last five fields. */
  lemma SectionOverlayHigh(order: ByteOrder, sh: SectionHeader, b: seq<u8>)
    requires SectionOverlay(order, sh, b)
    ensures U32At(order, b, 20) == sh.sh_size && U32At(order, b, 24) == sh.sh_link
    ensures U32At(order, b, 28) == sh.sh_info && U32At(order, b, 32) == sh.sh_addralign
    ensures U32At(order, b, 36) == sh.sh_entsize
  {
    U32AtBytes(order, sh.sh_size, b, 20);
    U32AtBytes(order, sh.sh_link, b, 24);
    U32AtBytes(order, sh.sh_info, b, 28);
    U32AtBytes(order, sh.sh_addralign, b, 32);
    U32AtBytes(order, sh.sh_entsize, b, 36);
  }

  /** The 40 bytes of memory that hold `sh`. */
  function EncodeSectionHeader(order: ByteOrder, sh: SectionHeader): (b: seq<u8>)
    ensures |b| == SECTION_SIZE
  {
    seq(SECTION_SIZE, i requires 0 <= i < SECTION_SIZE => SectionByte(order, sh, i))
  }

  /** The decoder finds exactly the section header the bytes overlay. */
  lemma GetSectionHeaderIsOverlay(order: ByteOrder, b: seq<u8>, sh: SectionHeader)
    ensures GetSectionHeader(order, b) == Ok(sh) <==> SectionOverlay(order, sh, b)
  {
    if SectionOverlay(order, sh, b) {
      SectionOverlayUnique(order, sh, b);
    }
  }

  /** Reading back an encoded section header gives that header, whatever bytes follow it. */
  lemma DecodeEncodeSectionHeader(order: ByteOrder, sh: SectionHeader, rest: seq<u8>)
    ensures GetSectionHeader(order, EncodeSectionHeader(order, sh) + rest) == Ok(sh)
  {
    var b := EncodeSectionHeader(order, sh) + rest;
    assert SectionOverlay(order, sh, b);
    GetSectionHeaderIsOverlay(order, b, sh);
  }

  /** Writing back a section header that was read gives exactly the 40 bytes it was read from. */
  lemma EncodeDecodeSectionHeader(order: ByteOrder, b: seq<u8>)
    requires |b| >= SECTION_SIZE
    ensures GetSectionHeader(order, b).Ok?
    ensures EncodeSectionHeader(order, GetSectionHeader(order, b).value) == b[..SECTION_SIZE]
  {
    SectionImageIsBlock(order, GetSectionHeader(order, b).value, b);
  }

  /** Only the first 40 bytes of a block decide which section header overlays it. */
  lemma SameImageSameOverlay(order: ByteOrder, sh: SectionHeader, b: seq<u8>, c: seq<u8>)
    requires SectionOverlay(order, sh, b)
    requires |c| >= SECTION_SIZE && b[..SECTION_SIZE] == c[..SECTION_SIZE]
    ensures SectionOverlay(order, sh, c)
  {
    assert forall i | 0 <= i < SECTION_SIZE :: c[i] == c[..SECTION_SIZE][i] == b[..SECTION_SIZE][i];
  }

  /** The memory image of a section header that overlays a block is the block's first 40 bytes. */
  lemma SectionImageIsBlock(order: ByteOrder, sh: SectionHeader, b: seq<u8>)
    requires SectionOverlay(order, sh, b)
    ensures EncodeSectionHeader(order, sh) == b[..SECTION_SIZE]
  {
    var e := EncodeSectionHeader(order, sh);
    assert forall i | 0 <= i < SECTION_SIZE :: e[i] == b[..SECTION_SIZE][i];
  }

  /** Two blocks give the same section header exactly when their first 40 bytes agree. */
  lemma SameSectionHeaderIff(order: ByteOrder, b: seq<u8>, c: seq<u8>)
    requires |b| >= SECTION_SIZE && |c| >= SECTION_SIZE
    ensures GetSectionHeader(order, b) == GetSectionHeader(order, c) <==> b[..SECTION_SIZE] == c[..SECTION_SIZE]
  {
    var x, y := GetSectionHeader(order, b).value, GetSectionHeader(order, c).value;
    SectionImageIsBlock(order, x, b);
    SectionImageIsBlock(order, y, c);
    if b[..SECTION_SIZE] == c[..SECTION_SIZE] {
      SameImageSameOverlay(order, x, b, c);
      SectionOverlayUnique(order, x, c);
    }
  }

  // ---------------------------------------------------------------------
  // The `sh_type` codes
  // ---------------------------------------------------------------------

  /** The section types of the `#[repr(u32)]` enum `sh_type`, in declaration order. */
  datatype ShType =
    | NULL | PROGBITS | SYMTAB | STRTAB | RELA | HASH | DYNAMIC | NOTE | NOBITS | REL | SHLIB | DYNSYM
    | LOPROC | HIPROC | LOUSER | HIUSER
  {
    /** The position of the variant in the declaration. */
    function Index(): (i: nat)
      ensures i < |SH_TYPE_DECLS|
    {
      match this
      case NULL => 0 case PROGBITS => 1 case SYMTAB => 2 case STRTAB => 3
      case RELA => 4 case HASH => 5 case DYNAMIC => 6 case NOTE => 7
      case NOBITS => 8 case REL => 9 case SHLIB => 10 case DYNSYM => 11
      case LOPROC => 12 case HIPROC => 13 case LOUSER => 14 case HIUSER => 15
    }

    /** `self as u32`: the discriminant Rust gives the variant, which is the one in SH_TYPE_CODES. */
    function Code(): (c: int)
      ensures c == SH_TYPE_CODES[Index()]
    {
      Repr.DiscriminantsAre(SH_TYPE_DECLS, SH_TYPE_CODES);
      Repr.DiscriminantOf(SH_TYPE_DECLS, Index())
    }
  }

  /** How the variants of `sh_type` are declared: twelve implicit ones, then four explicit. */
  const SH_TYPE_DECLS: seq<Repr.Discriminant> := [
    Repr.Implicit, Repr.Implicit, Repr.Implicit, Repr.Implicit,
    Repr.Implicit, Repr.Implicit, Repr.Implicit, Repr.Implicit,
    Repr.Implicit, Repr.Implicit, Repr.Implicit, Repr.Implicit,
    Repr.Explicit(0x7000_0000), Repr.Explicit(0x7fff_ffff),
    Repr.Explicit(0x8000_0000), Repr.Explicit(0xffff_ffff)
  ]

  /** The discriminants of `sh_type`, variant by variant. */
  const SH_TYPE_CODES: seq<int> := [
    0, 1, 2, 3, 4, 5, 6, 7, 8, 9, 10, 11,
    0x7000_0000, 0x7fff_ffff, 0x8000_0000, 0xffff_ffff
  ]

  /**
   * The standard types NULL to DYNSYM are 0 to 11, each one more than the
   * one before; the processor range LOPROC..HIPROC lies above them and below
   * the user range LOUSER..HIUSER, whose top is the largest `u32`.
   */
  lemma ShTypeRanges()
    ensures forall t: ShType :: t.Index() < 12 ==> t.Code() == t.Index()
    ensures forall t: ShType :: t.Index() < 12 ==> t.Code() < LOPROC.Code()
    ensures LOPROC.Code() == 0x7000_0000 && HIPROC.Code() == 0x7fff_ffff
    ensures LOUSER.Code() == 0x8000_0000 && HIUSER.Code() == 0xffff_ffff
    ensures LOPROC.Code() <= HIPROC.Code() < LOUSER.Code() <= HIUSER.Code()
  {
  }

  /** Two variants at the same position are the same variant. */
  lemma ShTypeIndexInjective(t: ShType, t': ShType)
    requires t.Index() == t'.Index()
    ensures t == t'
  {
  }

  /** The table of `sh_type` codes rises strictly from first to last. */
  lemma ShTypeCodesIncrease()
    ensures forall i, j | 0 <= i < j < |SH_TYPE_CODES| :: SH_TYPE_CODES[i] < SH_TYPE_CODES[j]
  {
    assert forall i | 0 <= i < |SH_TYPE_CODES| - 1 :: SH_TYPE_CODES[i] < SH_TYPE_CODES[i + 1];
    StepsIncrease(SH_TYPE_CODES);
  }

  /** A sequence that rises at every step rises between any two positions. */
  lemma {:induction false} StepsIncrease(s: seq<int>)
    requires forall i | 0 <= i < |s| - 1 :: s[i] < s[i + 1]
    ensures forall i, j | 0 <= i < j < |s| :: s[i] < s[j]
  {
    if |s| > 1 {
      StepsIncrease(s[1..]);
      assert forall j | 1 <= j < |s| :: s[j] == s[1..][j - 1];
      assert forall j | 1 < j < |s| :: s[1] < s[j];
    }
  }

  /**
   * Every discriminant fits the enum's `u32` representation, HIUSER holds its
   * largest value, and the discriminants rise in declaration order, so no
   * two variants share one.
   */
  lemma ShTypeRepr(t: ShType, t': ShType)
    ensures 0 <= t.Code() <= HIUSER.Code() == 0xffff_ffff
    ensures t.Index() < t'.Index() ==> t.Code() < t'.Code()
    ensures t.Code() == t'.Code() ==> t == t'
  {
    ShTypeCodesIncrease();
    assert SH_TYPE_CODES[0] <= t.Code() <= SH_TYPE_CODES[|SH_TYPE_CODES| - 1];
    if t.Code() == t'.Code() {
      ShTypeIndexInjective(t, t');
    }
  }

  // ---------------------------------------------------------------------
  // The `sh_flags` codes
  // ---------------------------------------------------------------------

  /** The section flags of the `#[repr(u32)]` enum `sh_flags`, in declaration order. */
  datatype ShFlag = WRITE | ALLOC | EXECINSTR | MASKPROC
  {
    /** The position of the variant in the declaration. */
    function Index(): (i: nat)
      ensures i < |SH_FLAG_DECLS|
    {
      match this
      case WRITE => 0 case ALLOC => 1 case EXECINSTR => 2 case MASKPROC => 3
    }

    /** `self as u32`: the discriminant Rust gives the variant, a non-zero `u32`. */
    function Code(): (c: int)
      ensures 0 < c < 0x1_0000_0000
    {
      Repr.DiscriminantOf(SH_FLAG_DECLS, Index())
    }

    /** The flag's bits as a 32-bit mask, which is its discriminant. */
    function Mask(): (m: bv32)
      ensures m as int == Code()
    {
      match this
      case WRITE => 0x1
      case ALLOC => 0x2
      case EXECINSTR => 0x4
      case MASKPROC => 0xf000_0000
    }
  }

  /** Every variant of `sh_flags` has an explicit discriminant. */
  const SH_FLAG_DECLS: seq<Repr.Discriminant> := [
    Repr.Explicit(0x1), Repr.Explicit(0x2), Repr.Explicit(0x4), Repr.Explicit(0xf000_0000)
  ]

  /** WRITE is bit 0, ALLOC bit 1, EXECINSTR bit 2, and MASKPROC the top four bits. */
  lemma ShFlagCodes()
    ensures WRITE.Code() == 0x1 && ALLOC.Code() == 0x2 && EXECINSTR.Code() == 0x4
    ensures MASKPROC.Code() == 0xf000_0000
  {
  }

  /** `m` has exactly one bit set. */
  predicate SingleBit(m: bv32)
  {
    m != 0 && m & (m - 1) == 0
  }

  /**
   * WRITE, ALLOC and EXECINSTR are each a single bit, and no two flags share
   * a bit: the three standard flags lie outside the processor mask MASKPROC.
   */
  lemma ShFlagBits()
    ensures SingleBit(WRITE.Mask()) && SingleBit(ALLOC.Mask()) && SingleBit(EXECINSTR.Mask())
    ensures WRITE.Mask() & ALLOC.Mask() == 0 && WRITE.Mask() & EXECINSTR.Mask() == 0
    ensures ALLOC.Mask() & EXECINSTR.Mask() == 0
    ensures WRITE.Mask() & MASKPROC.Mask() == 0 && ALLOC.Mask() & MASKPROC.Mask() == 0
    ensures EXECINSTR.Mask() & MASKPROC.Mask() == 0
  {
    ShFlagCodes();
    var w, a, x, m := WRITE.Mask(), ALLOC.Mask(), EXECINSTR.Mask(), MASKPROC.Mask();
    assert w == 1 && a == 2 && x == 4 && m == 0xf000_0000;
    assert SingleBit(w) && SingleBit(a) && SingleBit(x);
    assert w & a == 0 && w & x == 0 && a & x == 0;
    assert w & m == 0 && a & m == 0 && x & m == 0;
  }
}
