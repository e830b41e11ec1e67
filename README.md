# ELF32 records of `src/elf.rs`, in Dafny

This project models the fixed-layout ELF32 records that `src/elf.rs` declares:

- the file header `ElfHeader` and its reader `ElfHeader::get_header`;
- the 40-byte `SectionHeader`;
- the `#[repr(u32)]` enums `sh_type` and `sh_flags`;
- the constants `EI_NIDENT`, `EM_ARM` and `ELFMAG`.

The source reads a header by a bitwise copy (`transmute_copy`) of the memory at
a pointer into a `#[repr(C)]` struct. Here that copy is a decoder from a byte
sequence. The byte positions of the fields come from Rust's `#[repr(C)]`
placement rule, which is stated once, generically, in module `Repr`. Each
decoder has an encoder beside it, and the pair is tied together by round-trip
lemmas.

The source does not say in which byte order its multi-byte fields are stored:
they are in the order of the machine doing the copy. Every decoder and encoder
therefore takes a `ByteOrder` parameter and is proved for both orders. ARM
targets, which `EM_ARM` names, are usually little-endian, but an ARM image may
also be big-endian.

Files:

- `bytes.dfy` (module `Bytes`): `u8`/`u16`/`u32`. It gives the value stored at an
  offset of a byte sequence, the byte at each address of a stored value, and the
  lemmas that make these two inverse.
- `repr.dfy` (module `Repr`): the `#[repr(C)]` layout rule (offsets, alignment,
  size, padding) and the discriminant rule of field-less enums.
- `elf.dfy` (module `Elf`): the records, their decoders and encoders, the
  layouts and the code tables.

The model follows the source as written:

- `e_entry` is the 16-bit `Elf32_Half` the source declares, not the standard's
  32-bit `Elf32_Addr`. Under `#[repr(C)]` it sits at offset 24 and is followed
  by two bytes of padding, so every other field keeps its standard offset and
  the struct keeps its standard 52 bytes (`HeaderMatchesStandard`).
  - On a standard ELF32 image, half of the 32-bit entry address falls into
    that padding, and `get_header` never reads it (`SameHeaderIff`,
    `PaddingNotPreserved`). In a little-endian image the decoded `e_entry` is
    the lower 16 bits of the address; in a big-endian one it is the upper 16
    bits (`EntryIsHalfOfAddress`).
- `Elf32_Sword` is unsigned, as declared.
- The field names `e_indent` and `sh_offfset` keep the source's spelling.

## Model

| member | source | states |
|---|---|---|
| `Elf.GetHeader` | src/elf.rs:37-40 | `get_header`: fails exactly when fewer than 52 bytes are available, with `Truncated(52, n)`; otherwise the returned header overlays the first 52 bytes (every non-padding byte is the stored byte of the field laid over it) |
| `Elf.ReadHeader` | src/elf.rs:38-40 | the field-by-field copy of the header at the start of a block of at least 52 bytes overlays that block |
| `Elf.GetHeaderIsOverlay` | src/elf.rs:38-40 | the decoder returns `h` if and only if `h` overlays the block: the copy is the one header whose memory image the bytes are |
| `Elf.HeaderOverlayUnique` | src/elf.rs:38-40 | a header that overlays a block is the one the reader returns: the 50 non-padding bytes determine every field |
| `Elf.HeaderOverlayLow` | src/elf.rs:22-28 | the stored values at offsets 16, 18, 20, 24, 28, 32 and 36 of an overlaid block are `e_type` to `e_flags` |
| `Elf.HeaderOverlayHigh` | src/elf.rs:29-34 | the stored values at offsets 40 to 50 of an overlaid block are `e_ehsize` to `e_shstrndx` |
| `Elf.IdentOverlay` | src/elf.rs:21 | the first 16 bytes of an overlaid block are `e_indent` |
| `Elf.ReadHeaderOverlay` | src/elf.rs:38-40 | a header whose fields are the values stored at their offsets overlays the block |
| `Elf.EncodeHeader` | src/elf.rs:20-35 | the memory image of a header is 52 bytes, with zeros in the padding bytes 26..28 |
| `Elf.DecodeEncodeHeader` | src/elf.rs:38-40 | decoding an encoded header, followed by any bytes at all, gives back that header |
| `Elf.EncodeDecodeHeader` | src/elf.rs:25-26 | re-encoding the header decoded from a block gives the block's first 52 bytes, except that bytes 26 and 27 come back as zero |
| `Elf.SameHeaderIff` | src/elf.rs:38-40 | two blocks decode to the same header if and only if they agree on the 50 non-padding bytes of the first 52; bytes past 52 and the padding never matter |
| `Elf.PaddingNotPreserved` | src/elf.rs:25-26 | any block whose padding byte 26 or 27 is non-zero does not survive decode then encode, in either byte order |
| `Elf.EntryIsHalfOfAddress` | src/elf.rs:25 | of the 32-bit entry address a standard ELF32 image stores at offset 24, the decoded `e_entry` is the lower 16 bits when little-endian and the upper 16 bits when big-endian |
| `Elf.HeaderLayout` | src/elf.rs:18-35 | `#[repr(C)]` puts the fields at 0, 16, 18, 20, 24, 28, 32, 36, 40, 42, 44, 46, 48, 50, and `size_of::<ElfHeader>()` is 52 |
| `Elf.HeaderPadding` | src/elf.rs:24-26 | the only padding in `ElfHeader` is the 2 bytes after `e_entry`; every other field is followed directly by the next, and the last one ends the struct |
| `Elf.HeaderByte` | src/elf.rs:20-35 | byte i of the header's memory image is the stored byte of the field whose `#[repr(C)]` place covers i, and 0 in the padding |
| `Elf.HeaderOverlay` | src/elf.rs:38-40 | definition: a header overlays a block of at least 52 bytes when every non-padding byte of the block is the header's image byte there |
| `Elf.HeaderByteLayout` | src/elf.rs:20-35 | in the memory image, field k occupies the bytes from its offset, and a byte is covered by no field exactly when it is padding (26 or 27) |
| `Elf.StandardLayout` | src/elf.rs:20-35 | with the standard 32-bit `e_entry`, `#[repr(C)]` gives the same 14 offsets and 52 bytes |
| `Elf.HeaderMatchesStandard` | src/elf.rs:25 | the 16-bit `e_entry` leaves every field offset and the struct size where the standard header has them |
| `Elf.HeaderDiffersInEntry` | src/elf.rs:25 | the source's header and the standard's declare the same fields, except that `e_entry` is 2 bytes and 2-aligned instead of 4 and 4 |
| `Elf.ElfMagBytes` | src/elf.rs:15-16 | `ELFMAG` stored most significant byte first is 0x7F 'E' 'L' 'F'; stored little-endian it is those bytes reversed |
| `Elf.ArmMachineBytes` | src/elf.rs:12-13 | `EM_ARM` is stored little-endian as 0x28 0x00, and a decoded header has `e_machine == EM_ARM` exactly when bytes 18 and 19 are 0x28 and 0x00 |
| `Elf.GetSectionHeader` | src/elf.rs:43-55 | reading a section header fails exactly when fewer than 40 bytes are available; otherwise the result overlays the first 40 bytes |
| `Elf.ReadSectionHeader` | src/elf.rs:44-55 | the word-by-word copy of a section header overlays the block it was read from |
| `Elf.SectionByte` | src/elf.rs:43-55 | byte i of the section header's memory image is byte i - 4k of word k, for the word k that covers i |
| `Elf.SectionOverlay` | src/elf.rs:43-55 | definition: a section header overlays a block of at least 40 bytes when each of the first 40 bytes is its image byte |
| `Elf.SectionOverlayUnique` | src/elf.rs:44-55 | a section header that overlays a block is the one the reader returns |
| `Elf.SectionOverlayLow` | src/elf.rs:45-49 | the words at offsets 0 to 16 of an overlaid block are `sh_name` to `sh_offfset` |
| `Elf.SectionOverlayHigh` | src/elf.rs:50-54 | the words at offsets 20 to 36 of an overlaid block are `sh_size` to `sh_entsize` |
| `Elf.EncodeSectionHeader` | src/elf.rs:44-55 | the memory image of a section header is 40 bytes |
| `Elf.GetSectionHeaderIsOverlay` | src/elf.rs:44-55 | the section decoder returns `sh` if and only if `sh` overlays the block |
| `Elf.DecodeEncodeSectionHeader` | src/elf.rs:44-55 | decoding an encoded section header, followed by any bytes, gives it back |
| `Elf.EncodeDecodeSectionHeader` | src/elf.rs:44-55 | re-encoding a decoded section header gives exactly the 40 bytes it was read from (no padding, nothing lost) |
| `Elf.SectionImageIsBlock` | src/elf.rs:44-55 | the memory image of a section header that overlays a block is the block's first 40 bytes |
| `Elf.SameSectionHeaderIff` | src/elf.rs:44-55 | two blocks give the same section header if and only if their first 40 bytes are equal |
| `Elf.SectionLayout` | src/elf.rs:43-55 | `#[repr(C)]` puts word k of `SectionHeader` at byte 4k, and the struct is 40 bytes |
| `Elf.SectionPadding` | src/elf.rs:43-55 | no field of `SectionHeader` is followed by padding |
| `Elf.SectionByteLayout` | src/elf.rs:44-55 | in the memory image, word k of the declaration order occupies bytes 4k to 4k+3 |
| `Elf.ShType.Code` | src/elf.rs:57-75 | `self as u32`: by Rust's discriminant rule, each `sh_type` variant's discriminant is the code table's entry at its position, 0..11 and then 0x70000000, 0x7fffffff, 0x80000000, 0xffffffff |
| `Elf.ShTypeRanges` | src/elf.rs:58-75 | NULL to DYNSYM are 0 to 11 in declaration order, all below LOPROC; LOPROC 0x70000000 <= HIPROC 0x7fffffff < LOUSER 0x80000000 <= HIUSER 0xffffffff |
| `Elf.ShTypeCodesIncrease` | src/elf.rs:58-75 | the `sh_type` discriminants rise strictly in declaration order |
| `Elf.ShTypeRepr` | src/elf.rs:57-75 | every discriminant fits the `u32` representation, HIUSER is the largest `u32`, later variants have larger codes, and equal codes mean equal variants |
| `Elf.ShFlag.Code` | src/elf.rs:77-83 | `self as u32`: every `sh_flags` discriminant is positive and fits the `u32` representation |
| `Elf.ShFlag.Mask` | src/elf.rs:77-83 | a flag as a 32-bit mask has exactly the value of its discriminant |
| `Elf.ShFlagCodes` | src/elf.rs:77-83 | WRITE is 0x1, ALLOC 0x2, EXECINSTR 0x4 and MASKPROC 0xf0000000 |
| `Elf.ShFlagBits` | src/elf.rs:78-83 | WRITE, ALLOC and EXECINSTR are each a single bit, pairwise disjoint, and none intersects MASKPROC |
| `Bytes.U16Byte` | src/elf.rs:4 | the low byte of an `Elf32_Half` is stored first in little-endian order and second in big-endian; the high byte takes the other place |
| `Bytes.U32Byte` | src/elf.rs:7 | the least significant byte of an `Elf32_Word` is stored at address 0 in little-endian order and 3 in big-endian; the most significant byte at the other end |
| `Bytes.U16At` | src/elf.rs:4 | the `Elf32_Half` read at an offset has the first stored byte as its low byte in little-endian order and as its high byte in big-endian |
| `Bytes.U32At` | src/elf.rs:7 | the `Elf32_Word` read at an offset has the first stored byte as its least significant byte in little-endian order and the last one in big-endian, and the other end as its most significant byte |
| `Bytes.U16AtBytes` | src/elf.rs:4 | reading an `Elf32_Half` back from the two bytes that store it gives it, in either byte order |
| `Bytes.U16BytesAt` | src/elf.rs:4 | the two bytes that store the `Elf32_Half` read at an offset are the bytes it was read from |
| `Bytes.U32AtBytes` | src/elf.rs:7 | reading an `Elf32_Word` back from the four bytes that store it gives it, in either byte order |
| `Bytes.U32BytesAt` | src/elf.rs:7 | the four bytes that store the `Elf32_Word` read at an offset are the bytes it was read from |
| `Bytes.EncodeU16` | src/elf.rs:4 | the 2-byte image of a `u16` reads back as that value |
| `Bytes.EncodeU32` | src/elf.rs:7 | the 4-byte image of a `u32` reads back as that value |
| `Repr.AlignUp` | src/elf.rs:18 | the `#[repr(C)]` placement rounds an offset up to the least multiple of the alignment at or above it |
| `Repr.Offset` | src/elf.rs:18 | `#[repr(C)]` puts each field after the fields before it, rounded up to its alignment, so its offset is a multiple of that alignment |
| `Repr.EndOf` | src/elf.rs:18 | the first n fields end no earlier than the sum of their sizes: padding only adds |
| `Repr.SizeOf` | src/elf.rs:18 | `size_of` is a multiple of the struct's alignment, at least the end of the last field and less than one alignment past it |
| `Repr.AlignUpAligned` | src/elf.rs:18 | an offset that is already aligned is not moved |
| `Repr.MaxAlign` | src/elf.rs:18 | a struct's alignment is at least each field's, and is one of them (or 1) |
| `Repr.MaxAlignIs` | src/elf.rs:18 | a struct whose widest alignment is `a` has alignment `a` |
| `Repr.OffsetsAre` | src/elf.rs:18 | a list of offsets, each the end of the previous field rounded up to its own alignment, is the `#[repr(C)]` layout, and the last one gives the struct's end |
| `Repr.LayoutIs` | src/elf.rs:18 | such offsets and the end rounded up to the widest alignment are the struct's offsets and `size_of` |
| `Repr.FieldEndsBy` | src/elf.rs:18 | every field ends by the end of any later prefix of the struct |
| `Repr.Layout` | src/elf.rs:18 | every field is aligned, fields do not overlap and follow declaration order, and all lie inside the struct's size |
| `Repr.PaddingAfter` | src/elf.rs:18 | the padding after a field fills the gap up to the next field (or the struct's end after the last), and is always less than the next field's alignment (or the struct's) |
| `Repr.PaddingsAre` | src/elf.rs:18 | with known offsets and size, the padding after each field is the next offset (or the size) minus the field's end |
| `Repr.DiscriminantOf` | src/elf.rs:57-75 | Rust's discriminant of a field-less enum variant; when no variant up to i has an explicit value, variant i gets i |
| `Repr.DiscriminantsAre` | src/elf.rs:57-75 | a table whose entries are each variant's explicit value, or the previous entry plus one (0 first), is the enum's discriminants |

## Left out

- The raw-pointer dereference and `transmute_copy` in `get_header` (src/elf.rs:38-40). The model decodes a byte sequence; addresses, aliasing and the `unsafe` contract are not modelled. The source's reader cannot fail: it reads 52 bytes wherever the pointer points. The model makes a short block an explicit `Truncated` error.
- The contents of the two padding bytes after `e_entry`. Rust leaves them unspecified. The reader ignores them and the encoder writes zeros.
- `ByteOrder` is a parameter, because the source stores fields in the byte order of the machine running it.
- `#[derive(Debug)]` (src/elf.rs:19) is debug formatting, with no behaviour to model.
- The source declares `SectionHeader` but has no reader for it. The model reads it the way `get_header` reads the header.
- The magic check, the section-table walker, the string-table lookup and the image relocator are not part of this model. They are not in `src/elf.rs`.
