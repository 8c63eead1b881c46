# Samsung boot-image header codec, in Dafny

This project models the Samsung boot-image header of `android-bootimagelib`:
a fixed 616-byte little-endian record that starts a Samsung-style Android boot
image. The record holds the magic `"ANDROID!"`, ten unsigned 32-bit fields
(kernel, ramdisk and second-stage sizes and load addresses, the device-tree
size, a reserved word, the kernel-tags address and the page size), a 24-byte
product name, 512 bytes of kernel boot arguments and a 32-byte unique id.

Files:

- `io.dfy` (module `Io`): bytes, the two stream errors, `Result`/`Outcome`,
  and the two stream classes. `Reader` is a source read through a cursor.
  `Writer` is a target that takes bytes until its room runs out.
- `little_endian.dfy` (module `LittleEndian`): `u32` values and their
  little-endian four-byte form, with `WriteU32` on the target stream.
- `samsung_header.dfy` (module `SamsungHeader`): the `Header` datatype; the
  wire format as specification functions (`Layout`, `Decode`, `Encode`); the
  source's operations `Parse`, `ReadFrom`, `WriteTo`, `HasCorrectMagic` and
  `Default`; and the lemmas about them.

The boot arguments are one flat 512-byte field. The source nests them as
16 chunks of 32 bytes only to stay within an array-size limit. Both `parse`
and `write_to` treat them as 512 contiguous bytes. `write_to`'s loop over the
16 chunks is kept as a loop (`WriteBootArguments`) over 32-byte slices of the
flat field.

`Parse` reads the fields in order through a cursor over the block, as the
source does with its slice `&source[..]`: each `read_exact` or `read_u32`
takes the next bytes (a `u32` through `DecodeU32`) and moves the cursor on. The cursor is a local offset into the block. The source's
`.unwrap()`s become slices whose bounds the verifier proves. This is the
statement that `parse` cannot fail on a 616-byte block: the field widths
8 + 10×4 + 24 + 512 + 32 add up to exactly 616.

The default header has the reserved word set to `0x02000000`, although a doc
comment says the field should always be 0. The model follows the code.

## Model

| member | source | states |
|---|---|---|
| `Io.Reader.ReadExact` | src/header/samsung_header.rs:95 | `read_exact`: delivers exactly the next `n` bytes and advances the cursor by `n`, or fails with `UnexpectedEof` exactly when fewer than `n` remain |
| `Io.Writer.WriteAll` | src/header/samsung_header.rs:113 | `write_all`: succeeds exactly when the bytes fit; on success appends exactly those bytes and uses up that much room; otherwise fails with `WriteZero` |
| `LittleEndian.DecodeEncodeU32` | src/header/samsung_header.rs:103-112 | decoding the four little-endian bytes of any `u32` gives the value back |
| `LittleEndian.EncodeDecodeU32` | src/header/samsung_header.rs:64-73 | re-encoding the value of any four bytes gives the same four bytes |
| `LittleEndian.WriteU32` | src/header/samsung_header.rs:103-112 | `write_u32::<LittleEndian>`: succeeds exactly when 4 bytes fit, and then appends the little-endian form of the value |
| `SamsungHeader.Encode` | src/header/samsung_header.rs:101-118 | the encoding of every header is exactly `SAMSUNG_HEADER_SIZE` = 616 bytes |
| `SamsungHeader.EncodeLayout` | src/header/samsung_header.rs:102-117 | the encoding puts each field at its fixed offset: magic at 0..8, the ten `u32`s little-endian at 8, 12, …, 44 (page size at 44..48), product name at 48..72, boot arguments at 72..584, unique id at 584..616 |
| `SamsungHeader.DecodeLayout` | src/header/samsung_header.rs:55-91 | a 616-byte block decodes to `h` if and only if it holds `h`'s fields at those offsets |
| `SamsungHeader.LayoutUnique` | src/header/samsung_header.rs:6-12 | the fixed offsets cover all 616 bytes, so a header has exactly one layout |
| `SamsungHeader.DecodeEncode` | src/header/samsung_header.rs:55-119 | round trip: decoding the bytes `write_to` emits gives back every field of every header, including the reserved word, product name, boot arguments and unique id |
| `SamsungHeader.EncodeDecode` | src/header/samsung_header.rs:55-119 | reverse round trip: encoding the header parsed from any 616-byte block gives exactly that block |
| `SamsungHeader.EncodeInjective` | src/header/samsung_header.rs:101-119 | two headers that `write_to` encodes to the same bytes are equal |
| `SamsungHeader.Parse` | src/header/samsung_header.rs:55-91 | `parse` reads the fields in order through a cursor over the block, never fails on a 616-byte block, and returns the header the block holds |
| `SamsungHeader.ReadFrom` | src/header/samsung_header.rs:93-97 | `read_from` fails with `UnexpectedEof` exactly when fewer than 616 bytes are available; otherwise it consumes exactly 616 bytes and returns the parse of them |
| `SamsungHeader.WriteBootArguments` | src/header/samsung_header.rs:114-116 | the loop over the 16 chunks appends the 512 boot-argument bytes in order, and fails exactly when they do not fit |
| `SamsungHeader.WriteTo` | src/header/samsung_header.rs:101-119 | `write_to` succeeds exactly when the target has room for 616 bytes; then it returns 616, appends exactly the header's encoding and nothing else; otherwise it fails with `WriteZero` |
| `SamsungHeader.StreamRoundTrip` | src/header/samsung_header.rs:93-119 | a header written with `write_to` after any bytes already in the stream, and read back with `read_from` once those bytes have been read, is the same header; the write fails when the target has room for fewer than 616 more bytes |
| `SamsungHeader.MagicConstantsAgree` | src/header/samsung_header.rs:7-8 | the bytes 0x41 0x4E 0x44 0x52 0x4F 0x49 0x44 0x21 are the ASCII bytes of `"ANDROID!"` |
| `SamsungHeader.HasCorrectMagic` | src/header/samsung_header.rs:121-123 | `has_correct_magic` holds if and only if the magic field equals the bytes of `"ANDROID!"`; it is a pure function of the header |
| `SamsungHeader.MagicOnWire` | src/header/samsung_header.rs:121-123 | a block parses to a header with correct magic if and only if its first 8 bytes are the magic, and a header has correct magic if and only if its encoding starts with the magic |
| `SamsungHeader.Default` | src/header/samsung_header.rs:126-145 | the default header has correct magic, page size 2048, kernel, ramdisk, second and device-tree sizes of 0, kernel load address 0x10008000, ramdisk load address 0x11000000, second load address 0x100f0000, kernel-tags address 0x10000100, reserved word 0x02000000, and an all-zero product name, boot arguments and unique id |

## Left out

- `HeaderKind` and the AOSP header variants `AospHeader0` to `AospHeader3` (src/header/mod.rs:9-15): their source file `src/header/android_header.rs` is not part of this model, so their layouts are unknown.
- The boot-image level: `BootImage`, `BadHeaderError`, `ReadBootImageError`, section layout, page padding, magic-based format selection and section location. They are declared in `src/image/mod.rs` and re-exported by `src/lib.rs`, but `src/image/samsung.rs` and `src/image/android.rs` are not part of this model.
- Streams are concrete: `Reader` is a byte sequence read through a cursor, and `Writer` is a sink with a finite room. The generic `Read`/`Write` traits and the `byteorder` crate are replaced by these. The only read fault modelled is a short stream. The only write fault modelled is a full target. A growable `Vec<u8>` target is a `Writer` with enough room.
- `Io.Reader.ReadExact`, `Io.Writer.WriteAll`, `SamsungHeader.ReadFrom`, `SamsungHeader.WriteTo`: the stream's state after a failed read or write is left unspecified, so partial output before a fault is not modelled.
- The `unsafe` `transmute` that turns the flat 512-byte buffer into the 16×32 nested array: the model keeps the flat field, which is what the transmute produces byte for byte.
- The `Debug` and `Clone` derives, and the privacy of `_reserved` (the model's `reserved` field is readable like the others).
