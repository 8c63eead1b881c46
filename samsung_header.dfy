/** The Samsung boot-image header: a fixed 616-byte little-endian record, its
    decoding from a block or a stream, its encoding to a stream, the magic
    check and the conventional default header. */
module SamsungHeader {
  import opened Io
  import opened LittleEndian

  /** Size of the header on the wire, in bytes. */
  const HeaderSize: nat := 616
  const MagicSize: nat := 8
  const ProductNameSize: nat := 24
  const BootArgumentsSize: nat := 512
  const UniqueIdSize: nat := 32

  /** The magic as bytes, the value a default header starts with. */
  const Magic: seq<Byte> := [0x41, 0x4E, 0x44, 0x52, 0x4F, 0x49, 0x44, 0x21]
  /** The magic as text, the value `HasCorrectMagic` compares against. */
  const MagicStr: string := "ANDROID!"

  type MagicBytes = s: seq<Byte> | |s| == MagicSize witness Zeroes(MagicSize)
  type ProductName = s: seq<Byte> | |s| == ProductNameSize witness Zeroes(ProductNameSize)
  /** The 512 bytes of kernel boot arguments, as one flat field. */
  type BootArguments = s: seq<Byte> | |s| == BootArgumentsSize witness Zeroes(BootArgumentsSize)
  type UniqueId = s: seq<Byte> | |s| == UniqueIdSize witness Zeroes(UniqueIdSize)

  /** A decoded header. Fields appear in wire order. */
  datatype Header = Header(
    magic: MagicBytes,
    kernelSize: U32,
    kernelLoadAddress: U32,
    ramdiskSize: U32,
    ramdiskLoadAddress: U32,
    secondSize: U32,
    secondLoadAddress: U32,
    deviceTreeSize: U32,
    reserved: U32,
    kernelTagsAddress: U32,
    pageSize: U32,
    productName: ProductName,
    bootArguments: BootArguments,
    uniqueId: UniqueId)

  /** The bytes of an ASCII string, one per character (what `as_bytes` gives for ASCII text). */
  function AsciiBytes(s: string): (r: seq<Byte>)
    requires forall i :: 0 <= i < |s| ==> s[i] as int < 0x80
    ensures |r| == |s|
    ensures forall i :: 0 <= i < |s| ==> r[i] == s[i] as int
  {
    seq(|s|, i requires 0 <= i < |s| => s[i] as int)
  }

  // ----- Wire format: specification -----

  /** `b` holds the fields of `h` at their fixed offsets, little-endian. */
  predicate Layout(b: seq<Byte>, h: Header)
  {
    && |b| == HeaderSize
    && b[0..8] == h.magic
    && b[8..12] == EncodeU32(h.kernelSize)
    && b[12..16] == EncodeU32(h.kernelLoadAddress)
    && b[16..20] == EncodeU32(h.ramdiskSize)
    && b[20..24] == EncodeU32(h.ramdiskLoadAddress)
    && b[24..28] == EncodeU32(h.secondSize)
    && b[28..32] == EncodeU32(h.secondLoadAddress)
    && b[32..36] == EncodeU32(h.deviceTreeSize)
    && b[36..40] == EncodeU32(h.reserved)
    && b[40..44] == EncodeU32(h.kernelTagsAddress)
    && b[44..48] == EncodeU32(h.pageSize)
    && b[48..72] == h.productName
    && b[72..584] == h.bootArguments
    && b[584..616] == h.uniqueId
  }

  /** The header a 616-byte block holds: what `parse` computes. */
  function Decode(b: seq<Byte>): (h: Header)
    requires |b| == HeaderSize
  {
    Header(
      b[0..8],
      DecodeU32(b[8..12]),
      DecodeU32(b[12..16]),
      DecodeU32(b[16..20]),
      DecodeU32(b[20..24]),
      DecodeU32(b[24..28]),
      DecodeU32(b[28..32]),
      DecodeU32(b[32..36]),
      DecodeU32(b[36..40]),
      DecodeU32(b[40..44]),
      DecodeU32(b[44..48]),
      b[48..72],
      b[72..584],
      b[584..616])
  }

  /** The bytes `write_to` emits for `h`: every field in declaration order. */
  function Encode(h: Header): (b: seq<Byte>)
    ensures |b| == HeaderSize
  {
    h.magic
      + EncodeU32(h.kernelSize)
      + EncodeU32(h.kernelLoadAddress)
      + EncodeU32(h.ramdiskSize)
      + EncodeU32(h.ramdiskLoadAddress)
      + EncodeU32(h.secondSize)
      + EncodeU32(h.secondLoadAddress)
      + EncodeU32(h.deviceTreeSize)
      + EncodeU32(h.reserved)
      + EncodeU32(h.kernelTagsAddress)
      + EncodeU32(h.pageSize)
      + h.productName
      + h.bootArguments
      + h.uniqueId
  }

  /** The encoding puts every field at its fixed offset. */
  lemma EncodeLayout(h: Header)
    ensures Layout(Encode(h), h)
  {
  }

  /** A 616-byte block decodes to `h` exactly when it holds `h`'s fields at their offsets. */
  lemma DecodeLayout(b: seq<Byte>, h: Header)
    requires |b| == HeaderSize
    ensures Decode(b) == h <==> Layout(b, h)
  {
    if Layout(b, h) {
      DecodeEncodeU32(h.kernelSize);
      DecodeEncodeU32(h.kernelLoadAddress);
      DecodeEncodeU32(h.ramdiskSize);
      DecodeEncodeU32(h.ramdiskLoadAddress);
      DecodeEncodeU32(h.secondSize);
      DecodeEncodeU32(h.secondLoadAddress);
      DecodeEncodeU32(h.deviceTreeSize);
      DecodeEncodeU32(h.reserved);
      DecodeEncodeU32(h.kernelTagsAddress);
      DecodeEncodeU32(h.pageSize);
    }
    if Decode(b) == h {
      EncodeDecodeU32(b[8..12]);
      EncodeDecodeU32(b[12..16]);
      EncodeDecodeU32(b[16..20]);
      EncodeDecodeU32(b[20..24]);
      EncodeDecodeU32(b[24..28]);
      EncodeDecodeU32(b[28..32]);
      EncodeDecodeU32(b[32..36]);
      EncodeDecodeU32(b[36..40]);
      EncodeDecodeU32(b[40..44]);
      EncodeDecodeU32(b[44..48]);
    }
  }

  /** The fixed offsets cover the whole block, so a header has only one layout. */
  lemma LayoutUnique(b1: seq<Byte>, b2: seq<Byte>, h: Header)
    requires Layout(b1, h) && Layout(b2, h)
    ensures b1 == b2
  {
  }

  /** Round trip: decoding what `write_to` emits gives back every field of the
      header, reserved padding included. */
  lemma DecodeEncode(h: Header)
    ensures Decode(Encode(h)) == h
  {
    EncodeLayout(h);
    DecodeLayout(Encode(h), h);
  }

  /** Reverse round trip: re-encoding a decoded 616-byte block gives the block back. */
  lemma EncodeDecode(b: seq<Byte>)
    requires |b| == HeaderSize
    ensures Encode(Decode(b)) == b
  {
    var h := Decode(b);
    DecodeLayout(b, h);
    EncodeLayout(h);
    LayoutUnique(Encode(h), b, h);
  }

  /** Two headers with the same encoding are the same header. */
  lemma EncodeInjective(h1: Header, h2: Header)
    requires Encode(h1) == Encode(h2)
    ensures h1 == h2
  {
    DecodeEncode(h1);
    DecodeEncode(h2);
  }

  // ----- Operations -----

  /** `parse`: decodes a 616-byte block by reading the fields one after another
      through a cursor over it. The cursor is the offset of the unread rest of
      the block; each `read_exact`/`read_u32` takes the next bytes and moves it
      on. Every read is proved to find enough bytes, which is why the source's
      `.unwrap()`s cannot fail. */
  method Parse(block: seq<Byte>) returns (h: Header)
    requires |block| == HeaderSize
    ensures h == Decode(block)
  {
    var cursor := 0;
    var magic := block[cursor..cursor + MagicSize];
    cursor := cursor + MagicSize;
    var kernelSize := DecodeU32(block[cursor..cursor + 4]);
    cursor := cursor + 4;
    var kernelLoadAddress := DecodeU32(block[cursor..cursor + 4]);
    cursor := cursor + 4;
    var ramdiskSize := DecodeU32(block[cursor..cursor + 4]);
    cursor := cursor + 4;
    var ramdiskLoadAddress := DecodeU32(block[cursor..cursor + 4]);
    cursor := cursor + 4;
    var secondSize := DecodeU32(block[cursor..cursor + 4]);
    cursor := cursor + 4;
    var secondLoadAddress := DecodeU32(block[cursor..cursor + 4]);
    cursor := cursor + 4;
    var deviceTreeSize := DecodeU32(block[cursor..cursor + 4]);
    cursor := cursor + 4;
    var reserved := DecodeU32(block[cursor..cursor + 4]);
    cursor := cursor + 4;
    var kernelTagsAddress := DecodeU32(block[cursor..cursor + 4]);
    cursor := cursor + 4;
    var pageSize := DecodeU32(block[cursor..cursor + 4]);
    cursor := cursor + 4;
    var productName := block[cursor..cursor + ProductNameSize];
    cursor := cursor + ProductNameSize;
    var bootArguments := block[cursor..cursor + BootArgumentsSize];
    cursor := cursor + BootArgumentsSize;
    var uniqueId := block[cursor..cursor + UniqueIdSize];
    h := Header(
      magic, kernelSize, kernelLoadAddress, ramdiskSize, ramdiskLoadAddress,
      secondSize, secondLoadAddress, deviceTreeSize, reserved, kernelTagsAddress,
      pageSize, productName, bootArguments, uniqueId);
  }

  /** `read_from`: reads exactly one header's worth of bytes from `source` and
      parses them; fails when the stream holds fewer than 616 bytes. */
  method ReadFrom(source: Reader) returns (r: Result<Header>)
    requires source.Valid()
    modifies source
    ensures source.Valid()
    ensures r.Ok? <==> HeaderSize <= |old(source.Remaining())|
    ensures r.Ok? ==> r.value == Decode(old(source.Remaining())[..HeaderSize])
    ensures r.Ok? ==> source.Remaining() == old(source.Remaining())[HeaderSize..]
    ensures r.Err? ==> r.error == UnexpectedEof
  {
    var buffer :- source.ReadExact(HeaderSize);
    assert buffer == old(source.Remaining())[..HeaderSize];
    var h := Parse(buffer);
    r := Ok(h);
  }

  /** The loop of `write_to` that writes the boot arguments as sixteen
      consecutive 32-byte chunks. */
  method WriteBootArguments(args: BootArguments, target: Writer) returns (r: Outcome)
    modifies target
    ensures r.Pass? <==> BootArgumentsSize <= old(target.room)
    ensures r.Pass? ==> target.written == old(target.written) + args
    ensures r.Pass? ==> target.room == old(target.room) - BootArgumentsSize
    ensures r.Fail? ==> r.error == WriteZero
  {
    var chunk := 0;
    while chunk < 16
      invariant 0 <= chunk <= 16
      invariant target.written == old(target.written) + args[..32 * chunk]
      invariant target.room == old(target.room) - 32 * chunk
    {
      var bytes := args[32 * chunk .. 32 * chunk + 32];
      r := target.WriteAll(bytes);
      if r.Fail? {
        return;
      }
      AppendAssoc(old(target.written), args[..32 * chunk], bytes);
      PrefixExtend(args, 32 * chunk, 32 * chunk + 32);
      chunk := chunk + 1;
    }
    assert args[..32 * chunk] == args;
    r := Pass;
  }

  /** `write_to`: appends the encoding of `h` to `target` field by field and
      returns the byte count. The ghost `done` is the part of the encoding
      written so far. */
  method WriteTo(h: Header, target: Writer) returns (r: Result<nat>)
    modifies target
    ensures r.Ok? <==> HeaderSize <= old(target.room)
    ensures r.Ok? ==> r.value == HeaderSize
    ensures r.Ok? ==> target.written == old(target.written) + Encode(h)
    ensures r.Ok? ==> target.room == old(target.room) - HeaderSize
    ensures r.Err? ==> r.error == WriteZero
  {
    ghost var start := target.written;
    :- target.WriteAll(h.magic);
    ghost var done := h.magic;
    :- WriteU32(target, h.kernelSize);
    AppendAssoc(start, done, EncodeU32(h.kernelSize));
    done := done + EncodeU32(h.kernelSize);
    :- WriteU32(target, h.kernelLoadAddress);
    AppendAssoc(start, done, EncodeU32(h.kernelLoadAddress));
    done := done + EncodeU32(h.kernelLoadAddress);
    :- WriteU32(target, h.ramdiskSize);
    AppendAssoc(start, done, EncodeU32(h.ramdiskSize));
    done := done + EncodeU32(h.ramdiskSize);
    :- WriteU32(target, h.ramdiskLoadAddress);
    AppendAssoc(start, done, EncodeU32(h.ramdiskLoadAddress));
    done := done + EncodeU32(h.ramdiskLoadAddress);
    :- WriteU32(target, h.secondSize);
    AppendAssoc(start, done, EncodeU32(h.secondSize));
    done := done + EncodeU32(h.secondSize);
    :- WriteU32(target, h.secondLoadAddress);
    AppendAssoc(start, done, EncodeU32(h.secondLoadAddress));
    done := done + EncodeU32(h.secondLoadAddress);
    :- WriteU32(target, h.deviceTreeSize);
    AppendAssoc(start, done, EncodeU32(h.deviceTreeSize));
    done := done + EncodeU32(h.deviceTreeSize);
    :- WriteU32(target, h.reserved);
    AppendAssoc(start, done, EncodeU32(h.reserved));
    done := done + EncodeU32(h.reserved);
    :- WriteU32(target, h.kernelTagsAddress);
    AppendAssoc(start, done, EncodeU32(h.kernelTagsAddress));
    done := done + EncodeU32(h.kernelTagsAddress);
    :- WriteU32(target, h.pageSize);
    AppendAssoc(start, done, EncodeU32(h.pageSize));
    done := done + EncodeU32(h.pageSize);
    :- target.WriteAll(h.productName);
    AppendAssoc(start, done, h.productName);
    done := done + h.productName;
    :- WriteBootArguments(h.bootArguments, target);
    AppendAssoc(start, done, h.bootArguments);
    done := done + h.bootArguments;
    :- target.WriteAll(h.uniqueId);
    AppendAssoc(start, done, h.uniqueId);
    r := Ok(HeaderSize);
  }

  /** A header written after `prefix` to a target with room for `capacity`
      more bytes, and read back from a stream over what was written once the
      prefix has been read, is the same header, field for field; the write
      fails when the target has room for less than one header. */
  method StreamRoundTrip(prefix: seq<Byte>, h: Header, capacity: nat) returns (r: Result<Header>)
    ensures r.Ok? <==> HeaderSize <= capacity
    ensures r.Ok? ==> r.value == h
  {
    var target := new Writer(|prefix| + capacity);
    var pass := target.WriteAll(prefix);
    assert target.written == prefix && target.room == capacity;
    var written :- WriteTo(h, target);
    ghost var stream := prefix + Encode(h);
    assert target.written == stream;
    var source := new Reader(target.written);
    var skipped := source.ReadExact(|prefix|);
    assert source.Remaining() == stream[|prefix|..] == Encode(h);
    r := ReadFrom(source);
    assert Encode(h)[..HeaderSize] == Encode(h);
    DecodeEncode(h);
  }

  /** The byte constant and the text constant are the same magic. */
  lemma MagicConstantsAgree()
    ensures Magic == AsciiBytes(MagicStr)
  {
  }

  /** `has_correct_magic`: the magic field equals the bytes of the text "ANDROID!",
      which are the eight bytes of `Magic`. */
  function HasCorrectMagic(h: Header): (correct: bool)
    ensures correct <==> h.magic == Magic
  {
    MagicConstantsAgree();
    h.magic == AsciiBytes(MagicStr)
  }

  /** A block decodes to a header with correct magic exactly when its first
      eight bytes are the magic, and a header has correct magic exactly when
      its encoding starts with the magic. */
  lemma MagicOnWire(b: seq<Byte>, h: Header)
    requires |b| == HeaderSize
    ensures HasCorrectMagic(Decode(b)) <==> b[..MagicSize] == Magic
    ensures HasCorrectMagic(h) <==> Encode(h)[..MagicSize] == Magic
  {
  }

  /** `Default::default`: the conventional header for building an image. */
  function Default(): (h: Header)
    ensures HasCorrectMagic(h)
    ensures h.pageSize == 2048
    ensures h.kernelSize == 0 && h.ramdiskSize == 0 && h.secondSize == 0 && h.deviceTreeSize == 0
    ensures h.kernelLoadAddress == 0x1000_8000 && h.ramdiskLoadAddress == 0x1100_0000
    ensures h.secondLoadAddress == 0x100f_0000 && h.kernelTagsAddress == 0x1000_0100
    ensures h.reserved == 0x0200_0000
    ensures forall i :: 0 <= i < ProductNameSize ==> h.productName[i] == 0
    ensures forall i :: 0 <= i < BootArgumentsSize ==> h.bootArguments[i] == 0
    ensures forall i :: 0 <= i < UniqueIdSize ==> h.uniqueId[i] == 0
  {
    MagicConstantsAgree();
    Header(
      Magic,
      0,
      0x1000_8000,
      0,
      0x1100_0000,
      0,
      0x100f_0000,
      0,
      0x0200_0000,
      0x1000_0100,
      2048,
      Zeroes(ProductNameSize),
      Zeroes(BootArgumentsSize),
      Zeroes(UniqueIdSize))
  }
}
