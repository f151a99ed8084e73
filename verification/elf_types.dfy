/**
 * The records of the ELF reader: the identification block, the main header
 * and a section header, with the byte layouts of their 32-bit and 64-bit
 * forms, and the errors the reader raises.
 */
module ElfTypes {
  import opened Bytes
  import opened Wrappers

  /** Every failure the reader raises as `ParseError`, told apart by its cause. */
  datatype ParseError =
    | ShortRead(wanted: nat, got: nat)   // `struct.unpack` given fewer bytes than the format needs
    | InvalidBitness(klass: byte)
    | InvalidEndianness(data: byte)
    | InvalidMagic(magic: seq<byte>)
    | BigEndianUnsupported
    | UnsupportedVersion(version: byte)
    | NoRodata
    | RegionOutOfRange(offset: nat, size: nat)   // `mmap`'s `ValueError`, wrapped as the corrected code does
    | UnalignedOffset(offset: nat)              // `mmap`'s `OSError` for an offset off the allocation granularity
    | NoMatch
    | NotAscii

  type Parsed<T> = Result<T, ParseError>

  datatype Bitness = X32 | X64
  datatype Endianness = Little | Big

  /** The value of each enum member (`Bitness.x32 = 1`, `Bitness.x64 = 2`). */
  function BitnessCode(b: Bitness): byte
  {
    match b
    case X32 => 1
    case X64 => 2
  }

  /** `Bitness(klass)`: the member with that value, if there is one. */
  function BitnessOf(klass: byte): (r: Option<Bitness>)
    ensures r.Some? <==> klass == 1 || klass == 2
    ensures r.Some? ==> BitnessCode(r.value) == klass
  {
    if klass == 1 then Some(X32) else if klass == 2 then Some(X64) else None
  }

  function EndiannessCode(e: Endianness): byte
  {
    match e
    case Little => 1
    case Big => 2
  }

  /** `Endianness(data)`: the member with that value, if there is one. */
  function EndiannessOf(data: byte): (r: Option<Endianness>)
    ensures r.Some? <==> data == 1 || data == 2
    ensures r.Some? ==> EndiannessCode(r.value) == data
  {
    if data == 1 then Some(Little) else if data == 2 then Some(Big) else None
  }

  datatype Ident = Ident(
    magic: seq<byte>,
    klass: Bitness,
    data: Endianness,
    version: byte,
    osabi: byte,
    abiversion: byte)

  /** Size of the identification block, format `<4sBBBBB7x`. */
  const IdentSize: nat := 16

  /** The four bytes `\x7fELF`. */
  const ElfMagic: seq<byte> := [0x7f, 0x45, 0x4c, 0x46]

  /**
   * Decodes a full identification block: the magic string, five single
   * bytes and seven padding bytes. Only the class and data bytes are
   * checked here, class first.
   */
  function IdentOf(raw: seq<byte>): (r: Parsed<Ident>)
    requires |raw| == IdentSize
    ensures r.Ok? <==> (raw[4] == 1 || raw[4] == 2) && (raw[5] == 1 || raw[5] == 2)
    ensures raw[4] != 1 && raw[4] != 2 ==> r == Err(InvalidBitness(raw[4]))
    ensures (raw[4] == 1 || raw[4] == 2) && raw[5] != 1 && raw[5] != 2 ==> r == Err(InvalidEndianness(raw[5]))
    ensures r.Ok? ==>
      && r.value.magic == raw[..4]
      && BitnessCode(r.value.klass) == raw[4]
      && EndiannessCode(r.value.data) == raw[5]
      && r.value.version == raw[6]
      && r.value.osabi == raw[7]
      && r.value.abiversion == raw[8]
  {
    match BitnessOf(raw[4])
    case None => Err(InvalidBitness(raw[4]))
    case Some(klass) =>
      match EndiannessOf(raw[5])
      case None => Err(InvalidEndianness(raw[5]))
      case Some(data) => Ok(Ident(raw[..4], klass, data, raw[6], raw[7], raw[8]))
  }

  datatype Header = Header(
    typ: nat, machine: nat, version: nat, entry: nat, phoff: nat, shoff: nat,
    flags: nat, ehsize: nat, phentsize: nat, phnum: nat, shentsize: nat,
    shnum: nat, shstrndx: nat)

  /** The main header's field widths: `<HHIQQQIHHHHHH` and `<HHIIIIIHHHHHH`. */
  function HeaderLayout(b: Bitness): (widths: seq<nat>)
    ensures |widths| == 13
    ensures LayoutSize(widths) == if b == X64 then 48 else 36
  {
    match b
    case X64 =>
      var w: seq<nat> := [2, 2, 4, 8, 8, 8, 4, 2, 2, 2, 2, 2, 2];
      assert FieldOffset(w, 7) == 36;
      assert FieldOffset(w, 13) == 48;
      w
    case X32 =>
      var w: seq<nat> := [2, 2, 4, 4, 4, 4, 4, 2, 2, 2, 2, 2, 2];
      assert FieldOffset(w, 7) == 24;
      assert FieldOffset(w, 13) == 36;
      w
  }

  /** `Header(*fields)`: the fields in declaration order. */
  function HeaderOf(f: seq<nat>): Header
    requires |f| == 13
  {
    Header(f[0], f[1], f[2], f[3], f[4], f[5], f[6], f[7], f[8], f[9], f[10], f[11], f[12])
  }

  datatype SectionHeader = SectionHeader(
    name: nat, typ: nat, flags: nat, addr: nat, offset: nat, size: nat,
    link: nat, info: nat, addralign: nat, entsize: nat)

  /** A section header's field widths: `<IIQQQQIIQQ` and `<IIIIIIIIII`. */
  function SectionLayout(b: Bitness): (widths: seq<nat>)
    ensures |widths| == 10
    ensures LayoutSize(widths) == if b == X64 then 64 else 40
  {
    match b
    case X64 =>
      var w: seq<nat> := [4, 4, 8, 8, 8, 8, 4, 4, 8, 8];
      assert FieldOffset(w, 10) == 64;
      w
    case X32 =>
      var w: seq<nat> := [4, 4, 4, 4, 4, 4, 4, 4, 4, 4];
      assert FieldOffset(w, 10) == 40;
      w
  }

  /** `SectionHeader(*fields)`: the fields in declaration order. */
  function SectionHeaderOf(f: seq<nat>): SectionHeader
    requires |f| == 10
  {
    SectionHeader(f[0], f[1], f[2], f[3], f[4], f[5], f[6], f[7], f[8], f[9])
  }
}
