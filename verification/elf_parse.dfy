/**
 * `get_rodata_header`: reads the identification block and the main header,
 * loads the section-header string table and scans the section-header
 * table for the first section named `.rodata`.
 *
 * Each method reads through a `BinaryFile` and is proved to return what a
 * function of the file's bytes and the starting cursor returns; the
 * properties of the reader are proved about those functions.
 */
module ElfParse {
  import opened Bytes
  import opened Wrappers
  import opened ElfTypes
  import opened ElfIO

  /** `Ident.parse` with the cursor at `pos`: the block is exactly the 16 bytes there. */
  function IdentAt(data: seq<byte>, pos: nat): (r: Parsed<Ident>)
    ensures pos + IdentSize > |data| ==> r.Err? && r.error.ShortRead? && r.error.wanted == IdentSize
    ensures pos + IdentSize <= |data| ==> r == IdentOf(data[pos..pos + IdentSize])
  {
    var raw :- RecordAt(data, pos, IdentSize);
    IdentOf(raw)
  }

  /** `Header.parse` with the cursor at `pos`, in the layout of `klass`. */
  function HeaderAt(data: seq<byte>, pos: nat, klass: Bitness): (r: Parsed<Header>)
    ensures r.Ok? <==> pos + LayoutSize(HeaderLayout(klass)) <= |data|
    ensures r.Err? ==> r.error.ShortRead?
  {
    var raw :- RecordAt(data, pos, LayoutSize(HeaderLayout(klass)));
    Ok(HeaderOf(Unpack(HeaderLayout(klass), raw)))
  }

  /** `SectionHeader.parse` with the cursor at `pos`, in the layout of `klass`. */
  function SectionHeaderAt(data: seq<byte>, pos: nat, klass: Bitness): (r: Parsed<SectionHeader>)
    ensures r.Ok? <==> pos + LayoutSize(SectionLayout(klass)) <= |data|
    ensures r.Err? ==> r.error.ShortRead?
  {
    var raw :- RecordAt(data, pos, LayoutSize(SectionLayout(klass)));
    Ok(SectionHeaderOf(Unpack(SectionLayout(klass), raw)))
  }

  method ParseIdent(f: BinaryFile) returns (r: Parsed<Ident>)
    modifies f
    ensures r == IdentAt(f.data, old(f.pos))
    ensures r.Ok? ==> f.pos == old(f.pos) + IdentSize
  {
    var raw :- ReadRecord(f, IdentSize);
    r := IdentOf(raw);
  }

  method ParseHeader(f: BinaryFile, klass: Bitness) returns (r: Parsed<Header>)
    modifies f
    ensures r == HeaderAt(f.data, old(f.pos), klass)
    ensures r.Ok? ==> f.pos == old(f.pos) + LayoutSize(HeaderLayout(klass))
  {
    var raw :- ReadRecord(f, LayoutSize(HeaderLayout(klass)));
    r := Ok(HeaderOf(Unpack(HeaderLayout(klass), raw)));
  }

  method ParseSectionHeader(f: BinaryFile, klass: Bitness) returns (r: Parsed<SectionHeader>)
    modifies f
    ensures r == SectionHeaderAt(f.data, old(f.pos), klass)
    ensures r.Ok? ==> f.pos == old(f.pos) + LayoutSize(SectionLayout(klass))
  {
    var raw :- ReadRecord(f, LayoutSize(SectionLayout(klass)));
    r := Ok(SectionHeaderOf(Unpack(SectionLayout(klass), raw)));
  }

  /** The bytes of `s` before its first NUL, or all of `s` if it has none. */
  function UntilNul(s: seq<byte>): (r: seq<byte>)
    ensures |r| <= |s| && r == s[..|r|]
    ensures forall i :: 0 <= i < |r| ==> r[i] != 0
    ensures |r| < |s| ==> s[|r|] == 0
  {
    if s == [] || s[0] == 0 then [] else [s[0]] + UntilNul(s[1..])
  }

  /**
   * `string_table[name:].split(b'\x00')[0]`: the name starting at offset
   * `name` of the table, up to the first NUL or the end of the table.
   */
  function SectionName(table: seq<byte>, name: nat): (r: seq<byte>)
    ensures name >= |table| ==> r == []
    ensures name < |table| ==> name + |r| <= |table| && r == table[name..name + |r|]
    ensures forall i :: 0 <= i < |r| ==> r[i] != 0
    ensures name + |r| < |table| ==> table[name + |r|] == 0
  {
    UntilNul(if name <= |table| then table[name..] else [])
  }

  /** The name `.rodata`. */
  const Rodata: seq<byte> := [0x2e, 0x72, 0x6f, 0x64, 0x61, 0x74, 0x61]

  /** Where entry `i` of the section-header table starts. */
  function EntryOffset(h: Header, i: nat): nat
  {
    h.shoff + i * h.shentsize
  }

  /**
   * The identification block at `start`, accepted by `get_rodata_header`
   * only with the ELF magic, little-endian data and version 1, checked in
   * that order after `Ident.parse`'s own checks of the class and data bytes.
   */
  function CheckedIdent(data: seq<byte>, start: nat): (r: Parsed<Ident>)
    ensures start + IdentSize > |data| ==> r.Err? && r.error.ShortRead? && r.error.wanted == IdentSize
    ensures start + IdentSize <= |data| ==>
      var id := data[start..start + IdentSize];
      var goodClass := id[4] == 1 || id[4] == 2;
      && (!goodClass ==> r == Err(InvalidBitness(id[4])))
      && (goodClass && id[5] != 1 && id[5] != 2 ==> r == Err(InvalidEndianness(id[5])))
      && (goodClass && (id[5] == 1 || id[5] == 2) && id[..4] != ElfMagic ==> r == Err(InvalidMagic(id[..4])))
      && (goodClass && id[..4] == ElfMagic && id[5] == 2 ==> r == Err(BigEndianUnsupported))
      && (goodClass && id[..4] == ElfMagic && id[5] == 1 && id[6] != 1 ==> r == Err(UnsupportedVersion(id[6])))
    ensures r.Ok? ==>
      && start + IdentSize <= |data|
      && data[start..start + 4] == ElfMagic
      && BitnessCode(r.value.klass) == data[start + 4]
      && data[start + 5] == 1
      && data[start + 6] == 1
    ensures
      && start + IdentSize <= |data|
      && data[start..start + 4] == ElfMagic
      && (data[start + 4] == 1 || data[start + 4] == 2)
      && data[start + 5] == 1
      && data[start + 6] == 1
      ==> r.Ok? && r == IdentAt(data, start)
  {
    var ident :- IdentAt(data, start);
    if ident.magic != ElfMagic then Err(InvalidMagic(ident.magic))
    else if ident.data != Little then Err(BigEndianUnsupported)
    else if ident.version != 1 then Err(UnsupportedVersion(ident.version))
    else Ok(ident)
  }

  /** What the reader knows once the string table is loaded. */
  datatype Tables = Tables(klass: Bitness, header: Header, strtab: seq<byte>)

  /**
   * Everything `get_rodata_header` does before its loop: check the
   * identification block, decode the main header right after it in the
   * layout its class byte selects, then read the string-table section's
   * header and, from its offset, up to its size in bytes (fewer where the
   * file ends, none past it).
   */
  function SectionTables(data: seq<byte>, start: nat): Parsed<Tables>
  {
    var ident :- CheckedIdent(data, start);
    var header :- HeaderAt(data, start + IdentSize, ident.klass);
    var shstr :- SectionHeaderAt(data, EntryOffset(header, header.shstrndx), ident.klass);
    Ok(Tables(ident.klass, header, Chunk(data, shstr.offset, shstr.size)))
  }

  /**
   * The tables load exactly when the identification block passes its
   * checks, the main header follows it in full, and the string table's
   * section header at `shoff + shstrndx * shentsize` is there in full; the
   * string table is then what `read(size)` gives at that header's offset,
   * which may be short or empty without an error.
   */
  lemma SectionTablesLoad(data: seq<byte>, start: nat)
    ensures SectionTables(data, start).Ok? <==>
      && CheckedIdent(data, start).Ok?
      && var klass := CheckedIdent(data, start).value.klass;
      && HeaderAt(data, start + IdentSize, klass).Ok?
      && var h := HeaderAt(data, start + IdentSize, klass).value;
      && SectionHeaderAt(data, EntryOffset(h, h.shstrndx), klass).Ok?
    ensures SectionTables(data, start).Ok? ==>
      var klass := CheckedIdent(data, start).value.klass;
      var h := HeaderAt(data, start + IdentSize, klass).value;
      var shstr := SectionHeaderAt(data, EntryOffset(h, h.shstrndx), klass).value;
      && SectionTables(data, start).value.klass == klass
      && SectionTables(data, start).value.header == h
      && SectionTables(data, start).value.strtab == Chunk(data, shstr.offset, shstr.size)
  {
  }

  /**
   * The section-header table: for each of its `shnum` entries, what
   * `SectionHeader.parse` gives at `shoff + i * shentsize`.
   */
  function SectionEntries(data: seq<byte>, klass: Bitness, h: Header): seq<Parsed<SectionHeader>>
  {
    seq(h.shnum, i requires 0 <= i < h.shnum => SectionHeaderAt(data, EntryOffset(h, i), klass))
  }

  /** An entry that parses and is named something other than `.rodata`. */
  predicate IsOtherSection(e: Parsed<SectionHeader>, table: seq<byte>)
  {
    e.Ok? && SectionName(table, e.value.name) != Rodata
  }

  /** The loop of `get_rodata_header`, from entry `i` on. */
  function Scan(entries: seq<Parsed<SectionHeader>>, table: seq<byte>, i: nat): (r: Parsed<SectionHeader>)
    requires i <= |entries|
    ensures r.Ok? ==> SectionName(table, r.value.name) == Rodata
    ensures r.Err? ==> r.error == NoRodata || exists j :: i <= j < |entries| && entries[j] == r
    decreases |entries| - i
  {
    if i == |entries| then Err(NoRodata)
    else
      var sh :- entries[i];
      if SectionName(table, sh.name) == Rodata then Ok(sh)
      else Scan(entries, table, i + 1)
  }

  /**
   * The loop of `get_rodata_header` over the tables it loaded, or the error
   * it raised while loading them.
   */
  function RodataIn(data: seq<byte>, tables: Parsed<Tables>): Parsed<SectionHeader>
  {
    var t :- tables;
    Scan(SectionEntries(data, t.klass, t.header), t.strtab, 0)
  }

  /** `get_rodata_header` on a file whose cursor starts at `start`. */
  function RodataHeader(data: seq<byte>, start: nat): Parsed<SectionHeader>
  {
    RodataIn(data, SectionTables(data, start))
  }

  /** The part of `get_rodata_header` before its loop. */
  method ReadTables(f: BinaryFile) returns (r: Parsed<Tables>)
    modifies f
    ensures r == SectionTables(f.data, old(f.pos))
  {
    ghost var start := f.pos;
    var ident :- ParseIdent(f);
    if ident.magic != ElfMagic {
      return Err(InvalidMagic(ident.magic));
    }
    if ident.data != Little {
      return Err(BigEndianUnsupported);
    }
    if ident.version != 1 {
      return Err(UnsupportedVersion(ident.version));
    }
    var header :- ParseHeader(f, ident.klass);

    f.Seek(EntryOffset(header, header.shstrndx));
    var shstr :- ParseSectionHeader(f, ident.klass);
    f.Seek(shstr.offset);
    var table := f.Read(shstr.size);
    return Ok(Tables(ident.klass, header, table));
  }

  method GetRodataHeader(f: BinaryFile) returns (r: Parsed<SectionHeader>)
    modifies f
    ensures r == RodataHeader(f.data, old(f.pos))
  {
    var t :- ReadTables(f);
    var header, table := t.header, t.strtab;
    ghost var entries := SectionEntries(f.data, t.klass, header);
    var i := 0;
    while i < header.shnum
      invariant i <= header.shnum
      invariant Scan(entries, table, i) == RodataIn(f.data, Ok(t))
      decreases header.shnum - i
    {
      f.Seek(EntryOffset(header, i));
      var sh :- ParseSectionHeader(f, t.klass);
      if SectionName(table, sh.name) == Rodata {
        return Ok(sh);
      }
      i := i + 1;
    }
    return Err(NoRodata);
  }

  /**
   * The scan returns the first entry from `lo` on that is not another
   * section: the first one named `.rodata`, or the first one too short to
   * parse.
   */
  lemma {:induction false} ScanStopsAtFirstNonOther(
    entries: seq<Parsed<SectionHeader>>, table: seq<byte>, lo: nat, i: nat)
    requires lo <= i < |entries|
    requires forall j :: lo <= j < i ==> IsOtherSection(entries[j], table)
    requires !IsOtherSection(entries[i], table)
    ensures Scan(entries, table, lo) == entries[i]
    decreases i - lo
  {
    if lo < i {
      assert IsOtherSection(entries[lo], table);
      ScanStopsAtFirstNonOther(entries, table, lo + 1, i);
    }
  }

  /**
   * A header the scan returns is an entry named `.rodata` and every entry
   * before it is another section.
   */
  lemma {:induction false} ScanFindsFirstRodata(entries: seq<Parsed<SectionHeader>>, table: seq<byte>, lo: nat)
    requires lo <= |entries|
    requires Scan(entries, table, lo).Ok?
    ensures exists i ::
      && lo <= i < |entries|
      && entries[i] == Scan(entries, table, lo)
      && (forall j :: lo <= j < i ==> IsOtherSection(entries[j], table))
    decreases |entries| - lo
  {
    if !IsOtherSection(entries[lo], table) {
      assert entries[lo] == Scan(entries, table, lo);
    } else {
      ScanFindsFirstRodata(entries, table, lo + 1);
      var i :| lo + 1 <= i < |entries|
        && entries[i] == Scan(entries, table, lo + 1)
        && (forall j :: lo + 1 <= j < i ==> IsOtherSection(entries[j], table));
      assert forall j :: lo <= j < i ==> IsOtherSection(entries[j], table);
    }
  }

  /**
   * When no entry fails with "No .rodata section found" itself, the scan
   * does so exactly when every entry from `lo` on parses and none is
   * named `.rodata`.
   */
  lemma {:induction false} ScanNoRodata(entries: seq<Parsed<SectionHeader>>, table: seq<byte>, lo: nat)
    requires lo <= |entries|
    requires forall j :: lo <= j < |entries| ==> entries[j] != Err(NoRodata)
    ensures Scan(entries, table, lo) == Err(NoRodata)
        <==> forall j :: lo <= j < |entries| ==> IsOtherSection(entries[j], table)
    decreases |entries| - lo
  {
    if lo < |entries| {
      ScanNoRodata(entries, table, lo + 1);
      if IsOtherSection(entries[lo], table) {
        assert Scan(entries, table, lo) == Scan(entries, table, lo + 1);
        assert (forall j :: lo <= j < |entries| ==> IsOtherSection(entries[j], table))
          <==> (forall j :: lo + 1 <= j < |entries| ==> IsOtherSection(entries[j], table));
      }
    }
  }

  /** Entry `j` of the section-header table is the section header parsed at its offset. */
  lemma EntryAt(data: seq<byte>, t: Tables, j: nat)
    requires j < t.header.shnum
    ensures |SectionEntries(data, t.klass, t.header)| == t.header.shnum
    ensures SectionEntries(data, t.klass, t.header)[j] == SectionHeaderAt(data, EntryOffset(t.header, j), t.klass)
  {
  }

  /** `RodataHeaderIsFirstRodata` over the loaded tables `t`. */
  lemma RodataInIsFirstRodata(data: seq<byte>, t: Tables)
    requires RodataIn(data, Ok(t)).Ok?
    ensures SectionName(t.strtab, RodataIn(data, Ok(t)).value.name) == Rodata
    ensures exists i ::
      && 0 <= i < t.header.shnum
      && SectionHeaderAt(data, EntryOffset(t.header, i), t.klass) == RodataIn(data, Ok(t))
      && forall j :: 0 <= j < i ==>
           IsOtherSection(SectionHeaderAt(data, EntryOffset(t.header, j), t.klass), t.strtab)
  {
    var entries := SectionEntries(data, t.klass, t.header);
    ScanFindsFirstRodata(entries, t.strtab, 0);
    var i :| 0 <= i < |entries| && entries[i] == Scan(entries, t.strtab, 0)
      && (forall j :: 0 <= j < i ==> IsOtherSection(entries[j], t.strtab));
    EntryAt(data, t, i);
    forall j | 0 <= j < i
      ensures IsOtherSection(SectionHeaderAt(data, EntryOffset(t.header, j), t.klass), t.strtab)
    {
      EntryAt(data, t, j);
    }
  }

  /**
   * In terms of the file: a header `get_rodata_header` returns is entry `i`
   * of the section-header table for some `i < shnum`, it is named
   * `.rodata`, and every entry before it parses and has another name.
   */
  lemma RodataHeaderIsFirstRodata(data: seq<byte>, start: nat)
    requires RodataHeader(data, start).Ok?
    ensures SectionTables(data, start).Ok?
    ensures var t := SectionTables(data, start).value;
      && SectionName(t.strtab, RodataHeader(data, start).value.name) == Rodata
      && exists i ::
        && 0 <= i < t.header.shnum
        && SectionHeaderAt(data, EntryOffset(t.header, i), t.klass) == RodataHeader(data, start)
        && forall j :: 0 <= j < i ==>
             IsOtherSection(SectionHeaderAt(data, EntryOffset(t.header, j), t.klass), t.strtab)
  {
    RodataInIsFirstRodata(data, SectionTables(data, start).value);
  }

  /** `RodataHeaderNotFound` over the loaded tables `t`. */
  lemma RodataInNotFound(data: seq<byte>, t: Tables)
    ensures (RodataIn(data, Ok(t)) == Err(NoRodata)) <==>
      forall j :: 0 <= j < t.header.shnum ==>
        IsOtherSection(SectionHeaderAt(data, EntryOffset(t.header, j), t.klass), t.strtab)
  {
    var entries := SectionEntries(data, t.klass, t.header);
    forall j | 0 <= j < |entries|
      ensures entries[j] == SectionHeaderAt(data, EntryOffset(t.header, j), t.klass)
      ensures entries[j] != Err(NoRodata)
    {
      EntryAt(data, t, j);
      var e := SectionHeaderAt(data, EntryOffset(t.header, j), t.klass);
      assert e.Err? ==> e.error.ShortRead?;
    }
    ScanNoRodata(entries, t.strtab, 0);
  }

  /**
   * Once the string table is loaded, `get_rodata_header` raises "No .rodata
   * section found" exactly when all `shnum` entries parse and none of them
   * is named `.rodata`.
   */
  lemma RodataHeaderNotFound(data: seq<byte>, start: nat)
    requires SectionTables(data, start).Ok?
    ensures var t := SectionTables(data, start).value;
      (RodataHeader(data, start) == Err(NoRodata)) <==>
        forall j :: 0 <= j < t.header.shnum ==>
          IsOtherSection(SectionHeaderAt(data, EntryOffset(t.header, j), t.klass), t.strtab)
  {
    RodataInNotFound(data, SectionTables(data, start).value);
  }

  /** The errors `get_rodata_header` raises. */
  predicate ReaderError(e: ParseError)
  {
    || e.ShortRead? || e.InvalidBitness? || e.InvalidEndianness? || e.InvalidMagic?
    || e.BigEndianUnsupported? || e.UnsupportedVersion? || e.NoRodata?
  }

  /** Loading the tables fails only with a short read or an error in the identification block. */
  lemma SectionTablesErrors(data: seq<byte>, start: nat)
    ensures SectionTables(data, start).Err? ==>
      ReaderError(SectionTables(data, start).error) && SectionTables(data, start).error != NoRodata
  {
  }

  /** The scan fails only with a short read of an entry or with "No .rodata section found". */
  lemma RodataInErrors(data: seq<byte>, tables: Parsed<Tables>)
    requires tables.Err? ==> ReaderError(tables.error)
    ensures RodataIn(data, tables).Err? ==> ReaderError(RodataIn(data, tables).error)
  {
    if tables.Ok? {
      var t := tables.value;
      var entries := SectionEntries(data, t.klass, t.header);
      var r := Scan(entries, t.strtab, 0);
      if r.Err? && r.error != NoRodata {
        var j :| 0 <= j < |entries| && entries[j] == r;
        EntryAt(data, t, j);
      }
    }
  }

  /** `get_rodata_header` raises only the reader's own errors. */
  lemma RodataHeaderErrors(data: seq<byte>, start: nat)
    ensures RodataHeader(data, start).Err? ==> ReaderError(RodataHeader(data, start).error)
  {
    SectionTablesErrors(data, start);
    RodataInErrors(data, SectionTables(data, start));
  }
}
