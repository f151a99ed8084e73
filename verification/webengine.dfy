/**
 * `_parse_from_path` and `parse_webenginecore`: find the `.rodata` section
 * of `libQt5WebEngineCore.so`, search its bytes for
 * `QtWebEngine/<version> Chrome/<version>` and return the two versions, or
 * nothing when any step fails.
 *
 * The library's bytes are a parameter: locating the file through
 * `QLibraryInfo` and the `exists()` test become an `Option` that is `None`
 * when there is no file.
 */
module WebEngine {
  import opened Bytes
  import opened Wrappers
  import opened ElfTypes
  import opened ElfIO
  import opened ElfParse
  import opened VersionPattern

  /** The two version strings found in the library. */
  datatype Versions = Versions(webengine: string, chromium: string)

  /** `s` is the text whose ASCII bytes are `b`. */
  predicate Spelt(s: string, b: seq<byte>)
  {
    |s| == |b| && forall k :: 0 <= k < |s| ==> s[k] as int == b[k]
  }

  /** `bytes.decode('ascii')`: fails on any byte from 128 on. */
  function AsciiDecode(b: seq<byte>): (r: Parsed<string>)
    ensures r.Ok? <==> forall k :: 0 <= k < |b| ==> b[k] < 128
    ensures r.Ok? ==> Spelt(r.value, b)
    ensures r.Err? ==> r.error == NotAscii
  {
    if forall k | 0 <= k < |b| :: b[k] < 128 then
      Ok(seq(|b|, k requires 0 <= k < |b| => b[k] as char))
    else
      Err(NotAscii)
  }

  /** A run of digits and dots is plain ASCII, so decoding it cannot fail. */
  lemma VersionIsAscii(v: seq<byte>)
    requires IsVersion(v)
    ensures AsciiDecode(v).Ok?
  {
    forall k | 0 <= k < |v|
      ensures v[k] < 128
    {
      assert IsVersionByte(v[k]);
    }
  }

  /**
   * `mmap.ALLOCATIONGRANULARITY` on Linux, where `libQt5WebEngineCore.so`
   * lives: the page size.
   */
  const AllocationGranularity: nat := 4096

  /**
   * When CPython's `mmap.mmap` raises `ValueError` for a regular file of
   * `fileSize` bytes: a size of 0 asks for the rest of the file, which must
   * not be empty; any other size must fit after the offset.
   */
  predicate MmapRejects(fileSize: nat, offset: nat, size: nat)
  {
    if size == 0 then offset >= fileSize else offset + size > fileSize
  }

  /**
   * The mapped `.rodata` section: the `size` bytes from `offset` on, or the
   * rest of the file from `offset` when `size` is 0. `mmap`'s `ValueError`
   * becomes `RegionOutOfRange`, and an offset that is not a multiple of the
   * allocation granularity fails in the system call, with `OSError`.
   */
  function Region(data: seq<byte>, offset: nat, size: nat): (r: Parsed<seq<byte>>)
    ensures r.Ok? <==> !MmapRejects(|data|, offset, size) && offset % AllocationGranularity == 0
    ensures r.Ok? && size > 0 ==> |r.value| == size && r.value == data[offset..offset + size]
    ensures r.Ok? && size == 0 ==> 0 < |r.value| && r.value == data[offset..]
    ensures MmapRejects(|data|, offset, size) ==> r == Err(RegionOutOfRange(offset, size))
    ensures !MmapRejects(|data|, offset, size) && r.Err? ==> r == Err(UnalignedOffset(offset))
  {
    if MmapRejects(|data|, offset, size) then Err(RegionOutOfRange(offset, size))
    else if offset % AllocationGranularity != 0 then Err(UnalignedOffset(offset))
    else if size == 0 then Ok(data[offset..])
    else Ok(data[offset..offset + size])
  }

  /** The search in the mapped section and the decoding of both groups. */
  function VersionsIn(rodata: seq<byte>): (r: Parsed<Versions>)
    ensures r.Ok? <==> Search(rodata).Some?
    ensures r.Err? ==> r.error == NoMatch
    ensures r.Ok? ==>
      && Spelt(r.value.webengine, Search(rodata).value.0)
      && Spelt(r.value.chromium, Search(rodata).value.1)
  {
    match Search(rodata)
    case None => Err(NoMatch)
    case Some(m) =>
      VersionIsAscii(m.0);
      VersionIsAscii(m.1);
      Ok(Versions(AsciiDecode(m.0).value, AsciiDecode(m.1).value))
  }

  /**
   * The part of `_parse_from_path` after `get_rodata_header` returned
   * `rodata`: map the section, search it, decode both groups.
   */
  function VersionsFromSection(data: seq<byte>, rodata: Parsed<SectionHeader>): (r: Parsed<Versions>)
    ensures rodata.Err? ==> r == Err(rodata.error)
    ensures rodata.Ok? && r.Err? ==>
      r.error == NoMatch || r.error.RegionOutOfRange? || r.error.UnalignedOffset?
    ensures r.Ok? ==>
      && rodata.Ok?
      && var region := Region(data, rodata.value.offset, rodata.value.size);
      && region.Ok?
      && r == VersionsIn(region.value)
  {
    var sh :- rodata;
    match Region(data, sh.offset, sh.size)
    case Err(e) => Err(e)
    case Ok(bytes) => VersionsIn(bytes)
  }

  /**
   * `_parse_from_path` on a library whose bytes are `data`: the file is
   * opened afresh, so `get_rodata_header` starts at offset 0.
   */
  function VersionsFrom(data: seq<byte>): Parsed<Versions>
  {
    VersionsFromSection(data, RodataHeader(data, 0))
  }

  /** The `UnicodeDecodeError` handler of `_parse_from_path` is never reached. */
  lemma VersionsFromNeverNotAscii(data: seq<byte>)
    ensures VersionsFrom(data) != Err(NotAscii)
  {
    RodataHeaderErrors(data, 0);
  }

  method ParseFromPath(contents: seq<byte>) returns (r: Parsed<Versions>)
    ensures r == VersionsFrom(contents)
  {
    var f := new BinaryFile(contents);
    var sh :- GetRodataHeader(f);
    var rodata :- Region(f.data, sh.offset, sh.size);
    var found := Search(rodata);
    if found.None? {
      return Err(NoMatch);
    }
    VersionIsAscii(found.value.0);
    VersionIsAscii(found.value.1);
    var webengine := AsciiDecode(found.value.0).value;
    var chromium := AsciiDecode(found.value.1).value;
    return Ok(Versions(webengine, chromium));
  }

  /** `parse_webenginecore`: no library, or any parse error, gives `None`. */
  function WebEngineCore(library: Option<seq<byte>>): Option<Versions>
  {
    match library
    case None => None
    case Some(data) => VersionsFrom(data).ToOption()
  }

  method ParseWebEngineCore(library: Option<seq<byte>>) returns (r: Option<Versions>)
    ensures r == WebEngineCore(library)
  {
    if library.None? {
      return None;
    }
    var parsed := ParseFromPath(library.value);
    r := parsed.ToOption();
  }

  /**
   * The versions returned are the two groups of the leftmost match of the
   * pattern in the section: the pattern spells them there, and it matches
   * nowhere before.
   */
  lemma VersionsInLeftmost(rodata: seq<byte>)
    requires VersionsIn(rodata).Ok?
    ensures exists i: nat, v1, v2 ::
      && i <= |rodata|
      && Spells(rodata, i, v1, v2)
      && Spelt(VersionsIn(rodata).value.webengine, v1)
      && Spelt(VersionsIn(rodata).value.chromium, v2)
      && forall j :: 0 <= j < i ==> !MatchesAt(rodata, j)
  {
    SearchIsLeftmost(rodata);
    var i :| 0 <= i <= |rodata| && MatchAt(rodata, i) == Search(rodata)
      && forall j :: 0 <= j < i ==> !MatchesAt(rodata, j);
    MatchAtSound(rodata, i);
    var v1, v2 := Search(rodata).value.0, Search(rodata).value.1;
    assert Spells(rodata, i, v1, v2);
  }

  /** The search fails exactly when the pattern matches nowhere in the section. */
  lemma VersionsInNoMatch(rodata: seq<byte>)
    ensures VersionsIn(rodata) == Err(NoMatch) <==> !MatchesSomewhere(rodata)
  {
    SearchNone(rodata);
  }

  /**
   * The section header was found, the section can be mapped, and the
   * pattern matches somewhere in it.
   */
  ghost predicate VersionsInSection(data: seq<byte>, rodata: Parsed<SectionHeader>)
  {
    && rodata.Ok?
    && var region := Region(data, rodata.value.offset, rodata.value.size);
    && region.Ok?
    && MatchesSomewhere(region.value)
  }

  /**
   * Extraction succeeds exactly when the section header was found, the
   * section can be mapped, and the pattern matches somewhere in it.
   */
  lemma VersionsFromSectionSucceeds(data: seq<byte>, rodata: Parsed<SectionHeader>)
    ensures VersionsFromSection(data, rodata).Ok? <==> VersionsInSection(data, rodata)
  {
    if rodata.Ok? && Region(data, rodata.value.offset, rodata.value.size).Ok? {
      var bytes := Region(data, rodata.value.offset, rodata.value.size).value;
      assert VersionsFromSection(data, rodata) == VersionsIn(bytes);
      VersionsInNoMatch(bytes);
    }
  }

  /**
   * `parse_webenginecore` returns versions exactly when there is a library,
   * its first `.rodata` section is found and can be mapped, and the pattern
   * matches somewhere in it.
   */
  lemma WebEngineCoreSucceeds(data: seq<byte>)
    ensures WebEngineCore(None) == None
    ensures WebEngineCore(Some(data)).Some? <==> VersionsInSection(data, RodataHeader(data, 0))
  {
    WebEngineCoreOf(data);
    VersionsFromSectionSucceeds(data, RodataHeader(data, 0));
  }

  lemma WebEngineCoreOf(data: seq<byte>)
    ensures WebEngineCore(Some(data)) == VersionsFromSection(data, RodataHeader(data, 0)).ToOption()
  {
  }

  /** How `parse_webenginecore` ends as written: a return value, or an exception escaping it. */
  datatype Outcome = Returned(value: Option<Versions>) | Raised

  /**
   * `_parse_from_path` as written, after `get_rodata_header` returned
   * `rodata`: `mmap` raises `ValueError`, not `OSError`, when the section
   * cannot be mapped for its offset and size, so that error is not turned
   * into a `ParseError`. An unaligned offset gives `OSError`, which is.
   */
  function ExtractAsWritten(data: seq<byte>, rodata: Parsed<SectionHeader>): (o: Outcome)
    ensures o.Raised? <==> rodata.Ok? && MmapRejects(|data|, rodata.value.offset, rodata.value.size)
  {
    match rodata
    case Err(_) => Returned(None)
    case Ok(sh) =>
      if MmapRejects(|data|, sh.offset, sh.size) then Raised
      else if sh.offset % AllocationGranularity != 0 then Returned(None)
      else if sh.size == 0 then Returned(VersionsIn(data[sh.offset..]).ToOption())
      else Returned(VersionsIn(data[sh.offset..sh.offset + sh.size]).ToOption())
  }

  /**
   * `parse_webenginecore` as written: it catches `ParseError` only, so the
   * `ValueError` escapes it.
   */
  function WebEngineCoreAsWritten(library: Option<seq<byte>>): (o: Outcome)
    ensures o.Raised? ==> library.Some?
  {
    match library
    case None => Returned(None)
    case Some(data) => ExtractAsWritten(data, RodataHeader(data, 0))
  }

  /**
   * A `.rodata` section header that `mmap` rejects, for instance one whose
   * section runs past the end of the file, makes the code as written raise,
   * where the model returns `None`.
   */
  lemma OutOfRangeRodataEscapes(data: seq<byte>)
    requires RodataHeader(data, 0).Ok?
    requires MmapRejects(|data|, RodataHeader(data, 0).value.offset, RodataHeader(data, 0).value.size)
    ensures WebEngineCoreAsWritten(Some(data)) == Raised
    ensures WebEngineCore(Some(data)) == None
  {
  }

  /**
   * The code as written and the model differ only where `mmap` raises
   * `ValueError`: the code as written lets it escape, the model reports the
   * region as out of range; on every other input they return the same.
   */
  lemma AsWrittenAgreesOtherwise(data: seq<byte>, rodata: Parsed<SectionHeader>)
    ensures ExtractAsWritten(data, rodata).Returned? ==>
      ExtractAsWritten(data, rodata).value == VersionsFromSection(data, rodata).ToOption()
    ensures ExtractAsWritten(data, rodata).Raised? ==>
      VersionsFromSection(data, rodata) == Err(RegionOutOfRange(rodata.value.offset, rodata.value.size))
  {
  }
}
