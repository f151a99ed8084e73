# ELF reader of qutebrowser's QtWebEngine version detection

qutebrowser finds out which QtWebEngine and Chromium versions it runs on by
reading `libQt5WebEngineCore.so` itself. The reader in
`qutebrowser/misc/elf.py` does five things. It decodes the 16-byte ELF
identification block. It decodes the main header in the 32-bit or the
64-bit layout. It loads the section-header string table. It scans the
section-header table for the first section named `.rodata`. Last, it
searches that section for `QtWebEngine/<version> Chrome/<version>`.
`parse_webenginecore` turns every failure into `None`.

This project models that reader in Dafny:

- `Bytes` (bytes.dfy): little-endian unsigned fields and `struct`
  layouts made only of unsigned fields (`<B`, `<H`, `<I`, `<Q`). It has
  `Unpack` and its inverse `Pack`.
- `ElfTypes` (elf_types.dfy): the records (`Ident`, `Header`,
  `SectionHeader`), the `Bitness` and `Endianness` enums with their codes,
  the two layouts of each header, and `ParseError`. `ParseError` says what
  failed; the model keeps no message text.
- `ElfIO` (elf_io.dfy): the open file as a class `BinaryFile`. It holds
  the file's bytes and a cursor. `Seek` may move past the end, `Read`
  returns fewer bytes near the end and none past it, and `ReadRecord` is the
  read half of `_unpack`.
- `ElfParse` (elf_parse.dfy): `Ident.parse`, `Header.parse`,
  `SectionHeader.parse` and `get_rodata_header` as methods that read through
  the file. Each method is proved equal to a function of the file's bytes
  and the starting cursor. The section-table scan has lemmas: first match,
  not found, and which errors can occur.
- `ElfFields` (elf_fields.dfy): every decoded header field is the
  little-endian value of the bytes at its offset.
- `VersionPattern` (version_pattern.dfy): the one regular expression
  `QtWebEngine/([0-9.]+) Chrome/([0-9.]+)`, written out directly. The
  greedy, leftmost search is proved against the pattern's language.
- `WebEngine` (webengine.dfy): `_parse_from_path` and
  `parse_webenginecore`, plus the code as written for the finding below.

The library's bytes are an input. A missing library is `None`.

## Model

| member | source | states |
|---|---|---|
| `Bytes.LittleEndian` | qutebrowser/misc/elf.py:101 | an unsigned field of `width` bytes decodes to a value below 256^width |
| `Bytes.DecodeEncode` | qutebrowser/misc/elf.py:101 | decoding the `width`-byte little-endian encoding of a value gives the value back |
| `Bytes.EncodeDecode` | qutebrowser/misc/elf.py:101 | encoding a decoded field in its own width gives the same bytes back |
| `Bytes.Unpack` | qutebrowser/misc/elf.py:92-103 | `struct.unpack` of a record of exactly `calcsize` bytes gives one value per field of the format |
| `Bytes.UnpackField` | qutebrowser/misc/elf.py:101 | field `k` of an unpacked record is the little-endian value of exactly the bytes at that field's offset |
| `Bytes.UnpackPack` | qutebrowser/misc/elf.py:101 | packing values that fit their widths and unpacking gives the values back |
| `Bytes.PackUnpack` | qutebrowser/misc/elf.py:101 | unpacking any record gives values that fit, and packing them gives the record back |
| `ElfTypes.BitnessOf` | qutebrowser/misc/elf.py:80-83 | `Bitness(klass)` exists exactly for 1 and 2, and the member found has that value |
| `ElfTypes.EndiannessOf` | qutebrowser/misc/elf.py:86-89 | `Endianness(data)` exists exactly for 1 and 2, and the member found has that value |
| `ElfTypes.IdentOf` | qutebrowser/misc/elf.py:120-133 | the block decodes exactly when the class and data bytes are both 1 or 2; a bad class byte is reported before a bad data byte; the fields are the bytes at 0-3, 4, 5, 6, 7 and 8 |
| `ElfTypes.HeaderLayout` | qutebrowser/misc/elf.py:152-155 | the main header has 13 fields and takes 48 bytes in the 64-bit layout and 36 in the 32-bit layout |
| `ElfTypes.SectionLayout` | qutebrowser/misc/elf.py:182-185 | a section header has 10 fields and takes 64 bytes in the 64-bit layout and 40 in the 32-bit layout |
| `ElfIO.Chunk` | qutebrowser/misc/elf.py:217 | `read(n)` gives at most `n` bytes, the ones at the cursor; fewer only where the file ends; none past the end |
| `ElfIO.RecordAt` | qutebrowser/misc/elf.py:92-103 | a fixed-size record at `pos` succeeds exactly when `pos + size` is within the file and is then those bytes; otherwise a short-read error |
| `ElfIO.BinaryFile.constructor` | qutebrowser/misc/elf.py:238 | a freshly opened file holds its bytes with the cursor at 0 |
| `ElfIO.BinaryFile.Seek` | qutebrowser/misc/elf.py:213 | `seek` sets the cursor to the offset given, even past the end |
| `ElfIO.BinaryFile.Read` | qutebrowser/misc/elf.py:216-217 | `read` returns the chunk at the cursor and advances the cursor by its length |
| `ElfIO.ReadRecord` | qutebrowser/misc/elf.py:92-103 | `_unpack`'s read returns the record at the old cursor and advances past it, or raises on a short read |
| `ElfParse.IdentAt` | qutebrowser/misc/elf.py:120-121 | `Ident.parse` fails with a short read when fewer than 16 bytes remain; otherwise it decodes exactly the 16 bytes at the cursor |
| `ElfParse.HeaderAt` | qutebrowser/misc/elf.py:163-166 | `Header.parse` succeeds exactly when the layout's size in bytes remains, and fails only with a short read |
| `ElfParse.SectionHeaderAt` | qutebrowser/misc/elf.py:193-196 | `SectionHeader.parse` succeeds exactly when the layout's size in bytes remains, and fails only with a short read |
| `ElfParse.ParseIdent` | qutebrowser/misc/elf.py:120-133 | reading through the file gives what `IdentAt` gives at the cursor and leaves the cursor 16 bytes on |
| `ElfParse.ParseHeader` | qutebrowser/misc/elf.py:163-166 | reading through the file gives what `HeaderAt` gives at the cursor and, on success, leaves the cursor the layout's size further on |
| `ElfParse.ParseSectionHeader` | qutebrowser/misc/elf.py:193-196 | reading through the file gives what `SectionHeaderAt` gives at the cursor and, on success, leaves the cursor the layout's size further on |
| `ElfParse.UntilNul` | qutebrowser/misc/elf.py:223 | `split(b'\x00')[0]` is a prefix with no NUL in it that stops at the first NUL or at the end |
| `ElfParse.SectionName` | qutebrowser/misc/elf.py:223 | a name offset at or past the end of the table gives the empty name; otherwise the table's bytes from that offset up to the first NUL |
| `ElfParse.CheckedIdent` | qutebrowser/misc/elf.py:200-208 | errors come in this order: short read, class byte, data byte, magic, big-endian, version; a block passes exactly when the magic is `7f 45 4c 46`, the class byte is 1 or 2, the data byte is 1 and the version is 1, and it is then the decoded block |
| `ElfParse.Scan` | qutebrowser/misc/elf.py:219-227 | the loop returns only a header named `.rodata`; it fails with "No .rodata section found" or with the failure of one of the entries it visits |
| `ElfParse.ReadTables` | qutebrowser/misc/elf.py:200-217 | everything before the loop: the checked ident, the main header right after it, the string-table header at `shoff + shstrndx*shentsize`, and up to `size` bytes of the table from its offset |
| `ElfParse.GetRodataHeader` | qutebrowser/misc/elf.py:199-227 | `get_rodata_header` on the file returns what `RodataHeader` gives for the file's bytes and the starting cursor |
| `ElfParse.ScanStopsAtFirstNonOther` | qutebrowser/misc/elf.py:219-227 | the scan returns the first entry that does not both parse and carry another name |
| `ElfParse.ScanFindsFirstRodata` | qutebrowser/misc/elf.py:219-227 | a header the scan returns is an entry, and every entry before it parses and has another name |
| `ElfParse.ScanNoRodata` | qutebrowser/misc/elf.py:219-227 | the scan ends with "No .rodata section found" exactly when every entry parses with another name |
| `ElfParse.RodataHeaderIsFirstRodata` | qutebrowser/misc/elf.py:219-225 | the header returned is entry `i < shnum`, read at `shoff + i*shentsize`, named `.rodata`, and every earlier entry parses with another name |
| `ElfParse.RodataHeaderNotFound` | qutebrowser/misc/elf.py:219-227 | once the string table is loaded, "No .rodata section found" is raised exactly when all `shnum` entries parse and none is named `.rodata` |
| `ElfParse.SectionTablesLoad` | qutebrowser/misc/elf.py:200-217 | the tables load exactly when the identification block passes, the main header follows it in full, and the string-table header at `shoff + shstrndx*shentsize` is there in full; the table is then `read(size)` at that header's offset, which may be short without an error |
| `ElfParse.SectionTablesErrors` | qutebrowser/misc/elf.py:200-217 | loading the tables fails only with a short read or an identification-block error |
| `ElfParse.RodataHeaderErrors` | qutebrowser/misc/elf.py:199-227 | `get_rodata_header` raises only short reads, identification-block errors and "No .rodata section found" |
| `ElfFields.HeaderFields` | qutebrowser/misc/elf.py:137-150 | the main header's fields in declaration order, from which `Header(*fields)` rebuilds the header |
| `ElfFields.SectionFields` | qutebrowser/misc/elf.py:170-180 | a section header's fields in declaration order, from which `SectionHeader(*fields)` rebuilds it |
| `ElfFields.HeaderFieldBytes` | qutebrowser/misc/elf.py:163-166 | every field of the main header read at `pos` is the little-endian value of its bytes at its offset in the layout the class byte selects |
| `ElfFields.SectionFieldBytes` | qutebrowser/misc/elf.py:193-196 | every field of a section header read at `pos` is the little-endian value of its bytes at its offset in the layout the class byte selects |
| `ElfFields.LayoutOffsets` | qutebrowser/misc/elf.py:153-185 | `e_shoff`, `e_shentsize`, `e_shnum` and `e_shstrndx` sit at their System V ABI offsets less the 16-byte identification block, and `sh_name`, `sh_offset` and `sh_size` at theirs, with the widths of each class |
| `VersionPattern.RunEnd` | qutebrowser/misc/elf.py:251-254 | `[0-9.]+` taken greedily: every byte before the end of the run is a digit or dot, and the byte at the end is not |
| `VersionPattern.MatchAtSound` | qutebrowser/misc/elf.py:251-254 | a match found at `i` is spelled by the pattern there, and its second group is not followed by a digit or dot |
| `VersionPattern.MatchAtComplete` | qutebrowser/misc/elf.py:251-254 | wherever the pattern matches, the match is found; its first group is forced and its second extends any other choice |
| `VersionPattern.MatchAtExact` | qutebrowser/misc/elf.py:251-254 | a match is found at `i` exactly when the pattern matches at `i` |
| `VersionPattern.SearchFrom` | qutebrowser/misc/elf.py:251-254 | both groups found are non-empty runs of digits and dots |
| `VersionPattern.SearchFindsFirstMatchAt` | qutebrowser/misc/elf.py:251-254 | a search result is the match at some `i`, with no match found before `i` |
| `VersionPattern.SearchIsLeftmost` | qutebrowser/misc/elf.py:251-254 | a search result is the match at some `i`, and the pattern matches nowhere before `i` |
| `VersionPattern.SearchFromNone` | qutebrowser/misc/elf.py:251-256 | the search from `lo` finds nothing exactly when no match is found at any position from `lo` on |
| `VersionPattern.SearchNone` | qutebrowser/misc/elf.py:251-256 | the search finds nothing exactly when the pattern matches nowhere |
| `VersionPattern.SearchExample` | qutebrowser/misc/elf.py:251-254 | in `\0QtWebEngine/87.0 Chrome/87.0\0` the search returns `87.0` twice |
| `WebEngine.AsciiDecode` | qutebrowser/misc/elf.py:258-264 | `decode('ascii')` succeeds exactly when every byte is below 128 and spells the bytes; otherwise it gives the decode error |
| `WebEngine.VersionIsAscii` | qutebrowser/misc/elf.py:258-264 | a run of digits and dots always decodes |
| `WebEngine.Region` | qutebrowser/misc/elf.py:241-249 | `mmap` maps the `size` bytes from `offset` on, or the rest of the file when `size` is 0. It fails exactly when CPython raises `ValueError` (the section runs past the end, or a size of 0 with the offset at or past the end) or when the offset is not a multiple of the allocation granularity (`OSError`) |
| `WebEngine.VersionsIn` | qutebrowser/misc/elf.py:251-264 | versions are returned exactly when the search finds a match, and they spell its two groups; otherwise "No match in .rodata" |
| `WebEngine.VersionsFromSection` | qutebrowser/misc/elf.py:237-264 | an error of `get_rodata_header` passes through unchanged; after it only a mapping error or no match can occur; a result comes from the region that `mmap` maps for the header |
| `WebEngine.VersionsFromNeverNotAscii` | qutebrowser/misc/elf.py:258-264 | `_parse_from_path` never fails with a decode error |
| `WebEngine.ParseFromPath` | qutebrowser/misc/elf.py:237-264 | opening the file and running the steps gives what `VersionsFrom` gives for its bytes |
| `WebEngine.ParseWebEngineCore` | qutebrowser/misc/elf.py:267-277 | no library gives `None`, and every parse error becomes `None` |
| `WebEngine.VersionsInLeftmost` | qutebrowser/misc/elf.py:251-261 | the versions returned spell the two groups of a match at some `i`, and the pattern matches nowhere before `i` |
| `WebEngine.VersionsInNoMatch` | qutebrowser/misc/elf.py:251-256 | "No match in .rodata" exactly when the pattern matches nowhere in the section |
| `WebEngine.VersionsFromSectionSucceeds` | qutebrowser/misc/elf.py:237-264 | extraction succeeds exactly when the header was found, the section can be mapped, and the pattern matches in it |
| `WebEngine.WebEngineCoreSucceeds` | qutebrowser/misc/elf.py:267-277 | versions come back exactly when the library exists, its first `.rodata` is found and can be mapped, and the pattern matches in it |
| `WebEngine.ExtractAsWritten` | qutebrowser/misc/elf.py:241-249 | as written, an exception that is not a `ParseError` is raised exactly when `mmap` raises `ValueError` for the section's offset and size |
| `WebEngine.WebEngineCoreAsWritten` | qutebrowser/misc/elf.py:267-277 | as written, an exception escapes only when there is a library |
| `WebEngine.OutOfRangeRodataEscapes` | qutebrowser/misc/elf.py:241-249 | a `.rodata` header that `mmap` rejects with `ValueError`, such as one past the end of the file, makes the code as written raise, where the model returns `None` |
| `WebEngine.AsWrittenAgreesOtherwise` | qutebrowser/misc/elf.py:241-249 | when the code as written returns, it returns what the model returns; when it raises, the model reports the region as out of range |

## Left out

- `ElfParse.HeaderAt`: its contract gives only when it succeeds. The decoded
  values are stated field by field by `ElfFields.HeaderFieldBytes`.
- `ElfParse.SectionHeaderAt`: its contract gives only when it succeeds. The
  decoded values are stated field by field by `ElfFields.SectionFieldBytes`.
- `WebEngine.Region`: the allocation granularity is fixed at 4096, the page
  size on most Linux systems. Some platforms use 16 KiB or 64 KiB pages.
  A section size too large for `Py_ssize_t` (`OverflowError`) is not
  modelled.
- I/O errors: `OSError` from `read` (elf.py:97-98), from `open`, and from
  the `exists()` test. The file is a byte sequence that never fails to
  read.
- `seek` to an offset beyond what the platform accepts (`OverflowError`), and
  `read` of a size that cannot be allocated (`MemoryError`). The model's
  integers are unbounded and these exceptions are not raised.
- Locating the library through `QLibraryInfo.location` and the `exists()`
  test (elf.py:268-271). They become the `Option` given to
  `ParseWebEngineCore`.
- Logging of the parse error (elf.py:276).
- Error message texts. `ParseError` carries the cause as a datatype instead.
- A general regular-expression engine. Only the one fixed pattern is
  modelled.
- The commented-out `_SIZES` constants (elf.py:158-161, 188-191). Sizes are
  derived from the format strings. The 32-bit main header is 36 bytes, not
  the 0x18 of the comment.
- `scripts/importer.py` is not part of this model. It does command-line
  handling, HTML parsing through an external library, and printing.

## Findings

| source | as written | input that shows it | evidently intended | confidence | as-written member | corrected member |
|---|---|---|---|---|---|---|
| qutebrowser/misc/elf.py:241-249 | only `OSError` from `mmap.mmap` becomes a `ParseError`. When `offset + size` is past the end of the file, CPython's `mmap` raises `ValueError` ("mmap length is greater than file size"). It also raises `ValueError` when the size is 0 and the offset is at or past the end. `parse_webenginecore` catches only `ParseError` (elf.py:273-277), so the `ValueError` escapes | a library whose first section named `.rodata` has `sh_offset + sh_size` greater than the file length, e.g. a truncated file | every failure to read the library gives `None` | medium; not executed | `WebEngine.WebEngineCoreAsWritten` | `WebEngine.ParseWebEngineCore` |

`WebEngine.OutOfRangeRodataEscapes` shows that on such a file the code as
written raises while the model returns `None`.
`WebEngine.AsWrittenAgreesOtherwise` shows that the two return the same on
every input where `mmap` does not raise `ValueError`.
