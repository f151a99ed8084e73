/**
 * Field by field: every field `Header.parse` and `SectionHeader.parse`
 * return is the little-endian value of the bytes at that field's offset in
 * the layout the class byte selects.
 */
module ElfFields {
  import opened Bytes
  import opened Wrappers
  import opened ElfTypes
  import opened ElfIO
  import opened ElfParse

  /** The main header's fields in declaration order. */
  function HeaderFields(h: Header): (f: seq<nat>)
    ensures |f| == 13 && HeaderOf(f) == h
  {
    [h.typ, h.machine, h.version, h.entry, h.phoff, h.shoff, h.flags,
     h.ehsize, h.phentsize, h.phnum, h.shentsize, h.shnum, h.shstrndx]
  }

  /** A section header's fields in declaration order. */
  function SectionFields(s: SectionHeader): (f: seq<nat>)
    ensures |f| == 10 && SectionHeaderOf(f) == s
  {
    [s.name, s.typ, s.flags, s.addr, s.offset, s.size, s.link, s.info, s.addralign, s.entsize]
  }

  lemma HeaderFieldsOf(f: seq<nat>)
    requires |f| == 13
    ensures HeaderFields(HeaderOf(f)) == f
  {
  }

  lemma SectionFieldsOf(f: seq<nat>)
    requires |f| == 10
    ensures SectionFields(SectionHeaderOf(f)) == f
  {
  }

  /**
   * Field `k` of `fields` is the little-endian value of the bytes of `data`
   * at that field's offset, from `pos`, in layout `w`.
   */
  predicate FieldIsBytes(fields: seq<nat>, data: seq<byte>, pos: nat, w: seq<nat>, k: nat)
  {
    && k < |fields| && k < |w|
    && pos + FieldOffset(w, k) + w[k] <= |data|
    && fields[k] == LittleEndian(data[pos + FieldOffset(w, k)..pos + FieldOffset(w, k) + w[k]])
  }

  /** Field `k` of the main header read at `pos` is the value of its bytes. */
  lemma HeaderFieldBytes(data: seq<byte>, pos: nat, klass: Bitness, k: nat)
    requires HeaderAt(data, pos, klass).Ok? && k < 13
    ensures FieldIsBytes(HeaderFields(HeaderAt(data, pos, klass).value), data, pos, HeaderLayout(klass), k)
  {
    var w := HeaderLayout(klass);
    var u := Unpack(w, data[pos..pos + LayoutSize(w)]);
    RecordFieldBytes(data, pos, w, k);
    assert FieldIsBytes(u, data, pos, w, k);
    HeaderAtValue(data, pos, klass);
    HeaderFieldsOf(u);
  }

  /** Field `k` of the section header read at `pos` is the value of its bytes. */
  lemma SectionFieldBytes(data: seq<byte>, pos: nat, klass: Bitness, k: nat)
    requires SectionHeaderAt(data, pos, klass).Ok? && k < 10
    ensures FieldIsBytes(SectionFields(SectionHeaderAt(data, pos, klass).value), data, pos, SectionLayout(klass), k)
  {
    var w := SectionLayout(klass);
    var u := Unpack(w, data[pos..pos + LayoutSize(w)]);
    RecordFieldBytes(data, pos, w, k);
    assert FieldIsBytes(u, data, pos, w, k);
    SectionHeaderAtValue(data, pos, klass);
    SectionFieldsOf(u);
  }

  lemma HeaderAtValue(data: seq<byte>, pos: nat, klass: Bitness)
    requires HeaderAt(data, pos, klass).Ok?
    ensures HeaderAt(data, pos, klass).value ==
      HeaderOf(Unpack(HeaderLayout(klass), data[pos..pos + LayoutSize(HeaderLayout(klass))]))
  {
  }

  lemma SectionHeaderAtValue(data: seq<byte>, pos: nat, klass: Bitness)
    requires SectionHeaderAt(data, pos, klass).Ok?
    ensures SectionHeaderAt(data, pos, klass).value ==
      SectionHeaderOf(Unpack(SectionLayout(klass), data[pos..pos + LayoutSize(SectionLayout(klass))]))
  {
  }

  /** Field `k` of a record unpacked from `pos` is the value of its bytes in the file. */
  lemma RecordFieldBytes(data: seq<byte>, pos: nat, w: seq<nat>, k: nat)
    requires pos + LayoutSize(w) <= |data| && k < |w|
    ensures pos + FieldOffset(w, k) + w[k] <= |data|
    ensures Unpack(w, data[pos..pos + LayoutSize(w)])[k] == LittleEndian(data[pos + FieldOffset(w, k)..pos + FieldOffset(w, k) + w[k]])
  {
    var raw := data[pos..pos + LayoutSize(w)];
    UnpackField(w, raw, k);
    FieldInside(w, k + 1, |w|);
    var o := FieldOffset(w, k);
    SubSlice(data, pos, pos + LayoutSize(w), o, o + w[k]);
    assert raw[o..o + w[k]] == data[pos + o..pos + o + w[k]];
    assert Unpack(w, raw)[k] == LittleEndian(data[pos + o..pos + o + w[k]]);
  }

  /**
   * Where the fields the reader uses sit, counted from the end of the
   * identification block: `e_shoff`, `e_shentsize`, `e_shnum` and
   * `e_shstrndx` of the main header, `sh_name`, `sh_offset` and `sh_size` of
   * a section header.
   */
  lemma LayoutOffsets()
    ensures var h64, h32 := HeaderLayout(X64), HeaderLayout(X32);
      && FieldOffset(h64, 5) == 24 && h64[5] == 8
      && FieldOffset(h64, 10) == 42 && FieldOffset(h64, 11) == 44 && FieldOffset(h64, 12) == 46
      && FieldOffset(h32, 5) == 16 && h32[5] == 4
      && FieldOffset(h32, 10) == 30 && FieldOffset(h32, 11) == 32 && FieldOffset(h32, 12) == 34
    ensures var s64, s32 := SectionLayout(X64), SectionLayout(X32);
      && FieldOffset(s64, 0) == 0 && FieldOffset(s64, 4) == 24 && FieldOffset(s64, 5) == 32 && s64[5] == 8
      && FieldOffset(s32, 0) == 0 && FieldOffset(s32, 4) == 16 && FieldOffset(s32, 5) == 20 && s32[5] == 4
  {
  }
}
