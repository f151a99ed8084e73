/**
 * Bytes and the little-endian unsigned fields that Python's `struct` module
 * decodes for the formats `<B`, `<H`, `<I` and `<Q`.
 */
module Bytes {

  /** One byte of a file, as Python's `bytes` holds it. */
  type byte = x: int | 0 <= x < 256

  function Pow256(k: nat): (p: nat)
    ensures p > 0
  {
    if k == 0 then 1 else 256 * Pow256(k - 1)
  }

  /** The unsigned integer whose little-endian encoding is `b`. */
  function LittleEndian(b: seq<byte>): (n: nat)
    ensures n < Pow256(|b|)
  {
    if b == [] then 0 else b[0] + 256 * LittleEndian(b[1..])
  }

  /** The `width`-byte little-endian encoding of `n`. */
  function LittleEndianBytes(n: nat, width: nat): (b: seq<byte>)
    requires n < Pow256(width)
    ensures |b| == width
  {
    if width == 0 then [] else [n % 256] + LittleEndianBytes(n / 256, width - 1)
  }

  /** Decoding an encoded value gives the value back. */
  lemma {:induction false} DecodeEncode(n: nat, width: nat)
    requires n < Pow256(width)
    ensures LittleEndian(LittleEndianBytes(n, width)) == n
  {
    if width > 0 {
      var b := LittleEndianBytes(n, width);
      assert b[1..] == LittleEndianBytes(n / 256, width - 1);
      DecodeEncode(n / 256, width - 1);
    }
  }

  /** Encoding a decoded field at its own width gives the bytes back: no byte is ignored. */
  lemma {:induction false} EncodeDecode(b: seq<byte>)
    ensures LittleEndianBytes(LittleEndian(b), |b|) == b
  {
    if b != [] {
      var n := LittleEndian(b);
      assert n % 256 == b[0] && n / 256 == LittleEndian(b[1..]);
      EncodeDecode(b[1..]);
    }
  }

  /**
   * A record layout is the list of byte widths of consecutive little-endian
   * unsigned fields, with no padding (the `<` prefix of a `struct` format).
   * Field `k` starts at the sum of the widths before it.
   */
  function FieldOffset(widths: seq<nat>, k: nat): nat
    requires k <= |widths|
  {
    if k == 0 then 0 else FieldOffset(widths, k - 1) + widths[k - 1]
  }

  /** The number of bytes a record of the layout takes (`struct.calcsize`). */
  function LayoutSize(widths: seq<nat>): nat
  {
    FieldOffset(widths, |widths|)
  }

  /** Dropping the first field shifts every offset by its width. */
  lemma {:induction false} FieldOffsetStep(widths: seq<nat>, k: nat)
    requires 0 < k <= |widths|
    ensures FieldOffset(widths, k) == widths[0] + FieldOffset(widths[1..], k - 1)
  {
    if k > 1 {
      FieldOffsetStep(widths, k - 1);
    }
  }

  /** Every field lies inside the record. */
  lemma {:induction false} FieldInside(widths: seq<nat>, k: nat, j: nat)
    requires k <= j <= |widths|
    ensures FieldOffset(widths, k) <= FieldOffset(widths, j)
    decreases j - k
  {
    if k < j {
      FieldInside(widths, k, j - 1);
    }
  }

  /** `struct.unpack` of a record made only of unsigned fields. */
  function Unpack(widths: seq<nat>, raw: seq<byte>): (vals: seq<nat>)
    requires |raw| == LayoutSize(widths)
    ensures |vals| == |widths|
  {
    if widths == [] then []
    else
      FieldOffsetStep(widths, |widths|);
      [LittleEndian(raw[..widths[0]])] + Unpack(widths[1..], raw[widths[0]..])
  }

  /** A slice of a slice is a slice of the whole. */
  lemma SubSlice(s: seq<byte>, a: nat, e: nat, b: nat, c: nat)
    requires a <= e <= |s| && b <= c <= e - a
    ensures s[a..e][b..c] == s[a + b..a + c]
  {
    assert forall x :: 0 <= x < c - b ==> s[a..e][b..c][x] == s[a + b + x];
  }

  /** A slice of a suffix is a slice of the whole. */
  lemma SliceOfSlice(s: seq<byte>, a: nat, b: nat, c: nat)
    requires a <= |s| && b <= c <= |s| - a
    ensures s[a..][b..c] == s[a + b..a + c]
  {
  }

  /** Field `k` of an unpacked record is the little-endian value of exactly its own bytes. */
  lemma {:induction false} UnpackField(widths: seq<nat>, raw: seq<byte>, k: nat)
    requires |raw| == LayoutSize(widths) && k < |widths|
    ensures FieldOffset(widths, k) + widths[k] <= |raw|
    ensures Unpack(widths, raw)[k] == LittleEndian(raw[FieldOffset(widths, k)..FieldOffset(widths, k) + widths[k]])
  {
    FieldInside(widths, k + 1, |widths|);
    FieldOffsetStep(widths, |widths|);
    var rest := raw[widths[0]..];
    assert |raw| == widths[0] + LayoutSize(widths[1..]);
    var vals := Unpack(widths, raw);
    if k == 0 {
      assert FieldOffset(widths, 0) == 0;
      assert raw[0..widths[0]] == raw[..widths[0]];
      assert vals[0] == LittleEndian(raw[..widths[0]]);
    } else {
      FieldOffsetStep(widths, k);
      UnpackField(widths[1..], rest, k - 1);
      var o := FieldOffset(widths[1..], k - 1);
      assert widths[1..][k - 1] == widths[k];
      SliceOfSlice(raw, widths[0], o, o + widths[k]);
      assert vals[k] == Unpack(widths[1..], rest)[k - 1];
      assert FieldOffset(widths, k) == widths[0] + o;
      assert vals[k] == LittleEndian(raw[widths[0] + o..widths[0] + o + widths[k]]);
    }
  }

  /** Each value fits the unsigned field of its width. */
  predicate FitsLayout(widths: seq<nat>, vals: seq<nat>)
  {
    |vals| == |widths| && forall k :: 0 <= k < |widths| ==> vals[k] < Pow256(widths[k])
  }

  /** `struct.pack` of the same layout: the inverse of `Unpack`. */
  function Pack(widths: seq<nat>, vals: seq<nat>): (raw: seq<byte>)
    requires FitsLayout(widths, vals)
    ensures |raw| == LayoutSize(widths)
  {
    if widths == [] then []
    else
      FieldOffsetStep(widths, |widths|);
      LittleEndianBytes(vals[0], widths[0]) + Pack(widths[1..], vals[1..])
  }

  /** Unpacking a packed record gives back its field values. */
  lemma {:induction false} UnpackPack(widths: seq<nat>, vals: seq<nat>)
    requires FitsLayout(widths, vals)
    ensures Unpack(widths, Pack(widths, vals)) == vals
  {
    if widths != [] {
      FieldOffsetStep(widths, |widths|);
      var raw := Pack(widths, vals);
      var head := LittleEndianBytes(vals[0], widths[0]);
      assert raw[..widths[0]] == head && raw[widths[0]..] == Pack(widths[1..], vals[1..]);
      DecodeEncode(vals[0], widths[0]);
      UnpackPack(widths[1..], vals[1..]);
    }
  }

  /**
   * Every unpacked value fits its field, and packing the values gives back
   * the bytes: the layout consumes every byte of the record.
   */
  lemma {:induction false} PackUnpack(widths: seq<nat>, raw: seq<byte>)
    requires |raw| == LayoutSize(widths)
    ensures FitsLayout(widths, Unpack(widths, raw))
    ensures Pack(widths, Unpack(widths, raw)) == raw
  {
    if widths != [] {
      FieldOffsetStep(widths, |widths|);
      var vals := Unpack(widths, raw);
      assert vals[1..] == Unpack(widths[1..], raw[widths[0]..]);
      EncodeDecode(raw[..widths[0]]);
      PackUnpack(widths[1..], raw[widths[0]..]);
      assert raw == raw[..widths[0]] + raw[widths[0]..];
    }
  }
}
