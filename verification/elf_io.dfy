/**
 * The binary file object the reader works through: the file's bytes and a
 * cursor that `seek` sets and `read` advances.
 */
module ElfIO {
  import opened Bytes
  import opened Wrappers
  import opened ElfTypes

  /**
   * What `read(n)` returns with the cursor at `pos`: the bytes from `pos`
   * on, at most `n` of them, fewer only where the file ends, none past it.
   */
  function Chunk(data: seq<byte>, pos: nat, n: nat): (r: seq<byte>)
    ensures |r| <= n
    ensures pos <= |data| ==> pos + |r| <= |data| && r == data[pos..pos + |r|]
    ensures pos >= |data| ==> r == []
    ensures |r| < n ==> pos + |r| >= |data|
  {
    if pos >= |data| then []
    else if pos + n <= |data| then data[pos..pos + n]
    else data[pos..]
  }

  /**
   * `_unpack`'s read of one record of `size` bytes at `pos`: the record, or
   * `ParseError` when the file ends before it does.
   */
  function RecordAt(data: seq<byte>, pos: nat, size: nat): (r: Parsed<seq<byte>>)
    requires size > 0
    ensures r.Ok? <==> pos + size <= |data|
    ensures r.Ok? ==> r.value == data[pos..pos + size]
    ensures r.Err? ==> r.error.ShortRead? && r.error.wanted == size && r.error.got < size
  {
    var chunk := Chunk(data, pos, size);
    if |chunk| == size then Ok(chunk) else Err(ShortRead(size, |chunk|))
  }

  /** An open binary file. Its bytes never change; only the cursor moves. */
  class BinaryFile {
    const data: seq<byte>
    var pos: nat

    /** `path.open('rb')`: the cursor starts at the beginning. */
    constructor (contents: seq<byte>)
      ensures data == contents && pos == 0
    {
      data := contents;
      pos := 0;
    }

    /** `seek(offset)`: any offset, also one past the end of the file. */
    method Seek(offset: nat)
      modifies this
      ensures pos == offset
    {
      pos := offset;
    }

    /** `read(n)`: returns `Chunk(data, pos, n)` and moves the cursor past it. */
    method Read(n: nat) returns (chunk: seq<byte>)
      modifies this
      ensures chunk == Chunk(data, old(pos), n)
      ensures pos == old(pos) + |chunk|
    {
      chunk := Chunk(data, pos, n);
      pos := pos + |chunk|;
    }
  }

  /**
   * The reading half of `_unpack`: reads `size` bytes and fails, as
   * `struct.unpack` does, when fewer arrive.
   */
  method ReadRecord(f: BinaryFile, size: nat) returns (r: Parsed<seq<byte>>)
    requires size > 0
    modifies f
    ensures r == RecordAt(f.data, old(f.pos), size)
    ensures r.Ok? ==> f.pos == old(f.pos) + size
  {
    var chunk := f.Read(size);
    if |chunk| != size {
      return Err(ShortRead(size, |chunk|));
    }
    return Ok(chunk);
  }
}
