/** Cutting a stream of writes into chunks of one size. */
module Chunker {
  import opened Options
  import opened Bytes

  class Chunker {
    var chunk: array<byte>
    var chunkSize: nat
    var pos: nat

    ghost predicate Valid()
      reads this
    {
      chunkSize <= chunk.Length && pos <= chunkSize && (pos == chunkSize ==> pos == 0)
    }

    /** Bytes taken in and not handed out yet. */
    ghost function Pending(): Bytes
      reads this, chunk
      requires Valid()
    {
      chunk[..pos]
    }

    constructor (size: nat)
      ensures Valid() && fresh(chunk) && chunkSize == size && Pending() == []
    {
      chunk := new byte[size](_ => 0);
      chunkSize, pos := size, 0;
    }

    /** Starts over with another size; pending bytes are dropped. */
    method SetChunkSize(size: nat)
      requires Valid()
      modifies this
      ensures Valid() && chunkSize == size && Pending() == [] && (chunk == old(chunk) || fresh(chunk))
    {
      chunkSize, pos := size, 0;
      if chunk.Length < size {
        chunk := new byte[size](_ => 0);
      }
    }

    /** Takes in data up to one full chunk: either a chunk comes out, or everything was taken. */
    method AddData(data: Bytes) returns (rest: Bytes, full: Option<Bytes>)
      requires Valid()
      modifies this`pos, chunk
      ensures Valid()
      ensures full.Some? ==> |full.value| == chunkSize && Pending() == [] && old(Pending()) + data == full.value + rest
      ensures full.None? ==> rest == [] && Pending() == old(Pending()) + data
      ensures full.Some? <==> |old(Pending())| + |data| >= chunkSize
      ensures chunkSize > 0 && data != [] ==> |rest| < |data|
    {
      ghost var before := chunk[..pos];
      full, rest := None, data;
      if pos > 0 {
        var len := if chunkSize - pos < |data| then chunkSize - pos else |data|;
        Copy(data[..len]);
        assert chunk[..pos] == before + data[..len];
        if pos == chunkSize {
          full := Some(chunk[..chunkSize]);
          pos := 0;
        }
        rest := data[len..];
        assert data == data[..len] + rest;
      } else if |data| >= chunkSize {
        full, rest := Some(data[..chunkSize]), data[chunkSize..];
      } else {
        Copy(data);
        rest := [];
      }
    }

    /** Appends to the chunk. */
    method Copy(data: Bytes)
      requires pos + |data| <= chunk.Length
      modifies this`pos, chunk
      ensures pos == old(pos) + |data| && chunk[..pos] == old(chunk[..pos]) + data
    {
      var i := 0;
      while i < |data|
        invariant i <= |data| && pos == old(pos)
        invariant chunk[..pos + i] == old(chunk[..pos]) + data[..i]
      {
        chunk[pos + i] := data[i];
        i := i + 1;
      }
      assert data[..i] == data;
      pos := pos + |data|;
    }

    /** Hands out what is pending. */
    method GetAvailable() returns (rest: Bytes)
      requires Valid()
      modifies this`pos
      ensures Valid() && rest == old(Pending()) && Pending() == []
    {
      rest := chunk[..pos];
      pos := 0;
    }
  }
}
