/** The encoder and decoder objects. */
module Lz4Codec {
  import opened Options
  import opened Bytes
  import opened Lz4Stream
  import opened Lz4RoundTrip
  import C = Chunker

  function Min(a: nat, b: nat): nat { if a < b then a else b }

  class Encoder {
    const codec: Codec
    const isLg: bool
    const chunker: C.Chunker
    var out: Bytes
    var total: nat
    ghost var tokens: seq<Token>

    ghost predicate Valid()
      reads this, chunker, chunker.chunk
    {
      chunker.Valid() && chunker.chunkSize == BLOCK && total < WORD && out == TokensBytes(codec, tokens)
    }

    ghost function State(): EncoderState
      reads this, chunker, chunker.chunk
      requires Valid()
    {
      EncoderState(total, chunker.Pending(), tokens)
    }

    constructor (codec: Codec, isLg: bool)
      ensures Valid() && fresh(chunker) && fresh(chunker.chunk) && State() == START
      ensures this.codec == codec && this.isLg == isLg
    {
      this.codec, this.isLg := codec, isLg;
      chunker := new C.Chunker(BLOCK);
      out, total, tokens := [], 0, [];
    }

    method EncodeBlock(chunk: Bytes)
      modifies this`out, this`tokens
      requires out == TokensBytes(codec, tokens)
      ensures tokens == old(tokens) + [Block(chunk)] && out == TokensBytes(codec, tokens)
    {
      hide TokensBytes, Le32;
      var compressed := codec.compress(chunk);
      out := out + Le32(|compressed|);
      out := out + compressed;
      TokensSnoc(codec, tokens, Block(chunk));
      tokens := tokens + [Block(chunk)];
      assert out == old(out) + (Le32(|compressed|) + compressed);
    }

    /** Takes in one buffer. */
    method WriteAll(data: Bytes)
      requires Valid()
      modifies this, chunker, chunker.chunk
      ensures Valid() && chunker.chunk == old(chunker.chunk) && State() == Written(old(State()), data)
    {
      hide TokensBytes, TokenBytes, FullBlocks, Remainder, Le32;
      ghost var st := State();
      if total == 0 {
        TokensSnoc(codec, tokens, Magic);
        assert TokenBytes(codec, Magic) == Le32(LZ4_MAGIC) by { MagicBytes(codec); }
        out := out + Le32(LZ4_MAGIC);
        tokens := tokens + [Magic];
      }
      total := (total + |data|) % WORD;
      Feed(data);
    }

    /** Cuts the pending bytes and `data` into blocks. */
    method Feed(data: Bytes)
      requires Valid()
      modifies this`out, this`tokens, chunker`pos, chunker.chunk
      ensures Valid()
      ensures tokens == old(tokens) + FullBlocks(old(chunker.Pending()) + data)
      ensures chunker.Pending() == Remainder(old(chunker.Pending()) + data)
    {
      hide TokensBytes, TokenBytes, FullBlocks, Remainder, Le32;
      ghost var all := chunker.Pending() + data;
      var buf := data;
      while buf != []
        invariant Valid()
        invariant tokens + FullBlocks(chunker.Pending() + buf) == old(tokens) + FullBlocks(all)
        invariant Remainder(chunker.Pending() + buf) == Remainder(all)
        decreases |buf|
      {
        ghost var whole, before := chunker.Pending() + buf, tokens;
        var chunk;
        buf, chunk := chunker.AddData(buf);
        if chunk.Some? {
          EncodeBlock(chunk.value);
          ChunkOff(chunk.value, buf);
          assert before + ([Block(chunk.value)] + FullBlocks(buf)) == tokens + FullBlocks(buf);
          assert chunker.Pending() + buf == buf;
        } else {
          assert chunker.Pending() + buf == whole;
        }
      }
      assert chunker.Pending() + buf == chunker.Pending();
      SmallRest(chunker.Pending());
    }

    /** Flushes the last block and, in LG mode, the total. */
    method Finish() returns (file: Bytes)
      requires Valid()
      modifies this, chunker
      ensures file == TokensBytes(codec, Finished(old(State()))) + Trailer(isLg, old(total))
    {
      var chunk := chunker.GetAvailable();
      if chunk != [] {
        EncodeBlock(chunk);
      } else {
        assert tokens + [] == tokens;
      }
      if isLg {
        out := out + Le32(total);
      }
      return out;
    }
  }

  lemma MagicBytes(c: Codec)
    ensures TokenBytes(c, Magic) == Le32(LZ4_MAGIC)
  {
  }

  lemma ChunkOff(chunk: Bytes, rest: Bytes)
    requires |chunk| == BLOCK
    ensures FullBlocks(chunk + rest) == [Block(chunk)] + FullBlocks(rest)
    ensures Remainder(chunk + rest) == Remainder(rest)
  {
    assert (chunk + rest)[..BLOCK] == chunk && (chunk + rest)[BLOCK..] == rest;
  }

  lemma SmallRest(data: Bytes)
    requires |data| < BLOCK
    ensures FullBlocks(data) == [] && Remainder(data) == data
  {
  }

  /** Encodes a sequence of writes with one encoder. */
  method EncodeAll(codec: Codec, isLg: bool, writes: seq<Bytes>) returns (file: Bytes)
    ensures file == Encoded(codec, isLg, writes)
  {
    var e := new Encoder(codec, isLg);
    var i := 0;
    while i < |writes|
      invariant i <= |writes| && e.Valid() && fresh(e) && fresh(e.chunker) && fresh(e.chunker.chunk)
      invariant e.State() == WrittenAll(writes[..i])
    {
      e.WriteAll(writes[i]);
      assert writes[..i + 1][..i] == writes[..i];
      i := i + 1;
    }
    assert writes[..i] == writes;
    file := e.Finish();
  }

  class Decoder {
    const codec: Codec
    var input: Bytes          // what the reader still has
    var outBuf: Bytes         // the last block
    var outPos: nat

    predicate Valid()
      reads this
    {
      outPos <= |outBuf|
    }

    /** Decoded and not handed out yet. */
    function Pending(): Bytes
      reads this
      requires Valid()
    {
      outBuf[outPos..]
    }

    constructor (codec: Codec, input: Bytes)
      ensures Valid() && Pending() == [] && this.input == input && this.codec == codec
    {
      this.codec, this.input := codec, input;
      outBuf, outPos := [], 0;
    }

    /** A reader may return fewer bytes than asked for, but none only at the end. */
    method ReadSome(n: nat) returns (got: Bytes)
      modifies this`input
      ensures old(input) == got + input && |got| <= n && (got == [] <==> n == 0 || old(input) == [])
    {
      var most := Min(n, |input|);
      var len: nat :| len <= most && (len == 0 <==> most == 0);
      got, input := input[..len], input[len..];
    }

    /** A four byte word, or nothing at the end of the input. */
    method ReadWord() returns (w: Option<nat>)
      modifies this`input
      ensures |old(input)| < 4 ==> w.None? && input == []
      ensures |old(input)| >= 4 ==> w == Some(FromLe32(old(input)[..4])) && input == old(input)[4..]
    {
      if |input| < 4 {
        input := [];
        return None;
      }
      w, input := Some(FromLe32(input[..4])), input[4..];
    }

    /** Reads and decompresses one block of the given size. */
    method FillBlock(size: nat) returns (f: Fill)
      modifies this`input
      ensures f == FillSized(codec, size, old(input))
      ensures !f.Fault? ==> input == f.rest
    {
      if size > BOUND {
        return Eof(input);
      }
      var block := ReadSome(size);
      if block == [] {
        return Eof(input);
      }
      if |block| != size {
        var remain := size - |block|;
        if |input| < remain {
          return Fault;
        }
        block, input := block + input[..remain], input[remain..];
      }
      assert block == old(input)[..size] && input == old(input)[size..];
      var d := codec.decompress(block);
      f := if d.None? then Fault else Filled(d.value, input);
    }

    method FillBuffer() returns (f: Fill)
      modifies this`input
      ensures f == FillFrom(codec, old(input))
      ensures !f.Fault? ==> input == f.rest
    {
      var size := ReadWord();
      if size.None? {
        return Eof(input);
      }
      if size.value == LZ4_MAGIC {
        size := ReadWord();
        if size.None? {
          return Fault;
        }
      }
      f := FillBlock(size.value);
    }

    /** Fills the front of a caller's buffer; nothing is an error, zero bytes the end. */
    method Read(buf: array<byte>) returns (n: Option<nat>)
      requires Valid()
      modifies this, buf
      ensures n.Some? ==> Valid() && n.value <= buf.Length
      ensures old(Pending()) != [] ==> n == Some(Min(buf.Length, |old(Pending())|))
      ensures old(Pending()) != [] ==> buf[..n.value] + Pending() == old(Pending()) && input == old(input)
      ensures old(Pending()) == [] ==>
                match FillFrom(codec, old(input))
                case Eof(rest) => n == Some(0) && Pending() == [] && input == rest
                case Fault => n.None?
                case Filled(d, rest) => n == Some(Min(buf.Length, |d|)) && buf[..n.value] + Pending() == d &&
                                        input == rest
    {
      if outPos == |outBuf| {
        var f := FillBuffer();
        match f {
          case Eof(_) => return Some(0);
          case Fault => return None;
          case Filled(d, _) => outBuf, outPos := d, 0;
        }
      }
      var len := Min(buf.Length, |outBuf| - outPos);
      ghost var p := Pending();
      CopyOut(buf, len);
      outPos := outPos + len;
      assert p == p[..len] + p[len..];
      assert Pending() == p[len..];
      return Some(len);
    }

    method CopyOut(buf: array<byte>, len: nat)
      requires Valid() && len <= buf.Length && len <= |outBuf| - outPos
      modifies buf
      ensures buf[..len] == Pending()[..len]
    {
      var i := 0;
      while i < len
        invariant i <= len && buf[..i] == Pending()[..i]
      {
        buf[i] := outBuf[outPos + i];
        i := i + 1;
      }
    }

    /** Reads to the end through buffers of any non-zero sizes. */
    method ReadToEnd() returns (data: Bytes, ok: bool)
      requires Valid()
      modifies this
      ensures data == old(Pending()) + Decoded(codec, old(input)).data && ok == Decoded(codec, old(input)).ok
    {
      hide Decoded, FillFrom;
      data := [];
      ghost var goal := Outcome(Pending() + Decoded(codec, input).data, Decoded(codec, input).ok);
      assert data + goal.data == goal.data;
      while true
        invariant Valid()
        invariant Outcome(data + (Pending() + Decoded(codec, input).data), Decoded(codec, input).ok) == goal
        decreases |input|, |Pending()|
      {
        var size: nat :| size > 0;
        var buf := new byte[size](_ => 0);
        ghost var before, p := input, Pending();
        var n := Read(buf);
        StepOfReading(codec, before);
        if n.None? {
          assert data + ([] + []) == data;
          return data, false;
        }
        if n.value == 0 {
          assert data + ([] + []) == data;
          return data, true;
        }
        Regroup(data, buf[..n.value], Pending(), Decoded(codec, input).data);
        data := data + buf[..n.value];
      }
    }
  }

  lemma Regroup(a: Bytes, b: Bytes, c: Bytes, d: Bytes)
    ensures a + ((b + c) + d) == (a + b) + (c + d)
    ensures a + ([] + ((b + c) + d)) == (a + b) + (c + d)
  {
  }

  lemma StepOfReading(c: Codec, input: Bytes)
    ensures FillFrom(c, input).Fault? ==> Decoded(c, input) == Outcome([], false)
    ensures FillFrom(c, input).Eof? ==> Decoded(c, input) == Outcome([], true)
    ensures var f := FillFrom(c, input);
            f.Filled? ==>
              (|f.rest| < |input| &&
               Decoded(c, input) == if f.data == [] then Outcome([], true)
                                    else Outcome(f.data + Decoded(c, f.rest).data, Decoded(c, f.rest).ok))
  {
    if FillFrom(c, input).Filled? {
      DecodedBlock(c, input, FillFrom(c, input).data, FillFrom(c, input).rest);
    }
  }

  /** One encoder, one decoder, any buffers on either side. */
  method RoundTrip(codec: Codec, isLg: bool, writes: seq<Bytes>) returns (data: Bytes, ok: bool)
    requires Faithful(codec)
    ensures data == Data(writes) && ok <==> Decodable(isLg, writes)
  {
    hide Faithful, Decodable, Decoded, Encoded;
    var file := EncodeAll(codec, isLg, writes);
    var d := new Decoder(codec, file);
    data, ok := d.ReadToEnd();
    DecodeUndoesEncode(codec, isLg, writes);
    assert [] + Decoded(codec, file).data == Decoded(codec, file).data;
  }
}
