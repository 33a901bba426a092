/**
  LZ4 block streams (LZ4 Frame Format Description, section "Legacy frame", and the
  LG variant with the total size at the end): what the encoder puts out for a
  sequence of writes, and what the decoder makes of a byte stream.
*/
module Lz4Stream {
  import opened Options
  import opened Bytes

  const BLOCK: nat := 0x80_0000
  const BOUND: nat := 0x80_8090                  // compress_bound(BLOCK) = BLOCK + BLOCK / 255 + 16
  const LZ4_MAGIC: nat := 0x184C_2102

  /** The block compressor, a foreign library. */
  datatype Codec = Codec(compress: Bytes -> Bytes, decompress: Bytes -> Option<Bytes>)

  /** Non-empty blocks of at most the block size shrink or grow within the bound, and come back. */
  ghost predicate Faithful(c: Codec) {
    forall b :: 0 < |b| <= BLOCK ==>
      0 < |c.compress(b)| <= BOUND && c.decompress(c.compress(b)) == Some(b)
  }

  /* ----- the encoder ----- */

  datatype Token = Magic | Block(data: Bytes)

  /** `total` counts written bytes in 32 bits. */
  datatype EncoderState = EncoderState(total: nat, pending: Bytes, tokens: seq<Token>)

  const START: EncoderState := EncoderState(0, [], [])

  function FullBlocks(data: Bytes): seq<Token> {
    if |data| < BLOCK then [] else [Block(data[..BLOCK])] + FullBlocks(data[BLOCK..])
  }

  function Remainder(data: Bytes): (r: Bytes)
    ensures |r| < BLOCK
  {
    if |data| < BLOCK then data else Remainder(data[BLOCK..])
  }

  /** One write: the magic while nothing was counted, then every block that fills up. */
  function Written(st: EncoderState, buf: Bytes): EncoderState {
    EncoderState(
      (st.total + |buf|) % WORD,
      Remainder(st.pending + buf),
      st.tokens + (if st.total == 0 then [Magic] else []) + FullBlocks(st.pending + buf))
  }

  function WrittenAll(writes: seq<Bytes>): EncoderState {
    if writes == [] then START else Written(WrittenAll(writes[..|writes| - 1]), writes[|writes| - 1])
  }

  /** All blocks of a finished stream. */
  function Finished(st: EncoderState): seq<Token> {
    st.tokens + if st.pending != [] then [Block(st.pending)] else []
  }

  function TokenBytes(c: Codec, t: Token): Bytes {
    match t
    case Magic => Le32(LZ4_MAGIC)
    case Block(d) => Le32(|c.compress(d)|) + c.compress(d)
  }

  function TokensBytes(c: Codec, ts: seq<Token>): Bytes {
    if ts == [] then [] else TokensBytes(c, ts[..|ts| - 1]) + TokenBytes(c, ts[|ts| - 1])
  }

  lemma TokensSnoc(c: Codec, ts: seq<Token>, t: Token)
    ensures TokensBytes(c, ts + [t]) == TokensBytes(c, ts) + TokenBytes(c, t)
  {
    assert (ts + [t])[..|ts|] == ts;
  }

  function Trailer(lg: bool, total: nat): Bytes { if lg then Le32(total) else [] }

  /** The file written for a sequence of writes. */
  function Encoded(c: Codec, lg: bool, writes: seq<Bytes>): Bytes {
    var st := WrittenAll(writes);
    TokensBytes(c, Finished(st)) + Trailer(lg, st.total)
  }

  function Data(writes: seq<Bytes>): Bytes {
    if writes == [] then [] else Data(writes[..|writes| - 1]) + writes[|writes| - 1]
  }

  /* ----- the decoder ----- */

  /** Filling the decoder's buffer: a block, the end of the stream, or an error. */
  datatype Fill = Filled(data: Bytes, rest: Bytes) | Eof(rest: Bytes) | Fault

  function FillSized(c: Codec, size: nat, input: Bytes): Fill {
    if size > BOUND then Eof(input)
    else if size == 0 || input == [] then Eof(input)
    else if |input| < size then Fault
    else
      var d := c.decompress(input[..size]);
      if d.None? then Fault else Filled(d.value, input[size..])
  }

  function FillFrom(c: Codec, input: Bytes): Fill {
    if |input| < 4 then Eof([])
    else
      var size, rest := FromLe32(input[..4]), input[4..];
      if size != LZ4_MAGIC then FillSized(c, size, rest)
      else if |rest| < 4 then Fault
      else FillSized(c, FromLe32(rest[..4]), rest[4..])
  }

  lemma FillConsumes(c: Codec, input: Bytes)
    ensures FillFrom(c, input).Filled? ==> |FillFrom(c, input).rest| < |input|
  {
  }

  /** Everything read until the end, and whether it ended well. */
  datatype Outcome = Outcome(data: Bytes, ok: bool)

  function Decoded(c: Codec, input: Bytes): Outcome
    decreases |input|
  {
    FillConsumes(c, input);
    match FillFrom(c, input)
    case Eof(_) => Outcome([], true)
    case Fault => Outcome([], false)
    case Filled(d, rest) =>
      if d == [] then Outcome([], true)        // nothing copied looks like the end
      else
        var r := Decoded(c, rest);
        Outcome(d + r.data, r.ok)
  }

  lemma DecodedBlock(c: Codec, input: Bytes, d: Bytes, rest: Bytes)
    requires FillFrom(c, input) == Filled(d, rest)
    ensures |rest| < |input|
    ensures d != [] ==> Decoded(c, input) == Outcome(d + Decoded(c, rest).data, Decoded(c, rest).ok)
    ensures d == [] ==> Decoded(c, input) == Outcome([], true)
  {
    FillConsumes(c, input);
  }

  /* ----- what the decoder makes of a token stream ----- */

  /** Where the decoder is: at a block boundary, behind a magic, or stopped. */
  datatype Scan = AtBoundary(data: Bytes) | AfterMagic(data: Bytes) | Stopped(data: Bytes)

  function ScanOne(s: Scan, t: Token): Scan {
    match s
    case Stopped(_) => s
    case AtBoundary(d) => if t.Magic? then AfterMagic(d) else AtBoundary(d + t.data)
    case AfterMagic(d) => if t.Magic? then Stopped(d) else AtBoundary(d + t.data)
  }

  function ScanAll(s: Scan, ts: seq<Token>): Scan {
    if ts == [] then s else ScanOne(ScanAll(s, ts[..|ts| - 1]), ts[|ts| - 1])
  }

  function ScanEnd(s: Scan, lg: bool, total: nat): Outcome {
    match s
    case Stopped(d) => Outcome(d, true)
    case AtBoundary(d) => Outcome(d, !(lg && total == LZ4_MAGIC))
    case AfterMagic(d) => Outcome(d, lg)
  }

  lemma {:induction false} ScanAppend(s: Scan, ts: seq<Token>, us: seq<Token>)
    ensures ScanAll(s, ts + us) == ScanAll(ScanAll(s, ts), us)
    decreases |us|
  {
    if us == [] {
      assert ts + us == ts;
    } else {
      var n := |us| - 1;
      ScanAppend(s, ts, us[..n]);
      assert (ts + us)[..|ts + us| - 1] == ts + us[..n];
    }
  }

  lemma {:induction false} ScanStopped(d: Bytes, ts: seq<Token>)
    ensures ScanAll(Stopped(d), ts) == Stopped(d)
    decreases |ts|
  {
    if ts != [] {
      ScanStopped(d, ts[..|ts| - 1]);
    }
  }

  /** A stream of tokens an encoder may emit. */
  ghost predicate Blocks(ts: seq<Token>) {
    forall i :: 0 <= i < |ts| && ts[i].Block? ==> 0 < |ts[i].data| <= BLOCK
  }

  lemma {:induction false} BytesFromFront(c: Codec, ts: seq<Token>)
    requires ts != []
    ensures TokensBytes(c, ts) == TokenBytes(c, ts[0]) + TokensBytes(c, ts[1..])
    decreases |ts|
  {
    var n := |ts| - 1;
    if n > 0 {
      BytesFromFront(c, ts[..n]);
      assert ts[..n][1..] == ts[1..][..n - 1];
    }
  }

  lemma ScanFromFront(s: Scan, ts: seq<Token>)
    requires ts != []
    ensures ScanAll(s, ts) == ScanAll(ScanOne(s, ts[0]), ts[1..])
  {
    assert ts == [ts[0]] + ts[1..];
    ScanAppend(s, [ts[0]], ts[1..]);
    assert [ts[0]][..0] == [];
  }
}
