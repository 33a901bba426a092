/** Telling plain LZ4 block streams and LG streams apart. */
module Lz4Detect {
  import opened Bytes
  import opened Lz4Stream
  import opened Lz4RoundTrip

  /** `Walking`: not decided yet, and where the walk stands. */
  datatype Verdict = NotLegacy | Legacy | Lg | Walking(off: nat)

  /**
    What the walk from `off` has found out after some rounds. Offsets have 32 bits
    and may wrap, so that it can go on at a smaller offset, even for ever.
  */
  function Walk(buf: Bytes, off: nat, rounds: nat): Verdict
    decreases rounds
  {
    if off + 4 > |buf| then Legacy
    else if rounds == 0 then Walking(off)
    else
      var next := (off + 4 + FromLe32(buf[off..off + 4])) % WORD;
      if next > |buf| then Lg else Walk(buf, next, rounds - 1)
  }

  function Detected(buf: Bytes, rounds: nat): Verdict {
    if |buf| < 4 || buf[..4] != Le32(LZ4_MAGIC) then NotLegacy else Walk(buf, 4, rounds)
  }

  /** The detector, stopped after some rounds of its loop if it has not answered by then. */
  method CheckFmtLg(buf: Bytes, rounds: nat) returns (v: Verdict)
    requires |buf| < WORD
    ensures v == Detected(buf, rounds)
  {
    hide Le32, FromLe32;
    if |buf| < 4 || buf[..4] != Le32(LZ4_MAGIC) {
      return NotLegacy;
    }
    var off: nat, left: nat := 4, rounds;
    while off + 4 <= |buf| && left > 0
      invariant off <= |buf| && left <= rounds && Detected(buf, rounds) == Walk(buf, off, left)
      decreases left
    {
      var size := FromLe32(buf[off..off + 4]);
      off := off + 4;
      if (off + size) % WORD > |buf| {
        return Lg;
      }
      off := (off + size) % WORD;
      left := left - 1;
    }
    return if off + 4 <= |buf| then Walking(off) else Legacy;
  }

  /** An answer does not depend on how long one waits for it. */
  lemma {:induction false} AnswerStays(buf: Bytes, off: nat, n: nat, m: nat)
    requires !Walk(buf, off, n).Walking? && n <= m
    ensures Walk(buf, off, m) == Walk(buf, off, n)
    decreases n
  {
    if off + 4 <= |buf| && (off + 4 + FromLe32(buf[off..off + 4])) % WORD <= |buf| {
      AnswerStays(buf, (off + 4 + FromLe32(buf[off..off + 4])) % WORD, n - 1, m - 1);
    }
  }

  ghost predicate OnlyBlocks(ts: seq<Token>) {
    forall i :: 0 <= i < |ts| ==> ts[i].Block?
  }

  /** Before 4 GiB, a stream that starts with data has its magic in front and nowhere else. */
  lemma {:induction false} OneMagic(writes: seq<Bytes>)
    requires FirstIdle(writes) == |writes| > 0 && |Data(writes)| < WORD
    ensures Data(writes) != []
    ensures var ts := WrittenAll(writes).tokens;
            ts != [] && ts[0] == Magic && OnlyBlocks(ts[1..])
    decreases |writes|
  {
    hide FullBlocks, Remainder;
    var n := |writes| - 1;
    var st := WrittenAll(writes[..n]);
    Counts(writes[..n]);
    FullBlocksAreBlocks(st.pending + writes[n]);
    if n > 0 {
      OneMagic(writes[..n]);
      var ts, us := st.tokens, FullBlocks(st.pending + writes[n]);
      assert WrittenAll(writes).tokens == ts + us by { assert ts + [] == ts; }
      assert (ts + us)[1..] == ts[1..] + us;
    } else {
      assert writes[..0] == [];
      assert ([Magic] + FullBlocks(st.pending + writes[n]))[1..] == FullBlocks(st.pending + writes[n]);
      assert [] + [Magic] == [Magic];
    }
  }

  lemma {:induction false} FullBlocksAreBlocks(data: Bytes)
    ensures OnlyBlocks(FullBlocks(data))
    decreases |data|
  {
    if |data| >= BLOCK {
      FullBlocksAreBlocks(data[BLOCK..]);
    }
  }

  /** The walk steps over blocks, one a round. */
  lemma {:induction false} WalkBlocks(c: Codec, buf: Bytes, off: nat, ts: seq<Token>, tail: Bytes, n: nat)
    requires OnlyBlocks(ts) && |buf| < WORD && off <= |buf| && buf[off..] == TokensBytes(c, ts) + tail
    ensures |buf| == off + |TokensBytes(c, ts)| + |tail|
    ensures Walk(buf, off, |ts| + n) == Walk(buf, off + |TokensBytes(c, ts)|, n)
    decreases |ts|
  {
    hide TokensBytes, Le32, FromLe32;
    assert |buf[off..]| == |buf| - off;
    if ts != [] {
      var z := c.compress(ts[0].data);
      var rest := TokensBytes(c, ts[1..]) + tail;
      BytesFromFront(c, ts);
      assert buf[off..] == Le32(|z|) + (z + rest) by { FrontOf(c, ts, tail); }
      SizeFirst(|z|, z + rest);
      assert buf[off..off + 4] == buf[off..][..4];
      var next := off + 4 + |z|;
      assert buf[next..] == buf[off..][4..][|z|..] == rest;
      WalkBlocks(c, buf, next, ts[1..], tail, n);
    } else {
      assert TokensBytes(c, ts) == [] by { NoTokens(c); }
    }
  }

  lemma NoTokens(c: Codec)
    ensures TokensBytes(c, []) == []
  {
  }

  lemma FrontOf(c: Codec, ts: seq<Token>, tail: Bytes)
    requires ts != [] && ts[0].Block? && TokensBytes(c, ts) == TokenBytes(c, ts[0]) + TokensBytes(c, ts[1..])
    ensures var z := c.compress(ts[0].data);
            TokensBytes(c, ts) + tail == Le32(|z|) + (z + (TokensBytes(c, ts[1..]) + tail))
  {
    hide TokensBytes, Le32;
  }

  /** What the walk finds behind the blocks: the end, or a total that is read as a size. */
  lemma WalkEnd(buf: Bytes, off: nat, lg: bool, total: nat, n: nat)
    requires off <= |buf| < WORD && buf[off..] == Trailer(lg, total) && 0 < total < WORD
    ensures Walk(buf, off, n + 1) ==
            if !lg then Legacy else if |buf| + total < WORD then Lg else Walk(buf, |buf| + total - WORD, n)
  {
    hide Le32, FromLe32;
    assert |buf[off..]| == |buf| - off;
    if lg {
      Le32RoundTrip(total);
      assert buf[off..off + 4] == buf[off..];
    }
  }

  /**
    On every stream that starts with data, of less than 4 GiB, the detector answers LG
    exactly for the LG mode, as long as file size and total together fit 32 bits.
    Otherwise it goes on in the middle of an LG stream, at the offset that wrapped.
  */
  lemma DetectedMode(c: Codec, lg: bool, writes: seq<Bytes>, n: nat)
    requires FirstIdle(writes) == |writes| > 0 && |Data(writes)| < WORD && |Encoded(c, lg, writes)| < WORD
    ensures var file := Encoded(c, lg, writes);
            Detected(file, |Finished(WrittenAll(writes))| + n) ==
            if !lg then Legacy
            else if |file| + |Data(writes)| < WORD then Lg
            else Walk(file, |file| + |Data(writes)| - WORD, n)
  {
    hide TokensBytes, Walk, WrittenAll, FirstIdle, Le32, Trailer;
    OneMagic(writes);
    Counts(writes);
    var st, file := WrittenAll(writes), Encoded(c, lg, writes);
    var ts, tail := Finished(st), Trailer(lg, st.total);
    assert ts[0] == Magic && OnlyBlocks(ts[1..]);
    BytesFromFront(c, ts);
    var blocks := TokensBytes(c, ts[1..]);
    assert TokenBytes(c, Magic) == Le32(LZ4_MAGIC);
    assert file == Le32(LZ4_MAGIC) + (blocks + tail);
    assert file[..4] == Le32(LZ4_MAGIC) && file[4..] == blocks + tail;
    WalkBlocks(c, file, 4, ts[1..], tail, n + 1);
    assert file[4 + |blocks|..] == file[4..][|blocks|..] == tail;
    WalkEnd(file, 4 + |blocks|, lg, st.total, n);
  }
}
