/** Decoding what the encoder wrote: exactly when it gives back the written bytes. */
module Lz4RoundTrip {
  import opened Bytes
  import opened Lz4Stream

  /* ----- bytes to tokens ----- */

  function Shift(d: Bytes, s: Scan): Scan {
    match s
    case AtBoundary(x) => AtBoundary(d + x)
    case AfterMagic(x) => AfterMagic(d + x)
    case Stopped(x) => Stopped(d + x)
  }

  lemma {:induction false} ScanShift(d: Bytes, s: Scan, ts: seq<Token>)
    ensures ScanAll(Shift(d, s), ts) == Shift(d, ScanAll(s, ts))
    decreases |ts|
  {
    if ts != [] {
      var n := |ts| - 1;
      ScanShift(d, s, ts[..n]);
      var x := ScanAll(s, ts[..n]);
      if ts[n].Block? {
        assert d + (x.data + ts[n].data) == (d + x.data) + ts[n].data;
      }
    }
  }

  lemma FillBlock(c: Codec, d: Bytes, rest: Bytes)
    requires Faithful(c) && 0 < |d| <= BLOCK
    ensures FillSized(c, |c.compress(d)|, c.compress(d) + rest) == Filled(d, rest)
  {
    var z := c.compress(d);
    assert (z + rest)[..|z|] == z && (z + rest)[|z|..] == rest;
  }

  lemma SizeFirst(size: nat, tail: Bytes)
    requires size < WORD
    ensures var input := Le32(size) + tail;
            |input| >= 4 && FromLe32(input[..4]) == size && input[4..] == tail
  {
    Le32RoundTrip(size);
    var input := Le32(size) + tail;
    assert input[..4] == Le32(size) && input[4..] == tail;
  }

  lemma FillFromBlock(c: Codec, d: Bytes, rest: Bytes)
    requires Faithful(c) && 0 < |d| <= BLOCK
    ensures FillFrom(c, TokenBytes(c, Block(d)) + rest) == Filled(d, rest)
    ensures FillFrom(c, TokenBytes(c, Magic) + (TokenBytes(c, Block(d)) + rest)) == Filled(d, rest)
  {
    hide FillSized, Le32, FromLe32;
    var z := c.compress(d);
    assert |z| <= BOUND;
    assert TokenBytes(c, Block(d)) + rest == Le32(|z|) + (z + rest);
    SizeFirst(|z|, z + rest);
    SizeFirst(LZ4_MAGIC, TokenBytes(c, Block(d)) + rest);
    FillBlock(c, d, rest);
  }

  /** At the end of the stream, or at a second magic, the decoder stops. */
  lemma FillFromEnd(c: Codec, lg: bool, total: nat, rest: Bytes)
    requires total < WORD
    ensures FillFrom(c, Trailer(lg, total)) == (if lg && total == LZ4_MAGIC then Fault else Eof([]))
    ensures FillFrom(c, TokenBytes(c, Magic) + Trailer(lg, total)) == if lg then Eof([]) else Fault
    ensures FillFrom(c, TokenBytes(c, Magic) + (TokenBytes(c, Magic) + rest)).Eof?
  {
    hide Le32, FromLe32;
    SizeFirst(total, []);
    assert Le32(total) + [] == Le32(total);
    SizeFirst(LZ4_MAGIC, Trailer(lg, total));
    SizeFirst(LZ4_MAGIC, TokenBytes(c, Magic) + rest);
    SizeFirst(LZ4_MAGIC, rest);
  }

  ghost function Stream(c: Codec, ts: seq<Token>, lg: bool, total: nat): Bytes {
    TokensBytes(c, ts) + Trailer(lg, total)
  }

  lemma StreamFromFront(c: Codec, ts: seq<Token>, lg: bool, total: nat)
    requires ts != []
    ensures Stream(c, ts, lg, total) == TokenBytes(c, ts[0]) + Stream(c, ts[1..], lg, total)
  {
    hide TokenBytes, TokensBytes, Trailer;
    BytesFromFront(c, ts);
    assert TokensBytes(c, ts) + Trailer(lg, total) ==
           TokenBytes(c, ts[0]) + (TokensBytes(c, ts[1..]) + Trailer(lg, total));
  }

  ghost function Scanned(ts: seq<Token>, lg: bool, total: nat): Outcome {
    ScanEnd(ScanAll(AtBoundary([]), ts), lg, total)
  }

  lemma ScannedBlock(d: Bytes, ts: seq<Token>, lg: bool, total: nat)
    ensures ScanEnd(ScanAll(AtBoundary(d), ts), lg, total) ==
            Outcome(d + Scanned(ts, lg, total).data, Scanned(ts, lg, total).ok)
  {
    ScanShift(d, AtBoundary([]), ts);
    assert d + [] == d;
  }

  /** The decoder reads tokens, whatever the codec. */
  lemma {:induction false} DecodedIsScanned(c: Codec, ts: seq<Token>, lg: bool, total: nat)
    requires Faithful(c) && Blocks(ts) && total < WORD
    ensures Decoded(c, Stream(c, ts, lg, total)) == Scanned(ts, lg, total)
    decreases |ts|
  {
    hide Faithful, FillFrom, TokenBytes, Trailer, Stream;
    if ts == [] {
      FillFromEnd(c, lg, total, []);
      assert Stream(c, ts, lg, total) == Trailer(lg, total) by { EmptyStream(c, lg, total); }
    } else {
      StreamFromFront(c, ts, lg, total);
      ScanFromFront(AtBoundary([]), ts);
      if ts[0].Block? {
        DecodeBlock(c, ts[0].data, ts[1..], [], lg, total);
        DecodedIsScanned(c, ts[1..], lg, total);
        ScannedBlock(ts[0].data, ts[1..], lg, total);
        assert [] + ts[0].data == ts[0].data;
      } else {
        DecodeAfterMagic(c, ts, lg, total);
      }
    }
  }

  lemma EmptyStream(c: Codec, lg: bool, total: nat)
    ensures Stream(c, [], lg, total) == Trailer(lg, total)
  {
  }

  /** A block, possibly behind a magic, is read and the rest follows. */
  lemma DecodeBlock(c: Codec, d: Bytes, ts: seq<Token>, magic: seq<Token>, lg: bool, total: nat)
    requires Faithful(c) && 0 < |d| <= BLOCK && (magic == [] || magic == [Magic])
    ensures var rest := Stream(c, ts, lg, total);
            var tail := TokenBytes(c, Block(d)) + rest;
            Decoded(c, if magic == [] then tail else TokenBytes(c, Magic) + tail) ==
            Outcome(d + Decoded(c, rest).data, Decoded(c, rest).ok)
  {
    hide Stream, TokenBytes, FillFrom, Faithful;
    FillFromBlock(c, d, Stream(c, ts, lg, total));
  }

  lemma DecodeAfterMagic(c: Codec, ts: seq<Token>, lg: bool, total: nat)
    requires Faithful(c) && Blocks(ts) && total < WORD && ts != [] && ts[0].Magic?
    ensures Decoded(c, Stream(c, ts, lg, total)) == Scanned(ts, lg, total)
    decreases |ts|, 0
  {
    hide Faithful, FillFrom, TokenBytes, Trailer, Stream;
    StreamFromFront(c, ts, lg, total);
    ScanFromFront(AtBoundary([]), ts);
    if |ts| == 1 {
      EmptyStream(c, lg, total);
      FillFromEnd(c, lg, total, []);
    } else {
      var us := ts[1..];
      StreamFromFront(c, us, lg, total);
      ScanFromFront(AfterMagic([]), us);
      if us[0].Magic? {
        FillFromEnd(c, lg, total, Stream(c, us[1..], lg, total));
        ScanStopped([], us[1..]);
      } else {
        DecodeBlock(c, us[0].data, us[1..], [Magic], lg, total);
        DecodedIsScanned(c, us[1..], lg, total);
        ScannedBlock(us[0].data, us[1..], lg, total);
        assert [] + us[0].data == us[0].data;
      }
    }
  }

  /* ----- writes to tokens ----- */

  /** An empty write while the byte count stands at zero: it puts out a magic and nothing else. */
  predicate Idle(writes: seq<Bytes>, i: nat)
    requires i < |writes|
  {
    writes[i] == [] && |Data(writes[..i])| % WORD == 0
  }

  /** The first idle write, or the number of writes if there is none. */
  function FirstIdle(writes: seq<Bytes>): (k: nat)
    ensures k <= |writes|
  {
    if writes == [] then 0
    else
      var n := |writes| - 1;
      var k := FirstIdle(writes[..n]);
      if k < n then k else if Idle(writes, n) then n else n + 1
  }

  /** Whether a stream of these writes decodes to what was written. */
  predicate Decodable(lg: bool, writes: seq<Bytes>) {
    var k := FirstIdle(writes);
    if k == |writes| then !(lg && |Data(writes)| % WORD == LZ4_MAGIC)
    else if k == |writes| - 1 then lg
    else forall i :: k < i < |writes| ==> writes[i] == []
  }

  lemma {:induction false} LaterEmpty(writes: seq<Bytes>, k: nat)
    requires k <= |writes|
    ensures |Data(writes[..k])| <= |Data(writes)|
    ensures Data(writes) == Data(writes[..k]) <==> forall i :: k <= i < |writes| ==> writes[i] == []
    decreases |writes|
  {
    var n := |writes| - 1;
    if k <= n {
      LaterEmpty(writes[..n], k);
      assert writes[..n][..k] == writes[..k];
      assert Data(writes) == Data(writes[..n]) + writes[n];
    } else {
      assert writes[..k] == writes;
    }
  }

  lemma {:induction false} RemainderSize(data: Bytes)
    ensures |Remainder(data)| == |data| % BLOCK
    decreases |data|
  {
    if |data| >= BLOCK {
      RemainderSize(data[BLOCK..]);
    }
  }

  /** Scanning the full blocks of some data. */
  lemma {:induction false} ScanFullBlocks(s: Scan, data: Bytes)
    ensures Blocks(FullBlocks(data))
    ensures s.Stopped? ==> ScanAll(s, FullBlocks(data)) == s
    ensures !s.Stopped? && |data| < BLOCK ==> ScanAll(s, FullBlocks(data)) == s && Remainder(data) == data
    ensures !s.Stopped? && |data| >= BLOCK ==>
              ScanAll(s, FullBlocks(data)).AtBoundary? &&
              ScanAll(s, FullBlocks(data)).data + Remainder(data) == s.data + data
    decreases |data|
  {
    if s.Stopped? {
      ScanStopped(s.data, FullBlocks(data));
    }
    if |data| >= BLOCK {
      var ts, rest := FullBlocks(data), data[BLOCK..];
      ScanFromFront(s, ts);
      assert ts[1..] == FullBlocks(rest);
      ScanFullBlocks(ScanOne(s, ts[0]), rest);
      assert s.data + data == (s.data + data[..BLOCK]) + rest;
    }
  }

  /** The counters of the encoder follow the data. */
  lemma {:induction false} Counts(writes: seq<Bytes>)
    ensures var st := WrittenAll(writes);
            st.total == |Data(writes)| % WORD && |st.pending| == |Data(writes)| % BLOCK
    decreases |writes|
  {
    if writes != [] {
      var n := |writes| - 1;
      Counts(writes[..n]);
      var st := WrittenAll(writes[..n]);
      RemainderSize(st.pending + writes[n]);
      ModAdd(|Data(writes[..n])|, |writes[n]|);
    }
  }

  lemma ModAdd(a: nat, b: nat)
    ensures (a % WORD + b) % WORD == (a + b) % WORD
    ensures (a % BLOCK + b) % BLOCK == (a + b) % BLOCK
  {
    WordAdd(a, b);
    BlockShift(a % BLOCK + b, a / BLOCK);
  }

  lemma {:induction false} BlockShift(x: nat, q: nat)
    ensures (x + BLOCK * q) % BLOCK == x % BLOCK
    decreases q
  {
    if q > 0 {
      BlockShift(x, q - 1);
      assert x + BLOCK * q == (x + BLOCK * (q - 1)) + BLOCK;
    }
  }

  lemma NothingPending(n: nat)
    requires n % WORD == 0
    ensures n % BLOCK == 0
  {
    assert n == WORD * (n / WORD) == BLOCK * (512 * (n / WORD));
  }

  /** What the decoder has seen of an unfinished stream. */
  ghost predicate Seen(s: Scan, st: EncoderState, writes: seq<Bytes>, k: nat)
    requires k <= |writes|
  {
    if k == |writes| then
      !s.Stopped? && s.data + st.pending == Data(writes) && (s.AfterMagic? ==> st.total == |st.pending| > 0)
    else if k == |writes| - 1 then s == AfterMagic(Data(writes)) && st.total == 0
    else s == Stopped(Data(writes[..k]))
  }

  lemma {:induction false} WrittenSeen(writes: seq<Bytes>)
    ensures Blocks(WrittenAll(writes).tokens)
    ensures Seen(ScanAll(AtBoundary([]), WrittenAll(writes).tokens), WrittenAll(writes), writes, FirstIdle(writes))
    decreases |writes|
  {
    if writes != [] {
      var n := |writes| - 1;
      var front := writes[..n];
      WrittenSeen(front);
      SeenStep(ScanAll(AtBoundary([]), WrittenAll(front).tokens), WrittenAll(front), writes);
    }
  }

  lemma SeenStep(s: Scan, st: EncoderState, writes: seq<Bytes>)
    requires writes != []
    requires var front := writes[..|writes| - 1];
             st == WrittenAll(front) && s == ScanAll(AtBoundary([]), st.tokens) &&
             Blocks(st.tokens) && Seen(s, st, front, FirstIdle(front))
    ensures Blocks(WrittenAll(writes).tokens)
    ensures Seen(ScanAll(AtBoundary([]), WrittenAll(writes).tokens), WrittenAll(writes), writes, FirstIdle(writes))
  {
    hide WrittenAll, FullBlocks, Remainder, Seen, FirstIdle, ScanAll, Blocks;
    var n := |writes| - 1;
    var front, b := writes[..n], writes[n];
    var magic := if st.total == 0 then [Magic] else [];
    var blocks := FullBlocks(st.pending + b);
    WrittenStep(writes);
    ScanAppend(AtBoundary([]), st.tokens, magic);
    ScanAppend(AtBoundary([]), st.tokens + magic, blocks);
    var mid := ScanAll(s, magic);
    ScanMagic(s, magic);
    ScanFullBlocks(mid, st.pending + b);
    BlocksAppend(st.tokens, magic, blocks);
    Counts(front);
    if st.total == 0 {
      NothingPending(|Data(front)|);
    }
    SeenCases(s, mid, ScanAll(mid, blocks), st, writes);
  }

  lemma BlocksAppend(ts: seq<Token>, magic: seq<Token>, us: seq<Token>)
    requires Blocks(ts) && (magic == [] || magic == [Magic]) && Blocks(us)
    ensures Blocks(ts + magic + us)
  {
  }

  lemma WrittenStep(writes: seq<Bytes>)
    requires writes != []
    ensures WrittenAll(writes) == Written(WrittenAll(writes[..|writes| - 1]), writes[|writes| - 1])
  {
  }

  lemma ScanMagic(s: Scan, magic: seq<Token>)
    requires magic == [] || magic == [Magic]
    ensures ScanAll(s, magic) == if magic == [] then s else ScanOne(s, Magic)
  {
    assert [Magic][..0] == [];
  }

  lemma SeenCases(s: Scan, mid: Scan, s': Scan, st: EncoderState, writes: seq<Bytes>)
    requires writes != []
    requires var front, b := writes[..|writes| - 1], writes[|writes| - 1];
             Seen(s, st, front, FirstIdle(front)) && st.total == |Data(front)| % WORD && |st.pending| < BLOCK &&
             (st.total == 0 ==> st.pending == []) &&
             mid == (if st.total == 0 then ScanOne(s, Magic) else s) &&
             (mid.Stopped? ==> s' == mid) &&
             (!mid.Stopped? && |st.pending + b| < BLOCK ==> s' == mid && Remainder(st.pending + b) == st.pending + b) &&
             (!mid.Stopped? && |st.pending + b| >= BLOCK ==>
                s'.AtBoundary? && s'.data + Remainder(st.pending + b) == mid.data + (st.pending + b))
    ensures Seen(s', Written(st, writes[|writes| - 1]), writes, FirstIdle(writes))
  {
    hide FullBlocks, Remainder, ScanAll;
    var n := |writes| - 1;
    var front, b := writes[..n], writes[n];
    var k := FirstIdle(front);
    if k == n {
      assert mid.data + (st.pending + b) == (s.data + st.pending) + b == Data(writes);
    } else if k == n - 1 {
      assert front[..k] == writes[..k];
      assert Data(front) == Data(front[..k]) + front[k];
      IdleAt(front);
    } else {
      assert front[..k] == writes[..k];
    }
  }

  lemma {:induction false} IdleAt(writes: seq<Bytes>)
    requires FirstIdle(writes) < |writes|
    ensures writes[FirstIdle(writes)] == []
    decreases |writes|
  {
    var n := |writes| - 1;
    if FirstIdle(writes[..n]) < n {
      IdleAt(writes[..n]);
    }
  }

  /* ----- the theorem ----- */

  /**
    For every sequence of writes, in plain and LG mode, decoding gives back the
    written bytes and ends well exactly when the writes are decodable.
  */
  lemma DecodeUndoesEncode(c: Codec, lg: bool, writes: seq<Bytes>)
    requires Faithful(c)
    ensures Decoded(c, Encoded(c, lg, writes)) == Outcome(Data(writes), true) <==> Decodable(lg, writes)
  {
    hide Faithful, Decoded, TokensBytes, Trailer, Seen, WrittenAll, ScanAll, ScanEnd, FirstIdle;
    var st := WrittenAll(writes);
    var ts := Finished(st);
    var s := ScanAll(AtBoundary([]), st.tokens);
    WrittenSeen(writes);
    Counts(writes);
    var last := if st.pending != [] then [Block(st.pending)] else [];
    DecodedIsScanned(c, ts, lg, st.total);
    ScanAppend(AtBoundary([]), st.tokens, last);
    ScanLast(s, last);
    EndCases(s, ScanAll(s, last), st, lg, writes);
  }

  lemma ScanLast(s: Scan, last: seq<Token>)
    requires last == [] || (|last| == 1 && last[0].Block?)
    ensures ScanAll(s, last) == if last == [] then s else ScanOne(s, last[0])
  {
    assert last != [] ==> last[..0] == [];
  }

  lemma EndCases(s: Scan, s': Scan, st: EncoderState, lg: bool, writes: seq<Bytes>)
    requires Seen(s, st, writes, FirstIdle(writes)) && st.total == |Data(writes)| % WORD &&
             (st.total == 0 ==> st.pending == [])
    requires s' == if st.pending != [] then ScanOne(s, Block(st.pending)) else s
    ensures ScanEnd(s', lg, st.total) == Outcome(Data(writes), true) <==> Decodable(lg, writes)
  {
    LaterEmpty(writes, FirstIdle(writes));
    if FirstIdle(writes) < |writes| {
      IdleAt(writes);
    }
  }

  /** Non-empty writes of less than 4 GiB always decode, but for one total in LG mode. */
  lemma {:induction false} NonEmptyWritesDecode(lg: bool, writes: seq<Bytes>)
    requires forall i :: 0 <= i < |writes| ==> writes[i] != []
    ensures FirstIdle(writes) == |writes|
    ensures Decodable(lg, writes) <==> !(lg && |Data(writes)| % WORD == LZ4_MAGIC)
    decreases |writes|
  {
    if writes != [] {
      NonEmptyWritesDecode(lg, writes[..|writes| - 1]);
    }
  }
}
