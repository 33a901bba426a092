/** The bytes of an encoded file, whatever the writes it was made from. */
module Lz4Layout {
  import opened Bytes
  import opened Lz4Stream
  import opened Lz4RoundTrip

  /** A 32-bit word, lowest byte first. */
  predicate LittleEndian(w: Bytes, x: nat) {
    |w| == 4 &&
    w[0] as int + 256 * w[1] as int + 65536 * w[2] as int + 16777216 * w[3] as int == x % 4294967296
  }

  function Front(data: Bytes): (n: nat)
    ensures n <= |data|
  {
    if |data| < 8388608 then |data| else 8388608
  }

  /** The data in blocks of 8 MiB, the last one shorter, each compressed and behind its size. */
  predicate Framed(c: Codec, data: Bytes, file: Bytes)
    decreases |data|
  {
    if data == [] then file == []
    else
      var n := Front(data);
      var z := c.compress(data[..n]);
      |file| >= 4 + |z| && LittleEndian(file[..4], |z|) && file[4..4 + |z|] == z &&
      Framed(c, data[n..], file[4 + |z|..])
  }

  lemma DivTwice(x: nat)
    ensures x / 65536 == x / 256 / 256
  {
  }

  lemma DivThrice(x: nat)
    ensures x / 16777216 == x / 65536 / 256
  {
  }

  lemma DivFour(x: nat)
    ensures x / 4294967296 == x / 16777216 / 256
  {
  }

  lemma Digits(x: nat)
    ensures x % 256 + 256 * (x / 256 % 256) + 65536 * (x / 65536 % 256) + 16777216 * (x / 16777216 % 256) ==
            x % 4294967296
  {
    var a, b, d, e := x / 256, x / 65536, x / 16777216, x / 4294967296;
    DivTwice(x);
    DivThrice(x);
    DivFour(x);
    assert x == 256 * a + x % 256 && a == 256 * b + a % 256 && b == 256 * d + b % 256 && d == 256 * e + d % 256;
    assert x == 4294967296 * e + x % 4294967296;
  }

  lemma WordBytes(x: nat)
    ensures LittleEndian(Le32(x), x)
  {
    Digits(x);
  }

  lemma MagicFirst(c: Codec)
    ensures TokenBytes(c, Magic) == [0x02, 0x21, 0x4C, 0x18]
  {
  }

  /** Every file but that of no writes begins with the same four bytes. */
  lemma FileBegins(c: Codec, lg: bool, writes: seq<Bytes>)
    requires writes != []
    ensures [0x02, 0x21, 0x4C, 0x18] <= Encoded(c, lg, writes)
  {
    hide TokensBytes, WrittenAll, Trailer;
    var st := WrittenAll(writes);
    MagicInFront(writes);
    BytesFromFront(c, Finished(st));
    MagicFirst(c);
  }

  lemma {:induction false} MagicInFront(writes: seq<Bytes>)
    requires writes != []
    ensures WrittenAll(writes).tokens != [] && WrittenAll(writes).tokens[0] == Magic
    decreases |writes|
  {
    hide FullBlocks, Remainder;
    var n := |writes| - 1;
    if n == 0 {
      assert writes[..n] == [];
    } else {
      MagicInFront(writes[..n]);
    }
  }

  /* ----- blocks do not depend on how the data arrives ----- */

  lemma {:induction false} CutLater(a: Bytes, b: Bytes)
    ensures FullBlocks(a + b) == FullBlocks(a) + FullBlocks(Remainder(a) + b)
    ensures Remainder(a + b) == Remainder(Remainder(a) + b)
    decreases |a|
  {
    if |a| >= BLOCK {
      assert (a + b)[..BLOCK] == a[..BLOCK] && (a + b)[BLOCK..] == a[BLOCK..] + b;
      CutLater(a[BLOCK..], b);
      assert FullBlocks(a + b) == [Block(a[..BLOCK])] + (FullBlocks(a[BLOCK..]) + FullBlocks(Remainder(a) + b));
    } else {
      assert [] + FullBlocks(a + b) == FullBlocks(a + b);
    }
  }

  lemma NothingCut()
    ensures FullBlocks([]) == [] && Remainder([]) == []
  {
  }

  /** The encoder has cut `data` into blocks behind one magic. */
  ghost predicate Holds(st: EncoderState, data: Bytes) {
    st.tokens == [Magic] + FullBlocks(data) && st.pending == Remainder(data)
  }

  lemma FirstWrite(b: Bytes)
    ensures Holds(Written(START, b), b)
  {
    hide FullBlocks, Remainder;
    assert [] + b == b && [] + [Magic] == [Magic];
  }

  lemma LaterWrite(st: EncoderState, data: Bytes, b: Bytes)
    requires Holds(st, data) && st.total != 0
    ensures Holds(Written(st, b), data + b)
  {
    hide FullBlocks, Remainder;
    CutLater(data, b);
    assert st.tokens + [] == st.tokens;
    assert [Magic] + FullBlocks(data) + FullBlocks(st.pending + b) ==
           [Magic] + (FullBlocks(data) + FullBlocks(st.pending + b));
  }

  lemma {:induction false} TokensOfData(writes: seq<Bytes>)
    requires writes != [] && writes[0] != [] && |Data(writes)| < WORD
    ensures Data(writes) != [] && Holds(WrittenAll(writes), Data(writes))
    decreases |writes|
  {
    hide Holds, Written;
    var n := |writes| - 1;
    var front := writes[..n];
    if n == 0 {
      assert front == [] && Data(front) + writes[n] == writes[n];
      FirstWrite(writes[n]);
    } else {
      TokensOfData(front);
      Counts(front);
      LaterWrite(WrittenAll(front), Data(front), writes[n]);
    }
  }

  function Last(data: Bytes): seq<Token> { if Remainder(data) != [] then [Block(Remainder(data))] else [] }

  lemma OneBlock(c: Codec, d: Bytes, ts: seq<Token>)
    ensures TokensBytes(c, [Block(d)] + ts) == Le32(|c.compress(d)|) + c.compress(d) + TokensBytes(c, ts)
  {
    hide TokensBytes, Le32;
    BytesFromFront(c, [Block(d)] + ts);
    assert ([Block(d)] + ts)[1..] == ts;
  }

  lemma FramedBlock(c: Codec, data: Bytes, rest: Bytes)
    requires data != [] && Framed(c, data[Front(data)..], rest)
    ensures var z := c.compress(data[..Front(data)]); Framed(c, data, Le32(|z|) + z + rest)
  {
    hide Le32, LittleEndian;
    var z := c.compress(data[..Front(data)]);
    var file := Le32(|z|) + z + rest;
    WordBytes(|z|);
    assert file[..4] == Le32(|z|) && file[4..4 + |z|] == z && file[4 + |z|..] == rest;
  }

  lemma {:induction false} BlocksAreFramed(c: Codec, data: Bytes)
    ensures Framed(c, data, TokensBytes(c, FullBlocks(data) + Last(data)))
    decreases |data|
  {
    hide TokensBytes, Le32, LittleEndian, Framed;
    if data == [] {
      NothingCut();
      NothingFramed(c);
      assert FullBlocks(data) + Last(data) == [];
    } else {
      var n := Front(data);
      BlocksAreFramed(c, data[n..]);
      FramedBlock(c, data, TokensBytes(c, FullBlocks(data[n..]) + Last(data[n..])));
      OneBlock(c, data[..n], FullBlocks(data[n..]) + Last(data[n..]));
      FirstBlock(data);
    }
  }

  lemma NothingFramed(c: Codec)
    ensures Framed(c, [], TokensBytes(c, []))
  {
  }

  lemma FirstBlock(data: Bytes)
    requires data != []
    ensures var n := Front(data);
            FullBlocks(data) + Last(data) == [Block(data[..n])] + (FullBlocks(data[n..]) + Last(data[n..]))
  {
    var n := Front(data);
    if |data| >= 8388608 {
      assert Remainder(data) == Remainder(data[n..]);
    } else {
      assert data[..n] == data && data[n..] == [];
      NothingCut();
    }
  }

  /**
    A file that starts with data is the magic, the data block by block, and, in LG mode, the size of the data. How the
    data was cut into writes does not show.
  */
  lemma FileLayout(c: Codec, lg: bool, writes: seq<Bytes>)
    requires writes != [] && writes[0] != [] && |Data(writes)| < 4294967296
    ensures var file := Encoded(c, lg, writes);
            var end := |file| - if lg then 4 else 0;
            4 <= end && file[..4] == [0x02, 0x21, 0x4C, 0x18] && Framed(c, Data(writes), file[4..end]) &&
            (lg ==> LittleEndian(file[end..], |Data(writes)|))
  {
    hide TokensBytes, WrittenAll, Le32, Framed, FullBlocks, Remainder, LittleEndian;
    var st, data := WrittenAll(writes), Data(writes);
    TokensOfData(writes);
    Counts(writes);
    var ts := FullBlocks(data) + Last(data);
    var body, tail := TokensBytes(c, ts), Trailer(lg, st.total);
    assert Finished(st) == [Magic] + ts;
    BytesFromFront(c, [Magic] + ts);
    assert ([Magic] + ts)[1..] == ts;
    MagicFirst(c);
    BlocksAreFramed(c, data);
    WordBytes(|data|);
    var file := Encoded(c, lg, writes);
    assert file == [0x02, 0x21, 0x4C, 0x18] + body + tail;
    assert file[4..4 + |body|] == body && file[4 + |body|..] == tail;
  }

  /** A size up to 0x808090 is that of a block to decompress; a larger one, but for the magic, ends the data. */
  lemma SizeIsRead(c: Codec, input: Bytes, size: nat)
    requires |input| >= 4 && LittleEndian(input[..4], size) && 0 < size < 4294967296 && size != 0x184C_2102
    ensures size > 8421520 ==> Decoded(c, input) == Outcome([], true)
    ensures size <= 8421520 && |input| >= 4 + size ==>
              FillFrom(c, input) ==
              match c.decompress(input[4..4 + size])
              case None => Fault
              case Some(d) => Filled(d, input[4 + size..])
  {
    assert FromLe32(input[..4]) == size;
    assert |input| >= 4 + size ==> input[4..][..size] == input[4..4 + size] && input[4..][size..] == input[4 + size..];
  }
}
