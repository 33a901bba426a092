/** The table-driven CRC-32 of the embedded xz decoder. */
module Crc32 {
  const POLY: bv32 := 0xEDB88320

  /* ----- the reference: a shift register fed bit by bit, lowest bit of a byte first ----- */

  function Xor(a: bv32, b: bv32): bv32 { a ^ b }

  function Half(r: bv32): bv32 { r >> 1 }

  predicate Odd(r: bv32) { r & 1 == 1 }

  function Feed(c: bv32, bit: bool): bv32 {
    if Odd(c) != bit then Xor(Half(c), POLY) else Half(c)
  }

  function FeedAll(c: bv32, bits: seq<bool>): bv32
    decreases |bits|
  {
    if bits == [] then c else FeedAll(Feed(c, bits[0]), bits[1..])
  }

  function BitsOf(b: bv8): (r: seq<bool>)
    ensures |r| == 8
  {
    [b & 1 != 0, b & 2 != 0, b & 4 != 0, b & 8 != 0, b & 16 != 0, b & 32 != 0, b & 64 != 0, b & 128 != 0]
  }

  function AllBits(buf: seq<bv8>): (r: seq<bool>)
    ensures |r| == 8 * |buf|
  {
    if buf == [] then [] else AllBits(buf[..|buf| - 1]) + BitsOf(buf[|buf| - 1])
  }

  function Not(x: bv32): bv32 { !x }

  function Crc(buf: seq<bv8>, crc: bv32): bv32 { Not(FeedAll(Not(crc), AllBits(buf))) }

  lemma {:induction false} FeedConcat(c: bv32, a: seq<bool>, b: seq<bool>)
    ensures FeedAll(c, a + b) == FeedAll(FeedAll(c, a), b)
    decreases |a|
  {
    hide Feed;
    if a == [] {
      assert a + b == b;
    } else {
      assert (a + b)[1..] == a[1..] + b;
      FeedConcat(Feed(c, a[0]), a[1..], b);
    }
  }

  lemma {:induction false} BitsConcat(a: seq<bv8>, b: seq<bv8>)
    ensures AllBits(a + b) == AllBits(a) + AllBits(b)
    decreases |b|
  {
    hide BitsOf;
    if b == [] {
      assert a + b == a;
    } else {
      var n := |b| - 1;
      assert (a + b)[..|a + b| - 1] == a + b[..n];
      BitsConcat(a, b[..n]);
    }
  }

  lemma NotNot(x: bv32)
    ensures Not(Not(x)) == x
  {
  }

  /** A buffer may be checked in pieces. */
  lemma CrcConcat(a: seq<bv8>, b: seq<bv8>, crc: bv32)
    ensures Crc(a + b, crc) == Crc(b, Crc(a, crc))
  {
    hide Feed, FeedAll, BitsOf, AllBits, Not;
    BitsConcat(a, b);
    FeedConcat(Not(crc), AllBits(a), AllBits(b));
    NotNot(FeedAll(Not(crc), AllBits(a)));
  }

  /* ----- the register is linear ----- */

  function Double(r: bv32): bv32 { r << 1 }

  function Tap(r: bv32): bv32 { if Odd(r) then POLY else 0 }

  function Bit(b: bool): bv32 { if b then 1 else 0 }

  function Shift(r: bv32): bv32 { Xor(Half(r), Tap(r)) }

  function Shifts(r: bv32, n: nat): bv32
    decreases n
  {
    if n == 0 then r else Shifts(Shift(r), n - 1)
  }

  lemma FeedIsShift(c: bv32, bit: bool)
    ensures Feed(c, bit) == Shift(Xor(c, Bit(bit)))
  {
    hide Xor, Half, Odd, Bit;
    BitHalf(c, bit);
    BitOdd(c, bit);
    XorZero(Half(c));
  }

  lemma BitHalf(c: bv32, bit: bool)
    ensures Half(Xor(c, Bit(bit))) == Half(c)
  {
  }

  lemma BitOdd(c: bv32, bit: bool)
    ensures Odd(Xor(c, Bit(bit))) <==> (Odd(c) != bit)
  {
  }

  lemma XorAssoc(a: bv32, b: bv32, c: bv32)
    ensures Xor(Xor(a, b), c) == Xor(a, Xor(b, c))
  {
  }

  lemma XorComm(a: bv32, b: bv32)
    ensures Xor(a, b) == Xor(b, a)
  {
  }

  lemma XorSelf(a: bv32, b: bv32)
    ensures Xor(a, b) == 0 <==> a == b
  {
  }

  lemma XorHalf(a: bv32, b: bv32)
    ensures Half(Xor(a, b)) == Xor(Half(a), Half(b))
  {
  }

  lemma XorTap(a: bv32, b: bv32)
    ensures Tap(Xor(a, b)) == Xor(Tap(a), Tap(b))
  {
  }

  lemma XorSwap(a: bv32, b: bv32, c: bv32, d: bv32)
    ensures Xor(Xor(a, b), Xor(c, d)) == Xor(Xor(a, c), Xor(b, d))
  {
    hide Xor;
    XorAssoc(a, b, Xor(c, d));
    XorAssoc(b, c, d);
    XorComm(b, c);
    XorAssoc(c, b, d);
    XorAssoc(a, c, Xor(b, d));
  }

  lemma ShiftXor(a: bv32, b: bv32)
    ensures Shift(Xor(a, b)) == Xor(Shift(a), Shift(b))
  {
    hide Xor, Half, Tap;
    XorHalf(a, b);
    XorTap(a, b);
    XorSwap(Half(a), Half(b), Tap(a), Tap(b));
  }

  lemma {:induction false} ShiftsXor(a: bv32, b: bv32, n: nat)
    ensures Shifts(Xor(a, b), n) == Xor(Shifts(a, n), Shifts(b, n))
    decreases n
  {
    hide Xor, Shift;
    if n > 0 {
      ShiftXor(a, b);
      ShiftsXor(Shift(a), Shift(b), n - 1);
    }
  }

  /* ----- feeding up to 32 bits at once ----- */

  /** The bits as a word, the first one lowest. */
  function Word(bits: seq<bool>): bv32 {
    if bits == [] then 0 else Xor(Bit(bits[0]), Double(Word(bits[1..])))
  }

  predicate TopClear(w: bv32) { w & 0x8000_0000 == 0 }

  /** Nothing at or above bit `n`. */
  predicate Below(w: bv32, n: nat) { if n == 0 then w == 0 else Below(Half(w), n - 1) }

  lemma HalfZero()
    ensures Half(0) == 0
  {
  }

  lemma {:induction false} BelowNext(w: bv32, n: nat)
    requires Below(w, n)
    ensures Below(w, n + 1)
    decreases n
  {
    hide Half;
    HalfZero();
    if n > 0 {
      BelowNext(Half(w), n - 1);
    }
  }

  lemma {:induction false} BelowMore(w: bv32, n: nat, m: nat)
    requires Below(w, n) && n <= m
    ensures Below(w, m)
    decreases m - n
  {
    hide Below;
    if n < m {
      BelowNext(w, n);
      BelowMore(w, n + 1, m);
    }
  }

  lemma BelowSkip(w: bv32, n: nat)
    requires Below(w, n + 4)
    ensures Below(Half(Half(Half(Half(w)))), n)
  {
    hide Half;
    assert Below(Half(w), n + 3);
    assert Below(Half(Half(w)), n + 2);
    assert Below(Half(Half(Half(w))), n + 1);
  }

  function Skip(w: bv32): bv32 { Half(Half(Half(Half(w)))) }

  lemma SkipTop(w: bv32)
    requires (w >> 31) == 0
    ensures TopClear(w)
  {
  }

  lemma SkipMany(w: bv32)
    ensures Half(Half(Half(Skip(Skip(Skip(Skip(Skip(Skip(Skip(w)))))))))) == w >> 31
  {
  }

  lemma BelowTop(w: bv32, n: nat)
    requires Below(w, n) && n <= 31
    ensures TopClear(w)
  {
    hide Half, TopClear;
    BelowMore(w, n, 31);
    var w1 := Skip(w);
    var w2 := Skip(w1);
    var w3 := Skip(w2);
    var w4 := Skip(w3);
    var w5 := Skip(w4);
    var w6 := Skip(w5);
    var w7 := Skip(w6);
    BelowSkip(w, 27);
    BelowSkip(w1, 23);
    BelowSkip(w2, 19);
    BelowSkip(w3, 15);
    BelowSkip(w4, 11);
    BelowSkip(w5, 7);
    BelowSkip(w6, 3);
    assert Below(Half(w7), 2);
    assert Below(Half(Half(w7)), 1);
    assert Below(Half(Half(Half(w7))), 0);
    SkipMany(w);
    SkipTop(w);
  }

  lemma HalfOfPair(b: bool, w: bv32)
    requires TopClear(w)
    ensures Half(Xor(Bit(b), Double(w))) == w && Shift(Double(w)) == w
  {
  }

  function LowBit(x: bv32): bv32 { x & 1 }

  lemma LowOfPair(b: bool, w: bv32)
    ensures LowBit(Xor(Bit(b), Double(w))) == Bit(b)
  {
  }

  lemma {:induction false} WordBelow(bits: seq<bool>)
    requires |bits| <= 32
    ensures Below(Word(bits), |bits|)
    ensures |bits| <= 31 ==> TopClear(Word(bits))
    decreases |bits|
  {
    hide Half, Xor, Double, TopClear, Bit, Shift;
    if bits != [] {
      WordBelow(bits[1..]);
      HalfOfPair(bits[0], Word(bits[1..]));
    }
    if |bits| <= 31 {
      BelowTop(Word(bits), |bits|);
    }
  }

  /** Feeding bits one by one is putting them into the register and shifting. */
  lemma {:induction false} FeedWord(c: bv32, bits: seq<bool>)
    requires |bits| <= 32
    ensures FeedAll(c, bits) == Shifts(Xor(c, Word(bits)), |bits|)
    decreases |bits|
  {
    hide Half, Xor, Double, TopClear, Bit, Shift, Feed;
    if bits == [] {
      XorZero(c);
    } else {
      var b, w := Bit(bits[0]), Word(bits[1..]);
      FeedWord(Feed(c, bits[0]), bits[1..]);
      FeedIsShift(c, bits[0]);
      WordBelow(bits[1..]);
      HalfOfPair(bits[0], w);
      ShiftXor(Xor(c, b), Double(w));
      XorAssoc(c, b, Double(w));
    }
  }

  lemma XorZero(c: bv32)
    ensures Xor(c, 0) == c
  {
  }

  /* ----- every burst of up to 32 bits is noticed ----- */

  lemma ShiftZero(x: bv32)
    requires Shift(x) == 0
    ensures x == 0
  {
  }

  lemma ShiftDiffers(a: bv32, b: bv32)
    requires a != b
    ensures Shift(a) != Shift(b)
  {
    hide Xor, Shift;
    ShiftXor(a, b);
    XorSelf(a, b);
    XorSelf(Shift(a), Shift(b));
    if Shift(a) == Shift(b) {
      ShiftZero(Xor(a, b));
    }
  }

  lemma {:induction false} ShiftsDiffer(a: bv32, b: bv32, n: nat)
    requires a != b
    ensures Shifts(a, n) != Shifts(b, n)
    decreases n
  {
    hide Shift;
    if n > 0 {
      ShiftDiffers(a, b);
      ShiftsDiffer(Shift(a), Shift(b), n - 1);
    }
  }

  lemma XorDiffers(c: bv32, a: bv32, b: bv32)
    requires a != b
    ensures Xor(c, a) != Xor(c, b)
  {
  }

  lemma {:induction false} FeedDiffers(a: bv32, b: bv32, bits: seq<bool>)
    requires a != b
    ensures FeedAll(a, bits) != FeedAll(b, bits)
    decreases |bits|
  {
    hide Feed, Shift, Xor, Bit;
    if bits != [] {
      var x := Bit(bits[0]);
      XorComm(a, x);
      XorComm(b, x);
      XorDiffers(x, a, b);
      ShiftDiffers(Xor(a, x), Xor(b, x));
      FeedIsShift(a, bits[0]);
      FeedIsShift(b, bits[0]);
      FeedDiffers(Feed(a, bits[0]), Feed(b, bits[0]), bits[1..]);
    }
  }

  lemma BitIsUnique(a: bool, b: bool)
    requires Bit(a) == Bit(b)
    ensures a == b
  {
  }

  lemma {:induction false} WordIsUnique(x: seq<bool>, y: seq<bool>)
    requires |x| == |y| <= 32 && Word(x) == Word(y)
    ensures x == y
    decreases |x|
  {
    hide Half, Xor, Double, TopClear, Bit, LowBit, Shift, Below;
    if x != [] {
      var a, b := Word(x[1..]), Word(y[1..]);
      assert Word(x) == Xor(Bit(x[0]), Double(a)) && Word(y) == Xor(Bit(y[0]), Double(b));
      LowOfPair(x[0], a);
      LowOfPair(y[0], b);
      BitIsUnique(x[0], y[0]);
      WordBelow(x[1..]);
      WordBelow(y[1..]);
      HalfOfPair(x[0], a);
      HalfOfPair(y[0], b);
      WordIsUnique(x[1..], y[1..]);
      assert x == [x[0]] + x[1..] && y == [y[0]] + y[1..];
    }
  }

  /** Two messages of one length that differ only within 32 neighbouring bits never have the same checksum. */
  lemma BurstIsNoticed(m: seq<bv8>, n: seq<bv8>, before: seq<bool>, x: seq<bool>, y: seq<bool>, after: seq<bool>,
                       crc: bv32)
    requires AllBits(m) == before + x + after && AllBits(n) == before + y + after
    requires |x| == |y| <= 32 && x != y
    ensures Crc(m, crc) != Crc(n, crc)
  {
    hide FeedAll, AllBits, Word, Xor, Shifts, Not;
    var c := Not(crc);
    var d := FeedAll(c, before);
    FeedConcat(c, before + x, after);
    FeedConcat(c, before, x);
    FeedConcat(c, before + y, after);
    FeedConcat(c, before, y);
    FeedWord(d, x);
    FeedWord(d, y);
    if Word(x) == Word(y) {
      WordIsUnique(x, y);
    }
    XorDiffers(d, Word(x), Word(y));
    ShiftsDiffer(Xor(d, Word(x)), Xor(d, Word(y)), |x|);
    FeedDiffers(FeedAll(d, x), FeedAll(d, y), after);
    NotNot(FeedAll(c, AllBits(m)));
    NotNot(FeedAll(c, AllBits(n)));
  }

  /* ----- the table ----- */

  function Low(x: bv32): bv32 { x & 0xFF }

  function High(x: bv32): bv32 { x & 0xFFFF_FF00 }

  function Byte(b: bv8): bv32 { b as bv32 }

  lemma LowHigh(x: bv32)
    ensures Xor(Low(x), High(x)) == x
  {
  }

  predicate Even(y: bv32) { y & 1 == 0 }

  lemma ShiftEven(y: bv32)
    requires Even(y)
    ensures Shift(y) == Half(y)
  {
  }

  function Rest(x: bv32): bv32 { x >> 8 }

  lemma HighHalves(x: bv32)
    ensures var h := High(x);
            Even(h) && Even(Half(h)) && Even(Half(Half(h))) && Even(Half(Half(Half(h)))) && Even(Skip(h)) &&
            Even(Half(Skip(h))) && Even(Half(Half(Skip(h)))) && Even(Half(Half(Half(Skip(h))))) &&
            Skip(Skip(h)) == Rest(x)
  {
  }

  lemma EvenShifts(y: bv32, n: nat)
    requires Even(y) && Even(Half(y)) && Even(Half(Half(y))) && Even(Half(Half(Half(y))))
    ensures Shifts(y, n + 4) == Shifts(Skip(y), n)
  {
    hide Half, Shift, Even;
    ShiftEven(y);
    ShiftEven(Half(y));
    ShiftEven(Half(Half(y)));
    ShiftEven(Half(Half(Half(y))));
    assert Shifts(y, n + 4) == Shifts(Half(y), n + 3);
    assert Shifts(Half(y), n + 3) == Shifts(Half(Half(y)), n + 2);
    assert Shifts(Half(Half(y)), n + 2) == Shifts(Half(Half(Half(y))), n + 1);
  }

  /** One lookup is eight shifts. */
  lemma Lookup(x: bv32)
    ensures Shifts(x, 8) == Xor(Shifts(Low(x), 8), Rest(x))
  {
    hide Xor, Low, High, Shifts, Half, Even, Rest, Skip;
    LowHigh(x);
    ShiftsXor(Low(x), High(x), 8);
    HighShifts(x);
  }

  lemma HighShifts(x: bv32)
    ensures Shifts(High(x), 8) == Rest(x)
  {
    hide High, Half, Even, Rest, Shift;
    HighHalves(x);
    EvenShifts(High(x), 4);
    EvenShifts(Skip(High(x)), 0);
  }

  lemma ByteWord(b: bv8)
    ensures Word(BitsOf(b)) == Byte(b)
  {
    hide Xor, Double, Bit, BitsOf;
    WordOfEight(BitsOf(b));
    EightBits(b);
  }

  function Pair(b: bool, w: bv32): bv32 { Xor(Bit(b), Double(w)) }

  lemma WordOfEight(s: seq<bool>)
    requires |s| == 8
    ensures Word(s) == Pair(s[0], Pair(s[1], Pair(s[2], Pair(s[3], Pair(s[4], Pair(s[5], Pair(s[6], Pair(s[7], 0))))))))
  {
    hide Xor, Double, Bit;
    forall i | 0 <= i < 8 ensures Word(s[i..]) == Pair(s[i], Word(s[i + 1..])) {
      assert s[i..][1..] == s[i + 1..];
    }
    assert s[0..] == s && s[8..] == [];
  }

  lemma EightBits(b: bv8)
    ensures var s := BitsOf(b);
            Pair(s[0], Pair(s[1], Pair(s[2], Pair(s[3], Pair(s[4], Pair(s[5], Pair(s[6], Pair(s[7], 0)))))))) == Byte(b)
  {
  }

  /** A whole byte, by one lookup. */
  lemma FeedByte(c: bv32, b: bv8)
    ensures FeedAll(c, BitsOf(b)) == Xor(Shifts(Low(Xor(c, Byte(b))), 8), Rest(Xor(c, Byte(b))))
  {
    hide FeedAll, BitsOf, Word, Xor, Low, Rest, Shifts, Byte;
    FeedWord(c, BitsOf(b));
    ByteWord(b);
    Lookup(Xor(c, Byte(b)));
  }

  function Index(c: bv32, b: bv8): (i: bv32)
    ensures i < 256
  {
    (b as bv32) ^ (c & 0xFF)
  }

  lemma IndexIsLow(c: bv32, b: bv8)
    ensures Low(Xor(c, Byte(b))) == Index(c, b) && Rest(Xor(c, Byte(b))) == Rest(c)
  {
  }

  lemma IndexBack(i: bv32)
    requires i < 256
    ensures 0 <= i as int < 256 && (i as int) as bv32 == i
  {
  }

  function Number(k: nat): bv32
    requires k < 256
  {
    k as bv32
  }

  ghost predicate TableReady(t: seq<bv32>) {
    |t| == 256 && forall k: nat :: k < 256 ==> t[k] == Shifts(Number(k), 8)
  }

  /** All ones for an odd number, none for an even one, by arithmetic instead of a branch. */
  function TapByMask(r: bv32): bv32 { POLY & !((r & 1) - 1) }

  lemma MaskIsTap(r: bv32)
    ensures TapByMask(r) == Tap(r)
  {
  }

  lemma ShiftTrick(r: bv32)
    ensures Shift(r) == Xor(Half(r), TapByMask(r))
  {
    hide Xor, Half, Tap, TapByMask;
    MaskIsTap(r);
  }

  lemma {:induction false} ShiftsNext(r: bv32, n: nat)
    ensures Shifts(r, n + 1) == Shift(Shifts(r, n))
    decreases n
  {
    hide Shift;
    if n > 0 {
      ShiftsNext(Shift(r), n - 1);
    }
  }

  method ShiftOnce(r: bv32) returns (s: bv32)
    ensures s == Shift(r)
  {
    hide Xor, Half, TapByMask, Shift;
    ShiftTrick(r);
    s := Xor(Half(r), TapByMask(r));
  }

  /** Fills the table. */
  method Init(table: array<bv32>)
    requires table.Length == 256
    modifies table
    ensures TableReady(table[..])
  {
    hide Shift, Shifts, Number;
    var i := 0;
    while i < 256
      invariant i <= 256
      invariant forall k: nat :: k < i ==> table[k] == Shifts(Number(k), 8)
    {
      var r := Number(i);
      var j := 0;
      NoShift(r);
      while j < 8
        invariant j <= 8 && r == Shifts(Number(i), j)
        invariant forall k: nat :: k < i ==> table[k] == Shifts(Number(k), 8)
      {
        ShiftsNext(Number(i), j);
        r := ShiftOnce(r);
        j := j + 1;
      }
      table[i] := r;
      i := i + 1;
    }
  }

  lemma NoShift(r: bv32)
    ensures Shifts(r, 0) == r
  {
  }

  /** One round of the loop. */
  method Absorb(table: array<bv32>, c: bv32, b: bv8) returns (d: bv32)
    requires TableReady(table[..])
    ensures d == FeedAll(c, BitsOf(b))
  {
    hide FeedAll, BitsOf, Shifts, Low, Byte, Index;
    FeedByte(c, b);
    IndexIsLow(c, b);
    var i := Index(c, b);
    IndexBack(i);
    NumberOf(i);
    d := Xor(table[i as int], Rest(c));
  }

  lemma NumberOf(i: bv32)
    requires i < 256
    ensures 0 <= i as int < 256 && Number(i as int) == i
  {
    IndexBack(i);
  }

  /** The table-driven loop computes what the shift register does, for every buffer and every start value. */
  method Compute(table: array<bv32>, buf: seq<bv8>, crc: bv32) returns (r: bv32)
    requires TableReady(table[..])
    ensures r == Crc(buf, crc)
  {
    hide FeedAll, Feed, BitsOf, TableReady, AllBits, Not;
    NothingFed(Not(crc));
    var c := Not(crc);
    var i := 0;
    while i < |buf|
      invariant i <= |buf| && c == FeedAll(Not(crc), AllBits(buf[..i]))
    {
      BitsNext(buf, i);
      FeedConcat(Not(crc), AllBits(buf[..i]), BitsOf(buf[i]));
      c := Absorb(table, c, buf[i]);
      i := i + 1;
    }
    assert buf[..i] == buf;
    return Not(c);
  }

  lemma NothingFed(c: bv32)
    ensures FeedAll(c, AllBits([])) == c
  {
  }

  lemma BitsNext(buf: seq<bv8>, i: nat)
    requires i < |buf|
    ensures AllBits(buf[..i + 1]) == AllBits(buf[..i]) + BitsOf(buf[i])
  {
    hide BitsOf;
    assert buf[..i + 1][..i] == buf[..i];
  }

  /* ----- the check value ----- */

  function Eight(c: bv32, s: seq<bool>): bv32
    requires |s| == 8
  {
    Feed(Feed(Feed(Feed(Feed(Feed(Feed(Feed(c, s[0]), s[1]), s[2]), s[3]), s[4]), s[5]), s[6]), s[7])
  }

  lemma EightFed(c: bv32, s: seq<bool>)
    requires |s| == 8
    ensures FeedAll(c, s) == Eight(c, s)
  {
    hide Feed;
    forall i, d | 0 <= i < 8 ensures FeedAll(d, s[i..]) == FeedAll(Feed(d, s[i]), s[i + 1..]) {
      assert s[i..][1..] == s[i + 1..];
    }
    assert s[0..] == s && s[8..] == [];
  }

  lemma FeedNext(c: bv32, buf: seq<bv8>, i: nat)
    requires i < |buf|
    ensures FeedAll(c, AllBits(buf[..i + 1])) == Eight(FeedAll(c, AllBits(buf[..i])), BitsOf(buf[i]))
  {
    hide FeedAll, BitsOf, Eight, Feed, AllBits;
    BitsNext(buf, i);
    FeedConcat(c, AllBits(buf[..i]), BitsOf(buf[i]));
    EightFed(FeedAll(c, AllBits(buf[..i])), BitsOf(buf[i]));
  }

  /** The register after each of the digits 1 to 9. */
  lemma DigitsFed()
    ensures Eight(0xFFFF_FFFF, BitsOf(0x31)) == 0x7C23_1048 && Eight(0x7C23_1048, BitsOf(0x32)) == 0xB0AC_BB32
    ensures Eight(0xB0AC_BB32, BitsOf(0x33)) == 0x77B7_9C2D && Eight(0x77B7_9C2D, BitsOf(0x34)) == 0x641C_1F5C
    ensures Eight(0x641C_1F5C, BitsOf(0x35)) == 0x340A_C5E3 && Eight(0x340A_C5E3, BitsOf(0x36)) == 0xF68D_2C9E
    ensures Eight(0xF68D_2C9E, BitsOf(0x37)) == 0xAFFC_9660 && Eight(0xAFFC_9660, BitsOf(0x38)) == 0x651F_2550
    ensures Eight(0x651F_2550, BitsOf(0x39)) == 0x340B_C6D9
    ensures Not(0) == 0xFFFF_FFFF && Not(0x340B_C6D9) == 0xCBF4_3926
  {
  }

  /** The checksum of the digits 1 to 9 is the one published for this code. */
  lemma CheckValue()
    ensures Crc([0x31, 0x32, 0x33, 0x34, 0x35, 0x36, 0x37, 0x38, 0x39], 0) == 0xCBF4_3926
  {
    hide FeedAll, BitsOf, Eight, AllBits, Not;
    DigitsFed();
    var c, digits := Not(0), [0x31, 0x32, 0x33, 0x34, 0x35, 0x36, 0x37, 0x38, 0x39];
    assert digits[..0] == [] && digits[..9] == digits;
    NothingFed(c);
    FeedNext(c, digits, 0);
    FeedNext(c, digits, 1);
    FeedNext(c, digits, 2);
    FeedNext(c, digits, 3);
    FeedNext(c, digits, 4);
    FeedNext(c, digits, 5);
    FeedNext(c, digits, 6);
    FeedNext(c, digits, 7);
    FeedNext(c, digits, 8);
  }
}
