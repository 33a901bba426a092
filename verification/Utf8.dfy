/** UTF-8 by what it encodes, and the order of byte strings by where they differ. */
module Utf8 {
  import opened Bytes

  /** A character: no surrogate, nothing beyond U+10FFFF. */
  predicate Scalar(c: nat) { c < 0xD800 || 0xE000 <= c <= 0x10FFFF }

  function Tail(c: nat): byte { (0x80 + c % 0x40) as byte }

  function Encode(c: nat): (r: Bytes)
    requires Scalar(c)
  {
    if c < 0x80 then [c as byte]
    else if c < 0x800 then [(0xC0 + c / 0x40) as byte, Tail(c)]
    else if c < 0x1_0000 then [(0xE0 + c / 0x1000) as byte, Tail(c / 0x40), Tail(c)]
    else [(0xF0 + c / 0x4_0000) as byte, Tail(c / 0x1000), Tail(c / 0x40), Tail(c)]
  }

  ghost predicate Scalars(cs: seq<nat>) { forall i :: 0 <= i < |cs| ==> Scalar(cs[i]) }

  function EncodeAll(cs: seq<nat>): Bytes
    requires Scalars(cs)
  {
    if cs == [] then [] else Encode(cs[0]) + EncodeAll(cs[1..])
  }

  lemma OneIsValid(c: nat)
    requires Scalar(c)
    ensures ValidUtf8(Encode(c))
  {
    var s := Encode(c);
    forall i | 0 <= i < |s| ensures WellPlaced(s, i) {}
  }

  lemma Digits(x: nat, y: nat, z: nat)
    requires y < 0x40 && z < 0x40
    ensures (x * 0x40 + y) / 0x40 == x && (x * 0x40 + y) % 0x40 == y
    ensures ((x * 0x40 + y) * 0x40 + z) / 0x1000 == x
  {
  }

  lemma TwoBytes(a: byte, b: byte) returns (c: nat)
    requires 0xC2 <= a < 0xE0 && Continuation(b)
    ensures Scalar(c) && Encode(c) == [a, b]
  {
    var x, y := a as nat - 0xC0, b as nat - 0x80;
    c := x * 0x40 + y;
    Digits(x, y, 0);
  }

  lemma ThreeBytes(a: byte, b: byte, d: byte) returns (c: nat)
    requires 0xE0 <= a < 0xF0 && Continuation(b) && Continuation(d)
    requires (a == 0xE0 ==> b >= 0xA0) && (a == 0xED ==> b < 0xA0)
    ensures Scalar(c) && Encode(c) == [a, b, d]
  {
    var x, y, z := a as nat - 0xE0, b as nat - 0x80, d as nat - 0x80;
    c := (x * 0x40 + y) * 0x40 + z;
    Digits(x, y, z);
    Digits(x * 0x40 + y, z, 0);
  }

  lemma FourBytes(a: byte, b: byte, d: byte, e: byte) returns (c: nat)
    requires 0xF0 <= a < 0xF5 && Continuation(b) && Continuation(d) && Continuation(e)
    requires (a == 0xF0 ==> b >= 0x90) && (a == 0xF4 ==> b < 0x90)
    ensures Scalar(c) && Encode(c) == [a, b, d, e]
  {
    var x, y, z, w := a as nat - 0xF0, b as nat - 0x80, d as nat - 0x80, e as nat - 0x80;
    var xy := x * 0x40 + y;
    var xyz := xy * 0x40 + z;
    c := xyz * 0x40 + w;
    Digits(x, y, z);
    Digits(xy, z, w);
    Digits(xyz, w, 0);
    assert c / 0x4_0000 == x by {
      assert c == x * 0x4_0000 + (y * 0x1000 + z * 0x40 + w);
    }
  }

  lemma FirstCharacter(s: Bytes) returns (c: nat)
    requires s != [] && ValidUtf8(s)
    ensures var n := LeadLength(s[0]);
            1 <= n <= |s| && Scalar(c) && Encode(c) == s[..n]
  {
    hide Encode;
    assert WellPlaced(s, 0);
    if LeadLength(s[0]) == 1 {
      c := s[0] as nat;
      OneByte(s[0]);
    } else if LeadLength(s[0]) == 2 {
      c := TwoBytes(s[0], s[1]);
    } else if LeadLength(s[0]) == 3 {
      c := ThreeBytes(s[0], s[1], s[2]);
    } else {
      c := FourBytes(s[0], s[1], s[2], s[3]);
    }
  }

  lemma OneByte(a: byte)
    requires a < 0x80
    ensures Scalar(a as nat) && Encode(a as nat) == [a]
  {
  }

  lemma RestIsValid(s: Bytes)
    requires s != [] && ValidUtf8(s) && 1 <= LeadLength(s[0]) <= |s|
    ensures ValidUtf8(s[LeadLength(s[0])..])
  {
    var n := LeadLength(s[0]);
    var r := s[n..];
    assert WellPlaced(s, 0);
    forall i | 0 <= i < |r| ensures WellPlaced(r, i) {
      assert WellPlaced(s, n + i);
    }
  }

  /** A byte string is valid exactly if it is the encoding of some characters. */
  lemma {:induction false} EncodedIsValid(cs: seq<nat>)
    requires Scalars(cs)
    ensures ValidUtf8(EncodeAll(cs))
    decreases |cs|
  {
    hide ValidUtf8;
    if cs != [] {
      OneIsValid(cs[0]);
      EncodedIsValid(cs[1..]);
      ConcatUtf8(Encode(cs[0]), EncodeAll(cs[1..]));
    } else {
      NothingIsValid();
    }
  }

  lemma NothingIsValid()
    ensures ValidUtf8([])
  {
  }

  lemma {:induction false} ValidIsEncoded(s: Bytes) returns (cs: seq<nat>)
    requires ValidUtf8(s)
    ensures Scalars(cs) && EncodeAll(cs) == s
    decreases |s|
  {
    hide ValidUtf8, Encode, Scalar;
    if s == [] {
      cs := [];
    } else {
      var c := FirstCharacter(s);
      RestIsValid(s);
      var n := LeadLength(s[0]);
      var rest := ValidIsEncoded(s[n..]);
      cs := [c] + rest;
      assert cs[1..] == rest && s == s[..n] + s[n..];
    }
  }

  /** `a` is smaller at the first place where the two differ, or ends there. */
  ghost predicate SmallerAt(a: Bytes, b: Bytes, k: nat) {
    k <= |a| && k < |b| && a[..k] == b[..k] && (k == |a| || a[k] < b[k])
  }

  lemma {:induction false} LessIsSmaller(a: Bytes, b: Bytes)
    ensures Less(a, b) <==> exists k :: SmallerAt(a, b, k)
    decreases |a|
  {
    if b != [] && (a == [] || a[0] < b[0]) {
      assert SmallerAt(a, b, 0);
    } else if a != [] && b != [] && a[0] == b[0] {
      LessIsSmaller(a[1..], b[1..]);
      if k: nat :| SmallerAt(a[1..], b[1..], k) {
        assert a[..k + 1] == [a[0]] + a[1..][..k] == b[..k + 1];
        assert SmallerAt(a, b, k + 1);
      }
      if k: nat :| SmallerAt(a, b, k) {
        assert a[1..][..k - 1] == a[..k][1..] == b[..k][1..] == b[1..][..k - 1];
        assert SmallerAt(a[1..], b[1..], k - 1);
      }
    } else if a != [] && b != [] {
      forall k: nat ensures !SmallerAt(a, b, k) {
        assert 0 < k <= |a| && k <= |b| ==> a[..k][0] == a[0] && b[..k][0] == b[0];
      }
    }
  }
}
