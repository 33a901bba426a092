/** Byte strings: UTF-8 validity, the order of `str` keys, and little helpers on them. */
module Bytes {

  newtype byte = x: int | 0 <= x < 256
  type Bytes = seq<byte>

  function Zeros(n: nat): (z: Bytes)
    ensures |z| == n && forall i :: 0 <= i < n ==> z[i] == 0
  {
    seq(n, _ => 0)
  }

  /** The number of four byte words `x` bytes take up. */
  function Words(x: nat): (w: nat)
    ensures 4 * w - 4 < x <= 4 * w
  {
    (x + 3) / 4
  }

  function Align4(x: nat): nat { Words(x) * 4 }

  function Pad4(x: nat): nat { 4 * Words(x) - x }

  /** Padding is computed from file positions; from an aligned start only the length matters. */
  lemma AlignFrom(start: nat, n: nat)
    ensures Align4(4 * start + n) == 4 * start + n + Pad4(n) == 4 * (start + Words(n))
  {
  }

  /* ----- UTF-8 ----- */

  predicate Continuation(b: byte) { 0x80 <= b < 0xC0 }

  /** The length of the character a byte starts, 0 if it starts none. */
  function LeadLength(b: byte): nat {
    if b < 0x80 then 1
    else if 0xC2 <= b < 0xE0 then 2
    else if 0xE0 <= b < 0xF0 then 3
    else if 0xF0 <= b < 0xF5 then 4
    else 0
  }

  /** A leading byte is followed by its whole character; no overlong forms, surrogates or values beyond U+10FFFF. */
  predicate StartsCharacter(s: Bytes, i: nat)
    requires i < |s|
  {
    var n := LeadLength(s[i]);
    n > 0 && i + n <= |s| &&
    (n >= 2 ==> Continuation(s[i + 1])) && (n >= 3 ==> Continuation(s[i + 2])) && (n >= 4 ==> Continuation(s[i + 3])) &&
    (s[i] == 0xE0 ==> s[i + 1] >= 0xA0) && (s[i] == 0xED ==> s[i + 1] < 0xA0) &&
    (s[i] == 0xF0 ==> s[i + 1] >= 0x90) && (s[i] == 0xF4 ==> s[i + 1] < 0x90)
  }

  /** A continuation byte belongs to a character started at most three bytes earlier. */
  predicate WellPlaced(s: Bytes, i: nat)
    requires i < |s|
  {
    if Continuation(s[i])
    then (i >= 1 && LeadLength(s[i - 1]) > 1) || (i >= 2 && LeadLength(s[i - 2]) > 2) ||
         (i >= 3 && LeadLength(s[i - 3]) > 3)
    else StartsCharacter(s, i)
  }

  predicate ValidUtf8(s: Bytes) {
    forall i :: 0 <= i < |s| ==> WellPlaced(s, i)
  }

  lemma ConcatUtf8(a: Bytes, b: Bytes)
    requires ValidUtf8(a) && ValidUtf8(b)
    ensures ValidUtf8(a + b)
  {
    forall i | 0 <= i < |a + b| ensures WellPlaced(a + b, i) {
      if i < |a| {
        assert WellPlaced(a, i);
      } else {
        assert WellPlaced(b, i - |a|);
      }
    }
  }

  /* ----- order ----- */

  predicate Less(a: Bytes, b: Bytes) {
    b != [] && (a == [] || a[0] < b[0] || (a[0] == b[0] && Less(a[1..], b[1..])))
  }

  lemma {:induction false} LessTotal(a: Bytes, b: Bytes)
    ensures Less(a, b) || a == b || Less(b, a)
    decreases |a|
  {
    if a != [] && b != [] {
      LessTotal(a[1..], b[1..]);
      if a[0] == b[0] && a[1..] == b[1..] {
        assert a == [a[0]] + a[1..] == b;
      }
    }
  }

  lemma {:induction false} LessAsymmetric(a: Bytes, b: Bytes)
    ensures !(Less(a, b) && Less(b, a)) && !Less(a, a)
    decreases |a|
  {
    if a != [] {
      LessAsymmetric(a[1..], if b == [] then b else b[1..]);
    }
  }

  lemma {:induction false} LessTransitive(a: Bytes, b: Bytes, c: Bytes)
    requires Less(a, b) && Less(b, c)
    ensures Less(a, c)
    decreases |a|
  {
    if a != [] && a[0] == b[0] && b[0] == c[0] {
      LessTransitive(a[1..], b[1..], c[1..]);
    }
  }

  predicate IsLeast(x: Bytes, s: set<Bytes>) {
    x in s && forall y :: y in s && y != x ==> Less(x, y)
  }

  lemma {:induction false} LeastExists(s: set<Bytes>) returns (x: Bytes)
    requires s != {}
    ensures IsLeast(x, s)
    decreases s
  {
    var e :| e in s;
    var rest := s - {e};
    assert s == rest + {e};
    if rest == {} {
      x := e;
    } else {
      var m := LeastExists(rest);
      LessTotal(e, m);
      if Less(m, e) {
        x := m;
      } else {
        x := e;
        forall y | y in rest && y != m ensures Less(e, y) { LessTransitive(e, m, y); }
      }
    }
  }

  lemma LeastIsUnique(s: set<Bytes>)
    requires s != {}
    ensures exists x :: IsLeast(x, s)
    ensures forall x, y :: IsLeast(x, s) && IsLeast(y, s) ==> x == y
  {
    var l := LeastExists(s);
    forall x, y | IsLeast(x, s) && IsLeast(y, s) ensures x == y { LessAsymmetric(x, y); }
  }

  /** The keys of an ordered map, in the order it iterates them. */
  function Sorted(s: set<Bytes>): (r: seq<Bytes>)
    ensures |r| == |s|
    ensures forall x :: x in r <==> x in s
    decreases s
  {
    if s == {} then []
    else
      LeastIsUnique(s);
      var x :| IsLeast(x, s);
      [x] + Sorted(s - {x})
  }

  ghost predicate Ascending(r: seq<Bytes>) {
    forall i, j :: 0 <= i < j < |r| ==> Less(r[i], r[j])
  }

  lemma {:induction false} SortedAscending(s: set<Bytes>)
    ensures Ascending(Sorted(s))
    decreases s
  {
    if s != {} {
      LeastIsUnique(s);
      var r := Sorted(s);
      var x :| IsLeast(x, s);
      SortedAscending(s - {x});
      assert r[1..] == Sorted(s - {x});
      forall i, j | 0 <= i < j < |r| ensures Less(r[i], r[j]) {
        assert r[j] == r[1..][j - 1];
        if i > 0 {
          assert r[i] == r[1..][i - 1];
        } else {
          assert r[j] in s - {x};
        }
      }
    }
  }

  const WORD: nat := 0x1_0000_0000

  /* ----- little endian words ----- */

  function Le32(x: nat): (w: Bytes)
    ensures |w| == 4
  {
    [(x % 256) as byte, (x / 256 % 256) as byte, (x / 0x1_0000 % 256) as byte, (x / 0x100_0000 % 256) as byte]
  }

  function FromLe32(w: Bytes): nat
    requires |w| == 4
  {
    w[0] as nat + 256 * w[1] as nat + 0x1_0000 * w[2] as nat + 0x100_0000 * w[3] as nat
  }

  /** Sums of 32-bit numbers may be cut to 32 bits on the way. */
  lemma WordAdd(a: nat, b: nat)
    ensures (a % WORD + b) % WORD == (a + b) % WORD
  {
    WordShift(a % WORD + b, a / WORD);
  }

  lemma {:induction false} WordShift(x: nat, q: nat)
    ensures (x + WORD * q) % WORD == x % WORD
    decreases q
  {
    if q > 0 {
      WordShift(x, q - 1);
      assert x + WORD * q == (x + WORD * (q - 1)) + WORD;
    }
  }

  lemma Le32RoundTrip(x: nat)
    requires x < WORD
    ensures FromLe32(Le32(x)) == x
  {
    var a, b := x / 256, x / 0x1_0000;
    assert x / 0x100_0000 == b / 256 && b == a / 256;
  }
}
