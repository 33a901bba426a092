/** Removing mount flags from a file system table, in place. */
module FlagPatch {
  import opened Options
  import opened Bytes

  const COMMA: byte := 0x2C
  const EQUALS: byte := 0x3D

  predicate Blank(c: byte) { c == 0x20 || c == 0x0A || c == 0 }

  type Patterns = seq<Bytes>

  // verifyatboot
  const VERIFYATBOOT: Bytes := [0x76, 0x65, 0x72, 0x69, 0x66, 0x79, 0x61, 0x74, 0x62, 0x6F, 0x6F, 0x74]
  const VERIFY: Bytes := [0x76, 0x65, 0x72, 0x69, 0x66, 0x79]   // verify
  const AVB_KEYS: Bytes := [0x61, 0x76, 0x62, 0x5F, 0x6B, 0x65, 0x79, 0x73]   // avb_keys
  const AVB: Bytes := [0x61, 0x76, 0x62]   // avb
  // support_scfs
  const SUPPORT_SCFS: Bytes := [0x73, 0x75, 0x70, 0x70, 0x6F, 0x72, 0x74, 0x5F, 0x73, 0x63, 0x66, 0x73]
  const FSVERITY: Bytes := [0x66, 0x73, 0x76, 0x65, 0x72, 0x69, 0x74, 0x79]   // fsverity
  // forceencrypt
  const FORCEENCRYPT: Bytes := [0x66, 0x6F, 0x72, 0x63, 0x65, 0x65, 0x6E, 0x63, 0x72, 0x79, 0x70, 0x74]
  // forcefdeorfbe
  const FORCEFDEORFBE: Bytes := [0x66, 0x6F, 0x72, 0x63, 0x65, 0x66, 0x64, 0x65, 0x6F, 0x72, 0x66, 0x62, 0x65]
  // fileencryption
  const FILEENCRYPTION: Bytes := [0x66, 0x69, 0x6C, 0x65, 0x65, 0x6E, 0x63, 0x72, 0x79, 0x70, 0x74, 0x69, 0x6F, 0x6E]

  const VERITY: Patterns := [VERIFYATBOOT, VERIFY, AVB_KEYS, AVB, SUPPORT_SCFS, FSVERITY]
  const ENCRYPTION: Patterns := [FORCEENCRYPT, FORCEFDEORFBE, FILEENCRYPTION]

  predicate Solid(p: Bytes) { p != [] && p[0] != COMMA && forall i :: 0 <= i < |p| ==> !Blank(p[i]) }

  /** Patterns without blanks, none of them hidden behind an earlier one that begins it. */
  ghost predicate Usable(ps: Patterns) {
    (forall i :: 0 <= i < |ps| ==> Solid(ps[i])) && (forall i, j :: 0 <= i < j < |ps| ==> !(ps[i] <= ps[j]))
  }

  lemma NotPrefix(a: Bytes, b: Bytes, k: nat)
    requires k < |a| && (k >= |b| || a[k] != b[k])
    ensures !(a <= b)
  {
  }

  lemma WordsSolid()
    ensures Solid(VERIFYATBOOT) && Solid(VERIFY) && Solid(AVB_KEYS) && Solid(AVB) && Solid(SUPPORT_SCFS) &&
            Solid(FSVERITY)
    ensures Solid(FORCEENCRYPT) && Solid(FORCEFDEORFBE) && Solid(FILEENCRYPTION)
  {
  }

  lemma WordsDiffer()
    ensures !(VERIFYATBOOT <= VERIFY) && !(AVB_KEYS <= AVB)
    ensures !(FORCEENCRYPT <= FORCEFDEORFBE) && !(FORCEENCRYPT <= FILEENCRYPTION) && !(FORCEFDEORFBE <= FILEENCRYPTION)
  {
    NotPrefix(VERIFYATBOOT, VERIFY, 6);
    NotPrefix(AVB_KEYS, AVB, 3);
    NotPrefix(FORCEENCRYPT, FORCEFDEORFBE, 5);
    NotPrefix(FORCEENCRYPT, FILEENCRYPTION, 1);
    NotPrefix(FORCEFDEORFBE, FILEENCRYPTION, 1);
  }

  lemma EncryptionUsable()
    ensures Usable(ENCRYPTION)
  {
    hide Solid, FORCEENCRYPT, FORCEFDEORFBE, FILEENCRYPTION;
    WordsSolid();
    WordsDiffer();
  }

  predicate Begins(p: Bytes, c: byte) { p != [] && p[0] == c }

  lemma FirstBytes()
    ensures Begins(VERIFYATBOOT, 0x76) && Begins(VERIFY, 0x76) && Begins(AVB_KEYS, 0x61) && Begins(AVB, 0x61)
    ensures Begins(SUPPORT_SCFS, 0x73) && Begins(FSVERITY, 0x66)
  {
  }

  lemma OtherByte(p: Bytes, c: byte, q: Bytes, d: byte)
    requires Begins(p, c) && Begins(q, d) && c != d
    ensures !(p <= q)
  {
    NotPrefix(p, q, 0);
  }

  lemma VerityUsable()
    ensures Usable(VERITY)
  {
    hide Solid, Begins, VERIFYATBOOT, VERIFY, AVB_KEYS, AVB, SUPPORT_SCFS, FSVERITY;
    WordsSolid();
    WordsDiffer();
    FirstBytes();
    OtherByte(VERIFYATBOOT, 0x76, AVB_KEYS, 0x61);
    OtherByte(VERIFYATBOOT, 0x76, AVB, 0x61);
    OtherByte(VERIFYATBOOT, 0x76, SUPPORT_SCFS, 0x73);
    OtherByte(VERIFYATBOOT, 0x76, FSVERITY, 0x66);
    OtherByte(VERIFY, 0x76, AVB_KEYS, 0x61);
    OtherByte(VERIFY, 0x76, AVB, 0x61);
    OtherByte(VERIFY, 0x76, SUPPORT_SCFS, 0x73);
    OtherByte(VERIFY, 0x76, FSVERITY, 0x66);
    OtherByte(AVB_KEYS, 0x61, SUPPORT_SCFS, 0x73);
    OtherByte(AVB_KEYS, 0x61, FSVERITY, 0x66);
    OtherByte(AVB, 0x61, SUPPORT_SCFS, 0x73);
    OtherByte(AVB, 0x61, FSVERITY, 0x66);
    OtherByte(SUPPORT_SCFS, 0x73, FSVERITY, 0x66);
  }

  /* ----- what is removed ----- */

  /** The first pattern that begins `s`. */
  function FirstOf(ps: Patterns, s: Bytes): (r: Option<Bytes>)
    ensures r.Some? ==> r.value in ps && r.value <= s
  {
    if ps == [] then None else if ps[0] <= s then Some(ps[0]) else FirstOf(ps[1..], s)
  }

  /** Up to the next blank. */
  function WordLength(s: Bytes): (n: nat)
    ensures n <= |s| && (n < |s| ==> Blank(s[n])) && forall i :: 0 <= i < n ==> !Blank(s[i])
  {
    if s == [] || Blank(s[0]) then 0 else 1 + WordLength(s[1..])
  }

  function Lead(s: Bytes): nat { if s != [] && s[0] == COMMA then 1 else 0 }

  /** The length of the match at the front: a comma, a pattern, and, after an equals sign, the rest of the word. */
  function Match(ps: Patterns, s: Bytes): (r: Option<nat>)
    ensures r.Some? ==> r.value <= |s|
  {
    var found := FirstOf(ps, s[Lead(s)..]);
    if s[Lead(s)..] == [] || found.None? then None
    else
      var n := Lead(s) + |found.value|;
      Some(n + if n < |s| && s[n] == EQUALS then WordLength(s[n..]) else 0)
  }

  lemma MatchIsLong(ps: Patterns, s: Bytes)
    requires Usable(ps) && Match(ps, s).Some?
    ensures 0 < Match(ps, s).value <= |s|
  {
  }

  /** What is left. */
  ghost function Filter(ps: Patterns, s: Bytes): (r: Bytes)
    requires Usable(ps)
    ensures |r| <= |s|
    decreases |s|
  {
    if s == [] then []
    else
      match Match(ps, s)
      case Some(n) => MatchIsLong(ps, s); Filter(ps, s[n..])
      case None => [s[0]] + Filter(ps, s[1..])
  }

  /** The pattern that is taken is the longest one that fits. */
  lemma {:induction false} FirstIsLongest(ps: Patterns, s: Bytes, p: Bytes)
    requires Usable(ps) && p in ps && p <= s
    ensures FirstOf(ps, s).Some? && |p| <= |FirstOf(ps, s).value|
    decreases |ps|
  {
    if !(ps[0] <= s) {
      assert p in ps[1..];
      RestUsable(ps);
      FirstIsLongest(ps[1..], s, p);
    }
  }

  lemma RestUsable(ps: Patterns)
    requires Usable(ps) && ps != []
    ensures Usable(ps[1..])
  {
    forall i, j | 0 <= i < j < |ps[1..]| ensures !(ps[1..][i] <= ps[1..][j]) {
      assert ps[1..][i] == ps[i + 1] && ps[1..][j] == ps[j + 1];
    }
  }

  /* ----- the code ----- */

  method FindPattern(ps: Patterns, b: Bytes) returns (r: Option<Bytes>)
    ensures r == FirstOf(ps, b)
  {
    var i := 0;
    assert ps[0..] == ps;
    while i < |ps|
      invariant i <= |ps| && FirstOf(ps[i..], b) == FirstOf(ps, b)
    {
      if ps[i] <= b {
        return Some(ps[i]);
      }
      assert ps[i..][1..] == ps[i + 1..];
      i := i + 1;
    }
    return None;
  }

  method CountWord(b: Bytes) returns (k: nat)
    ensures k == WordLength(b)
  {
    k := 0;
    while k < |b| && !Blank(b[k])
      invariant k <= |b| && k + WordLength(b[k..]) == WordLength(b)
    {
      assert b[k..][1..] == b[k + 1..];
      k := k + 1;
    }
  }

  method MatchPatterns(ps: Patterns, s: Bytes) returns (r: Option<nat>)
    requires s != []
    ensures r == Match(ps, s)
  {
    hide FirstOf, WordLength;
    var len := if s[0] == COMMA then 1 else 0;
    var b := s[len..];
    var found := FindPattern(ps, b);
    if b == [] || found.None? {
      return None;
    }
    len := len + |found.value|;
    if len < |s| && s[len] == EQUALS {
      var k := CountWord(s[len..]);
      len := len + k;
    }
    return Some(len);
  }

  lemma FilterMatch(ps: Patterns, s: Bytes)
    requires Usable(ps) && s != []
    ensures Match(ps, s).Some? ==> 0 < Match(ps, s).value <= |s| && Filter(ps, s) == Filter(ps, s[Match(ps, s).value..])
    ensures Match(ps, s).None? ==> Filter(ps, s) == [s[0]] + Filter(ps, s[1..])
  {
    hide Match;
    if Match(ps, s).Some? {
      MatchIsLong(ps, s);
    }
  }

  /** Moves what is kept to the front of the buffer, fills the rest with zeros, and returns the new size. */
  method RemovePattern(buf: array<byte>, ps: Patterns) returns (size: nat)
    requires Usable(ps)
    modifies buf
    ensures size == |Filter(ps, old(buf[..]))| <= buf.Length
    ensures buf[..] == Filter(ps, old(buf[..])) + Zeros(buf.Length - size)
  {
    hide Match, Filter, Usable;
    ghost var was := buf[..];
    var write, read := 0, 0;
    size := buf.Length;
    assert was[0..] == was;
    FilterNothing(ps);
    while read < buf.Length
      invariant write <= read <= buf.Length && size == buf.Length - (read - write)
      invariant buf[read..] == was[read..]
      invariant buf[..write] + Filter(ps, was[read..]) == Filter(ps, was)
    {
      assert buf[read] == was[read] by { assert buf[read] == buf[read..][0] == was[read..][0]; }
      FilterMatch(ps, was[read..]);
      var m := MatchPatterns(ps, buf[read..]);
      match m {
        case Some(len) =>
          assert was[read..][len..] == was[read + len..] == buf[read + len..];
          size := size - len;
          read := read + len;
        case None =>
          assert was[read..][1..] == was[read + 1..] == buf[read + 1..];
          buf[write] := buf[read];
          write := write + 1;
          read := read + 1;
          assert buf[..write] == buf[..write - 1] + [was[read - 1]];
      }
    }
    assert buf[..write] == Filter(ps, was);
    FillZeros(buf, write);
  }

  method FillZeros(buf: array<byte>, start: nat)
    requires start <= buf.Length
    modifies buf
    ensures buf[..] == old(buf[..start]) + Zeros(buf.Length - start)
  {
    var i := start;
    while i < buf.Length
      invariant start <= i <= buf.Length && buf[..start] == old(buf[..start])
      invariant forall j :: start <= j < i ==> buf[j] == 0
    {
      buf[i] := 0;
      i := i + 1;
    }
    assert buf[..] == buf[..start] + buf[start..];
    assert buf[start..] == Zeros(buf.Length - start);
  }

  lemma FilterNothing(ps: Patterns)
    requires Usable(ps)
    ensures Filter(ps, []) == []
  {
  }

  method PatchVerity(buf: array<byte>) returns (size: nat)
    modifies buf
    ensures Usable(VERITY) && size == |Filter(VERITY, old(buf[..]))| <= buf.Length
    ensures buf[..] == Filter(VERITY, old(buf[..])) + Zeros(buf.Length - size)
  {
    VerityUsable();
    size := RemovePattern(buf, VERITY);
  }

  method PatchEncryption(buf: array<byte>) returns (size: nat)
    modifies buf
    ensures Usable(ENCRYPTION) && size == |Filter(ENCRYPTION, old(buf[..]))| <= buf.Length
    ensures buf[..] == Filter(ENCRYPTION, old(buf[..])) + Zeros(buf.Length - size)
  {
    EncryptionUsable();
    size := RemovePattern(buf, ENCRYPTION);
  }

  /* ----- what the filter does ----- */

  /** A buffer stays as it is exactly if nothing in it matches. */
  lemma {:induction false} UnchangedIff(ps: Patterns, s: Bytes)
    requires Usable(ps)
    ensures Filter(ps, s) == s <==> forall i :: 0 <= i < |s| ==> Match(ps, s[i..]).None?
    decreases |s|
  {
    hide Match, Usable;
    if s != [] {
      FilterMatch(ps, s);
      assert s[0..] == s;
      if Match(ps, s).None? {
        UnchangedIff(ps, s[1..]);
        forall i | 1 <= i < |s| ensures Match(ps, s[i..]) == Match(ps, s[1..][i - 1..]) {
          assert s[i..] == s[1..][i - 1..];
        }
        forall i | 0 <= i < |s[1..]| ensures Match(ps, s[1..][i..]) == Match(ps, s[i + 1..]) {
          assert s[i + 1..] == s[1..][i..];
        }
        assert s == [s[0]] + s[1..];
      }
    }
  }

  lemma {:induction false} FirstInField(ps: Patterns, a: Bytes, c: byte, b: Bytes)
    requires Usable(ps) && Blank(c)
    ensures FirstOf(ps, a + [c] + b) == FirstOf(ps, a)
    decreases |ps|
  {
    if ps != [] {
      var s := a + [c] + b;
      PrefixInField(ps[0], a, c, b);
      RestUsable(ps);
      FirstInField(ps[1..], a, c, b);
    }
  }

  lemma PrefixInField(p: Bytes, a: Bytes, c: byte, b: Bytes)
    requires Solid(p) && Blank(c)
    ensures p <= a + [c] + b <==> p <= a
  {
    var s := a + [c] + b;
    assert s[|a|] == c;
    if p <= s && |p| <= |a| {
      assert p == s[..|p|] == a[..|p|];
    }
    if p <= a {
      assert s[..|p|] == a[..|p|];
    }
  }

  lemma {:induction false} WordInField(a: Bytes, c: byte, b: Bytes)
    requires Blank(c)
    ensures WordLength(a + [c] + b) == WordLength(a)
    decreases |a|
  {
    var s := a + [c] + b;
    if a != [] {
      assert s[1..] == a[1..] + [c] + b;
      WordInField(a[1..], c, b);
    }
  }

  lemma MatchInField(ps: Patterns, a: Bytes, c: byte, b: Bytes)
    requires Usable(ps) && Blank(c) && a != []
    ensures Match(ps, a + [c] + b) == Match(ps, a)
  {
    hide FirstOf, WordLength, Usable;
    var s := a + [c] + b;
    var l := Lead(a);
    assert s[l..] == a[l..] + [c] + b;
    FirstInField(ps, a[l..], c, b);
    if a[l..] == [] {
      NoneOnEmpty(ps);
    }
    var found := FirstOf(ps, a[l..]);
    if found.Some? {
      var n := l + |found.value|;
      assert s[n..] == a[n..] + [c] + b;
      WordInField(a[n..], c, b);
    }
  }

  lemma {:induction false} NoneOnEmpty(ps: Patterns)
    requires Usable(ps)
    ensures FirstOf(ps, []) == None
    decreases |ps|
  {
    if ps != [] {
      RestUsable(ps);
      NoneOnEmpty(ps[1..]);
    }
  }

  lemma BlankIsKept(ps: Patterns, c: byte, b: Bytes)
    requires Usable(ps) && Blank(c)
    ensures Match(ps, [c] + b).None?
  {
    hide Usable;
    assert [] + [c] + b == [c] + b;
    FirstInField(ps, [], c, b);
    NoneOnEmpty(ps);
  }

  /** Blanks are kept, and what is between two of them is filtered by itself. */
  lemma {:induction false} FieldByField(ps: Patterns, a: Bytes, c: byte, b: Bytes)
    requires Usable(ps) && Blank(c)
    ensures Filter(ps, a + [c] + b) == Filter(ps, a) + [c] + Filter(ps, b)
    decreases |a|
  {
    hide Match, Usable, Filter;
    var s := a + [c] + b;
    FilterMatch(ps, s);
    if a == [] {
      assert s == [c] + b && s[1..] == b;
      BlankIsKept(ps, c, b);
      FilterNothing(ps);
    } else {
      MatchInField(ps, a, c, b);
      FilterMatch(ps, a);
      var n := if Match(ps, a).Some? then Match(ps, a).value else 1;
      assert s[n..] == a[n..] + [c] + b;
      FieldByField(ps, a[n..], c, b);
      if Match(ps, a).None? {
        assert [a[0]] + (Filter(ps, a[1..]) + [c] + Filter(ps, b)) == [a[0]] + Filter(ps, a[1..]) + [c] + Filter(ps, b);
      }
    }
  }
}
