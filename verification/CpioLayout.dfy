/** The bytes of an archive and the shape of its names, written out. */
module CpioLayout {
  import opened Options
  import opened Bytes
  import opened Slices
  import opened CpioFormat
  import opened CpioParser
  import opened CpioPaths

  /* ----- digits ----- */

  /** `y` is `x` with some of its letters in upper case. */
  predicate SameLetters(x: Bytes, y: Bytes) {
    |x| == |y| &&
    forall i :: 0 <= i < |x| ==> y[i] == x[i] || (0x61 <= x[i] <= 0x66 && y[i] as int == x[i] as int - 0x20)
  }

  /** Upper and lower case digits have the same value. */
  lemma {:induction false} CaseDoesNotMatter(x: Bytes, y: Bytes)
    requires SameLetters(x, y)
    ensures HexValue(x) == HexValue(y)
    decreases |x|
  {
    if x != [] {
      CaseDoesNotMatter(x[..|x| - 1], y[..|y| - 1]);
    }
  }

  /** The six letters, in either case, and the ten digits. */
  lemma LetterDigits(d: nat)
    requires d < 10
    ensures d < 6 ==> HexValue([(0x41 + d) as byte]) == Some(10 + d) && HexValue([(0x61 + d) as byte]) == Some(10 + d)
    ensures HexValue([(0x30 + d) as byte]) == Some(d)
  {
    assert HexValue([]) == Some(0);
    assert [(0x41 + d) as byte][..0] == [] && [(0x61 + d) as byte][..0] == [] && [(0x30 + d) as byte][..0] == [];
  }

  predicate HexByte(b: byte) { 48 <= b <= 57 || 65 <= b <= 70 || 97 <= b <= 102 }

  /** Anything else in a number makes it none. */
  lemma {:induction false} OnlyHexDigits(x: Bytes)
    ensures HexValue(x).Some? <==> forall i :: 0 <= i < |x| ==> HexByte(x[i])
    decreases |x|
  {
    if x != [] {
      OnlyHexDigits(x[..|x| - 1]);
    }
  }

  /* ----- one member ----- */

  lemma FieldAt(fields: seq<nat>, i: nat)
    requires |fields| == 13 && i < 13
    ensures Header(fields)[6 + 8 * i..14 + 8 * i] == Hex(fields[i], 8)
  {
    hide HexFields, Hex;
    HexFieldsAt(fields, i);
    var h := HexFields(fields);
    assert Header(fields)[6..] == h;
    assert Header(fields)[6 + 8 * i..14 + 8 * i] == h[8 * i..8 * i + 8];
  }

  /** The places of the numbers in a header, and of name and data behind it. */
  lemma MemberLayout(inode: nat, name: Bytes, e: Entry)
    ensures var b := EntryBytes(inode, name, e);
            |b| >= 111 + |name| &&
            b[..6] == [0x30, 0x37, 0x30, 0x37, 0x30, 0x31] &&
            b[6..14] == Hex(inode, 8) && b[14..22] == Hex(e.mode, 8) && b[22..30] == Hex(e.uid, 8) &&
            b[30..38] == Hex(e.gid, 8) && b[38..46] == Hex(1, 8) && b[46..54] == Hex(0, 8) &&
            b[54..62] == Hex(|e.data|, 8) && b[62..70] == Hex(0, 8) && b[70..78] == Hex(0, 8) &&
            b[78..86] == Hex(e.rdevmajor, 8) && b[86..94] == Hex(e.rdevminor, 8) &&
            b[94..102] == Hex(|name| + 1, 8) && b[102..110] == Hex(0, 8) &&
            b[110..110 + |name|] == name && b[110 + |name|] == 0
  {
    hide Hex, HexFields;
    var f := EntryFields(inode, name, e);
    var h := EntryHeader(inode, name, e);
    forall i | 0 <= i < 13 ensures h[6 + 8 * i..14 + 8 * i] == Hex(f[i], 8) { FieldAt(f, i); }
    HeaderFields(h, f);
    var b := EntryBytes(inode, name, e);
    assert b[..110] == h;
    HeaderInFront(b, h);
    assert b[110..110 + |name|] == name;
  }

  lemma HeaderFields(h: Bytes, f: seq<nat>)
    requires |h| == 110 && |f| == 13 && forall i :: 0 <= i < 13 ==> h[6 + 8 * i..14 + 8 * i] == Hex(f[i], 8)
    ensures h[6..14] == Hex(f[0], 8) && h[14..22] == Hex(f[1], 8) && h[22..30] == Hex(f[2], 8)
    ensures h[30..38] == Hex(f[3], 8) && h[38..46] == Hex(f[4], 8) && h[46..54] == Hex(f[5], 8)
    ensures h[54..62] == Hex(f[6], 8) && h[62..70] == Hex(f[7], 8) && h[70..78] == Hex(f[8], 8)
    ensures h[78..86] == Hex(f[9], 8) && h[86..94] == Hex(f[10], 8) && h[94..102] == Hex(f[11], 8)
    ensures h[102..110] == Hex(f[12], 8)
  {
    hide Hex;
    assert h[6 + 8 * 0..14 + 8 * 0] == Hex(f[0], 8) && h[6 + 8 * 1..14 + 8 * 1] == Hex(f[1], 8);
    assert h[6 + 8 * 2..14 + 8 * 2] == Hex(f[2], 8) && h[6 + 8 * 3..14 + 8 * 3] == Hex(f[3], 8);
    assert h[6 + 8 * 4..14 + 8 * 4] == Hex(f[4], 8) && h[6 + 8 * 5..14 + 8 * 5] == Hex(f[5], 8);
    assert h[6 + 8 * 6..14 + 8 * 6] == Hex(f[6], 8) && h[6 + 8 * 7..14 + 8 * 7] == Hex(f[7], 8);
    assert h[6 + 8 * 8..14 + 8 * 8] == Hex(f[8], 8) && h[6 + 8 * 9..14 + 8 * 9] == Hex(f[9], 8);
    assert h[6 + 8 * 10..14 + 8 * 10] == Hex(f[10], 8) && h[6 + 8 * 11..14 + 8 * 11] == Hex(f[11], 8);
    assert h[6 + 8 * 12..14 + 8 * 12] == Hex(f[12], 8);
  }

  lemma HeaderInFront(b: Bytes, h: Bytes)
    requires |h| == 110 <= |b| && b[..110] == h
    ensures b[..6] == h[..6] && b[6..14] == h[6..14] && b[14..22] == h[14..22] && b[22..30] == h[22..30]
    ensures b[30..38] == h[30..38] && b[38..46] == h[38..46] && b[46..54] == h[46..54] && b[54..62] == h[54..62]
    ensures b[62..70] == h[62..70] && b[70..78] == h[70..78] && b[78..86] == h[78..86] && b[86..94] == h[86..94]
    ensures b[94..102] == h[94..102] && b[102..110] == h[102..110]
  {
  }

  /* ----- the whole archive ----- */

  /** The trailer: an entry of mode 0755 and no data, and zeros up to a multiple of four. */
  lemma TrailerLayout(inode: nat)
    ensures var t := MemberBytes(TrailerHeader(inode), TRAILER, []);
            |t| == 124 &&
            t[..6] == [0x30, 0x37, 0x30, 0x37, 0x30, 0x31] && t[6..14] == Hex(inode, 8) &&
            t[14..22] == Hex(0x1ED, 8) && t[22..30] == Hex(0, 8) && t[30..38] == Hex(0, 8) && t[38..46] == Hex(1, 8) &&
            t[54..62] == Hex(0, 8) && t[94..102] == Hex(11, 8) &&
            t[110..] == [0x54, 0x52, 0x41, 0x49, 0x4C, 0x45, 0x52, 0x21, 0x21, 0x21, 0, 0, 0, 0]   // TRAILER!!!
  {
    hide Hex, HexFields;
    var f := [inode, 0x1ED, 0, 0, 1, 0, 0, 0, 0, 0, 0, 11, 0];
    var h := TrailerHeader(inode);
    forall i | 0 <= i < 13 ensures h[6 + 8 * i..14 + 8 * i] == Hex(f[i], 8) { FieldAt(f, i); }
    HeaderFields(h, f);
    var t := MemberBytes(h, TRAILER, []);
    assert t[..110] == h;
    HeaderInFront(t, h);
  }

  /** Every archive ends with it, with the inode after those of the entries. */
  lemma ArchiveEnds(a: Entries)
    ensures |Archive(a)| >= 124
    ensures Archive(a)[|Archive(a)| - 124..] == MemberBytes(TrailerHeader(300000 + |a|), TRAILER, [])
  {
    hide Members, Concat, TrailerHeader, MemberBytes, TRAILER, Names, EntryHeaders, WithTrailer;
    var names := Names(a);
    TrailerEnds(Concat(Members(EntryHeaders(names, a), names, a)), 300000 + |a|);
  }

  lemma TrailerEnds(members: Bytes, inode: nat)
    ensures var file := WithTrailer(members, TrailerHeader(inode));
            |file| >= 124 && file[|file| - 124..] == MemberBytes(TrailerHeader(inode), TRAILER, [])
  {
    TrailerLayout(inode);
    hide TrailerHeader, MemberBytes, TRAILER;
    var t := MemberBytes(TrailerHeader(inode), TRAILER, []);
    assert (members + t)[|members|..] == t;
  }

  /** The first entry in byte order comes first, with the first inode; what follows are the others. */
  lemma ArchiveBegins(a: Entries)
    requires a != map[]
    ensures Names(a) != [] && Names(a)[0] in a
    ensures EntryBytes(300000, Names(a)[0], a[Names(a)[0]]) <= Archive(a)
  {
    hide MemberBytes, EntryHeader, Sorted;
    assert |Names(a)| == |a| > 0;
    assert Names(a)[0] in Names(a);
    var m := Members(EntryHeaders(Names(a), a), Names(a), a);
    HeaderAt(Names(a), a, 0);
    ConcatFirst(m);
  }

  lemma {:induction false} ConcatFirst(blocks: seq<Bytes>)
    requires blocks != []
    ensures blocks[0] <= Concat(blocks)
    decreases |blocks|
  {
    if |blocks| > 1 {
      ConcatFirst(blocks[..|blocks| - 1]);
    } else {
      assert blocks[..0] == [];
    }
  }

  /* ----- names ----- */

  /** No slash at either end, and no two in a row. */
  predicate Tidy(p: Bytes) {
    p == [] ||
    (p[0] != 0x2F && p[|p| - 1] != 0x2F && forall i :: 0 <= i < |p| - 1 ==> !(p[i] == 0x2F && p[i + 1] == 0x2F))
  }

  lemma {:induction false} JoinIsTidy(parts: seq<Bytes>)
    requires Components(parts, SLASH)
    ensures Tidy(Join(parts)) && (parts != [] ==> Join(parts) != [])
    decreases |parts|
  {
    if |parts| == 1 {
      assert Join(parts) == parts[0];
    } else if |parts| > 1 {
      JoinIsTidy(parts[1..]);
      assert parts[0][0] in parts[0] && parts[0][|parts[0]| - 1] in parts[0];
    }
  }

  lemma {:induction false} TidySplits(p: Bytes)
    requires Tidy(p) && p != []
    ensures Components(Split(p, SLASH), SLASH) && Join(Split(p, SLASH)) == p
    decreases |p|
  {
    var n := UpTo(p, SLASH);
    if n == |p| {
      assert p[..n] == p;
    } else {
      var rest := p[n + 1..];
      assert p[n] == 0x2F && p == p[..n] + [SLASH] + rest;
      TidySplits(rest);
      assert p[..n] != [];
      assert Split(p, SLASH)[1..] == Split(rest, SLASH);
    }
  }

  lemma {:induction false} AllNonEmpty(parts: seq<Bytes>)
    requires Components(parts, SLASH)
    ensures NonEmpty(parts) == parts
    decreases |parts|
  {
    if parts != [] {
      AllNonEmpty(parts[1..]);
    }
  }

  /** The names normalising leaves alone are those without a slash too many. */
  lemma NormalIsTidy(p: Bytes)
    ensures Normal(p) <==> Tidy(p)
  {
    SplitComponents(p, SLASH);
    JoinIsTidy(NonEmpty(Split(p, SLASH)));
    if Tidy(p) {
      if p == [] {
        assert Split(p, SLASH) == [[]] && NonEmpty([[]]) == NonEmpty([[]][1..]);
      } else {
        TidySplits(p);
        AllNonEmpty(Split(p, SLASH));
      }
    }
  }

  /** And normalising only takes slashes away. */
  function WithoutSlashes(p: Bytes): Bytes {
    if p == [] then [] else (if p[0] == 0x2F then [] else [p[0]]) + WithoutSlashes(p[1..])
  }

  lemma {:induction false} PlainConcat(a: Bytes, b: Bytes)
    ensures WithoutSlashes(a + b) == WithoutSlashes(a) + WithoutSlashes(b)
    decreases |a|
  {
    if a == [] {
      assert a + b == b;
    } else {
      assert (a + b)[1..] == a[1..] + b;
      PlainConcat(a[1..], b);
    }
  }

  lemma {:induction false} JoinKeeps(parts: seq<Bytes>)
    ensures parts != [] ==> WithoutSlashes(Join(parts)) == WithoutSlashes(parts[0]) + WithoutSlashes(Join(parts[1..]))
  {
    if |parts| > 1 {
      PlainConcat(parts[0] + [SLASH], Join(parts[1..]));
      PlainConcat(parts[0], [SLASH]);
    }
  }

  lemma FirstPart(head: Bytes, tail: seq<Bytes>)
    ensures WithoutSlashes(Join(NonEmpty([head] + tail))) == WithoutSlashes(head) + WithoutSlashes(Join(NonEmpty(tail)))
  {
    hide Join;
    assert ([head] + tail)[1..] == tail;
    if head != [] {
      var parts := [head] + NonEmpty(tail);
      assert NonEmpty([head] + tail) == parts && parts[1..] == NonEmpty(tail);
      JoinKeeps(parts);
    }
  }

  lemma {:induction false} NormKeeps(p: Bytes)
    ensures WithoutSlashes(Join(NonEmpty(Split(p, SLASH)))) == WithoutSlashes(p)
    decreases |p|
  {
    hide Join, NonEmpty, WithoutSlashes;
    var n := UpTo(p, SLASH);
    if n == |p| {
      NothingJoined();
      assert [p] + [] == [p];
      FirstPart(p, []);
    } else {
      var head, rest := p[..n], p[n + 1..];
      NormKeeps(rest);
      FirstPart(head, Split(rest, SLASH));
      assert p == head + [SLASH] + rest;
      PlainConcat(head + [SLASH], rest);
      PlainConcat(head, [SLASH]);
      NothingJoined();
    }
  }

  lemma NothingJoined()
    ensures WithoutSlashes(Join(NonEmpty([]))) == [] && WithoutSlashes([SLASH]) == []
  {
    assert WithoutSlashes([SLASH]) == [] + WithoutSlashes([SLASH][1..]);
  }

  /** Normalising takes away slashes and nothing else. */
  lemma NormPathKeeps(p: Bytes)
    ensures Tidy(NormPath(p)) && WithoutSlashes(NormPath(p)) == WithoutSlashes(p)
  {
    NormPathIdempotent(p);
    NormalIsTidy(NormPath(p));
    NormKeeps(p);
  }

  /**
    What is left after removing a tidy name: everything but the name and, recursively, what begins with it and a slash.
  */
  lemma RemovedNames(a: Entries, name: Bytes, recursive: bool, n: Bytes)
    requires Tidy(name)
    ensures n in Rm(a, name, recursive) <==> n in a && n != name && !(recursive && name + [0x2F] <= n)
    ensures n in Rm(a, name, recursive) ==> Rm(a, name, recursive)[n] == a[n]
  {
    NormalIsTidy(name);
  }

  /** The names an archive can hold: characters without NUL, but for two directories and the name of the trailer. */
  lemma NamesInArchives(n: Bytes)
    ensures ValidName(n) <==>
            0 !in n && ValidUtf8(n) && n != [0x2E] && n != [0x2E, 0x2E] &&
            n != [0x54, 0x52, 0x41, 0x49, 0x4C, 0x45, 0x52, 0x21, 0x21, 0x21]
  {
  }
}
