/** Whole archives: one on its own, and any number of them padded with zeros in a row. */
module CpioArchives {
  import opened Options
  import opened Bytes
  import opened Slices
  import opened CpioFormat
  import opened CpioParser
  import opened CpioRoundTrip

  /* ----- the trailer ----- */

  lemma TrailerIsPlain()
    ensures PlainText(TRAILER)
  {
    forall i | 0 <= i < |TRAILER| ensures WellPlaced(TRAILER, i) {
      assert TRAILER[i] < 0x80;
    }
  }

  lemma TrailerHeaderReads(inode: nat)
    ensures TrailerHeader(inode)[..6] == MAGIC && HeadOf(TrailerHeader(inode)).nameSize == Some(11)
  {
    FieldOfHeader([inode, 0x1ED, 0, 0, 1, 0, 0, 0, 0, 0, 0, 11, 0], 11);
  }

  lemma TrailerParses(s: Bytes, p: nat, header: Bytes, m: Entries)
    requires |header| == HEADER_SIZE && header[..6] == MAGIC && HeadOf(header).nameSize == Some(11) && p % 4 == 0
    requires p + |MemberBytes(header, TRAILER, [])| <= |s|
    requires s[p..p + |MemberBytes(header, TRAILER, [])|] == MemberBytes(header, TRAILER, [])
    ensures ParseOne(s, p, m) == AfterTrailer(s, p + |MemberBytes(header, TRAILER, [])|, m)
  {
    var next := p + |MemberBytes(header, TRAILER, [])|;
    MemberIsLaidOut(s, p, header, TRAILER, []);
    ParseHead(s, p, header, HeadOf(header), m);
    TrailerIsPlain();
    ParsePlainName(s, p + HEADER_SIZE, HeadOf(header), TRAILER, m);
  }

  /** What the loop does with the outcome of a round. */
  ghost function Resume(s: Bytes, step: Step): LoadResult {
    match step
    case Next(next, acc) => LoadFrom(s, next, acc)
    case Done(acc) => Ok(acc)
    case Fail(e) => Err(e)
  }

  lemma LoadStep(s: Bytes, pos: nat, acc: Entries, step: Step)
    requires pos < |s| && ParseOne(s, pos, acc) == step
    ensures LoadFrom(s, pos, acc) == Resume(s, step)
  {
  }

  lemma LoadTrailer(s: Bytes, p: nat, header: Bytes, next: nat, m: Entries)
    requires |header| == HEADER_SIZE && header[..6] == MAGIC && HeadOf(header).nameSize == Some(11) && p % 4 == 0
    requires p < next == p + |MemberBytes(header, TRAILER, [])| <= |s| && s[p..next] == MemberBytes(header, TRAILER, [])
    ensures LoadFrom(s, p, m) == Resume(s, AfterTrailer(s, next, m))
  {
    hide *;
    TrailerParses(s, p, header, m);
    LoadStep(s, p, m, AfterTrailer(s, next, m));
  }

  /** Two aligned parts put at an aligned place. */
  lemma TwoParts(s: Bytes, base: nat, run: Bytes, trailer: Bytes)
    requires base % 4 == 0 && |run| % 4 == 0 && |trailer| % 4 == 0
    requires base + |run + trailer| <= |s| && s[base..base + |run + trailer|] == run + trailer
    ensures |run + trailer| % 4 == 0 && (base + |run|) % 4 == 0
    ensures s[base..base + |run|] == run && s[base + |run|..base + |run| + |trailer|] == trailer
  {
    SumOfWords(base, |run|);
    SumOfWords(|run|, |trailer|);
    SplitAt(s, base, run, trailer);
  }

  ghost function TrailerOf(names: seq<Bytes>): (t: Bytes)
    ensures |t| % 4 == 0 && |t| > 0
  {
    MemberBytes(TrailerHeader(FIRST_INODE + |names|), TRAILER, [])
  }

  ghost function RunOf(names: seq<Bytes>, a: Entries): (r: Bytes)
    requires forall n :: n in names ==> n in a
    ensures |r| % 4 == 0
  {
    ConcatWords(Printed(names, a));
    Concat(Printed(names, a))
  }

  lemma LoadTrailerOf(s: Bytes, p: nat, names: seq<Bytes>, m: Entries)
    requires p % 4 == 0 && p + |TrailerOf(names)| <= |s| && s[p..p + |TrailerOf(names)|] == TrailerOf(names)
    ensures LoadFrom(s, p, m) == Resume(s, AfterTrailer(s, p + |TrailerOf(names)|, m))
  {
    hide ParseOne, LoadFrom, Resume, AfterTrailer, HeadOf, TrailerHeader, MemberBytes;
    TrailerHeaderReads(FIRST_INODE + |names|);
    LoadTrailer(s, p, TrailerHeader(FIRST_INODE + |names|), p + |TrailerOf(names)|, m);
  }

  lemma LoadRunOf(s: Bytes, base: nat, names: seq<Bytes>, a: Entries, acc: Entries)
    requires (forall n :: n in names <==> n in a) && Fits(a) && ValidNames(a)
    requires base % 4 == 0 && base + |RunOf(names, a)| <= |s| && s[base..base + |RunOf(names, a)|] == RunOf(names, a)
    ensures LoadFrom(s, base, acc) == LoadFrom(s, base + |RunOf(names, a)|, acc + a)
  {
    hide LoadFrom, Fits, ValidNames, Printed, Concat;
    LoadRun(s, base, names, a, acc);
    AllAdded(acc, names, a);
  }

  /** Reading one archive adds its entries and then looks for the next one. */
  lemma LoadArchiveOf(s: Bytes, base: nat, names: seq<Bytes>, a: Entries, run: Bytes, trailer: Bytes, acc: Entries)
    requires (forall n :: n in names <==> n in a) && Fits(a) && ValidNames(a) && base % 4 == 0
    requires run == RunOf(names, a) && trailer == TrailerOf(names)
    requires base + |run + trailer| <= |s| && s[base..base + |run + trailer|] == run + trailer
    ensures LoadFrom(s, base, acc) == Resume(s, AfterTrailer(s, base + |run + trailer|, acc + a))
  {
    hide *;
    TwoParts(s, base, run, trailer);
    LoadRunOf(s, base, names, a, acc);
    LoadTrailerOf(s, base + |run|, names, acc + a);
  }

  lemma ArchiveIs(a: Entries)
    ensures (forall n :: n in Names(a) <==> n in a) && Archive(a) == RunOf(Names(a), a) + TrailerOf(Names(a))
  {
    hide Names, Members, EntryHeaders, TrailerHeader, MemberBytes, Concat;
  }

  lemma LoadArchive(s: Bytes, base: nat, a: Entries, acc: Entries)
    requires Fits(a) && ValidNames(a) && base % 4 == 0
    requires base + |Archive(a)| <= |s| && s[base..base + |Archive(a)|] == Archive(a)
    ensures LoadFrom(s, base, acc) == Resume(s, AfterTrailer(s, base + |Archive(a)|, acc + a))
  {
    hide *;
    ArchiveIs(a);
    LoadArchiveOf(s, base, Names(a), a, RunOf(Names(a), a), TrailerOf(Names(a)), acc);
  }

  lemma SplitAt(s: Bytes, pos: nat, a: Bytes, b: Bytes)
    requires pos + |a| + |b| <= |s| && s[pos..pos + |a| + |b|] == a + b
    ensures s[pos..pos + |a|] == a && s[pos + |a|..pos + |a| + |b|] == b
  {
    SubSlice(s, pos, pos + |a| + |b|, 0, |a|);
    SubSlice(s, pos, pos + |a| + |b|, |a|, |a| + |b|);
    assert (a + b)[0..|a|] == a && (a + b)[|a|..|a| + |b|] == b;
  }

  lemma AllAdded(acc: Entries, names: seq<Bytes>, a: Entries)
    requires forall n :: n in names <==> n in a
    ensures Added(acc, names, EntriesOf(names, a)) == acc + a
  {
    AddedIsUnion(acc, names, EntriesOf(names, a), a);
  }

  /* ----- one archive ----- */

  lemma EndOfFile(s: Bytes, m: Entries)
    ensures Resume(s, AfterTrailer(s, |s|, m)) == Ok(m)
  {
  }

  /** Loading what was dumped gives the same entries. */
  lemma LoadUndoesDump(a: Entries)
    requires Fits(a) && ValidNames(a)
    ensures LoadFrom(Archive(a), 0, map[]) == Ok(a)
  {
    hide *;
    LoadWhole(Archive(a), a);
  }

  lemma LoadWhole(s: Bytes, a: Entries)
    requires Fits(a) && ValidNames(a) && s == Archive(a)
    ensures LoadFrom(s, 0, map[]) == Ok(a)
  {
    hide *;
    assert s[0..0 + |s|] == s;
    LoadArchive(s, 0, a, map[]);
    EndOfFile(s, map[] + a);
    assert map[] + a == a;
  }

  /** Whatever is loaded has names the parser gives no meaning of their own. */
  lemma RoundKeepsNames(data: Bytes, pos: nat, acc: Entries)
    requires ValidNames(acc)
    ensures ParseOne(data, pos, acc).Next? ==> ValidNames(ParseOne(data, pos, acc).acc)
    ensures ParseOne(data, pos, acc).Done? ==> ValidNames(ParseOne(data, pos, acc).acc)
  {
  }

  lemma {:induction false} LoadedNames(data: Bytes, pos: nat, acc: Entries)
    requires ValidNames(acc)
    ensures LoadFrom(data, pos, acc).Ok? ==> ValidNames(LoadFrom(data, pos, acc).entries)
    decreases if pos < |data| then |data| - pos else 0
  {
    hide ParseOne, ValidNames;
    if pos < |data| {
      RoundKeepsNames(data, pos, acc);
      var step := ParseOne(data, pos, acc);
      if step.Next? {
        LoadedNames(data, step.pos, step.acc);
      }
    }
  }

  /** Dumping and loading gives the same entries exactly when all names are valid. */
  lemma LoadUndoesDumpIff(a: Entries)
    requires Fits(a)
    ensures LoadFrom(Archive(a), 0, map[]) == Ok(a) <==> ValidNames(a)
  {
    hide LoadFrom, Archive, Fits;
    if ValidNames(a) {
      LoadUndoesDump(a);
    } else {
      LoadedNames(Archive(a), 0, map[]);
    }
  }

  /* ----- archives in a row ----- */

  /** An archive followed by some words of zeros. */
  datatype Part = Part(entries: Entries, padding: nat)

  ghost function Image(parts: seq<Part>): Bytes {
    if parts == [] then [] else Archive(parts[0].entries) + Zeros(4 * parts[0].padding) + Image(parts[1..])
  }

  /** Later archives override earlier ones. */
  ghost function Overridden(parts: seq<Part>): Entries {
    if parts == [] then map[] else parts[0].entries + Overridden(parts[1..])
  }

  lemma {:induction false} FindSkipsZeros(s: Bytes, from: nat, k: nat)
    requires from + k <= |s| && forall i :: from <= i < from + k ==> s[i] == 0
    ensures FindMagic(s, from) == FindMagic(s, from + k)
    decreases k
  {
    if k > 0 {
      assert s[from] == 0;
      if from + 6 <= |s| {
        assert s[from..from + 6][0] == 0;
        FindSkipsZeros(s, from + 1, k - 1);
      } else {
        assert from + k + 6 > |s|;
      }
    }
  }

  lemma ArchiveStarts(a: Entries)
    ensures |Archive(a)| % 4 == 0 && |Archive(a)| >= 6 && Archive(a)[..6] == MAGIC
  {
    hide *;
    ArchiveIs(a);
    var run, trailer := RunOf(Names(a), a), TrailerOf(Names(a));
    SumOfWords(|run|, |trailer|);
    TrailerStarts(Names(a));
    RunStarts(Names(a), a);
    assert (run + trailer)[..6] == if run == [] then trailer[..6] else run[..6];
  }

  lemma TrailerStarts(names: seq<Bytes>)
    ensures |TrailerOf(names)| >= 6 && TrailerOf(names)[..6] == MAGIC
  {
    hide TrailerHeader;
    TrailerHeaderReads(FIRST_INODE + |names|);
  }

  lemma RunStarts(names: seq<Bytes>, a: Entries)
    requires forall n :: n in names ==> n in a
    ensures RunOf(names, a) == [] || (|RunOf(names, a)| >= 6 && RunOf(names, a)[..6] == MAGIC)
  {
    hide EntryHeader;
    if names != [] {
      FirstBlock(names, a);
    }
  }

  lemma FirstBlock(names: seq<Bytes>, a: Entries)
    requires names != [] && forall n :: n in names ==> n in a
    ensures |Concat(Printed(names, a))| >= 6 && Concat(Printed(names, a))[..6] == MAGIC
  {
    hide EntryHeader, EntryHeaders, MemberBytes, Members, Concat;
    var blocks := Printed(names, a);
    ConcatSlice(blocks, 0);
    ConcatEnds(blocks);
    HeaderAt(names, a, 0);
    HeaderStarts(FIRST_INODE, names[0], a[names[0]]);
    MemberStarts(EntryHeader(FIRST_INODE, names[0], a[names[0]]), names[0], a[names[0]].data);
    assert Concat(blocks)[..6] == Concat(blocks)[0..|blocks[0]|][..6];
  }

  lemma MemberStarts(header: Bytes, name: Bytes, data: Bytes)
    requires |header| == HEADER_SIZE
    ensures |MemberBytes(header, name, data)| >= 6 && MemberBytes(header, name, data)[..6] == header[..6]
  {
  }

  lemma HeaderStarts(inode: nat, name: Bytes, e: Entry)
    ensures EntryHeader(inode, name, e)[..6] == MAGIC
  {
  }

  /** What follows the trailer of the first archive of an image: zeros, then the rest. */
  lemma AfterFirst(s: Bytes, base: nat, first: Bytes, padding: nat, rest: Bytes, m: Entries)
    requires base + |first| + 4 * padding + |rest| == |s| && s[base..] == first + Zeros(4 * padding) + rest
    requires rest == [] || (|rest| >= 6 && rest[..6] == MAGIC)
    ensures s[base..base + |first|] == first && s[base + |first| + 4 * padding..] == rest
    ensures AfterTrailer(s, base + |first|, m) ==
            if rest == [] then Done(m) else Next(base + |first| + 4 * padding, m)
  {
    var from, zeros := base + |first|, Zeros(4 * padding);
    var next := from + 4 * padding;
    var tail := s[base..];
    assert tail[..|first|] == first && tail[|first| + |zeros|..] == rest;
    assert s[next..] == tail[|first| + |zeros|..];
    assert s[base..from] == tail[..|first|];
    forall i | from <= i < next ensures s[i] == 0 {
      assert s[i] == tail[i - base] == zeros[i - from];
    }
    FindSkipsZeros(s, from, 4 * padding);
    if rest != [] {
      assert s[next..next + 6] == s[next..][..6];
    }
  }

  /** Loading any number of archives in a row gives their entries, later ones overriding. */
  lemma {:induction false} LoadImage(s: Bytes, base: nat, parts: seq<Part>, acc: Entries)
    requires forall p :: p in parts ==> Fits(p.entries) && ValidNames(p.entries)
    requires base <= |s| && base % 4 == 0 && s[base..] == Image(parts)
    ensures LoadFrom(s, base, acc) == Ok(acc + Overridden(parts))
    decreases |parts|
  {
    hide LoadFrom, Archive, Fits, ValidNames;
    if parts == [] {
      LoadAtEnd(s, base, acc);
    } else {
      var first, rest := Archive(parts[0].entries), Image(parts[1..]);
      ImageStarts(parts[1..]);
      LoadFirst(s, base, parts[0], rest, acc);
      assert acc + Overridden(parts) == acc + parts[0].entries + Overridden(parts[1..]);
      if rest == [] {
        ImageEmpty(parts[1..]);
      } else {
        ArchiveStarts(parts[0].entries);
        var next := base + |first| + 4 * parts[0].padding;
        SumOfWords(base, |first|);
        SumOfWords(base + |first|, 4 * parts[0].padding);
        LoadImage(s, next, parts[1..], acc + parts[0].entries);
      }
    }
  }

  lemma LoadAtEnd(s: Bytes, base: nat, acc: Entries)
    requires base >= |s|
    ensures LoadFrom(s, base, acc) == Ok(acc)
  {
  }

  lemma ImageStarts(parts: seq<Part>)
    ensures Image(parts) == [] || (|Image(parts)| >= 6 && Image(parts)[..6] == MAGIC)
  {
    hide Archive;
    if parts != [] {
      ArchiveStarts(parts[0].entries);
    }
  }

  lemma ImageEmpty(parts: seq<Part>)
    requires Image(parts) == []
    ensures parts == []
  {
    hide Archive;
    if parts != [] {
      ArchiveStarts(parts[0].entries);
    }
  }

  lemma LoadFirst(s: Bytes, base: nat, part: Part, rest: Bytes, acc: Entries)
    requires Fits(part.entries) && ValidNames(part.entries) && base <= |s| && base % 4 == 0
    requires s[base..] == Archive(part.entries) + Zeros(4 * part.padding) + rest
    requires rest == [] || (|rest| >= 6 && rest[..6] == MAGIC)
    ensures base + |Archive(part.entries)| + 4 * part.padding + |rest| == |s|
    ensures s[base + |Archive(part.entries)| + 4 * part.padding..] == rest
    ensures LoadFrom(s, base, acc) ==
            if rest == [] then Ok(acc + part.entries)
            else LoadFrom(s, base + |Archive(part.entries)| + 4 * part.padding, acc + part.entries)
  {
    hide LoadFrom, Archive, AfterTrailer, Fits, ValidNames;
    var first := Archive(part.entries);
    assert |s| - base == |first| + 4 * part.padding + |rest|;
    AfterFirst(s, base, first, part.padding, rest, acc + part.entries);
    LoadArchive(s, base, part.entries, acc);
  }

  /** Two archives in a row, as when a ramdisk is appended to another one. */
  lemma LoadPair(a: Entries, b: Entries, padding: nat)
    requires Fits(a) && ValidNames(a) && Fits(b) && ValidNames(b)
    ensures LoadFrom(Archive(a) + Zeros(4 * padding) + Archive(b), 0, map[]) == Ok(a + b)
  {
    hide LoadFrom, Archive, Fits, ValidNames;
    var parts := [Part(a, padding), Part(b, 0)];
    var s := Archive(a) + Zeros(4 * padding) + Archive(b);
    assert parts[1..] == [Part(b, 0)] && parts[1..][1..] == [];
    assert Image(parts[1..]) == Archive(b);
    assert Image(parts) == s && s[0..] == s;
    LoadImage(s, 0, parts, map[]);
    assert Overridden(parts[1..]) == b + Overridden([]) == b;
    assert Overridden(parts) == a + b;
    assert map[] + (a + b) == a + b;
  }
}
