/** Reading a repacked image gives what was put into it. */
module BootReadBack {
  import opened Bytes
  import opened Slices
  import opened BootLayout
  import opened VendorRamdisks
  import opened BootImage
  import opened BootRepack

  /**
    A section fits if the header has a size for what is put into it, if there is a file for it where the header lists
    it and keeps that size, and, for the table, if the old one held nothing but its entries.
  */
  ghost predicate SectionFits(b: Boot, w: Workspace, i: nat)
    requires Loaded(b) && TableInside(b) && i < SECTIONS
  {
    if i == KERNEL then KernelContent(b, w) == [] || (Supports(b.hdr.version, KERNEL) && |KernelContent(b, w)| < WORD)
    else if i == SIGNATURE then true
    else if i == TABLE then TableExact(b.hdr)
    else if i == RAMDISK && HasTable(b.hdr) then |RamdiskContent(b, w)| < WORD
    else
      var file := FileFor(w, i).GetOr([]);
      (file == [] || (Supports(b.hdr.version, i) && |file| < WORD)) &&
      (Stays(i) && FileFor(w, i).None? ==> Size(b.hdr, i) == 0)
  }

  /** The table holds nothing but its entries. */
  predicate TableExact(h: Header)
    requires ValidHeader(h)
  {
    HasTable(h) ==> Size(h, TABLE) == ENTRY_SIZE * h.entries
  }

  ghost predicate Fits(b: Boot, w: Workspace)
    requires Loaded(b) && TableInside(b)
  {
    forall i :: 0 <= i < SECTIONS ==> SectionFits(b, w, i)
  }

  lemma NewTableBytes(b: Boot, w: Workspace)
    requires Loaded(b) && TableInside(b)
    ensures |TableBytes(NewTable(b, w))| == if HasTable(b.hdr) then ENTRY_SIZE * b.hdr.entries else 0
    ensures HasTable(b.hdr) ==> |NewTable(b, w)| == b.hdr.entries
    ensures HasTable(b.hdr) ==> TableOf(TableBytes(NewTable(b, w)), b.hdr.entries) == NewTable(b, w)
  {
    hide From, TableBytes, KernelContent, Concat, Cut;
    var table := NewTable(b, w);
    if HasTable(b.hdr) {
      EntriesWellFormed(From(b, TABLE), b.hdr.entries);
      PackedTiles(Entries(b), RamdiskBlocks(b, w));
      forall i | 0 <= i < |table| ensures WellFormed(table[i]) {
        var e := Entries(b)[i];
        assert WellFormed(e);
        assert table[i] == e.(offset := table[i].offset, size := table[i].size);
      }
    }
    TableRoundTrip(table);
  }

  lemma VendorHasRamdisk(h: Header)
    requires ValidHeader(h) && HasTable(h)
    ensures Supports(h.version, RAMDISK)
  {
  }

  lemma SizeIsRight(b: Boot, w: Workspace, i: nat)
    requires Loaded(b) && TableInside(b) && i < SECTIONS
    ensures NewSize(b, w, i) == |Contents(b, w)[i]| <==> SectionFits(b, w, i)
  {
    hide Contents, TableInside, Supports, KernelContent, RamdiskContent, TableBytes, NewTable, Loaded, Covers;
    LoadedCovers(b);
    CutFits(|Contents(b, w)[i]|);
    if i == KERNEL {
      KernelSize(b, w);
    } else if i == SIGNATURE || i == TABLE || (i == RAMDISK && HasTable(b.hdr)) {
      TableSection(b, w);
      NewTableBytes(b, w);
      if i == RAMDISK {
        VendorHasRamdisk(b.hdr);
      }
    } else {
      RestoredContent(b, w, i);
    }
  }

  /* ----- the walk over the new image ----- */

  /** The header leaves as many pages for a section as it takes up. */
  predicate SameRoom(h: Header, contents: seq<Bytes>, i: nat)
    requires ValidHeader(h) && |contents| == SECTIONS && i < SECTIONS
  {
    AlignTo(Size(h, i), h.page) == AlignTo(|contents[i]|, h.page)
  }

  /** One section ahead: the walk is where the section was put exactly if the room was right. */
  lemma NextStart(h: Header, contents: seq<Bytes>, i: nat)
    requires ValidHeader(h) && |contents| == SECTIONS && i < SECTIONS
    requires Offset(h, i) == Start(HeaderSpace(h), contents, h.page, i)
    ensures Offset(h, i + 1) == Start(HeaderSpace(h), contents, h.page, i + 1) <==> SameRoom(h, contents, i)
  {
    hide Size, HeaderSpace, AlignTo, Start;
    var pages := HeaderPages(h);
    StartNext(pages, contents, h.page, i);
    var n := StartPages(pages, contents, h.page, i);
    AlignFromPage(n, Size(h, i), h.page);
    AlignFromPage(n, |contents[i]|, h.page);
  }

  lemma {:induction false} WalkVisits(h: Header, contents: seq<Bytes>, i: nat)
    requires ValidHeader(h) && |contents| == SECTIONS && i <= SECTIONS
    requires forall j :: 0 <= j < i ==> SameRoom(h, contents, j)
    ensures Offset(h, i) == Start(HeaderSpace(h), contents, h.page, i)
  {
    hide Size, HeaderSpace, AlignTo, Start, SameRoom;
    var pages := HeaderPages(h);
    if i == 0 {
      StartNext(pages, contents, h.page, 0);
    } else {
      WalkVisits(h, contents, i - 1);
      NextStart(h, contents, i - 1);
    }
  }

  /** The walk over `mem` finds this content in a section. */
  ghost predicate Found(h: Header, mem: Bytes, i: nat, content: Bytes) {
    ValidHeader(h) && i < SECTIONS && Size(h, i) == |content| && Offset(h, i) + |content| <= |mem| &&
    mem[Offset(h, i)..Offset(h, i) + |content|] == content
  }

  /** The new header, put over the front of the image, does not change a section. */
  ghost predicate Spared(raw: Bytes, base: nat, contents: seq<Bytes>, page: nat, i: nat)
    requires page > 0 && i < |contents|
  {
    var s := Start(base, contents, page, i);
    forall j :: 0 <= j < |contents[i]| && s + j < |raw| ==> raw[s + j] == contents[i][j]
  }

  lemma SliceOver(raw: Bytes, mem: Bytes, s: nat, content: Bytes)
    requires |raw| <= |mem| && s + |content| <= |mem| && mem[s..s + |content|] == content
    ensures (raw + mem[|raw|..])[s..s + |content|] == content <==>
            forall j :: 0 <= j < |content| && s + j < |raw| ==> raw[s + j] == content[j]
  {
    var over := raw + mem[|raw|..];
    forall j | 0 <= j < |content| ensures mem[s + j] == content[j] {
      assert mem[s + j] == mem[s..s + |content|][j];
    }
    var slice := over[s..s + |content|];
    forall j | 0 <= j < |content| ensures slice[j] == over[s + j] {}
    if slice == content {
      forall j | 0 <= j < |content| && s + j < |raw| ensures raw[s + j] == content[j] {
        assert slice[j] == content[j];
      }
    }
  }

  /**
    A section after others that leave it its place: it reads back exactly if its size is right and the header spares it.
  */
  lemma FoundAt(h: Header, head: Bytes, contents: seq<Bytes>, rest: Bytes, raw: Bytes, i: nat)
    requires ValidHeader(h) && |contents| == SECTIONS && |head| == HeaderSpace(h) && i < SECTIONS
    requires forall j :: 0 <= j < i ==> SameRoom(h, contents, j)
    requires |raw| <= |head + Concat(PaddedAll(contents, h.page)) + rest|
    ensures var mem := head + Concat(PaddedAll(contents, h.page)) + rest;
            Found(h, raw + mem[|raw|..], i, contents[i]) <==>
            Size(h, i) == |contents[i]| && Spared(raw, HeaderSpace(h), contents, h.page, i)
  {
    hide Size, HeaderSpace, AlignTo, Start, Offset, PaddedAll, Concat, SameRoom;
    var mem := head + Concat(PaddedAll(contents, h.page)) + rest;
    var pages := HeaderPages(h);
    WalkVisits(h, contents, i);
    SectionAt(head, contents, rest, pages, h.page, i);
    SliceOver(raw, mem, Offset(h, i), contents[i]);
  }

  /** Everything a walk over `mem` finds. */
  ghost predicate Holds(h: Header, mem: Bytes, contents: seq<Bytes>)
    requires |contents| == SECTIONS
  {
    Covers(h, mem) && forall i :: 0 <= i < SECTIONS ==> Block(h, mem, i) == contents[i]
  }

  lemma HoldsIsFound(h: Header, mem: Bytes, contents: seq<Bytes>)
    requires |contents| == SECTIONS && Covers(h, mem)
    ensures Holds(h, mem, contents) <==> forall i :: 0 <= i < SECTIONS ==> Found(h, mem, i, contents[i])
  {
    hide Size, Offset;
    forall i | 0 <= i < SECTIONS ensures Block(h, mem, i) == contents[i] <==> Found(h, mem, i, contents[i]) {
      OffsetsGrow(h, i, SECTIONS);
    }
  }

  lemma WalkEnds(h: Header, head: Bytes, contents: seq<Bytes>, rest: Bytes)
    requires ValidHeader(h) && |contents| == SECTIONS && |head| == HeaderSpace(h)
    requires forall j :: 0 <= j < SECTIONS ==> SameRoom(h, contents, j)
    ensures Offset(h, SECTIONS) <= |head + Concat(PaddedAll(contents, h.page)) + rest|
  {
    hide Size, HeaderSpace, AlignTo, Start, Offset, PaddedAll, Concat, SameRoom;
    var pages := HeaderPages(h);
    WalkVisits(h, contents, SECTIONS);
    SectionAt(head, contents, rest, pages, h.page, SECTIONS - 1);
  }

  lemma RightRoom(h: Header, contents: seq<Bytes>, i: nat)
    requires ValidHeader(h) && |contents| == SECTIONS && i < SECTIONS && Size(h, i) == |contents[i]|
    ensures SameRoom(h, contents, i)
  {
  }

  /** The parts of a new image, and a mapping of it. */
  lemma ImageParts(b: Boot, w: Workspace, h: Header, raw: Bytes, image: Bytes, rest: Bytes)
    returns (head: Bytes, tail: Bytes)
    requires Loaded(b) && TableInside(b) && HeaderAfter(b, w, h, SECTIONS) && IsImage(b, w, raw, image)
    ensures ValidHeader(h) && h.version == b.hdr.version && h.page == b.hdr.page
    ensures |head| == HeaderSpace(h) == HeaderSpace(b.hdr)
    ensures var mem := head + Concat(PaddedAll(Contents(b, w), h.page)) + tail;
            |raw| <= |mem| && image + rest == raw + mem[|raw|..]
    ensures forall i :: 0 <= i < SECTIONS ==> Size(h, i) == NewSize(b, w, i)
  {
    hide Contents, TableInside, HeaderSpace, PaddedAll, Concat, Size, NewSize, ResetSize, HeaderAfter, Loaded;
    LoadedCovers(b);
    AfterValid(b, w, h, SECTIONS);
    head := b.mem[..HeaderSpace(b.hdr)];
    var body := Concat(PaddedAll(Contents(b, w), b.hdr.page));
    var pad := WrittenParts(b, w);
    tail := pad + rest;
    hide Written;
    OverFront(raw, Written(b, w), rest);
    Regroup(head, body, pad, rest);
  }

  lemma WrittenParts(b: Boot, w: Workspace) returns (pad: Bytes)
    requires Loaded(b) && TableInside(b)
    ensures HeaderSpace(b.hdr) <= |b.mem|
    ensures Written(b, w) == b.mem[..HeaderSpace(b.hdr)] + Concat(PaddedAll(Contents(b, w), b.hdr.page)) + pad
  {
    hide Contents, HeaderSpace, PaddedAll, Concat;
    LoadedCovers(b);
    var used := HeaderSpace(b.hdr) + |Concat(PaddedAll(Contents(b, w), b.hdr.page))|;
    pad := Zeros(if used < b.size then b.size - used else 0);
  }

  lemma OverFront(raw: Bytes, written: Bytes, rest: Bytes)
    requires |raw| <= |written|
    ensures raw + written[|raw|..] + rest == raw + (written + rest)[|raw|..]
  {
  }

  lemma Regroup(a: Bytes, b: Bytes, c: Bytes, d: Bytes)
    ensures a + b + c + d == a + b + (c + d)
  {
  }

  /**
    Section by section: as long as those before it keep their room, a section reads back exactly if it fits and is
    spared.
  */
  lemma SectionReadsBack(b: Boot, w: Workspace, h: Header, raw: Bytes, image: Bytes, rest: Bytes, i: nat)
    requires Loaded(b) && TableInside(b) && i < SECTIONS
    requires HeaderAfter(b, w, h, SECTIONS) && IsImage(b, w, raw, image)
    requires ValidHeader(h) && forall j :: 0 <= j < i ==> SameRoom(h, Contents(b, w), j)
    ensures Offset(h, i) == Start(HeaderSpace(h), Contents(b, w), h.page, i)
    ensures Found(h, image + rest, i, Contents(b, w)[i]) <==>
            SectionFits(b, w, i) && Spared(raw, HeaderSpace(h), Contents(b, w), h.page, i)
  {
    hide Contents, TableInside, Loaded, IsImage, HeaderAfter, SectionFits, HeaderSpace, NewSize, PaddedAll, Concat,
         Size, Offset, SameRoom, Start, Found, Spared;
    var head, tail := ImageParts(b, w, h, raw, image, rest);
    WalkVisits(h, Contents(b, w), i);
    FoundAt(h, head, Contents(b, w), tail, raw, i);
    SizeIsRight(b, w, i);
  }

  /**
    Reading the new image gives every section exactly as it was put in, if and only if everything fits and is spared.
  */
  lemma RepackReadsBack(b: Boot, w: Workspace, h: Header, raw: Bytes, image: Bytes, rest: Bytes)
    requires Loaded(b) && TableInside(b)
    requires HeaderAfter(b, w, h, SECTIONS) && IsImage(b, w, raw, image)
    ensures Holds(h, image + rest, Contents(b, w)) <==>
            Fits(b, w) && forall i :: 0 <= i < SECTIONS ==>
              Spared(raw, HeaderSpace(b.hdr), Contents(b, w), b.hdr.page, i)
    ensures Fits(b, w) && w.recoveryDtbo.Some? && Supports(h.version, RECOVERY_DTBO) ==>
              ValidHeader(h) && h.recoveryOffset == Offset(h, RECOVERY_DTBO)
  {
    hide Contents, TableInside, Loaded, IsImage, Supports, SectionFits, HeaderSpace, NewSize, PaddedAll, Concat, Size,
         Offset, SameRoom, Start, Found, Spared, Block, Covers;
    var contents := Contents(b, w);
    var head, tail := ImageParts(b, w, h, raw, image, rest);
    forall i | 0 <= i < SECTIONS ensures Size(h, i) == |contents[i]| <==> SectionFits(b, w, i) {
      SizeIsRight(b, w, i);
    }
    if Holds(h, image + rest, contents) {
      forall i | 0 <= i < SECTIONS ensures SectionFits(b, w, i) {
        BlockSize(h, image + rest, i);
      }
    }
    if Fits(b, w) {
      forall i | 0 <= i < SECTIONS ensures SameRoom(h, contents, i) { RightRoom(h, contents, i); }
      forall i | 0 <= i < SECTIONS
        ensures Found(h, image + rest, i, contents[i]) <==> Spared(raw, HeaderSpace(b.hdr), contents, b.hdr.page, i)
      {
        SectionReadsBack(b, w, h, raw, image, rest, i);
      }
      WalkEnds(h, head, contents, tail);
      ImageCovered(h, image + rest);
      HoldsIsFound(h, image + rest, contents);
      WalkVisits(h, contents, RECOVERY_DTBO);
    }
  }

  lemma ImageCovered(h: Header, mem: Bytes)
    requires ValidHeader(h) && Offset(h, SECTIONS) <= |mem|
    ensures Covers(h, mem)
  {
  }

  lemma BlockSize(h: Header, mem: Bytes, i: nat)
    requires Covers(h, mem) && i < SECTIONS
    ensures ValidHeader(h) && |Block(h, mem, i)| == Size(h, i)
  {
  }

  /** A header that fits its space spares everything. */
  lemma SmallHeaderSpares(raw: Bytes, base: nat, contents: seq<Bytes>, page: nat, i: nat)
    requires page > 0 && i < |contents| && |raw| <= base
    ensures Spared(raw, base, contents, page, i)
  {
  }

  /* ----- unpacking and repacking ----- */

  /** A section that goes back as it is. */
  predicate Plain(h: Header, i: nat)
    requires ValidHeader(h)
  {
    i < SECTIONS && i != TABLE && !(i == RAMDISK && HasTable(h))
  }

  /** Vendor ramdisks that fit one section. */
  ghost predicate RamdisksFit(b: Boot)
    requires Loaded(b) && TableInside(b)
  {
    HasTable(b.hdr) ==> |RamdiskContent(b, UnpackedTo(b))| < WORD
  }

  lemma KernelTogether(b: Boot)
    requires Loaded(b) && TableInside(b)
    ensures KernelContent(b, UnpackedTo(b)) == Block(b.hdr, b.mem, KERNEL)
  {
    hide Block, From, TableOf, VendorRamdisks.Unpacked;
    var k := Block(b.hdr, b.mem, KERNEL);
    assert KernelOf(b) + KernelDtbOf(b) == k;
  }

  lemma UnpackedFits(b: Boot, i: nat)
    requires Loaded(b) && TableInside(b) && i < SECTIONS
    ensures SectionFits(b, UnpackedTo(b), i) <==>
            (i == TABLE ==> TableExact(b.hdr)) && (i == RAMDISK ==> RamdisksFit(b))
  {
    hide Block, From, Supports, TableOf, VendorRamdisks.Unpacked, KernelContent, RamdiskContent, KernelOf, KernelDtbOf,
         Loaded, Covers, TableInside;
    LoadedCovers(b);
    KernelTogether(b);
    var size := |Block(b.hdr, b.mem, i)|;
  }

  lemma UnpackedContent(b: Boot, i: nat)
    requires Loaded(b) && TableInside(b) && Plain(b.hdr, i)
    ensures Contents(b, UnpackedTo(b))[i] == Block(b.hdr, b.mem, i)
  {
    hide Block, From, TableOf, VendorRamdisks.Unpacked, Contents, KernelContent, KernelOf, KernelDtbOf, TableBytes,
         Supports;
    var w := UnpackedTo(b);
    if i == KERNEL {
      KernelSize(b, w);
      KernelTogether(b);
    } else if i == SIGNATURE {
      TableSection(b, w);
    } else {
      RestoredContent(b, w, i);
    }
  }

  /** Where the section of an unpacked file is put, and the room the new header leaves for it. */
  lemma UnpackedRoom(b: Boot, h: Header, i: nat)
    requires Loaded(b) && TableInside(b) && HeaderAfter(b, UnpackedTo(b), h, SECTIONS) && ValidHeader(h)
    requires i < SECTIONS && i != TABLE && RamdisksFit(b)
    ensures SameRoom(h, Contents(b, UnpackedTo(b)), i)
  {
    hide Contents, SectionFits, Loaded, TableInside, HeaderAfter, UnpackedTo, NewSize, Size, SameRoom, RamdisksFit;
    var w := UnpackedTo(b);
    AfterValid(b, w, h, SECTIONS);
    UnpackedFits(b, i);
    SizeIsRight(b, w, i);
    RightRoom(h, Contents(b, w), i);
  }

  /** An image made of the files it was unpacked to. */
  ghost predicate Repacked(b: Boot, h: Header, raw: Bytes, image: Bytes) {
    Loaded(b) && TableInside(b) && RamdisksFit(b) && |raw| <= HeaderSpace(b.hdr) &&
    HeaderAfter(b, UnpackedTo(b), h, SECTIONS) && IsImage(b, UnpackedTo(b), raw, image)
  }

  /** Repacking what was unpacked: the whole image reads back if and only if its table had no slack. */
  lemma RepackUndoesUnpack(b: Boot, h: Header, raw: Bytes, image: Bytes, rest: Bytes)
    requires Repacked(b, h, raw, image)
    ensures Holds(h, image + rest, Contents(b, UnpackedTo(b))) <==> TableExact(b.hdr)
  {
    LoadedCovers(b);
    hide Contents, SectionFits, TableInside, IsImage, HeaderAfter, UnpackedTo, TableExact, RamdisksFit, Loaded,
         HeaderSpace, Spared, Holds, Covers, Supports;
    var w := UnpackedTo(b);
    forall i | 0 <= i < SECTIONS
      ensures SectionFits(b, w, i) <==> (i == TABLE ==> TableExact(b.hdr))
      ensures Spared(raw, HeaderSpace(b.hdr), Contents(b, w), b.hdr.page, i)
    {
      UnpackedFits(b, i);
      SmallHeaderSpares(raw, HeaderSpace(b.hdr), Contents(b, w), b.hdr.page, i);
    }
    assert SectionFits(b, w, TABLE) <==> TableExact(b.hdr);
    RepackReadsBack(b, w, h, raw, image, rest);
  }

  /** Slack in the table or not, every section before it keeps its bytes and size. */
  lemma SectionsBeforeTable(b: Boot, h: Header, raw: Bytes, image: Bytes, rest: Bytes, i: nat)
    requires Repacked(b, h, raw, image) && Plain(b.hdr, i) && i < TABLE
    ensures Found(h, image + rest, i, Block(b.hdr, b.mem, i))
  {
    LoadedCovers(b);
    UnpackedFits(b, i);
    UnpackedContent(b, i);
    hide Block, Contents, SectionFits, TableInside, IsImage, HeaderAfter, UnpackedTo, RamdisksFit, Offset, Loaded,
         HeaderSpace, Spared, Start, Found, SameRoom, Covers;
    var w := UnpackedTo(b);
    AfterValid(b, w, h, SECTIONS);
    forall j | 0 <= j < i ensures SameRoom(h, Contents(b, w), j) { UnpackedRoom(b, h, j); }
    SmallHeaderSpares(raw, HeaderSpace(b.hdr), Contents(b, w), b.hdr.page, i);
    SectionReadsBack(b, w, h, raw, image, rest, i);
  }

  /** And the one after it is looked for where it was put exactly if the slack stays within the pages of the table. */
  lemma SectionAfterTable(b: Boot, h: Header, raw: Bytes, image: Bytes, rest: Bytes)
    requires Repacked(b, h, raw, image)
    ensures ValidHeader(h)
    ensures Offset(h, BOOTCONFIG) == Start(HeaderSpace(h), Contents(b, UnpackedTo(b)), h.page, BOOTCONFIG) <==>
            SameRoom(h, Contents(b, UnpackedTo(b)), TABLE)
    ensures SameRoom(h, Contents(b, UnpackedTo(b)), TABLE) ==>
              Found(h, image + rest, BOOTCONFIG, Block(b.hdr, b.mem, BOOTCONFIG))
    ensures TableExact(b.hdr) ==> SameRoom(h, Contents(b, UnpackedTo(b)), TABLE)
  {
    LoadedCovers(b);
    UnpackedFits(b, TABLE);
    UnpackedFits(b, BOOTCONFIG);
    UnpackedContent(b, BOOTCONFIG);
    hide Block, Contents, SectionFits, TableInside, IsImage, HeaderAfter, UnpackedTo, RamdisksFit, Offset, Loaded,
         HeaderSpace, Spared, Start, Found, SameRoom, Covers;
    var w := UnpackedTo(b);
    AfterValid(b, w, h, SECTIONS);
    forall j | 0 <= j < TABLE ensures SameRoom(h, Contents(b, w), j) { UnpackedRoom(b, h, j); }
    SizeIsRight(b, w, TABLE);
    if TableExact(b.hdr) {
      RightRoom(h, Contents(b, w), TABLE);
    }
    WalkVisits(h, Contents(b, w), TABLE);
    NextStart(h, Contents(b, w), TABLE);
    if SameRoom(h, Contents(b, w), TABLE) {
      SmallHeaderSpares(raw, HeaderSpace(b.hdr), Contents(b, w), b.hdr.page, BOOTCONFIG);
      SectionReadsBack(b, w, h, raw, image, rest, BOOTCONFIG);
    }
  }

  /** No two ramdisks that differ are unpacked to one file. */
  ghost predicate OwnFiles(es: seq<TableEntry>, mem: Bytes) {
    forall i, j :: 0 <= i < j < |es| && FileName(es[i]) == FileName(es[j]) ==> Part(mem, es[i]) == Part(mem, es[j])
  }

  /**
    A vendor image that reads back has a table for the same ramdisks that tiles their section, and keeps every ramdisk
    exactly if each had its own file.
  */
  lemma RepackKeepsRamdisks(b: Boot, h: Header, raw: Bytes, image: Bytes, rest: Bytes)
    requires Loaded(b) && TableInside(b) && HasTable(b.hdr) && RamdisksFit(b)
    requires HeaderAfter(b, UnpackedTo(b), h, SECTIONS) && IsImage(b, UnpackedTo(b), raw, image)
    requires Holds(h, image + rest, Contents(b, UnpackedTo(b)))
    ensures Covers(h, image + rest) && |Block(h, image + rest, TABLE)| == ENTRY_SIZE * b.hdr.entries
    ensures var table := TableOf(Block(h, image + rest, TABLE), b.hdr.entries);
            var section := Block(h, image + rest, RAMDISK);
            SameButPlace(table, Entries(b)) && Tiles(table, RamdiskBlocks(b, UnpackedTo(b)), section) &&
            ((forall i :: 0 <= i < |table| ==> Part(section, table[i]) == Part(From(b, RAMDISK), Entries(b)[i])) <==>
             OwnFiles(Entries(b), From(b, RAMDISK)))
  {
    hide Block, From, TableOf, TableBytes, Contents, TableInside, IsImage, HeaderAfter, Offset, Concat, Covers, Packed,
         Part, FileName, VendorRamdisks.Unpacked, Tiles, SameButPlace, Files;
    var w := UnpackedTo(b);
    TableSection(b, w);
    NewTableBytes(b, w);
    var table := NewTable(b, w);
    PackedTiles(Entries(b), RamdiskBlocks(b, w));
    PackKeepsRamdisks(Entries(b), From(b, RAMDISK), table, RamdiskContent(b, w));
  }
}
