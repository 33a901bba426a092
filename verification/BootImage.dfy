/** Boot image headers, the walk over an image, and unpacking and repacking it. */
module BootImage {
  import opened Options
  import opened Bytes
  import opened BootLayout
  import opened VendorRamdisks
  import DtbSearch

  datatype Version = V0 | V1 | V2 | V3 | V4 | Vendor3 | Vendor4

  // The sections, in the order in which they are stored.
  const KERNEL: nat := 0
  const RAMDISK: nat := 1
  const SECOND: nat := 2
  const EXTRA: nat := 3
  const RECOVERY_DTBO: nat := 4
  const DTB: nat := 5
  const SIGNATURE: nat := 6
  const TABLE: nat := 7
  const BOOTCONFIG: nat := 8
  const SECTIONS: nat := 9

  /** `sizes` are the size fields; those a version does not have are never looked at. */
  datatype Header = Header(version: Version, page: nat, sizes: seq<Word>, entries: Word, entrySize: Word,
                           recoveryOffset: nat)

  predicate Supports(v: Version, i: nat) {
    match v
    case V0 => i in {KERNEL, RAMDISK, SECOND, EXTRA}
    case V1 => i in {KERNEL, RAMDISK, SECOND, RECOVERY_DTBO}
    case V2 => i in {KERNEL, RAMDISK, SECOND, RECOVERY_DTBO, DTB}
    case V3 => i in {KERNEL, RAMDISK}
    case V4 => i in {KERNEL, RAMDISK, SIGNATURE}
    case Vendor3 => i in {RAMDISK, DTB}
    case Vendor4 => i in {RAMDISK, DTB, TABLE, BOOTCONFIG}
  }

  function HeaderSize(v: Version): nat {
    match v
    case V0 => 1632
    case V1 => 1648
    case V2 => 1660
    case V3 => 1580
    case V4 => 1584
    case Vendor3 => 2112
    case Vendor4 => 2128
  }

  predicate IsVendor(v: Version) { v == Vendor3 || v == Vendor4 }

  predicate ValidHeader(h: Header) {
    h.page > 0 && |h.sizes| == SECTIONS && (h.version in {V3, V4} ==> h.page == 4096)
  }

  function HeaderSpace(h: Header): nat
    requires ValidHeader(h)
  {
    if IsVendor(h.version) then AlignTo(HeaderSize(h.version), h.page) else h.page
  }

  lemma HeaderPages(h: Header) returns (pages: nat)
    requires ValidHeader(h)
    ensures HeaderSpace(h) == h.page * pages
  {
    hide AlignTo;
    pages := if IsVendor(h.version) then (HeaderSize(h.version) + h.page - 1) / h.page else 1;
    AlignFromPage(0, HeaderSize(h.version), h.page);
  }

  /** Reading a size. */
  function Size(h: Header, i: nat): nat
    requires ValidHeader(h) && i < SECTIONS
  {
    if Supports(h.version, i) then h.sizes[i] else 0
  }

  /** Writing a size: lost if the header has no such field. */
  function SetSize(h: Header, i: nat, n: Word): Header
    requires ValidHeader(h) && i < SECTIONS
  {
    if Supports(h.version, i) then h.(sizes := h.sizes[i := n]) else h
  }

  /* ----- the walk ----- */

  /** Where section `i` starts. */
  function Offset(h: Header, i: nat): nat
    requires ValidHeader(h) && i <= SECTIONS
  {
    if i == 0 then HeaderSpace(h) else AlignTo(Offset(h, i - 1) + Size(h, i - 1), h.page)
  }

  /** Sections do not overlap, and lie before the end of the walk. */
  lemma {:induction false} OffsetsGrow(h: Header, i: nat, j: nat)
    requires ValidHeader(h) && i < j <= SECTIONS
    ensures Offset(h, i) + Size(h, i) <= Offset(h, j)
    decreases j
  {
    AlignAbove(Offset(h, j - 1) + Size(h, j - 1), h.page);
    if i < j - 1 {
      OffsetsGrow(h, i, j - 1);
    }
  }

  /* ----- the layout, version by version ----- */

  /** The number of pages `n` bytes take up. */
  function Pages(n: nat, page: nat): nat
    requires page > 0
  {
    (n + page - 1) / page
  }

  /** The pages of the header. */
  function FrontPages(h: Header): nat
    requires ValidHeader(h)
  {
    if h.version.Vendor3? then Pages(2112, h.page) else if h.version.Vendor4? then Pages(2128, h.page) else 1
  }

  /**
    The pages of each section: kernel, ramdisk, second, extra, recovery overlay, device trees, signature, table,
    bootconfig.
  */
  function SectionPages(h: Header): (r: seq<nat>)
    requires ValidHeader(h)
    ensures |r| == 9
  {
    var n := (i: nat) requires i < 9 => Pages(h.sizes[i], h.page);
    match h.version
    case V0 => [n(0), n(1), n(2), n(3), 0, 0, 0, 0, 0]
    case V1 => [n(0), n(1), n(2), 0, n(4), 0, 0, 0, 0]
    case V2 => [n(0), n(1), n(2), 0, n(4), n(5), 0, 0, 0]
    case V3 => [n(0), n(1), 0, 0, 0, 0, 0, 0, 0]
    case V4 => [n(0), n(1), 0, 0, 0, 0, n(6), 0, 0]
    case Vendor3 => [0, n(1), 0, 0, 0, n(5), 0, 0, 0]
    case Vendor4 => [0, n(1), 0, 0, 0, n(5), 0, n(7), n(8)]
  }

  function Sum(ns: seq<nat>): nat { if ns == [] then 0 else Sum(ns[..|ns| - 1]) + ns[|ns| - 1] }

  /** Sections start on pages: behind the header's and those of the sections before. */
  predicate StartsAre(h: Header, starts: seq<nat>)
    requires ValidHeader(h)
  {
    |starts| == 9 && (h.version.V3? || h.version.V4? ==> h.page == 4096) &&
    forall i :: 0 <= i < 9 ==> starts[i] == h.page * (FrontPages(h) + Sum(SectionPages(h)[..i]))
  }

  lemma NoPages(page: nat)
    requires page > 0
    ensures Pages(0, page) == 0
  {
    DivUnique(page - 1, page, 0, page - 1);
  }

  lemma SectionPagesAre(h: Header, i: nat)
    requires ValidHeader(h) && i < SECTIONS
    ensures Pages(Size(h, i), h.page) == SectionPages(h)[i]
  {
    hide Pages;
    NoPages(h.page);
  }

  lemma {:induction false} OffsetPages(h: Header, i: nat)
    requires ValidHeader(h) && i <= SECTIONS
    ensures Offset(h, i) == h.page * (FrontPages(h) + Sum(SectionPages(h)[..i]))
    decreases i
  {
    hide AlignTo, Size, SectionPages;
    var before := SectionPages(h)[..i];
    if i == 0 {
      AlignFromPage(0, HeaderSize(h.version), h.page);
    } else {
      OffsetPages(h, i - 1);
      SectionPagesAre(h, i - 1);
      assert before[..|before| - 1] == SectionPages(h)[..i - 1];
      var n := FrontPages(h) + Sum(SectionPages(h)[..i - 1]);
      AlignFromPage(n, Size(h, i - 1), h.page);
      assert h.page * n + h.page * SectionPages(h)[i - 1] == h.page * (n + SectionPages(h)[i - 1]);
    }
  }

  ghost predicate Covers(h: Header, mem: Bytes) {
    ValidHeader(h) && Offset(h, SECTIONS) <= |mem|
  }

  function Block(h: Header, mem: Bytes, i: nat): (r: Bytes)
    requires Covers(h, mem) && i < SECTIONS
    ensures |r| == Size(h, i)
  {
    OffsetsGrow(h, i, SECTIONS);
    mem[Offset(h, i)..Offset(h, i) + Size(h, i)]
  }

  lemma WalkedTo(h: Header)
    requires ValidHeader(h)
    ensures forall i :: 0 <= i < SECTIONS ==> Offset(h, i) == h.page * (FrontPages(h) + Sum(SectionPages(h)[..i]))
    ensures Offset(h, SECTIONS) == h.page * (FrontPages(h) + Sum(SectionPages(h)))
  {
    hide Offset, FrontPages, SectionPages, Sum;
    forall i | 0 <= i <= SECTIONS ensures Offset(h, i) == h.page * (FrontPages(h) + Sum(SectionPages(h)[..i])) {
      OffsetPages(h, i);
    }
    assert SectionPages(h)[..SECTIONS] == SectionPages(h);
  }

  lemma StartsFound(h: Header, starts: seq<nat>)
    requires ValidHeader(h) && |starts| == SECTIONS && forall i :: 0 <= i < SECTIONS ==> starts[i] == Offset(h, i)
    ensures StartsAre(h, starts)
  {
    hide Offset, FrontPages, SectionPages, Sum;
    WalkedTo(h);
  }

  /** The sections fit into a mapping exactly if all their pages do. */
  lemma CoveredPages(h: Header, mem: Bytes)
    ensures Covers(h, mem) <==> ValidHeader(h) && h.page * (FrontPages(h) + Sum(SectionPages(h))) <= |mem|
  {
    hide Offset, FrontPages, SectionPages, Sum;
    if ValidHeader(h) {
      WalkedTo(h);
    }
  }

  /** The walk over a mapped image: fails exactly if the sections do not fit into the mapping. */
  method Walk(h: Header, mem: Bytes) returns (offsets: Option<seq<nat>>)
    requires ValidHeader(h)
    ensures offsets.Some? <==> Covers(h, mem)
    ensures offsets.Some? ==> |offsets.value| == SECTIONS
    ensures offsets.Some? ==> forall i :: 0 <= i < SECTIONS ==> offsets.value[i] == Offset(h, i)
    ensures offsets.Some? ==> StartsAre(h, offsets.value)
  {
    hide AlignTo, HeaderSpace, Size, StartsAre;
    var starts: seq<nat> := [];
    var off := HeaderSpace(h);
    while |starts| < SECTIONS
      invariant |starts| <= SECTIONS && off == Offset(h, |starts|)
      invariant forall i :: 0 <= i < |starts| ==> starts[i] == Offset(h, i)
      invariant |starts| == SECTIONS ==> off <= |mem|
      decreases SECTIONS - |starts|
    {
      starts := starts + [off];
      off := AlignTo(off + Size(h, |starts| - 1), h.page);
      assert off == Offset(h, |starts|);
      if off > |mem| {
        if |starts| < SECTIONS {
          OffsetsGrow(h, |starts|, SECTIONS);
        }
        return None;
      }
    }
    StartsFound(h, starts);
    return Some(starts);
  }

  /* ----- unpacking ----- */

  /**
    An image that was read: the mapping, the size of the file, and where the device trees in the kernel start, 0 if
    nowhere.
  */
  datatype Boot = Boot(hdr: Header, mem: Bytes, size: nat, split: nat)

  ghost predicate Loaded(b: Boot) {
    Covers(b.hdr, b.mem) && b.size <= |b.mem| && (b.split == 0 || b.split < Size(b.hdr, KERNEL))
  }

  /**
    Reads an image: walks over it, and splits the kernel before the first device tree, unless that is at its very front.
  */
  method Load(h: Header, mem: Bytes, size: nat) returns (b: Option<Boot>)
    requires ValidHeader(h) && size <= |mem|
    ensures b.Some? <==> Covers(h, mem)
    ensures b.Some? ==> Loaded(b.value) && b.value == Boot(h, mem, size, b.value.split)
    ensures b.Some? && b.value.split > 0 ==>
              HeaderSpace(h) <= |mem| && DtbSearch.TreeAt(mem[HeaderSpace(h)..], Size(h, KERNEL), b.value.split)
  {
    hide Size, DtbSearch.TreeAt, DtbSearch.Visited, HeaderSpace;
    var offsets := Walk(h, mem);
    if offsets.None? {
      return None;
    }
    OffsetsGrow(h, KERNEL, SECTIONS);
    var found := DtbSearch.FindDtb(mem[offsets.value[KERNEL]..], Size(h, KERNEL));
    return Some(Boot(h, mem, size, found.GetOr(0)));
  }

  function KernelOf(b: Boot): Bytes
    requires Loaded(b)
  {
    if b.split > 0 then Block(b.hdr, b.mem, KERNEL)[..b.split] else Block(b.hdr, b.mem, KERNEL)
  }

  function KernelDtbOf(b: Boot): Bytes
    requires Loaded(b)
  {
    if b.split > 0 then Block(b.hdr, b.mem, KERNEL)[b.split..] else []
  }

  predicate HasTable(h: Header)
    requires ValidHeader(h)
  {
    Size(h, TABLE) != 0
  }

  /** The program gives up on a table whose entries are not of the size it knows. */
  predicate TableKnown(h: Header)
    requires ValidHeader(h)
  {
    HasTable(h) ==> h.entrySize == ENTRY_SIZE
  }

  /** What is mapped from the start of a section on. */
  function From(b: Boot, i: nat): (r: Bytes)
    requires Loaded(b) && i < SECTIONS
    ensures |r| == |b.mem| - Offset(b.hdr, i) && Size(b.hdr, i) <= |r|
  {
    OffsetsGrow(b.hdr, i, SECTIONS);
    b.mem[Offset(b.hdr, i)..]
  }

  /** The table is mapped; it may be longer than its section. */
  ghost predicate TableInside(b: Boot)
    requires Loaded(b)
  {
    HasTable(b.hdr) ==> ENTRY_SIZE * b.hdr.entries <= |From(b, TABLE)|
  }

  function Entries(b: Boot): seq<TableEntry>
    requires Loaded(b) && TableInside(b)
  {
    if HasTable(b.hdr) then TableOf(From(b, TABLE), b.hdr.entries) else []
  }

  /** Every ramdisk is mapped; it may reach beyond its section. */
  ghost predicate RamdisksInside(b: Boot)
    requires Loaded(b) && TableInside(b)
  {
    forall i :: 0 <= i < |Entries(b)| ==> Inside(Entries(b)[i], From(b, RAMDISK))
  }

  /** The files in the working directory. */
  datatype Workspace = Workspace(kernel: Option<Bytes>, kernelDtb: Option<Bytes>, ramdisk: Option<Bytes>, ramdisks: Dir,
                                 second: Option<Bytes>, extra: Option<Bytes>, recoveryDtbo: Option<Bytes>,
                                 dtb: Option<Bytes>, bootconfig: Option<Bytes>)

  /** Nothing is written for an empty section. */
  function Dumped(b: Bytes): Option<Bytes> { if b == [] then None else Some(b) }

  method Unpack(b: Boot) returns (w: Option<Workspace>)
    requires Loaded(b) && TableInside(b) && RamdisksInside(b)
    ensures w.Some? <==> TableKnown(b.hdr)
    ensures w.Some? ==> w.value == UnpackedTo(b)
  {
    hide Offset, Block, From, TableOf, FileName, Part, VendorRamdisks.Unpacked;
    if HasTable(b.hdr) && b.hdr.entrySize != ENTRY_SIZE {
      return None;
    }
    var ramdisks: Dir, ramdisk := map[], None;
    if HasTable(b.hdr) {
      ramdisks := UnpackRamdisks(Entries(b), From(b, RAMDISK));
    } else {
      ramdisk := Dumped(Block(b.hdr, b.mem, RAMDISK));
    }
    return Some(Workspace(Dumped(KernelOf(b)), Dumped(KernelDtbOf(b)), ramdisk, ramdisks,
                          Dumped(Block(b.hdr, b.mem, SECOND)), Dumped(Block(b.hdr, b.mem, EXTRA)),
                          Dumped(Block(b.hdr, b.mem, RECOVERY_DTBO)), Dumped(Block(b.hdr, b.mem, DTB)),
                          Dumped(Block(b.hdr, b.mem, BOOTCONFIG))));
  }

  /** The files an image is unpacked to. */
  function UnpackedTo(b: Boot): Workspace
    requires Loaded(b) && TableInside(b)
  {
    Workspace(Dumped(KernelOf(b)), Dumped(KernelDtbOf(b)),
              if HasTable(b.hdr) then None else Dumped(Block(b.hdr, b.mem, RAMDISK)),
              if HasTable(b.hdr) then VendorRamdisks.Unpacked(Entries(b), From(b, RAMDISK)) else map[],
              Dumped(Block(b.hdr, b.mem, SECOND)), Dumped(Block(b.hdr, b.mem, EXTRA)),
              Dumped(Block(b.hdr, b.mem, RECOVERY_DTBO)), Dumped(Block(b.hdr, b.mem, DTB)),
              Dumped(Block(b.hdr, b.mem, BOOTCONFIG)))
  }

  /** What is dumped for some bytes of the mapping: nothing if there are none. */
  function Slice(mem: Bytes, start: nat, size: nat): Option<Bytes> {
    if size == 0 || start + size > |mem| then None else Some(mem[start..start + size])
  }

  /** The file of each section, as a slice of the mapping. */
  predicate FilesAre(b: Boot, starts: seq<nat>, w: Workspace)
    requires ValidHeader(b.hdr) && |starts| == 9
  {
    var v, n, at := b.hdr.version, b.hdr.sizes, starts;
    w.kernel == (if v.Vendor3? || v.Vendor4? then None
                 else Slice(b.mem, at[0], if b.split > 0 then b.split else n[0])) &&
    w.kernelDtb == (if v.Vendor3? || v.Vendor4? || b.split == 0 || n[0] < b.split then None
                    else Slice(b.mem, at[0] + b.split, n[0] - b.split)) &&
    (!(v.Vendor4? && n[7] != 0) ==> w.ramdisk == Slice(b.mem, at[1], n[1]) && w.ramdisks == map[]) &&
    w.second == (if v.V0? || v.V1? || v.V2? then Slice(b.mem, at[2], n[2]) else None) &&
    w.extra == (if v.V0? then Slice(b.mem, at[3], n[3]) else None) &&
    w.recoveryDtbo == (if v.V1? || v.V2? then Slice(b.mem, at[4], n[4]) else None) &&
    w.dtb == (if v.V2? || v.Vendor3? || v.Vendor4? then Slice(b.mem, at[5], n[5]) else None) &&
    w.bootconfig == (if v.Vendor4? then Slice(b.mem, at[8], n[8]) else None)
  }

  lemma DumpedIsSlice(h: Header, mem: Bytes, i: nat)
    requires Covers(h, mem) && i < SECTIONS
    ensures Dumped(Block(h, mem, i)) == Slice(mem, Offset(h, i), Size(h, i))
  {
    hide Size, Offset;
    OffsetsGrow(h, i, SECTIONS);
  }

  lemma KernelSlices(b: Boot)
    requires Loaded(b)
    ensures var at, n := Offset(b.hdr, KERNEL), Size(b.hdr, KERNEL);
            Dumped(KernelOf(b)) == Slice(b.mem, at, if b.split > 0 then b.split else n) &&
            Dumped(KernelDtbOf(b)) == if b.split == 0 then None else Slice(b.mem, at + b.split, n - b.split)
  {
    hide Size, Offset;
    OffsetsGrow(b.hdr, KERNEL, SECTIONS);
    var at, n := Offset(b.hdr, KERNEL), Size(b.hdr, KERNEL);
    var k := b.mem[at..at + n];
    if b.split > 0 {
      assert k[..b.split] == b.mem[at..at + b.split];
      assert k[b.split..] == b.mem[at + b.split..at + n];
    }
  }

  /** Which bytes of the image go to which file. */
  lemma UnpackedFiles(b: Boot)
    requires Loaded(b) && TableInside(b)
    ensures var starts := seq(9, i requires 0 <= i < 9 => Offset(b.hdr, i));
            StartsAre(b.hdr, starts) && FilesAre(b, starts, UnpackedTo(b))
  {
    hide Offset, Block, From, TableOf, VendorRamdisks.Unpacked, KernelOf, KernelDtbOf, FrontPages, SectionPages, Sum;
    hide Slice, Dumped;
    WalkedTo(b.hdr);
    KernelSlices(b);
    forall i | 0 <= i < SECTIONS
      ensures Dumped(Block(b.hdr, b.mem, i)) == Slice(b.mem, Offset(b.hdr, i), Size(b.hdr, i))
    {
      DumpedIsSlice(b.hdr, b.mem, i);
    }
    EmptySlice(b.mem);
  }

  lemma EmptySlice(mem: Bytes)
    ensures forall start :: Slice(mem, start, 0) == None
  {
  }
}
