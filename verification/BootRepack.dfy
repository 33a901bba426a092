/** Repacking a boot image, and what reading the result gives. */
module BootRepack {
  import opened Options
  import opened Bytes
  import opened Slices
  import opened BootLayout
  import opened VendorRamdisks
  import opened BootImage

  function KernelContent(b: Boot, w: Workspace): Bytes
    requires Loaded(b)
  {
    w.kernel.GetOr(KernelOf(b)) + w.kernelDtb.GetOr([])
  }

  function RamdiskBlocks(b: Boot, w: Workspace): (r: seq<Bytes>)
    requires Loaded(b) && TableInside(b)
    ensures |r| == |Entries(b)|
  {
    Files(w.ramdisks, Entries(b))
  }

  function RamdiskContent(b: Boot, w: Workspace): Bytes
    requires Loaded(b) && TableInside(b)
  {
    if HasTable(b.hdr) then Concat(RamdiskBlocks(b, w)) else w.ramdisk.GetOr([])
  }

  function NewTable(b: Boot, w: Workspace): seq<TableEntry>
    requires Loaded(b) && TableInside(b)
  {
    if HasTable(b.hdr) then Packed(Entries(b), RamdiskBlocks(b, w)) else []
  }

  /** What is put into each section. */
  function Contents(b: Boot, w: Workspace): (r: seq<Bytes>)
    requires Loaded(b) && TableInside(b)
    ensures |r| == SECTIONS
  {
    [KernelContent(b, w), RamdiskContent(b, w), w.second.GetOr([]), w.extra.GetOr([]), w.recoveryDtbo.GetOr([]),
     w.dtb.GetOr([]), Block(b.hdr, b.mem, SIGNATURE), TableBytes(NewTable(b, w)), w.bootconfig.GetOr([])]
  }

  /** The file a section is restored from. */
  function FileFor(w: Workspace, i: nat): Option<Bytes> {
    if i == RAMDISK then w.ramdisk
    else if i == SECOND then w.second
    else if i == EXTRA then w.extra
    else if i == RECOVERY_DTBO then w.recoveryDtbo
    else if i == DTB then w.dtb
    else if i == BOOTCONFIG then w.bootconfig
    else None
  }

  lemma RestoredContent(b: Boot, w: Workspace, i: nat)
    requires Loaded(b) && TableInside(b)
    requires i in {SECOND, EXTRA, RECOVERY_DTBO, DTB, BOOTCONFIG} || (i == RAMDISK && !HasTable(b.hdr))
    ensures Contents(b, w)[i] == FileFor(w, i).GetOr([])
  {
    hide KernelContent, Block, TableBytes, NewTable;
  }

  /** Sizes the program does not reset before it writes. */
  predicate Stays(i: nat) { i in {EXTRA, RECOVERY_DTBO, SIGNATURE, TABLE} }

  /** The size the new header gives for a section. */
  function NewSize(b: Boot, w: Workspace, i: nat): nat
    requires Loaded(b) && TableInside(b) && i < SECTIONS
  {
    if !Supports(b.hdr.version, i) then 0
    else if Stays(i) && FileFor(w, i).None? then Size(b.hdr, i)
    else |Contents(b, w)[i]| % WORD
  }

  function ResetSize(h: Header, i: nat): nat
    requires ValidHeader(h) && i < SECTIONS
  {
    if Stays(i) then Size(h, i) else 0
  }

  /** Where the recovery device tree overlay is put. */
  ghost function NewRecoveryOffset(b: Boot, w: Workspace): nat
    requires Loaded(b) && TableInside(b)
  {
    if w.recoveryDtbo.Some? && Supports(b.hdr.version, RECOVERY_DTBO)
    then Start(HeaderSpace(b.hdr), Contents(b, w), b.hdr.page, RECOVERY_DTBO)
    else b.hdr.recoveryOffset
  }

  ghost predicate SameShape(h: Header, g: Header) {
    h == g.(sizes := h.sizes, recoveryOffset := h.recoveryOffset) && |h.sizes| == |g.sizes|
  }

  /** The header after the first `k` sections. */
  ghost predicate HeaderAfter(b: Boot, w: Workspace, h: Header, k: nat)
    requires Loaded(b) && TableInside(b)
  {
    SameShape(h, b.hdr) && ValidHeader(h) &&
    h.recoveryOffset == (if k > RECOVERY_DTBO then NewRecoveryOffset(b, w) else b.hdr.recoveryOffset) &&
    forall i :: 0 <= i < SECTIONS ==> Size(h, i) == if i < k then NewSize(b, w, i) else ResetSize(b.hdr, i)
  }

  lemma SetStep(b: Boot, w: Workspace, h: Header, k: nat, n: Word)
    requires Loaded(b) && TableInside(b) && k < SECTIONS && k != RECOVERY_DTBO && HeaderAfter(b, w, h, k)
    requires Supports(b.hdr.version, k) ==> n == NewSize(b, w, k)
    ensures HeaderAfter(b, w, SetSize(h, k, n), k + 1)
  {
    hide Loaded, TableInside, Contents, Supports, FileFor, NewRecoveryOffset;
    var g := SetSize(h, k, n);
    forall i | 0 <= i < SECTIONS
      ensures Size(g, i) == if i < k + 1 then NewSize(b, w, i) else ResetSize(b.hdr, i)
    {
      assert i != k ==> Size(g, i) == Size(h, i);
    }
  }

  lemma RecoveryStep(b: Boot, w: Workspace, h: Header, g: Header)
    requires Loaded(b) && TableInside(b) && HeaderAfter(b, w, h, RECOVERY_DTBO)
    requires SameShape(g, h) && ValidHeader(g) && g.recoveryOffset == NewRecoveryOffset(b, w)
    requires Size(g, RECOVERY_DTBO) == NewSize(b, w, RECOVERY_DTBO)
    requires forall i :: 0 <= i < SECTIONS && i != RECOVERY_DTBO ==> Size(g, i) == Size(h, i)
    ensures HeaderAfter(b, w, g, RECOVERY_DTBO + 1)
  {
    hide Loaded, TableInside, Supports, NewSize, ResetSize, NewRecoveryOffset, Size;
  }

  lemma KeepStep(b: Boot, w: Workspace, h: Header, k: nat)
    requires Loaded(b) && TableInside(b) && k < SECTIONS && k != RECOVERY_DTBO && HeaderAfter(b, w, h, k)
    requires NewSize(b, w, k) == ResetSize(b.hdr, k)
    ensures HeaderAfter(b, w, h, k + 1)
  {
    hide Loaded, TableInside, NewSize, ResetSize, NewRecoveryOffset, Size;
  }

  /** What is on disk after the first `k` sections. */
  ghost predicate WrittenTo(b: Boot, w: Workspace, head: Bytes, out: Bytes, k: nat)
    requires Loaded(b) && TableInside(b)
  {
    k <= SECTIONS && out == head + Concat(PaddedAll(Contents(b, w), b.hdr.page)[..k])
  }

  lemma AlignedAppend(head: Bytes, pages: nat, contents: seq<Bytes>, page: nat, k: nat, out: Bytes)
    requires page > 0 && |head| == page * pages && k < |contents|
    requires out == head + Concat(PaddedAll(contents, page)[..k])
    ensures var o := out + contents[k];
            o + Zeros(AlignPadding(|o|, page)) == head + Concat(PaddedAll(contents, page)[..k + 1])
    ensures contents[k] == [] ==> out == head + Concat(PaddedAll(contents, page)[..k + 1])
    ensures |out| == Start(|head|, contents, page, k)
  {
    hide AlignTo, Concat;
    var all := PaddedAll(contents, page);
    ConcatSnoc(all, k);
    assert all[..k] == PaddedAll(contents[..k], page);
    var n := PagesOf(contents[..k], page);
    assert page * pages + page * n == page * (pages + n);
    AlignFromPage(pages + n, |contents[k]|, page);
    var o := out + contents[k];
    assert AlignPadding(|o|, page) == AlignPadding(|contents[k]|, page);
    assert o + Zeros(AlignPadding(|o|, page)) == out + all[k];
    assert head + (Concat(all[..k]) + all[k]) == out + all[k];
    if contents[k] == [] {
      AlignFromPage(0, 0, page);
      AlignAbove(0, page);
      EmptyPadded(page);
    }
  }

  lemma EmptyPadded(page: nat)
    requires page > 0
    ensures Padded([], page) == []
  {
    AlignAbove(0, page);
    DivUnique(page - 1, page, 0, page - 1);
  }

  /** Writes a section and aligns the file. */
  method WriteSection(b: Boot, w: Workspace, ghost head: Bytes, out: Bytes, k: nat, data: Bytes) returns (r: Bytes)
    requires Loaded(b) && TableInside(b) && k < SECTIONS
    requires |head| == HeaderSpace(b.hdr) && WrittenTo(b, w, head, out, k) && data == Contents(b, w)[k]
    ensures WrittenTo(b, w, head, r, k + 1) && |out| == Start(|head|, Contents(b, w), b.hdr.page, k)
  {
    hide *;
    LoadedPage(b);
    ghost var pages := HeaderPages(b.hdr);
    r := out + data;
    r := r + Zeros(AlignPadding(|r|, b.hdr.page));
    WriteStep(b, w, head, pages, out, k, data, r);
  }

  lemma LoadedPage(b: Boot)
    requires Loaded(b)
    ensures ValidHeader(b.hdr) && b.hdr.page > 0
  {
  }

  lemma WriteStep(b: Boot, w: Workspace, head: Bytes, pages: nat, out: Bytes, k: nat, data: Bytes, r: Bytes)
    requires Loaded(b) && TableInside(b) && k < SECTIONS && |head| == b.hdr.page * pages
    requires WrittenTo(b, w, head, out, k) && data == Contents(b, w)[k]
    requires r == out + data + Zeros(AlignPadding(|out + data|, b.hdr.page)) || (data == [] && r == out)
    ensures WrittenTo(b, w, head, r, k + 1) && |out| == Start(|head|, Contents(b, w), b.hdr.page, k)
  {
    hide Contents, Concat, PaddedAll, AlignTo, TableInside;
    AlignedAppend(head, pages, Contents(b, w), b.hdr.page, k, out);
  }

  /** A section that is restored from a file, if there is one. */
  method Restore(b: Boot, w: Workspace, h: Header, ghost head: Bytes, out: Bytes, k: nat) returns (g: Header, r: Bytes)
    requires Loaded(b) && TableInside(b)
    requires k in {SECOND, EXTRA, DTB, BOOTCONFIG} || (k == RAMDISK && !HasTable(b.hdr))
    requires HeaderAfter(b, w, h, k)
    requires |head| == HeaderSpace(b.hdr) && WrittenTo(b, w, head, out, k)
    ensures HeaderAfter(b, w, g, k + 1) && WrittenTo(b, w, head, r, k + 1)
  {
    hide Contents, WrittenTo, HeaderAfter, TableInside, Loaded, Supports;
    LoadedPage(b);
    AfterValid(b, w, h, k);
    RestoredContent(b, w, k);
    match FileFor(w, k) {
      case Some(data) =>
        g := SetSize(h, k, |data| % WORD);
        SetStep(b, w, h, k, |data| % WORD);
        r := WriteSection(b, w, head, out, k, data);
      case None =>
        g, r := h, out;
        KeepStep(b, w, h, k);
        ghost var pages := HeaderPages(b.hdr);
        WriteStep(b, w, head, pages, out, k, [], out);
    }
  }

  lemma AfterValid(b: Boot, w: Workspace, h: Header, k: nat)
    requires Loaded(b) && TableInside(b) && HeaderAfter(b, w, h, k)
    ensures ValidHeader(h) && h.version == b.hdr.version && h.page == b.hdr.page && HeaderSpace(h) == HeaderSpace(b.hdr)
    ensures forall i :: 0 <= i < SECTIONS ==> Size(h, i) == if i < k then NewSize(b, w, i) else ResetSize(b.hdr, i)
  {
    hide Contents, NewSize, ResetSize, NewRecoveryOffset;
  }

  /** A size set to zero reads as zero, and nothing else changes. */
  function Cleared(h: Header, i: nat): (g: Header)
    requires ValidHeader(h) && i < SECTIONS
    ensures ValidHeader(g) && SameShape(g, h) && g.recoveryOffset == h.recoveryOffset
    ensures forall j :: 0 <= j < SECTIONS ==> Size(g, j) == if j == i then 0 else Size(h, j)
  {
    SetSize(h, i, 0)
  }

  method ResetSizes(b: Boot, w: Workspace) returns (h: Header)
    requires Loaded(b) && TableInside(b)
    ensures HeaderAfter(b, w, h, 0)
  {
    hide Loaded, TableInside, NewSize, NewRecoveryOffset, Size, Cleared;
    LoadedPage(b);
    h := Cleared(b.hdr, KERNEL);
    h := Cleared(h, RAMDISK);
    h := Cleared(h, SECOND);
    h := Cleared(h, DTB);
    h := Cleared(h, BOOTCONFIG);
  }

  lemma KernelSize(b: Boot, w: Workspace)
    requires Loaded(b) && TableInside(b)
    ensures Contents(b, w)[KERNEL] == KernelContent(b, w)
    ensures Supports(b.hdr.version, KERNEL) ==> NewSize(b, w, KERNEL) == |KernelContent(b, w)| % WORD
    ensures !Supports(b.hdr.version, KERNEL) ==> NewSize(b, w, KERNEL) == 0
  {
    hide KernelContent, RamdiskContent, Supports, TableBytes;
  }

  /** The kernel, new or kept, followed by its device trees. */
  method KernelPart(b: Boot, w: Workspace, h: Header) returns (g: Header, data: Bytes)
    requires Loaded(b) && TableInside(b) && HeaderAfter(b, w, h, 0)
    ensures data == Contents(b, w)[KERNEL] && HeaderAfter(b, w, g, 1)
  {
    hide Loaded, TableInside, Contents, HeaderAfter, Supports, KernelOf, NewSize, RamdiskContent;
    LoadedPage(b);
    AfterValid(b, w, h, 0);
    KernelSize(b, w);
    g, data := h, [];
    if w.kernel.Some? {
      data := w.kernel.value;
      g := SetSize(g, KERNEL, |data| % WORD);
    } else if |KernelOf(b)| != 0 {
      data := KernelOf(b);
      g := SetSize(g, KERNEL, |data| % WORD);
    }
    if w.kernelDtb.Some? {
      WordAdd(|data|, |w.kernelDtb.value|);
      data := data + w.kernelDtb.value;
      g := SetSize(g, KERNEL, (Size(g, KERNEL) + |w.kernelDtb.value|) % WORD);
    }
    assert data == KernelContent(b, w);
    if g == h {
      KeepStep(b, w, h, KERNEL);
    } else {
      assert g.sizes == h.sizes[KERNEL := |data| % WORD];
      SetStep(b, w, h, KERNEL, |data| % WORD);
    }
  }

  lemma TableSection(b: Boot, w: Workspace)
    requires Loaded(b) && TableInside(b)
    ensures Contents(b, w)[SIGNATURE] == Block(b.hdr, b.mem, SIGNATURE)
    ensures Contents(b, w)[TABLE] == TableBytes(NewTable(b, w))
    ensures Contents(b, w)[RAMDISK] == RamdiskContent(b, w)
    ensures NewSize(b, w, SIGNATURE) == ResetSize(b.hdr, SIGNATURE) && NewSize(b, w, TABLE) == ResetSize(b.hdr, TABLE)
    ensures Supports(b.hdr.version, RAMDISK) ==> NewSize(b, w, RAMDISK) == |RamdiskContent(b, w)| % WORD
  {
    hide KernelContent, RamdiskContent, Supports, TableBytes;
  }

  /** The vendor ramdisks, each from its file, or the one ramdisk. */
  method RamdiskPart(b: Boot, w: Workspace, h: Header, ghost head: Bytes, out: Bytes)
    returns (g: Header, r: Bytes, table: seq<TableEntry>)
    requires Loaded(b) && TableInside(b) && HeaderAfter(b, w, h, RAMDISK)
    requires |head| == HeaderSpace(b.hdr) && WrittenTo(b, w, head, out, RAMDISK)
    ensures HeaderAfter(b, w, g, RAMDISK + 1) && WrittenTo(b, w, head, r, RAMDISK + 1) && table == NewTable(b, w)
  {
    hide Loaded, TableInside, Contents, HeaderAfter, WrittenTo, Supports, NewSize, Concat, Packed, Entries, Files,
         KernelContent;
    LoadedPage(b);
    AfterValid(b, w, h, RAMDISK);
    if HasTable(b.hdr) {
      var section, offset;
      TableSection(b, w);
      table, section, offset := Pack(Entries(b), w.ramdisks);
      g := SetSize(h, RAMDISK, offset);
      SetStep(b, w, h, RAMDISK, offset);
      r := WriteSection(b, w, head, out, RAMDISK, section);
    } else {
      g, r := Restore(b, w, h, head, out, RAMDISK);
      table := [];
    }
  }

  /** The recovery device tree overlay also records its place. */
  method RecoveryPart(b: Boot, w: Workspace, h: Header, ghost head: Bytes, out: Bytes) returns (g: Header, r: Bytes)
    requires Loaded(b) && TableInside(b) && HeaderAfter(b, w, h, RECOVERY_DTBO)
    requires |head| == HeaderSpace(b.hdr) && WrittenTo(b, w, head, out, RECOVERY_DTBO)
    ensures HeaderAfter(b, w, g, RECOVERY_DTBO + 1) && WrittenTo(b, w, head, r, RECOVERY_DTBO + 1)
  {
    hide Loaded, TableInside, Contents, HeaderAfter, WrittenTo, Supports, Start;
    LoadedPage(b);
    AfterValid(b, w, h, RECOVERY_DTBO);
    RestoredContent(b, w, RECOVERY_DTBO);
    OldRecoveryOffset(b, w, h);
    ghost var pages := HeaderPages(b.hdr);
    g, r := h, out;
    if w.recoveryDtbo.Some? {
      r := WriteSection(b, w, head, out, RECOVERY_DTBO, w.recoveryDtbo.value);
      if Supports(h.version, RECOVERY_DTBO) {
        g := g.(recoveryOffset := |out|);
      }
      g := SetSize(g, RECOVERY_DTBO, |w.recoveryDtbo.value| % WORD);
    } else {
      WriteStep(b, w, head, pages, out, RECOVERY_DTBO, [], r);
    }
    RecoveryStep(b, w, h, g);
  }

  lemma OldRecoveryOffset(b: Boot, w: Workspace, h: Header)
    requires Loaded(b) && TableInside(b) && HeaderAfter(b, w, h, RECOVERY_DTBO)
    ensures h.recoveryOffset == b.hdr.recoveryOffset
  {
  }

  lemma NothingWritten(b: Boot, w: Workspace, head: Bytes)
    requires Loaded(b) && TableInside(b)
    ensures WrittenTo(b, w, head, head, 0)
  {
    hide Contents;
    ConcatEnds(PaddedAll(Contents(b, w), b.hdr.page));
  }

  /** A section that is copied as it is, if it is not empty. */
  method CopyPart(b: Boot, w: Workspace, h: Header, ghost head: Bytes, out: Bytes, k: nat, data: Bytes)
    returns (r: Bytes)
    requires Loaded(b) && TableInside(b) && k in {SIGNATURE, TABLE} && HeaderAfter(b, w, h, k)
    requires |head| == HeaderSpace(b.hdr) && WrittenTo(b, w, head, out, k) && data == Contents(b, w)[k]
    ensures HeaderAfter(b, w, h, k + 1) && WrittenTo(b, w, head, r, k + 1)
  {
    hide Loaded, TableInside, Contents, HeaderAfter, WrittenTo, NewSize, ResetSize;
    LoadedPage(b);
    TableSection(b, w);
    KeepStep(b, w, h, k);
    if data != [] {
      r := WriteSection(b, w, head, out, k, data);
    } else {
      r := out;
      ghost var pages := HeaderPages(b.hdr);
      WriteStep(b, w, head, pages, out, k, data, r);
    }
  }

  /** All sections, in order, behind the old header. */
  method WriteSections(b: Boot, w: Workspace, head: Bytes) returns (h: Header, out: Bytes)
    requires Loaded(b) && TableInside(b) && |head| == HeaderSpace(b.hdr)
    ensures HeaderAfter(b, w, h, SECTIONS) && WrittenTo(b, w, head, out, SECTIONS)
  {
    hide Loaded, TableInside, HeaderAfter, WrittenTo, Contents, HeaderSpace, NewSize, ResetSize, NewTable, Block,
         Supports;
    NothingWritten(b, w, head);
    TableSection(b, w);
    LoadedCovers(b);
    var data, table;
    h := ResetSizes(b, w);
    h, data := KernelPart(b, w, h);
    out := WriteSection(b, w, head, head, KERNEL, data);
    h, out, table := RamdiskPart(b, w, h, head, out);
    h, out := Restore(b, w, h, head, out, SECOND);
    h, out := Restore(b, w, h, head, out, EXTRA);
    h, out := RecoveryPart(b, w, h, head, out);
    h, out := Restore(b, w, h, head, out, DTB);
    out := CopyPart(b, w, h, head, out, SIGNATURE, Block(b.hdr, b.mem, SIGNATURE));
    out := CopyPart(b, w, h, head, out, TABLE, TableBytes(table));
    h, out := Restore(b, w, h, head, out, BOOTCONFIG);
  }

  lemma LoadedCovers(b: Boot)
    requires Loaded(b)
    ensures ValidHeader(b.hdr) && Covers(b.hdr, b.mem) && HeaderSpace(b.hdr) <= |b.mem|
  {
    OffsetsGrow(b.hdr, 0, SECTIONS);
  }

  /** What is written before the header: the old one, the sections, and zeros up to the old size. */
  ghost function Written(b: Boot, w: Workspace): Bytes
    requires Loaded(b) && TableInside(b)
  {
    LoadedCovers(b);
    var body := Concat(PaddedAll(Contents(b, w), b.hdr.page));
    var used := HeaderSpace(b.hdr) + |body|;
    b.mem[..HeaderSpace(b.hdr)] + body + Zeros(if used < b.size then b.size - used else 0)
  }

  /** The new image: the new header is put over its front. */
  ghost predicate IsImage(b: Boot, w: Workspace, raw: Bytes, image: Bytes)
    requires Loaded(b) && TableInside(b)
  {
    |raw| <= |Written(b, w)| && image == raw + Written(b, w)[|raw|..]
  }

  method Repack(b: Boot, w: Workspace, encode: Header -> Bytes) returns (r: Option<(Header, Bytes)>)
    requires Loaded(b) && TableInside(b) && HeaderSize(b.hdr.version) <= b.size
    requires forall h :: |encode(h)| == HeaderSize(h.version)
    ensures r.Some? <==> TableKnown(b.hdr)
    ensures r.Some? ==> HeaderAfter(b, w, r.value.0, SECTIONS) && IsImage(b, w, encode(r.value.0), r.value.1)
  {
    hide Loaded, TableInside, HeaderSpace, HeaderSize, HeaderAfter, Contents, Size, Concat, PaddedAll;
    LoadedCovers(b);
    if HasTable(b.hdr) && b.hdr.entrySize != ENTRY_SIZE {
      return None;
    }
    var head := b.mem[..HeaderSpace(b.hdr)];
    var h, out := WriteSections(b, w, head);
    AfterValid(b, w, h, SECTIONS);
    ConcatEnds(PaddedAll(Contents(b, w), b.hdr.page));
    if |out| < b.size {
      out := out + Zeros(b.size - |out|);
    } else {
      assert out + Zeros(0) == out;
    }
    assert out == Written(b, w);
    var raw := encode(h);
    out := raw + out[|raw|..];
    return Some((h, out));
  }

  /** The bytes of a header, field by field: the magic, the common words, then the texts and what later versions add. */
  function FieldBytes(v: Version): nat {
    match v
    case V0 => 8 + 6 * 4 + 4 * 4 + 16 + 512 + 32 + 1024
    case V1 => 8 + 6 * 4 + 4 * 4 + 16 + 512 + 32 + 1024 + 4 + 8 + 4
    case V2 => 8 + 6 * 4 + 4 * 4 + 16 + 512 + 32 + 1024 + 4 + 8 + 4 + 4 + 8
    case V3 => 8 + 4 * 4 + 4 * 4 + 4 + 512 + 1024
    case V4 => 8 + 4 * 4 + 4 * 4 + 4 + 512 + 1024 + 4
    case Vendor3 => 8 + 2 * 4 + 3 * 4 + 2048 + 4 + 16 + 4 + 4 + 8
    case Vendor4 => 8 + 2 * 4 + 3 * 4 + 2048 + 4 + 16 + 4 + 4 + 8 + 4 * 4
  }

  /** The new header takes the place of exactly the old one's fields; the rest of its pages stays. */
  lemma ImageFront(b: Boot, w: Workspace, raw: Bytes, image: Bytes)
    requires Loaded(b) && TableInside(b) && IsImage(b, w, raw, image) && |raw| == HeaderSize(b.hdr.version)
    ensures var n := FieldBytes(b.hdr.version);
            n <= |image| && image[..n] == raw &&
            forall i :: n <= i < HeaderSpace(b.hdr) ==> i < |image| && i < |b.mem| && image[i] == b.mem[i]
  {
    hide Loaded, TableInside, HeaderSpace, Contents, Concat, PaddedAll;
    LoadedCovers(b);
  }
}
