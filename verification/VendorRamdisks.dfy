/** The vendor ramdisk table: several ramdisks back to back in one section. */
module VendorRamdisks {
  import opened Bytes
  import opened Slices

  const ENTRY_SIZE: nat := 108
  // ramdisk.cpio
  const RAMDISK_FILE: Bytes := [0x72, 0x61, 0x6D, 0x64, 0x69, 0x73, 0x6B, 0x2E, 0x63, 0x70, 0x69, 0x6F]
  const CPIO: Bytes := [0x2E, 0x63, 0x70, 0x69, 0x6F]                                                   // .cpio

  type Word = x: int | 0 <= x < 0x1_0000_0000

  /** A table entry; the name is a NUL padded field, the board id is not looked at. */
  datatype TableEntry = TableEntry(size: Word, offset: Word, kind: Word, name: Bytes, board: Bytes)

  predicate WellFormed(e: TableEntry) { |e.name| == 32 && |e.board| == 64 }

  function EntryBytes(e: TableEntry): Bytes { Le32(e.size) + Le32(e.offset) + Le32(e.kind) + e.name + e.board }

  function EntryOf(b: Bytes): TableEntry
    requires |b| == ENTRY_SIZE
  {
    Le32Bound(b[..4]);
    Le32Bound(b[4..8]);
    Le32Bound(b[8..12]);
    TableEntry(FromLe32(b[..4]), FromLe32(b[4..8]), FromLe32(b[8..12]), b[12..44], b[44..])
  }

  lemma Le32Bound(w: Bytes)
    requires |w| == 4
    ensures FromLe32(w) < WORD
  {
  }

  lemma EntryRoundTrip(e: TableEntry)
    requires WellFormed(e)
    ensures |EntryBytes(e)| == ENTRY_SIZE && EntryOf(EntryBytes(e)) == e
  {
    hide Le32, FromLe32;
    Le32RoundTrip(e.size);
    Le32RoundTrip(e.offset);
    Le32RoundTrip(e.kind);
    var b := EntryBytes(e);
    assert b[..4] == Le32(e.size) && b[4..8] == Le32(e.offset) && b[8..12] == Le32(e.kind);
    assert b[12..44] == e.name && b[44..] == e.board;
  }

  function EntryBlocks(es: seq<TableEntry>): (r: seq<Bytes>)
    ensures |r| == |es| && forall i :: 0 <= i < |r| ==> r[i] == EntryBytes(es[i])
  {
    seq(|es|, i requires 0 <= i < |es| => EntryBytes(es[i]))
  }

  function TableBytes(es: seq<TableEntry>): Bytes { Concat(EntryBlocks(es)) }

  /** The first `n` entries of a table section. */
  function TableOf(b: Bytes, n: nat): (es: seq<TableEntry>)
    requires |b| >= ENTRY_SIZE * n
  {
    seq(n, i requires 0 <= i < n => EntryOf(b[ENTRY_SIZE * i..ENTRY_SIZE * i + ENTRY_SIZE]))
  }

  lemma {:induction false} UniformBlocks(blocks: seq<Bytes>)
    requires forall i :: 0 <= i < |blocks| ==> |blocks[i]| == ENTRY_SIZE
    ensures |Concat(blocks)| == ENTRY_SIZE * |blocks|
    decreases |blocks|
  {
    if blocks != [] {
      UniformBlocks(blocks[..|blocks| - 1]);
    }
  }

  lemma EntriesWellFormed(b: Bytes, n: nat)
    requires |b| >= ENTRY_SIZE * n
    ensures forall i :: 0 <= i < n ==> WellFormed(TableOf(b, n)[i])
  {
  }

  /** A written table reads back as it was. */
  lemma TableRoundTrip(es: seq<TableEntry>)
    requires forall i :: 0 <= i < |es| ==> WellFormed(es[i])
    ensures |TableBytes(es)| == ENTRY_SIZE * |es| && TableOf(TableBytes(es), |es|) == es
  {
    hide EntryBytes, EntryOf, WellFormed;
    var blocks := EntryBlocks(es);
    forall i | 0 <= i < |es| ensures |blocks[i]| == ENTRY_SIZE { EntryRoundTrip(es[i]); }
    UniformBlocks(blocks);
    forall i | 0 <= i < |es| ensures TableOf(TableBytes(es), |es|)[i] == es[i] {
      EntryRoundTrip(es[i]);
      ConcatSlice(blocks, i);
      UniformBlocks(blocks[..i]);
      UniformBlocks(blocks[..i + 1]);
    }
  }

  /* ----- the ramdisks ----- */

  function UpToNul(name: Bytes): Bytes {
    if name == [] || name[0] == 0 then [] else [name[0]] + UpToNul(name[1..])
  }

  /** The file an entry is unpacked to. */
  function FileName(e: TableEntry): Bytes {
    var stem := UpToNul(e.name);
    if stem == [] then RAMDISK_FILE else stem + CPIO
  }

  type Dir = map<Bytes, Bytes>

  function Part(section: Bytes, e: TableEntry): Bytes {
    if e.offset + e.size <= |section| then section[e.offset..e.offset + e.size] else []
  }

  /** What unpacking writes, entry by entry. */
  function Unpacked(es: seq<TableEntry>, section: Bytes): Dir {
    if es == [] then map[]
    else Unpacked(es[..|es| - 1], section)[FileName(es[|es| - 1]) := Part(section, es[|es| - 1])]
  }

  /** The ramdisk lies inside its section. */
  predicate Inside(e: TableEntry, section: Bytes) { e.offset + e.size <= |section| }

  lemma UnpackedNext(es: seq<TableEntry>, section: Bytes, i: nat)
    requires i < |es|
    ensures Unpacked(es[..i + 1], section) == Unpacked(es[..i], section)[FileName(es[i]) := Part(section, es[i])]
  {
    assert es[..i + 1][..i] == es[..i];
  }

  /** Writes every ramdisk to its file. */
  method UnpackRamdisks(es: seq<TableEntry>, section: Bytes) returns (dir: Dir)
    requires forall i :: 0 <= i < |es| ==> Inside(es[i], section)
    ensures dir == Unpacked(es, section)
  {
    hide FileName;
    dir := map[];
    for i := 0 to |es|
      invariant dir == Unpacked(es[..i], section)
    {
      assert Inside(es[i], section);
      UnpackedNext(es, section, i);
      dir := dir[FileName(es[i]) := section[es[i].offset..es[i].offset + es[i].size]];
    }
    assert es[..|es|] == es;
  }

  function FileOf(dir: Dir, e: TableEntry): Bytes { if FileName(e) in dir then dir[FileName(e)] else [] }

  function Files(dir: Dir, es: seq<TableEntry>): (r: seq<Bytes>)
    ensures |r| == |es| && forall i :: 0 <= i < |r| ==> r[i] == FileOf(dir, es[i])
  {
    seq(|es|, i requires 0 <= i < |es| => FileOf(dir, es[i]))
  }

  /** `es` lists the blocks of `section` one after the other, from its beginning to its end. */
  ghost predicate Tiles(es: seq<TableEntry>, blocks: seq<Bytes>, section: Bytes) {
    |es| == |blocks| && section == Concat(blocks) &&
    forall i :: 0 <= i < |es| ==> es[i].offset == |Concat(blocks[..i])| && es[i].size == |blocks[i]|
  }

  ghost predicate SameButPlace(a: seq<TableEntry>, b: seq<TableEntry>) {
    |a| == |b| && forall i :: 0 <= i < |a| ==> a[i] == b[i].(offset := a[i].offset, size := a[i].size)
  }

  /** A number in a 32-bit field. */
  function Cut(n: nat): Word { n % WORD }

  lemma CutFits(n: nat)
    ensures Cut(n) == n <==> n < WORD
  {
  }

  lemma CutAdd(a: nat, b: nat)
    ensures Cut(Cut(a) + Cut(b)) == Cut(a + b)
  {
    WordAdd(a, b);
    WordAdd(b, a % WORD);
  }

  function Placed(e: TableEntry, offset: nat, size: nat): TableEntry { e.(offset := Cut(offset), size := Cut(size)) }

  /** The table for blocks put back to back. */
  function Packed(es: seq<TableEntry>, blocks: seq<Bytes>): (r: seq<TableEntry>)
    requires |es| == |blocks|
    ensures |r| == |es|
    ensures forall i :: 0 <= i < |r| ==> r[i] == Placed(es[i], |Concat(blocks[..i])|, |blocks[i]|)
  {
    seq(|es|, i requires 0 <= i < |es| => Placed(es[i], |Concat(blocks[..i])|, |blocks[i]|))
  }

  /** It tells the ramdisks apart as long as they fit 32 bits together. */
  lemma PackedTiles(es: seq<TableEntry>, blocks: seq<Bytes>)
    requires |es| == |blocks|
    ensures SameButPlace(Packed(es, blocks), es)
    ensures |Concat(blocks)| < WORD ==> Tiles(Packed(es, blocks), blocks, Concat(blocks))
  {
    hide Concat, Cut;
    var r := Packed(es, blocks);
    forall i | 0 <= i < |es|
      ensures |Concat(blocks)| < WORD ==> r[i].offset == |Concat(blocks[..i])| && r[i].size == |blocks[i]|
    {
      ConcatSlice(blocks, i);
      CutFits(|Concat(blocks[..i])|);
      CutFits(|blocks[i]|);
    }
  }

  /** Writes the ramdisks back to back and rewrites the table for them; the running offset has 32 bits too. */
  method Pack(es: seq<TableEntry>, dir: Dir) returns (table: seq<TableEntry>, section: Bytes, offset: Word)
    ensures section == Concat(Files(dir, es)) && table == Packed(es, Files(dir, es)) && offset == Cut(|section|)
  {
    hide FileOf, Concat, Cut;
    ghost var blocks := Files(dir, es);
    ghost var goal := Packed(es, blocks);
    table, section, offset := es, [], 0;
    ConcatEnds(blocks);
    CutFits(0);
    var i := 0;
    while i < |es|
      invariant i <= |es| && section == Concat(blocks[..i]) && offset == Cut(|section|)
      invariant |table| == |es| && table[i..] == es[i..] && table[..i] == goal[..i]
    {
      ConcatSnoc(blocks, i);
      var m := FileOf(dir, es[i]);
      assert table[i] == table[i..][0] == es[i];
      CutFits(offset);
      CutAdd(|section|, |m|);
      table := table[i := table[i].(offset := offset, size := Cut(|m|))];
      assert table[..i + 1] == goal[..i] + [goal[i]];
      section := section + m;
      offset := Cut(offset + Cut(|m|));
      i := i + 1;
    }
  }

  /** No gap and no overlap: each entry names its block, and the next one starts where it ends. */
  lemma TiledParts(es: seq<TableEntry>, blocks: seq<Bytes>, section: Bytes, i: nat)
    requires Tiles(es, blocks, section) && i < |es|
    ensures Part(section, es[i]) == blocks[i]
    ensures (if i == 0 then 0 else es[i - 1].offset + es[i - 1].size) == es[i].offset
    ensures i == |es| - 1 ==> es[i].offset + es[i].size == |section|
  {
    hide Concat;
    ConcatSlice(blocks, i);
    ConcatEnds(blocks);
    if i > 0 {
      ConcatSnoc(blocks, i - 1);
    }
  }

  /** Unpacking and packing keeps the ramdisk of every entry, exactly when no file is shared by different ramdisks. */
  lemma PackKeepsRamdisks(es: seq<TableEntry>, section: Bytes, table: seq<TableEntry>, packed: Bytes)
    requires Tiles(table, Files(Unpacked(es, section), es), packed)
    ensures (forall i :: 0 <= i < |es| ==> Part(packed, table[i]) == Part(section, es[i])) <==>
            (forall i, j :: 0 <= i < j < |es| && FileName(es[i]) == FileName(es[j]) ==>
               Part(section, es[i]) == Part(section, es[j]))
  {
    hide FileName, Part, Unpacked, FileOf, Concat;
    var dir := Unpacked(es, section);
    forall i | 0 <= i < |es| ensures Part(packed, table[i]) == FileOf(dir, es[i]) {
      TiledParts(table, Files(dir, es), packed, i);
    }
    if forall i :: 0 <= i < |es| ==> Part(packed, table[i]) == Part(section, es[i]) {
      forall i, j | 0 <= i < j < |es| && FileName(es[i]) == FileName(es[j])
        ensures Part(section, es[i]) == Part(section, es[j])
      {
        assert FileOf(dir, es[i]) == FileOf(dir, es[j]) by { SameFile(dir, es[i], es[j]); }
        assert Part(packed, table[i]) == Part(packed, table[j]);
      }
    }
    if forall i, j :: 0 <= i < j < |es| && FileName(es[i]) == FileName(es[j]) ==>
         Part(section, es[i]) == Part(section, es[j]) {
      forall i | 0 <= i < |es| ensures Part(packed, table[i]) == Part(section, es[i]) {
        var l := LastWithFile(es, section, i);
      }
    }
  }

  lemma SameFile(dir: Dir, a: TableEntry, b: TableEntry)
    requires FileName(a) == FileName(b)
    ensures FileOf(dir, a) == FileOf(dir, b)
  {
  }

  /** A file holds the ramdisk of the last entry with its name. */
  lemma {:induction false} LastWithFile(es: seq<TableEntry>, section: Bytes, i: nat) returns (l: nat)
    requires i < |es|
    ensures i <= l < |es| && FileName(es[l]) == FileName(es[i])
    ensures FileOf(Unpacked(es, section), es[i]) == Part(section, es[l])
    decreases |es|
  {
    hide FileName, Part;
    var n := |es| - 1;
    if FileName(es[n]) == FileName(es[i]) {
      l := n;
    } else {
      l := LastWithFile(es[..n], section, i);
    }
  }

  /* ----- bytes and names ----- */

  /** A 32-bit word at a place, lowest byte first. */
  function WordAt(b: Bytes, i: nat): nat
    requires i + 4 <= |b|
  {
    b[i] as nat + 256 * (b[i + 1] as nat + 256 * (b[i + 2] as nat + 256 * b[i + 3] as nat))
  }

  /** An entry takes 108 bytes: three words, 32 bytes of name and 64 of board id. */
  lemma EntryAt(b: Bytes, n: nat, i: nat)
    requires |b| >= 108 * n && i < n
    ensures var e := TableOf(b, n)[i];
            e.size == WordAt(b, 108 * i) && e.offset == WordAt(b, 108 * i + 4) && e.kind == WordAt(b, 108 * i + 8) &&
            e.name == b[108 * i + 12..108 * i + 44] && e.board == b[108 * i + 44..108 * i + 108]
  {
    var at := 108 * i;
    var s := b[at..at + 108];
    WordSlice(b, at, 0);
    WordSlice(b, at, 4);
    WordSlice(b, at, 8);
    assert s[12..44] == b[at + 12..at + 44] && s[44..] == b[at + 44..at + 108];
  }

  lemma WordSlice(b: Bytes, at: nat, k: nat)
    requires at + 108 <= |b| && k + 4 <= 108
    ensures FromLe32(b[at..at + 108][k..k + 4]) == WordAt(b, at + k)
  {
    var s := b[at..at + 108];
    assert s[k] == b[at + k] && s[k + 1] == b[at + k + 1] && s[k + 2] == b[at + k + 2] && s[k + 3] == b[at + k + 3];
  }

  ghost predicate Spells(p: Bytes, s: string) { |p| == |s| && forall i :: 0 <= i < |p| ==> p[i] as int == s[i] as int }

  /** The file is named after the entry, and `ramdisk.cpio` if that has no name. */
  lemma NameOfFile(e: TableEntry, stem: Bytes, pad: Bytes)
    requires e.name == stem + pad && 0 !in stem && (pad == [] || pad[0] == 0)
    ensures stem == [] ==> Spells(FileName(e), "ramdisk.cpio")
    ensures stem != [] ==> |FileName(e)| == |stem| + 5 && FileName(e)[..|stem|] == stem &&
                           Spells(FileName(e)[|stem|..], ".cpio")
  {
    StemOfName(stem, pad);
    assert stem != [] ==> FileName(e)[|stem|..] == CPIO;
  }

  lemma {:induction false} StemOfName(stem: Bytes, pad: Bytes)
    requires 0 !in stem && (pad == [] || pad[0] == 0)
    ensures UpToNul(stem + pad) == stem
    decreases |stem|
  {
    if stem == [] {
      assert stem + pad == pad;
    } else {
      assert (stem + pad)[1..] == stem[1..] + pad;
      StemOfName(stem[1..], pad);
      assert stem == [stem[0]] + stem[1..];
    }
  }
}
