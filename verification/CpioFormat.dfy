/**
  The cpio archive in its "newc" layout (the Linux kernel document "initramfs
  Buffer Format"): printing, parsing, and that parsing undoes printing.
*/
module CpioFormat {
  import opened Options
  import opened Bytes
  import opened Slices

  const MAGIC: Bytes := [0x30, 0x37, 0x30, 0x37, 0x30, 0x31]
  const TRAILER: Bytes := [0x54, 0x52, 0x41, 0x49, 0x4C, 0x45, 0x52, 0x21, 0x21, 0x21]
  const DOT: Bytes := [0x2E]
  const DOT_DOT: Bytes := [0x2E, 0x2E]
  const HEADER_SIZE: nat := 110
  const FIRST_INODE: nat := 300000
  const U32: nat := 0x1_0000_0000

  type u32 = x: int | 0 <= x < 0x1_0000_0000
  datatype Entry = Entry(mode: u32, uid: u32, gid: u32, rdevmajor: u32, rdevminor: u32, data: Bytes)
  type Entries = map<Bytes, Entry>

  /* ----- eight hexadecimal digits ----- */

  function Digit(b: byte): Option<nat> {
    if 0x30 <= b <= 0x39 then Some(b as int - 0x30)
    else if 0x61 <= b <= 0x66 then Some(b as int - 0x61 + 10)
    else if 0x41 <= b <= 0x46 then Some(b as int - 0x41 + 10)
    else None
  }

  function DigitByte(d: nat): byte
    requires d < 16
  {
    (if d < 10 then 0x30 + d else 0x61 + d - 10) as byte
  }

  function Power16(n: nat): nat { if n == 0 then 1 else 16 * Power16(n - 1) }

  /** The value of a string of digits, most significant first. */
  function HexValue(x: Bytes): Option<nat> {
    if x == [] then Some(0)
    else
      var high := HexValue(x[..|x| - 1]);
      var low := Digit(x[|x| - 1]);
      if high.Some? && low.Some? then Some(high.value * 16 + low.value) else None
  }

  /** `n` digits of `v`, lower case. */
  function Hex(v: nat, n: nat): (h: Bytes)
    ensures |h| == n
  {
    if n == 0 then [] else Hex(v / 16, n - 1) + [DigitByte(v % 16)]
  }

  lemma {:induction false} HexRoundTrip(v: nat, n: nat)
    requires v < Power16(n)
    ensures HexValue(Hex(v, n)) == Some(v)
    decreases n
  {
    if n > 0 {
      HexRoundTrip(v / 16, n - 1);
      assert Hex(v, n)[..n - 1] == Hex(v / 16, n - 1);
    }
  }

  lemma {:induction false} HexBound(x: Bytes)
    ensures HexValue(x).Some? ==> HexValue(x).value < Power16(|x|)
    decreases |x|
  {
    if x != [] {
      HexBound(x[..|x| - 1]);
    }
  }

  lemma Power16Of8()
    ensures Power16(8) == U32
  {
    assert Power16(4) == 0x1_0000;
    assert Power16(6) == 256 * Power16(4);
  }

  /** Parses an eight digit field; the accumulator never leaves 32 bits. */
  method X8u(x: Bytes) returns (r: Option<nat>)
    requires |x| == 8
    ensures r == HexValue(x)
    ensures r.Some? ==> r.value < U32
  {
    var ret := 0;
    var i := 0;
    while i < 8
      invariant i <= 8 && HexValue(x[..i]) == Some(ret) && ret < Power16(i)
    {
      var d := Digit(x[i]);
      assert x[..i + 1][..i] == x[..i];
      if d.None? {
        NoHexPrefix(x, i + 1);
        return None;
      }
      PowerBelow(i + 1);
      assert ret * 16 + d.value < U32;
      ret := ret * 16 + d.value;
      i := i + 1;
    }
    Power16Of8();
    assert x[..8] == x;
    return Some(ret);
  }

  lemma {:induction false} PowerBelow(n: nat)
    requires n <= 8
    ensures Power16(n) <= U32
    decreases 8 - n
  {
    if n == 8 {
      Power16Of8();
    } else {
      PowerBelow(n + 1);
    }
  }

  lemma {:induction false} NoHexPrefix(x: Bytes, n: nat)
    requires n <= |x| && HexValue(x[..n]).None?
    ensures HexValue(x).None?
    decreases |x|
  {
    if n == |x| {
      assert x[..n] == x;
    } else {
      var y := x[..|x| - 1];
      assert y[..n] == x[..n];
      NoHexPrefix(y, n);
    }
  }

  /* ----- printing ----- */

  function HexFields(fields: seq<nat>): (h: Bytes)
    ensures |h| == 8 * |fields|
  {
    if fields == [] then [] else HexFields(fields[..|fields| - 1]) + Hex(fields[|fields| - 1], 8)
  }

  function Header(fields: seq<nat>): (h: Bytes)
    requires |fields| == 13
    ensures |h| == HEADER_SIZE
  {
    MAGIC + HexFields(fields)
  }

  function EntryFields(inode: nat, name: Bytes, e: Entry): (f: seq<nat>)
    ensures |f| == 13 && f[1] == e.mode && f[2] == e.uid && f[3] == e.gid && f[6] == |e.data|
    ensures f[9] == e.rdevmajor && f[10] == e.rdevminor && f[11] == |name| + 1
  {
    [inode, e.mode, e.uid, e.gid, 1, 0, |e.data|, 0, 0, e.rdevmajor, e.rdevminor, |name| + 1, 0]
  }

  function EntryHeader(inode: nat, name: Bytes, e: Entry): (b: Bytes)
    ensures |b| == HEADER_SIZE
  {
    Header(EntryFields(inode, name, e))
  }

  /** A member with any header: name with its NUL and padding, data and padding. */
  function MemberBytes(header: Bytes, name: Bytes, data: Bytes): (b: Bytes)
    requires |header| == HEADER_SIZE
    ensures |b| == 4 * (Words(HEADER_SIZE + |name| + 1) + Words(|data|))
  {
    header + (name + [0]) + Zeros(Pad4(HEADER_SIZE + |name| + 1)) + data + Zeros(Pad4(|data|))
  }

  function EntryBytes(inode: nat, name: Bytes, e: Entry): Bytes {
    MemberBytes(EntryHeader(inode, name, e), name, e.data)
  }

  function TrailerHeader(inode: nat): (b: Bytes)
    ensures |b| == HEADER_SIZE
  {
    Header([inode, 0x1ED, 0, 0, 1, 0, 0, 0, 0, 0, 0, 11, 0])
  }

  function WithTrailer(members: Bytes, header: Bytes): Bytes
    requires |header| == HEADER_SIZE
  {
    members + MemberBytes(header, TRAILER, [])
  }

  function EntryHeaders(names: seq<Bytes>, a: Entries): (h: seq<Bytes>)
    requires forall n :: n in names ==> n in a
    ensures |h| == |names| && forall i :: 0 <= i < |h| ==> |h[i]| == HEADER_SIZE
  {
    seq(|names|, i requires 0 <= i < |names| => EntryHeader(FIRST_INODE + i, names[i], a[names[i]]))
  }

  /** The printed members under the given headers. */
  function Members(headers: seq<Bytes>, names: seq<Bytes>, a: Entries): (m: seq<Bytes>)
    requires |headers| == |names| && forall n :: n in names ==> n in a
    requires forall i :: 0 <= i < |headers| ==> |headers[i]| == HEADER_SIZE
    ensures |m| == |names| && forall i :: 0 <= i < |m| ==> m[i] == MemberBytes(headers[i], names[i], a[names[i]].data)
    ensures forall b :: b in m ==> |b| % 4 == 0
  {
    seq(|names|, i requires 0 <= i < |names| => MemberBytes(headers[i], names[i], a[names[i]].data))
  }

  function Names(a: Entries): (r: seq<Bytes>)
    ensures |r| == |a| && forall n :: n in r <==> n in a
  {
    assert |a.Keys| == |a|;
    Sorted(a.Keys)
  }

  /** An archive with its members in the given order. */
  function ArchiveOf(names: seq<Bytes>, a: Entries): Bytes
    requires forall n :: n in names ==> n in a
  {
    WithTrailer(Concat(Members(EntryHeaders(names, a), names, a)), TrailerHeader(FIRST_INODE + |names|))
  }

  /** The archive of a map: members in key order. */
  function Archive(a: Entries): Bytes { ArchiveOf(Names(a), a) }

  method Dump(a: Entries) returns (file: Bytes)
    ensures file == Archive(a)
  {
    file := DumpInOrder(Names(a), a);
  }

  method DumpInOrder(names: seq<Bytes>, a: Entries) returns (file: Bytes)
    requires forall n :: n in names ==> n in a
    ensures file == ArchiveOf(names, a)
  {
    file := DumpMembers(EntryHeaders(names, a), names, a);
    file := WriteTrailer(file, TrailerHeader(FIRST_INODE + |names|));
  }

  method WriteTrailer(before: Bytes, header: Bytes) returns (file: Bytes)
    requires |before| % 4 == 0 && |header| == HEADER_SIZE
    ensures file == WithTrailer(before, header)
  {
    var pos;
    file, pos := WriteMember(before, |before|, header, TRAILER, []);
  }

  method DumpMembers(ghost headers: seq<Bytes>, names: seq<Bytes>, a: Entries) returns (file: Bytes)
    requires forall n :: n in names ==> n in a
    requires headers == EntryHeaders(names, a)
    ensures file == Concat(Members(headers, names, a)) && |file| % 4 == 0
  {
    hide *;
    file := [];
    ghost var members := Members(headers, names, a);
    ConcatEnds(members);
    var pos, inode := 0, FIRST_INODE;
    var i := 0;
    while i < |names|
      invariant i <= |names| && inode == FIRST_INODE + i
      invariant file == Concat(members[..i]) && pos == |file|
    {
      ConcatWords(members[..i]);
      ConcatSnoc(members, i);
      var name, entry := names[i], a[names[i]];
      HeaderAt(names, a, i);
      file, pos := WriteMember(file, pos, EntryHeader(inode, name, entry), name, entry.data);
      inode, i := inode + 1, i + 1;
    }
    ConcatWords(members);
  }

  lemma HeaderAt(names: seq<Bytes>, a: Entries, i: nat)
    requires (forall n :: n in names ==> n in a) && i < |names|
    ensures EntryHeaders(names, a)[i] == EntryHeader(FIRST_INODE + i, names[i], a[names[i]])
  {
    hide EntryHeader;
  }

  method WriteMember(before: Bytes, at: nat, header: Bytes, name: Bytes, data: Bytes) returns (file: Bytes, pos: nat)
    requires at == |before| && at % 4 == 0 && |header| == HEADER_SIZE
    ensures file == before + MemberBytes(header, name, data) && pos == |file|
  {
    ghost var words := at / 4;
    file, pos := before + header, at + |header|;
    file, pos := file + name, pos + |name|;
    file, pos := file + [0], pos + 1;
    AlignFrom(words, HEADER_SIZE + |name| + 1);
    file, pos := file + Zeros(Align4(pos) - pos), Align4(pos);
    AlignFrom(words + Words(HEADER_SIZE + |name| + 1), |data|);
    file, pos := file + data, pos + |data|;
    file, pos := file + Zeros(Align4(pos) - pos), Align4(pos);
  }
}
