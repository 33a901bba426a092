/** Reading cpio archives back. */
module CpioParser {
  import opened Options
  import opened Bytes
  import opened Slices
  import opened CpioFormat

  /** `Panic` is a slice out of bounds; the others are reported errors. */
  datatype LoadError = Panic | BadMagic | BadHeader | BadName
  datatype LoadResult = Ok(entries: Entries) | Err(error: LoadError)
  datatype Step = Next(pos: nat, acc: Entries) | Done(acc: Entries) | Fail(error: LoadError)

  /** The `i`th numeric field of a header. */
  function Field(h: Bytes, i: nat): (v: Option<nat>)
    requires |h| == HEADER_SIZE && i < 13
    ensures v.Some? ==> v.value < U32
  {
    HexBound(h[6 + 8 * i..14 + 8 * i]);
    Power16Of8();
    HexValue(h[6 + 8 * i..14 + 8 * i])
  }

  /** A NUL terminated string with no other NUL, in UTF-8. */
  predicate CString(raw: Bytes) {
    raw != [] && raw[|raw| - 1] == 0 && PlainText(raw[..|raw| - 1])
  }

  predicate PlainText(name: Bytes) { 0 !in name && ValidUtf8(name) }

  /** The first occurrence of the magic at or after `from`. */
  function FindMagic(data: Bytes, from: nat): (r: Option<nat>)
    ensures r.Some? ==> from <= r.value
    decreases |data| - from
  {
    if from + 6 > |data| then None
    else if data[from..from + 6] == MAGIC then Some(from)
    else FindMagic(data, from + 1)
  }

  function AfterTrailer(data: Bytes, pos: nat, acc: Entries): Step {
    if pos > |data| then Fail(Panic)
    else
      var next := FindMagic(data, pos);
      if next.Some? then Next(next.value, acc) else Done(acc)
  }

  /** The numbers the parser reads from a header, each absent if not all its digits are hexadecimal. */
  datatype Head = Head(
    mode: Option<u32>, uid: Option<u32>, gid: Option<u32>, size: Option<u32>,
    major: Option<u32>, minor: Option<u32>, nameSize: Option<u32>)

  function HeadOf(h: Bytes): Head
    requires |h| == HEADER_SIZE
  {
    Head(Field(h, 1), Field(h, 2), Field(h, 3), Field(h, 6), Field(h, 9), Field(h, 10), Field(h, 11))
  }

  function ParseBody(data: Bytes, h: Head, name: Bytes, pos: nat, acc: Entries): Step {
    if h.size.None? || h.mode.None? || h.uid.None? || h.gid.None? || h.major.None? || h.minor.None? then Fail(BadHeader)
    else
      var end := pos + h.size.value;
      if end > |data| then Fail(Panic)
      else
        var e := Entry(h.mode.value, h.uid.value, h.gid.value, h.major.value, h.minor.value, data[pos..end]);
        Next(Align4(end), acc[name := e])
  }

  function ParseNamed(data: Bytes, h: Head, name: Bytes, pos: nat, acc: Entries): Step {
    if name == DOT || name == DOT_DOT then Next(pos, acc)
    else if name == TRAILER then AfterTrailer(data, pos, acc)
    else ParseBody(data, h, name, pos, acc)
  }

  function ParseName(data: Bytes, h: Head, pos: nat, acc: Entries): Step {
    if h.nameSize.None? then Fail(BadHeader)
    else
      var end := pos + h.nameSize.value;
      if end > |data| then Fail(Panic)
      else
        var raw := data[pos..end];
        if !CString(raw) then Fail(BadName)
        else ParseNamed(data, h, raw[..|raw| - 1], Align4(end), acc)
  }

  /** One round of the loop. */
  function ParseOne(data: Bytes, pos: nat, acc: Entries): (s: Step)
    ensures s.Next? ==> s.pos >= pos + HEADER_SIZE
  {
    if pos + HEADER_SIZE > |data| then Fail(Panic)
    else
      var h := data[pos..pos + HEADER_SIZE];
      if h[..6] != MAGIC then Fail(BadMagic)
      else ParseName(data, HeadOf(h), pos + HEADER_SIZE, acc)
  }

  /** Every round moves forward. */
  ghost predicate Advances(round: (nat, Entries) -> Step) {
    forall p, m :: round(p, m).Next? ==> round(p, m).pos > p
  }

  /** The loop over a file of `size` bytes, for any round that advances. */
  ghost function Loop(round: (nat, Entries) -> Step, size: nat, pos: nat, acc: Entries): LoadResult
    requires Advances(round)
    decreases if pos < size then size - pos else 0
  {
    if pos >= size then Ok(acc)
    else
      match round(pos, acc)
      case Next(next, acc') => Loop(round, size, next, acc')
      case Done(acc') => Ok(acc')
      case Fail(e) => Err(e)
  }

  ghost function Rounds(data: Bytes): (f: (nat, Entries) -> Step)
    ensures Advances(f)
  {
    (p: nat, m: Entries) => ParseOne(data, p, m)
  }

  /** What loading from `pos` on adds to what is already loaded. */
  ghost function LoadFrom(data: Bytes, pos: nat, acc: Entries): LoadResult {
    Loop(Rounds(data), |data|, pos, acc)
  }

  method LoadFromData(data: Bytes) returns (r: LoadResult)
    ensures r == LoadFrom(data, 0, map[])
  {
    var entries: Entries := map[];
    var pos := 0;
    while pos < |data|
      invariant LoadFrom(data, 0, map[]) == LoadFrom(data, pos, entries)
      decreases if pos < |data| then |data| - pos else 0
    {
      var step := LoadOne(data, pos, entries);
      match step {
        case Next(next, acc) => pos, entries := next, acc;
        case Done(acc) => return Ok(acc);
        case Fail(e) => return Err(e);
      }
    }
    return Ok(entries);
  }

  method LoadOne(data: Bytes, pos: nat, entries: Entries) returns (s: Step)
    requires pos < |data|
    ensures s == ParseOne(data, pos, entries)
  {
    if pos + HEADER_SIZE > |data| {
      return Fail(Panic);
    }
    var h := data[pos..pos + HEADER_SIZE];
    if h[..6] != MAGIC {
      return Fail(BadMagic);
    }
    var head := ReadHead(h);
    s := LoadName(data, head, pos + HEADER_SIZE, entries);
  }

  method ReadHead(h: Bytes) returns (head: Head)
    requires |h| == HEADER_SIZE
    ensures head == HeadOf(h)
  {
    var mode := X8u(h[14..22]);
    var uid := X8u(h[22..30]);
    var gid := X8u(h[30..38]);
    var size := X8u(h[54..62]);
    var major := X8u(h[78..86]);
    var minor := X8u(h[86..94]);
    var nameSize := X8u(h[94..102]);
    head := Head(mode, uid, gid, size, major, minor, nameSize);
  }

  method LoadName(data: Bytes, h: Head, at: nat, entries: Entries) returns (s: Step)
    ensures s == ParseName(data, h, at, entries)
  {
    if h.nameSize.None? {
      return Fail(BadHeader);
    }
    var pos := at + h.nameSize.value;
    if pos > |data| {
      return Fail(Panic);
    }
    var raw := data[at..pos];
    if !CString(raw) {
      return Fail(BadName);
    }
    var name := raw[..|raw| - 1];
    pos := Align4(pos);
    if name == DOT || name == DOT_DOT {
      return Next(pos, entries);
    }
    if name == TRAILER {
      s := SkipTrailer(data, pos, entries);
      return;
    }
    s := LoadBody(data, h, name, pos, entries);
  }

  method SkipTrailer(data: Bytes, pos: nat, entries: Entries) returns (s: Step)
    ensures s == AfterTrailer(data, pos, entries)
  {
    if pos > |data| {
      return Fail(Panic);
    }
    var magic := FindMagic(data, pos);
    return if magic.Some? then Next(magic.value, entries) else Done(entries);
  }

  method LoadBody(data: Bytes, h: Head, name: Bytes, at: nat, acc: Entries) returns (s: Step)
    ensures s == ParseBody(data, h, name, at, acc)
  {
    if h.size.None? || h.mode.None? || h.uid.None? || h.gid.None? || h.major.None? || h.minor.None? {
      return Fail(BadHeader);
    }
    var pos := at + h.size.value;
    if pos > |data| {
      return Fail(Panic);
    }
    var e := Entry(h.mode.value, h.uid.value, h.gid.value, h.major.value, h.minor.value, data[at..pos]);
    return Next(Align4(pos), acc[name := e]);
  }

  /* ----- parsing undoes printing ----- */

  /** A name without a NUL and without a meaning of its own to the parser. */
  predicate ValidName(name: Bytes) {
    PlainText(name) && name != DOT && name != DOT_DOT && name != TRAILER
  }

  /** Every size, and the inode counter, fits its eight digits. */
  ghost predicate Fits(a: Entries) {
    FIRST_INODE + |a| < U32 && forall n :: n in a ==> |n| + 1 < U32 && |a[n].data| < U32
  }

  ghost predicate ValidNames(a: Entries) {
    forall n :: n in a ==> ValidName(n)
  }

  lemma {:induction false} HexFieldsAt(fields: seq<nat>, i: nat)
    requires i < |fields|
    ensures HexFields(fields)[8 * i..8 * i + 8] == Hex(fields[i], 8)
    decreases |fields|
  {
    var n := |fields| - 1;
    if i == n {
      assert HexFields(fields)[8 * n..8 * n + 8] == Hex(fields[n], 8);
    } else {
      HexFieldsAt(fields[..n], i);
      assert HexFields(fields)[8 * i..8 * i + 8] == HexFields(fields[..n])[8 * i..8 * i + 8];
    }
  }

  lemma FieldOfHeader(fields: seq<nat>, i: nat)
    requires |fields| == 13 && i < 13 && fields[i] < U32
    ensures Header(fields)[..6] == MAGIC
    ensures Field(Header(fields), i) == Some(fields[i])
  {
    HexFieldsAt(fields, i);
    assert Header(fields)[6 + 8 * i..14 + 8 * i] == HexFields(fields)[8 * i..8 * i + 8];
    Power16Of8();
    HexRoundTrip(fields[i], 8);
  }

  ghost function Announced(name: Bytes, e: Entry): Head
    requires |name| + 1 < U32 && |e.data| < U32
  {
    Head(Some(e.mode), Some(e.uid), Some(e.gid), Some(|e.data|), Some(e.rdevmajor), Some(e.rdevminor), Some(|name| + 1))
  }

  /** A header the parser accepts and reads as `head`. */
  ghost predicate ReadsAs(h: Bytes, head: Head) {
    |h| == HEADER_SIZE && h[..6] == MAGIC && HeadOf(h) == head
  }

  lemma EntryHeaderReads(inode: nat, name: Bytes, e: Entry)
    requires |name| + 1 < U32 && |e.data| < U32
    ensures ReadsAs(EntryHeader(inode, name, e), Announced(name, e))
  {
    var fields := EntryFields(inode, name, e);
    FieldOfHeader(fields, 1);
    FieldOfHeader(fields, 2);
    FieldOfHeader(fields, 3);
    FieldOfHeader(fields, 6);
    FieldOfHeader(fields, 9);
    FieldOfHeader(fields, 10);
    FieldOfHeader(fields, 11);
  }

  /** `s` has a member laid out at `pos`, the next one starting at `next`. */
  ghost predicate LaidOut(s: Bytes, pos: nat, header: Bytes, name: Bytes, data: Bytes, next: nat) {
    var text := pos + HEADER_SIZE;
    var body := Align4(text + |name| + 1);
    text + |name| + 1 <= |s| && body + |data| <= |s| && next == Align4(body + |data|) &&
    s[pos..text] == header && s[text..text + |name| + 1] == name + [0] && s[body..body + |data|] == data
  }

  lemma MemberIsLaidOut(s: Bytes, pos: nat, header: Bytes, name: Bytes, data: Bytes)
    requires |header| == HEADER_SIZE && pos % 4 == 0
    requires var end := pos + |MemberBytes(header, name, data)|;
             end <= |s| && s[pos..end] == MemberBytes(header, name, data)
    ensures LaidOut(s, pos, header, name, data, pos + |MemberBytes(header, name, data)|)
  {
    var words := pos / 4;
    AlignFrom(words, HEADER_SIZE + |name| + 1);
    AlignFrom(words + Words(HEADER_SIZE + |name| + 1), |data|);
    PartsAt(s, pos, header, name + [0], Zeros(Pad4(HEADER_SIZE + |name| + 1)), data, Zeros(Pad4(|data|)));
  }

  lemma ParseHead(s: Bytes, pos: nat, h: Bytes, head: Head, acc: Entries)
    requires ReadsAs(h, head) && pos + HEADER_SIZE <= |s| && s[pos..pos + HEADER_SIZE] == h
    ensures ParseOne(s, pos, acc) == ParseName(s, head, pos + HEADER_SIZE, acc)
  {
  }

  /** A plain name followed by a NUL is read as that name. */
  lemma NameIsCString(raw: Bytes, name: Bytes)
    requires raw == name + [0] && PlainText(name)
    ensures CString(raw) && raw[..|raw| - 1] == name
  {
    assert raw[..|raw| - 1] == name;
  }

  lemma ParsePlainName(s: Bytes, pos: nat, head: Head, name: Bytes, acc: Entries)
    requires head.nameSize == Some(|name| + 1) && PlainText(name)
    requires pos + |name| + 1 <= |s| && s[pos..pos + |name| + 1] == name + [0]
    ensures ParseName(s, head, pos, acc) == ParseNamed(s, head, name, Align4(pos + |name| + 1), acc)
  {
    NameIsCString(s[pos..pos + |name| + 1], name);
  }

  /** What a member parses to, wherever it is. */
  lemma ParseMember(s: Bytes, pos: nat, header: Bytes, name: Bytes, e: Entry, next: nat, acc: Entries)
    requires ValidName(name) && |name| + 1 < U32 && |e.data| < U32
    requires ReadsAs(header, Announced(name, e)) && LaidOut(s, pos, header, name, e.data, next)
    ensures ParseOne(s, pos, acc) == Next(next, acc[name := e])
  {
    ParseHead(s, pos, header, Announced(name, e), acc);
    ParsePlainName(s, pos + HEADER_SIZE, Announced(name, e), name, acc);
  }
}
