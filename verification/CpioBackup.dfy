/**
  Backing up the difference between two archives inside one of them, with a merge
  of the two ordered entry lists, and restoring it.
*/
module CpioBackup {
  import opened Options
  import opened Bytes
  import opened CpioFormat

  const DIR: Bytes := [0x2E, 0x62, 0x61, 0x63, 0x6B, 0x75, 0x70]                            // .backup
  const PREFIX: Bytes := [0x2E, 0x62, 0x61, 0x63, 0x6B, 0x75, 0x70, 0x2F]                   // .backup/
  const RMLIST_NAME: Bytes := [0x2E, 0x72, 0x6D, 0x6C, 0x69, 0x73, 0x74]                    // .rmlist
  const MAGISK_NAME: Bytes := [0x2E, 0x6D, 0x61, 0x67, 0x69, 0x73, 0x6B]                    // .magisk
  const XZ: Bytes := [0x2E, 0x78, 0x7A]                                                     // .xz
  const RMLIST: Bytes := PREFIX + RMLIST_NAME
  const MAGISK: Bytes := PREFIX + MAGISK_NAME
  const S_IFDIR: u32 := 0x4000
  const S_IFREG: u32 := 0x8000

  /* ----- compression ----- */

  /** The xz library; either direction may fail. */
  datatype Codec = Codec(encode: Bytes -> Option<Bytes>, decode: Bytes -> Option<Bytes>)

  ghost predicate Inverse(c: Codec) {
    forall b :: c.encode(b).Some? ==> c.decode(c.encode(b).value) == Some(b)
  }

  predicate IsRegular(e: Entry) { e.mode / 0x1000 % 16 == 8 }

  function Compress(c: Codec, e: Entry): Option<Entry> {
    if IsRegular(e) && c.encode(e.data).Some? then Some(e.(data := c.encode(e.data).value)) else None
  }

  function Decompress(c: Codec, e: Entry): Option<Entry> {
    if IsRegular(e) && c.decode(e.data).Some? then Some(e.(data := c.decode(e.data).value)) else None
  }

  datatype Named = Named(name: Bytes, entry: Entry)

  /** Under what name, and in what form, an entry is kept in the backup. */
  function Stored(c: Codec, skip: bool, n: Bytes, e: Entry): Named {
    var z := Compress(c, e);
    if !skip && z.Some? then Named(PREFIX + n + XZ, z.value) else Named(PREFIX + n, e)
  }

  predicate EndsWith(s: Bytes, suffix: Bytes) { |suffix| <= |s| && s[|s| - |suffix|..] == suffix }

  /** What a kept entry is restored as. */
  function Recovered(c: Codec, key: Bytes, e: Entry): Named
    requires PREFIX <= key
  {
    var z := Decompress(c, e);
    if EndsWith(key[8..], XZ) && z.Some? then Named(key[8..|key| - 3], z.value) else Named(key[8..], e)
  }

  /* ----- the merge ----- */

  /** An original entry that is missing or has other data now. */
  predicate Changed(o: Entries, s: Entries, n: Bytes) {
    n in o && (n !in s || s[n].data != o[n].data)
  }

  predicate Added(o: Entries, s: Entries, n: Bytes) { n in s && n !in o }

  /** The changed names among `names`, in order. */
  function ChangedIn(names: seq<Bytes>, o: Entries, s: Entries): seq<Bytes> {
    if names == [] then []
    else
      var n := |names| - 1;
      ChangedIn(names[..n], o, s) + if Changed(o, s, names[n]) then [names[n]] else []
  }

  function AddedIn(names: seq<Bytes>, o: Entries, s: Entries): seq<Bytes> {
    if names == [] then []
    else
      var n := |names| - 1;
      AddedIn(names[..n], o, s) + if Added(o, s, names[n]) then [names[n]] else []
  }

  function ToBackUp(o: Entries, s: Entries): seq<Bytes> { ChangedIn(Names(o), o, s) }
  function ToRemove(o: Entries, s: Entries): seq<Bytes> { AddedIn(Names(s), o, s) }

  /** Every name before position `i` of `a` comes before every name from `j` on in `b`. */
  ghost predicate Before(a: seq<Bytes>, i: nat, b: seq<Bytes>, j: nat) {
    forall x, y :: 0 <= x < i && i <= |a| && j <= y < |b| ==> Less(a[x], b[y])
  }

  /** A name smaller than the rest and larger than what was passed is not there. */
  lemma NotThere(n: Bytes, b: seq<Bytes>, j: nat)
    requires j <= |b|
    requires forall y :: 0 <= y < j ==> Less(b[y], n)
    requires forall y :: j <= y < |b| ==> Less(n, b[y])
    ensures n !in b
  {
    forall y | 0 <= y < |b| ensures b[y] != n {
      LessAsymmetric(n, n);
    }
  }

  lemma NextBefore(a: seq<Bytes>, i: nat, b: seq<Bytes>, j: nat)
    requires Ascending(b) && i < |a| && j <= |b| && Before(a, i, b, j)
    requires j < |b| ==> Less(a[i], b[j])
    ensures Before(a, i + 1, b, j)
    ensures forall y :: j <= y < |b| ==> Less(a[i], b[y])
  {
    forall y | j <= y < |b| ensures Less(a[i], b[y]) {
      if y > j {
        LessTransitive(a[i], b[j], b[y]);
      }
    }
  }

  lemma NextBoth(a: seq<Bytes>, i: nat, b: seq<Bytes>, j: nat)
    requires Ascending(a) && Ascending(b) && i < |a| && j < |b| && a[i] == b[j]
    requires Before(a, i, b, j) && Before(b, j, a, i)
    ensures Before(a, i + 1, b, j + 1) && Before(b, j + 1, a, i + 1)
  {
  }

  lemma ChangedNext(names: seq<Bytes>, i: nat, o: Entries, s: Entries)
    requires i < |names|
    ensures ChangedIn(names[..i + 1], o, s) == ChangedIn(names[..i], o, s) +
            if Changed(o, s, names[i]) then [names[i]] else []
    ensures AddedIn(names[..i + 1], o, s) == AddedIn(names[..i], o, s) +
            if Added(o, s, names[i]) then [names[i]] else []
  {
    assert names[..i + 1][..i] == names[..i];
  }

  datatype Action = Backup(n: Bytes) | Record(n: Bytes) | Noop

  /**
    The merge loop: `lhs` and `rhs` hold entries taken from the two iterators and
    not consumed yet. Visits every name of both maps exactly once.
  */
  method Merge(o: Entries, s: Entries) returns (backup: seq<Bytes>, record: seq<Bytes>)
    ensures backup == ToBackUp(o, s) && record == ToRemove(o, s)
  {
    hide ChangedIn, AddedIn, Sorted, Less;
    var left, right := Names(o), Names(s);
    NamesAscending(o);
    NamesAscending(s);
    backup, record := [], [];
    assert ChangedIn(left[..0], o, s) == [] && AddedIn(right[..0], o, s) == [] by { EmptyIn(left, right, o, s); }
    var li, ri: nat := 0, 0;
    var lhs: Option<Bytes>, rhs: Option<Bytes> := None, None;
    ghost var i: nat, j: nat := 0, 0;
    while true
      invariant li == i + (if lhs.Some? then 1 else 0) <= |left|
      invariant ri == j + (if rhs.Some? then 1 else 0) <= |right|
      invariant lhs.Some? ==> lhs.value == left[i]
      invariant rhs.Some? ==> rhs.value == right[j]
      invariant backup == ChangedIn(left[..i], o, s) && record == AddedIn(right[..j], o, s)
      invariant Before(left, i, right, j) && Before(right, j, left, i)
      decreases |left| - i + |right| - j
    {
      if lhs.None? && li < |left| {
        lhs, li := Some(left[li]), li + 1;
      }
      if rhs.None? && ri < |right| {
        rhs, ri := Some(right[ri]), ri + 1;
      }
      var action := Noop;
      if lhs.Some? && rhs.Some? {
        LessTotal(lhs.value, rhs.value);
        if Less(lhs.value, rhs.value) {
          action := Backup(lhs.value);
          OnlyLeft(left, i, right, j, o, s);
          lhs, i := None, i + 1;
        } else if Less(rhs.value, lhs.value) {
          action := Record(rhs.value);
          OnlyRight(left, i, right, j, o, s);
          rhs, j := None, j + 1;
        } else {
          InBoth(left, i, right, j, o, s);
          if s[rhs.value].data != o[lhs.value].data {
            action := Backup(lhs.value);
          }
          lhs, rhs, i, j := None, None, i + 1, j + 1;
        }
      } else if lhs.Some? {
        action := Backup(lhs.value);
        OnlyLeft(left, i, right, j, o, s);
        lhs, i := None, i + 1;
      } else if rhs.Some? {
        action := Record(rhs.value);
        OnlyRight(left, i, right, j, o, s);
        rhs, j := None, j + 1;
      } else {
        break;
      }
      match action {
        case Backup(n) => backup := backup + [n];
        case Record(n) => record := record + [n];
        case Noop =>
      }
    }
    assert left[..i] == left && right[..j] == right;
  }

  lemma NamesAscending(a: Entries)
    ensures Ascending(Names(a))
  {
    SortedAscending(a.Keys);
  }

  lemma EmptyIn(left: seq<Bytes>, right: seq<Bytes>, o: Entries, s: Entries)
    ensures ChangedIn(left[..0], o, s) == [] && AddedIn(right[..0], o, s) == []
  {
  }

  lemma OnlyLeft(left: seq<Bytes>, i: nat, right: seq<Bytes>, j: nat, o: Entries, s: Entries)
    requires left == Names(o) && right == Names(s) && Ascending(left) && Ascending(right) && i < |left| && j <= |right|
    requires Before(left, i, right, j) && Before(right, j, left, i) && (j < |right| ==> Less(left[i], right[j]))
    ensures Changed(o, s, left[i]) && left[i] !in s
    ensures ChangedIn(left[..i + 1], o, s) == ChangedIn(left[..i], o, s) + [left[i]]
    ensures Before(left, i + 1, right, j) && Before(right, j, left, i + 1)
  {
    hide Less, Sorted, ChangedIn, AddedIn;
    NextBefore(left, i, right, j);
    NotThere(left[i], right, j);
    assert left[i] in left;
    ChangedNext(left, i, o, s);
  }

  lemma OnlyRight(left: seq<Bytes>, i: nat, right: seq<Bytes>, j: nat, o: Entries, s: Entries)
    requires left == Names(o) && right == Names(s) && Ascending(left) && Ascending(right) && i <= |left| && j < |right|
    requires Before(left, i, right, j) && Before(right, j, left, i) && (i < |left| ==> Less(right[j], left[i]))
    ensures AddedIn(right[..j + 1], o, s) == AddedIn(right[..j], o, s) + [right[j]]
    ensures Before(left, i, right, j + 1) && Before(right, j + 1, left, i)
  {
    hide Less, Sorted, ChangedIn, AddedIn;
    NextBefore(right, j, left, i);
    NotThere(right[j], left, i);
    assert right[j] in right;
    ChangedNext(right, j, o, s);
  }

  lemma InBoth(left: seq<Bytes>, i: nat, right: seq<Bytes>, j: nat, o: Entries, s: Entries)
    requires left == Names(o) && right == Names(s) && Ascending(left) && Ascending(right) && i < |left| && j < |right|
    requires left[i] == right[j] && Before(left, i, right, j) && Before(right, j, left, i)
    ensures left[i] in o && left[i] in s
    ensures ChangedIn(left[..i + 1], o, s) ==
            ChangedIn(left[..i], o, s) + if s[left[i]].data != o[left[i]].data then [left[i]] else []
    ensures AddedIn(right[..j + 1], o, s) == AddedIn(right[..j], o, s)
    ensures Before(left, i + 1, right, j + 1) && Before(right, j + 1, left, i + 1)
  {
    hide Less, Sorted, ChangedIn, AddedIn;
    assert left[i] in left && right[j] in right;
    NextBoth(left, i, right, j);
    ChangedNext(left, i, o, s);
    ChangedNext(right, j, o, s);
  }
}
