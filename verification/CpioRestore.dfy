/** The backup and restore commands of an archive. */
module CpioRestore {
  import opened Bytes
  import opened CpioFormat
  import opened CpioPaths
  import opened CpioBackup

  const DIR_ENTRY: Entry := Entry(S_IFDIR, 0, 0, 0, 0, [])

  /* ----- backup ----- */

  /** The kept entries of `names`, later ones replacing earlier ones of the same key. */
  function Kept(c: Codec, skip: bool, names: seq<Bytes>, o: Entries): Entries
    requires forall n :: n in names ==> n in o
  {
    if names == [] then map[]
    else
      var n := |names| - 1;
      var k := Stored(c, skip, names[n], o[names[n]]);
      Kept(c, skip, names[..n], o)[k.name := k.entry]
  }

  /** The removal list: each name with a NUL behind it. */
  function RmList(names: seq<Bytes>): Bytes {
    if names == [] then [] else RmList(names[..|names| - 1]) + names[|names| - 1] + [0]
  }

  lemma {:induction false} ToBackUpIsOriginal(names: seq<Bytes>, o: Entries, s: Entries)
    ensures forall n :: n in ChangedIn(names, o, s) <==> n in names && Changed(o, s, n)
    ensures forall n :: n in AddedIn(names, o, s) <==> n in names && Added(o, s, n)
    decreases |names|
  {
    if names != [] {
      ToBackUpIsOriginal(names[..|names| - 1], o, s);
      assert names == names[..|names| - 1] + [names[|names| - 1]];
    }
  }

  lemma WhatIsBackedUp(o: Entries, s: Entries)
    ensures forall n :: n in ToBackUp(o, s) <==> Changed(o, s, n)
    ensures forall n :: n in ToRemove(o, s) <==> Added(o, s, n)
    ensures forall n :: n in ToBackUp(o, s) ==> n in o
  {
    ToBackUpIsOriginal(Names(o), o, s);
    ToBackUpIsOriginal(Names(s), o, s);
  }

  function ListEntry(list: Bytes): Entry { Entry(S_IFREG, 0, 0, 0, 0, list) }

  /** What backup adds to an archive `s` for an original `o`, both without backups of their own. */
  function Backups(c: Codec, skip: bool, o: Entries, s: Entries): Entries {
    WhatIsBackedUp(o, s);
    var list := RmList(ToRemove(o, s));
    var kept := map[DIR := DIR_ENTRY] + Kept(c, skip, ToBackUp(o, s), o);
    if list != [] then kept[RMLIST := ListEntry(list)] else kept
  }

  function BackedUp(c: Codec, skip: bool, origin: Entries, entries: Entries): Entries {
    var o, s := Rm(origin, DIR, true), Rm(entries, DIR, true);
    s + Backups(c, skip, o, s)
  }

  /** Keys restored as entries of their own. */
  predicate Recoverable(key: Bytes) { PREFIX <= key && key != RMLIST && key != MAGISK }

  /** What restore extracts, key by key in order; later ones replace earlier ones of the same name. */
  function Recover(c: Codec, keys: seq<Bytes>, a: Entries): Entries
    requires forall k :: k in keys ==> k in a
  {
    if keys == [] then map[]
    else
      var n := |keys| - 1;
      var before := Recover(c, keys[..n], a);
      if !Recoverable(keys[n]) then before
      else
        var r := Recovered(c, keys[n], a[keys[n]]);
        before[r.name := r.entry]
  }

  /** The removal list an archive carries. */
  function CarriedList(a: Entries): Bytes {
    if RMLIST in a && ValidUtf8(a[RMLIST].data) then a[RMLIST].data else []
  }

  function RemoveAll(a: Entries, names: seq<Bytes>): Entries {
    if names == [] then a
    else
      var before := RemoveAll(a, names[..|names| - 1]);
      if names[|names| - 1] == [] then before else Rm(before, names[|names| - 1], false)
  }

  function WithoutPrefix(a: Entries): Entries {
    map n | n in a && !(PREFIX <= n) :: a[n]
  }

  function Restored(c: Codec, a: Entries): Entries {
    var recovered := Recover(c, Names(a), a);
    var list := CarriedList(a);
    if list == [] && recovered == map[] then map[]
    else RemoveAll(Rm(WithoutPrefix(a), DIR, false), Split(list, 0)) + recovered
  }

  class Cpio {
    var entries: Entries

    constructor (entries: Entries)
      ensures this.entries == entries
    {
      this.entries := entries;
    }

    method Remove(path: Bytes, recursive: bool)
      modifies this
      ensures entries == Rm(old(entries), path, recursive)
    {
      var name := NormPath(path);
      entries := entries - {name};
      if recursive {
        var below := name + [SLASH];
        entries := map n | n in entries && !(below <= n) :: entries[n];
      }
    }

    method BackUp(c: Codec, origin: Cpio, skip: bool)
      requires origin != this
      modifies this, origin
      ensures entries == BackedUp(c, skip, old(origin.entries), old(entries))
    {
      origin.Remove(DIR, true);
      Remove(DIR, true);
      var backup, record := Merge(origin.entries, entries);
      WhatIsBackedUp(origin.entries, entries);
      var kept := Keep(c, skip, backup, origin.entries);
      var list := JoinList(record);
      var backups: Entries := map[DIR := DIR_ENTRY] + kept;
      if list != [] {
        backups := backups[RMLIST := ListEntry(list)];
      }
      entries := entries + backups;
    }

    static method Keep(c: Codec, skip: bool, names: seq<Bytes>, o: Entries) returns (kept: Entries)
      requires forall n :: n in names ==> n in o
      ensures kept == Kept(c, skip, names, o)
    {
      kept := map[];
      var i := 0;
      while i < |names|
        invariant i <= |names| && kept == Kept(c, skip, names[..i], o)
      {
        assert names[..i + 1][..i] == names[..i];
        var z := Compress(c, o[names[i]]);
        if !skip && z.Some? {
          kept := kept[PREFIX + names[i] + XZ := z.value];
        } else {
          kept := kept[PREFIX + names[i] := o[names[i]]];
        }
        i := i + 1;
      }
      assert names[..i] == names;
    }

    static method JoinList(names: seq<Bytes>) returns (list: Bytes)
      ensures list == RmList(names)
    {
      list := [];
      var i := 0;
      while i < |names|
        invariant i <= |names| && list == RmList(names[..i])
      {
        assert names[..i + 1][..i] == names[..i];
        list := list + names[i] + [0];
        i := i + 1;
      }
      assert names[..i] == names;
    }

    method Restore(c: Codec)
      modifies this
      ensures entries == Restored(c, old(entries))
    {
      hide Recover, Rm, RemoveAll, WithoutPrefix, Split, CarriedList, Sorted;
      var recovered := Extract(c, Names(entries), entries);
      var list := CarriedList(entries);
      entries := WithoutPrefix(entries);
      Remove(DIR, false);
      if list == [] && recovered == map[] {
        entries := map[];
        return;
      }
      RemoveListed(Split(list, 0));
      entries := entries + recovered;
    }

    method RemoveListed(parts: seq<Bytes>)
      modifies this
      ensures entries == RemoveAll(old(entries), parts)
    {
      hide Rm;
      var i := 0;
      while i < |parts|
        invariant i <= |parts| && entries == RemoveAll(old(entries), parts[..i])
      {
        assert parts[..i + 1][..i] == parts[..i];
        if parts[i] != [] {
          Remove(parts[i], false);
        }
        i := i + 1;
      }
      assert parts[..i] == parts;
    }

    static method Extract(c: Codec, keys: seq<Bytes>, a: Entries) returns (recovered: Entries)
      requires forall k :: k in keys ==> k in a
      ensures recovered == Recover(c, keys, a)
    {
      recovered := map[];
      var i := 0;
      while i < |keys|
        invariant i <= |keys| && recovered == Recover(c, keys[..i], a)
      {
        assert keys[..i + 1][..i] == keys[..i];
        if Recoverable(keys[i]) {
          var r := Recovered(c, keys[i], a[keys[i]]);
          recovered := recovered[r.name := r.entry];
        }
        i := i + 1;
      }
      assert keys[..i] == keys;
    }
  }

  lemma DirIsNormal()
    ensures Normal(DIR)
  {
    PlainIsNormal(DIR);
  }
}
