/** Restore undoes backup: exactly when, for every pair of archives, codec and mode. */
module CpioUndo {
  import opened Bytes
  import opened CpioFormat
  import opened CpioParser
  import opened CpioPaths
  import opened CpioBackup
  import opened CpioRestore

  /** No backups inside. */
  ghost predicate Clean(a: Entries) {
    forall n :: n in a ==> n != DIR && !(PREFIX <= n)
  }

  ghost predicate PlainNames(a: Entries) {
    forall n :: n in a ==> PlainText(n)
  }

  lemma RmMakesClean(a: Entries)
    ensures Clean(Rm(a, DIR, true))
    ensures PlainNames(a) ==> PlainNames(Rm(a, DIR, true))
  {
    DirIsNormal();
    assert DIR + [SLASH] == PREFIX;
  }

  /** What a restored archive should hold: the original, in its old form wherever its data had changed. */
  ghost function Original(o: Entries, s: Entries): Entries {
    map n | n in o :: if Changed(o, s, n) then o[n] else s[n]
  }

  /* ----- what can go wrong with one changed entry ----- */

  predicate StoredRaw(c: Codec, skip: bool, o: Entries, n: Bytes)
    requires n in o
  {
    skip || Compress(c, o[n]).None?
  }

  /** Kept under a key that has a meaning of its own. */
  predicate Reserved(c: Codec, skip: bool, o: Entries, n: Bytes)
    requires n in o
  {
    StoredRaw(c, skip, o, n) && (n == RMLIST_NAME || n == MAGISK_NAME)
  }

  /** Kept as it is, but restored as if it had been compressed. */
  predicate Misread(c: Codec, skip: bool, o: Entries, n: Bytes)
    requires n in o
  {
    StoredRaw(c, skip, o, n) && EndsWith(n, XZ) && Decompress(c, o[n]).Some?
  }

  /** Kept under a key that the entry `n`.xz, kept as it is, takes afterwards. */
  predicate Overwritten(c: Codec, skip: bool, o: Entries, s: Entries, n: Bytes)
    requires n in o
  {
    !StoredRaw(c, skip, o, n) && Changed(o, s, n + XZ) && StoredRaw(c, skip, o, n + XZ)
  }

  predicate Lost(c: Codec, skip: bool, o: Entries, s: Entries, n: Bytes)
    requires n in o
  {
    Reserved(c, skip, o, n) || Misread(c, skip, o, n) || Overwritten(c, skip, o, s, n)
  }

  /** An entry restore can be told to remove. */
  predicate Removable(n: Bytes) { n != [] && Normal(n) }

  /** The condition for restore to undo backup. */
  ghost predicate Undoable(c: Codec, skip: bool, o: Entries, s: Entries) {
    (forall n :: Changed(o, s, n) ==> !Lost(c, skip, o, s, n)) &&
    (forall n :: Added(o, s, n) ==> Removable(n)) &&
    ((exists n :: Changed(o, s, n) || Added(o, s, n)) || o == map[])
  }

  lemma RecoveredStored(c: Codec, skip: bool, o: Entries, n: Bytes)
    requires Inverse(c) && n in o
    ensures var k := Stored(c, skip, n, o[n]);
            PREFIX <= k.name &&
            (!Misread(c, skip, o, n) ==> Recovered(c, k.name, k.entry) == Named(n, o[n])) &&
            (Misread(c, skip, o, n) ==> Recovered(c, k.name, k.entry).name + XZ == n)
  {
    var k := Stored(c, skip, n, o[n]);
    if StoredRaw(c, skip, o, n) {
      assert k.name[8..] == n;
      if Misread(c, skip, o, n) {
        assert k.name[8..|k.name| - 3] == n[..|n| - 3];
        assert n == n[..|n| - 3] + n[|n| - 3..];
      }
    } else {
      assert k.name[8..] == n + XZ;
      assert k.name[8..|k.name| - 3] == n;
    }
  }

  /** Two entries share a key only in one way. */
  lemma SharedKey(c: Codec, skip: bool, o: Entries, n: Bytes, m: Bytes)
    requires n in o && m in o && n != m && Stored(c, skip, n, o[n]).name == Stored(c, skip, m, o[m]).name
    ensures (n == m + XZ && StoredRaw(c, skip, o, n) && !StoredRaw(c, skip, o, m)) ||
            (m == n + XZ && StoredRaw(c, skip, o, m) && !StoredRaw(c, skip, o, n))
  {
    var k := Stored(c, skip, n, o[n]).name;
    assert (PREFIX + n)[8..] == n && (PREFIX + m)[8..] == m;
    assert (PREFIX + n + XZ)[8..] == n + XZ && (PREFIX + m + XZ)[8..] == m + XZ;
    assert (n + XZ)[..|n|] == n && (m + XZ)[..|m|] == m;
  }

  lemma ReservedKey(c: Codec, skip: bool, o: Entries, n: Bytes)
    requires n in o
    ensures Recoverable(Stored(c, skip, n, o[n]).name) <==> !Reserved(c, skip, o, n)
    ensures Stored(c, skip, n, o[n]).name == RMLIST ==> n == RMLIST_NAME && Reserved(c, skip, o, n)
  {
    assert (PREFIX + n)[8..] == n && RMLIST[8..] == RMLIST_NAME && MAGISK[8..] == MAGISK_NAME;
    var z := PREFIX + n + XZ;
    assert z[|z| - 1] == 0x7A;
    assert RMLIST[|RMLIST| - 1] == 0x74 && MAGISK[|MAGISK| - 1] == 0x6B;
  }

  /* ----- what backup keeps ----- */

  /** Each kept entry is that of the last name with its key. */
  lemma {:induction false} KeptFrom(c: Codec, skip: bool, names: seq<Bytes>, o: Entries, key: Bytes) returns (i: nat)
    requires (forall n :: n in names ==> n in o) && key in Kept(c, skip, names, o)
    ensures i < |names| && names[i] in o
    ensures Stored(c, skip, names[i], o[names[i]]) == Named(key, Kept(c, skip, names, o)[key])
    ensures forall j :: i < j < |names| ==> names[j] in o && Stored(c, skip, names[j], o[names[j]]).name != key
    decreases |names|
  {
    hide Stored;
    var n := |names| - 1;
    if Stored(c, skip, names[n], o[names[n]]).name == key {
      i := n;
    } else {
      i := KeptFrom(c, skip, names[..n], o, key);
    }
  }

  lemma {:induction false} KeptHas(c: Codec, skip: bool, names: seq<Bytes>, o: Entries, n: Bytes)
    requires (forall n :: n in names ==> n in o) && n in names
    ensures Stored(c, skip, n, o[n]).name in Kept(c, skip, names, o)
    decreases |names|
  {
    hide Stored;
    var l := |names| - 1;
    if names[l] != n {
      assert names == names[..l] + [names[l]];
      KeptHas(c, skip, names[..l], o, n);
    }
  }

  lemma {:induction false} ChangedAscending(names: seq<Bytes>, o: Entries, s: Entries)
    requires Ascending(names)
    ensures Ascending(ChangedIn(names, o, s))
    decreases |names|
  {
    hide Less, Changed;
    if names != [] {
      var n := |names| - 1;
      ChangedAscending(names[..n], o, s);
      var r := ChangedIn(names[..n], o, s);
      ToBackUpIsOriginal(names[..n], o, s);
      forall x | x in r ensures Less(x, names[n]) {
        assert x in names[..n];
      }
      AscendingSnoc(r, names[n]);
    }
  }

  lemma AscendingSnoc(r: seq<Bytes>, x: Bytes)
    requires Ascending(r) && forall y :: y in r ==> Less(y, x)
    ensures Ascending(r + [x])
  {
  }

  lemma {:induction false} LessExtended(n: Bytes, x: Bytes)
    requires x != []
    ensures Less(n, n + x)
    decreases |n|
  {
    if n != [] {
      assert (n + x)[1..] == n[1..] + x;
      LessExtended(n[1..], x);
    }
  }

  /* ----- what restore recovers ----- */

  lemma {:induction false} RecoverFrom(c: Codec, keys: seq<Bytes>, a: Entries, n: Bytes) returns (k: Bytes)
    requires (forall k :: k in keys ==> k in a) && n in Recover(c, keys, a)
    ensures k in keys && k in a && Recoverable(k) && Recovered(c, k, a[k]) == Named(n, Recover(c, keys, a)[n])
    decreases |keys|
  {
    hide Recovered;
    var l := |keys| - 1;
    if Recoverable(keys[l]) && Recovered(c, keys[l], a[keys[l]]).name == n {
      k := keys[l];
    } else {
      k := RecoverFrom(c, keys[..l], a, n);
    }
  }

  lemma {:induction false} RecoverHas(c: Codec, keys: seq<Bytes>, a: Entries, k: Bytes)
    requires (forall k :: k in keys ==> k in a) && k in keys && Recoverable(k)
    ensures Recovered(c, k, a[k]).name in Recover(c, keys, a)
    decreases |keys|
  {
    hide Recovered;
    var l := |keys| - 1;
    if keys[l] != k {
      assert keys == keys[..l] + [keys[l]];
      RecoverHas(c, keys[..l], a, k);
    }
  }

  /* ----- the backed up archive ----- */

  /** An archive with a backup in it, possibly with the marker files of the patcher added. */
  ghost predicate Carries(t: Entries, c: Codec, skip: bool, o: Entries, s: Entries) {
    exists extra: Entries :: extra.Keys <= {DIR, MAGISK} && t == s + Backups(c, skip, o, s) + extra
  }

  /** Reading an archive that carries a backup: the kept entries, the list, and the rest. */
  ghost predicate Readable(t: Entries, kept: Entries, list: Bytes, s: Entries) {
    (forall k :: k in t && k != DIR && !(PREFIX <= k) ==> k in s) &&
    (forall k :: k in s ==> k in t && t[k] == s[k]) &&
    (forall k :: Recoverable(k) ==> (k in t <==> k in kept)) &&
    (forall k :: k in kept && Recoverable(k) ==> t[k] == kept[k]) &&
    (list != [] ==> RMLIST in t && t[RMLIST] == ListEntry(list)) &&
    (list == [] && RMLIST in t ==> RMLIST in kept)
  }

  lemma SpecialKeys()
    ensures !(PREFIX <= DIR) && PREFIX <= RMLIST && PREFIX <= MAGISK && RMLIST != MAGISK
  {
    assert RMLIST[9] == 0x72 && MAGISK[9] == 0x6D;
  }

  ghost function Layers(kept: Entries, list: Bytes): Entries {
    var b := map[DIR := DIR_ENTRY] + kept;
    if list != [] then b[RMLIST := ListEntry(list)] else b
  }

  /** Looking up one key in an archive with a backup and markers on top. */
  lemma LayerAt(t: Entries, s: Entries, b: Entries, extra: Entries, k: Bytes)
    requires t == s + b + extra
    ensures k in t <==> k in s || k in b || k in extra
    ensures k in t ==> t[k] == if k in extra then extra[k] else if k in b then b[k] else s[k]
  {
  }

  lemma LayersReadable(t: Entries, s: Entries, kept: Entries, list: Bytes, extra: Entries)
    requires Clean(s) && extra.Keys <= {DIR, MAGISK} && forall k :: k in kept ==> PREFIX <= k
    requires t == s + Layers(kept, list) + extra
    ensures Readable(t, kept, list, s)
  {
    SpecialKeys();
    forall k
      ensures k in t && k != DIR && !(PREFIX <= k) ==> k in s
      ensures k in s ==> k in t && t[k] == s[k]
      ensures Recoverable(k) ==> (k in t <==> k in kept)
      ensures k in kept && Recoverable(k) ==> t[k] == kept[k]
    {
      LayerAt(t, s, Layers(kept, list), extra, k);
    }
    LayerAt(t, s, Layers(kept, list), extra, RMLIST);
  }

  lemma CarriedIsReadable(t: Entries, c: Codec, skip: bool, o: Entries, s: Entries, kept: Entries)
    requires Carries(t, c, skip, o, s) && Clean(s)
    requires (forall n :: n in ToBackUp(o, s) ==> n in o) && kept == Kept(c, skip, ToBackUp(o, s), o)
    ensures Readable(t, kept, RmList(ToRemove(o, s)), s)
  {
    hide ToBackUp, ToRemove, RmList, Clean, Readable, Kept;
    KeptArePrefixed(c, skip, ToBackUp(o, s), o);
    var extra: Entries :| extra.Keys <= {DIR, MAGISK} && t == s + Backups(c, skip, o, s) + extra;
    LayersReadable(t, s, kept, RmList(ToRemove(o, s)), extra);
  }

  lemma {:induction false} KeptArePrefixed(c: Codec, skip: bool, names: seq<Bytes>, o: Entries)
    requires forall n :: n in names ==> n in o
    ensures forall k :: k in Kept(c, skip, names, o) ==> PREFIX <= k
    decreases |names|
  {
    if names != [] {
      KeptArePrefixed(c, skip, names[..|names| - 1], o);
    }
  }

  /** A recovered entry comes from a changed original, restored right unless it was misread. */
  lemma RecoveredFrom(c: Codec, skip: bool, o: Entries, s: Entries, t: Entries, n: Bytes) returns (m: Bytes)
    requires Inverse(c) && Carries(t, c, skip, o, s) && Clean(s) && n in Recover(c, Names(t), t)
    ensures Changed(o, s, m) && !Reserved(c, skip, o, m) && !Overwritten(c, skip, o, s, m)
    ensures if Misread(c, skip, o, m) then n + XZ == m else m == n && Recover(c, Names(t), t)[n] == o[n]
  {
    hide Carries, Clean, ToBackUp, ToRemove, Kept, Recover, Recovered, Stored, StoredRaw, RmList, Sorted, Misread,
         Reserved, Overwritten, Inverse, Changed, Names;
    WhatIsBackedUp(o, s);
    var names := ToBackUp(o, s);
    var kept := Kept(c, skip, names, o);
    CarriedIsReadable(t, c, skip, o, s, kept);
    var k := RecoverFrom(c, Names(t), t, n);
    var i := KeptFrom(c, skip, names, o, k);
    m := names[i];
    RecoveredStored(c, skip, o, m);
    ReservedKey(c, skip, o, m);
    LastIsNotOverwritten(c, skip, o, s, i, k);
  }

  lemma LastIsNotOverwritten(c: Codec, skip: bool, o: Entries, s: Entries, i: nat, k: Bytes)
    requires i < |ToBackUp(o, s)| && ToBackUp(o, s)[i] in o
    requires Stored(c, skip, ToBackUp(o, s)[i], o[ToBackUp(o, s)[i]]).name == k
    requires forall j :: i < j < |ToBackUp(o, s)| ==>
               ToBackUp(o, s)[j] in o && Stored(c, skip, ToBackUp(o, s)[j], o[ToBackUp(o, s)[j]]).name != k
    ensures !Overwritten(c, skip, o, s, ToBackUp(o, s)[i])
  {
    hide Less, Sorted, ChangedIn, Names;
    var names := ToBackUp(o, s);
    var n := names[i];
    if Overwritten(c, skip, o, s, n) {
      WhatIsBackedUp(o, s);
      assert n + XZ in names;
      var j :| 0 <= j < |names| && names[j] == n + XZ;
      assert PREFIX + n + XZ == PREFIX + (n + XZ);
      NamesAscending(o);
      ChangedAscending(Names(o), o, s);
      LessExtended(n, XZ);
      LessAsymmetric(n, n + XZ);
    }
  }

  /** A changed original that cannot be lost is recovered. */
  lemma RecoveredHas(c: Codec, skip: bool, o: Entries, s: Entries, t: Entries, n: Bytes)
    requires Inverse(c) && Carries(t, c, skip, o, s) && Clean(s) && Changed(o, s, n)
    requires forall m :: Changed(o, s, m) ==> !Lost(c, skip, o, s, m)
    ensures n in Recover(c, Names(t), t)
  {
    hide Carries, Clean, ToBackUp, ToRemove, Kept, Recover, Recovered, Stored, RmList, Sorted, Inverse, Misread,
         Reserved, Names;
    WhatIsBackedUp(o, s);
    var names := ToBackUp(o, s);
    var kept := Kept(c, skip, names, o);
    CarriedIsReadable(t, c, skip, o, s, kept);
    var k := Stored(c, skip, n, o[n]).name;
    KeptHas(c, skip, names, o, n);
    ReservedKey(c, skip, o, n);
    var i := KeptFrom(c, skip, names, o, k);
    var m := names[i];
    assert Changed(o, s, m) && Changed(o, s, n);
    if m != n {
      SharedKey(c, skip, o, n, m);
    }
    RecoveredStored(c, skip, o, n);
    RecoverHas(c, Names(t), t, k);
  }

  /* ----- removal ----- */

  predicate NulFree(n: Bytes) { 0 !in n }

  lemma {:induction false} SplitList(names: seq<Bytes>, tail: Bytes)
    requires forall i :: 0 <= i < |names| ==> NulFree(names[i])
    ensures Split(RmList(names) + tail, 0) == names + Split(tail, 0)
    decreases |names|
  {
    hide Split, NulFree;
    if names == [] {
      assert RmList(names) + tail == tail;
    } else {
      var l := |names| - 1;
      var rest := names[l] + [0] + tail;
      assert RmList(names) + tail == RmList(names[..l]) + rest;
      SplitList(names[..l], rest);
      SplitOne(names[l], tail);
      assert names == names[..l] + [names[l]];
    }
  }

  lemma SplitOne(n: Bytes, tail: Bytes)
    requires NulFree(n)
    ensures Split(n + [0] + tail, 0) == [n] + Split(tail, 0)
  {
    SplitAtSeparator(n, 0, tail);
  }

  lemma SplitRmList(names: seq<Bytes>)
    requires forall i :: 0 <= i < |names| ==> NulFree(names[i])
    ensures Split(RmList(names), 0) == names + [[]]
  {
    SplitList(names, []);
    assert RmList(names) + [] == RmList(names);
    assert Split([], 0) == [[]];
  }

  lemma {:induction false} ListIsUtf8(names: seq<Bytes>)
    requires forall n :: n in names ==> ValidUtf8(n)
    ensures ValidUtf8(RmList(names)) && (RmList(names) == [] <==> names == [])
    decreases |names|
  {
    hide ValidUtf8;
    if names == [] {
      EmptyUtf8();
    } else {
      var l := |names| - 1;
      ListIsUtf8(names[..l]);
      EmptyUtf8();
      ConcatUtf8(RmList(names[..l]), names[l]);
      ConcatUtf8(RmList(names[..l]) + names[l], [0]);
    }
  }

  lemma EmptyUtf8()
    ensures ValidUtf8([]) && ValidUtf8([0])
  {
  }

  /** Exactly the normalised non-empty names are removed. */
  lemma {:induction false} RemoveAllKeys(a: Entries, names: seq<Bytes>)
    ensures forall n :: n in RemoveAll(a, names) <==>
            n in a && forall i :: 0 <= i < |names| && names[i] != [] ==> NormPath(names[i]) != n
    ensures forall n :: n in RemoveAll(a, names) ==> RemoveAll(a, names)[n] == a[n]
    decreases |names|
  {
    hide NormPath;
    if names != [] {
      RemoveAllKeys(a, names[..|names| - 1]);
    }
  }

  /** What is left of the archive itself when restore starts to remove. */
  lemma BaseIs(t: Entries, kept: Entries, list: Bytes, s: Entries)
    requires Readable(t, kept, list, s) && Clean(s)
    ensures Rm(WithoutPrefix(t), DIR, false) == s
  {
    DirIsNormal();
    assert forall k :: k in Rm(WithoutPrefix(t), DIR, false) <==> k in s;
  }

  /** The list restore reads is the one backup wrote, unless a changed entry sits in its place. */
  lemma ListIs(c: Codec, skip: bool, o: Entries, s: Entries, t: Entries)
    requires Carries(t, c, skip, o, s) && Clean(s) && PlainNames(s)
    requires forall m :: Changed(o, s, m) ==> !Reserved(c, skip, o, m)
    ensures CarriedList(t) == RmList(ToRemove(o, s))
  {
    hide Carries, Clean, ToBackUp, ToRemove, Kept, RmList, ValidUtf8, Stored, Reserved;
    WhatIsBackedUp(o, s);
    var kept := Kept(c, skip, ToBackUp(o, s), o);
    CarriedIsReadable(t, c, skip, o, s, kept);
    ListIsUtf8(ToRemove(o, s));
    if RmList(ToRemove(o, s)) == [] && RMLIST in t {
      var i := KeptFrom(c, skip, ToBackUp(o, s), o, RMLIST);
      ReservedKey(c, skip, o, ToBackUp(o, s)[i]);
    }
  }

  /** What restore does when no reserved name was kept, in terms of the two archives. */
  lemma RestoredIs(c: Codec, skip: bool, o: Entries, s: Entries, t: Entries)
    requires Carries(t, c, skip, o, s) && Clean(s) && PlainNames(s)
    requires forall m :: Changed(o, s, m) ==> !Reserved(c, skip, o, m)
    ensures var r := Recover(c, Names(t), t);
            Restored(c, t) == if ToRemove(o, s) == [] && r == map[] then map[]
                              else RemoveAll(s, ToRemove(o, s) + [[]]) + r
  {
    hide Carries, ToBackUp, ToRemove, Kept, RmList, Recover, Names, Rm, WithoutPrefix, RemoveAll, Split, Readable,
         Reserved, CarriedList;
    WhatIsBackedUp(o, s);
    CarriedIsReadable(t, c, skip, o, s, Kept(c, skip, ToBackUp(o, s), o));
    BaseIs(t, Kept(c, skip, ToBackUp(o, s), o), RmList(ToRemove(o, s)), s);
    ListIs(c, skip, o, s, t);
    ListIsUtf8(ToRemove(o, s));
    forall i | 0 <= i < |ToRemove(o, s)| ensures NulFree(ToRemove(o, s)[i]) {
      assert ToRemove(o, s)[i] in ToRemove(o, s);
    }
    SplitRmList(ToRemove(o, s));
  }

  /** Restore removes exactly the added names, provided they are all removable. */
  lemma RemovedAre(o: Entries, s: Entries)
    requires forall n :: Added(o, s, n) ==> Removable(n)
    ensures forall n :: n in RemoveAll(s, ToRemove(o, s) + [[]]) <==> n in s && n in o
    ensures forall n :: n in RemoveAll(s, ToRemove(o, s) + [[]]) ==> RemoveAll(s, ToRemove(o, s) + [[]])[n] == s[n]
  {
    hide RemoveAll, ToRemove, NormPath;
    var names := ToRemove(o, s) + [[]];
    WhatIsBackedUp(o, s);
    RemoveAllKeys(s, names);
    forall n | n in s ensures n in RemoveAll(s, names) <==> n in o {
      if n in o {
        forall i | 0 <= i < |names| && names[i] != [] ensures NormPath(names[i]) != n {
          assert names[i] in ToRemove(o, s);
        }
      } else {
        assert n in ToRemove(o, s);
        var i :| 0 <= i < |ToRemove(o, s)| && ToRemove(o, s)[i] == n;
        assert names[i] == n && names[i] != [] && NormPath(names[i]) == n;
      }
    }
  }

  /* ----- the theorem, both ways ----- */

  /** Without losses, exactly the changed originals are recovered, as they were. */
  lemma RecoveredAre(c: Codec, skip: bool, o: Entries, s: Entries, t: Entries, n: Bytes)
    requires Inverse(c) && Carries(t, c, skip, o, s) && Clean(s)
    requires forall m :: Changed(o, s, m) ==> !Lost(c, skip, o, s, m)
    ensures n in Recover(c, Names(t), t) <==> Changed(o, s, n)
    ensures n in Recover(c, Names(t), t) ==> n in o && Recover(c, Names(t), t)[n] == o[n]
  {
    hide Carries, Clean, Inverse, Recover, Names, Reserved, Misread, Overwritten;
    if n in Recover(c, Names(t), t) {
      var m := RecoveredFrom(c, skip, o, s, t, n);
      assert !Lost(c, skip, o, s, m);
    }
    if Changed(o, s, n) {
      RecoveredHas(c, skip, o, s, t, n);
    }
  }

  /** Putting the originals back over what was left of the archive. */
  lemma PutBack(o: Entries, s: Entries, left: Entries, r: Entries)
    requires forall n :: n in left <==> n in s && n in o
    requires forall n :: n in left ==> left[n] == s[n]
    requires forall n :: n in r <==> Changed(o, s, n)
    requires forall n :: n in r ==> n in o && r[n] == o[n]
    ensures left + r == Original(o, s)
  {
  }

  lemma UndoableIsUndone(c: Codec, skip: bool, o: Entries, s: Entries, t: Entries)
    requires Inverse(c) && Carries(t, c, skip, o, s) && Clean(s) && PlainNames(s) && Undoable(c, skip, o, s)
    ensures Restored(c, t) == Original(o, s)
  {
    hide Carries, Clean, PlainNames, Inverse, Recover, Names, RemoveAll, ToRemove, Restored, Reserved, Misread,
         Overwritten, Changed, Added, Original;
    RestoredIs(c, skip, o, s, t);
    RemovedAre(o, s);
    var r := Recover(c, Names(t), t);
    forall n ensures (n in r <==> Changed(o, s, n)) && (n in r ==> n in o && r[n] == o[n]) {
      RecoveredAre(c, skip, o, s, t, n);
    }
    PutBack(o, s, RemoveAll(s, ToRemove(o, s) + [[]]), r);
    if ToRemove(o, s) == [] && r == map[] {
      WhatIsBackedUp(o, s);
      assert o == map[];
      OriginalOfNothing(s);
    }
  }

  lemma OriginalOfNothing(s: Entries)
    ensures Original(map[], s) == map[]
  {
  }

  /** A lost name of a restored archive would need a longer lost name. */
  lemma LongerLost(c: Codec, skip: bool, o: Entries, s: Entries, t: Entries, n: Bytes) returns (m: Bytes)
    requires Inverse(c) && Carries(t, c, skip, o, s) && Clean(s) && Restored(c, t) == Original(o, s)
    requires Changed(o, s, n) && Lost(c, skip, o, s, n)
    ensures Changed(o, s, m) && Lost(c, skip, o, s, m) && |m| > |n|
  {
    hide Carries, Inverse, Recover, Names, RemoveAll, Restored, Reserved, Misread, Overwritten;
    assert n in Original(o, s) && Original(o, s)[n] == o[n];
    assert n in Recover(c, Names(t), t) by { MustBeRecovered(c, skip, o, s, t, n); }
    m := RecoveredFrom(c, skip, o, s, t, n);
  }

  lemma MustBeRecovered(c: Codec, skip: bool, o: Entries, s: Entries, t: Entries, n: Bytes)
    requires Carries(t, c, skip, o, s) && Clean(s)
    requires Changed(o, s, n) && n in Restored(c, t) && Restored(c, t)[n] == o[n]
    ensures n in Recover(c, Names(t), t)
  {
    hide Carries, ToBackUp, ToRemove, Kept, RmList, Recover, Names, Rm, WithoutPrefix, RemoveAll, Split, Readable,
         CarriedList;
    WhatIsBackedUp(o, s);
    CarriedIsReadable(t, c, skip, o, s, Kept(c, skip, ToBackUp(o, s), o));
    BaseIs(t, Kept(c, skip, ToBackUp(o, s), o), RmList(ToRemove(o, s)), s);
    RemoveAllKeys(s, Split(CarriedList(t), 0));
  }

  lemma {:induction false} NothingIsLost(c: Codec, skip: bool, o: Entries, s: Entries, t: Entries, n: Bytes, bound: nat)
    requires Inverse(c) && Carries(t, c, skip, o, s) && Clean(s) && Restored(c, t) == Original(o, s)
    requires Changed(o, s, n) && forall m :: Changed(o, s, m) ==> |m| <= bound
    ensures !Lost(c, skip, o, s, n)
    decreases bound - |n|
  {
    hide Carries, Inverse, Restored, Clean;
    if Lost(c, skip, o, s, n) {
      var m := LongerLost(c, skip, o, s, t, n);
      NothingIsLost(c, skip, o, s, t, m, bound);
    }
  }

  lemma {:induction false} LengthBound(names: seq<Bytes>) returns (bound: nat)
    ensures forall n :: n in names ==> |n| <= bound
    decreases |names|
  {
    if names == [] {
      bound := 0;
    } else {
      bound := LengthBound(names[..|names| - 1]);
      bound := bound + |names[|names| - 1]|;
      assert names == names[..|names| - 1] + [names[|names| - 1]];
    }
  }

  /** An added name that is not removable stays. */
  lemma AddedAreRemovable(c: Codec, skip: bool, o: Entries, s: Entries, t: Entries, n: Bytes)
    requires Inverse(c) && Carries(t, c, skip, o, s) && Clean(s) && PlainNames(s) && Restored(c, t) == Original(o, s)
    requires forall m :: Changed(o, s, m) ==> !Reserved(c, skip, o, m)
    requires Added(o, s, n)
    ensures Normal(n)
    ensures (forall m :: Added(o, s, m) ==> Normal(m)) ==> n != []
  {
    hide Carries, Clean, PlainNames, Inverse, Recover, Names, RemoveAll, ToRemove, Restored, Reserved, NormPath;
    RestoredIs(c, skip, o, s, t);
    WhatIsBackedUp(o, s);
    assert n in ToRemove(o, s);
    var names := ToRemove(o, s) + [[]];
    RemoveAllKeys(s, names);
    assert n !in Original(o, s);
    var i :| 0 <= i < |names| && names[i] != [] && NormPath(names[i]) == n;
    NormPathIdempotent(names[i]);
    assert names[i] in ToRemove(o, s);
  }

  lemma UndoneIsUndoable(c: Codec, skip: bool, o: Entries, s: Entries, t: Entries)
    requires Inverse(c) && Carries(t, c, skip, o, s) && Clean(s) && PlainNames(s) && Restored(c, t) == Original(o, s)
    ensures Undoable(c, skip, o, s)
  {
    hide Carries, Clean, PlainNames, Inverse, Recover, Names, RemoveAll, ToRemove, ToBackUp, Restored, Reserved,
         Misread, Overwritten, Normal;
    WhatIsBackedUp(o, s);
    var bound := LengthBound(ToBackUp(o, s));
    forall n | Changed(o, s, n) ensures !Lost(c, skip, o, s, n) {
      NothingIsLost(c, skip, o, s, t, n, bound);
    }
    forall n | Added(o, s, n) ensures Normal(n) { AddedAreRemovable(c, skip, o, s, t, n); }
    forall n | Added(o, s, n) ensures n != [] { AddedAreRemovable(c, skip, o, s, t, n); }
    if forall n :: !Changed(o, s, n) && !Added(o, s, n) {
      RestoredIs(c, skip, o, s, t);
      NothingRecovered(c, skip, o, s, t);
      assert Original(o, s).Keys == o.Keys;
    }
  }

  lemma SomeMember(names: seq<Bytes>)
    ensures names != [] ==> exists n :: n in names
  {
    if names != [] {
      assert names[0] in names;
    }
  }

  lemma NothingRecovered(c: Codec, skip: bool, o: Entries, s: Entries, t: Entries)
    requires Inverse(c) && Carries(t, c, skip, o, s) && Clean(s) && forall n :: !Changed(o, s, n) && !Added(o, s, n)
    ensures Recover(c, Names(t), t) == map[] && ToRemove(o, s) == []
  {
    hide Carries, Clean, Inverse, Recover, Names, ToRemove, ToBackUp;
    WhatIsBackedUp(o, s);
    SomeMember(ToRemove(o, s));
    var r := Recover(c, Names(t), t);
    if n :| n in r {
      var m := RecoveredFrom(c, skip, o, s, t, n);
    }
  }

  /**
    Restoring a backed up archive, with or without the marker files in between,
    gives back the original exactly when the backup is undoable.
  */
  lemma RestoreUndoesBackup(c: Codec, skip: bool, origin: Entries, entries: Entries, extra: Entries)
    requires Inverse(c) && PlainNames(entries) && extra.Keys <= {DIR, MAGISK}
    ensures var o, s := Rm(origin, DIR, true), Rm(entries, DIR, true);
            Restored(c, BackedUp(c, skip, origin, entries) + extra) == Original(o, s) <==> Undoable(c, skip, o, s)
  {
    hide Restored, Original, Undoable, Inverse, Rm, PlainNames, Clean;
    var o, s := Rm(origin, DIR, true), Rm(entries, DIR, true);
    RmMakesClean(entries);
    var t := BackedUp(c, skip, origin, entries) + extra;
    assert Carries(t, c, skip, o, s);
    if Undoable(c, skip, o, s) {
      UndoableIsUndone(c, skip, o, s, t);
    }
    if Restored(c, t) == Original(o, s) {
      UndoneIsUndoable(c, skip, o, s, t);
    }
  }

  /** With compression that never fails, only three things can go wrong with a changed entry. */
  lemma CompressedIsSafe(c: Codec, o: Entries, s: Entries, n: Bytes)
    requires (forall b :: c.encode(b).Some?) && Changed(o, s, n)
    ensures Lost(c, false, o, s, n) <==>
            if IsRegular(o[n]) then Changed(o, s, n + XZ) && !IsRegular(o[n + XZ])
            else n == RMLIST_NAME || n == MAGISK_NAME
  {
  }

  /** Where backup found no difference, restore clears the archive: it takes it for one without a backup. */
  lemma NoDifferenceIsCleared(c: Codec, skip: bool, origin: Entries, entries: Entries, extra: Entries)
    requires Inverse(c) && PlainNames(entries) && extra.Keys <= {DIR, MAGISK}
    requires var o, s := Rm(origin, DIR, true), Rm(entries, DIR, true);
             forall n :: !Changed(o, s, n) && !Added(o, s, n)
    ensures Restored(c, BackedUp(c, skip, origin, entries) + extra) == map[]
  {
    hide Restored, Inverse, Rm, PlainNames, Clean, Recover, Names, ToRemove, RemoveAll;
    var o, s := Rm(origin, DIR, true), Rm(entries, DIR, true);
    RmMakesClean(entries);
    var t := BackedUp(c, skip, origin, entries) + extra;
    assert Carries(t, c, skip, o, s);
    hide Carries, BackedUp, Changed, Added;
    RestoredIs(c, skip, o, s, t);
    NothingRecovered(c, skip, o, s, t);
  }
}
