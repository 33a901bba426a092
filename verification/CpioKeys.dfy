/** The entries a backup is made of, and what each becomes again, spelled out in bytes and mode bits. */
module CpioKeys {
  import opened Bytes
  import opened CpioFormat
  import opened CpioPaths
  import opened CpioBackup
  import opened CpioRestore
  import opened CpioUndo

  /** A regular file: the type bits 0170000 of the mode are 0100000. */
  predicate FileMode(mode: u32) { 0x8000 <= mode % 0x10000 < 0x9000 }

  lemma FileModeIsRegular(e: Entry)
    ensures IsRegular(e) <==> FileMode(e.mode)
  {
  }

  /** The entry is kept compressed. */
  predicate Packs(c: Codec, skip: bool, e: Entry) { !skip && FileMode(e.mode) && c.encode(e.data).Some? }

  /** `.backup/` and the name, and `.xz` if it is packed. */
  function BackupKey(c: Codec, skip: bool, n: Bytes, e: Entry): Bytes {
    [0x2E, 0x62, 0x61, 0x63, 0x6B, 0x75, 0x70, 0x2F] + n + if Packs(c, skip, e) then [0x2E, 0x78, 0x7A] else []
  }

  lemma StoredUnder(c: Codec, skip: bool, n: Bytes, e: Entry)
    ensures Stored(c, skip, n, e).name == BackupKey(c, skip, n, e)
    ensures Stored(c, skip, n, e).entry == if Packs(c, skip, e) then e.(data := c.encode(e.data).value) else e
  {
    FileModeIsRegular(e);
    assert PREFIX + n + [] == PREFIX + n;
  }

  /** Another changed entry takes the place of this one in the backup. */
  ghost predicate Displaced(c: Codec, skip: bool, o: Entries, s: Entries, n: Bytes)
    requires n in o
  {
    if Packs(c, skip, o[n])
    then Changed(o, s, n + [0x2E, 0x78, 0x7A]) && !Packs(c, skip, o[n + [0x2E, 0x78, 0x7A]])
    else n == [0x2E, 0x72, 0x6D, 0x6C, 0x69, 0x73, 0x74] && exists m :: Added(o, s, m)   // .rmlist
  }

  lemma LastKept(c: Codec, skip: bool, o: Entries, s: Entries, n: Bytes, i: nat, key: Bytes)
    requires Changed(o, s, n) && !Displaced(c, skip, o, s, n) && key == Stored(c, skip, n, o[n]).name
    requires i < |ToBackUp(o, s)| && ToBackUp(o, s)[i] in o
    requires Stored(c, skip, ToBackUp(o, s)[i], o[ToBackUp(o, s)[i]]).name == key
    requires forall j :: i < j < |ToBackUp(o, s)| ==>
               ToBackUp(o, s)[j] in o && Stored(c, skip, ToBackUp(o, s)[j], o[ToBackUp(o, s)[j]]).name != key
    ensures ToBackUp(o, s)[i] == n
  {
    var m := ToBackUp(o, s)[i];
    LastIsNotOverwritten(c, skip, o, s, i, key);
    WhatIsBackedUp(o, s);
    hide ToBackUp, Stored;
    if m != n {
      SharedKey(c, skip, o, n, m);
      FileModeIsRegular(o[n]);
      FileModeIsRegular(o[m]);
    }
  }

  lemma KeptEntry(c: Codec, skip: bool, o: Entries, s: Entries, n: Bytes)
    requires Changed(o, s, n) && !Displaced(c, skip, o, s, n)
    requires forall m :: m in ToBackUp(o, s) ==> m in o
    ensures var k := Stored(c, skip, n, o[n]);
            k.name in Kept(c, skip, ToBackUp(o, s), o) && Kept(c, skip, ToBackUp(o, s), o)[k.name] == k.entry
  {
    hide Stored, ToBackUp, Kept, Displaced;
    WhatIsBackedUp(o, s);
    var key := Stored(c, skip, n, o[n]).name;
    KeptHas(c, skip, ToBackUp(o, s), o, n);
    var i := KeptFrom(c, skip, ToBackUp(o, s), o, key);
    LastKept(c, skip, o, s, n, i, key);
  }

  /**
    Where backup puts a changed original: a regular file that can be compressed
    under `.backup/`, its name and `.xz`, with the compressed data; anything else
    under `.backup/` and its name, as it is.
  */
  lemma BackedUpUnder(c: Codec, skip: bool, origin: Entries, entries: Entries, n: Bytes)
    requires var dir := [0x2E, 0x62, 0x61, 0x63, 0x6B, 0x75, 0x70];   // .backup
             Changed(Rm(origin, dir, true), Rm(entries, dir, true), n) &&
             !Displaced(c, skip, Rm(origin, dir, true), Rm(entries, dir, true), n)
    ensures var o := Rm(origin, [0x2E, 0x62, 0x61, 0x63, 0x6B, 0x75, 0x70], true);
            var key, t := BackupKey(c, skip, n, o[n]), BackedUp(c, skip, origin, entries);
            key in t && t[key] == if Packs(c, skip, o[n]) then o[n].(data := c.encode(o[n].data).value) else o[n]
  {
    hide Rm, Kept, Stored, Displaced, ToBackUp, ToRemove, RmList, Packs;
    var o, s := Rm(origin, DIR, true), Rm(entries, DIR, true);
    WhatIsBackedUp(o, s);
    StoredUnder(c, skip, n, o[n]);
    KeptEntry(c, skip, o, s, n);
    KeyIsOwn(c, skip, o, s, n);
  }

  lemma KeyIsOwn(c: Codec, skip: bool, o: Entries, s: Entries, n: Bytes)
    requires Changed(o, s, n) && !Displaced(c, skip, o, s, n)
    ensures BackupKey(c, skip, n, o[n]) == RMLIST ==> RmList(ToRemove(o, s)) == []
  {
    hide ToRemove;
    StoredUnder(c, skip, n, o[n]);
    ReservedKey(c, skip, o, n);
    FileModeIsRegular(o[n]);
    WhatIsBackedUp(o, s);
    SomeMember(ToRemove(o, s));
  }

  /**
    The markers: an empty directory `.backup`, and, if names were added, the file `.backup/.rmlist` that lists them.
  */
  lemma MarkersUnder(c: Codec, skip: bool, origin: Entries, entries: Entries)
    ensures var t := BackedUp(c, skip, origin, entries);
            var dir := [0x2E, 0x62, 0x61, 0x63, 0x6B, 0x75, 0x70];
            var o, s := Rm(origin, dir, true), Rm(entries, dir, true);
            var rmlist := dir + [0x2F, 0x2E, 0x72, 0x6D, 0x6C, 0x69, 0x73, 0x74];
            dir in t && t[dir] == Entry(0x4000, 0, 0, 0, 0, []) &&
            ((exists m :: Added(o, s, m)) ==>
               rmlist in t && t[rmlist] == Entry(0x8000, 0, 0, 0, 0, RmList(ToRemove(o, s))))
  {
    hide Rm, Kept, ToBackUp, ToRemove, RmList;
    var o, s := Rm(origin, DIR, true), Rm(entries, DIR, true);
    WhatIsBackedUp(o, s);
    KeptArePrefixed(c, skip, ToBackUp(o, s), o);
    SpecialKeys();
    assert DIR + [0x2F, 0x2E, 0x72, 0x6D, 0x6C, 0x69, 0x73, 0x74] == RMLIST;
    if m :| Added(o, s, m) {
      SomeList(ToRemove(o, s), m);
    }
  }

  lemma SomeList(names: seq<Bytes>, m: Bytes)
    requires m in names
    ensures RmList(names) != []
  {
  }

  /* ----- restore ----- */

  /** Whether a key is restored unpacked. */
  predicate Unpacks(c: Codec, e: Entry) { FileMode(e.mode) && c.decode(e.data).Some? }

  lemma {:induction false} RecoverLast(c: Codec, keys: seq<Bytes>, a: Entries, n: Bytes) returns (i: nat)
    requires (forall k :: k in keys ==> k in a) && n in Recover(c, keys, a)
    ensures i < |keys| && keys[i] in a && Recoverable(keys[i])
    ensures Recovered(c, keys[i], a[keys[i]]) == Named(n, Recover(c, keys, a)[n])
    ensures forall j :: i < j < |keys| && Recoverable(keys[j]) ==>
              keys[j] in a && Recovered(c, keys[j], a[keys[j]]).name != n
    decreases |keys|
  {
    hide Recovered;
    var l := |keys| - 1;
    if Recoverable(keys[l]) && Recovered(c, keys[l], a[keys[l]]).name == n {
      i := l;
    } else {
      i := RecoverLast(c, keys[..l], a, n);
    }
  }

  /** The name a key is restored under, and how. */
  lemma RecoveredAs(c: Codec, n: Bytes, e: Entry)
    ensures var raw := [0x2E, 0x62, 0x61, 0x63, 0x6B, 0x75, 0x70, 0x2F] + n;
            PREFIX <= raw && PREFIX <= raw + XZ &&
            Recovered(c, raw + [0x2E, 0x78, 0x7A], e) ==
              (if Unpacks(c, e) then Named(n, e.(data := c.decode(e.data).value))
               else Named(n + [0x2E, 0x78, 0x7A], e)) &&
            (!EndsWith(n, [0x2E, 0x78, 0x7A]) || !Unpacks(c, e) ==> Recovered(c, raw, e) == Named(n, e))
  {
    FileModeIsRegular(e);
    var raw := PREFIX + n;
    var packed := raw + XZ;
    assert raw[8..] == n && packed[8..] == n + XZ && packed[8..|packed| - 3] == n;
    assert (n + XZ)[|n + XZ| - 3..] == XZ;
  }

  /** Only two keys are restored under a name. */
  lemma KeysOf(c: Codec, k: Bytes, e: Entry, n: Bytes)
    requires PREFIX <= k && Recovered(c, k, e).name == n
    ensures var raw := [0x2E, 0x62, 0x61, 0x63, 0x6B, 0x75, 0x70, 0x2F] + n;
            k == raw || (k == raw + [0x2E, 0x78, 0x7A] && Unpacks(c, e))
  {
    FileModeIsRegular(e);
    assert k == PREFIX + k[8..];
    if EndsWith(k[8..], XZ) && Decompress(c, e).Some? {
      assert k[8..] == k[8..|k| - 3] + k[8..][|k[8..]| - 3..];
    }
  }

  lemma ShorterIsEarlier(names: seq<Bytes>, i: nat, j: nat, x: Bytes)
    requires Ascending(names) && i < |names| && j < |names| && names[j] == names[i] + x && x != []
    ensures i < j
  {
    hide Less;
    LessExtended(names[i], x);
    LessAsymmetric(names[i], names[j]);
    assert names[i] != names[j];
  }

  lemma RestoredHas(c: Codec, a: Entries, n: Bytes)
    requires n in Recover(c, Names(a), a)
    ensures n in Restored(c, a) && Restored(c, a)[n] == Recover(c, Names(a), a)[n]
  {
    hide Recover, Names, RemoveAll, Rm;
  }

  lemma UnpackedWins(c: Codec, a: Entries, n: Bytes, i: nat)
    requires var packed := PREFIX + n + XZ;
             packed in a && Unpacks(c, a[packed])
    requires i < |Names(a)| && Names(a)[i] in a && Recoverable(Names(a)[i])
    requires Recovered(c, Names(a)[i], a[Names(a)[i]]).name == n
    requires forall j :: i < j < |Names(a)| && Recoverable(Names(a)[j]) ==>
               Names(a)[j] in a && Recovered(c, Names(a)[j], a[Names(a)[j]]).name != n
    ensures Names(a)[i] == PREFIX + n + XZ
  {
    var packed := PREFIX + n + XZ;
    RecoveredAs(c, n, a[packed]);
    PackedIsRecoverable(n);
    KeysOf(c, Names(a)[i], a[Names(a)[i]], n);
    NamesAscending(a);
    hide Recovered, Names, Unpacks, Recoverable;
    assert packed in Names(a);
    var j :| 0 <= j < |Names(a)| && Names(a)[j] == packed;
    if Names(a)[i] == PREFIX + n {
      ShorterIsEarlier(Names(a), i, j, XZ);
    }
  }

  lemma PackedIsRecoverable(n: Bytes)
    ensures Recoverable(PREFIX + n + XZ)
  {
    var z := PREFIX + n + XZ;
    assert z[|z| - 1] == 0x7A;
    assert RMLIST[|RMLIST| - 1] == 0x74 && MAGISK[|MAGISK| - 1] == 0x6B;
  }

  /**
    What restore makes of any archive, name by name: a regular file kept under
    `.backup/`, the name and `.xz` that decodes comes back decoded; otherwise what
    is kept under `.backup/` and the name comes back as it is, unless that key is
    a marker or is itself unpacked to a shorter name.
  */
  lemma RestoredFrom(c: Codec, a: Entries, n: Bytes)
    ensures var raw := [0x2E, 0x62, 0x61, 0x63, 0x6B, 0x75, 0x70, 0x2F] + n;
            var packed := raw + [0x2E, 0x78, 0x7A];
            var marker := n == [0x2E, 0x72, 0x6D, 0x6C, 0x69, 0x73, 0x74] ||
                          n == [0x2E, 0x6D, 0x61, 0x67, 0x69, 0x73, 0x6B];
            if packed in a && Unpacks(c, a[packed])
            then n in Restored(c, a) && Restored(c, a)[n] == a[packed].(data := c.decode(a[packed].data).value)
            else raw in a && !marker && !(EndsWith(n, [0x2E, 0x78, 0x7A]) && Unpacks(c, a[raw])) ==>
                   n in Restored(c, a) && Restored(c, a)[n] == a[raw]
  {
    hide Recovered, Names, Unpacks, Recover, Restored, Recoverable;
    var raw := PREFIX + n;
    var packed := raw + XZ;
    if packed in a && Unpacks(c, a[packed]) {
      RecoveredAs(c, n, a[packed]);
      PackedIsRecoverable(n);
      RecoverHas(c, Names(a), a, packed);
      var i := RecoverLast(c, Names(a), a, n);
      UnpackedWins(c, a, n, i);
      RestoredHas(c, a, n);
    } else if raw in a && n != RMLIST_NAME && n != MAGISK_NAME && !(EndsWith(n, XZ) && Unpacks(c, a[raw])) {
      RecoveredAs(c, n, a[raw]);
      RawIsRecoverable(n);
      RecoverHas(c, Names(a), a, raw);
      var i := RecoverLast(c, Names(a), a, n);
      RecoverableHasPrefix(Names(a)[i]);
      KeysOf(c, Names(a)[i], a[Names(a)[i]], n);
      RestoredHas(c, a, n);
    }
  }

  lemma RecoverableHasPrefix(k: Bytes)
    requires Recoverable(k)
    ensures PREFIX <= k
  {
  }

  lemma RawIsRecoverable(n: Bytes)
    requires n != RMLIST_NAME && n != MAGISK_NAME
    ensures Recoverable(PREFIX + n)
  {
    assert (PREFIX + n)[8..] == n && RMLIST[8..] == RMLIST_NAME && MAGISK[8..] == MAGISK_NAME;
  }

  /* ----- the entries that were not kept ----- */

  /** A piece of the list between zeros. */
  ghost predicate PieceAt(list: Bytes, i: int, j: int) {
    0 <= i < j <= |list| && (i == 0 || list[i - 1] == 0) && (j == |list| || list[j] == 0) &&
    forall k :: i <= k < j ==> list[k] != 0
  }

  lemma LaterPiece(list: Bytes, n: nat, i: int, j: int)
    requires n < |list| && list[n] == 0 && i >= 0
    ensures PieceAt(list[n + 1..], i, j) <==> PieceAt(list, i + n + 1, j + n + 1)
  {
    var rest := list[n + 1..];
    assert forall k :: 0 <= k < |rest| ==> rest[k] == list[k + n + 1];
    if PieceAt(list, i + n + 1, j + n + 1) {
      forall k | i <= k < j ensures rest[k] != 0 {
        assert list[k + n + 1] != 0;
      }
    }
  }

  lemma FirstPiece(list: Bytes, i: int, j: int)
    requires PieceAt(list, i, j)
    ensures var n := UpTo(list, 0); if i <= n then i == 0 && j == n else n < |list|
  {
    var n := UpTo(list, 0);
    assert forall k :: 0 <= k < n ==> list[k] == list[..n][k] && list[k] != 0;
  }

  /** A name on the list. */
  ghost predicate OnList(list: Bytes, x: Bytes) { exists i, j :: PieceAt(list, i, j) && x == list[i..j] }

  lemma PutOnList(list: Bytes, i: nat, j: nat)
    requires PieceAt(list, i, j)
    ensures j <= |list| && OnList(list, list[i..j])
  {
  }

  lemma PieceOnList(list: Bytes, x: Bytes) returns (i: nat, j: nat)
    requires OnList(list, x)
    ensures i < j <= |list| && PieceAt(list, i, j) && x == list[i..j]
  {
    i, j :| PieceAt(list, i, j) && x == list[i..j];
  }

  lemma FrontOnList(list: Bytes)
    requires UpTo(list, 0) > 0
    ensures OnList(list, list[..UpTo(list, 0)])
  {
    hide OnList;
    var n := UpTo(list, 0);
    assert forall k :: 0 <= k < n ==> list[k] == list[..n][k] && list[k] != 0;
    PutOnList(list, 0, n);
    assert list[..n] == list[0..n];
  }

  lemma RestOnList(list: Bytes, n: nat, x: Bytes)
    requires n < |list| && list[n] == 0 && OnList(list[n + 1..], x)
    ensures OnList(list, x)
  {
    hide OnList, PieceAt;
    var i, j := PieceOnList(list[n + 1..], x);
    LaterPiece(list, n, i, j);
    PutOnList(list, i + n + 1, j + n + 1);
    SliceLater(list, n, i + n + 1, j + n + 1);
  }

  lemma SliceLater(list: Bytes, n: nat, i: nat, j: nat)
    requires n < i < j <= |list|
    ensures list[n + 1..][i - n - 1..j - n - 1] == list[i..j]
  {
  }

  lemma PieceBehind(list: Bytes, n: nat, i: nat, j: nat)
    requires n < i < j <= |list| && list[n] == 0 && PieceAt(list, i, j)
    ensures OnList(list[n + 1..], list[i..j])
  {
    hide OnList, PieceAt;
    LaterPiece(list, n, i - n - 1, j - n - 1);
    SliceLater(list, n, i, j);
    PutOnList(list[n + 1..], i - n - 1, j - n - 1);
  }

  lemma OnListWhere(list: Bytes, x: Bytes)
    requires OnList(list, x)
    ensures var n := UpTo(list, 0);
            x == list[..n] || (n < |list| && OnList(list[n + 1..], x))
  {
    hide OnList, PieceAt;
    var n := UpTo(list, 0);
    var i, j := PieceOnList(list, x);
    FirstPiece(list, i, j);
    if i > n {
      PieceBehind(list, n, i, j);
    }
  }

  lemma {:induction false} PiecesOfList(list: Bytes, x: Bytes)
    requires x != []
    ensures x in Split(list, 0) <==> OnList(list, x)
    decreases |list|
  {
    hide OnList;
    var n := UpTo(list, 0);
    if x == list[..n] {
      FrontOnList(list);
    }
    if OnList(list, x) {
      OnListWhere(list, x);
    }
    if n < |list| {
      PiecesOfList(list[n + 1..], x);
      if OnList(list[n + 1..], x) {
        RestOnList(list, n, x);
      }
    } else {
      assert list[..n] == list;
    }
  }

  /** The names to remove, if they are text. */
  function ListIn(a: Entries): Bytes {
    var key := [0x2E, 0x62, 0x61, 0x63, 0x6B, 0x75, 0x70, 0x2F, 0x2E, 0x72, 0x6D, 0x6C, 0x69, 0x73, 0x74];
    if key in a && ValidUtf8(a[key].data) then a[key].data else []
  }

  /** Something under `.backup/` other than the two markers. */
  ghost predicate KeepsSomething(a: Entries) {
    exists k :: k in a && [0x2E, 0x62, 0x61, 0x63, 0x6B, 0x75, 0x70, 0x2F] <= k &&
      k != [0x2E, 0x62, 0x61, 0x63, 0x6B, 0x75, 0x70, 0x2F, 0x2E, 0x72, 0x6D, 0x6C, 0x69, 0x73, 0x74] &&
      k != [0x2E, 0x62, 0x61, 0x63, 0x6B, 0x75, 0x70, 0x2F, 0x2E, 0x6D, 0x61, 0x67, 0x69, 0x73, 0x6B]
  }

  lemma Literals(a: Entries)
    ensures ListIn(a) == CarriedList(a)
    ensures KeepsSomething(a) <==> exists k :: k in a && Recoverable(k)
  {
    assert RMLIST == [0x2E, 0x62, 0x61, 0x63, 0x6B, 0x75, 0x70, 0x2F, 0x2E, 0x72, 0x6D, 0x6C, 0x69, 0x73, 0x74];
    assert MAGISK == [0x2E, 0x62, 0x61, 0x63, 0x6B, 0x75, 0x70, 0x2F, 0x2E, 0x6D, 0x61, 0x67, 0x69, 0x73, 0x6B];
  }

  lemma SomethingRecovered(c: Codec, a: Entries)
    ensures Recover(c, Names(a), a) != map[] <==> exists k :: k in a && Recoverable(k)
  {
    hide Recover, Recoverable, Names;
    if k :| k in a && Recoverable(k) {
      RecoverHas(c, Names(a), a, k);
    }
    if n :| n in Recover(c, Names(a), a) {
      var i := RecoverLast(c, Names(a), a, n);
    }
  }

  /**
    Every other name of an archive stays, with its entry, unless it is `.backup`,
    stands under it, or is on the list; without a list and anything kept the
    archive is emptied.
  */
  lemma RestoredOthers(c: Codec, a: Entries, n: Bytes)
    requires var raw := [0x2E, 0x62, 0x61, 0x63, 0x6B, 0x75, 0x70, 0x2F] + n;
             raw !in a && raw + [0x2E, 0x78, 0x7A] !in a
    ensures n in Restored(c, a) <==>
            n in a && !([0x2E, 0x62, 0x61, 0x63, 0x6B, 0x75, 0x70, 0x2F] <= n) &&
            n != [0x2E, 0x62, 0x61, 0x63, 0x6B, 0x75, 0x70] && (ListIn(a) != [] || KeepsSomething(a)) &&
            !exists x :: x != [] && OnList(ListIn(a), x) && NormPath(x) == n
    ensures n in Restored(c, a) ==> Restored(c, a)[n] == a[n]
  {
    hide Recovered, Names, Recover, Recoverable, RemoveAll, Split, CarriedList, ListIn, KeepsSomething, OnList;
    hide NormPath, Rm;
    Literals(a);
    SomethingRecovered(c, a);
    var list, base := CarriedList(a), Rm(WithoutPrefix(a), DIR, false);
    RemoveAllKeys(base, Split(list, 0));
    forall x | x != [] ensures x in Split(list, 0) <==> OnList(list, x) {
      PiecesOfList(list, x);
    }
    if n in Recover(c, Names(a), a) {
      var i := RecoverLast(c, Names(a), a, n);
      RecoverableHasPrefix(Names(a)[i]);
      KeysOf(c, Names(a)[i], a[Names(a)[i]], n);
      assert false;
    }
    DirGone(a, n);
  }

  lemma DirGone(a: Entries, n: Bytes)
    ensures n in Rm(WithoutPrefix(a), DIR, false) <==> n in a && !(PREFIX <= n) && n != DIR
    ensures n in Rm(WithoutPrefix(a), DIR, false) ==> Rm(WithoutPrefix(a), DIR, false)[n] == a[n]
  {
    hide NormPath;
    DirIsNormal();
  }
}
