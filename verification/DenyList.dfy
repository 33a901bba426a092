/** The deny list: packages and their processes, an index by app id, and the database behind them. */
module DenyList {
  const ISOLATED: string := "isolated"
  const AID_USER_OFFSET: nat := 100000
  const ISOLATED_START: nat := 90000

  datatype Response = OK | ERROR | ITEM_EXIST | ITEM_NOT_EXIST | INVALID_PKG

  type Row = (string, string)

  /** The app id of each installed package, 0 for one that is not installed. */
  type AppIds = string -> nat

  /* ----- names ----- */

  predicate Alnum(c: char) { 'a' <= c <= 'z' || 'A' <= c <= 'Z' || '0' <= c <= '9' }

  predicate Legal(s: string, extra: set<char>) { forall i :: 0 <= i < |s| ==> Alnum(s[i]) || s[i] in extra }

  /** Up to the first colon. */
  function Stem(s: string): string { if s == [] || s[0] == ':' then [] else [s[0]] + Stem(s[1..]) }

  predicate ValidNames(pkg: string, proc: string) {
    if pkg == ISOLATED then Legal(Stem(proc), {'_', '.'})
    else Legal(pkg, {'_', '.'}) && '.' in pkg && Legal(proc, {'_', ':', '.'})
  }

  lemma {:induction false} StemPrefix(s: string, i: nat)
    requires i <= |s| && ':' !in s[..i]
    ensures i < |s| && s[i] == ':' ==> Stem(s) == s[..i]
    ensures i == |s| ==> Stem(s) == s
    ensures i < |s| && s[i] != ':' ==> s[..i + 1] <= Stem(s)
    decreases |s|
  {
    if i > 0 {
      assert s[0] == s[..i][0];
      assert s[1..][..i - 1] == s[..i][1..];
      StemPrefix(s[1..], i - 1);
      assert s == [s[0]] + s[1..];
    }
  }

  method Validate(pkg: string, proc: string) returns (ok: bool)
    ensures ok <==> ValidNames(pkg, proc)
  {
    var pkgValid, procValid := false, true;
    if pkg == ISOLATED {
      pkgValid := true;
      var i := 0;
      while i < |proc|
        invariant i <= |proc| && procValid && pkgValid
        invariant ':' !in proc[..i] && Legal(proc[..i], {'_', '.'})
      {
        StemPrefix(proc, i);
        if Alnum(proc[i]) || proc[i] == '_' || proc[i] == '.' {
          i := i + 1;
          continue;
        }
        if proc[i] != ':' {
          assert Stem(proc)[i] == proc[i];
          procValid := false;
        }
        break;
      }
      if i == |proc| {
        StemPrefix(proc, i);
        assert proc[..i] == proc;
      }
    } else {
      var i := 0;
      while i < |pkg|
        invariant i <= |pkg| && Legal(pkg[..i], {'_', '.'}) && (pkgValid <==> '.' in pkg[..i])
      {
        if pkg[i] == '.' {
          pkgValid := true;
        } else if !(Alnum(pkg[i]) || pkg[i] == '_') {
          pkgValid := false;
          break;
        }
        i := i + 1;
      }
      assert i == |pkg| ==> pkg[..i] == pkg;
      i := 0;
      while i < |proc|
        invariant i <= |proc| && procValid && Legal(proc[..i], {'_', ':', '.'})
      {
        if !(Alnum(proc[i]) || proc[i] == '_' || proc[i] == ':' || proc[i] == '.') {
          procValid := false;
          break;
        }
        i := i + 1;
      }
      assert i == |proc| ==> proc[..i] == proc;
    }
    return pkgValid && procValid;
  }

  /* ----- what the list means ----- */

  function Rows(procs: map<string, set<string>>): set<Row> {
    set p, q | p in procs && q in procs[p] :: (p, q)
  }

  function ProcessesOf(procs: map<string, set<string>>, p: string): set<string> { if p in procs then procs[p] else {} }

  /** The packages of one app id. */
  function At(index: map<nat, set<string>>, a: nat): set<string> { if a in index then index[a] else {} }

  /** Installed, or not a package at all. */
  predicate Live(ids: AppIds, p: string) { p == ISOLATED || ids(p) != 0 }

  /** The rows a scan leaves. */
  function Purged(rows: set<Row>, ids: AppIds): set<Row> { set r | r in rows && Live(ids, r.0) }

  /**
    A process is on the list if one of its app's packages lists it, or, for an isolated one, if a listed name begins its
    name.
  */
  predicate IsTarget(rows: set<Row>, ids: AppIds, uid: nat, process: string) {
    var app := uid % AID_USER_OFFSET;
    if app >= ISOLATED_START then exists r :: r in rows && r.0 == ISOLATED && r.1 <= process
    else exists r :: r in rows && r.0 != ISOLATED && ids(r.0) == app && r.1 == process
  }

  /** The index is the inverse image of the packages, and holds nothing else. */
  ghost predicate Inverse(index: map<nat, set<string>>, packages: set<string>, ids: AppIds) {
    (forall a, p :: p in At(index, a) <==> a != 0 && p in packages && p != ISOLATED && ids(p) == a) &&
    (forall a :: a in index ==> index[a] != {})
  }

  ghost predicate NoEmpty(procs: map<string, set<string>>) { forall p :: p in procs ==> procs[p] != {} }

  lemma RowOf(procs: map<string, set<string>>, p: string, q: string)
    ensures (p, q) in Rows(procs) <==> p in procs && q in procs[p]
  {
  }

  lemma RowsAdd(procs: map<string, set<string>>, p: string, q: string)
    ensures Rows(procs[p := ProcessesOf(procs, p) + {q}]) == Rows(procs) + {(p, q)}
  {
    var next := procs[p := ProcessesOf(procs, p) + {q}];
    forall r ensures r in Rows(next) <==> r in Rows(procs) + {(p, q)} {
      RowOf(next, r.0, r.1);
      RowOf(procs, r.0, r.1);
    }
  }

  lemma RowsDrop(procs: map<string, set<string>>, p: string)
    ensures Rows(procs - {p}) == set r | r in Rows(procs) && r.0 != p
  {
    forall r ensures r in Rows(procs - {p}) <==> r in Rows(procs) && r.0 != p {
      RowOf(procs - {p}, r.0, r.1);
      RowOf(procs, r.0, r.1);
    }
  }

  lemma RowsRemove(procs: map<string, set<string>>, p: string, q: string)
    requires p in procs
    ensures Rows(procs[p := procs[p] - {q}]) == Rows(procs) - {(p, q)}
  {
    var next := procs[p := procs[p] - {q}];
    forall r ensures r in Rows(next) <==> r in Rows(procs) - {(p, q)} {
      RowOf(next, r.0, r.1);
      RowOf(procs, r.0, r.1);
    }
  }

  lemma InverseAdd(before: map<nat, set<string>>, after: map<nat, set<string>>, packages: set<string>, ids: AppIds,
                   p: string)
    requires Inverse(before, packages, ids) && Live(ids, p)
    requires if p == ISOLATED then after == before else after == before[ids(p) := At(before, ids(p)) + {p}]
    ensures Inverse(after, packages + {p}, ids)
  {
    forall a, q ensures q in At(after, a) <==> a != 0 && q in packages + {p} && q != ISOLATED && ids(q) == a {
      assert q in At(before, a) <==> a != 0 && q in packages && q != ISOLATED && ids(q) == a;
      if p != ISOLATED {
        assert At(after, a) == if a == ids(p) then At(before, a) + {p} else At(before, a);
      }
    }
  }

  lemma InverseRemove(before: map<nat, set<string>>, after: map<nat, set<string>>, packages: set<string>, ids: AppIds,
                      p: string)
    requires Inverse(before, packages, ids)
    requires p == ISOLATED ==> after == before
    requires forall a :: At(after, a) == if p != ISOLATED && a == ids(p) then At(before, a) - {p} else At(before, a)
    requires forall a :: a in after ==> after[a] != {}
    ensures Inverse(after, packages - {p}, ids)
  {
    forall a, q ensures q in At(after, a) <==> a != 0 && q in packages - {p} && q != ISOLATED && ids(q) == a {
      assert q in At(before, a) <==> a != 0 && q in packages && q != ISOLATED && ids(q) == a;
    }
  }

  class Daemon {
    var loaded: bool
    var procs: map<string, set<string>>
    var index: map<nat, set<string>>
    var rows: set<Row>

    /** The index was built with these app ids and is up to date. */
    ghost predicate Valid(ids: AppIds)
      reads `loaded, `procs, `index
    {
      if loaded then NoEmpty(procs) && Inverse(index, procs.Keys, ids) && forall p :: p in procs ==> Live(ids, p)
      else procs == map[] && index == map[]
    }

    /** The database holds the list. */
    ghost predicate Synced()
      reads this
    {
      loaded ==> rows == Rows(procs)
    }

    /** The list as a request finds it: a daemon that has not loaded it yet does so first. */
    ghost function Listed(ids: AppIds): set<Row>
      reads this
    {
      if loaded then Rows(procs) else Purged(rows, ids)
    }

    constructor (db: set<Row>)
      ensures !loaded && procs == map[] && index == map[] && rows == db
    {
      loaded, procs, index, rows := false, map[], map[], db;
    }

    /** Adds a package to the index or takes it out; an app id that is left without packages goes too. */
    method UpdateAppId(app: int, pkg: string, remove: bool)
      requires forall a :: a in index ==> index[a] != {}
      modifies `index
      ensures app <= 0 ==> index == old(index)
      ensures app > 0 && !remove ==> index == old(index)[app := At(old(index), app) + {pkg}]
      ensures forall a :: a in index ==> index[a] != {}
      ensures app > 0 && remove ==>
                forall a :: At(index, a) == if a == app then At(old(index), a) - {pkg} else At(old(index), a)
    {
      if app <= 0 {
        return;
      }
      if remove {
        if app in index {
          index := index[app := index[app] - {pkg}];
          if index[app] == {} {
            index := index - {app};
          }
        }
      } else {
        index := index[app := At(index, app) + {pkg}];
      }
    }

    method AddHideSet(pkg: string, proc: string) returns (added: bool)
      requires NoEmpty(procs)
      modifies `procs
      ensures added <==> (pkg, proc) !in Rows(old(procs))
      ensures Rows(procs) == Rows(old(procs)) + {(pkg, proc)}
      ensures NoEmpty(procs) && procs.Keys == old(procs).Keys + {pkg}
    {
      RowsAdd(procs, pkg, proc);
      RowOf(procs, pkg, proc);
      added := proc !in ProcessesOf(procs, pkg);
      procs := procs[pkg := ProcessesOf(procs, pkg) + {proc}];
    }

    /** One package of a scan. */
    method ScanPackage(ids: AppIds, p: string, write: bool, ghost seen: set<string>)
      requires p in procs && NoEmpty(procs) && Inverse(index, seen, ids)
      modifies `procs, `index, `rows
      ensures procs == if Live(ids, p) then old(procs) else old(procs) - {p}
      ensures Inverse(index, if Live(ids, p) then seen + {p} else seen, ids)
      ensures write && old(rows) == Rows(old(procs)) ==> rows == Rows(procs)
    {
      hide Rows;
      if p != ISOLATED && ids(p) == 0 {
        if write {
          RowsDrop(procs, p);
          rows := set r | r in rows && r.0 != p;
        }
        procs := procs - {p};
      } else {
        ghost var before := index;
        if p != ISOLATED {
          UpdateAppId(ids(p), p, false);
        }
        InverseAdd(before, index, seen, ids, p);
      }
    }

    /** Forgets the packages that are gone, here and in the database, and builds the index anew. */
    method Scan(ids: AppIds, write: bool)
      requires loaded && NoEmpty(procs)
      modifies `procs, `index, `rows
      ensures Valid(ids)
      ensures Rows(procs) == Purged(Rows(old(procs)), ids)
      ensures write && old(Synced()) ==> Synced()
    {
      hide Rows, Inverse, Live, Kept, NoEmpty, Purged;
      index := map[];
      var todo := procs.Keys;
      InverseEmpty(ids);
      ghost var was := procs;
      ghost var seen := {};
      KeptStart(was, ids);
      while todo != {}
        invariant Kept(was, procs, todo, ids) && NoEmpty(was) && todo <= was.Keys
        invariant seen == procs.Keys - todo
        invariant Inverse(index, seen, ids)
        invariant write && old(Synced()) ==> rows == Rows(procs)
        decreases |todo|
      {
        var p :| p in todo;
        KeptStep(was, procs, todo, ids, p);
        ScanPackage(ids, p, write, seen);
        seen := if Live(ids, p) then seen + {p} else seen;
        todo := todo - {p};
      }
      PurgedRows(was, procs, ids);
    }

    /** Reads the rows of the database. */
    method LoadRows()
      modifies `procs
      ensures NoEmpty(procs) && Rows(procs) == rows
    {
      hide Rows;
      procs := map[];
      NoRows();
      var todo := rows;
      ghost var done: set<Row> := {};
      while todo != {}
        invariant NoEmpty(procs) && Rows(procs) == done && done + todo == rows
        decreases |todo|
      {
        var r :| r in todo;
        var added := AddHideSet(r.0, r.1);
        done := done + {(r.0, r.1)};
        todo := todo - {r};
      }
    }

    /** Loads the list if that has not happened yet. */
    method EnsureData(ids: AppIds, select: bool, write: bool) returns (ok: bool)
      requires Valid(ids)
      modifies this
      ensures Valid(ids) && loaded == ok == (old(loaded) || select)
      ensures !ok || old(loaded) ==> rows == old(rows) && procs == old(procs) && index == old(index)
      ensures ok ==> Rows(procs) == old(Listed(ids))
      ensures write && old(Synced()) ==> Synced()
    {
      hide Rows, Inverse, Live, Purged, NoEmpty;
      if loaded {
        return true;
      }
      if !select {
        return false;
      }
      loaded, index := true, map[];
      LoadRows();
      Scan(ids, write);
      return true;
    }

    /** The app id the daemon looks up for a request. */
    static function AppId(ids: AppIds, pkg: string): int { if pkg == ISOLATED then -1 else ids(pkg) }

    /** Puts an entry into the maps. */
    method AddEntry(ids: AppIds, pkg: string, proc: string) returns (added: bool)
      requires Valid(ids) && loaded && Live(ids, pkg)
      modifies `procs, `index
      ensures Valid(ids)
      ensures added <==> (pkg, proc) !in Rows(old(procs))
      ensures Rows(procs) == Rows(old(procs)) + {(pkg, proc)}
    {
      hide Rows, Inverse;
      ghost var before, was := index, procs;
      NoEmptyIds(index, procs.Keys, ids);
      added := AddHideSet(pkg, proc);
      if !added {
        KeyOf(was, pkg, proc);
        assert procs.Keys == was.Keys;
        return;
      }
      UpdateAppId(AppId(ids, pkg), pkg, false);
      InverseAdd(before, index, was.Keys, ids, pkg);
    }

    /** What the daemon answers to a request to add, in terms of the list alone. */
    ghost function AddAnswer(ids: AppIds, pkg: string, proc: string, select: bool, write: bool): Response
      reads this
    {
      if !ValidNames(pkg, proc) then INVALID_PKG
      else if !loaded && !select then ERROR
      else if !Live(ids, pkg) then INVALID_PKG
      else if (pkg, proc) in Listed(ids) then ITEM_EXIST
      else if write then OK
      else ERROR
    }

    method AddList(ids: AppIds, pkg: string, process: string, select: bool, write: bool) returns (r: Response)
      requires Valid(ids)
      modifies this
      ensures Valid(ids) && (!loaded ==> rows == old(rows))
      ensures loaded == (old(loaded) || (select && ValidNames(pkg, if process == [] then pkg else process)))
      ensures write && old(Synced()) ==> Synced()
      ensures var proc := if process == [] then pkg else process;
              r == old(AddAnswer(ids, pkg, proc, select, write)) &&
              Listed(ids) == if ValidNames(pkg, proc) && (old(loaded) || select) && Live(ids, pkg)
                             then old(Listed(ids)) + {(pkg, proc)} else old(Listed(ids))
    {
      hide Rows, Purged, ValidNames, Valid;
      var proc := if process == [] then pkg else process;
      var valid := Validate(pkg, proc);
      if !valid {
        return INVALID_PKG;
      }
      var ok := EnsureData(ids, select, write);
      if !ok {
        return ERROR;
      }
      if AppId(ids, pkg) == 0 {
        return INVALID_PKG;
      }
      var added := AddEntry(ids, pkg, proc);
      if !added {
        assert old(Listed(ids)) + {(pkg, proc)} == old(Listed(ids));
        return ITEM_EXIST;
      }
      if !write {
        return ERROR;
      }
      rows := rows + {(pkg, proc)};
      return OK;
    }

    /** Takes a package out of the maps. */
    method DropPackage(ids: AppIds, pkg: string)
      requires Inverse(index, procs.Keys, ids)
      modifies `procs, `index
      ensures Inverse(index, procs.Keys, ids) && procs == old(procs) - {pkg}
    {
      hide Inverse;
      ghost var before := index;
      NoEmptyIds(index, procs.Keys, ids);
      ZeroUnused(index, procs.Keys, ids, pkg);
      UpdateAppId(AppId(ids, pkg), pkg, true);
      InverseRemove(before, index, procs.Keys, ids, pkg);
      assert (procs - {pkg}).Keys == procs.Keys - {pkg};
      procs := procs - {pkg};
    }

    /** Takes an entry, or all of a package, out of the maps. */
    method RemoveEntry(ids: AppIds, pkg: string, proc: string) returns (removed: bool)
      requires Valid(ids) && loaded
      modifies `procs, `index
      ensures Valid(ids)
      ensures Rows(procs) == Without(Rows(old(procs)), pkg, proc)
      ensures removed <==> Rows(procs) != Rows(old(procs))
    {
      hide Rows, Inverse, Live;
      ghost var was := procs;
      WithoutRows(procs, pkg, proc);
      if pkg !in procs {
        return false;
      }
      if proc == [] {
        DropPackage(ids, pkg);
        return true;
      }
      if proc !in procs[pkg] {
        return false;
      }
      assert procs[pkg := procs[pkg] - {proc}].Keys == procs.Keys;
      procs := procs[pkg := procs[pkg] - {proc}];
      if procs[pkg] == {} {
        assert procs - {pkg} == was - {pkg};
        DropPackage(ids, pkg);
      }
      return true;
    }

    /** What the daemon answers to a request to remove, in terms of the list alone. */
    ghost function RemoveAnswer(ids: AppIds, pkg: string, proc: string, select: bool, write: bool): Response
      reads this
    {
      if !loaded && !select then ERROR
      else if Without(Listed(ids), pkg, proc) == Listed(ids) then ITEM_NOT_EXIST
      else if write then OK
      else ERROR
    }

    method RemoveList(ids: AppIds, pkg: string, proc: string, select: bool, write: bool) returns (r: Response)
      requires Valid(ids)
      modifies this
      ensures Valid(ids) && loaded == (old(loaded) || select) && (!loaded ==> rows == old(rows))
      ensures write && old(Synced()) ==> Synced()
      ensures r == old(RemoveAnswer(ids, pkg, proc, select, write))
      ensures Listed(ids) == if old(loaded) || select then Without(old(Listed(ids)), pkg, proc) else old(Listed(ids))
    {
      hide Rows, Purged, Valid, Without;
      var ok := EnsureData(ids, select, write);
      if !ok {
        return ERROR;
      }
      var removed := RemoveEntry(ids, pkg, proc);
      if !removed {
        return ITEM_NOT_EXIST;
      }
      if !write {
        return ERROR;
      }
      rows := Without(rows, pkg, proc);
      return OK;
    }

    /** Whether a process is on the list: the search through the index finds what a search of all rows would. */
    method IsDenyTarget(ids: AppIds, uid: nat, process: string, select: bool, write: bool) returns (found: bool)
      requires Valid(ids)
      modifies this
      ensures Valid(ids) && loaded == (old(loaded) || select) && (!loaded ==> rows == old(rows))
      ensures Listed(ids) == old(Listed(ids))
      ensures write && old(Synced()) ==> Synced()
      ensures found <==> (old(loaded) || select) && IsTarget(Listed(ids), ids, uid, process)
    {
      hide Rows, Purged, Inverse, NoEmpty, Live, IsTarget;
      var ok := EnsureData(ids, select, write);
      if !ok {
        return false;
      }
      var app := uid % AID_USER_OFFSET;
      if app >= ISOLATED_START {
        found := FindPrefix(ProcessesOf(procs, ISOLATED), process);
        IsolatedTarget(procs, ids, uid, process);
      } else {
        IndexKeys(index, procs.Keys, ids, app);
        found := FindProcess(At(index, app), process);
        AppTarget(procs, index, ids, uid, process);
      }
    }

    method FindPrefix(names: set<string>, process: string) returns (found: bool)
      ensures found <==> exists s :: s in names && s <= process
    {
      var todo := names;
      while todo != {}
        invariant todo <= names && forall s :: s in names && s <= process ==> s in todo
        decreases |todo|
      {
        var s :| s in todo;
        if s <= process {
          return true;
        }
        todo := todo - {s};
      }
      return false;
    }

    method FindProcess(packages: set<string>, process: string) returns (found: bool)
      requires packages <= procs.Keys
      ensures found <==> exists p :: p in packages && process in procs[p]
    {
      var todo := packages;
      while todo != {}
        invariant todo <= packages && forall p :: p in packages && process in procs[p] ==> p in todo
        decreases |todo|
      {
        var p :| p in todo;
        if process in procs[p] {
          return true;
        }
        todo := todo - {p};
      }
      return false;
    }
  }

  lemma IndexKeys(index: map<nat, set<string>>, packages: set<string>, ids: AppIds, a: nat)
    requires Inverse(index, packages, ids)
    ensures At(index, a) <= packages
  {
  }

  lemma IsolatedTarget(procs: map<string, set<string>>, ids: AppIds, uid: nat, process: string)
    requires uid % AID_USER_OFFSET >= ISOLATED_START
    ensures IsTarget(Rows(procs), ids, uid, process) <==>
            exists s :: s in ProcessesOf(procs, ISOLATED) && s <= process
  {
    var names := ProcessesOf(procs, ISOLATED);
    if s :| s in names && s <= process {
      RowOf(procs, ISOLATED, s);
    }
    if IsTarget(Rows(procs), ids, uid, process) {
      var r :| r in Rows(procs) && r.0 == ISOLATED && r.1 <= process;
      RowOf(procs, r.0, r.1);
      assert r.1 in names;
    }
  }

  lemma AppTarget(procs: map<string, set<string>>, index: map<nat, set<string>>, ids: AppIds, uid: nat, process: string)
    requires Inverse(index, procs.Keys, ids) && forall p :: p in procs ==> Live(ids, p)
    requires uid % AID_USER_OFFSET < ISOLATED_START
    requires At(index, uid % AID_USER_OFFSET) <= procs.Keys
    ensures IsTarget(Rows(procs), ids, uid, process) <==>
            exists p :: p in At(index, uid % AID_USER_OFFSET) && process in procs[p]
  {
    var app := uid % AID_USER_OFFSET;
    if p :| p in At(index, app) && process in procs[p] {
      RowOf(procs, p, process);
      assert (p, process) in Rows(procs);
    }
    if IsTarget(Rows(procs), ids, uid, process) {
      var r :| r in Rows(procs) && r.0 != ISOLATED && ids(r.0) == app && r.1 == process;
      RowOf(procs, r.0, r.1);
      assert r.0 in At(index, app);
    }
  }

  /** All rows but the named one, or, if no process is named, those of the package. */
  function Without(rows: set<Row>, pkg: string, proc: string): set<Row> {
    set r | r in rows && !(r.0 == pkg && (proc == [] || r.1 == proc))
  }

  /** What each way of removing does to the rows. */
  lemma WithoutRows(procs: map<string, set<string>>, pkg: string, proc: string)
    requires NoEmpty(procs)
    ensures pkg !in procs ==> Without(Rows(procs), pkg, proc) == Rows(procs)
    ensures pkg in procs && proc == [] ==> Without(Rows(procs), pkg, proc) == Rows(procs - {pkg}) != Rows(procs)
    ensures pkg in procs && proc != [] && proc !in procs[pkg] ==> Without(Rows(procs), pkg, proc) == Rows(procs)
    ensures pkg in procs && proc != [] && proc in procs[pkg] ==>
              Without(Rows(procs), pkg, proc) == Rows(procs[pkg := procs[pkg] - {proc}]) != Rows(procs)
    ensures pkg in procs && proc != [] && procs[pkg] - {proc} == {} ==>
              Rows(procs[pkg := procs[pkg] - {proc}]) == Rows(procs - {pkg})
  {
    RowsDrop(procs, pkg);
    if pkg in procs {
      RowsRemove(procs, pkg, proc);
      var q :| q in procs[pkg];
      RowOf(procs, pkg, q);
      RowOf(procs, pkg, proc);
      RowOf(procs - {pkg}, pkg, q);
    }
  }

  lemma ZeroUnused(index: map<nat, set<string>>, packages: set<string>, ids: AppIds, p: string)
    requires Inverse(index, packages, ids)
    ensures p != ISOLATED && ids(p) == 0 ==> At(index, 0) - {p} == At(index, 0)
  {
    if ids(p) == 0 {
      assert p in At(index, ids(p)) <==> ids(p) != 0 && p in packages && p != ISOLATED;
    }
  }

  lemma NoEmptyIds(index: map<nat, set<string>>, packages: set<string>, ids: AppIds)
    requires Inverse(index, packages, ids)
    ensures forall a :: a in index ==> index[a] != {}
  {
  }

  lemma KeyOf(procs: map<string, set<string>>, p: string, q: string)
    requires (p, q) in Rows(procs)
    ensures p in procs.Keys
  {
  }

  lemma NoRows()
    ensures Rows(map[]) == {}
  {
  }

  lemma InverseEmpty(ids: AppIds)
    ensures Inverse(map[], {}, ids)
  {
  }

  /** What is left of the packages while those in `todo` are still to be looked at. */
  ghost predicate Kept(before: map<string, set<string>>, after: map<string, set<string>>, todo: set<string>,
                       ids: AppIds) {
    (forall p :: p in after <==> p in before && (p in todo || Live(ids, p))) &&
    (forall p :: p in after ==> after[p] == before[p])
  }

  lemma KeptStart(procs: map<string, set<string>>, ids: AppIds)
    ensures Kept(procs, procs, procs.Keys, ids)
  {
  }

  lemma KeptStep(before: map<string, set<string>>, was: map<string, set<string>>, todo: set<string>, ids: AppIds,
                 p: string)
    requires Kept(before, was, todo, ids) && p in todo && NoEmpty(before) && todo <= before.Keys
    ensures p in was && NoEmpty(was)
    ensures Kept(before, if Live(ids, p) then was else was - {p}, todo - {p}, ids)
    ensures (if Live(ids, p) then was else was - {p}).Keys - (todo - {p}) ==
            (if Live(ids, p) then was.Keys - todo + {p} else was.Keys - todo)
  {
    hide Live;
  }

  lemma PurgedRows(before: map<string, set<string>>, after: map<string, set<string>>, ids: AppIds)
    requires Kept(before, after, {}, ids) && NoEmpty(before)
    ensures Rows(after) == Purged(Rows(before), ids)
    ensures NoEmpty(after) && after.Keys - {} == after.Keys && forall p :: p in after ==> Live(ids, p)
  {
    hide Live;
    forall r ensures r in Rows(after) <==> r in Purged(Rows(before), ids) {
      RowOf(after, r.0, r.1);
      RowOf(before, r.0, r.1);
    }
  }
}
