/** Whole runs of the deny list daemon, against a list of rows and nothing else. */
module DenyRuns {
  import opened DenyList

  datatype Request =
    | Add(pkg: string, proc: string)
    | Remove(pkg: string, proc: string)
    | Query(uid: nat, process: string)
    | Rescan(installed: AppIds)          // packages came or went; the daemon is told to scan

  datatype Answer = Said(response: Response) | Target(found: bool) | Nothing

  /** The list: rows, whether it was looked at yet, and the app ids of the last scan. */
  datatype List = List(loaded: bool, rows: set<Row>, ids: AppIds)

  ghost function Load(l: List): List {
    if l.loaded then l else l.(loaded := true, rows := Purged(l.rows, l.ids))
  }

  function ProcessName(pkg: string, proc: string): string { if proc == [] then pkg else proc }

  ghost function AddTo(l: List, pkg: string, proc: string): (List, Answer) {
    if !ValidNames(pkg, proc) then (l, Said(INVALID_PKG))
    else if !Live(l.ids, pkg) then (Load(l), Said(INVALID_PKG))
    else (Load(l).(rows := Load(l).rows + {(pkg, proc)}), Said(if (pkg, proc) in Load(l).rows then ITEM_EXIST else OK))
  }

  ghost function RemoveFrom(l: List, pkg: string, proc: string): (List, Answer) {
    var left := Without(Load(l).rows, pkg, proc);
    (Load(l).(rows := left), Said(if left == Load(l).rows then ITEM_NOT_EXIST else OK))
  }

  ghost function Next(l: List, q: Request): (List, Answer) {
    match q
    case Add(pkg, proc) => AddTo(l, pkg, ProcessName(pkg, proc))
    case Remove(pkg, proc) => RemoveFrom(l, pkg, proc)
    case Query(uid, process) => (Load(l), Target(IsTarget(Load(l).rows, l.ids, uid, process)))
    case Rescan(installed) =>
      (if l.loaded then List(true, Purged(l.rows, installed), installed) else l.(ids := installed), Nothing)
  }

  ghost function Run(l: List, qs: seq<Request>): List {
    if qs == [] then l else Next(Run(l, qs[..|qs| - 1]), qs[|qs| - 1]).0
  }

  /** The daemon is in the state the list says. */
  ghost predicate Agrees(d: Daemon, l: List)
    reads d
  {
    d.Valid(l.ids) && d.Synced() && d.loaded == l.loaded && d.rows == l.rows
  }

  lemma AgreesListed(d: Daemon, l: List)
    requires Agrees(d, l)
    ensures d.Listed(l.ids) == Load(l).rows && d.Valid(l.ids) && d.Synced() && d.loaded == l.loaded
  {
  }

  /** One request. */
  method Serve(d: Daemon, ghost l: List, ids: AppIds, q: Request) returns (a: Answer)
    requires Agrees(d, l) && (!q.Rescan? ==> ids == l.ids) && (q.Rescan? ==> ids == q.installed)
    modifies d
    ensures Agrees(d, Next(l, q).0) && a == Next(l, q).1
  {
    hide Purged, IsTarget, ValidNames, Without, Rows;
    AgreesListed(d, l);
    match q {
      case Add(pkg, proc) =>
        var r := d.AddList(ids, pkg, proc, true, true);
        a := Said(r);
      case Remove(pkg, proc) =>
        var r := d.RemoveList(ids, pkg, proc, true, true);
        a := Said(r);
      case Query(uid, process) =>
        var found := d.IsDenyTarget(ids, uid, process, true, true);
        a := Target(found);
      case Rescan(installed) =>
        if d.loaded {
          d.Scan(installed, true);
        }
        a := Nothing;
    }
  }

  lemma RunNext(l: List, qs: seq<Request>, i: nat)
    requires i < |qs|
    ensures Run(l, qs[..i + 1]) == Next(Run(l, qs[..i]), qs[i]).0
  {
    hide Next;
    assert qs[..i + 1][..i] == qs[..i];
  }

  ghost function AnswerTo(l: List, qs: seq<Request>, i: nat): Answer
    requires i < |qs|
  {
    Next(Run(l, qs[..i]), qs[i]).1
  }

  /**
   * Any requests, starting from any database: the daemon with its two maps, its index and its database answers as the
   * list of rows does, and ends with the same rows in the database, the maps and the index.
   */
  method ServeAll(db: set<Row>, installed: AppIds, qs: seq<Request>) returns (d: Daemon, answers: seq<Answer>)
    ensures Agrees(d, Run(List(false, db, installed), qs))
    ensures |answers| == |qs| && forall i :: 0 <= i < |qs| ==> answers[i] == AnswerTo(List(false, db, installed), qs, i)
  {
    hide Next, Daemon.Valid;
    ghost var l := List(false, db, installed);
    d := new Daemon(db);
    FreshAgrees(d, db, installed);
    answers := [];
    var ids := installed;
    var i := 0;
    while i < |qs|
      invariant fresh(d) && i <= |qs| && |answers| == i
      invariant Agrees(d, Run(l, qs[..i])) && ids == Run(l, qs[..i]).ids
      invariant forall j :: 0 <= j < i ==> answers[j] == AnswerTo(l, qs, j)
    {
      RunNext(l, qs, i);
      ghost var now := Run(l, qs[..i]);
      if qs[i].Rescan? {
        ids := qs[i].installed;
      }
      var a := Serve(d, now, ids, qs[i]);
      IdsNext(now, qs[i]);
      answers := answers + [a];
      i := i + 1;
    }
    assert qs[..i] == qs;
  }

  lemma FreshAgrees(d: Daemon, db: set<Row>, installed: AppIds)
    requires !d.loaded && d.procs == map[] && d.index == map[] && d.rows == db
    ensures Agrees(d, List(false, db, installed))
  {
  }

  lemma IdsNext(l: List, q: Request)
    ensures Next(l, q).0.ids == if q.Rescan? then q.installed else l.ids
  {
  }

  /* ----- laws of the list ----- */

  /** Removing what was just added restores the list. */
  lemma RemoveUndoesAdd(l: List, pkg: string, proc: string)
    requires l.loaded && Next(l, Add(pkg, proc)).1 == Said(OK)
    ensures var added := Next(l, Add(pkg, proc)).0;
            Next(added, Remove(pkg, ProcessName(pkg, proc))) == (l, Said(OK))
  {
    var name := ProcessName(pkg, proc);
    assert name != [];
    assert Without(l.rows + {(pkg, name)}, pkg, name) == l.rows;
  }

  /** A request that leaves a row on the list. */
  predicate Spares(q: Request, pkg: string, name: string) {
    (q.Remove? ==> !(q.pkg == pkg && (q.proc == [] || q.proc == name))) && (q.Rescan? ==> Live(q.installed, pkg))
  }

  lemma SparedStep(l: List, q: Request, pkg: string, name: string)
    requires (pkg, name) in Load(l).rows && Spares(q, pkg, name)
    ensures (pkg, name) in Load(Next(l, q).0).rows
  {
    hide IsTarget, ValidNames;
  }

  lemma {:induction false} SparedStays(l: List, qs: seq<Request>, pkg: string, name: string)
    requires (pkg, name) in Load(l).rows && forall i :: 0 <= i < |qs| ==> Spares(qs[i], pkg, name)
    ensures (pkg, name) in Load(Run(l, qs)).rows
    decreases |qs|
  {
    hide Next, Load, Spares;
    if qs != [] {
      SparedStays(l, qs[..|qs| - 1], pkg, name);
      SparedStep(Run(l, qs[..|qs| - 1]), qs[|qs| - 1], pkg, name);
    }
  }

  /** An added process is a target after any requests that do not remove it or find its package gone. */
  lemma AddedIsTarget(l: List, pkg: string, proc: string, qs: seq<Request>, uid: nat)
    requires pkg != ISOLATED && ValidNames(pkg, ProcessName(pkg, proc)) && Live(l.ids, pkg)
    requires forall i :: 0 <= i < |qs| ==> Spares(qs[i], pkg, ProcessName(pkg, proc))
    ensures var now := Run(Next(l, Add(pkg, proc)).0, qs);
            now.ids(pkg) < ISOLATED_START && uid % AID_USER_OFFSET == now.ids(pkg) ==>
              Next(now, Query(uid, ProcessName(pkg, proc))).1 == Target(true)
  {
    hide ValidNames, Spares, Purged;
    var name := ProcessName(pkg, proc);
    var added := Next(l, Add(pkg, proc)).0;
    assert (pkg, name) in Load(added).rows;
    SparedStays(added, qs, pkg, name);
    var now := Run(added, qs);
    if now.ids(pkg) < ISOLATED_START && uid % AID_USER_OFFSET == now.ids(pkg) {
      RowIsTarget(Load(now).rows, now.ids, pkg, name, uid);
    }
  }

  lemma RowIsTarget(rows: set<Row>, ids: AppIds, pkg: string, name: string, uid: nat)
    requires (pkg, name) in rows && pkg != ISOLATED && uid % AID_USER_OFFSET == ids(pkg) < ISOLATED_START
    ensures IsTarget(rows, ids, uid, name)
  {
    var r := (pkg, name);
    assert r in rows && r.0 != ISOLATED && ids(r.0) == uid % AID_USER_OFFSET && r.1 == name;
  }

  /** A query never changes what later queries find. */
  lemma {:induction false} QueriesKeep(l: List, qs: seq<Request>)
    requires forall i :: 0 <= i < |qs| ==> qs[i].Query?
    ensures Load(Run(l, qs)) == Load(l) && Run(l, qs).ids == l.ids
    decreases |qs|
  {
    hide Purged, IsTarget;
    if qs != [] {
      QueriesKeep(l, qs[..|qs| - 1]);
    }
  }
}
