/**
  The mount operations issued for a module tree, as updates of the visible file
  system and of the tmpfs worker tree, proved against the views they should give.
*/
module ModuleCommit {
  import opened Options
  import opened FileTree
  import opened ModuleOverlay

  const EMPTY_NODE: FsNode := Directory(map[])

  class MountSpace {
    var visible: Option<Tree>       // what processes see
    var worker: Option<Tree>        // the tmpfs directories are rebuilt in
    const sources: Option<Tree>     // where module files are bind mounted from

    constructor (stock: Option<Tree>, sources: Option<Tree>)
      ensures visible == stock && worker == Some(EMPTY_DIR) && this.sources == sources
    {
      this.visible, this.worker, this.sources := stock, Some(EMPTY_DIR), sources;
    }

    /** Creates one directory or, with `dir` false, one empty file; an existing path is left alone. */
    method Create(p: Path, dir: bool) returns (ok: bool)
      requires p != []
      modifies this`worker
      ensures ok <==> At(old(worker), p).Some? || IsDir(At(old(worker), ParentDir(p)))
      ensures worker == if ok && At(old(worker), p).None?
                        then Put(old(worker), p, Some(if dir then EMPTY_DIR else EMPTY_FILE))
                        else old(worker)
    {
      if At(worker, p).Some? {
        return true;
      }
      ok := IsDir(At(worker, ParentDir(p)));
      if ok {
        worker := Put(worker, p, Some(if dir then EMPTY_DIR else EMPTY_FILE));
      }
    }

    method MakeDirs(p: Path) returns (ok: bool)
      requires IsDir(worker) && Clear(worker, p)
      modifies this`worker
      ensures ok && worker == Put(old(worker), p, Some(EMPTY_DIR))
    {
      var i := 0;
      while i < |p|
        invariant i <= |p|
        invariant IsDir(At(worker, p[..i]))
        invariant i < |p| ==> Clear(worker, p)
        invariant i == |p| ==> At(worker, p) == Some(EMPTY_DIR)
        invariant forall v :: Put(worker, p, v) == Put(old(worker), p, v)
      {
        ghost var w := worker;
        var q := p[..i + 1];
        assert ParentDir(q) == p[..i];
        ok := Create(q, true);
        ClearPrefix(w, p, i + 1);
        if At(w, q).None? {
          AtPut(w, q, Some(EMPTY_DIR));
          forall v ensures Put(worker, p, v) == Put(w, p, v) { CreateOnTheWay(w, p, i + 1, v); }
          CreateOnTheWay(w, p, i + 1, None);
        }
        if i + 1 == |p| {
          assert q == p;
        }
        i := i + 1;
      }
      assert p[..i] == p;
      PutSame(worker, p);
      return true;
    }

    /** Creates a mount point in the worker tree and bind mounts `src` on it. */
    method MountDummy(src: Option<Tree>, p: Path, dir: bool) returns (ok: bool)
      requires p != [] && IsDir(At(worker, ParentDir(p))) && At(worker, p).None?
      modifies this`worker
      ensures ok && worker == Put(old(worker), p, Some(BindOver(if dir then EMPTY_DIR else EMPTY_FILE, src)))
    {
      ok := Create(p, dir);
      AtPut(old(worker), p, Some(if dir then EMPTY_DIR else EMPTY_FILE));
      PutPut(old(worker), p, At(worker, p), Some(BindOver(At(worker, p).value, src)));
      worker := Put(worker, p, Some(BindOver(At(worker, p).value, src)));
    }

    method MakeLink(target: string, p: Path) returns (ok: bool)
      requires p != [] && IsDir(At(worker, ParentDir(p))) && At(worker, p).None?
      modifies this`worker
      ensures ok && worker == Put(old(worker), p, Some(Link(target)))
    {
      worker := Put(worker, p, Some(Link(target)));
      return true;
    }

    /** Bind mounts over an existing visible path; a failing mount is ignored. */
    method BindMount(src: Option<Tree>, p: Path)
      requires At(visible, p).Some?
      modifies this`visible
      ensures visible == Put(old(visible), p, Some(BindOver(At(old(visible), p).value, src)))
    {
      visible := Put(visible, p, Some(BindOver(At(visible, p).value, src)));
    }

    /** Rebuilds `node` in the worker tree: afterwards its path there holds the rebuilt view. */
    method CommitTmpfs(node: FsNode, path: Path) returns (ok: bool)
      requires path != [] && IsDir(worker) && Clear(worker, path)
      requires node.Directory? || IsDir(At(worker, ParentDir(path)))
      requires !DirOnLink(node, At(visible, path))
      modifies this`worker
      ensures ok
      ensures worker == Put(old(worker), path, RebuildView(node, At(visible, path), path[|path| - 1], sources))
      decreases if At(visible, path).None? then 0 else 1, At(visible, path).GetOr(EMPTY_DIR), 1, node, 2
    {
      ghost var name := path[|path| - 1];
      ClearPrefix(worker, path, |path|);
      assert path[..|path|] == path;
      match node {
        case Directory(all) =>
          ok := MakeDirs(path);
          AtPut(old(worker), path, Some(EMPTY_DIR));
          if Replaces(all) {
            ok := CommitReplaced(all, path);
          } else {
            ok := CommitMerged(all, path);
          }
          PutPut(old(worker), path, Some(EMPTY_DIR), RebuildView(node, At(visible, path), name, sources));
        case Regular(src) =>
          ok := MountDummy(At(sources, src), path, false);
        case Symlink(target) =>
          ok := MakeLink(target, path);
        case MagiskLink =>
          ok := MakeLink(MagiskLinkTarget(path[|path| - 1]), path);
        case Whiteout =>
          assert path == ParentDir(path) + [name];
          PutNone(worker, ParentDir(path), name);
          ok := true;
      }
    }

    /** With a `.replace` file: only the module's children, whole directories bind mounted. */
    method CommitReplaced(all: map<Name, FsNode>, path: Path) returns (ok: bool)
      requires path != [] && At(worker, path) == Some(EMPTY_DIR) && Replaces(all)
      modifies this`worker
      ensures ok
      ensures worker ==
              Put(old(worker), path, RebuildView(Directory(all), At(visible, path), path[|path| - 1], sources))
      decreases if At(visible, path).None? then 0 else 1, At(visible, path).GetOr(EMPTY_DIR), 1, Directory(all), 1
    {
      ghost var goal := RebuildView(Directory(all), At(visible, path), path[|path| - 1], sources);
      ReplacedEntries(all, At(visible, path), path[|path| - 1], sources);
      PutSame(worker, path);
      ok := ReplaceEntries(all, path, goal.value.entries);
    }

    method ReplaceEntries(all: map<Name, FsNode>, path: Path, ghost goal: map<Name, Tree>) returns (ok: bool)
      requires path != [] && At(worker, path) == Some(EMPTY_DIR) && Replaces(all)
      requires forall k :: Get(goal, k) ==
                 (if k !in all || k == REPLACE then None
                  else if all[k].Directory? then Some(RawDir(all, k, sources))
                  else RebuildView(all[k], None, k, sources))
      modifies this`worker
      ensures ok && worker == Put(old(worker), path, Some(Dir(goal)))
      decreases if At(visible, path).None? then 0 else 1, At(visible, path).GetOr(EMPTY_DIR), 1, Directory(all), 0
    {
      var dir := ParentDir(all[REPLACE].src);
      ghost var acc: map<Name, Tree> := map[];
      PutSame(worker, path);
      var todo := all.Keys - {REPLACE};
      while todo != {}
        invariant todo <= all.Keys - {REPLACE}
        invariant worker == Put(old(worker), path, Some(Dir(acc)))
        invariant forall k :: Get(acc, k) == if k in todo then None else Get(goal, k)
        decreases todo
      {
        var k :| k in todo;
        if all[k].Directory? {
          EntryIsClear(old(worker), path, acc, k);
          ok := MountDummy(At(sources, dir + [k]), path + [k], true);
          PutEntry(old(worker), path, acc, k, Get(goal, k));
        } else {
          ok := CommitChild(all[k], path, k, old(worker), acc);
          LeafView(all[k], Get(Children(At(visible, path)), k), k, sources);
        }
        acc := With(acc, k, Get(goal, k));
        todo := todo - {k};
      }
      SameEntries(acc, goal);
      return true;
    }

    /** Without one: real entries the module does not mention are mirrored, then the children committed. */
    method CommitMerged(all: map<Name, FsNode>, path: Path) returns (ok: bool)
      requires path != [] && At(worker, path) == Some(EMPTY_DIR) && !Replaces(all)
      requires !DirOnLink(Directory(all), At(visible, path))
      modifies this`worker
      ensures ok
      ensures worker ==
              Put(old(worker), path, RebuildView(Directory(all), At(visible, path), path[|path| - 1], sources))
      decreases if At(visible, path).None? then 0 else 1, At(visible, path).GetOr(EMPTY_DIR), 1, Directory(all), 1
    {
      var covered := all.Keys - {REPLACE};
      ghost var mirrored := Children(At(visible, path)) - covered;
      ghost var goal := RebuildView(Directory(all), At(visible, path), path[|path| - 1], sources);
      RebuiltEntries(all, At(visible, path), path[|path| - 1], sources);
      ok := MirrorStock(covered, path);
      AtPut(old(worker), path, Some(Dir(mirrored)));
      ok := CommitChildren(all, path, mirrored, goal.value.entries);
      PutPut(old(worker), path, Some(Dir(mirrored)), goal);
    }

    method CommitChildren(all: map<Name, FsNode>, path: Path, ghost base: map<Name, Tree>, ghost goal: map<Name, Tree>)
      returns (ok: bool)
      requires path != [] && At(worker, path) == Some(Dir(base)) && base.Keys !! (all.Keys - {REPLACE})
      requires !DirOnLink(Directory(all), At(visible, path))
      requires forall k :: Get(goal, k) == if k in all && k != REPLACE
                 then RebuildView(all[k], Get(Children(At(visible, path)), k), k, sources) else Get(base, k)
      modifies this`worker
      ensures ok && worker == Put(old(worker), path, Some(Dir(goal)))
      decreases if At(visible, path).None? then 0 else 1, At(visible, path).GetOr(EMPTY_DIR), 1, Directory(all), 0
    {
      ghost var acc := base;
      PutSame(worker, path);
      var todo := all.Keys - {REPLACE};
      while todo != {}
        invariant todo <= all.Keys - {REPLACE}
        invariant worker == Put(old(worker), path, Some(Dir(acc)))
        invariant forall k :: Get(acc, k) == if k in todo then None else Get(goal, k)
        decreases todo
      {
        var k :| k in todo;
        ok := CommitChild(all[k], path, k, old(worker), acc);
        acc := With(acc, k, Get(goal, k));
        todo := todo - {k};
      }
      SameEntries(acc, goal);
      return true;
    }

    /** Commits one child of a directory under construction, of which `acc` is already written. */
    method CommitChild(child: FsNode, path: Path, k: Name, ghost base: Option<Tree>, ghost acc: map<Name, Tree>)
      returns (ok: bool)
      requires path != [] && worker == Put(base, path, Some(Dir(acc))) && Get(acc, k).None?
      requires !DirOnLink(child, Get(Children(At(visible, path)), k))
      modifies this`worker
      ensures ok
      ensures var view := RebuildView(child, Get(Children(At(visible, path)), k), k, sources);
              worker == Put(base, path, Some(Dir(With(acc, k, view))))
      decreases if At(visible, path).None? then 0 else 1, At(visible, path).GetOr(EMPTY_DIR), 1, child, 3
    {
      EntryIsClear(base, path, acc, k);
      AtAppend(visible, path, k);
      ok := CommitTmpfs(child, path + [k]);
      PutEntry(base, path, acc, k, RebuildView(child, At(visible, path + [k]), k, sources));
    }

    /** Mirrors every real entry not named in `covered`. */
    method MirrorStock(covered: set<Name>, path: Path) returns (ok: bool)
      requires path != [] && At(worker, path) == Some(EMPTY_DIR)
      modifies this`worker
      ensures ok
      ensures worker == Put(old(worker), path, Some(Dir(Children(At(visible, path)) - covered)))
      decreases if At(visible, path).None? then 0 else 1, At(visible, path).GetOr(EMPTY_DIR), 0, EMPTY_NODE, 1
    {
      var stock := Children(At(visible, path));
      ghost var acc: map<Name, Tree> := map[];
      PutSame(worker, path);
      var todo := stock.Keys;
      while todo != {}
        invariant todo <= stock.Keys
        invariant worker == Put(old(worker), path, Some(Dir(acc)))
        invariant acc == stock - covered - todo
        decreases todo
      {
        var k :| k in todo;
        if k !in covered {
          ok := MirrorEntry(stock[k], path, k, old(worker), acc);
          acc := acc[k := stock[k]];
        }
        todo := todo - {k};
      }
      assert acc == stock - covered;
      return true;
    }

    /** Mirrors one real entry; a directory is mirrored recursively, as an empty module directory. */
    method MirrorEntry(entry: Tree, path: Path, k: Name, ghost base: Option<Tree>, ghost acc: map<Name, Tree>)
      returns (ok: bool)
      requires path != [] && worker == Put(base, path, Some(Dir(acc))) && k !in acc
      requires Get(Children(At(visible, path)), k) == Some(entry)
      modifies this`worker
      ensures ok && worker == Put(base, path, Some(Dir(acc[k := entry])))
      decreases if At(visible, path).None? then 0 else 1, At(visible, path).GetOr(EMPTY_DIR), 0, EMPTY_NODE, 0
    {
      EntryIsClear(base, path, acc, k);
      AtAppend(visible, path, k);
      match entry {
        case Dir(_) =>
          EmptyNodeMirrors(entry, k, sources);
          ok := CommitTmpfs(EMPTY_NODE, path + [k]);
        case Link(target) =>
          ok := CommitTmpfs(Symlink(target), path + [k]);
        case _ =>
          ok := MountDummy(At(visible, path + [k]), path + [k], false);
      }
      PutEntry(base, path, acc, k, Some(entry));
    }

    /** Decides which children stay and whether the directory has to be rebuilt. */
    method Retain(children: map<Name, FsNode>, path: Path, isRoot: bool)
      returns (kept: map<Name, FsNode>, isTmpfs: bool)
      ensures isRoot ==> kept == RootChildren(children, At(visible, path)) && !isTmpfs
      ensures !isRoot ==> kept == children && isTmpfs == NeedsTmpfs(children, At(visible, path))
    {
      kept, isTmpfs := children, false;
      ghost var stock := Children(At(visible, path));
      var todo := children.Keys;
      while todo != {}
        invariant todo <= children.Keys
        invariant !isRoot ==> kept == children
        invariant isRoot ==>
                    kept == map k | k in children && (k in todo || !Unsupported(children, stock, k)) :: children[k]
        invariant isTmpfs <==> !isRoot && exists k :: k in children && k !in todo && Unsupported(children, stock, k)
        decreases todo
      {
        var k :| k in todo;
        todo := todo - {k};
        AtAppend(visible, path, k);
        if k == REPLACE || ParentShouldBeTmpfs(children[k], At(visible, path + [k])) {
          if isRoot {
            kept := kept - {k};
          } else {
            isTmpfs := true;
          }
        }
      }
    }

    /**
      Commits a node onto an existing path. `built` is what was rebuilt for it in
      the worker tree, if anything: everything else there is untouched.
    */
    method Commit(node: FsNode, path: Path, isRoot: bool) returns (ok: bool, ghost built: Option<Tree>)
      requires path != [] && At(visible, path).Some? && IsDir(worker) && Clear(worker, path)
      requires !DirOnLink(Committed(node, At(visible, path), isRoot), At(visible, path))
      modifies this`visible, this`worker
      ensures ok
      ensures visible == Put(old(visible), path, Some(CommitView(Committed(node, At(old(visible), path), isRoot),
                           At(old(visible), path).value, path[|path| - 1], sources)))
      ensures worker == Rebuilt(old(worker), path, built)
      decreases node, 1
    {
      built := None;
      match node {
        case Directory(children) =>
          var kept, isTmpfs := Retain(children, path, isRoot);
          assert !isRoot ==> Directory(kept) == node;
          assert isRoot ==> !NeedsTmpfs(kept, At(visible, path));
          if isTmpfs {
            ok := CommitTmpfs(node, path);
            built := RebuildView(node, At(visible, path), path[|path| - 1], sources);
            AtPut(old(worker), path, built);
            BindMount(At(worker, path), path);
          } else {
            ok, built := CommitSelected(node, kept, path);
          }
        case Regular(src) =>
          BindMount(At(sources, src), path);
          ok := true;
        case _ =>
          PutSame(visible, path);
          ok := true;
      }
    }

    /** One child of a directory that is not rebuilt; `seen` and `built` describe the directory so far. */
    method CommitSelectedChild(child: FsNode, path: Path, k: Name, ghost v0: Option<Tree>, ghost seen: map<Name, Tree>,
                               ghost w0: Option<Tree>, ghost built: Option<Tree>)
      returns (ok: bool, ghost seen': map<Name, Tree>, ghost built': Option<Tree>)
      requires path != [] && visible == Put(v0, path, Some(Dir(seen))) && k in seen
      requires IsDir(w0) && Clear(w0, path) && worker == Rebuilt(w0, path, built)
      requires built.Some? ==> built.value.Dir? && k !in built.value.entries
      requires !DirOnLink(child, Some(seen[k]))
      modifies this`visible, this`worker
      ensures ok && seen' == seen[k := CommitView(child, seen[k], k, sources)]
      ensures visible == Put(v0, path, Some(Dir(seen')))
      ensures worker == Rebuilt(w0, path, built')
      ensures built'.Some? ==>
                built'.value.Dir? &&
                forall j :: j != k && j in built'.value.entries ==> built.Some? && j in built.value.entries
      decreases child, 2
    {
      AtPut(v0, path, Some(Dir(seen)));
      AtAppend(visible, path, k);
      ChildIsClear(w0, path, built, k);
      ghost var childBuilt;
      ok, childBuilt := Commit(child, path + [k], false);
      seen' := seen[k := CommitView(child, seen[k], k, sources)];
      PutEntry(v0, path, seen, k, Some(seen'[k]));
      built' := if childBuilt.None? then built else Some(Dir(Children(built)[k := childBuilt.value]));
      if childBuilt.Some? {
        RebuiltChild(w0, path, built, k, childBuilt.value);
      }
    }

    method CommitSelected(ghost node: FsNode, children: map<Name, FsNode>, path: Path)
      returns (ok: bool, ghost built: Option<Tree>)
      requires path != [] && At(visible, path).Some? && IsDir(worker) && Clear(worker, path)
      requires !NeedsTmpfs(children, At(visible, path))
      requires !DirOnLink(Directory(children), At(visible, path))
      requires forall k :: k in children ==> children[k] < node
      modifies this`visible, this`worker
      ensures ok
      ensures visible == Put(old(visible), path, Some(CommitView(Directory(children),
                           At(old(visible), path).value, path[|path| - 1], sources)))
      ensures worker == Rebuilt(old(worker), path, built)
      decreases node, 0
    {
      built := None;
      ghost var stock := At(visible, path).value;
      ghost var acc := Children(Some(stock));
      PutSame(visible, path);
      NoChildrenOnFile(children, stock);
      var todo := children.Keys;
      while todo != {}
        invariant todo <= children.Keys
        invariant visible == if stock.Dir? then Put(old(visible), path, Some(Dir(acc))) else old(visible)
        invariant stock.Dir? ==> acc == map k | k in stock.entries :: if k in children && k !in todo
                    then CommitView(children[k], stock.entries[k], k, sources) else stock.entries[k]
        invariant worker == Rebuilt(old(worker), path, built)
        invariant built.Some? ==> built.value.Dir? && forall k :: k in todo ==> k !in built.value.entries
        decreases todo
      {
        var k :| k in todo;
        ok, acc, built := CommitSelectedChild(children[k], path, k, old(visible), acc, old(worker), built);
        todo := todo - {k};
      }
      assert CommitView(Directory(children), stock, path[|path| - 1], sources) ==
             if stock.Dir? then Dir(acc) else stock;
      return true, built;
    }
  }

  /** A name not yet written in a directory under construction is free for the next step. */
  lemma EntryIsClear(t: Option<Tree>, path: Path, acc: map<Name, Tree>, k: Name)
    requires path != [] && Get(acc, k).None?
    ensures var w := Put(t, path, Some(Dir(acc)));
            IsDir(w) && Clear(w, path + [k]) && At(w, path + [k]).None? && IsDir(At(w, ParentDir(path + [k])))
  {
    var w := Put(t, path, Some(Dir(acc)));
    AtPut(t, path, Some(Dir(acc)));
    AtAppend(w, path, k);
    ClearEntry(w, path, k);
    assert ParentDir(path + [k]) == path;
  }

  lemma LeafView(node: FsNode, stock: Option<Tree>, name: Name, sources: Option<Tree>)
    requires !node.Directory?
    ensures RebuildView(node, stock, name, sources) == RebuildView(node, None, name, sources)
  {
  }

  /** A child that cannot be offered by a bind mount alone. */
  ghost predicate Unsupported(children: map<Name, FsNode>, stock: map<Name, Tree>, k: Name)
    requires k in children
  {
    k == REPLACE || ParentShouldBeTmpfs(children[k], Get(stock, k))
  }

  lemma NoChildrenOnFile(children: map<Name, FsNode>, stock: Tree)
    requires !NeedsTmpfs(children, Some(stock))
    ensures !stock.Dir? ==> children.Keys == {}
  {
  }

  /** The node a commit works with: a partition root loses the children it cannot offer. */
  ghost function Committed(node: FsNode, stock: Option<Tree>, isRoot: bool): FsNode {
    if isRoot && node.Directory? then Directory(RootChildren(node.children, stock)) else node
  }

  ghost function Rebuilt(worker: Option<Tree>, path: Path, built: Option<Tree>): Option<Tree> {
    if built.None? then worker else Put(worker, path, built)
  }

  lemma ChildIsClear(w0: Option<Tree>, path: Path, built: Option<Tree>, k: Name)
    requires path != [] && IsDir(w0) && Clear(w0, path)
    requires built.Some? ==> built.value.Dir? && k !in built.value.entries
    ensures IsDir(Rebuilt(w0, path, built)) && Clear(Rebuilt(w0, path, built), path + [k])
  {
    if built.Some? {
      AtPut(w0, path, built);
      ClearEntry(Rebuilt(w0, path, built), path, k);
    } else {
      ClearDeeper(w0, path, k);
    }
  }

  lemma {:induction false} ClearDeeper(t: Option<Tree>, p: Path, k: Name)
    requires Clear(t, p)
    ensures Clear(t, p + [k])
    decreases |p|
  {
    if t.Some? {
      assert (p + [k])[1..] == p[1..] + [k];
      ClearDeeper(Get(Children(t), p[0]), p[1..], k);
    }
  }

  lemma RebuiltChild(w0: Option<Tree>, path: Path, built: Option<Tree>, k: Name, v: Tree)
    requires Clear(w0, path) && (built.Some? ==> built.value.Dir?)
    ensures Put(Rebuilt(w0, path, built), path + [k], Some(v)) == Put(w0, path, Some(Dir(Children(built)[k := v])))
  {
    if built.Some? {
      PutEntry(w0, path, built.value.entries, k, Some(v));
    } else {
      ClearPrefix(w0, path, |path|);
      assert (path + [k])[..|path|] == path == path[..|path|];
      CreateOnTheWay(w0, path + [k], |path|, Some(v));
      PutEntry(w0, path, map[], k, Some(v));
    }
  }
}
