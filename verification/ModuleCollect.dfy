/**
  Building the virtual tree: the union of all module trees in which the first
  module to define a path wins and directories merge.
*/
module ModuleCollect {
  import opened Options
  import opened FileTree
  import opened ModuleOverlay

  /** One enabled module: its name, whether it opted out of mounting, and its `system` path. */
  datatype Module = Module(name: Name, skipMount: bool, system: Option<Tree>)

  /** The node a module path contributes on its own; `prefix` is where it is mounted from. */
  function FromModule(t: Tree, prefix: Path): FsNode {
    match t
    case Dir(entries) => Directory(map k | k in entries :: FromModule(entries[k], prefix + [k]))
    case Link(target) => Symlink(target)
    case CharDevice(rdev) => if rdev == 0 then Whiteout else Regular(prefix)
    case File(_) => Regular(prefix)
  }

  /** Left-biased union: directories merge, otherwise the left node stays. */
  function LeftUnion(a: FsNode, b: FsNode): FsNode
    decreases a
  {
    if a.Directory? && b.Directory? then
      Directory(map k | k in a.children.Keys + b.children.Keys ::
                  if k !in a.children then b.children[k]
                  else if k !in b.children then a.children[k]
                  else LeftUnion(a.children[k], b.children[k]))
    else a
  }

  function SystemPath(m: Module): Path { [m.name, "system"] }

  /** What one module adds to the tree built so far. */
  function AddModule(node: FsNode, m: Module): FsNode {
    if !m.skipMount && IsDir(m.system) then LeftUnion(node, FromModule(m.system.value, SystemPath(m))) else node
  }

  function CollectAll(mods: seq<Module>): FsNode
    decreases |mods|
  {
    if mods == [] then Directory(map[]) else AddModule(CollectAll(mods[..|mods| - 1]), mods[|mods| - 1])
  }

  lemma {:induction false} UnionWithEmpty(b: FsNode)
    requires b.Directory?
    ensures LeftUnion(Directory(map[]), b) == b
  {
    assert LeftUnion(Directory(map[]), b).children == b.children;
  }

  /** One entry of a union. */
  function Merged(children: map<Name, FsNode>, k: Name, b: FsNode): FsNode {
    if k in children then LeftUnion(children[k], b) else b
  }

  /** Reads one module directory into the tree; a node that is not a directory is left alone. */
  method Collect(node: FsNode, entries: map<Name, Tree>, prefix: Path) returns (r: FsNode)
    ensures r == LeftUnion(node, FromModule(Dir(entries), prefix))
    decreases Dir(entries), 1
  {
    if !node.Directory? {
      return node;
    }
    var children := node.children;
    var todo := entries.Keys;
    while todo != {}
      invariant todo <= entries.Keys
      invariant children.Keys == node.children.Keys + (entries.Keys - todo)
      invariant forall k :: k in children ==>
                  children[k] == (if k in entries && k !in todo
                                  then Merged(node.children, k, FromModule(entries[k], prefix + [k]))
                                  else node.children[k])
      decreases todo
    {
      var k :| k in todo;
      todo := todo - {k};
      children := CollectEntry(children, k, entries[k], prefix + [k]);
    }
    assert children == LeftUnion(node, FromModule(Dir(entries), prefix)).children;
    return Directory(children);
  }

  method CollectEntry(children: map<Name, FsNode>, k: Name, entry: Tree, path: Path) returns (r: map<Name, FsNode>)
    ensures r == children[k := Merged(children, k, FromModule(entry, path))]
    decreases entry, 2
  {
    match entry {
      case Dir(sub) =>
        var node := if k in children then children[k] else Directory(map[]);
        UnionWithEmpty(FromModule(entry, path));
        var merged := Collect(node, sub, path);
        r := children[k := merged];
      case Link(target) =>
        r := OrInsert(children, k, Symlink(target));
      case CharDevice(rdev) =>
        r := OrInsert(children, k, if rdev == 0 then Whiteout else Regular(path));
      case File(_) =>
        r := OrInsert(children, k, Regular(path));
    }
  }

  function OrInsert(children: map<Name, FsNode>, k: Name, node: FsNode): map<Name, FsNode> {
    if k in children then children else children[k := node]
  }

  /** Collects the modules in order. */
  method CollectModules(mods: seq<Module>) returns (system: FsNode)
    ensures system == CollectAll(mods)
  {
    system := Directory(map[]);
    var i := 0;
    while i < |mods|
      invariant i <= |mods| && system == CollectAll(mods[..i])
    {
      var m := mods[i];
      if !m.skipMount && IsDir(m.system) {
        system := Collect(system, m.system.value.entries, SystemPath(m));
      }
      assert mods[..i + 1][..i] == mods[..i];
      i := i + 1;
    }
    assert mods[..i] == mods;
  }

  /* ----- what a path of the union holds ----- */

  /** A directory, or the leaf found there. */
  datatype Shape = Folder | Leaf(node: FsNode)

  function ShapeAt(n: FsNode, p: Path): Option<Shape>
    decreases |p|
  {
    if p == [] then Some(if n.Directory? then Folder else Leaf(n))
    else if n.Directory? && p[0] in n.children then ShapeAt(n.children[p[0]], p[1..])
    else None
  }

  /** What a module alone has at `p`; the root of the virtual tree is always a directory. */
  function Defines(m: Module, p: Path): Option<Shape> {
    if !m.skipMount && IsDir(m.system) then ShapeAt(FromModule(m.system.value, SystemPath(m)), p) else None
  }

  /**
    The node a module path becomes by what is found there: a directory, a link, a whiteout (a device 0), or a file to
    mount.
  */
  function ShapeOf(t: Option<Tree>, mounted: Path): Option<Shape> {
    if t.None? then None
    else
      match t.value
      case Dir(_) => Some(Folder)
      case Link(target) => Some(Leaf(Symlink(target)))
      case CharDevice(rdev) => Some(Leaf(if rdev == 0 then Whiteout else Regular(mounted)))
      case File(_) => Some(Leaf(Regular(mounted)))
  }

  lemma {:induction false} FromModuleAt(t: Tree, prefix: Path, p: Path)
    ensures ShapeAt(FromModule(t, prefix), p) == ShapeOf(At(Some(t), p), prefix + p)
    decreases |p|
  {
    if p == [] {
      assert prefix + p == prefix;
    } else if t.Dir? && p[0] in t.entries {
      FromModuleAt(t.entries[p[0]], prefix + [p[0]], p[1..]);
      assert prefix + [p[0]] + p[1..] == prefix + p;
    } else {
      AtNone(p[1..]);
    }
  }

  /** What a module contributes at a path: what its `system` directory has there, unless it opted out of mounting. */
  lemma DefinesWhatItHolds(m: Module, p: Path)
    ensures Defines(m, p) ==
            if m.skipMount || !IsDir(m.system) then None else ShapeOf(At(m.system, p), [m.name, "system"] + p)
  {
    if !m.skipMount && IsDir(m.system) {
      FromModuleAt(m.system.value, SystemPath(m), p);
    }
  }

  /** What the first module defining `p` has there. */
  function First(mods: seq<Module>, p: Path): Option<Shape>
    decreases |mods|
  {
    if mods == [] then (if p == [] then Some(Folder) else None)
    else
      var before := First(mods[..|mods| - 1], p);
      if before.Some? then before else Defines(mods[|mods| - 1], p)
  }

  /** Some directory above `p` was first defined as something else. */
  ghost predicate Blocked(mods: seq<Module>, p: Path) {
    exists i :: 0 <= i < |p| && LeafThere(First(mods, p[..i]))
  }

  predicate LeafThere(s: Option<Shape>) { s.Some? && s.value.Leaf? }

  /** A leaf sits on the way to `p`. */
  predicate LeafAbove(n: FsNode, p: Path)
    decreases |p|
  {
    p != [] && (!n.Directory? || (p[0] in n.children && LeafAbove(n.children[p[0]], p[1..])))
  }

  lemma {:induction false} LeafAboveAt(n: FsNode, p: Path, i: nat)
    requires i < |p| && LeafThere(ShapeAt(n, p[..i]))
    ensures LeafAbove(n, p)
    decreases |p|
  {
    if n.Directory? {
      assert p[..i][1..] == p[1..][..i - 1];
      LeafAboveAt(n.children[p[0]], p[1..], i - 1);
    }
  }

  lemma {:induction false} WhereLeafAbove(n: FsNode, p: Path) returns (i: nat)
    requires LeafAbove(n, p)
    ensures i < |p| && LeafThere(ShapeAt(n, p[..i]))
    decreases |p|
  {
    if !n.Directory? {
      i := 0;
    } else {
      i := WhereLeafAbove(n.children[p[0]], p[1..]);
      i := i + 1;
      assert p[..i][1..] == p[1..][..i - 1];
    }
  }

  /** A path of the union: the left tree's if it has one, else the right tree's unless a left leaf is in the way. */
  lemma {:induction false} UnionAt(a: FsNode, b: FsNode, p: Path)
    ensures ShapeAt(LeftUnion(a, b), p) ==
            if ShapeAt(a, p).Some? then ShapeAt(a, p) else if LeafAbove(a, p) then None else ShapeAt(b, p)
    decreases |p|
  {
    if p != [] && a.Directory? && b.Directory? && p[0] in a.children && p[0] in b.children {
      UnionAt(a.children[p[0]], b.children[p[0]], p[1..]);
    }
  }

  /** Above anything a tree has there are only directories. */
  lemma {:induction false} FolderAbove(n: FsNode, p: Path, i: nat)
    requires ShapeAt(n, p).Some? && i < |p|
    ensures ShapeAt(n, p[..i]) == Some(Folder)
    decreases |p|
  {
    if i > 0 {
      assert p[..i][1..] == p[1..][..i - 1];
      FolderAbove(n.children[p[0]], p[1..], i - 1);
    }
  }

  lemma {:induction false} FirstAbove(mods: seq<Module>, p: Path, i: nat)
    requires First(mods, p).Some? && i < |p|
    ensures First(mods, p[..i]).Some?
    decreases |mods|
  {
    if mods != [] {
      if First(mods[..|mods| - 1], p).Some? {
        FirstAbove(mods[..|mods| - 1], p, i);
      } else {
        var m := mods[|mods| - 1];
        FolderAbove(FromModule(m.system.value, SystemPath(m)), p, i);
      }
    }
  }

  /**
    Every path of the collected tree holds what the first module to define it
    has there, and nothing when a directory above it was taken by a leaf first.
  */
  lemma {:induction false} CollectedAt(mods: seq<Module>, p: Path)
    ensures ShapeAt(CollectAll(mods), p) == if Blocked(mods, p) then None else First(mods, p)
    decreases |mods|, |p|
  {
    if mods == [] {
      assert !Blocked(mods, p);
    } else {
      var n := |mods| - 1;
      var before := mods[..n];
      forall i | 0 <= i < |p|
        ensures ShapeAt(CollectAll(before), p[..i]) == if Blocked(before, p[..i]) then None else First(before, p[..i])
      {
        CollectedAt(before, p[..i]);
      }
      CollectedAt(before, p);
      BlockedAgrees(before, p);
      if !mods[n].skipMount && IsDir(mods[n].system) {
        UnionAt(CollectAll(before), FromModule(mods[n].system.value, SystemPath(mods[n])), p);
      }
      BlockedLater(mods, p);
    }
  }

  /** A leaf on the way in the collected tree is exactly a blocked path. */
  lemma {:induction false} BlockedAgrees(mods: seq<Module>, p: Path)
    requires forall i :: 0 <= i < |p| ==>
               ShapeAt(CollectAll(mods), p[..i]) == (if Blocked(mods, p[..i]) then None else First(mods, p[..i]))
    ensures LeafAbove(CollectAll(mods), p) <==> Blocked(mods, p)
  {
    if LeafAbove(CollectAll(mods), p) {
      var i := WhereLeafAbove(CollectAll(mods), p);
      assert LeafThere(First(mods, p[..i]));
    }
    if Blocked(mods, p) {
      var i := FirstBlock(mods, p);
      LeafAboveAt(CollectAll(mods), p, i);
    }
  }

  /** The shortest blocking prefix is not itself blocked. */
  lemma {:induction false} FirstBlock(mods: seq<Module>, p: Path) returns (i: nat)
    requires Blocked(mods, p)
    ensures i < |p| && LeafThere(First(mods, p[..i])) && !Blocked(mods, p[..i])
    decreases |p|
  {
    i :| 0 <= i < |p| && LeafThere(First(mods, p[..i]));
    if Blocked(mods, p[..i]) {
      var j := FirstBlock(mods, p[..i]);
      assert p[..i][..j] == p[..j];
      i := j;
    }
  }

  /** How one more module changes what is blocked. */
  lemma {:induction false} BlockedLater(mods: seq<Module>, p: Path)
    requires mods != []
    ensures Blocked(mods[..|mods| - 1], p) ==> Blocked(mods, p)
    ensures Blocked(mods, p) && !Blocked(mods[..|mods| - 1], p) ==>
              First(mods[..|mods| - 1], p).None? && Defines(mods[|mods| - 1], p).None?
  {
    var n := |mods| - 1;
    var before := mods[..n];
    if Blocked(before, p) {
      var i :| 0 <= i < |p| && LeafThere(First(before, p[..i]));
      assert LeafThere(First(mods, p[..i]));
    } else if Blocked(mods, p) {
      var i :| 0 <= i < |p| && LeafThere(First(mods, p[..i]));
      assert First(before, p[..i]).None?;
      if First(before, p).Some? {
        FirstAbove(before, p, i);
      }
      if Defines(mods[n], p).Some? {
        FolderAbove(FromModule(mods[n].system.value, SystemPath(mods[n])), p, i);
      }
    }
  }

  /* ----- every collected file can be mounted ----- */

  ghost predicate Mounted(mods: seq<Module>, sources: Option<Tree>) {
    forall m :: m in mods ==> At(sources, SystemPath(m)) == m.system
  }

  lemma {:induction false} FromModuleSourced(t: Tree, prefix: Path, sources: Option<Tree>)
    requires At(sources, prefix) == Some(t)
    ensures Sourced(FromModule(t, prefix), sources)
    decreases t
  {
    if t.Dir? {
      forall k | k in t.entries ensures Sourced(FromModule(t.entries[k], prefix + [k]), sources) {
        AtAppend(sources, prefix, k);
        FromModuleSourced(t.entries[k], prefix + [k], sources);
      }
    }
  }

  lemma {:induction false} UnionSourced(a: FsNode, b: FsNode, sources: Option<Tree>)
    requires Sourced(a, sources) && Sourced(b, sources)
    ensures Sourced(LeftUnion(a, b), sources)
    decreases a
  {
    if a.Directory? && b.Directory? {
      forall k | k in a.children && k in b.children ensures Sourced(LeftUnion(a.children[k], b.children[k]), sources) {
        UnionSourced(a.children[k], b.children[k], sources);
      }
    }
  }

  lemma {:induction false} CollectedSourced(mods: seq<Module>, sources: Option<Tree>)
    requires Mounted(mods, sources)
    ensures CollectAll(mods).Directory? && Sourced(CollectAll(mods), sources)
    decreases |mods|
  {
    if mods != [] {
      var n := |mods| - 1;
      CollectedSourced(mods[..n], sources);
      var m := mods[n];
      if !m.skipMount && IsDir(m.system) {
        FromModuleSourced(m.system.value, SystemPath(m), sources);
        UnionSourced(CollectAll(mods[..n]), FromModule(m.system.value, SystemPath(m)), sources);
      }
    }
  }
}
