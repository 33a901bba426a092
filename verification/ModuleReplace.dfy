/** Which `.replace` files show what the collected tree says, in terms of the modules themselves. */
module ModuleReplace {
  import opened Options
  import opened FileTree
  import opened ModuleOverlay
  import opened ModuleCollect

  /* ----- one module by itself ----- */

  /** No whiteout and no `.replace` entry anywhere. */
  predicate Plain(t: Tree) {
    match t
    case Dir(entries) => REPLACE !in entries && forall k :: k in entries ==> Plain(entries[k])
    case CharDevice(rdev) => rdev != 0
    case _ => true
  }

  /** A `.replace` entry that asks for a replacement. */
  predicate AsksToReplace(entries: map<Name, Tree>) {
    REPLACE in entries && (entries[REPLACE].File? || (entries[REPLACE].CharDevice? && entries[REPLACE].rdev != 0))
  }

  /** The directories beside every outermost `.replace` file are plain. */
  predicate ReplacesPlainly(t: Tree) {
    match t
    case Dir(entries) =>
      if AsksToReplace(entries) then forall k :: k in entries && k != REPLACE && entries[k].Dir? ==> Plain(entries[k])
      else forall k :: k in entries && k != REPLACE ==> ReplacesPlainly(entries[k])
    case _ => true
  }

  lemma {:induction false} RawMatches(t: Tree, prefix: Path, name: Name, sources: Option<Tree>)
    requires At(sources, prefix) == Some(t)
    ensures Matches(FromModule(t, prefix), t, name, sources) <==> Plain(t)
    decreases t
  {
    if t.Dir? {
      forall k | k in t.entries
        ensures Matches(FromModule(t.entries[k], prefix + [k]), t.entries[k], k, sources) <==> Plain(t.entries[k])
        ensures FromModule(t.entries[k], prefix + [k]).Whiteout? ==> !Plain(t.entries[k])
      {
        AtAppend(sources, prefix, k);
        RawMatches(t.entries[k], prefix + [k], k, sources);
      }
    }
  }

  lemma ReplacingNode(entries: map<Name, Tree>, prefix: Path)
    ensures Replaces(FromModule(Dir(entries), prefix).children) <==> AsksToReplace(entries)
    ensures AsksToReplace(entries) ==> FromModule(Dir(entries), prefix).children[REPLACE] == Regular(prefix + [REPLACE])
  {
  }

  /** A module alone is shown as it says exactly if what it puts beside its `.replace` files is plain. */
  lemma {:induction false} OneModuleReplaces(t: Tree, prefix: Path, sources: Option<Tree>)
    requires At(sources, prefix) == Some(t)
    ensures ReplacementsMatch(FromModule(t, prefix), sources) <==> ReplacesPlainly(t)
    decreases t
  {
    if t.Dir? {
      var all := FromModule(t, prefix).children;
      ReplacingNode(t.entries, prefix);
      forall k | k in t.entries
        ensures all[k].Directory? <==> t.entries[k].Dir?
        ensures Replaces(all) && t.entries[k].Dir? ==>
                  (Matches(all[k], RawDir(all, k, sources), k, sources) <==> Plain(t.entries[k]))
        ensures ReplacementsMatch(all[k], sources) <==> ReplacesPlainly(t.entries[k])
      {
        AtAppend(sources, prefix, k);
        OneModuleReplaces(t.entries[k], prefix + [k], sources);
        if Replaces(all) && t.entries[k].Dir? {
          assert ParentDir(prefix + [REPLACE]) == prefix;
          RawMatches(t.entries[k], prefix + [k], k, sources);
        }
      }
    }
  }

  /* ----- several modules ----- */

  // One module replaces `app`, another one puts a file into a directory of it.
  const A_APP: Tree := Dir(map[REPLACE := File("")])
  const B_Y: Tree := Dir(map["f" := File("x")])
  const B_APP: Tree := Dir(map["Y" := B_Y])
  const A: Module := Module("a", false, Some(Dir(map["app" := A_APP])))
  const B: Module := Module("b", false, Some(Dir(map["app" := B_APP])))
  const F: Path := ["b", "system", "app", "Y", "f"]
  const Y: FsNode := Directory(map["f" := Regular(F)])
  const APP: FsNode := Directory(map[REPLACE := Regular(["a", "system", "app", REPLACE]), "Y" := Y])

  lemma OnlyEntry(k: Name, t: Tree, prefix: Path)
    ensures FromModule(Dir(map[k := t]), prefix) == Directory(map[k := FromModule(t, prefix + [k])])
  {
  }

  lemma NodeOfA()
    ensures FromModule(A.system.value, ["a", "system"]) ==
            Directory(map["app" := Directory(map[REPLACE := Regular(["a", "system", "app", REPLACE])])])
  {
    hide FromModule;
    OnlyEntry("app", A_APP, ["a", "system"]);
    assert ["a", "system"] + ["app"] == ["a", "system", "app"];
    OnlyEntry(REPLACE, File(""), ["a", "system", "app"]);
    assert ["a", "system", "app"] + [REPLACE] == ["a", "system", "app", REPLACE];
    FileNode("", ["a", "system", "app", REPLACE]);
  }

  lemma NodeOfB()
    ensures FromModule(B.system.value, ["b", "system"]) == Directory(map["app" := Directory(map["Y" := Y])])
  {
    hide FromModule;
    OnlyEntry("app", B_APP, ["b", "system"]);
    assert ["b", "system"] + ["app"] == ["b", "system", "app"];
    OnlyEntry("Y", B_Y, ["b", "system", "app"]);
    assert ["b", "system", "app"] + ["Y"] == ["b", "system", "app", "Y"];
    OnlyEntry("f", File("x"), ["b", "system", "app", "Y"]);
    assert ["b", "system", "app", "Y"] + ["f"] == F;
    FileNode("x", F);
  }

  lemma FileNode(data: string, p: Path)
    ensures FromModule(File(data), p) == Regular(p)
  {
  }

  lemma UnionOfTwo(k: Name, a: FsNode, b: FsNode)
    ensures LeftUnion(Directory(map[k := a]), Directory(map[k := b])) == Directory(map[k := LeftUnion(a, b)])
  {
  }

  lemma UnionApart(j: Name, k: Name, a: FsNode, b: FsNode)
    requires j != k
    ensures LeftUnion(Directory(map[j := a]), Directory(map[k := b])) == Directory(map[j := a, k := b])
  {
  }

  lemma CollectTwo(m: Module, n: Module)
    requires !m.skipMount && !n.skipMount && IsDir(m.system) && IsDir(n.system)
    ensures CollectAll([m, n]) ==
            LeftUnion(FromModule(m.system.value, SystemPath(m)), FromModule(n.system.value, SystemPath(n)))
  {
    hide FromModule, LeftUnion;
    DirectoryNode(m.system.value, SystemPath(m));
    UnionWithEmpty(FromModule(m.system.value, SystemPath(m)));
    assert [m, n][..1] == [m] && [m][..0] == [];
    assert CollectAll([]) == Directory(map[]);
    assert CollectAll([m]) == AddModule(CollectAll([]), m);
  }

  lemma DirectoryNode(t: Tree, prefix: Path)
    requires t.Dir?
    ensures FromModule(t, prefix).Directory?
  {
  }

  lemma CollectedApp()
    ensures CollectAll([A, B]) == Directory(map["app" := APP])
  {
    hide FromModule, LeftUnion, CollectAll;
    CollectTwo(A, B);
    NodeOfA();
    NodeOfB();
    UnionOfTwo("app", Directory(map[REPLACE := Regular(["a", "system", "app", REPLACE])]), Directory(map["Y" := Y]));
    UnionApart(REPLACE, "Y", Regular(["a", "system", "app", REPLACE]), Y);
  }

  lemma FirstOfTwo(m: Module, n: Module, p: Path)
    requires p != []
    ensures First([m, n], p) == if Defines(m, p).Some? then Defines(m, p) else Defines(n, p)
  {
    hide Defines;
    assert [m, n][..1] == [m] && [m][..0] == [];
    assert First([], p).None?;
    assert First([m], p) == Defines(m, p);
  }

  lemma FirstIsB()
    ensures First([A, B], ["app", "Y", "f"]) == Some(Leaf(Regular(F)))
  {
    hide FromModule, First;
    NodeOfA();
    NodeOfB();
    var p: Path := ["app", "Y", "f"];
    FirstOfTwo(A, B, p);
    assert p[1..] == ["Y", "f"] && ["Y", "f"][1..] == ["f"] && ["f"][1..] == [];
    assert ShapeAt(Y, ["f"]) == Some(Leaf(Regular(F)));
    assert ShapeAt(Directory(map["Y" := Y]), ["Y", "f"]) == Some(Leaf(Regular(F)));
  }

  /** Where the replacing module has no directory of its own, everything others put there is gone. */
  lemma EmptyBelowReplace(all: map<Name, FsNode>, k: Name, stock: Option<Tree>, name: Name, sources: Option<Tree>)
    requires Replaces(all) && k in all && k != REPLACE && all[k].Directory?
    requires !IsDir(At(sources, ParentDir(all[REPLACE].src) + [k]))
    ensures Get(Children(RebuildView(Directory(all), stock, name, sources)), k) == Some(EMPTY_DIR)
  {
    ReplacedEntries(all, stock, name, sources);
  }

  /**
    The file is in the collected tree and in the overlay; the rebuilt directory
    does not show it, since the replacing module has no such directory.
  */
  lemma LostBelowReplace(stock: Option<Tree>, sources: Option<Tree>)
    requires Mounted([A, B], sources)
    ensures CollectAll([A, B]) == Directory(map["app" := APP])
    ensures First([A, B], ["app", "Y", "f"]) == Some(Leaf(Regular(F)))
    ensures Get(Children(Overlay(APP, stock, "app", sources)), "Y") == Some(Dir(map["f" := File("x")]))
    ensures Get(Children(RebuildView(APP, stock, "app", sources)), "Y") == Some(EMPTY_DIR)
  {
    CollectedApp();
    FirstIsB();
    hide FromModule, LeftUnion, CollectAll, First, Overlay, RebuildView;
    var all := APP.children;
    assert ParentDir(all[REPLACE].src) + ["Y"] == ["a", "system", "app", "Y"];
    SourceOfA(sources);
    EmptyBelowReplace(all, "Y", stock, "app", sources);
    OverlayEntries(all, stock, "app", sources);
    assert OverlayEntry(all, stock, "Y", sources) == Overlay(Y, None, "Y", sources);
    OverlayOfY(sources);
  }

  lemma SourceOfA(sources: Option<Tree>)
    requires Mounted([A, B], sources)
    ensures At(sources, ["a", "system", "app", "Y"]).None? && At(sources, F) == Some(File("x"))
  {
    hide At;
    assert A in [A, B] && B in [A, B];
    assert At(sources, ["a", "system"]) == A.system && At(sources, ["b", "system"]) == B.system;
    AtAppend(sources, ["a", "system"], "app");
    AtAppend(sources, ["a", "system"] + ["app"], "Y");
    assert ["a", "system"] + ["app"] + ["Y"] == ["a", "system", "app", "Y"];
    AtAppend(sources, ["b", "system"], "app");
    AtAppend(sources, ["b", "system"] + ["app"], "Y");
    AtAppend(sources, ["b", "system"] + ["app"] + ["Y"], "f");
    assert ["b", "system"] + ["app"] + ["Y"] + ["f"] == F;
  }

  lemma OverlayOfY(sources: Option<Tree>)
    requires At(sources, F) == Some(File("x"))
    ensures Overlay(Y, None, "Y", sources) == Some(Dir(map["f" := File("x")]))
  {
    OverlayEntries(Y.children, None, "Y", sources);
    SameEntries(Children(Overlay(Y, None, "Y", sources)), map["f" := File("x")]);
  }
}
