/** What a partition root shows: its children cannot be rebuilt around, so some are dropped. */
module ModuleRoots {
  import opened Options
  import opened FileTree
  import opened ModuleOverlay
  import opened ModuleCommit

  /** Every real entry is named by the module, so that the real directory plays no part in the overlay. */
  ghost predicate Covered(node: FsNode, stock: Option<Tree>)
    decreases node
  {
    node.Directory? ==>
      Replaces(node.children) ||
      forall k :: k in Children(stock) ==>
        k in node.children && k != REPLACE && Covered(node.children[k], Get(Children(stock), k))
  }

  lemma {:induction false} RebuildHides(node: FsNode, stock: Option<Tree>, name: Name, sources: Option<Tree>)
    ensures RebuildView(node, stock, name, sources) == Overlay(node, None, name, sources)
            <==> ReplacementsMatch(node, sources) && Covered(node, stock)
    decreases node
  {
    if node.Directory? {
      var all := node.children;
      if Replaces(all) {
        ReplacedIsOverlay(all, stock, name, sources);
        ReplacedIgnores(all, stock, name, sources);
      } else {
        forall k | k in all
          ensures RebuildView(all[k], Get(Children(stock), k), k, sources) == Overlay(all[k], None, k, sources)
                  <==> ReplacementsMatch(all[k], sources) && Covered(all[k], Get(Children(stock), k))
        {
          RebuildHides(all[k], Get(Children(stock), k), k, sources);
        }
        MergedHides(all, stock, name, sources);
      }
    }
  }

  lemma ReplacedIgnores(all: map<Name, FsNode>, stock: Option<Tree>, name: Name, sources: Option<Tree>)
    requires Replaces(all)
    ensures Overlay(Directory(all), stock, name, sources) == Overlay(Directory(all), None, name, sources)
  {
  }

  lemma CoveredMissing(node: FsNode)
    ensures Covered(node, None)
  {
  }

  lemma MergedHides(all: map<Name, FsNode>, stock: Option<Tree>, name: Name, sources: Option<Tree>)
    requires !Replaces(all)
    requires forall k :: k in all ==>
               (RebuildView(all[k], Get(Children(stock), k), k, sources) == Overlay(all[k], None, k, sources)
                <==> ReplacementsMatch(all[k], sources) && Covered(all[k], Get(Children(stock), k)))
    ensures RebuildView(Directory(all), stock, name, sources) == Overlay(Directory(all), None, name, sources)
            <==> ReplacementsMatch(Directory(all), sources) && Covered(Directory(all), stock)
  {
    hide Overlay, RebuildView;
    OverlayEntries(all, None, name, sources);
    RebuiltEntries(all, stock, name, sources);
    var o := Overlay(Directory(all), None, name, sources).value.entries;
    var r := RebuildView(Directory(all), stock, name, sources).value.entries;
    forall k
      ensures Get(r, k) == Get(o, k) <==>
              (k in all && k != REPLACE ==> ReplacementsMatch(all[k], sources)) &&
              (k in Children(stock) ==> k in all && k != REPLACE && Covered(all[k], Get(Children(stock), k)))
    {
      assert Get(o, k) == OverlayEntry(all, None, k, sources);
      if k in all {
        CoveredMissing(all[k]);
      }
      hide ReplacementsMatch, Covered;
    }
    SameOrNot(r, o);
  }

  /** The same for the selective commit. */
  lemma {:induction false} CommitHides(node: FsNode, stock: Tree, name: Name, sources: Option<Tree>)
    requires node.Directory? || node.Regular? || stock.Dir?
    requires Sourced(node, sources)
    ensures Some(CommitView(node, stock, name, sources)) == Overlay(node, None, name, sources)
            <==> !KindClash(node, stock) && ReplacementsMatch(node, sources) && Covered(node, Some(stock))
    decreases node
  {
    if node.Directory? && stock.Dir? {
      var all := node.children;
      OverlayEntries(all, None, name, sources);
      if NeedsTmpfs(all, Some(stock)) {
        RebuildHides(node, Some(stock), name, sources);
        RebuiltIsDir(all, Some(stock), name, sources);
      } else {
        forall k | k in all
          ensures k in stock.entries
          ensures Some(CommitView(all[k], stock.entries[k], k, sources)) == Overlay(all[k], None, k, sources)
                  <==> !KindClash(all[k], stock.entries[k]) && ReplacementsMatch(all[k], sources) &&
                       Covered(all[k], Some(stock.entries[k]))
        {
          assert !ParentShouldBeTmpfs(all[k], Get(Children(Some(stock)), k));
          CommitHides(all[k], stock.entries[k], k, sources);
        }
        SelectedHides(all, stock.entries, name, sources);
      }
    }
  }

  lemma SelectedHides(all: map<Name, FsNode>, stock: map<Name, Tree>, name: Name, sources: Option<Tree>)
    requires !NeedsTmpfs(all, Some(Dir(stock))) && all.Keys <= stock.Keys
    requires forall k :: k in all ==>
               (Some(CommitView(all[k], stock[k], k, sources)) == Overlay(all[k], None, k, sources)
                <==> !KindClash(all[k], stock[k]) && ReplacementsMatch(all[k], sources) &&
                     Covered(all[k], Some(stock[k])))
    ensures Some(CommitView(Directory(all), Dir(stock), name, sources)) == Overlay(Directory(all), None, name, sources)
            <==> !KindClash(Directory(all), Dir(stock)) && ReplacementsMatch(Directory(all), sources) &&
                 Covered(Directory(all), Some(Dir(stock)))
  {
    hide Overlay, RebuildView;
    OverlayEntries(all, None, name, sources);
    SelectedEntries(all, stock, name, sources);
    var o := Overlay(Directory(all), None, name, sources).value.entries;
    var c := CommitView(Directory(all), Dir(stock), name, sources).entries;
    forall k
      ensures Get(c, k) == Get(o, k) <==>
              (k in all ==> !KindClash(all[k], stock[k]) && ReplacementsMatch(all[k], sources)) &&
              (k in stock ==> k in all && Covered(all[k], Some(stock[k])))
    {
      hide KindClash, ReplacementsMatch, Covered, CommitView;
      assert Get(o, k) == OverlayEntry(all, None, k, sources);
    }
    hide CommitView;
    SameOrNot(c, o);
  }

  lemma SelectedEntries(all: map<Name, FsNode>, stock: map<Name, Tree>, name: Name, sources: Option<Tree>)
    requires !NeedsTmpfs(all, Some(Dir(stock)))
    ensures CommitView(Directory(all), Dir(stock), name, sources).Dir?
    ensures forall k :: Get(CommitView(Directory(all), Dir(stock), name, sources).entries, k) ==
                        if k in all && k in stock then Some(CommitView(all[k], stock[k], k, sources)) else Get(stock, k)
  {
  }

  /* ----- the root ----- */

  /** What a partition root shows after its commit. */
  ghost function RootView(node: FsNode, stock: map<Name, Tree>, name: Name, sources: Option<Tree>): Tree {
    CommitView(Committed(node, Some(Dir(stock)), true), Dir(stock), name, sources)
  }

  /** A child that would need a rebuild, but is there already. */
  ghost predicate AlreadyThere(node: FsNode, there: Option<Tree>, name: Name, sources: Option<Tree>) {
    match node
    case Whiteout => there.None?
    case Symlink(target) => there == Some(Link(target))
    case MagiskLink => there == Some(Link(MagiskLinkTarget(name)))
    case Regular(src) => there == At(sources, src)
    case Directory(_) => false
  }

  /**
    A root shows its whole overlay if each child it must drop is there already,
    the others neither clash nor lose anything below a replacement, and a
    `.replace` file of its own would have nothing to hide.
  */
  ghost predicate RootFits(node: FsNode, stock: map<Name, Tree>, sources: Option<Tree>) {
    node.Directory? &&
    forall k :: k in node.children || k in stock ==> ChildFits(node.children, stock, k, sources)
  }

  ghost predicate ChildFits(all: map<Name, FsNode>, stock: map<Name, Tree>, k: Name, sources: Option<Tree>) {
    if k !in all || k == REPLACE then Replaces(all) ==> k !in stock
    else if ParentShouldBeTmpfs(all[k], Get(stock, k)) then AlreadyThere(all[k], Get(stock, k), k, sources)
    else !KindClash(all[k], stock[k]) && ReplacementsMatch(all[k], sources) &&
         (Replaces(all) ==> Covered(all[k], Some(stock[k])))
  }

  lemma DroppedChild(node: FsNode, there: Option<Tree>, stock: Option<Tree>, name: Name, sources: Option<Tree>)
    requires ParentShouldBeTmpfs(node, there) && Sourced(node, sources)
    ensures Overlay(node, stock, name, sources) == there <==> AlreadyThere(node, there, name, sources)
  {
  }

  lemma RootEntry(all: map<Name, FsNode>, stock: map<Name, Tree>, k: Name, shown: Option<Tree>, sources: Option<Tree>)
    requires k in all ==> Sourced(all[k], sources)
    requires shown == if k in RootChildren(all, Some(Dir(stock))) && k in stock
                      then Some(CommitView(all[k], stock[k], k, sources)) else Get(stock, k)
    ensures shown == OverlayEntry(all, Some(Dir(stock)), k, sources) <==> ChildFits(all, stock, k, sources)
  {
    hide CommitView, KindClash, ReplacementsMatch, Covered, Overlay, AlreadyThere, Sourced;
    if k in all && k != REPLACE {
      var base := if Replaces(all) then map[] else stock;
      if ParentShouldBeTmpfs(all[k], Get(stock, k)) {
        DroppedChild(all[k], Get(stock, k), Get(base, k), k, sources);
      } else if Replaces(all) {
        CommitHides(all[k], stock[k], k, sources);
      } else {
        SelectiveCommitIsOverlay(all[k], stock[k], k, sources);
      }
    }
  }

  lemma RootNeedsNoTmpfs(all: map<Name, FsNode>, stock: Option<Tree>)
    ensures !NeedsTmpfs(RootChildren(all, stock), stock)
  {
  }

  /** A partition root shows the overlay of its whole collected tree exactly under that condition. */
  lemma RootShowsOverlay(node: FsNode, stock: map<Name, Tree>, name: Name, sources: Option<Tree>)
    requires Sourced(node, sources)
    ensures (Some(RootView(node, stock, name, sources)) == Overlay(node, Some(Dir(stock)), name, sources))
            <==> RootFits(node, stock, sources)
  {
    if node.Directory? {
      DirectoryRoot(node.children, stock, name, sources);
    }
  }

  lemma DirectoryRoot(all: map<Name, FsNode>, stock: map<Name, Tree>, name: Name, sources: Option<Tree>)
    requires Sourced(Directory(all), sources)
    ensures (Some(RootView(Directory(all), stock, name, sources)) ==
             Overlay(Directory(all), Some(Dir(stock)), name, sources))
            <==> RootFits(Directory(all), stock, sources)
  {
    hide CommitView, Overlay, ChildFits, RootChildren;
    var kept := RootChildren(all, Some(Dir(stock)));
    RootNeedsNoTmpfs(all, Some(Dir(stock)));
    SelectedEntries(kept, stock, name, sources);
    OverlayEntries(all, Some(Dir(stock)), name, sources);
    var o := Overlay(Directory(all), Some(Dir(stock)), name, sources).value.entries;
    var c := CommitView(Directory(kept), Dir(stock), name, sources).entries;
    forall k ensures Get(c, k) == Get(o, k) <==> ChildFits(all, stock, k, sources) {
      KeptChild(all, Some(Dir(stock)), k);
      RootEntry(all, stock, k, Get(c, k), sources);
    }
    forall k | k !in all && k !in stock ensures ChildFits(all, stock, k, sources) {
      NobodysChild(all, stock, k, sources);
    }
    SameOrNot(c, o);
  }

  lemma KeptChild(all: map<Name, FsNode>, stock: Option<Tree>, k: Name)
    ensures k in RootChildren(all, stock) ==> k in all && RootChildren(all, stock)[k] == all[k]
  {
  }

  lemma NobodysChild(all: map<Name, FsNode>, stock: map<Name, Tree>, k: Name, sources: Option<Tree>)
    requires k !in all && k !in stock
    ensures ChildFits(all, stock, k, sources)
  {
  }

  /** A `.replace` file at a root is ignored: with or without it the same is shown. */
  lemma RootReplaceIgnored(all: map<Name, FsNode>, stock: Option<Tree>)
    ensures Committed(Directory(all), stock, true) == Committed(Directory(all - {REPLACE}), stock, true)
  {
    assert RootChildren(all, stock) == RootChildren(all - {REPLACE}, stock);
  }

  /** A new file at the top of a partition clashes with nothing and is not shown. */
  lemma NewFileAtRoot(stock: map<Name, Tree>, k: Name, src: Path, name: Name, sources: Option<Tree>)
    requires k !in stock && k != REPLACE && At(sources, src).Some?
    ensures var root := Directory(map[k := Regular(src)]);
            !KindClash(root, Dir(stock)) && !RootFits(root, stock, sources) &&
            RootView(root, stock, name, sources) == Dir(stock)
  {
    var root := Directory(map[k := Regular(src)]);
    assert !ChildFits(root.children, stock, k, sources);
    var kept := RootChildren(root.children, Some(Dir(stock)));
    assert kept == map[];
    SelectedEntries(kept, stock, name, sources);
    SameEntries(CommitView(Directory(kept), Dir(stock), name, sources).entries, stock);
  }

  /**
    What each name of a partition shows, apart from directories inside directories:
    links, whiteouts and a `.replace` file have no effect, nothing is added, no real
    link is covered, and a file covers a file.
  */
  lemma RootChildShown(all: map<Name, FsNode>, stock: map<Name, Tree>, k: Name, name: Name, sources: Option<Tree>)
    requires Sourced(Directory(all), sources)
    ensures RootView(Directory(all), stock, name, sources).Dir?
    ensures var shown := Get(RootView(Directory(all), stock, name, sources).entries, k);
            (k !in all || k == ".replace" || k !in stock || stock[k].Link? ==> shown == Get(stock, k)) &&
            (k in all && (all[k].Symlink? || all[k].MagiskLink? || all[k].Whiteout?) ==> shown == Get(stock, k)) &&
            (k in all && all[k].Regular? && k != ".replace" && k in stock && !stock[k].Link? ==>
               shown == if stock[k].Dir? then Some(stock[k]) else At(sources, all[k].src)) &&
            (k in all && all[k].Directory? && k in stock && !stock[k].Dir? ==> shown == Some(stock[k]))
  {
    var kept := RootChildren(all, Some(Dir(stock)));
    RootNeedsNoTmpfs(all, Some(Dir(stock)));
    SelectedEntries(kept, stock, name, sources);
    if k in kept && k in stock {
      assert Sourced(all[k], sources);
      if all[k].Directory? && !stock[k].Dir? {
        RebuiltIsDir(all[k].children, Some(stock[k]), k, sources);
      }
    }
  }
}
