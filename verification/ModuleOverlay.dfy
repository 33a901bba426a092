/**
  What a committed module tree must look like: the overlay specification, the
  view produced by committing selectively, and exactly when the two agree.
*/
module ModuleOverlay {
  import opened Options
  import opened FileTree

  const REPLACE: Name := ".replace"
  const EMPTY_DIR: Tree := Dir(map[])
  const EMPTY_FILE: Tree := File("")

  datatype FsNode =
    | Directory(children: map<Name, FsNode>)
    | Regular(src: Path)
    | Symlink(target: string)
    | MagiskLink
    | Whiteout

  /**
    A bind mount of `src` over `dst`. The kernel refuses it when the source is
    missing or only one of the two is a directory, and the caller ignores errors.
  */
  function BindOver(dst: Tree, src: Option<Tree>): Tree {
    if src.Some? && src.value.Dir? == dst.Dir? then src.value else dst
  }

  function MagiskLinkTarget(name: Name): string {
    if name == "supolicy" then "./magiskpolicy" else "./magisk"
  }

  /** A `.replace` file whose containing directory can be named. */
  predicate Replaces(children: map<Name, FsNode>) {
    REPLACE in children && children[REPLACE].Regular? && children[REPLACE].src != []
  }

  function ParentDir(p: Path): Path
    requires p != []
  {
    p[..|p| - 1]
  }

  /**
    The intended contents of a path where `node` is laid over `stock`; absent
    when the node is a whiteout. Below a `.replace` file the real directory plays
    no part. `sources` is the tree module files are mounted from.
  */
  ghost function Overlay(node: FsNode, stock: Option<Tree>, name: Name, sources: Option<Tree>): Option<Tree>
    decreases node
  {
    match node
    case Whiteout => None
    case Symlink(target) => Some(Link(target))
    case MagiskLink => Some(Link(MagiskLinkTarget(name)))
    case Regular(src) => Some(BindOver(EMPTY_FILE, At(sources, src)))
    case Directory(all) =>
      var children := all - {REPLACE};
      var base := if Replaces(all) then map[] else Children(stock);
      var view := map k | k in children.Keys + base.Keys ::
        if k in children then Overlay(children[k], Get(base, k), k, sources) else Some(base[k]);
      Some(Dir(Present(view)))
  }

  /**
    What rebuilding `node` in tmpfs puts at a path: the overlay, except that below
    a `.replace` file every directory is the replacing module's own, mounted whole.
  */
  ghost function RebuildView(node: FsNode, stock: Option<Tree>, name: Name, sources: Option<Tree>): Option<Tree>
    decreases node
  {
    match node
    case Directory(all) =>
      var children := all - {REPLACE};
      if Replaces(all) then
        var view := map k | k in children ::
          if children[k].Directory? then Some(RawDir(all, k, sources)) else RebuildView(children[k], None, k, sources);
        Some(Dir(Present(view)))
      else
        var base := Children(stock);
        var view := map k | k in children.Keys + base.Keys ::
          if k in children then RebuildView(children[k], Get(base, k), k, sources) else Some(base[k]);
        Some(Dir(Present(view)))
    case _ => Overlay(node, stock, name, sources)
  }

  /** What is mounted for a directory below a `.replace` file: the directory beside that file, if there is one. */
  function RawDir(all: map<Name, FsNode>, k: Name, sources: Option<Tree>): Tree
    requires Replaces(all)
  {
    BindOver(EMPTY_DIR, At(sources, ParentDir(all[REPLACE].src) + [k]))
  }

  /** The entries that are there. */
  function Present(view: map<Name, Option<Tree>>): (m: map<Name, Tree>)
    ensures forall k :: Get(m, k) == (if k in view then view[k] else None)
  {
    map k | k in view && view[k].Some? :: view[k].value
  }

  /** A node its parent cannot offer without being rebuilt in tmpfs. */
  predicate ParentShouldBeTmpfs(node: FsNode, stock: Option<Tree>) {
    match node
    case Directory(_) => stock.None? || stock.value.Link?
    case Regular(_) => stock.None? || stock.value.Link?
    case _ => true
  }

  predicate NeedsTmpfs(children: map<Name, FsNode>, stock: Option<Tree>) {
    REPLACE in children || exists k :: k in children && ParentShouldBeTmpfs(children[k], Get(Children(stock), k))
  }

  /** A partition root cannot be rebuilt: the children that would need it are dropped. */
  function RootChildren(children: map<Name, FsNode>, stock: Option<Tree>): map<Name, FsNode> {
    map k | k in children && k != REPLACE && !ParentShouldBeTmpfs(children[k], Get(Children(stock), k)) :: children[k]
  }

  /** The view of an existing `stock` after committing `node` onto it selectively. */
  ghost function CommitView(node: FsNode, stock: Tree, name: Name, sources: Option<Tree>): Tree
    decreases node
  {
    match node
    case Directory(children) =>
      if NeedsTmpfs(children, Some(stock)) then
        BindOver(stock, RebuildView(node, Some(stock), name, sources))
      else if stock.Dir? then
        Dir(map k | k in stock.entries ::
              if k in children then CommitView(children[k], stock.entries[k], k, sources) else stock.entries[k])
      else stock
    case Regular(src) => BindOver(stock, At(sources, src))
    case _ => stock
  }

  /** Every file node names something that can be mounted over a file. */
  ghost predicate Sourced(node: FsNode, sources: Option<Tree>) {
    match node
    case Directory(children) => forall k :: k in children ==> Sourced(children[k], sources)
    case Regular(src) => At(sources, src).Some? && !At(sources, src).value.Dir?
    case _ => true
  }

  /**
    The module and the real tree disagree on what is a directory at a place the
    selective commit reaches with a bind mount.
  */
  ghost predicate KindClash(node: FsNode, stock: Tree) {
    match node
    case Directory(children) =>
      !stock.Dir? ||
      (!NeedsTmpfs(children, Some(stock)) &&
       exists k :: k in children && k in stock.entries && KindClash(children[k], stock.entries[k]))
    case _ => stock.Dir?
  }

  /** A module directory lands on a real symbolic link (whose target this model does not resolve). */
  ghost predicate DirOnLink(node: FsNode, stock: Option<Tree>)
    decreases node
  {
    node.Directory? &&
    ((stock.Some? && stock.value.Link?) ||
     exists k :: k in node.children && DirOnLink(node.children[k], Get(Children(stock), k)))
  }

  /* ----- what the two views hold under each name ----- */

  lemma OverlayEntries(all: map<Name, FsNode>, stock: Option<Tree>, name: Name, sources: Option<Tree>)
    ensures IsDir(Overlay(Directory(all), stock, name, sources))
    ensures forall k :: Get(Children(Overlay(Directory(all), stock, name, sources)), k) ==
                        OverlayEntry(all, stock, k, sources)
  {
  }

  ghost function OverlayEntry(all: map<Name, FsNode>, stock: Option<Tree>, k: Name,
                              sources: Option<Tree>): Option<Tree> {
    var base := if Replaces(all) then map[] else Children(stock);
    if k in all && k != REPLACE then Overlay(all[k], Get(base, k), k, sources) else Get(base, k)
  }

  lemma RebuiltEntries(all: map<Name, FsNode>, stock: Option<Tree>, name: Name, sources: Option<Tree>)
    requires !Replaces(all)
    ensures IsDir(RebuildView(Directory(all), stock, name, sources))
    ensures forall k :: Get(Children(RebuildView(Directory(all), stock, name, sources)), k) ==
                        (if k in all && k != REPLACE
                         then RebuildView(all[k], Get(Children(stock), k), k, sources)
                         else Get(Children(stock), k))
  {
  }

  lemma ReplacedEntries(all: map<Name, FsNode>, stock: Option<Tree>, name: Name, sources: Option<Tree>)
    requires Replaces(all)
    ensures IsDir(RebuildView(Directory(all), stock, name, sources))
    ensures forall k :: Get(Children(RebuildView(Directory(all), stock, name, sources)), k) ==
                        (if k !in all || k == REPLACE then None
                         else if all[k].Directory? then Some(RawDir(all, k, sources))
                         else RebuildView(all[k], None, k, sources))
  {
  }

  /** A directory node with no children reproduces the real directory exactly. */
  lemma EmptyNodeMirrors(stock: Tree, name: Name, sources: Option<Tree>)
    requires stock.Dir?
    ensures RebuildView(Directory(map[]), Some(stock), name, sources) == Some(stock)
    ensures Overlay(Directory(map[]), Some(stock), name, sources) == Some(stock)
  {
    RebuiltEntries(map[], Some(stock), name, sources);
    OverlayEntries(map[], Some(stock), name, sources);
    SameEntries(RebuildView(Directory(map[]), Some(stock), name, sources).value.entries, stock.entries);
    SameEntries(Overlay(Directory(map[]), Some(stock), name, sources).value.entries, stock.entries);
  }

  lemma SameEntries(a: map<Name, Tree>, b: map<Name, Tree>)
    requires forall k :: Get(a, k) == Get(b, k)
    ensures a == b
  {
    forall k ensures k in a <==> k in b { assert Get(a, k) == Get(b, k); }
    forall k | k in a ensures a[k] == b[k] { assert Get(a, k) == Get(b, k); }
  }

  /* ----- rebuilding shows the overlay ----- */

  /**
    The directory `raw` holds exactly what the node lays over nothing, entry by entry; no whiteout or `.replace` file is
    among them.
  */
  ghost predicate Matches(node: FsNode, raw: Tree, name: Name, sources: Option<Tree>)
    decreases node
  {
    match node
    case Directory(all) =>
      raw.Dir? &&
      forall k :: k in all || k in raw.entries ==>
        if k !in all || k == REPLACE || all[k].Whiteout? then k !in raw.entries
        else k in raw.entries && Matches(all[k], raw.entries[k], k, sources)
    case Regular(src) => raw == BindOver(EMPTY_FILE, At(sources, src))
    case Symlink(target) => raw == Link(target)
    case MagiskLink => raw == Link(MagiskLinkTarget(name))
    case Whiteout => false
  }

  /** Below every outermost `.replace` file, the replacing module's directories hold all the tree says. */
  ghost predicate ReplacementsMatch(node: FsNode, sources: Option<Tree>)
    decreases node
  {
    match node
    case Directory(all) =>
      if Replaces(all) then
        forall k :: k in all && k != REPLACE && all[k].Directory? ==>
          Matches(all[k], RawDir(all, k, sources), k, sources)
      else forall k :: k in all && k != REPLACE ==> ReplacementsMatch(all[k], sources)
    case _ => true
  }

  lemma {:induction false} MatchesIsOverlay(node: FsNode, raw: Tree, name: Name, sources: Option<Tree>)
    ensures Matches(node, raw, name, sources) <==> Overlay(node, None, name, sources) == Some(raw)
    decreases node
  {
    if node.Directory? {
      OverlayEntries(node.children, None, name, sources);
      if raw.Dir? {
        forall k | k in node.children && k in raw.entries
          ensures Matches(node.children[k], raw.entries[k], k, sources) <==>
                  Overlay(node.children[k], None, k, sources) == Some(raw.entries[k])
        {
          MatchesIsOverlay(node.children[k], raw.entries[k], k, sources);
        }
        MatchesEntries(node.children, raw.entries, name, sources);
      }
    }
  }

  lemma OnlyWhiteoutsVanish(node: FsNode, stock: Option<Tree>, name: Name, sources: Option<Tree>)
    ensures Overlay(node, stock, name, sources).None? <==> node.Whiteout?
  {
  }

  lemma MatchesEntries(all: map<Name, FsNode>, raw: map<Name, Tree>, name: Name, sources: Option<Tree>)
    requires forall k :: k in all && k in raw ==>
               (Matches(all[k], raw[k], k, sources) <==> Overlay(all[k], None, k, sources) == Some(raw[k]))
    ensures Matches(Directory(all), Dir(raw), name, sources) <==>
            Overlay(Directory(all), None, name, sources) == Some(Dir(raw))
  {
    hide Overlay;
    OverlayEntries(all, None, name, sources);
    var o := Overlay(Directory(all), None, name, sources).value.entries;
    forall k
      ensures Get(o, k) == Get(raw, k) <==>
              (k in all || k in raw ==>
                 if k !in all || k == REPLACE || all[k].Whiteout? then k !in raw
                 else k in raw && Matches(all[k], raw[k], k, sources))
    {
      hide Matches;
      assert Get(o, k) == OverlayEntry(all, None, k, sources);
      if k in all {
        OnlyWhiteoutsVanish(all[k], None, k, sources);
      }
    }
    SameOrNot(o, raw);
  }

  /** A rebuilt directory shows the overlay exactly if, below `.replace` files, no other module has a say. */
  lemma {:induction false} RebuildIsOverlay(node: FsNode, stock: Option<Tree>, name: Name, sources: Option<Tree>)
    ensures RebuildView(node, stock, name, sources) == Overlay(node, stock, name, sources)
            <==> ReplacementsMatch(node, sources)
    decreases node
  {
    if node.Directory? {
      var all := node.children;
      if Replaces(all) {
        ReplacedIsOverlay(all, stock, name, sources);
      } else {
        forall k | k in all
          ensures RebuildView(all[k], Get(Children(stock), k), k, sources) ==
                  Overlay(all[k], Get(Children(stock), k), k, sources)
                  <==> ReplacementsMatch(all[k], sources)
        {
          RebuildIsOverlay(all[k], Get(Children(stock), k), k, sources);
        }
        MergedIsOverlay(all, stock, name, sources);
      }
    }
  }

  lemma ReplacedIsOverlay(all: map<Name, FsNode>, stock: Option<Tree>, name: Name, sources: Option<Tree>)
    requires Replaces(all)
    ensures RebuildView(Directory(all), stock, name, sources) == Overlay(Directory(all), stock, name, sources)
            <==> ReplacementsMatch(Directory(all), sources)
  {
    OverlayEntries(all, stock, name, sources);
    ReplacedEntries(all, stock, name, sources);
    var o := Overlay(Directory(all), stock, name, sources).value.entries;
    var r := RebuildView(Directory(all), stock, name, sources).value.entries;
    forall k ensures Get(r, k) == Get(o, k) <==>
                     (k in all && k != REPLACE && all[k].Directory? ==>
                        Matches(all[k], RawDir(all, k, sources), k, sources))
    {
      if k in all && k != REPLACE {
        if all[k].Directory? {
          MatchesIsOverlay(all[k], RawDir(all, k, sources), k, sources);
        } else {
          LeafIsOverlay(all[k], k, sources);
        }
      }
    }
    hide Overlay, RebuildView, Matches;
    SameOrNot(r, o);
  }

  lemma LeafIsOverlay(node: FsNode, name: Name, sources: Option<Tree>)
    requires !node.Directory?
    ensures RebuildView(node, None, name, sources) == Overlay(node, None, name, sources)
  {
  }

  lemma MergedIsOverlay(all: map<Name, FsNode>, stock: Option<Tree>, name: Name, sources: Option<Tree>)
    requires !Replaces(all)
    requires forall k :: k in all ==>
               (RebuildView(all[k], Get(Children(stock), k), k, sources) ==
                Overlay(all[k], Get(Children(stock), k), k, sources)
                <==> ReplacementsMatch(all[k], sources))
    ensures RebuildView(Directory(all), stock, name, sources) == Overlay(Directory(all), stock, name, sources)
            <==> ReplacementsMatch(Directory(all), sources)
  {
    hide Overlay, RebuildView;
    OverlayEntries(all, stock, name, sources);
    RebuiltEntries(all, stock, name, sources);
    var o := Overlay(Directory(all), stock, name, sources).value.entries;
    var r := RebuildView(Directory(all), stock, name, sources).value.entries;
    forall k ensures Get(r, k) == Get(o, k) <==> (k in all && k != REPLACE ==> ReplacementsMatch(all[k], sources)) {
      hide ReplacementsMatch;
      assert Get(o, k) == OverlayEntry(all, stock, k, sources);
    }
    SameOrNot(r, o);
  }

  lemma SameOrNot(a: map<Name, Tree>, b: map<Name, Tree>)
    ensures a == b <==> forall k :: Get(a, k) == Get(b, k)
  {
    if forall k :: Get(a, k) == Get(b, k) {
      SameEntries(a, b);
    }
  }

  /* ----- committing selectively ----- */

  /** Choosing bind mounts or a rebuild directory by directory is invisible, exactly when no kind clash is reached. */
  lemma {:induction false} SelectiveCommitIsRebuild(node: FsNode, stock: Tree, name: Name, sources: Option<Tree>)
    requires node.Directory? || node.Regular? || stock.Dir?
    requires Sourced(node, sources)
    ensures Some(CommitView(node, stock, name, sources)) == RebuildView(node, Some(stock), name, sources)
            <==> !KindClash(node, stock)
    decreases node
  {
    if node.Directory? && stock.Dir? && !NeedsTmpfs(node.children, Some(stock)) {
      var children := node.children;
      RebuiltEntries(children, Some(stock), name, sources);
      var o := RebuildView(node, Some(stock), name, sources).value.entries;
      var c := CommitView(node, stock, name, sources).entries;
      forall k | k in children
        ensures k in stock.entries
        ensures Get(c, k) == Get(o, k) <==> !KindClash(children[k], stock.entries[k])
      {
        assert !ParentShouldBeTmpfs(children[k], Get(Children(Some(stock)), k));
        SelectiveCommitIsRebuild(children[k], stock.entries[k], k, sources);
      }
      forall k | k !in children ensures Get(c, k) == Get(o, k) {}
      if forall k :: Get(c, k) == Get(o, k) {
        SameEntries(c, o);
      }
      if c == o {
        assert forall k :: k in children ==> Get(c, k) == Get(o, k);
      }
    }
  }

  /** The view is the overlay exactly when no kind clash is reached and no replacement hides another module. */
  lemma {:induction false} SelectiveCommitIsOverlay(node: FsNode, stock: Tree, name: Name, sources: Option<Tree>)
    requires node.Directory? || node.Regular? || stock.Dir?
    requires Sourced(node, sources)
    ensures Some(CommitView(node, stock, name, sources)) == Overlay(node, Some(stock), name, sources)
            <==> !KindClash(node, stock) && ReplacementsMatch(node, sources)
    decreases node
  {
    if node.Directory? && stock.Dir? {
      var all := node.children;
      OverlayEntries(all, Some(stock), name, sources);
      if NeedsTmpfs(all, Some(stock)) {
        RebuildIsOverlay(node, Some(stock), name, sources);
        RebuiltIsDir(all, Some(stock), name, sources);
      } else {
        var o := Overlay(node, Some(stock), name, sources).value.entries;
        var c := CommitView(node, stock, name, sources).entries;
        forall k | k in all
          ensures k in stock.entries
          ensures Get(c, k) == Get(o, k) <==> !KindClash(all[k], stock.entries[k]) && ReplacementsMatch(all[k], sources)
        {
          assert !ParentShouldBeTmpfs(all[k], Get(Children(Some(stock)), k));
          SelectiveCommitIsOverlay(all[k], stock.entries[k], k, sources);
        }
        forall k | k !in all ensures Get(c, k) == Get(o, k) {}
        if forall k :: Get(c, k) == Get(o, k) {
          SameEntries(c, o);
        }
        if c == o {
          assert forall k :: k in all ==> Get(c, k) == Get(o, k);
        }
      }
    }
  }

  lemma RebuiltIsDir(all: map<Name, FsNode>, stock: Option<Tree>, name: Name, sources: Option<Tree>)
    ensures IsDir(RebuildView(Directory(all), stock, name, sources))
  {
  }

  /** A clash is visible: a module file over a real directory leaves the directory in place. */
  lemma ClashIsVisible(stock: Tree, sources: Option<Tree>)
    requires stock.Dir? && At(sources, ["m", "app"]) == Some(File("x"))
    ensures var node := Directory(map["app" := Regular(["m", "app"])]);
            var under := Dir(map["app" := stock]);
            KindClash(node, under) &&
            CommitView(node, under, "system", sources) == under &&
            Overlay(node, Some(under), "system", sources) == Some(Dir(map["app" := File("x")]))
  {
    var node := Directory(map["app" := Regular(["m", "app"])]);
    var under := Dir(map["app" := stock]);
    assert !NeedsTmpfs(node.children, Some(under));
    assert "app" in node.children && KindClash(node.children["app"], under.entries["app"]);
    OverlayEntries(node.children, Some(under), "system", sources);
    SameEntries(Children(Overlay(node, Some(under), "system", sources)), map["app" := File("x")]);
  }

  /** Links to Magisk itself, by name. */
  lemma MagiskLinks(stock: Option<Tree>, name: Name, sources: Option<Tree>)
    ensures Overlay(MagiskLink, stock, "supolicy", sources) == Some(Link("./magiskpolicy"))
    ensures name != "supolicy" ==> Overlay(MagiskLink, stock, name, sources) == Some(Link("./magisk"))
  {
  }

  /** A file whose source is missing is shown as the empty file it was to be mounted on. */
  lemma MissingSource(src: Path, stock: Option<Tree>, name: Name, sources: Option<Tree>)
    requires At(sources, src).None?
    ensures Overlay(Regular(src), stock, name, sources) == Some(File(""))
    ensures RebuildView(Regular(src), stock, name, sources) == Some(File(""))
  {
  }

  /**
    A file named `.replace` empties a directory and is not itself shown; a directory or link of that name does neither.
  */
  lemma ReplaceFile(node: FsNode, stock: Tree, name: Name, sources: Option<Tree>)
    requires stock.Dir? && (node.Regular? ==> node.src != [])
    ensures var all := map[".replace" := node];
            Overlay(Directory(all), Some(stock), name, sources) == Some(if node.Regular? then Dir(map[]) else stock) &&
            RebuildView(Directory(all), Some(stock), name, sources) == Some(if node.Regular? then Dir(map[]) else stock)
  {
    var all := map[".replace" := node];
    OverlayEntries(all, Some(stock), name, sources);
    SameEntries(Overlay(Directory(all), Some(stock), name, sources).value.entries,
                if node.Regular? then map[] else stock.entries);
    if node.Regular? {
      ReplacedEntries(all, Some(stock), name, sources);
      SameEntries(RebuildView(Directory(all), Some(stock), name, sources).value.entries, map[]);
    } else {
      RebuiltEntries(all, Some(stock), name, sources);
      SameEntries(RebuildView(Directory(all), Some(stock), name, sources).value.entries, stock.entries);
    }
  }
}
