/** From a list of modules to the file system the device shows. */
module ModuleApply {
  import opened Options
  import opened FileTree
  import opened ModuleOverlay
  import opened ModuleCommit
  import opened ModuleCollect
  import opened ModuleRoots

  const SYSTEM: Name := "system"
  const SECONDARY_PARTITIONS: seq<Name> := ["vendor", "product", "system_ext"]

  /** The subtrees named in `names` that are partitions of their own on this device. */
  function SeparateRoots(system: map<Name, FsNode>, visible: Option<Tree>, names: seq<Name>): set<Name> {
    set k | k in names && k in system && IsDir(Get(Children(visible), k))
  }

  function PartitionRoots(system: map<Name, FsNode>, visible: Option<Tree>): map<Name, FsNode> {
    var moved := SeparateRoots(system, visible, SECONDARY_PARTITIONS);
    (map k | k in moved :: system[k])[SYSTEM := Directory(system - moved)]
  }

  /** Takes the trees of secondary partitions out of the main tree. */
  method SplitRoots(system: map<Name, FsNode>, visible: Option<Tree>, names: seq<Name>)
    returns (roots: map<Name, FsNode>, children: map<Name, FsNode>)
    ensures roots == map k | k in SeparateRoots(system, visible, names) :: system[k]
    ensures children == system - roots.Keys
  {
    children, roots := system, map[];
    var i := 0;
    while i < |names|
      invariant i <= |names|
      invariant roots == map k | k in SeparateRoots(system, visible, names[..i]) :: system[k]
      invariant children == system - roots.Keys
    {
      var k := names[i];
      AtOne(visible, k, None);
      if IsDir(At(visible, [k])) && k in children {
        roots := roots[k := children[k]];
        children := children - {k};
      }
      assert names[..i + 1] == names[..i] + [k];
      assert SeparateRoots(system, visible, names[..i + 1]) == roots.Keys;
      i := i + 1;
    }
    assert names[..i] == names;
  }

  /** The partitions after the roots in `done` were committed. */
  ghost function Shown(roots: map<Name, FsNode>, done: set<Name>, stock: map<Name, Tree>,
                       sources: Option<Tree>): map<Name, Tree> {
    map k | k in stock :: if k in roots && k in done
                          then CommitView(Committed(roots[k], Some(stock[k]), true), stock[k], k, sources)
                          else stock[k]
  }

  ghost predicate AvoidLinks(roots: map<Name, FsNode>, stock: map<Name, Tree>) {
    forall k :: k in roots && k in stock ==> !DirOnLink(Committed(roots[k], Some(stock[k]), true), Some(stock[k]))
  }

  /**
    Every partition shows what committing its root gives, which is the overlay of
    the whole tree collected for it exactly if that fits; everything else is untouched.
  */
  ghost predicate Applied(roots: map<Name, FsNode>, before: map<Name, Tree>, after: map<Name, Tree>,
                          sources: Option<Tree>) {
    after.Keys == before.Keys &&
    forall k :: k in before ==>
      if k in roots && before[k].Dir? then
        after[k] == RootView(roots[k], before[k].entries, k, sources) &&
        (Some(after[k]) == Overlay(roots[k], Some(before[k]), k, sources) <==>
         RootFits(roots[k], before[k].entries, sources))
      else k !in roots ==> after[k] == before[k]
  }

  method CommitRoot(space: MountSpace, roots: map<Name, FsNode>, k: Name, ghost done: set<Name>,
                    ghost stock: map<Name, Tree>)
    requires k in roots && k in stock && k !in done && AvoidLinks(roots, stock)
    requires space.visible == Some(Dir(Shown(roots, done, stock, space.sources)))
    requires IsDir(space.worker) && k !in Children(space.worker)
    modifies space
    ensures space.visible == Some(Dir(Shown(roots, done + {k}, stock, space.sources)))
    ensures IsDir(space.worker) && Children(space.worker).Keys <= Children(old(space.worker)).Keys + {k}
  {
    ghost var v, w := space.visible, space.worker;
    AtOne(v, k, None);
    ClearEntry(w, [], k);
    assert [] + [k] == [k];
    var ok, built := space.Commit(roots[k], [k], true);
    ghost var seen := CommitView(Committed(roots[k], Some(stock[k]), true), stock[k], k, space.sources);
    AtOne(v, k, Some(seen));
    AtOne(w, k, built);
    assert Shown(roots, done, stock, space.sources)[k := seen] == Shown(roots, done + {k}, stock, space.sources);
  }

  method CommitRoots(space: MountSpace, roots: map<Name, FsNode>)
    requires IsDir(space.visible) && roots.Keys <= Children(space.visible).Keys
    requires IsDir(space.worker) && roots.Keys !! Children(space.worker).Keys
    requires AvoidLinks(roots, Children(space.visible))
    modifies space
    ensures space.visible == Some(Dir(Shown(roots, roots.Keys, Children(old(space.visible)), space.sources)))
  {
    ghost var stock := Children(space.visible);
    ghost var done := {};
    assert Shown(roots, {}, stock, space.sources) == stock;
    var todo := roots.Keys;
    while todo != {}
      invariant todo <= roots.Keys && done == roots.Keys - todo
      invariant space.visible == Some(Dir(Shown(roots, done, stock, space.sources)))
      invariant IsDir(space.worker) && todo !! Children(space.worker).Keys
      decreases todo
    {
      var k :| k in todo;
      CommitRoot(space, roots, k, done, stock);
      todo, done := todo - {k}, done + {k};
    }
    assert done == roots.Keys;
  }

  lemma ShownIsApplied(roots: map<Name, FsNode>, stock: map<Name, Tree>, sources: Option<Tree>)
    requires forall k :: k in roots ==> k in stock && stock[k].Dir? && Sourced(roots[k], sources)
    ensures Applied(roots, stock, Shown(roots, roots.Keys, stock, sources), sources)
  {
    hide CommitView, Overlay, RootFits;
    forall k | k in roots
      ensures Some(RootView(roots[k], stock[k].entries, k, sources)) == Overlay(roots[k], Some(stock[k]), k, sources)
              <==> RootFits(roots[k], stock[k].entries, sources)
    {
      RootShowsOverlay(roots[k], stock[k].entries, k, sources);
    }
  }

  /** A secondary partition that is a directory of its own on this device. */
  predicate OwnPartition(before: map<Name, Tree>, k: Name) {
    (k == "vendor" || k == "product" || k == "system_ext") && IsDir(Get(before, k))
  }

  /**
    Partition by partition: `/vendor`, `/product` and `/system_ext`, where they are
    directories, show what was collected under their name; `/system` shows all the
    rest, with the others of these names left inside; nothing else changes.
  */
  ghost predicate ShowsPartitions(system: map<Name, FsNode>, before: map<Name, Tree>, after: map<Name, Tree>,
                                  sources: Option<Tree>) {
    after.Keys == before.Keys && IsDir(Get(before, "system")) &&
    (forall k :: k in before && OwnPartition(before, k) && k in system ==>
                   after[k] == RootView(system[k], before[k].entries, k, sources)) &&
    after["system"] ==
      RootView(Directory(map k | k in system && !OwnPartition(before, k) :: system[k]), before["system"].entries,
               "system", sources) &&
    (forall k :: k in before && k != "system" && !(OwnPartition(before, k) && k in system) ==> after[k] == before[k])
  }

  lemma OwnPartitions(system: map<Name, FsNode>, visible: Option<Tree>)
    ensures SeparateRoots(system, visible, SECONDARY_PARTITIONS) ==
            set k | k in system && OwnPartition(Children(visible), k)
  {
  }

  lemma AppliedPartitions(system: map<Name, FsNode>, visible: Option<Tree>, after: map<Name, Tree>,
                          sources: Option<Tree>)
    requires IsDir(Get(Children(visible), SYSTEM))
    requires Applied(PartitionRoots(system, visible), Children(visible), after, sources)
    ensures ShowsPartitions(system, Children(visible), after, sources)
  {
    hide RootView, Overlay, RootFits;
    OwnPartitions(system, visible);
    var roots := PartitionRoots(system, visible);
    var moved := SeparateRoots(system, visible, SECONDARY_PARTITIONS);
    assert system - moved == map k | k in system && !OwnPartition(Children(visible), k) :: system[k];
    forall k | k in Children(visible) && OwnPartition(Children(visible), k) && k in system
      ensures k in roots && roots[k] == system[k] && k != "system"
    {
      assert k in moved;
    }
  }

  /** Commits a virtual tree, partition by partition. */
  method ApplyTree(space: MountSpace, system: map<Name, FsNode>)
    requires IsDir(Get(Children(space.visible), SYSTEM)) && space.worker == Some(EMPTY_DIR)
    requires Sourced(Directory(system), space.sources)
    requires AvoidLinks(PartitionRoots(system, space.visible), Children(space.visible))
    modifies space
    ensures IsDir(space.visible)
    ensures Applied(PartitionRoots(system, old(space.visible)), Children(old(space.visible)), Children(space.visible),
                    space.sources)
    ensures ShowsPartitions(system, Children(old(space.visible)), Children(space.visible), space.sources)
  {
    var roots, rest := SplitRoots(system, space.visible, SECONDARY_PARTITIONS);
    assert roots.Keys == SeparateRoots(system, space.visible, SECONDARY_PARTITIONS);
    roots := roots[SYSTEM := Directory(rest)];
    assert roots == PartitionRoots(system, space.visible);
    ShownIsApplied(roots, Children(space.visible), space.sources);
    CommitRoots(space, roots);
    AppliedPartitions(system, old(space.visible), Children(space.visible), space.sources);
  }

  /** Collects the modules and commits the result. */
  method ApplyModules(space: MountSpace, mods: seq<Module>) returns (system: FsNode)
    requires IsDir(Get(Children(space.visible), SYSTEM)) && space.worker == Some(EMPTY_DIR)
    requires Mounted(mods, space.sources)
    requires CollectAll(mods).Directory? ==>
               AvoidLinks(PartitionRoots(CollectAll(mods).children, space.visible), Children(space.visible))
    modifies space
    ensures system == CollectAll(mods) && system.Directory?
    ensures IsDir(space.visible)
    ensures Applied(PartitionRoots(system.children, old(space.visible)), Children(old(space.visible)),
                    Children(space.visible), space.sources)
    ensures ShowsPartitions(system.children, Children(old(space.visible)), Children(space.visible), space.sources)
  {
    system := CollectModules(mods);
    CollectedSourced(mods, space.sources);
    ApplyTree(space, system.children);
  }
}
