/** Making a directory. */
module Fat32Mkdir {
  import opened Options
  import opened MachineBytes
  import opened BlockDevices
  import opened Fat32Layout
  import opened Fat32Volume
  import opened Fat32Chains
  import opened Fat32Slots
  import opened Fat32Directory
  import opened Fat32Room
  import opened Fat32Tree
  import opened Fat32Files
  import opened Fat32Paths
  import opened Fat32View
  import opened Fat32Write
  import opened Fat32Api

  // ---- The cluster of a new directory ----

  function FirstSector(sec: Sector, e0: Slot, e1: Slot): Sector { PatchSlot(PatchSlot(sec, 0, e0), 1, e1) }

  lemma FirstSectorSlots(spc: nat, c: nat, parent: nat, e0: Slot, e1: Slot)
    requires spc >= 1 && Names(e0, DotName(), ATTR_DIRECTORY, c) && Names(e1, DotDotName(), ATTR_DIRECTORY, parent)
    ensures NewDirectory(Slots(SetSector(ZeroCluster(spc), 0, FirstSector(ZeroSector(), e0, e1))), c, parent)
  {
    var zeros := ZeroCluster(spc);
    var one := zeros[0 := PatchSlot(zeros[0], 0, e0)];
    SlotsOfZeros(spc);
    SlotsPatched(zeros, 0, 0, e0);
    SlotsPatched(one, 0, 1, e1);
    assert one[0 := PatchSlot(one[0], 1, e1)] == SetSector(zeros, 0, FirstSector(ZeroSector(), e0, e1));
    NewDirectoryOk(16 * spc, c, parent, e0, e1);
  }

  /** Clears a cluster and writes the entries `.` and `..` into it. */
  method InitDirectory(fs: Fat32, c: nat, parent: nat) returns (ok: bool, ghost cluster: seq<Sector>)
    requires fs.Valid() && ValidCluster(fs.g, c) && parent <= fs.g.max
    modifies fs`ageCounter, fs`clusters, fs.dev, fs.dataCache, fs.fatCache
    ensures fs.Valid() && fs.dev.faults >= old(fs.dev.faults)
    ensures ok ==>
              fs.clusters == old(fs.clusters)[c := cluster] && |cluster| == fs.g.spc &&
              NewDirectory(Slots(cluster), c, parent)
    ensures !ok && fs.dev.canWrite ==> fs.dev.faults > old(fs.dev.faults)
  {
    cluster := [];
    ok := ClearCluster(fs, c);
    if !ok { return; }
    var sec, dot, dotDot := ZeroSector(), NewSlot(DotName(), ATTR_DIRECTORY, c),
                            NewSlot(DotDotName(), ATTR_DIRECTORY, parent);
    NewSlotFields(DotName(), ATTR_DIRECTORY, c);
    NewSlotFields(DotDotName(), ATTR_DIRECTORY, parent);
    FirstSectorSlots(fs.g.spc, c, parent, dot, dotDot);
    ok, sec := fs.ReadDataSector(DataLba(fs.g, c, 0), c, 0);
    if !ok { return; }
    assert sec == ZeroSector();
    ok := fs.WriteDataSector(DataLba(fs.g, c, 0), FirstSector(sec, dot, dotDot), c, 0);
    cluster := fs.clusters[c];
  }

  // ---- What the steps mean ----

  lemma OneCluster(clusters: Clusters, c: nat)
    requires c < |clusters|
    ensures ChainSectors(clusters, [c]) == clusters[c]
  {
    var cs := [c];
    assert cs[..0] == [];
    assert ChainSectors(clusters, cs) == ChainSectors(clusters, cs[..0]) + clusters[cs[0]];
  }

  /** Taking a free cluster and making it a directory that no entry names yet. */
  lemma ShowsNewDirectory(g: Geometry, links: seq<nat>, clusters: Clusters, chains: Chains, dirs: Dirs, c: nat,
                          cluster: seq<Sector>)
    requires Shows(g, links, clusters, chains, dirs) && ValidCluster(g, c) && links[c] == 0 && g.spc > 0 && g.max < EOC
    requires |cluster| == g.spc && forall x :: ValidCluster(g, x) && x < |clusters| ==> |clusters[x]| == g.spc
    ensures c !in chains
    ensures var links', clusters', chains' := links[c := END_MARK], clusters[c := cluster], chains[c := [c]];
            Shows(g, links', clusters', chains', dirs) &&
              Shows(g, links', clusters', chains', dirs[c := Slots(cluster)]) &&
            AllKeptBut(clusters, chains, clusters', chains', {c}) && |FreeSet(links')| + 1 == |FreeSet(links)|
  {
    var links', clusters', chains' := links[c := END_MARK], clusters[c := cluster], chains[c := [c]];
    FreeSetTaken(links, c, END_MARK);
    assert Allocated(g, links, clusters, links', clusters', [c]);
    ShowsAllocated(g, links, clusters, chains, dirs, links', clusters', [c]);
    assert Looking(DiskLayer);
    OneCluster(clusters', c);
  }

  /** From v to w the directory t has been made: it holds nothing, and its parent is where it was made. A name that
      begins with the mark of a deleted entry stays unfindable, and its cluster is lost. */
  ghost predicate DirectoryMade(g: Geometry, v: View, w: View, t: Target) {
    && Denoted(v, t) == None && Good(g, w) && OthersDenote(v, w, t) && OthersRead(v, w, t)
    && |FreeSet(w.links)| + 1 + GrowthAt(v, t) == |FreeSet(v.links)|
    && if t.name[0] == DELETED then w.dirs.Keys == v.dirs.Keys && Denoted(w, t) == None
       else Denoted(w, t).Some? && IsDirectory(Denoted(w, t).value)
            && var c := FirstCluster(Denoted(w, t).value);
               c !in v.chains && w.dirs.Keys == v.dirs.Keys + {c} && EmptyDirectory(w.dirs[c]) &&
                 ParentOf(g.root, w.dirs, c) == t.dir
  }

  /** t exists, or no cluster is free for it once its parent has room. */
  ghost predicate Unmakeable(v: View, t: Target) { Denoted(v, t).Some? || |FreeSet(v.links)| < 1 + GrowthAt(v, t) }

  /** What is left when t cannot be made: the volume as it was, or with room made for an entry, which no name shows. */
  ghost predicate Unmade(g: Geometry, v: View, w: View, t: Target) {
    w == v ||
    (&& Good(g, w) && t.dir in v.dirs && w.dirs.Keys == v.dirs.Keys
     && (forall x, n: Name :: Lookup(w.dirs, x, n) == Lookup(v.dirs, x, n))
     && AllKeptBut(v.clusters, v.chains, w.clusters, w.chains, {t.dir})
     && |FreeSet(w.links)| + Growth(v.dirs[t.dir]) == |FreeSet(v.links)|)
  }

  /** Making room in the parent (v to u), then taking cluster c, then storing the entry e. */
  ghost predicate Building(g: Geometry, v: View, u: View, t: Target, k: nat, c: nat, cluster: seq<Sector>, e: Slot) {
    && Good(g, v) && Good(g, u) && t.dir in v.dirs && u.dirs.Keys == v.dirs.Keys && Denoted(v, t) == None && t.dir >= 2
    && (forall x, n: Name :: Lookup(u.dirs, x, n) == Lookup(v.dirs, x, n))
    && AllKeptBut(v.clusters, v.chains, u.clusters, u.chains, {t.dir})
    && |FreeSet(u.links)| + Growth(v.dirs[t.dir]) == |FreeSet(v.links)|
    && k < |u.dirs[t.dir]| && FreeFrom(u.dirs[t.dir], 0) == Some(k)
    && ValidCluster(g, c) && u.links[c] == 0
    && |cluster| == g.spc && NewDirectory(Slots(cluster), c, t.dir)
    && Spelled(t.name) && Names(e, t.name, ATTR_DIRECTORY, c)
    && (forall x :: ValidCluster(g, x) && x < |u.clusters| ==> |u.clusters[x]| == g.spc) && g.spc > 0 && g.max < EOC
  }

  /** The tree once the entry has been stored. */
  ghost function Built(u: View, t: Target, k: nat, c: nat, cluster: seq<Sector>, e: Slot): Dirs
    requires t.dir in u.dirs && k < |u.dirs[t.dir]|
  {
    if t.name[0] == DELETED then Put(u.dirs, t.dir, k, e) else Put(u.dirs, t.dir, k, e)[c := Slots(cluster)]
  }

  lemma BuiltTree(g: Geometry, v: View, u: View, t: Target, k: nat, c: nat, cluster: seq<Sector>, e: Slot)
    requires Building(g, v, u, t, k, c, cluster, e) && c !in u.chains
    ensures var dirs' := Built(u, t, k, c, cluster, e);
            TreeOk(g.root, g.spc, u.chains[c := [c]], dirs') && SameElsewhere(u.dirs, dirs', t.dir, t.name) &&
            Lookup(dirs', t.dir, t.name) == if t.name[0] == DELETED then None else Some(e)
  {
    var dirs1 := Put(u.dirs, t.dir, k, e);
    if t.name[0] == DELETED {
      DeadTree(g.root, g.spc, u.chains, u.dirs, t.dir, k, e);
      MoreChains(g.root, g.spc, u.chains, u.chains[c := [c]], dirs1, NO_HOLE);
    } else {
      MadeDirectory(g.root, g.spc, u.chains, u.dirs, t.dir, k, c, e, Slots(cluster));
    }
  }

  /** In a new directory only `.` and `..` can be found, and `..` names the parent. */
  lemma NewDirectoryNames(slots: seq<Slot>, c: nat, parent: nat)
    requires NewDirectory(slots, c, parent)
    ensures EmptyDirectory(slots) && Find(slots, DotDotName()) == Some(1)
    ensures forall n :: Find(slots, n).Some? ==> IsDirectory(slots[Find(slots, n).value])
  {
    FindFromLive(slots, 0, 1);
  }

  /** What names denote once a directory has been built. */
  lemma BuiltNames(g: Geometry, v: View, u: View, w: View, t: Target, k: nat, c: nat, cluster: seq<Sector>, e: Slot)
    requires Building(g, v, u, t, k, c, cluster, e) && c !in u.chains && w.dirs == Built(u, t, k, c, cluster, e)
    requires Good(g, w)
    ensures OthersDenote(v, w, t) && c !in v.chains
    ensures t.name[0] != DELETED ==> EmptyDirectory(w.dirs[c]) && ParentOf(g.root, w.dirs, c) == t.dir
    ensures Denoted(w, t) == if t.name[0] == DELETED then None else Some(e)
  {
    BuiltTree(g, v, u, t, k, c, cluster, e);
    NewDirectoryNames(Slots(cluster), c, t.dir);
    assert Kept(v.clusters, v.chains, u.clusters, u.chains, c);
    forall t': Target | t' != t && t'.dir in v.dirs && t'.dir in w.dirs ensures Denoted(w, t') == Denoted(v, t') {
      assert Lookup(u.dirs, t'.dir, t'.name) == Lookup(v.dirs, t'.dir, t'.name);
    }
  }

  /** The volume once the entry has been stored. */
  lemma BuiltShows(g: Geometry, v: View, u: View, t: Target, k: nat, lba: nat, off: nat, p: Place, c: nat,
                   cluster: seq<Sector>, e: Slot)
    requires Building(g, v, u, t, k, c, cluster, e)
    requires At(g, u.chains[t.dir], k, lba, off, p) && Readable(g, u.clusters, u.chains[t.dir])
    ensures c !in u.chains && c != t.dir
    ensures var clusters' := PatchedClusters(u.clusters[c := cluster], u.chains[t.dir][p.ci], p.s, p.i, e);
            Shows(g, u.links[c := END_MARK], clusters', u.chains[c := [c]], Built(u, t, k, c, cluster, e)) &&
            AllKeptBut(u.clusters, u.chains, clusters', u.chains[c := [c]], {c, t.dir}) &&
            |FreeSet(u.links[c := END_MARK])| + 1 == |FreeSet(u.links)|
  {
    var links', chains', mid := u.links[c := END_MARK], u.chains[c := [c]], u.clusters[c := cluster];
    ShowsNewDirectory(g, u.links, u.clusters, u.chains, u.dirs, c, cluster);
    var dirs := if t.name[0] == DELETED then u.dirs else u.dirs[c := Slots(cluster)];
    ShowsStored(g, links', mid, chains', dirs, t.dir, k, lba, off, p, e);
    var clusters' := PatchedClusters(mid, u.chains[t.dir][p.ci], p.s, p.i, e);
    assert Put(dirs, t.dir, k, e) == Built(u, t, k, c, cluster, e);
    KeptTrans(u.clusters, u.chains, mid, chains', clusters', chains', {c}, {t.dir});
    assert {c} + {t.dir} == {c, t.dir};
  }

  lemma EntryBuilt(g: Geometry, v: View, u: View, t: Target, k: nat, lba: nat, off: nat, p: Place, c: nat,
                   cluster: seq<Sector>, e: Slot)
    returns (w: View)
    requires Building(g, v, u, t, k, c, cluster, e)
    requires At(g, u.chains[t.dir], k, lba, off, p) && Readable(g, u.clusters, u.chains[t.dir])
    ensures w.links == u.links[c := END_MARK]
    ensures w.clusters == PatchedClusters(u.clusters[c := cluster], u.chains[t.dir][p.ci], p.s, p.i, e)
    ensures DirectoryMade(g, v, w, t)
  {
    BuiltShows(g, v, u, t, k, lba, off, p, c, cluster, e);
    var clusters' := PatchedClusters(u.clusters[c := cluster], u.chains[t.dir][p.ci], p.s, p.i, e);
    w := View(u.links[c := END_MARK], clusters', u.chains[c := [c]], Built(u, t, k, c, cluster, e));
    BuiltTree(g, v, u, t, k, c, cluster, e);
    BuiltNames(g, v, u, w, t, k, c, cluster, e);
    KeptTrans(v.clusters, v.chains, u.clusters, u.chains, w.clusters, w.chains, {t.dir}, {c, t.dir});
    OthersKeptIn(g, v, w, t, {t.dir} + {c, t.dir});
  }

  // ---- The operation ----

  /** Takes a cluster for a new directory and writes its first entries, giving the cluster back when that fails. */
  method TakeDirectory(fs: Fat32, parent: nat) returns (ok: bool, c: nat, ghost cluster: seq<Sector>)
    requires fs.Valid() && parent <= fs.g.max
    modifies fs`ageCounter, fs`links, fs`agree, fs`lowest, fs`clusters, fs`allocHint, fs.dev, fs.dataCache, fs.fatCache
    ensures fs.Valid() && fs.dev.faults >= old(fs.dev.faults)
    ensures ok || (fs.dev.canWrite && fs.dev.faults == old(fs.dev.faults) && LinksOk(fs.g, old(fs.links))) ==>
              fs.Steady(old(fs.agree), old(fs.lowest))
    ensures ok ==> ValidCluster(fs.g, c) && old(fs.links)[c] == 0 && fs.links == old(fs.links)[c := END_MARK] &&
                   fs.clusters == old(fs.clusters)[c := cluster] && |cluster| == fs.g.spc &&
                     NewDirectory(Slots(cluster), c, parent)
    ensures !ok && fs.dev.canWrite && LinksOk(fs.g, old(fs.links)) ==>
              fs.dev.faults > old(fs.dev.faults) ||
              (FreeSet(old(fs.links)) == {} && fs.links == old(fs.links) && fs.clusters == old(fs.clusters))
  {
    cluster := [];
    ok, c := AllocCluster(fs);
    if !ok { return; }
    ok, cluster := InitDirectory(fs, c, parent);
    if !ok { var _ := FreeChain(fs, c); }
  }

  /** Takes a cluster for the directory and stores its entry in the room made for it. */
  method BuildDirectory(fs: Fat32, t: Target, lba: nat, off: nat, ghost chains: Chains, ghost dirs: Dirs, ghost k: nat,
                        ghost p: Place)
    returns (ok: bool, ghost c: nat, ghost cluster: seq<Sector>, ghost e: Slot)
    requires fs.Valid() && Shows(fs.g, fs.links, fs.clusters, chains, dirs) && t.dir in dirs && k < |dirs[t.dir]|
    requires At(fs.g, chains[t.dir], k, lba, off, p) && Readable(fs.g, fs.clusters, chains[t.dir]) &&
             ValidCluster(fs.g, t.dir)
    modifies fs`ageCounter, fs`links, fs`agree, fs`lowest, fs`clusters, fs`allocHint, fs.dev, fs.dataCache, fs.fatCache
    ensures fs.Valid() && fs.dev.faults >= old(fs.dev.faults)
    ensures ok || (fs.dev.canWrite && fs.dev.faults == old(fs.dev.faults)) ==>
              fs.Steady(old(fs.agree), old(fs.lowest))
    ensures ok ==> ValidCluster(fs.g, c) && old(fs.links)[c] == 0 && fs.links == old(fs.links)[c := END_MARK] &&
                   |cluster| == fs.g.spc && NewDirectory(Slots(cluster), c, t.dir) &&
                     Names(e, t.name, ATTR_DIRECTORY, c) &&
                   fs.clusters == PatchedClusters(old(fs.clusters)[c := cluster], chains[t.dir][p.ci], p.s, p.i, e)
    ensures !ok && fs.dev.canWrite && LinksOk(fs.g, old(fs.links)) ==>
              fs.dev.faults > old(fs.dev.faults) ||
              (FreeSet(old(fs.links)) == {} && fs.links == old(fs.links) && fs.clusters == old(fs.clusters))
  {
    ghost var links, clusters := fs.links, fs.clusters;
    var first;
    ShownLinks(fs.g, links, clusters, chains, dirs);
    ok, first, cluster := TakeDirectory(fs, t.dir);
    c, e := first, ZeroSlot();
    if !ok { return; }
    ShowsNewDirectory(fs.g, links, clusters, chains, dirs, c, cluster);
    ok, e := StoreNewEntry(fs, t.dir, lba, off, t.name, ATTR_DIRECTORY, first, chains[c := [c]], dirs, k, p);
    if !ok { var _ := FreeChain(fs, first); }
  }

  method MkdirTarget(fs: Fat32, t: Target, ghost chains: Chains, ghost dirs: Dirs)
    returns (ok: bool, ghost chains': Chains, ghost dirs': Dirs)
    requires Sound(fs, chains, dirs) && t.dir in dirs
    modifies fs`ageCounter, fs`links, fs`agree, fs`lowest, fs`clusters, fs`allocHint, fs.dev, fs.dataCache, fs.fatCache
    ensures fs.Valid() && fs.dev.faults >= old(fs.dev.faults)
    ensures ok || (fs.dev.canWrite && fs.dev.faults == old(fs.dev.faults)) ==>
              fs.Steady(old(fs.agree), old(fs.lowest))
    ensures ok && fs.dev.faults == old(fs.dev.faults) && Spelled(t.name) ==>
              DirectoryMade(fs.g, View(old(fs.links), old(fs.clusters), chains, dirs),
                            View(fs.links, fs.clusters, chains', dirs'), t)
    ensures !ok && fs.dev.canWrite && fs.dev.faults == old(fs.dev.faults) ==>
              var v := View(old(fs.links), old(fs.clusters), chains, dirs);
              Unmakeable(v, t) && Unmade(fs.g, v, View(fs.links, fs.clusters, chains', dirs'), t)
  {
    chains', dirs' := chains, dirs;
    var lba, off, entry;
    ghost var k, p;
    ok, lba, off, entry, k, p := Look(fs, t.dir, t.name, chains, dirs);
    if ok { return false, chains, dirs; }
    ok, chains', dirs' := MakeDirectory(fs, t, chains, dirs);
  }

  /** Makes a directory in a parent that does not hold the name. */
  method MakeDirectory(fs: Fat32, t: Target, ghost chains: Chains, ghost dirs: Dirs)
    returns (ok: bool, ghost chains': Chains, ghost dirs': Dirs)
    requires Sound(fs, chains, dirs) && t.dir in dirs
    modifies fs`ageCounter, fs`links, fs`agree, fs`lowest, fs`clusters, fs`allocHint, fs.dev, fs.dataCache, fs.fatCache
    ensures fs.Valid() && fs.dev.faults >= old(fs.dev.faults)
    ensures ok || (fs.dev.canWrite && fs.dev.faults == old(fs.dev.faults)) ==>
              fs.Steady(old(fs.agree), old(fs.lowest))
    ensures ok && Spelled(t.name) && Lookup(dirs, t.dir, t.name) == None ==>
              DirectoryMade(fs.g, View(old(fs.links), old(fs.clusters), chains, dirs),
                            View(fs.links, fs.clusters, chains', dirs'), t)
    ensures !ok && fs.dev.canWrite && Lookup(dirs, t.dir, t.name) == None ==>
              fs.dev.faults > old(fs.dev.faults) ||
              var v := View(old(fs.links), old(fs.clusters), chains, dirs);
              Unmakeable(v, t) && Unmade(fs.g, v, View(fs.links, fs.clusters, chains', dirs'), t)
  {
    ghost var v := View(fs.links, fs.clusters, chains, dirs);
    var lba, off;
    ghost var k, p, c, cluster, e;
    ok, lba, off, chains', dirs', k, p := MakeRoom(fs, t.dir, chains, dirs);
    if !ok { return; }
    ghost var u := View(fs.links, fs.clusters, chains', dirs');
    ShownDirectory(fs.g, fs.links, fs.clusters, chains', dirs', t.dir);
    ok, c, cluster, e := BuildDirectory(fs, t, lba, off, chains', dirs', k, p);
    if ok && Spelled(t.name) && Denoted(v, t) == None {
      ghost var w := EntryBuilt(fs.g, v, u, t, k, lba, off, p, c, cluster, e);
      chains', dirs' := w.chains, w.dirs;
      assert View(fs.links, fs.clusters, chains', dirs') == w;
    }
  }

  /** Makes a directory. Without a device fault it succeeds exactly when the path leads to a directory that does not
      hold the name, and clusters are free for the new directory and for its entry. */
  method MkdirPath(fs: Fat32, path: seq<byte>, ghost chains: Chains, ghost dirs: Dirs)
    returns (ok: bool, ghost chains': Chains, ghost dirs': Dirs)
    requires Ready(fs, chains, dirs) && 0 !in path
    modifies fs`ageCounter, fs`links, fs`agree, fs`lowest, fs`clusters, fs`allocHint, fs.dev, fs.dataCache, fs.fatCache
    ensures fs.dev.faults >= old(fs.dev.faults) && if fs.mounted then fs.Valid() else !ok
    ensures ok || (fs.dev.canWrite && fs.dev.faults == old(fs.dev.faults)) ==>
              fs.Steady(old(fs.agree), old(fs.lowest))
    ensures fs.mounted && fs.dev.faults == old(fs.dev.faults) ==>
              var v, w := View(old(fs.links), old(fs.clusters), chains, dirs),
                          View(fs.links, fs.clusters, chains', dirs');
              match Resolve(fs.g.root, dirs, fs.g.root, path, 0)
              case None => !ok && w == v
              case Some(t) =>
                if ok then DirectoryMade(fs.g, v, w, t)
                else fs.dev.canWrite ==> Unmakeable(v, t) && Unmade(fs.g, v, w, t)
  {
    ok, chains', dirs' := false, chains, dirs;
    if !fs.mounted { return; }
    ResolvedSpelled(fs.g.root, dirs, fs.g.root, path, 0);
    var target := ResolveParentAndLeaf(fs, path, chains, dirs);
    if target.None? { return; }
    ok, chains', dirs' := MkdirTarget(fs, target.value, chains, dirs);
  }
}
