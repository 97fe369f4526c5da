/** How each step of a file operation changes the chains and directories that a volume shows. */
module Fat32View {
  import opened Options
  import opened MachineBytes
  import opened BlockDevices
  import opened Fat32Layout
  import opened Fat32Volume
  import opened Fat32Chains
  import opened Fat32Slots
  import opened Fat32Directory
  import opened Fat32Room
  import opened Fat32Tree
  import opened Fat32Files
  import opened Fat32Paths

  type Clusters = seq<seq<Sector>>

  /** Chain h runs through the same clusters, and they hold the same sectors. */
  ghost predicate Kept(clusters: Clusters, chains: Chains, clusters': Clusters, chains': Chains, h: nat) {
    h in chains ==>
      && h in chains' && chains'[h] == chains[h] && |clusters'| == |clusters|
      && forall i :: 0 <= i < |chains[h]| ==>
           chains[h][i] < |clusters| && clusters'[chains[h][i]] == clusters[chains[h][i]]
  }

  ghost predicate AllKeptBut(clusters: Clusters, chains: Chains, clusters': Clusters, chains': Chains, but: set<nat>) {
    forall h :: h !in but ==> Kept(clusters, chains, clusters', chains', h)
  }

  /** A kept chain still reads as it did. */
  lemma KeptSectors(clusters: Clusters, chains: Chains, clusters': Clusters, chains': Chains, h: nat)
    requires h in chains && Kept(clusters, chains, clusters', chains', h)
    ensures ChainSectors(clusters', chains'[h]) == ChainSectors(clusters, chains[h])
  {
    ChainSectorsFrame(clusters, clusters', chains[h]);
  }

  lemma KeptSame(g: Geometry, links: seq<nat>, clusters: Clusters, chains: Chains, dirs: Dirs)
    requires Shows(g, links, clusters, chains, dirs)
    ensures forall but :: AllKeptBut(clusters, chains, clusters, chains, but)
  {
    assert Looking(DiskLayer);
  }

  lemma ShownLinks(g: Geometry, links: seq<nat>, clusters: Clusters, chains: Chains, dirs: Dirs)
    requires Shows(g, links, clusters, chains, dirs)
    ensures LinksOk(g, links)
  {
    assert Looking(DiskLayer);
  }

  /** Making room leaves the directory's slots and adds unused ones. */
  lemma ShowsGrown(g: Geometry, links: seq<nat>, clusters: Clusters, chains: Chains, dirs: Dirs, d: nat, c: nat)
    requires Shows(g, links, clusters, chains, dirs) && d in dirs && ValidCluster(g, c) && links[c] == 0
    requires IsChain(g, links, chains[d])
    ensures var chains', clusters' := chains[d := chains[d] + [c]], clusters[c := ZeroCluster(g.spc)];
            Shows(g, Appended(links, chains[d][|chains[d]| - 1], c), clusters', chains',
                  dirs[d := dirs[d] + ZeroSlots(16 * g.spc)]) &&
            AllKeptBut(clusters, chains, clusters', chains', {d})
  {
    assert Looking(DiskLayer);
    var chains', clusters' := chains[d := chains[d] + [c]], clusters[c := ZeroCluster(g.spc)];
    NotOnChain(g, links, chains, c);
    AppendedChain(g, links, chains, d, c);
    forall h | h != d ensures Kept(clusters, chains, clusters', chains', h) {}
    AppendedSlots(g, clusters, chains[d], c);
    forall x | x in dirs && x != d ensures dirs[x] == DirSlots(clusters', chains'[x]) {
      KeptSectors(clusters, chains, clusters', chains', x);
    }
  }

  /** Changing one cluster leaves every chain that does not run through it. */
  lemma KeptElsewhere(g: Geometry, links: seq<nat>, clusters: Clusters, chains: Chains, d: nat, c: nat,
                      cluster: seq<Sector>)
    requires ChainsOk(g, links, chains) && |clusters| == g.max + 1 && d in chains && c in chains[d]
    ensures AllKeptBut(clusters, chains, clusters[c := cluster], chains, {d})
  {
    var clusters' := clusters[c := cluster];
    forall h | h != d ensures Kept(clusters, chains, clusters', chains, h) {
      if h in chains { assert forall i :: 0 <= i < |chains[h]| ==> chains[h][i] in chains[h]; }
    }
  }

  /** Storing an entry changes one slot of one directory. */
  lemma ShowsStored(g: Geometry, links: seq<nat>, clusters: Clusters, chains: Chains, dirs: Dirs, d: nat,
                    k: nat, lba: nat, off: nat, p: Place, e: Slot)
    requires Shows(g, links, clusters, chains, dirs) && d in dirs && At(g, chains[d], k, lba, off, p)
    requires Readable(g, clusters, chains[d])
    ensures k < |dirs[d]|
    ensures var clusters' := PatchedClusters(clusters, chains[d][p.ci], p.s, p.i, e);
            Shows(g, links, clusters', chains, Put(dirs, d, k, e)) &&
              AllKeptBut(clusters, chains, clusters', chains, {d})
  {
    var c := chains[d][p.ci];
    var cluster := SetSector(clusters[c], p.s, PatchSlot(clusters[c][p.s], p.i, e));
    ShownDirectory(g, links, clusters, chains, dirs, d);
    PatchedSlots(g, clusters, chains[d], p, e);
    assert ChainsOk(g, links, chains) by { assert Looking(DiskLayer); }
    KeptElsewhere(g, links, clusters, chains, d, c, cluster);
    OthersShown(g, links, clusters, chains, dirs, clusters[c := cluster], d);
    StillReadable(g, links, clusters, chains, dirs, c, cluster);
  }

  lemma StillReadable(g: Geometry, links: seq<nat>, clusters: Clusters, chains: Chains, dirs: Dirs, c: nat,
                      cluster: seq<Sector>)
    requires Shows(g, links, clusters, chains, dirs) && c < |clusters| && |cluster| == |clusters[c]|
    ensures forall h :: h in chains ==> Readable(g, clusters[c := cluster], chains[h])
  {
    assert Looking(DiskLayer);
  }

  /** The other directories still show their slots. */
  lemma OthersShown(g: Geometry, links: seq<nat>, clusters: Clusters, chains: Chains, dirs: Dirs,
                    clusters': Clusters, d: nat)
    requires Shows(g, links, clusters, chains, dirs) && AllKeptBut(clusters, chains, clusters', chains, {d})
    ensures forall x :: x in dirs && x != d ==>
              Inside(clusters', chains[x]) && dirs[x] == DirSlots(clusters', chains[x])
  {
    assert Looking(DiskLayer);
    forall x | x in dirs && x != d ensures Inside(clusters', chains[x]) && dirs[x] == DirSlots(clusters', chains[x]) {
      assert Kept(clusters, chains, clusters', chains, x);
      KeptSectors(clusters, chains, clusters', chains, x);
    }
  }

  /** Freeing a chain, which may be that of a directory. */
  lemma ShowsFreed(g: Geometry, links: seq<nat>, clusters: Clusters, chains: Chains, dirs: Dirs, h: nat)
    requires Shows(g, links, clusters, chains, dirs) && h in chains
    ensures Shows(g, Cleared(links, chains[h]), clusters, chains - {h}, dirs - {h})
    ensures AllKeptBut(clusters, chains, clusters, chains - {h}, {h})
  {
    assert Looking(DiskLayer);
    ClearedChain(g, links, chains, h);
  }

  lemma ShowsFileFreed(g: Geometry, links: seq<nat>, clusters: Clusters, chains: Chains, dirs: Dirs, h: nat)
    requires Shows(g, links, clusters, chains, dirs) && h in chains && h !in dirs
    ensures Shows(g, Cleared(links, chains[h]), clusters, chains - {h}, dirs)
    ensures AllKeptBut(clusters, chains, clusters, chains - {h}, {h})
  {
    ShowsFreed(g, links, clusters, chains, dirs, h);
    assert dirs - {h} == dirs;
  }

  /** Allocating a new chain. */
  lemma ShowsAllocated(g: Geometry, links: seq<nat>, clusters: Clusters, chains: Chains, dirs: Dirs,
                       links': seq<nat>, clusters': Clusters, cs: seq<nat>)
    requires Shows(g, links, clusters, chains, dirs) && |cs| > 0 && g.spc > 0
    requires Allocated(g, links, clusters, links', clusters', cs)
    requires forall c :: ValidCluster(g, c) ==> |clusters'[c]| == g.spc
    ensures cs[0] !in chains && Shows(g, links', clusters', chains[cs[0] := cs], dirs)
    ensures AllKeptBut(clusters, chains, clusters', chains[cs[0] := cs], {cs[0]})
  {
    assert Looking(DiskLayer);
    var chains' := chains[cs[0] := cs];
    AllocatedApart(g, links, clusters, chains, links', clusters', cs);
    AllocatedJoins(g, links, clusters, chains, links', clusters', cs);
    forall h | h != cs[0] ensures Kept(clusters, chains, clusters', chains', h) {
      if h in chains { assert forall i :: 0 <= i < |chains[h]| ==> chains[h][i] in chains[h]; }
    }
    forall x | x in dirs ensures dirs[x] == DirSlots(clusters', chains'[x]) {
      assert Kept(clusters, chains, clusters', chains', x);
      KeptSectors(clusters, chains, clusters', chains', x);
    }
  }

  /** Writing into the clusters of a chain that is no directory. */
  lemma ShowsFilled(g: Geometry, links: seq<nat>, clusters: Clusters, chains: Chains, dirs: Dirs, h: nat,
                    clusters': Clusters)
    requires Shows(g, links, clusters, chains, dirs) && h in chains && h !in dirs
    requires |clusters'| == |clusters| && forall c :: ValidCluster(g, c) ==> |clusters'[c]| == g.spc
    requires forall c :: 0 <= c <= g.max && c !in chains[h] ==> clusters'[c] == clusters[c]
    ensures Shows(g, links, clusters', chains, dirs)
    ensures AllKeptBut(clusters, chains, clusters', chains, {h})
  {
    assert Looking(DiskLayer);
    forall x | x in chains && x != h ensures Kept(clusters, chains, clusters', chains, x) {
      assert forall i :: 0 <= i < |chains[x]| ==> chains[x][i] in chains[x];
    }
    forall x | x in dirs ensures dirs[x] == DirSlots(clusters', chains[x]) {
      KeptSectors(clusters, chains, clusters', chains, x);
    }
  }

  /** Clearing free clusters. */
  lemma ShowsOnlyFree(g: Geometry, links: seq<nat>, clusters: Clusters, chains: Chains, dirs: Dirs, clusters': Clusters)
    requires Shows(g, links, clusters, chains, dirs) && OnlyFree(links, clusters, clusters')
    requires forall c :: ValidCluster(g, c) ==> |clusters'[c]| == g.spc
    ensures Shows(g, links, clusters', chains, dirs) && AllKeptBut(clusters, chains, clusters', chains, {})
  {
    assert Looking(DiskLayer);
    forall h | h in chains ensures Kept(clusters, chains, clusters', chains, h) {
      forall i | 0 <= i < |chains[h]| ensures clusters'[chains[h][i]] == clusters[chains[h][i]] {
        ChainStep(g, links, chains[h], i);
      }
    }
    forall x | x in dirs ensures dirs[x] == DirSlots(clusters', chains[x]) {
      KeptSectors(clusters, chains, clusters', chains, x);
    }
  }

  // ---- What a write means ----

  lemma KeptTrans(clusters: Clusters, chains: Chains, clusters1: Clusters, chains1: Chains,
                  clusters2: Clusters, chains2: Chains, but: set<nat>, but': set<nat>)
    requires AllKeptBut(clusters, chains, clusters1, chains1, but)
    requires AllKeptBut(clusters1, chains1, clusters2, chains2, but')
    ensures AllKeptBut(clusters, chains, clusters2, chains2, but + but')
  {
    var all := but + but';
    forall h | h !in all ensures Kept(clusters, chains, clusters2, chains2, h) {
      assert Kept(clusters, chains, clusters1, chains1, h) && Kept(clusters1, chains1, clusters2, chains2, h);
    }
  }

  /** The chains once the chain of a file entry, if it has one, has been freed. */
  ghost function AfterFree(chains: Chains, was: nat): Chains { if was >= 2 then chains - {was} else chains }

  /** The chains once a new chain, if it is not empty, has been allocated. */
  ghost function AfterAlloc(chains: Chains, cs: seq<nat>): Chains { if |cs| > 0 then chains[cs[0] := cs] else chains }

  /** Freeing the old chain of the file entry at slot k of directory d. */
  lemma FreeMeaning(g: Geometry, links: seq<nat>, clusters: Clusters, chains: Chains, dirs: Dirs, d: nat, k: nat)
    requires Shows(g, links, clusters, chains, dirs) && TreeOk(g.root, g.spc, chains, dirs) && d in dirs &&
             k < |dirs[d]|
    requires Live(dirs[d][k]) && !IsDirectory(dirs[d][k]) && !IsDot(dirs[d][k])
    ensures var was := FirstCluster(dirs[d][k]);
            var links' := if was >= 2 then Freed(g, links, was) else links;
            Shows(g, links', clusters, AfterFree(chains, was), dirs) &&
            TreeBut(g.root, g.spc, AfterFree(chains, was), dirs, Pos(d, k)) &&
            AllKeptBut(clusters, chains, clusters, AfterFree(chains, was), {was}) &&
            (was >= 2 ==> was in chains && was !in dirs) &&
            |FreeSet(links')| == |FreeSet(links)| + if was >= 2 then |chains[was]| else 0
  {
    assert Looking(DiskLayer);
    var was, q := FirstCluster(dirs[d][k]), Pos(d, k);
    assert HasSlot(dirs, q) && SlotOf(dirs, q) == dirs[d][k];
    assert EntryOk(g.spc, chains, dirs, dirs[d][k]);
    FreedTree(g.root, g.spc, chains, dirs, q);
    if was >= 2 {
      FreedChain(g, links, chains[was]);
      ClearedCount(g, links, chains[was]);
      ShowsFileFreed(g, links, clusters, chains, dirs, was);
    }
  }

  /** Allocating a chain and filling it. */
  lemma FillMeaning(g: Geometry, links: seq<nat>, clusters: Clusters, chains: Chains, dirs: Dirs, hole: Pos,
                    links': seq<nat>, clusters': Clusters, cs: seq<nat>, clusters'': Clusters)
    requires Shows(g, links, clusters, chains, dirs) && TreeBut(g.root, g.spc, chains, dirs, hole) && g.spc >= 1
    requires Allocated(g, links, clusters, links', clusters', cs)
    requires |clusters''| == g.max + 1
    requires forall c :: ValidCluster(g, c) ==> |clusters'[c]| == g.spc && |clusters''[c]| == g.spc
    requires forall c :: 0 <= c <= g.max && c !in cs ==> clusters''[c] == clusters'[c]
    ensures Shows(g, links', clusters'', AfterAlloc(chains, cs), dirs)
    ensures TreeBut(g.root, g.spc, AfterAlloc(chains, cs), dirs, hole)
    ensures |cs| > 0 ==> cs[0] !in chains && Unowned(dirs, hole, cs[0])
    ensures AllKeptBut(clusters, chains, clusters'', AfterAlloc(chains, cs), if |cs| > 0 then {cs[0]} else {})
  {
    assert Looking(DiskLayer);
    if |cs| == 0 {
      assert links' == links && clusters'' == clusters;
    } else {
      var chains' := chains[cs[0] := cs];
      ShowsAllocated(g, links, clusters, chains, dirs, links', clusters', cs);
      MoreChains(g.root, g.spc, chains, chains', dirs, hole);
      FreshUnowned(g.root, g.spc, chains, dirs, hole, cs[0]);
      ShowsFilled(g, links', clusters', chains', dirs, cs[0], clusters'');
      KeptTrans(clusters, chains, clusters', chains', clusters'', chains', {cs[0]}, {cs[0]});
    }
  }
}
