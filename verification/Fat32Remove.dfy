/** Listing a directory as far as removal needs it, and removing a file or an empty directory. */
module Fat32Remove {
  import opened Options
  import opened MachineBytes
  import opened Products
  import opened BlockDevices
  import opened Fat32Layout
  import opened Fat32Volume
  import opened Fat32Chains
  import opened Fat32Slots
  import opened Fat32Directory
  import opened Fat32Room
  import opened Fat32Tree
  import opened Fat32Files
  import opened Fat32Paths
  import opened Fat32View
  import opened Fat32Write
  import opened Fat32Api

  // ---- Listing ----

  /** An entry that a listing shows. */
  predicate Listed(e: Slot) { Live(e) && !IsDot(e) }

  /** How many entries a listing shows from slot k on, up to the first slot that starts with zero. */
  ghost function CountFrom(slots: seq<Slot>, k: nat): nat
    decreases |slots| - k
  {
    if k >= |slots| || slots[k][0] == 0 then 0
    else (if Listed(slots[k]) then 1 else 0) + CountFrom(slots, k + 1)
  }

  /** A directory lists nothing exactly when nothing but `.` and `..` lives in it. */
  lemma CountZero(slots: seq<Slot>)
    requires ZeroTail(slots)
    ensures CountFrom(slots, 0) == 0 <==> EmptyDirectory(slots)
  {
    CountZeroFrom(slots, 0);
  }

  lemma {:induction false} CountZeroFrom(slots: seq<Slot>, k: nat)
    requires ZeroTail(slots) && k <= |slots|
    ensures CountFrom(slots, k) == 0 <==> forall i :: k <= i < |slots| ==> !Listed(slots[i])
    decreases |slots| - k
  {
    if k < |slots| {
      if slots[k][0] != 0 {
        CountZeroFrom(slots, k + 1);
      } else {
        forall i | k <= i < |slots| ensures !Listed(slots[i]) { assert i == k || slots[i][0] == 0; }
      }
    }
  }

  /** How far a listing of at most `max` entries has come: it goes on at slot k, or is complete. */
  ghost predicate Listing(slots: seq<Slot>, max: nat, count: nat, done: bool, k: nat) {
    if done then count == Min(max, CountFrom(slots, 0))
    else count < max && count + CountFrom(slots, k) == CountFrom(slots, 0)
  }

  /** Lists the sixteen slots of sector j. */
  method ListSector(sec: Sector, start: nat, max: nat, ghost slots: seq<Slot>, ghost j: nat)
    returns (count: nat, done: bool)
    requires 16 * j + 16 <= |slots| && forall m :: 0 <= m < 16 ==> slots[16 * j + m] == SlotAt(sec, m)
    requires Listing(slots, max, start, false, 16 * j)
    ensures Listing(slots, max, count, done, 16 * j + 16)
  {
    count := start;
    for i := 0 to 16
      invariant Listing(slots, max, count, false, 16 * j + i)
    {
      var e := SlotAt(sec, i);
      assert slots[16 * j + i] == e;
      if e[0] == 0 { return count, true; }
      if e[0] == DELETED { continue; }
      if e[11] == ATTR_LFN { continue; }
      if e[0] == DOT { continue; }
      count := count + 1;
      if count >= max { return count, true; }
    }
    done := false;
  }

  /** Lists a run of sectors, which are sectors j on of the directory. */
  method ListRun(buffer: seq<Sector>, start: nat, max: nat, ghost secs: seq<Sector>, ghost j: nat)
    returns (count: nat, done: bool)
    requires SectorsAt(secs, j, buffer) && Listing(Slots(secs), max, start, false, 16 * j)
    ensures Listing(Slots(secs), max, count, done, 16 * (j + |buffer|))
  {
    count, done := start, false;
    SlotsTiled(secs);
    for i := 0 to |buffer|
      invariant !done && Listing(Slots(secs), max, count, done, 16 * (j + i))
    {
      assert buffer[i] == secs[j..j + |buffer|][i] == secs[j + i];
      assert forall m {:trigger SlotAt(secs[j + i], m)} :: 0 <= m < 16 ==>
             Slots(secs)[16 * (j + i) + m] == SlotAt(secs[j + i], m);
      count, done := ListSector(buffer[i], count, max, Slots(secs), j + i);
      if done { return; }
    }
  }

  /** Lists one cluster in batches. */
  method ListCluster(fs: Fat32, cluster: nat, start: nat, max: nat, ghost secs: seq<Sector>, ghost j: nat)
    returns (ok: bool, count: nat, done: bool)
    requires fs.Valid() && ValidCluster(fs.g, cluster) && SectorsAt(secs, j, fs.clusters[cluster])
    requires Listing(Slots(secs), max, start, false, 16 * j)
    modifies fs`ageCounter, fs.dev`faults, fs.dataCache, fs.fatCache
    ensures fs.Valid() && fs.dev.faults >= old(fs.dev.faults)
    ensures !ok ==> fs.dev.faults > old(fs.dev.faults)
    ensures ok ==> Listing(Slots(secs), max, count, done, 16 * (j + fs.g.spc))
  {
    var perRead := if fs.dev.canReadMany then fs.ioBatch else 1;
    count, done := start, false;
    var s := 0;
    while s < fs.g.spc
      invariant fs.Valid() && fs.dev.faults >= old(fs.dev.faults)
      invariant !done && Listing(Slots(secs), max, count, done, 16 * (j + if s < fs.g.spc then s else fs.g.spc))
    {
      var remaining := fs.g.spc - s;
      var size := if remaining < perRead then remaining else perRead;
      ok, count, done := ListBatch(fs, cluster, s, size, count, max, secs, j);
      if !ok || done { return; }
      s := s + perRead;
    }
    ok := true;
  }

  /** Lists one batch of sectors. */
  method ListBatch(fs: Fat32, cluster: nat, s: nat, size: nat, start: nat, max: nat, ghost secs: seq<Sector>,
                   ghost j: nat)
    returns (ok: bool, count: nat, done: bool)
    requires fs.Valid() && ValidCluster(fs.g, cluster) && SectorsAt(secs, j, fs.clusters[cluster])
    requires s + size <= fs.g.spc && 0 < size && (size > 1 ==> fs.dev.canReadMany) &&
             Listing(Slots(secs), max, start, false, 16 * (j + s))
    modifies fs`ageCounter, fs.dev`faults, fs.dataCache, fs.fatCache
    ensures fs.Valid() && fs.dev.faults >= old(fs.dev.faults)
    ensures !ok ==> fs.dev.faults > old(fs.dev.faults)
    ensures ok ==> Listing(Slots(secs), max, count, done, 16 * (j + s + size))
  {
    var buffer;
    count, done := start, false;
    ok, buffer := fs.ReadClusterRun(DataLba(fs.g, cluster, s), size, cluster, s);
    if !ok { return; }
    PartAt(secs, j, fs.clusters[cluster], s, size);
    count, done := ListRun(buffer, count, max, secs, j + s);
  }

  /** Counts the entries a listing shows, stopping at `max`. */
  method ListDirectory(fs: Fat32, dir: nat, max: nat, ghost cs: seq<nat>) returns (ok: bool, count: nat)
    requires fs.Valid() && IsChain(fs.g, fs.links, cs) && cs[0] == dir && max > 0
    modifies fs`ageCounter, fs.dev`faults, fs.dataCache, fs.fatCache
    ensures fs.Valid() && fs.dev.faults >= old(fs.dev.faults)
    ensures !ok ==> fs.dev.faults > old(fs.dev.faults)
    ensures ok ==> count == Min(max, CountFrom(DirSlots(fs.clusters, cs), 0))
  {
    ghost var secs := ChainSectors(fs.clusters, cs);
    ChainSectorsSpread(fs.g, fs.clusters, cs);
    ChainSectorsLength(fs.g, fs.clusters, cs);
    SlotsTiled(secs);
    ok, count := ListChain(fs, dir, max, cs, secs);
  }

  /** Lists one cluster of a chain. */
  method ListLink(fs: Fat32, cluster: nat, start: nat, max: nat, ghost cs: seq<nat>, ghost ci: nat,
                  ghost secs: seq<Sector>)
    returns (ok: bool, count: nat, done: bool)
    requires fs.Valid() && ValidCluster(fs.g, cluster) && ci < |cs| && cluster == cs[ci]
    requires Spread(fs.g, fs.clusters, cs, secs) && Listing(Slots(secs), max, start, false, 16 * Times(ci, fs.g.spc))
    modifies fs`ageCounter, fs.dev`faults, fs.dataCache, fs.fatCache
    ensures fs.Valid() && fs.dev.faults >= old(fs.dev.faults)
    ensures !ok ==> fs.dev.faults > old(fs.dev.faults)
    ensures ok ==> Listing(Slots(secs), max, count, done, 16 * Times(ci + 1, fs.g.spc))
  {
    assert SectorsAt(secs, Times(ci, fs.g.spc), fs.clusters[cs[ci]]);
    ok, count, done := ListCluster(fs, cluster, start, max, secs, Times(ci, fs.g.spc));
  }

  /** Lists the clusters of a chain. */
  method ListChain(fs: Fat32, dir: nat, max: nat, ghost cs: seq<nat>, ghost secs: seq<Sector>)
    returns (ok: bool, count: nat)
    requires fs.Valid() && IsChain(fs.g, fs.links, cs) && cs[0] == dir && max > 0
    requires Spread(fs.g, fs.clusters, cs, secs) && Tiled(secs, Slots(secs)) && |secs| == Times(|cs|, fs.g.spc)
    modifies fs`ageCounter, fs.dev`faults, fs.dataCache, fs.fatCache
    ensures fs.Valid() && fs.dev.faults >= old(fs.dev.faults)
    ensures !ok ==> fs.dev.faults > old(fs.dev.faults)
    ensures ok ==> count == Min(max, CountFrom(Slots(secs), 0))
  {
    var cluster: nat := dir;
    ghost var ci := 0;
    var done;
    ok, count := true, 0;
    while ValidCluster(fs.g, cluster) && cluster < EOC
      invariant fs.Valid() && fs.dev.faults >= old(fs.dev.faults) && ok
      invariant ci < |cs| && cluster == cs[ci] && Listing(Slots(secs), max, count, false, 16 * Times(ci, fs.g.spc))
      decreases |cs| - ci
    {
      var next;
      ok, count, done := ListLink(fs, cluster, count, max, cs, ci, secs);
      if !ok || done { return; }
      ok, next := NextOnChain(fs, cluster, cs, ci);
      if !ok || next >= EOC { return; }
      cluster, ci := next, ci + 1;
    }
  }

  // ---- Removing ----

  /** From v to w the file or empty directory t has been removed. */
  ghost predicate Removed(g: Geometry, v: View, w: View, t: Target) {
    && Denoted(v, t).Some?
    && var e := Denoted(v, t).value;
    && Good(g, w) && Denoted(w, t) == None && OthersDenote(v, w, t) && OthersRead(v, w, t)
    && w.dirs.Keys == (if IsDirectory(e) then v.dirs.Keys - {FirstCluster(e)} else v.dirs.Keys)
    && (IsDirectory(e) ==> FirstCluster(e) in v.dirs && EmptyDirectory(v.dirs[FirstCluster(e)]))
    && |FreeSet(w.links)| == |FreeSet(v.links)| + LengthAt(v, t)
  }

  /** t does not exist, or is a directory that names no chain or lists an entry. */
  ghost predicate Unremovable(v: View, t: Target) {
    match Denoted(v, t)
    case None => true
    case Some(e) =>
      IsDirectory(e) && !(FirstCluster(e) in v.dirs && EmptyDirectory(v.dirs[FirstCluster(e)]) && FirstCluster(e) >= 2)
  }

  /** Where an entry found in a directory is. */
  ghost predicate FoundAtPlace(g: Geometry, v: View, t: Target, k: nat, lba: nat, off: nat, p: Place) {
    && t.dir in v.dirs && Find(v.dirs[t.dir], t.name) == Some(k) && k < |v.dirs[t.dir]|
    && t.dir in v.chains && At(g, v.chains[t.dir], k, lba, off, p) && Readable(g, v.clusters, v.chains[t.dir])
  }

  ghost function Erasing(v: View, t: Target, k: nat, p: Place): Clusters
    requires t.dir in v.dirs && k < |v.dirs[t.dir]| && t.dir in v.chains && p.ci < |v.chains[t.dir]|
    requires v.chains[t.dir][p.ci] < |v.clusters| && p.s < |v.clusters[v.chains[t.dir][p.ci]]| && p.i < 16
  {
    PatchedClusters(v.clusters, v.chains[t.dir][p.ci], p.s, p.i, Erased(v.dirs[t.dir][k]))
  }

  lemma FileRemoved(g: Geometry, v: View, t: Target, k: nat, lba: nat, off: nat, p: Place) returns (w: View)
    requires Good(g, v) && FoundAtPlace(g, v, t, k, lba, off, p) && FileEntry(v.dirs[t.dir][k])
    ensures w.links == FreedLinks(g, v.links, FirstCluster(v.dirs[t.dir][k])) && w.clusters == Erasing(v, t, k, p)
    ensures Removed(g, v, w, t)
  {
    var e := v.dirs[t.dir][k];
    var links', chains', clusters' := FreedLinks(g, v.links, FirstCluster(e)), AfterFree(v.chains, FirstCluster(e)),
                                      Erasing(v, t, k, p);
    w := View(links', clusters', chains', Put(v.dirs, t.dir, k, Erased(e)));
    FreeMeaning(g, v.links, v.clusters, v.chains, v.dirs, t.dir, k);
    ShowsStored(g, links', v.clusters, chains', v.dirs, t.dir, k, lba, off, p, Erased(e));
    RemovedFile(g.root, g.spc, chains', v.dirs, t.dir, k);
    FileGone(g, v, w, t, k);
    KeptTrans(v.clusters, v.chains, v.clusters, chains', clusters', chains', {FirstCluster(e)}, {t.dir});
    OthersKeptIn(g, v, w, t, {FirstCluster(e)} + {t.dir});
  }

  /** What names denote once a file is gone. */
  lemma FileGone(g: Geometry, v: View, w: View, t: Target, k: nat)
    requires Good(g, v) && t.dir in v.dirs && Find(v.dirs[t.dir], t.name) == Some(k) && k < |v.dirs[t.dir]|
    requires w.dirs == Put(v.dirs, t.dir, k, Erased(v.dirs[t.dir][k]))
    ensures OthersDenote(v, w, t) && Denoted(w, t) == None
  {
    GoodDirectory(g, v, t.dir);
    ErasedLookups(v.dirs, t.dir, k);
  }

  lemma GoodDirectory(g: Geometry, v: View, d: nat)
    requires Good(g, v) && d in v.dirs
    ensures DirectoryOk(v.dirs[d])
  {
    assert Looking(DiskLayer);
  }

  lemma DirectoryRemoved(g: Geometry, v: View, t: Target, k: nat, lba: nat, off: nat, p: Place) returns (w: View)
    requires Good(g, v) && FoundAtPlace(g, v, t, k, lba, off, p) && Owner(v.dirs[t.dir][k]) &&
             IsDirectory(v.dirs[t.dir][k])
    requires FirstCluster(v.dirs[t.dir][k]) in v.dirs && EmptyDirectory(v.dirs[FirstCluster(v.dirs[t.dir][k])])
    ensures w.links == FreedLinks(g, v.links, FirstCluster(v.dirs[t.dir][k])) && w.clusters == Erasing(v, t, k, p)
    ensures Removed(g, v, w, t)
  {
    var e := v.dirs[t.dir][k];
    var x := FirstCluster(e);
    RemovedDirectory(g.root, g.spc, v.chains, v.dirs, t.dir, k);
    var links', chains', clusters' := FreedLinks(g, v.links, x), v.chains - {x}, Erasing(v, t, k, p);
    w := View(links', clusters', chains', Without(v.dirs, t.dir, k));
    DirectoryFreed(g, v, t.dir, x, k, lba, off, p, Erased(e));
    assert w.dirs == Put(v.dirs - {x}, t.dir, k, Erased(e));
    DirectoryGone(g, v, w, t, k);
    OthersKeptIn(g, v, w, t, {x, t.dir});
  }

  /** Freeing the chain of directory x and then storing an entry in directory d. */
  lemma DirectoryFreed(g: Geometry, v: View, d: nat, x: nat, k: nat, lba: nat, off: nat, p: Place, e: Slot)
    requires Shown(g, v) && d in v.dirs && x in v.dirs && x != d && x >= 2
    requires At(g, v.chains[d], k, lba, off, p) && Readable(g, v.clusters, v.chains[d]) && k < |v.dirs[d]|
    ensures var links' := FreedLinks(g, v.links, x);
            var clusters' := PatchedClusters(v.clusters, v.chains[d][p.ci], p.s, p.i, e);
            Shows(g, links', clusters', v.chains - {x}, Put(v.dirs - {x}, d, k, e)) &&
            AllKeptBut(v.clusters, v.chains, clusters', v.chains - {x}, {x, d}) &&
            |FreeSet(links')| == |FreeSet(v.links)| + |v.chains[x]|
  {
    ShownDirectory(g, v.links, v.clusters, v.chains, v.dirs, x);
    FreedChain(g, v.links, v.chains[x]);
    ClearedCount(g, v.links, v.chains[x]);
    ShowsFreed(g, v.links, v.clusters, v.chains, v.dirs, x);
    var links', chains' := FreedLinks(g, v.links, x), v.chains - {x};
    var clusters' := PatchedClusters(v.clusters, v.chains[d][p.ci], p.s, p.i, e);
    ShowsStored(g, links', v.clusters, chains', v.dirs - {x}, d, k, lba, off, p, e);
    KeptTrans(v.clusters, v.chains, v.clusters, chains', clusters', chains', {x}, {d});
    assert {x} + {d} == {x, d};
  }

  /** What names denote once an empty directory is gone. */
  lemma DirectoryGone(g: Geometry, v: View, w: View, t: Target, k: nat)
    requires Good(g, v) && t.dir in v.dirs && Find(v.dirs[t.dir], t.name) == Some(k) && k < |v.dirs[t.dir]|
    requires w.dirs == Without(v.dirs, t.dir, k) && FirstCluster(v.dirs[t.dir][k]) != t.dir
    requires FirstCluster(v.dirs[t.dir][k]) in v.dirs && EmptyDirectory(v.dirs[FirstCluster(v.dirs[t.dir][k])])
    ensures OthersDenote(v, w, t) && Denoted(w, t) == None
  {
    var x := FirstCluster(v.dirs[t.dir][k]);
    var mid := Put(v.dirs, t.dir, k, Erased(v.dirs[t.dir][k]));
    GoodDirectory(g, v, t.dir);
    ErasedLookups(v.dirs, t.dir, k);
    forall t': Target | t' != t && t'.dir in w.dirs ensures Denoted(w, t') == Denoted(v, t') {
      assert w.dirs[t'.dir] == mid[t'.dir] && Lookup(mid, t'.dir, t'.name) == Lookup(v.dirs, t'.dir, t'.name);
    }
    forall t': Target | t'.dir == x && Denoted(v, t').Some? ensures IsDirectory(Denoted(v, t').value) {
      FoundEntry(g.root, g.spc, v.chains, v.dirs, x, t'.name);
    }
  }

  /** Frees what an entry names, once a directory has been seen to be empty. */
  method ReleaseEntry(fs: Fat32, entry: Slot, ghost chains: Chains, ghost dirs: Dirs) returns (ok: bool)
    requires Sound(fs, chains, dirs) && EntryOk(fs.g.spc, chains, dirs, entry)
    modifies fs`ageCounter, fs`links, fs`agree, fs`lowest, fs`allocHint, fs.dev, fs.dataCache, fs.fatCache
    ensures fs.Valid() && fs.dev.faults >= old(fs.dev.faults)
    ensures ok || (fs.dev.canWrite && fs.dev.faults == old(fs.dev.faults)) ==>
              fs.Steady(old(fs.agree), old(fs.lowest))
    ensures ok ==> fs.links == FreedLinks(fs.g, old(fs.links), FirstCluster(entry))
    ensures ok && IsDirectory(entry) ==> FirstCluster(entry) >= 2 && EmptyDirectory(dirs[FirstCluster(entry)])
    ensures !ok && fs.dev.canWrite && fs.dev.faults == old(fs.dev.faults) ==>
              IsDirectory(entry) && (FirstCluster(entry) < 2 || !EmptyDirectory(dirs[FirstCluster(entry)])) &&
              fs.links == old(fs.links)
  {
    var first := FirstCluster(entry);
    ShownLinks(fs.g, fs.links, fs.clusters, chains, dirs);
    if IsDirectory(entry) {
      if first < 2 { return false; }
      ShownDirectory(fs.g, fs.links, fs.clusters, chains, dirs, first);
      TreeDirectory(fs.g.root, fs.g.spc, chains, dirs, first);
      CountZero(dirs[first]);
      var count;
      ok, count := ListDirectory(fs, first, 2, chains[first]);
      if !ok || count != 0 { return false; }
    }
    ok := FreeOld(fs, first);
  }

  lemma TreeDirectory(root: nat, spc: nat, chains: Chains, dirs: Dirs, d: nat)
    requires TreeOk(root, spc, chains, dirs) && d in dirs
    ensures DirectoryOk(dirs[d])
  {
    assert Looking(DiskLayer);
  }

  /** Marks the entry at a place as deleted. */
  method EraseEntry(fs: Fat32, lba: nat, off: nat, ghost cs: seq<nat>, ghost k: nat, ghost p: Place) returns (ok: bool)
    requires fs.Valid() && Readable(fs.g, fs.clusters, cs) && At(fs.g, cs, k, lba, off, p)
    modifies fs`ageCounter, fs`clusters, fs.dev, fs.dataCache, fs.fatCache
    ensures fs.Valid() && fs.dev.faults >= old(fs.dev.faults)
    ensures ok ==> k < |DirSlots(old(fs.clusters), cs)| &&
                   fs.clusters == PatchedClusters(old(fs.clusters), cs[p.ci], p.s, p.i,
                                                  Erased(DirSlots(old(fs.clusters), cs)[k]))
    ensures !ok && fs.dev.canWrite ==> fs.dev.faults > old(fs.dev.faults)
  {
    SlotAtPlace(fs.g, fs.clusters, cs, p);
    var sec;
    ok, sec := fs.ReadDataSector(lba, cs[p.ci], p.s);
    if !ok { return; }
    ok := StoreSlot(fs, lba, off, sec, Erased(SlotAt(sec, off / 32)), cs, k, p);
  }

  /** Frees what the entry at a place names and marks it as deleted. */
  method ReleaseAndErase(fs: Fat32, d: nat, lba: nat, off: nat, entry: Slot, ghost chains: Chains, ghost dirs: Dirs,
                         ghost k: nat, ghost p: Place)
    returns (ok: bool)
    requires Sound(fs, chains, dirs) && d in dirs && At(fs.g, chains[d], k, lba, off, p) &&
             Readable(fs.g, fs.clusters, chains[d])
    requires k < |dirs[d]| && entry == dirs[d][k] && EntryOk(fs.g.spc, chains, dirs, entry)
    modifies fs`ageCounter, fs`links, fs`agree, fs`lowest, fs`clusters, fs`allocHint, fs.dev, fs.dataCache, fs.fatCache
    ensures fs.Valid() && fs.dev.faults >= old(fs.dev.faults)
    ensures ok || (fs.dev.canWrite && fs.dev.faults == old(fs.dev.faults)) ==>
              fs.Steady(old(fs.agree), old(fs.lowest))
    ensures ok ==> fs.links == FreedLinks(fs.g, old(fs.links), FirstCluster(entry)) &&
                   fs.clusters == PatchedClusters(old(fs.clusters), chains[d][p.ci], p.s, p.i, Erased(entry))
    ensures ok && IsDirectory(entry) ==> FirstCluster(entry) >= 2 && EmptyDirectory(dirs[FirstCluster(entry)])
    ensures !ok && fs.dev.canWrite && fs.dev.faults == old(fs.dev.faults) ==>
              IsDirectory(entry) && (FirstCluster(entry) < 2 || !EmptyDirectory(dirs[FirstCluster(entry)])) &&
              fs.links == old(fs.links) && fs.clusters == old(fs.clusters)
  {
    ShownDirectory(fs.g, fs.links, fs.clusters, chains, dirs, d);
    ok := ReleaseEntry(fs, entry, chains, dirs);
    if !ok { return; }
    ok := EraseEntry(fs, lba, off, chains[d], k, p);
  }

  method RemoveTarget(fs: Fat32, t: Target, ghost chains: Chains, ghost dirs: Dirs)
    returns (ok: bool, ghost chains': Chains, ghost dirs': Dirs)
    requires Sound(fs, chains, dirs) && t.dir in dirs
    modifies fs`ageCounter, fs`links, fs`agree, fs`lowest, fs`clusters, fs`allocHint, fs.dev, fs.dataCache, fs.fatCache
    ensures fs.Valid() && fs.dev.faults >= old(fs.dev.faults)
    ensures ok || (fs.dev.canWrite && fs.dev.faults == old(fs.dev.faults)) ==>
              fs.Steady(old(fs.agree), old(fs.lowest))
    ensures ok && Spelled(t.name) ==>
              Removed(fs.g, View(old(fs.links), old(fs.clusters), chains, dirs),
                      View(fs.links, fs.clusters, chains', dirs'), t)
    ensures !ok && fs.dev.canWrite && fs.dev.faults == old(fs.dev.faults) ==>
              var v := View(old(fs.links), old(fs.clusters), chains, dirs);
              Unremovable(v, t) && View(fs.links, fs.clusters, chains', dirs') == v
  {
    ghost var v := View(fs.links, fs.clusters, chains, dirs);
    chains', dirs' := chains, dirs;
    var lba, off, entry;
    ghost var k, p;
    ok, lba, off, entry, k, p := Look(fs, t.dir, t.name, chains, dirs);
    if !ok { return; }
    ShownDirectory(fs.g, fs.links, fs.clusters, chains, dirs, t.dir);
    ok := ReleaseAndErase(fs, t.dir, lba, off, entry, chains, dirs, k, p);
    if ok && Spelled(t.name) {
      ghost var w := EntryRemoved(fs.g, v, t, k, lba, off, p);
      chains', dirs' := w.chains, w.dirs;
      assert View(fs.links, fs.clusters, chains', dirs') == w;
    }
  }

  lemma EntryRemoved(g: Geometry, v: View, t: Target, k: nat, lba: nat, off: nat, p: Place) returns (w: View)
    requires Good(g, v) && FoundAtPlace(g, v, t, k, lba, off, p) && Spelled(t.name)
    requires var e := v.dirs[t.dir][k];
             IsDirectory(e) ==>
               FirstCluster(e) >= 2 && FirstCluster(e) in v.dirs && EmptyDirectory(v.dirs[FirstCluster(e)])
    ensures w.links == FreedLinks(g, v.links, FirstCluster(v.dirs[t.dir][k])) && w.clusters == Erasing(v, t, k, p)
    ensures Removed(g, v, w, t)
  {
    FoundEntry(g.root, g.spc, v.chains, v.dirs, t.dir, t.name);
    if IsDirectory(v.dirs[t.dir][k]) {
      assert NameOf(v.dirs[t.dir][k])[0] == v.dirs[t.dir][k][0];
      w := DirectoryRemoved(g, v, t, k, lba, off, p);
    } else {
      w := FileRemoved(g, v, t, k, lba, off, p);
    }
  }

  /** Removes a file or an empty directory. Without a device fault it succeeds exactly when the path denotes one. */
  method RemovePath(fs: Fat32, path: seq<byte>, ghost chains: Chains, ghost dirs: Dirs)
    returns (ok: bool, ghost chains': Chains, ghost dirs': Dirs)
    requires Ready(fs, chains, dirs) && 0 !in path
    modifies fs`ageCounter, fs`links, fs`agree, fs`lowest, fs`clusters, fs`allocHint, fs.dev, fs.dataCache, fs.fatCache
    ensures fs.dev.faults >= old(fs.dev.faults) && if fs.mounted then fs.Valid() else !ok
    ensures ok || (fs.dev.canWrite && fs.dev.faults == old(fs.dev.faults)) ==>
              fs.Steady(old(fs.agree), old(fs.lowest))
    ensures fs.mounted && fs.dev.faults == old(fs.dev.faults) ==>
              var v, w := View(old(fs.links), old(fs.clusters), chains, dirs),
                          View(fs.links, fs.clusters, chains', dirs');
              match Resolve(fs.g.root, dirs, fs.g.root, path, 0)
              case None => !ok && w == v
              case Some(t) => if ok then Removed(fs.g, v, w, t) else fs.dev.canWrite ==> Unremovable(v, t) && w == v
  {
    ok, chains', dirs' := false, chains, dirs;
    if !fs.mounted { return; }
    ResolvedSpelled(fs.g.root, dirs, fs.g.root, path, 0);
    var target := ResolveParentAndLeaf(fs, path, chains, dirs);
    if target.None? { return; }
    ok, chains', dirs' := RemoveTarget(fs, target.value, chains, dirs);
  }
}
