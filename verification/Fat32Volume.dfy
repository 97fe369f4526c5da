/** The driver's global state: device, geometry, the two sector caches, and the FAT seen through them. */
module Fat32Volume {
  import opened MachineBytes
  import opened BlockDevices
  import opened Fat32Layout

  const CACHE_SLOTS: nat := 8
  const MAX_IO_BATCH: nat := 32

  // ---- What a disk means: one link per cluster and the sectors of each cluster ----

  ghost predicate CopyHolds(g: Geometry, disk: seq<Sector>, copy: nat, links: seq<nat>) {
    && |links| == g.max + 1
    && forall c {:trigger FatLba(g, copy, c)} :: 0 <= c <= g.max ==>
       FatLba(g, copy, c) < |disk| && links[c] == FatValue(g, disk, copy, c)
  }

  ghost predicate AllCopiesHold(g: Geometry, disk: seq<Sector>, links: seq<nat>) {
    forall copy: nat :: copy < g.fatCount ==> CopyHolds(g, disk, copy, links)
  }

  ghost predicate ClustersHold(g: Geometry, disk: seq<Sector>, clusters: seq<seq<Sector>>) {
    && |clusters| == g.max + 1
    && (forall c :: ValidCluster(g, c) ==> |clusters[c]| == g.spc)
    && forall c, s {:trigger DataLba(g, c, s)} :: ValidCluster(g, c) && 0 <= s < g.spc ==>
                        DataLba(g, c, s) < |disk| && clusters[c][s] == disk[DataLba(g, c, s)]
  }

  function SetSector(cluster: seq<Sector>, s: nat, sec: Sector): seq<Sector>
    requires s < |cluster|
  {
    cluster[s := sec]
  }

  /** `disk'` is `disk` with the entry of cluster c set to v in the first k FAT copies and nothing else changed. */
  ghost predicate FatUpdated(g: Geometry, disk: seq<Sector>, disk': seq<Sector>, k: nat, c: nat, v: nat) {
    && |disk'| == |disk|
    && (forall l :: g.dataStart <= l < |disk| ==> disk'[l] == disk[l])
    && forall copy: nat, c' :: copy < g.fatCount && 0 <= c' <= g.max ==>
         FatLba(g, copy, c') < |disk| &&
         FatValue(g, disk', copy, c') ==
           if copy < k && c' == c then v % LINK_RANGE else FatValue(g, disk, copy, c')
  }

  lemma FatUpdateStart(g: Geometry, disk: seq<Sector>, c: nat, v: nat)
    requires Fits(g, |disk|)
    ensures FatUpdated(g, disk, disk, 0, c, v)
  {
    forall copy: nat, c' | copy < g.fatCount && 0 <= c' <= g.max ensures FatLba(g, copy, c') < |disk| {
      FatLbaBounds(g, |disk|, copy, c');
    }
  }

  /** Patching one entry of one FAT copy changes that link alone, in that copy alone, and no data. */
  lemma FatUpdateStep(g: Geometry, disk: seq<Sector>, mid: seq<Sector>, k: nat, c: nat, v: nat)
    requires Fits(g, |disk|) && k < g.fatCount && c <= g.max
    requires FatUpdated(g, disk, mid, k, c, v)
    ensures FatLba(g, k, c) < |disk|
    ensures FatUpdated(g, disk, mid[FatLba(g, k, c) := PatchEntry(mid[FatLba(g, k, c)], c % 128, v)], k + 1, c, v)
  {
    FatLbaBounds(g, |disk|, k, c);
    var lba := FatLba(g, k, c);
    var disk' := mid[lba := PatchEntry(mid[lba], c % 128, v)];
    forall copy: nat, c' | copy < g.fatCount && 0 <= c' <= g.max
      ensures FatValue(g, disk', copy, c') ==
              if copy < k + 1 && c' == c then v % LINK_RANGE else FatValue(g, disk, copy, c')
    {
      assert FatValue(g, mid, copy, c') == if copy < k && c' == c then v % LINK_RANGE else FatValue(g, disk, copy, c');
      if FatLba(g, copy, c') == lba {
        FatLbaInjective(g, |disk|, k, c, copy, c');
        PatchEntryValue(mid[lba], c % 128, v, c' % 128);
      }
    }
  }

  lemma FatUpdateCopy(g: Geometry, disk: seq<Sector>, disk': seq<Sector>, k: nat, c: nat, v: nat,
                      links: seq<nat>, copy: nat)
    requires FatUpdated(g, disk, disk', k, c, v) && copy < g.fatCount && c <= g.max
    requires CopyHolds(g, disk, copy, links)
    ensures CopyHolds(g, disk', copy, if copy < k then links[c := v % LINK_RANGE] else links)
  {
  }

  lemma FatUpdateAll(g: Geometry, disk: seq<Sector>, disk': seq<Sector>, c: nat, v: nat, links: seq<nat>)
    requires FatUpdated(g, disk, disk', g.fatCount, c, v) && c <= g.max && |links| == g.max + 1
    ensures AllCopiesHold(g, disk, links) ==> AllCopiesHold(g, disk', links[c := v % LINK_RANGE])
  {
    if AllCopiesHold(g, disk, links) {
      var links' := links[c := v % LINK_RANGE];
      forall copy: nat | copy < g.fatCount ensures CopyHolds(g, disk', copy, links') {
        FatUpdateCopy(g, disk, disk', g.fatCount, c, v, links, copy);
      }
    }
  }

  lemma FatUpdateClusters(g: Geometry, disk: seq<Sector>, disk': seq<Sector>, k: nat, c: nat, v: nat,
                          clusters: seq<seq<Sector>>)
    requires Fits(g, |disk|) && FatUpdated(g, disk, disk', k, c, v)
    requires ClustersHold(g, disk, clusters)
    ensures ClustersHold(g, disk', clusters)
  {
    forall c', s | ValidCluster(g, c') && 0 <= s < g.spc ensures clusters[c'][s] == disk'[DataLba(g, c', s)] {
      DataLbaBounds(g, |disk|, c', s);
    }
  }

  /** The links, read from the first FAT copy, after the entry of cluster c has been set to v in k copies. */
  ghost function LinksAfter(links: seq<nat>, k: nat, c: nat, v: nat): seq<nat>
    requires c < |links|
  {
    if k > 0 then links[c := v % LINK_RANGE] else links
  }

  lemma FatUpdateEffect(g: Geometry, disk: seq<Sector>, disk': seq<Sector>, k: nat, c: nat, v: nat,
                        links: seq<nat>, clusters: seq<seq<Sector>>)
    requires Fits(g, |disk|) && FatUpdated(g, disk, disk', k, c, v) && c <= g.max && k <= g.fatCount
    requires CopyHolds(g, disk, 0, links) && ClustersHold(g, disk, clusters)
    ensures CopyHolds(g, disk', 0, LinksAfter(links, k, c, v)) && ClustersHold(g, disk', clusters)
    ensures k == g.fatCount && AllCopiesHold(g, disk, links) ==> AllCopiesHold(g, disk', LinksAfter(links, k, c, v))
  {
    FatUpdateCopy(g, disk, disk', k, c, v, links, 0);
    FatUpdateClusters(g, disk, disk', k, c, v, clusters);
    if k == g.fatCount { FatUpdateAll(g, disk, disk', c, v, links); }
  }

  lemma DataWriteEffect(g: Geometry, disk: seq<Sector>, links: seq<nat>, clusters: seq<seq<Sector>>,
                        c: nat, s: nat, sec: Sector)
    requires Fits(g, |disk|) && ValidCluster(g, c) && s < g.spc
    requires ClustersHold(g, disk, clusters)
    ensures g.dataStart <= DataLba(g, c, s) < |disk|
    ensures ClustersHold(g, disk[DataLba(g, c, s) := sec], clusters[c := SetSector(clusters[c], s, sec)])
    ensures CopyHolds(g, disk, 0, links) ==> CopyHolds(g, disk[DataLba(g, c, s) := sec], 0, links)
    ensures AllCopiesHold(g, disk, links) ==> AllCopiesHold(g, disk[DataLba(g, c, s) := sec], links)
  {
    DataLbaBounds(g, |disk|, c, s);
    var disk' := disk[DataLba(g, c, s) := sec];
    var clusters' := clusters[c := SetSector(clusters[c], s, sec)];
    forall c', s' | ValidCluster(g, c') && 0 <= s' < g.spc
      ensures DataLba(g, c', s') < |disk'| && clusters'[c'][s'] == disk'[DataLba(g, c', s')]
    {
      if DataLba(g, c', s') == DataLba(g, c, s) { DataLbaInjective(g, c, s, c', s'); }
    }
    forall copy: nat | CopyHolds(g, disk, copy, links) && copy < g.fatCount ensures CopyHolds(g, disk', copy, links) {
      forall c' | 0 <= c' <= g.max
        ensures FatLba(g, copy, c') < |disk'| && links[c'] == FatValue(g, disk', copy, c')
      {
        FatLbaBounds(g, |disk|, copy, c');
      }
    }
  }

  ghost predicate Below(c: int) { true }

  /** No cluster below the allocation hint is free; used only where a proof names the cluster as `Below`. */
  ghost predicate HintOk(g: Geometry, links: seq<nat>, hint: nat) {
    && |links| == g.max + 1 && ValidCluster(g, hint)
    && forall c {:trigger Below(c)} :: 2 <= c < hint && Below(c) ==> links[c] != 0
  }

  datatype Layer = DiskLayer

  ghost predicate Looking(layer: Layer) { true }

  class Fat32 {
    var mounted: bool
    var hasDev: bool                       // the device pointer is not null
    var dev: BlockDevice
    var g: Geometry
    var allocHint: nat
    var ioBatch: nat
    var dataCacheOn: bool
    var fatCacheOn: bool
    var ageCounter: u32
    const dataCache: array<CacheEntry>
    const fatCache: array<CacheEntry>
    ghost var links: seq<nat>              // link of each cluster, from the first FAT copy
    ghost var agree: bool                  // every FAT copy gives the same links
    ghost var lowest: bool                 // no cluster below the allocation hint is free
    ghost var clusters: seq<seq<Sector>>   // sectors of each cluster

    ghost predicate Caching()
      reads this`mounted, this`hasDev, this`dev, this`ioBatch, dev, dataCache, fatCache
    {
      && dataCache != fatCache && dataCache.Length == fatCache.Length == CACHE_SLOTS
      && 1 <= ioBatch <= MAX_IO_BATCH
      && (mounted ==> hasDev && dev.canRead &&
                      Coherent(dataCache[..], dev.sectors) && Coherent(fatCache[..], dev.sectors))
    }

    /** The disk layer: coherent caches, a volume that fits, and `links` and `clusters` what the disk holds. It is
        stated behind a quantifier so that only proofs that mention `Looking(DiskLayer)` see through it. */
    ghost predicate Held()
      reads this, dev, dataCache, fatCache
    {
      forall layer: Layer {:trigger Looking(layer)} :: Looking(layer) ==>
        && mounted && Caching() && Fits(g, |dev.sectors|)
        && CopyHolds(g, dev.sectors, 0, links) && ClustersHold(g, dev.sectors, clusters)
        && (agree ==> AllCopiesHold(g, dev.sectors, links))
    }

    /** Mounted on a volume whose links and sectors `links` and `clusters` give. */
    ghost predicate Valid()
      reads this, dev, dataCache, fatCache
    {
      && mounted
      && g.spc >= 1 && g.max < EOC && ValidCluster(g, g.root) && 1 <= ioBatch <= MAX_IO_BATCH
      && |links| == |clusters| == g.max + 1
      && (forall c :: ValidCluster(g, c) ==> |clusters[c]| == g.spc)
      && (lowest ==> HintOk(g, links, allocHint))
      && Held()
    }

    /** The FAT copies still agree, and still no cluster below the hint is free, if that was so before. */
    ghost predicate Steady(agreed: bool, low: bool)
      reads this
    {
      (agreed ==> agree) && (low ==> lowest)
    }

    constructor (placeholder: BlockDevice)
      ensures Caching() && !mounted && !hasDev && fresh(dataCache) && fresh(fatCache)
    {
      mounted, hasDev, dev, g := false, false, placeholder, Geometry(0, 0, 0, 0, 0, 0, 0);
      allocHint, ioBatch, dataCacheOn, fatCacheOn, ageCounter := 0, 4, true, true, 1;
      var empty := CacheEntry(false, 0, 0, ZeroSector());
      dataCache := new CacheEntry[CACHE_SLOTS](_ => empty);
      fatCache := new CacheEntry[CACHE_SLOTS](_ => empty);
      links, clusters, agree, lowest := [], [], false, false;
    }

    method FlushCache()
      requires dataCache != fatCache && dataCache.Length == fatCache.Length == CACHE_SLOTS
      requires 1 <= ioBatch <= MAX_IO_BATCH && (mounted ==> hasDev && dev.canRead)
      modifies this`ageCounter, dataCache, fatCache
      ensures Caching()
      ensures forall i :: 0 <= i < CACHE_SLOTS ==> !dataCache[i].valid && !fatCache[i].valid
    {
      CacheClear(dataCache);
      CacheClear(fatCache);
      ageCounter := 1;
    }

    method SetDataCacheEnabled(enabled: bool)
      requires Caching()
      modifies this`dataCacheOn, this`ageCounter, dataCache, fatCache
      ensures Caching() && dataCacheOn == enabled
    {
      dataCacheOn := enabled;
      FlushCache();
    }

    method SetFatCacheEnabled(enabled: bool)
      requires Caching()
      modifies this`fatCacheOn, this`ageCounter, dataCache, fatCache
      ensures Caching() && fatCacheOn == enabled
    {
      fatCacheOn := enabled;
      FlushCache();
    }

    method SetIoBatchSectors(count: nat) returns (ok: bool)
      requires Caching()
      modifies this`ioBatch
      ensures Caching() && ok == (1 <= count <= MAX_IO_BATCH) && ioBatch == if ok then count else old(ioBatch)
    {
      if count < 1 || count > MAX_IO_BATCH { return false; }
      ioBatch := count;
      return true;
    }

    /** A cached read is a disk read: it yields the sector on the disk, whatever the caches hold. */
    method ReadSectorCached(lba: nat, useFatCache: bool) returns (ok: bool, sec: Sector)
      requires Caching()
      modifies this`ageCounter, dev`faults, dataCache, fatCache
      ensures Caching()
      ensures ok ==> mounted && lba < |dev.sectors| && sec == dev.sectors[lba]
      ensures dev.faults >= old(dev.faults)
      ensures !ok && mounted && lba < |dev.sectors| ==> dev.faults > old(dev.faults)
    {
      ok, sec := false, ZeroSector();
      if !mounted || !hasDev || !dev.canRead { return; }
      var cache := if useFatCache then fatCache else dataCache;
      var enabled := if useFatCache then fatCacheOn else dataCacheOn;
      if enabled {
        ok, sec := CacheLookup(cache, lba, ageCounter, dev.sectors);
        if ok {
          ageCounter := W32(ageCounter + 1);
          return;
        }
      }
      ghost var held := cache[..];
      ok, sec := dev.ReadSector(lba);
      if !ok { return; }
      if enabled {
        ghost var slot := CacheStore(cache, lba, sec, ageCounter, dev.sectors);
        ageCounter := W32(ageCounter + 1);
      }
    }

    /** The batched read returns the same sectors as reading one at a time through the cache. */
    method ReadDataSectors(lba: nat, count: nat) returns (ok: bool, buffer: seq<Sector>)
      requires Caching()
      modifies this`ageCounter, dev`faults, dataCache, fatCache
      ensures Caching()
      ensures ok ==> count > 0 && mounted && lba + count <= |dev.sectors| && buffer == dev.sectors[lba..lba + count]
      ensures dev.faults >= old(dev.faults)
      ensures !ok && count > 0 && mounted && lba + count <= |dev.sectors| ==> dev.faults > old(dev.faults)
    {
      ok, buffer := false, [];
      if count == 0 { return; }
      if !mounted || !hasDev { return; }
      if count > 1 && dev.canReadMany {
        ok, buffer := dev.ReadSectors(lba, count);
        return;
      }
      for i := 0 to count
        invariant Caching() && dev.faults >= old(dev.faults)
        invariant i > 0 ==> lba + i <= |dev.sectors|
        invariant |buffer| == i && forall k :: 0 <= k < i ==>
                    lba + k < |dev.sectors| && buffer[k] == dev.sectors[lba + k]
      {
        var sec;
        ok, sec := ReadSectorCached(lba + i, false);
        if !ok { return; }
        buffer := buffer + [sec];
      }
      ok := true;
    }

    /** Writes go to the device and drop both caches; a failed write leaves the disk and the caches as they were. */
    method WriteSectorUncached(lba: nat, sec: Sector) returns (ok: bool)
      requires Caching()
      modifies this`ageCounter, dev, dataCache, fatCache
      ensures Caching()
      ensures |dev.sectors| == old(|dev.sectors|) && dev.faults >= old(dev.faults)
      ensures ok ==> mounted && lba < |dev.sectors| && dev.sectors == old(dev.sectors)[lba := sec]
      ensures !ok ==> dev.sectors == old(dev.sectors)
      ensures !ok && mounted && dev.canWrite && lba < |dev.sectors| ==> dev.faults > old(dev.faults)
    {
      if !mounted || !hasDev || !dev.canWrite { return false; }
      ok := dev.WriteSector(lba, sec);
      if !ok { return; }
      FlushCache();
    }

    method NextCluster(cluster: nat) returns (ok: bool, next: nat)
      requires Valid()
      modifies this`ageCounter, dev`faults, dataCache, fatCache
      ensures Valid() && dev.faults >= old(dev.faults)
      ensures ok ==> ValidCluster(g, cluster) && next == links[cluster] &&
                     (next < 2 || next >= EOC || ValidCluster(g, next))
      ensures !ok && ValidCluster(g, cluster) && dev.faults == old(dev.faults) ==>
                2 <= links[cluster] < EOC && !ValidCluster(g, links[cluster])
    {
      assert Looking(DiskLayer);
      ok, next := false, 0;
      if !ValidCluster(g, cluster) { return; }
      var sec;
      assert FatLba(g, 0, cluster) < |dev.sectors|;
      ok, sec := ReadSectorCached(FatLba(g, 0, cluster), true);
      if !ok { return; }
      var value := EntryValue(sec, cluster % 128);
      if 2 <= value < EOC && !ValidCluster(g, value) { return false, 0; }
      next := value;
    }

    /** Reads, patches and writes back the sector of one entry in one FAT copy. */
    method WriteFatCopy(k: nat, cluster: nat, value: nat, ghost disk: seq<Sector>) returns (ok: bool)
      requires Caching() && mounted && Fits(g, |disk|) && k < g.fatCount && ValidCluster(g, cluster)
      requires FatUpdated(g, disk, dev.sectors, k, cluster, value)
      modifies this`ageCounter, dev, dataCache, fatCache
      ensures Caching() && dev.faults >= old(dev.faults)
      ensures FatUpdated(g, disk, dev.sectors, if ok then k + 1 else k, cluster, value)
      ensures !ok && dev.canWrite ==> dev.faults > old(dev.faults)
    {
      var lba := FatLba(g, k, cluster);
      FatUpdateStep(g, disk, dev.sectors, k, cluster, value);
      var sec;
      ok, sec := ReadSectorCached(lba, true);
      if !ok { return; }
      ok := WriteSectorUncached(lba, PatchEntry(sec, cluster % 128, value));
    }

    /** Writes the entry in the FAT copies one after another; `done` copies were written. */
    method WriteFatCopies(cluster: nat, value: nat) returns (ok: bool, ghost done: nat)
      requires Caching() && mounted && Fits(g, |dev.sectors|) && ValidCluster(g, cluster)
      modifies this`ageCounter, dev, dataCache, fatCache
      ensures Caching() && dev.faults >= old(dev.faults)
      ensures FatUpdated(g, old(dev.sectors), dev.sectors, done, cluster, value)
      ensures done <= g.fatCount && (ok ==> done == g.fatCount)
      ensures !ok && dev.canWrite ==> dev.faults > old(dev.faults)
    {
      ghost var disk := dev.sectors;
      FatUpdateStart(g, disk, cluster, value);
      for k := 0 to g.fatCount
        invariant Caching() && mounted && dev.faults >= old(dev.faults)
        invariant FatUpdated(g, disk, dev.sectors, k, cluster, value)
      {
        ok := WriteFatCopy(k, cluster, value, disk);
        if !ok { return false, k; }
      }
      return true, g.fatCount;
    }

    /** Writes one link into the FAT copies one after another; a failure can leave some of them behind. */
    method StoreLink(cluster: nat, value: nat) returns (ok: bool, ghost done: nat)
      requires Valid() && ValidCluster(g, cluster)
      modifies this`ageCounter, this`links, this`agree, this`lowest, dev, dataCache, fatCache
      ensures Valid() && dev.faults >= old(dev.faults)
      ensures links == LinksAfter(old(links), done, cluster, value) && (ok ==> done > 0)
      ensures agree == (old(agree) && ok) && lowest == (old(lowest) && value % LINK_RANGE != 0)
      ensures !ok && dev.canWrite ==> dev.faults > old(dev.faults)
    {
      assert Looking(DiskLayer);
      ghost var disk := dev.sectors;
      ok, done := WriteFatCopies(cluster, value);
      FatUpdateEffect(g, disk, dev.sectors, done, cluster, value, links, clusters);
      agree, lowest := agree && ok, lowest && value % LINK_RANGE != 0;
      links := LinksAfter(links, done, cluster, value);
    }

    /** Success sets one link in every FAT copy; a failure leaves the first copy before or after the change. */
    method SetClusterValue(cluster: nat, value: nat) returns (ok: bool)
      requires Valid()
      modifies this`ageCounter, this`links, this`agree, this`lowest, dev, dataCache, fatCache
      ensures Valid() && dev.faults >= old(dev.faults)
      ensures ok ==>
                ValidCluster(g, cluster) && links == old(links)[cluster := value % LINK_RANGE] && (old(agree) ==> agree)
      ensures ok && value % LINK_RANGE != 0 ==> lowest == old(lowest)
      ensures !ok && links != old(links) ==>
                ValidCluster(g, cluster) && links == old(links)[cluster := value % LINK_RANGE]
      ensures !ok && dev.canWrite && ValidCluster(g, cluster) &&
              (value < 2 || value >= EOC || ValidCluster(g, value)) ==>
                dev.faults > old(dev.faults)
    {
      if !ValidCluster(g, cluster) { return false; }
      if 2 <= value < EOC && !ValidCluster(g, value) { return false; }
      ghost var done;
      ok, done := StoreLink(cluster, value);
    }

    /** Reads the data sector at an address, which is sector s of cluster c. */
    method ReadDataSector(lba: nat, ghost c: nat, ghost s: nat) returns (ok: bool, sec: Sector)
      requires Valid() && ValidCluster(g, c) && s < g.spc && lba == DataLba(g, c, s)
      modifies this`ageCounter, dev`faults, dataCache, fatCache
      ensures Valid() && dev.faults >= old(dev.faults)
      ensures ok ==> sec == clusters[c][s]
      ensures !ok ==> dev.faults > old(dev.faults)
    {
      assert Looking(DiskLayer);
      DataLbaBounds(g, |dev.sectors|, c, s);
      ok, sec := ReadSectorCached(lba, false);
    }

    /** Reads sectors s to s + count - 1 of cluster c, in one request or one by one. */
    method ReadClusterRun(lba: nat, count: nat, ghost c: nat, ghost s: nat) returns (ok: bool, buffer: seq<Sector>)
      requires Valid() && ValidCluster(g, c) && count > 0 && s + count <= g.spc && lba == DataLba(g, c, s)
      modifies this`ageCounter, dev`faults, dataCache, fatCache
      ensures Valid() && dev.faults >= old(dev.faults)
      ensures ok ==> buffer == clusters[c][s..s + count]
      ensures !ok ==> dev.faults > old(dev.faults)
    {
      assert Looking(DiskLayer);
      DataLbaBounds(g, |dev.sectors|, c, s + count - 1);
      ok, buffer := ReadDataSectors(lba, count);
      if ok {
        forall i | 0 <= i < count ensures buffer[i] == clusters[c][s + i] {
          assert DataLba(g, c, s + i) == lba + i;
        }
      }
    }

    /** Writes the data sector at an address, which is sector s of cluster c. */
    method WriteDataSector(lba: nat, sec: Sector, ghost c: nat, ghost s: nat) returns (ok: bool)
      requires Valid() && ValidCluster(g, c) && s < g.spc && lba == DataLba(g, c, s)
      modifies this`ageCounter, this`clusters, dev, dataCache, fatCache
      ensures Valid() && dev.faults >= old(dev.faults)
      ensures ok ==> clusters == old(clusters)[c := SetSector(old(clusters)[c], s, sec)]
      ensures !ok ==> clusters == old(clusters)
      ensures !ok && dev.canWrite ==> dev.faults > old(dev.faults)
    {
      assert Looking(DiskLayer);
      DataWriteEffect(g, dev.sectors, links, clusters, c, s, sec);
      ok := WriteSectorUncached(lba, sec);
      if ok { clusters := clusters[c := SetSector(clusters[c], s, sec)]; }
    }
  }
}
