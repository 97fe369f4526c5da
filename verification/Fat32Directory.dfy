/** Directories on the disk: searching a chain of clusters for an entry or for room, and storing an entry. */
module Fat32Directory {
  import opened Options
  import opened MachineBytes
  import opened Products
  import opened BlockDevices
  import opened Fat32Layout
  import opened Fat32Volume
  import opened Fat32Chains
  import opened Fat32Slots

  ghost predicate Inside(clusters: seq<seq<Sector>>, cs: seq<nat>) {
    forall i :: 0 <= i < |cs| ==> cs[i] < |clusters|
  }

  /** The sectors of a chain, in order. */
  ghost function ChainSectors(clusters: seq<seq<Sector>>, cs: seq<nat>): seq<Sector>
    requires Inside(clusters, cs)
  {
    if |cs| == 0 then [] else ChainSectors(clusters, cs[..|cs| - 1]) + clusters[cs[|cs| - 1]]
  }

  /** cs lists clusters of the volume, each of spc sectors. */
  ghost predicate Readable(g: Geometry, clusters: seq<seq<Sector>>, cs: seq<nat>) {
    && |clusters| == g.max + 1 && g.spc > 0
    && forall i :: 0 <= i < |cs| ==> ValidCluster(g, cs[i]) && |clusters[cs[i]]| == g.spc
  }

  lemma {:induction false} ChainSectorsAt(g: Geometry, clusters: seq<seq<Sector>>, cs: seq<nat>, ci: nat, s: nat)
    requires Readable(g, clusters, cs) && ci < |cs| && s < g.spc
    ensures |ChainSectors(clusters, cs)| == Times(|cs|, g.spc)
    ensures Times(ci, g.spc) + s < Times(|cs|, g.spc)
    ensures ChainSectors(clusters, cs)[Times(ci, g.spc) + s] == clusters[cs[ci]][s]
    decreases |cs|
  {
    var n := |cs| - 1;
    if n == 0 {
      assert ChainSectors(clusters, cs[..0]) == [];
    } else {
      ChainSectorsAt(g, clusters, cs[..n], if ci < n then ci else 0, s);
    }
  }

  lemma {:induction false} ChainSectorsLength(g: Geometry, clusters: seq<seq<Sector>>, cs: seq<nat>)
    requires Readable(g, clusters, cs)
    ensures |ChainSectors(clusters, cs)| == Times(|cs|, g.spc)
  {
    if |cs| > 0 { ChainSectorsLength(g, clusters, cs[..|cs| - 1]); }
  }

  /** The sectors of a cluster are sectors j on of the list. */
  ghost predicate SectorsAt(secs: seq<Sector>, j: nat, cluster: seq<Sector>) {
    j + |cluster| <= |secs| && secs[j..j + |cluster|] == cluster
  }

  /** secs are the sectors of the clusters cs, in order. */
  ghost predicate Spread(g: Geometry, clusters: seq<seq<Sector>>, cs: seq<nat>, secs: seq<Sector>) {
    && Readable(g, clusters, cs) && |secs| == Times(|cs|, g.spc)
    && forall ci {:trigger SectorsAt(secs, Times(ci, g.spc), clusters[cs[ci]])} ::
         0 <= ci < |cs| ==> SectorsAt(secs, Times(ci, g.spc), clusters[cs[ci]])
  }

  lemma ChainSectorsSpread(g: Geometry, clusters: seq<seq<Sector>>, cs: seq<nat>)
    requires Readable(g, clusters, cs) && |cs| > 0
    ensures Spread(g, clusters, cs, ChainSectors(clusters, cs))
  {
    var secs := ChainSectors(clusters, cs);
    ChainSectorsAt(g, clusters, cs, 0, 0);
    forall ci | 0 <= ci < |cs| ensures SectorsAt(secs, Times(ci, g.spc), clusters[cs[ci]]) {
      ChainSectorsAt(g, clusters, cs, ci, g.spc - 1);
      var j := Times(ci, g.spc);
      forall m | 0 <= m < g.spc ensures secs[j..j + g.spc][m] == clusters[cs[ci]][m] {
        ChainSectorsAt(g, clusters, cs, ci, m);
      }
    }
  }

  ghost function DirSlots(clusters: seq<seq<Sector>>, cs: seq<nat>): seq<Slot>
    requires Inside(clusters, cs)
  {
    Slots(ChainSectors(clusters, cs))
  }

  /** Slot k of the directory with clusters cs is slot i of sector s of its cluster number ci. */
  datatype Place = Place(ci: nat, s: nat, i: nat)

  ghost predicate At(g: Geometry, cs: seq<nat>, k: nat, lba: nat, off: nat, p: Place) {
    && p.ci < |cs| && p.s < g.spc && p.i < 16 && cs[p.ci] >= 2
    && k == 16 * (Times(p.ci, g.spc) + p.s) + p.i
    && lba == DataLba(g, cs[p.ci], p.s) && off == 32 * p.i
  }

  lemma SlotAtPlace(g: Geometry, clusters: seq<seq<Sector>>, cs: seq<nat>, p: Place)
    requires Readable(g, clusters, cs) && p.ci < |cs| && p.s < g.spc && p.i < 16
    ensures 16 * (Times(p.ci, g.spc) + p.s) + p.i < |DirSlots(clusters, cs)| == 16 * (Times(|cs|, g.spc))
    ensures DirSlots(clusters, cs)[16 * (Times(p.ci, g.spc) + p.s) + p.i] == SlotAt(clusters[cs[p.ci]][p.s], p.i)
  {
    ChainSectorsAt(g, clusters, cs, p.ci, p.s);
    SlotsAt(ChainSectors(clusters, cs), Times(p.ci, g.spc) + p.s, p.i);
  }

  datatype Scan = Miss | Stop | Hit(i: nat)

  /** What looking for a name in one sector from slot i on gives. */
  ghost function ScanFrom(sec: Sector, name: Name, i: nat): (r: Scan)
    requires i <= 16
    ensures r.Hit? ==> i <= r.i < 16
    decreases |sec| - i
  {
    if i == 16 then Miss
    else
      var e := SlotAt(sec, i);
      if e[0] == 0 then Stop
      else if Live(e) && NameOf(e) == name then Hit(i)
      else ScanFrom(sec, name, i + 1)
  }

  datatype Found = NotFound | FoundAt(j: nat, i: nat)

  /** What scanning the sectors of a directory from number j on gives: a sector number and a slot in it. */
  ghost function Search(secs: seq<Sector>, name: Name, j: nat): (r: Found)
    ensures r.FoundAt? ==> j <= r.j < |secs| && r.i < 16
    decreases |secs| - j
  {
    if j >= |secs| then NotFound
    else match ScanFrom(secs[j], name, 0)
      case Hit(i) => FoundAt(j, i)
      case Stop => NotFound
      case Miss => Search(secs, name, j + 1)
  }

  lemma {:induction false} ScanIsFind(sec: Sector, slots: seq<Slot>, base: nat, name: Name, i: nat)
    requires i <= 16 && base + 16 <= |slots| && forall m :: 0 <= m < 16 ==> slots[base + m] == SlotAt(sec, m)
    ensures match ScanFrom(sec, name, i)
            case Hit(h) => FindFrom(slots, name, base + i) == Some(base + h)
            case Stop => FindFrom(slots, name, base + i) == None
            case Miss => FindFrom(slots, name, base + i) == FindFrom(slots, name, base + 16)
    decreases 16 - i
  {
    if i < 16 {
      assert slots[base + i] == SlotAt(sec, i);
      ScanIsFind(sec, slots, base, name, i + 1);
    }
  }

  /** Scanning sector by sector finds what searching the list of slots finds. */
  lemma {:induction false} SearchIsFind(secs: seq<Sector>, slots: seq<Slot>, name: Name, j: nat)
    requires Tiled(secs, slots) && j <= |secs|
    ensures FindFrom(slots, name, 16 * j) ==
            match Search(secs, name, j) case NotFound => None case FoundAt(j', i) => Some(16 * j' + i)
    decreases |secs| - j
  {
    if j < |secs| {
      ScanIsFind(secs[j], slots, 16 * j, name, 0);
      SearchIsFind(secs, slots, name, j + 1);
    }
  }

  /** Looks for a name in one sector. */
  method ScanSector(sec: Sector, name: Name) returns (r: Scan)
    ensures r == ScanFrom(sec, name, 0)
  {
    for i := 0 to 16
      invariant ScanFrom(sec, name, 0) == ScanFrom(sec, name, i)
    {
      var e := SlotAt(sec, i);
      if e[0] == 0 { return Stop; }
      if e[0] == DELETED { continue; }
      if e[11] == ATTR_LFN { continue; }
      if NameOf(e) == name { return Hit(i); }
    }
    r := Miss;
  }

  /** Scans the sectors of one cluster, which are sectors j to j + spc - 1 of `secs`. */
  method ScanCluster(fs: Fat32, cluster: nat, name: Name, ghost secs: seq<Sector>, ghost j: nat)
    returns (ok: bool, r: Scan, s: nat, entry: Slot)
    requires fs.Valid() && ValidCluster(fs.g, cluster) && SectorsAt(secs, j, fs.clusters[cluster])
    modifies fs`ageCounter, fs.dev`faults, fs.dataCache, fs.fatCache
    ensures fs.Valid() && fs.dev.faults >= old(fs.dev.faults)
    ensures !ok ==> fs.dev.faults > old(fs.dev.faults)
    ensures ok && r.Hit? ==>
              s < fs.g.spc && Search(secs, name, j) == FoundAt(j + s, r.i) && entry == SlotAt(secs[j + s], r.i)
    ensures ok && r.Stop? ==> Search(secs, name, j) == NotFound
    ensures ok && r.Miss? ==> Search(secs, name, j) == Search(secs, name, j + fs.g.spc)
  {
    s, r, entry := 0, Miss, ZeroSlot();
    while s < fs.g.spc
      invariant fs.Valid() && fs.dev.faults >= old(fs.dev.faults) && s <= fs.g.spc
      invariant r.Miss? && Search(secs, name, j) == Search(secs, name, j + s)
    {
      var sec;
      ok, sec := fs.ReadDataSector(DataLba(fs.g, cluster, s), cluster, s);
      if !ok { return; }
      assert sec == secs[j..j + fs.g.spc][s] == secs[j + s];
      r := ScanSector(sec, name);
      if !r.Miss? {
        if r.Hit? { entry := SlotAt(sec, r.i); }
        return;
      }
      s := s + 1;
    }
    ok := true;
  }

  /** Moves on along a chain. */
  method NextOnChain(fs: Fat32, cluster: nat, ghost cs: seq<nat>, ghost ci: nat) returns (ok: bool, next: nat)
    requires fs.Valid() && IsChain(fs.g, fs.links, cs) && ci < |cs| && cluster == cs[ci]
    modifies fs`ageCounter, fs.dev`faults, fs.dataCache, fs.fatCache
    ensures fs.Valid() && fs.dev.faults >= old(fs.dev.faults)
    ensures ok ==> if ci + 1 < |cs| then next == cs[ci + 1] && next < EOC else next >= EOC
    ensures !ok ==> fs.dev.faults > old(fs.dev.faults)
  {
    ChainStep(fs.g, fs.links, cs, ci);
    ok, next := fs.NextCluster(cluster);
  }

  /** Follows the chain of a directory, scanning each cluster, until the name is found or the search is over. */
  method SearchChain(fs: Fat32, dir: nat, name: Name, ghost cs: seq<nat>, ghost secs: seq<Sector>)
    returns (ok: bool, lba: nat, off: nat, entry: Slot, ghost p: Place)
    requires fs.Valid() && IsChain(fs.g, fs.links, cs) && cs[0] == dir && Spread(fs.g, fs.clusters, cs, secs)
    modifies fs`ageCounter, fs.dev`faults, fs.dataCache, fs.fatCache
    ensures fs.Valid() && fs.dev.faults >= old(fs.dev.faults)
    ensures ok ==> p.ci < |cs| && p.s < fs.g.spc && lba == DataLba(fs.g, cs[p.ci], p.s) && off == 32 * p.i &&
                   Search(secs, name, 0) == FoundAt(Times(p.ci, fs.g.spc) + p.s, p.i) &&
                   entry == SlotAt(fs.clusters[cs[p.ci]][p.s], p.i)
    ensures !ok && fs.dev.faults == old(fs.dev.faults) ==> Search(secs, name, 0) == NotFound
  {
    var cluster: nat := dir;
    ghost var ci := 0;
    lba, off, p, entry := 0, 0, Place(0, 0, 0), ZeroSlot();
    while ValidCluster(fs.g, cluster) && cluster < EOC
      invariant fs.Valid() && fs.dev.faults >= old(fs.dev.faults)
      invariant ci < |cs| && cluster == cs[ci]
      invariant Search(secs, name, 0) == Search(secs, name, Times(ci, fs.g.spc))
      decreases |cs| - ci
    {
      assert SectorsAt(secs, Times(ci, fs.g.spc), fs.clusters[cs[ci]]);
      var r, s, next;
      ok, r, s, entry := ScanCluster(fs, cluster, name, secs, Times(ci, fs.g.spc));
      if !ok || r.Stop? { return false, lba, off, entry, p; }
      if r.Hit? {
        lba, off, p := DataLba(fs.g, cluster, s), 32 * r.i, Place(ci, s, r.i);
        return;
      }
      ok, next := NextOnChain(fs, cluster, cs, ci);
      if !ok || next >= EOC { return false, lba, off, entry, p; }
      cluster, ci := next, ci + 1;
    }
    ok := false;
  }

  /** What scanning the sectors of a directory finds is what searching its slots finds. */
  lemma DirSearch(g: Geometry, clusters: seq<seq<Sector>>, cs: seq<nat>, name: Name)
    requires Readable(g, clusters, cs) && |cs| > 0
    ensures Spread(g, clusters, cs, ChainSectors(clusters, cs))
    ensures Find(DirSlots(clusters, cs), name) ==
            match Search(ChainSectors(clusters, cs), name, 0)
            case NotFound => None
            case FoundAt(j, i) => Some(16 * j + i)
  {
    ChainSectorsSpread(g, clusters, cs);
    SlotsTiled(ChainSectors(clusters, cs));
    SearchIsFind(ChainSectors(clusters, cs), DirSlots(clusters, cs), name, 0);
  }

  /** Finds the entry a name denotes; without a device fault, failure means there is none. */
  method FindEntryInDir(fs: Fat32, dir: nat, name: Name, ghost cs: seq<nat>)
    returns (ok: bool, lba: nat, off: nat, entry: Slot, ghost k: nat, ghost p: Place)
    requires fs.Valid() && IsChain(fs.g, fs.links, cs) && cs[0] == dir
    modifies fs`ageCounter, fs.dev`faults, fs.dataCache, fs.fatCache
    ensures fs.Valid() && fs.dev.faults >= old(fs.dev.faults)
    ensures ok ==> Find(DirSlots(fs.clusters, cs), name) == Some(k) && entry == DirSlots(fs.clusters, cs)[k] &&
                   At(fs.g, cs, k, lba, off, p)
    ensures !ok && fs.dev.faults == old(fs.dev.faults) ==> Find(DirSlots(fs.clusters, cs), name) == None
  {
    DirSearch(fs.g, fs.clusters, cs, name);
    ok, lba, off, entry, p := SearchChain(fs, dir, name, cs, ChainSectors(fs.clusters, cs));
    k := 16 * (Times(p.ci, fs.g.spc) + p.s) + p.i;
    if ok { SlotAtPlace(fs.g, fs.clusters, cs, p); }
  }
}
