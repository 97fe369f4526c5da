/** Making room in a directory, appending a cluster when it is full, and storing an entry in place. */
module Fat32Room {
  import opened Options
  import opened MachineBytes
  import opened Products
  import opened BlockDevices
  import opened Fat32Layout
  import opened Fat32Volume
  import opened Fat32Chains
  import opened Fat32Slots
  import opened Fat32Directory

  // ---- Searching for an unused slot ----

  ghost function ScanFreeFrom(sec: Sector, i: nat): (r: Option<nat>)
    requires i <= 16
    ensures r.Some? ==> i <= r.value < 16
    decreases |sec| - i
  {
    if i == 16 then None else if Unused(SlotAt(sec, i)) then Some(i) else ScanFreeFrom(sec, i + 1)
  }

  ghost function SearchFree(secs: seq<Sector>, j: nat): (r: Found)
    ensures r.FoundAt? ==> j <= r.j < |secs| && r.i < 16
    decreases |secs| - j
  {
    if j >= |secs| then NotFound
    else match ScanFreeFrom(secs[j], 0)
      case Some(i) => FoundAt(j, i)
      case None => SearchFree(secs, j + 1)
  }

  lemma {:induction false} ScanFreeIsFree(sec: Sector, slots: seq<Slot>, base: nat, i: nat)
    requires i <= 16 && base + 16 <= |slots| && forall m :: 0 <= m < 16 ==> slots[base + m] == SlotAt(sec, m)
    ensures match ScanFreeFrom(sec, i)
            case Some(h) => FreeFrom(slots, base + i) == Some(base + h)
            case None => FreeFrom(slots, base + i) == FreeFrom(slots, base + 16)
    decreases 16 - i
  {
    if i < 16 {
      assert slots[base + i] == SlotAt(sec, i);
      ScanFreeIsFree(sec, slots, base, i + 1);
    }
  }

  lemma {:induction false} SearchFreeIsFree(secs: seq<Sector>, slots: seq<Slot>, j: nat)
    requires Tiled(secs, slots) && j <= |secs|
    ensures FreeFrom(slots, 16 * j) ==
            match SearchFree(secs, j) case NotFound => None case FoundAt(j', i) => Some(16 * j' + i)
    decreases |secs| - j
  {
    if j < |secs| {
      ScanFreeIsFree(secs[j], slots, 16 * j, 0);
      SearchFreeIsFree(secs, slots, j + 1);
    }
  }

  method ScanSectorFree(sec: Sector) returns (r: Option<nat>)
    ensures r == ScanFreeFrom(sec, 0)
  {
    for i := 0 to 16
      invariant ScanFreeFrom(sec, 0) == ScanFreeFrom(sec, i)
    {
      var e := SlotAt(sec, i);
      if e[0] == 0 || e[0] == DELETED { return Some(i); }
    }
    r := None;
  }

  method ScanClusterFree(fs: Fat32, cluster: nat, ghost secs: seq<Sector>, ghost j: nat)
    returns (ok: bool, r: Option<nat>, s: nat)
    requires fs.Valid() && ValidCluster(fs.g, cluster) && SectorsAt(secs, j, fs.clusters[cluster])
    modifies fs`ageCounter, fs.dev`faults, fs.dataCache, fs.fatCache
    ensures fs.Valid() && fs.dev.faults >= old(fs.dev.faults)
    ensures !ok ==> fs.dev.faults > old(fs.dev.faults)
    ensures ok && r.Some? ==> s < fs.g.spc && SearchFree(secs, j) == FoundAt(j + s, r.value)
    ensures ok && r.None? ==> SearchFree(secs, j) == SearchFree(secs, j + fs.g.spc)
  {
    s, r := 0, None;
    while s < fs.g.spc
      invariant fs.Valid() && fs.dev.faults >= old(fs.dev.faults) && s <= fs.g.spc
      invariant r.None? && SearchFree(secs, j) == SearchFree(secs, j + s)
    {
      var sec;
      ok, sec := fs.ReadDataSector(DataLba(fs.g, cluster, s), cluster, s);
      if !ok { return; }
      assert sec == secs[j..j + fs.g.spc][s] == secs[j + s];
      r := ScanSectorFree(sec);
      if r.Some? { return; }
      s := s + 1;
    }
    ok := true;
  }

  /** Follows the chain to the first unused slot; without one it ends at the last cluster, which is returned. */
  method SearchChainFree(fs: Fat32, dir: nat, ghost cs: seq<nat>, ghost secs: seq<Sector>)
    returns (ok: bool, found: bool, lba: nat, off: nat, last: nat, ghost p: Place)
    requires fs.Valid() && IsChain(fs.g, fs.links, cs) && cs[0] == dir && Spread(fs.g, fs.clusters, cs, secs)
    modifies fs`ageCounter, fs.dev`faults, fs.dataCache, fs.fatCache
    ensures fs.Valid() && fs.dev.faults >= old(fs.dev.faults)
    ensures !ok ==> fs.dev.faults > old(fs.dev.faults)
    ensures ok && found ==> p.ci < |cs| && p.s < fs.g.spc && lba == DataLba(fs.g, cs[p.ci], p.s) && off == 32 * p.i &&
                            SearchFree(secs, 0) == FoundAt(Times(p.ci, fs.g.spc) + p.s, p.i)
    ensures ok && !found ==> SearchFree(secs, 0) == NotFound && last == cs[|cs| - 1]
  {
    var cluster: nat := dir;
    ghost var ci := 0;
    lba, off, p, last := 0, 0, Place(0, 0, 0), dir;
    while ValidCluster(fs.g, cluster) && cluster < EOC
      invariant fs.Valid() && fs.dev.faults >= old(fs.dev.faults)
      invariant ci < |cs| && cluster == cs[ci]
      invariant SearchFree(secs, 0) == SearchFree(secs, Times(ci, fs.g.spc))
      decreases |cs| - ci
    {
      assert SectorsAt(secs, Times(ci, fs.g.spc), fs.clusters[cs[ci]]);
      var r, s, next;
      ok, r, s := ScanClusterFree(fs, cluster, secs, Times(ci, fs.g.spc));
      if !ok { return false, false, lba, off, last, p; }
      if r.Some? {
        lba, off, p := DataLba(fs.g, cluster, s), 32 * r.value, Place(ci, s, r.value);
        return true, true, lba, off, last, p;
      }
      ok, next := NextOnChain(fs, cluster, cs, ci);
      if !ok || next >= EOC { return ok, false, lba, off, cluster, p; }
      cluster, ci := next, ci + 1;
    }
    ok, found := false, false;
  }

  // ---- Appending a cluster ----

  /** The links after cluster c has been taken and appended to the chain whose last cluster is `last`. */
  ghost function Appended(links: seq<nat>, last: nat, c: nat): seq<nat>
    requires last < |links| && c < |links|
  {
    links[c := END_MARK][last := c]
  }

  lemma AppendedIsChain(g: Geometry, links: seq<nat>, cs: seq<nat>, c: nat)
    requires IsChain(g, links, cs) && ValidCluster(g, c) && links[c] == 0
    ensures forall i :: 0 <= i < |cs| ==> cs[i] != c
    ensures IsChain(g, Appended(links, cs[|cs| - 1], c), cs + [c]) || !Distinct(cs)
    ensures Distinct(cs) ==> Distinct(cs + [c])
  {
    forall i | 0 <= i < |cs| ensures cs[i] != c { ChainStep(g, links, cs, i); }
    if Distinct(cs) {
      var links', cs' := Appended(links, cs[|cs| - 1], c), cs + [c];
      forall i | 0 <= i < |cs'| - 1 ensures links'[cs'[i]] == cs'[i + 1] {
        if i < |cs| - 1 { ChainStep(g, links, cs, i); }
      }
    }
  }

  /** Chains read alike in two volumes that agree on their clusters. */
  lemma {:induction false} ChainSectorsFrame(clusters: seq<seq<Sector>>, clusters': seq<seq<Sector>>, cs: seq<nat>)
    requires |clusters'| == |clusters|
    requires forall i :: 0 <= i < |cs| ==> cs[i] < |clusters| && clusters'[cs[i]] == clusters[cs[i]]
    ensures ChainSectors(clusters', cs) == ChainSectors(clusters, cs)
  {
    if |cs| > 0 { ChainSectorsFrame(clusters, clusters', cs[..|cs| - 1]); }
  }

  /** Appending a cleared cluster to a directory appends unused slots that end it. */
  lemma AppendedSlots(g: Geometry, clusters: seq<seq<Sector>>, cs: seq<nat>, c: nat)
    requires Readable(g, clusters, cs) && ValidCluster(g, c) && forall i :: 0 <= i < |cs| ==> cs[i] != c
    ensures DirSlots(clusters[c := ZeroCluster(g.spc)], cs + [c]) == DirSlots(clusters, cs) + ZeroSlots(16 * g.spc)
  {
    var clusters', cs' := clusters[c := ZeroCluster(g.spc)], cs + [c];
    assert cs'[..|cs'| - 1] == cs;
    ChainSectorsFrame(clusters, clusters', cs);
    SlotsAppend(ChainSectors(clusters, cs), ZeroCluster(g.spc));
    SlotsOfZeros(g.spc);
  }

  // ---- Storing an entry ----

  ghost function PatchedClusters(clusters: seq<seq<Sector>>, c: nat, s: nat, i: nat, e: Slot): seq<seq<Sector>>
    requires c < |clusters| && s < |clusters[c]| && i < 16
  {
    clusters[c := SetSector(clusters[c], s, PatchSlot(clusters[c][s], i, e))]
  }

  /** Storing an entry at a place changes that slot of the directory and no other. */
  lemma PatchedSlots(g: Geometry, clusters: seq<seq<Sector>>, cs: seq<nat>, p: Place, e: Slot)
    requires Readable(g, clusters, cs) && Distinct(cs) && p.ci < |cs| && p.s < g.spc && p.i < 16
    ensures var k := 16 * (Times(p.ci, g.spc) + p.s) + p.i;
            k < |DirSlots(clusters, cs)| &&
            DirSlots(PatchedClusters(clusters, cs[p.ci], p.s, p.i, e), cs) == DirSlots(clusters, cs)[k := e]
  {
    var j, secs := Times(p.ci, g.spc) + p.s, ChainSectors(clusters, cs);
    var clusters' := PatchedClusters(clusters, cs[p.ci], p.s, p.i, e);
    ChainSectorsAt(g, clusters, cs, p.ci, p.s);
    SlotsPatched(secs, j, p.i, e);
    SectorPatched(g, clusters, cs, p.ci, p.s, PatchSlot(secs[j], p.i, e));
  }

  lemma {:induction false} SectorPatched(g: Geometry, clusters: seq<seq<Sector>>, cs: seq<nat>, ci: nat,
                                         s: nat, sec: Sector)
    requires Readable(g, clusters, cs) && Distinct(cs) && ci < |cs| && s < g.spc
    ensures Times(ci, g.spc) + s < |ChainSectors(clusters, cs)|
    ensures ChainSectors(clusters[cs[ci] := SetSector(clusters[cs[ci]], s, sec)], cs)
         == ChainSectors(clusters, cs)[Times(ci, g.spc) + s := sec]
    decreases |cs|
  {
    var n, c := |cs| - 1, cs[ci];
    var init, cluster := cs[..n], SetSector(clusters[c], s, sec);
    var clusters' := clusters[c := cluster];
    ChainSectorsLength(g, clusters, cs);
    ChainSectorsLength(g, clusters, init);
    if ci == n {
      forall i | 0 <= i < n ensures cs[i] != c { assert Pair(i, n); }
      ChainSectorsFrame(clusters, clusters', init);
      UpdateRight(ChainSectors(clusters, init), clusters[c], s, sec);
    } else {
      assert Pair(ci, n);
      ChainSectorsAt(g, clusters, init, ci, s);
      SectorPatched(g, clusters, init, ci, s, sec);
      UpdateLeft(ChainSectors(clusters, init), clusters[cs[n]], Times(ci, g.spc) + s, sec);
    }
  }

  lemma UpdateRight<T>(a: seq<T>, b: seq<T>, i: nat, x: T)
    requires i < |b|
    ensures a + b[i := x] == (a + b)[|a| + i := x]
  {
  }

  lemma UpdateLeft<T>(a: seq<T>, b: seq<T>, i: nat, x: T)
    requires i < |a|
    ensures a[i := x] + b == (a + b)[i := x]
  {
  }

  /** Finds an unused slot, appending a cleared cluster to a full directory (`grown` is that cluster). Without a
      device fault it fails only when the directory is full and no cluster is free. */
  method FindFreeEntryInDir(fs: Fat32, dir: nat, ghost cs: seq<nat>)
    returns (ok: bool, lba: nat, off: nat, ghost grown: Option<nat>, ghost k: nat, ghost p: Place)
    requires fs.Valid() && IsChain(fs.g, fs.links, cs) && Distinct(cs) && cs[0] == dir
    modifies fs`ageCounter, fs`links, fs`agree, fs`lowest, fs`clusters, fs`allocHint, fs.dev, fs.dataCache, fs.fatCache
    ensures fs.Valid() && fs.dev.faults >= old(fs.dev.faults)
    ensures ok || (fs.dev.canWrite && fs.dev.faults == old(fs.dev.faults) && LinksOk(fs.g, old(fs.links))) ==>
              fs.Steady(old(fs.agree), old(fs.lowest))
    ensures ok ==> RoomMade(fs.g, old(fs.links), old(fs.clusters), fs.links, fs.clusters, cs, grown, k) &&
                   At(fs.g, if grown.Some? then cs + [grown.value] else cs, k, lba, off, p)
    ensures !ok && fs.dev.canWrite && LinksOk(fs.g, old(fs.links)) ==>
              fs.dev.faults > old(fs.dev.faults) ||
              (FreeFrom(DirSlots(old(fs.clusters), cs), 0) == None && FreeSet(old(fs.links)) == {} &&
               fs.links == old(fs.links) && fs.clusters == old(fs.clusters))
  {
    ghost var secs := ChainSectors(fs.clusters, cs);
    ChainSectorsSpread(fs.g, fs.clusters, cs);
    SlotsTiled(secs);
    SearchFreeIsFree(secs, Slots(secs), 0);
    grown := None;
    var found, last;
    ok, found, lba, off, last, p := SearchChainFree(fs, dir, cs, secs);
    k := 16 * (Times(p.ci, fs.g.spc) + p.s) + p.i;
    if !ok || found { return; }
    var c;
    ok, c := AppendCluster(fs, last, cs);
    if !ok { return; }
    lba, off, grown := DataLba(fs.g, c, 0), 0, Some(c);
    k, p := 16 * Times(|cs|, fs.g.spc), Place(|cs|, 0, 0);
  }

  /** Takes a free cluster and links it after the last cluster of the chain. */
  method AppendCluster(fs: Fat32, last: nat, ghost cs: seq<nat>) returns (ok: bool, c: nat)
    requires fs.Valid() && IsChain(fs.g, fs.links, cs) && Distinct(cs) && last == cs[|cs| - 1]
    modifies fs`ageCounter, fs`links, fs`agree, fs`lowest, fs`clusters, fs`allocHint, fs.dev, fs.dataCache, fs.fatCache
    ensures fs.Valid() && fs.dev.faults >= old(fs.dev.faults)
    ensures ok || (fs.dev.canWrite && fs.dev.faults == old(fs.dev.faults) && LinksOk(fs.g, old(fs.links))) ==>
              fs.Steady(old(fs.agree), old(fs.lowest))
    ensures ok ==> ValidCluster(fs.g, c) && old(fs.links)[c] == 0 && c != last &&
                   fs.links == Appended(old(fs.links), last, c) &&
                   fs.clusters == old(fs.clusters)[c := ZeroCluster(fs.g.spc)]
    ensures !ok && fs.dev.canWrite && LinksOk(fs.g, old(fs.links)) ==>
              fs.dev.faults > old(fs.dev.faults) ||
              (FreeSet(old(fs.links)) == {} && fs.links == old(fs.links) && fs.clusters == old(fs.clusters))
  {
    ok, c := AllocCluster(fs);
    if !ok { return; }
    ok := fs.SetClusterValue(last, c);
    if !ok { var _ := FreeChain(fs, c); return false, c; }
  }

  /** Room in a directory is an unused slot it has, or the first slot of a cleared cluster appended to it. */
  ghost predicate RoomMade(g: Geometry, links: seq<nat>, clusters: seq<seq<Sector>>, links': seq<nat>,
                           clusters': seq<seq<Sector>>, cs: seq<nat>, grown: Option<nat>, k: nat)
    requires forall i :: 0 <= i < |cs| ==> cs[i] < |clusters|
    requires |cs| > 0 && |links| == |clusters| == g.max + 1
  {
    match grown
    case None =>
      links' == links && clusters' == clusters && FreeFrom(DirSlots(clusters, cs), 0) == Some(k)
    case Some(c) =>
      && ValidCluster(g, c) && links[c] == 0
      && links' == Appended(links, cs[|cs| - 1], c) && clusters' == clusters[c := ZeroCluster(g.spc)]
      && FreeFrom(DirSlots(clusters, cs), 0) == None && k == 16 * Times(|cs|, g.spc)
  }

  /** Writes a sector back with entry e in one slot. */
  method StoreSlot(fs: Fat32, lba: nat, off: nat, sec: Sector, e: Slot, ghost cs: seq<nat>, ghost k: nat,
                   ghost p: Place)
    returns (ok: bool)
    requires fs.Valid() && Readable(fs.g, fs.clusters, cs) && At(fs.g, cs, k, lba, off, p)
    requires sec == fs.clusters[cs[p.ci]][p.s]
    modifies fs`ageCounter, fs`clusters, fs.dev, fs.dataCache, fs.fatCache
    ensures fs.Valid() && fs.dev.faults >= old(fs.dev.faults)
    ensures ok ==> fs.clusters == PatchedClusters(old(fs.clusters), cs[p.ci], p.s, p.i, e)
    ensures !ok ==> fs.clusters == old(fs.clusters)
    ensures !ok && fs.dev.canWrite ==> fs.dev.faults > old(fs.dev.faults)
  {
    ok := fs.WriteDataSector(lba, PatchSlot(sec, off / 32, e), cs[p.ci], p.s);
  }
}
