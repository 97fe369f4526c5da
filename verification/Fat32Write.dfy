/** Writing a file whose entry exists: freeing its old chain, making a new one, and storing the entry. */
module Fat32Write {
  import opened Options
  import opened MachineBytes
  import opened Products
  import opened BlockDevices
  import opened Fat32Layout
  import opened Fat32Volume
  import opened Fat32Chains
  import opened Fat32Slots
  import opened Fat32Directory
  import opened Fat32Room
  import opened Fat32Tree
  import opened Fat32Files
  import opened Fat32Paths
  import opened Fat32View

  const ATTR_FILE: byte := 0x20

  /** One when a directory has no unused slot, so that storing an entry takes a cluster. */
  ghost function Growth(slots: seq<Slot>): nat { if FreeFrom(slots, 0).None? then 1 else 0 }

  lemma AppendedCount(links: seq<nat>, last: nat, c: nat)
    requires 2 <= c < |links| && links[c] == 0 && last < |links| && links[last] != 0
    ensures |FreeSet(Appended(links, last, c))| + 1 == |FreeSet(links)|
  {
    FreeSetTaken(links, c, END_MARK);
    FreeSetKept(links[c := END_MARK], last, c);
  }

  /** Makes room for an entry in directory d, which gives the tree no new meaning. */
  method MakeRoom(fs: Fat32, d: nat, ghost chains: Chains, ghost dirs: Dirs)
    returns (ok: bool, lba: nat, off: nat, ghost chains': Chains, ghost dirs': Dirs, ghost k: nat, ghost p: Place)
    requires fs.Valid() && Shows(fs.g, fs.links, fs.clusters, chains, dirs) && d in dirs
    modifies fs`ageCounter, fs`links, fs`agree, fs`lowest, fs`clusters, fs`allocHint, fs.dev, fs.dataCache, fs.fatCache
    ensures fs.Valid() && fs.dev.faults >= old(fs.dev.faults)
    ensures ok || (fs.dev.canWrite && fs.dev.faults == old(fs.dev.faults)) ==>
              fs.Steady(old(fs.agree), old(fs.lowest))
    ensures ok ==> Shows(fs.g, fs.links, fs.clusters, chains', dirs') && dirs'.Keys == dirs.Keys
    ensures ok ==> k < |dirs'[d]| && FreeFrom(dirs'[d], 0) == Some(k) && At(fs.g, chains'[d], k, lba, off, p)
    ensures ok ==> AllKeptBut(old(fs.clusters), chains, fs.clusters, chains', {d})
    ensures ok ==> |FreeSet(fs.links)| + Growth(dirs[d]) == |FreeSet(old(fs.links))|
    ensures ok && TreeOk(fs.g.root, fs.g.spc, chains, dirs) ==>
              TreeOk(fs.g.root, fs.g.spc, chains', dirs') && forall x, n: Name ::
                  Lookup(dirs', x, n) == Lookup(dirs, x, n)
    ensures !ok && fs.dev.canWrite ==>
              fs.dev.faults > old(fs.dev.faults) ||
              (FreeFrom(dirs[d], 0) == None && FreeSet(old(fs.links)) == {} && chains' == chains && dirs' == dirs &&
               fs.links == old(fs.links) && fs.clusters == old(fs.clusters))
  {
    ghost var grown;
    ghost var links, clusters := fs.links, fs.clusters;
    ShownDirectory(fs.g, links, clusters, chains, dirs, d);
    ok, lba, off, grown, k, p := FindFreeEntryInDir(fs, d, chains[d]);
    chains', dirs' := chains, dirs;
    KeptSame(fs.g, links, clusters, chains, dirs);
    if ok && grown.Some? {
      chains', dirs' := Grow(fs.g, links, clusters, chains, dirs, d, grown.value);
    }
  }

  /** The view of a volume after cluster c has been appended to a full directory d. */
  lemma Grow(g: Geometry, links: seq<nat>, clusters: Clusters, chains: Chains, dirs: Dirs, d: nat, c: nat)
    returns (chains': Chains, dirs': Dirs)
    requires Shows(g, links, clusters, chains, dirs) && d in dirs && ValidCluster(g, c) && links[c] == 0
    requires g.spc >= 1 && FreeFrom(dirs[d], 0).None? && IsChain(g, links, chains[d]) &&
             Readable(g, clusters, chains[d])
    ensures chains' == chains[d := chains[d] + [c]] && dirs' == dirs[d := dirs[d] + ZeroSlots(16 * g.spc)]
    ensures var links' := Appended(links, chains[d][|chains[d]| - 1], c);
            Shows(g, links', clusters[c := ZeroCluster(g.spc)], chains', dirs') &&
            |FreeSet(links')| + 1 == |FreeSet(links)|
    ensures AllKeptBut(clusters, chains, clusters[c := ZeroCluster(g.spc)], chains', {d})
    ensures FreeFrom(dirs'[d], 0) == Some(|dirs[d]|)
    ensures |dirs[d]| == 16 * Times(|chains[d]|, g.spc)
    ensures TreeOk(g.root, g.spc, chains, dirs) ==>
              TreeOk(g.root, g.spc, chains', dirs') && forall x, n: Name :: Lookup(dirs', x, n) == Lookup(dirs, x, n)
  {
    chains', dirs' := chains[d := chains[d] + [c]], dirs[d := dirs[d] + ZeroSlots(16 * g.spc)];
    ShowsGrown(g, links, clusters, chains, dirs, d, c);
    ShownDirectory(g, links, clusters, chains, dirs, d);
    AppendedCount(links, chains[d][|chains[d]| - 1], c);
    RoomAfterZeros(dirs[d], 16 * g.spc);
    SlotAtPlace(g, clusters, chains[d], Place(0, 0, 0));
    if TreeOk(g.root, g.spc, chains, dirs) { GrownTree(g.root, g.spc, chains, dirs, d, c, 16 * g.spc); }
  }

  // ---- Writing a file whose entry exists ----

  /** n clusters of spc sectors are just enough for a file of this size. */
  ghost predicate JustEnough(n: nat, size: nat, spc: nat) {
    size <= 512 * Times(n, spc) && (n > 0 ==> 512 * Times(n - 1, spc) < size)
  }

  /** The number of clusters a file takes, computed in 32 bits: exact for every size below 4 GiB. */
  method NeededClusters(size: nat, spc: nat) returns (n: nat)
    requires spc >= 1
    ensures size < 0x1_0000_0000 ==> JustEnough(n, size, spc)
  {
    if size == 0 { return 0; }
    var unit := spc * 512;
    var q := (size + unit - 1) / unit;
    n := q % 0x1_0000_0000;
    if size < 0x1_0000_0000 {
      DivBounds(size + unit - 1, unit);
      QuotientFits(q, unit, size);
      TimesIsProduct(q, spc);
      TimesIsProduct(q - 1, spc);
      Regroup(q, spc);
      Regroup(q - 1, spc);
    }
  }

  lemma DivBounds(n: nat, unit: nat)
    requires unit > 0
    ensures n / unit * unit <= n < n / unit * unit + unit
  {
  }

  lemma QuotientFits(q: nat, unit: nat, size: nat)
    requires unit > 0 && size > 0 && q * unit <= size + unit - 1 < q * unit + unit
    ensures 1 <= q <= size && (q - 1) * unit == q * unit - unit
  {
    if q > size {
      assert q * unit >= (size + 1) * unit by { MulMono(size + 1, q, unit); }
      assert (size + 1) * unit == size * unit + unit;
      assert size * unit >= size by { MulMono(1, unit, size); }
    }
  }

  lemma MulMono(a: nat, b: nat, k: nat)
    requires a <= b
    ensures a * k <= b * k && k * a <= k * b
  {
  }

  lemma Regroup(q: int, spc: int)
    ensures 512 * (q * spc) == q * (spc * 512)
  {
  }

  /** What a name in the tree reads as: the bytes of the file it denotes, if it denotes one. */
  ghost function ReadAt(clusters: Clusters, chains: Chains, dirs: Dirs, d: nat, name: Name): Option<seq<byte>>
  {
    match Lookup(dirs, d, name)
    case None => None
    case Some(e) => if IsDirectory(e) then None else Some(FileBytes(clusters, chains, e))
  }

  /** The entry at slot k of d now names a chain that holds the data, and only d and the old chain were touched. */
  ghost predicate EntryWritten(g: Geometry, clusters: Clusters, chains: Chains, dirs: Dirs, d: nat, k: nat,
                               data: seq<byte>,
                               links': seq<nat>, clusters': Clusters, chains': Chains, dirs': Dirs)
    requires d in dirs && k < |dirs[d]|
  {
    var e := dirs[d][k];
    && Shows(g, links', clusters', chains', dirs') && TreeOk(g.root, g.spc, chains', dirs')
    && dirs'.Keys == dirs.Keys && SameElsewhere(dirs, dirs', d, NameOf(e))
    && AllKeptBut(clusters, chains, clusters', chains', {d, FirstCluster(e)})
    && Lookup(dirs', d, NameOf(e)).Some?
    && var e' := Lookup(dirs', d, NameOf(e)).value;
       !IsDirectory(e') && FileSize(e') == |data| && FileBytes(clusters', chains', e') == data
  }

  /** The data can be read back through the entry, and its chain suits it. */
  lemma WrittenReads(g: Geometry, clusters: Clusters, chains: Chains, dirs: Dirs, e: Slot, e': Slot, cs: seq<nat>,
                     n: nat, data: seq<byte>)
    requires g.max < EOC
    requires |cs| > 0 ==> cs[0] in chains && chains[cs[0]] == cs && cs[0] !in dirs
    requires ChainHoldsData(g, clusters, cs, n, data) && |data| <= 512 * Times(n, g.spc)
    requires Rewritten(e, e', if |cs| > 0 then cs[0] else 0, |data|)
    ensures EntryOk(g.spc, chains, dirs, e') && FileBytes(clusters, chains, e') == data
  {
    if n < |cs| { TimesStrict(n, |cs|, g.spc); }
    FilledBytes(g, clusters, cs, n, data);
  }

  /** Storing the written entry completes the write. */
  lemma StoreMeaning(g: Geometry, links: seq<nat>, clusters: Clusters, chains: Chains, dirs: Dirs,
                     d: nat, k: nat, lba: nat, off: nat, p: Place, e': Slot, cs: seq<nat>, n: nat, data: seq<byte>)
    requires Shows(g, links, clusters, chains, dirs) && d in dirs && At(g, chains[d], k, lba, off, p) && k < |dirs[d]|
    requires TreeBut(g.root, g.spc, chains, dirs, Pos(d, k)) && g.max < EOC && Readable(g, clusters, chains[d])
    requires Live(dirs[d][k]) && !IsDot(dirs[d][k])
    requires Rewritten(dirs[d][k], e', if |cs| > 0 then cs[0] else 0, |data|)
    requires |cs| > 0 ==> cs[0] in chains && chains[cs[0]] == cs && Unowned(dirs, Pos(d, k), cs[0]) && cs[0] !in dirs
    requires ChainHoldsData(g, clusters, cs, n, data) && |data| <= 512 * Times(n, g.spc)
    ensures var clusters' := PatchedClusters(clusters, chains[d][p.ci], p.s, p.i, e');
            var dirs' := Put(dirs, d, k, e');
            && Shows(g, links, clusters', chains, dirs') && TreeOk(g.root, g.spc, chains, dirs')
            && SameElsewhere(dirs, dirs', d, NameOf(dirs[d][k])) && AllKeptBut(clusters, chains, clusters', chains, {d})
            && Lookup(dirs', d, NameOf(dirs[d][k])) == Some(e') && FileBytes(clusters', chains, e') == data
  {
    WrittenReads(g, clusters, chains, dirs, dirs[d][k], e', cs, n, data);
    assert Unowned(dirs, Pos(d, k), FirstCluster(e'));
    WrittenTree(g.root, g.spc, chains, dirs, d, k, e');
    ShowsStored(g, links, clusters, chains, dirs, d, k, lba, off, p, e');
    var clusters' := PatchedClusters(clusters, chains[d][p.ci], p.s, p.i, e');
    if |cs| > 0 {
      assert Kept(clusters, chains, clusters', chains, cs[0]);
      KeptSectors(clusters, chains, clusters', chains, cs[0]);
    }
  }

  /** The links after the chain of an entry, if it has one, has been freed. */
  ghost function FreedLinks(g: Geometry, links: seq<nat>, first: nat): seq<nat>
    requires |links| == g.max + 1
  {
    if first >= 2 then Freed(g, links, first) else links
  }

  method FreeOld(fs: Fat32, was: nat) returns (ok: bool)
    requires fs.Valid()
    modifies fs`ageCounter, fs`links, fs`agree, fs`lowest, fs`allocHint, fs.dev, fs.dataCache, fs.fatCache
    ensures fs.Valid() && fs.dev.faults >= old(fs.dev.faults)
    ensures ok || (fs.dev.canWrite && fs.dev.faults == old(fs.dev.faults) && LinksOk(fs.g, old(fs.links))) ==>
              fs.Steady(old(fs.agree), old(fs.lowest))
    ensures ok ==> fs.links == FreedLinks(fs.g, old(fs.links), was)
    ensures !ok && fs.dev.canWrite && LinksOk(fs.g, old(fs.links)) ==> fs.dev.faults > old(fs.dev.faults)
  {
    ok := true;
    if was >= 2 { ok := FreeChain(fs, was); }
  }

  /** A new chain cs was allocated (leaving the clusters `mid`) and then filled with the data (leaving `full`). */
  ghost predicate NewChain(g: Geometry, links: seq<nat>, clusters: Clusters, links': seq<nat>, mid: Clusters,
                           full: Clusters,
                           cs: seq<nat>, n: nat, data: seq<byte>) {
    && Allocated(g, links, clusters, links', mid, cs)
    && |full| == g.max + 1
    && (forall c :: ValidCluster(g, c) ==> |mid[c]| == g.spc && |full[c]| == g.spc)
    && (forall c :: 0 <= c <= g.max && c !in cs ==> full[c] == mid[c])
    && ChainHoldsData(g, full, cs, n, data) && |data| <= 512 * Times(n, g.spc)
  }

  /** Allocates a chain for the data and fills it. `lost` says that the allocation failed: the error text that the
      driver leaves then tells of no free cluster. */
  method MakeChain(fs: Fat32, data: seq<byte>)
    returns (ok: bool, lost: bool, first: nat, ghost cs: seq<nat>, ghost n: nat, ghost mid: Clusters, ghost needed: nat)
    requires fs.Valid()
    modifies fs`ageCounter, fs`links, fs`agree, fs`lowest, fs`clusters, fs`allocHint, fs.dev, fs.dataCache, fs.fatCache
    ensures fs.Valid() && fs.dev.faults >= old(fs.dev.faults)
    ensures ok || (fs.dev.canWrite && fs.dev.faults == old(fs.dev.faults) && LinksOk(fs.g, old(fs.links))) ==>
              fs.Steady(old(fs.agree), old(fs.lowest))
    ensures |data| < 0x1_0000_0000 ==> JustEnough(needed, |data|, fs.g.spc)
    ensures ok ==> !lost && |cs| == needed && first == (if |cs| > 0 then cs[0] else 0) && first <= fs.g.max
    ensures ok && |data| < 0x1_0000_0000 ==>
              NewChain(fs.g, old(fs.links), old(fs.clusters), fs.links, mid, fs.clusters, cs, n, data)
    ensures !ok && fs.dev.canWrite && LinksOk(fs.g, old(fs.links)) ==>
              fs.dev.faults > old(fs.dev.faults) ||
              (lost && |FreeSet(old(fs.links))| < needed && fs.links == old(fs.links) &&
               OnlyFree(fs.links, old(fs.clusters), fs.clusters))
  {
    var count := NeededClusters(|data|, fs.g.spc);
    needed := count;
    ok, first, cs := AllocChain(fs, count);
    mid, n, lost := fs.clusters, 0, !ok;
    if !ok { return; }
    ok, n := FillChain(fs, first, data, cs);
  }

  /** Writes the entry at a place so that it names the chain that starts at `first`. */
  method StoreWritten(fs: Fat32, lba: nat, off: nat, first: nat, size: nat, ghost cs: seq<nat>, ghost k: nat,
                      ghost p: Place)
    returns (ok: bool, ghost e: Slot)
    requires fs.Valid() && Readable(fs.g, fs.clusters, cs) && At(fs.g, cs, k, lba, off, p) && first <= fs.g.max
    modifies fs`ageCounter, fs`clusters, fs.dev, fs.dataCache, fs.fatCache
    ensures fs.Valid() && fs.dev.faults >= old(fs.dev.faults)
    ensures ok ==> k < |DirSlots(old(fs.clusters), cs)| &&
                   fs.clusters == PatchedClusters(old(fs.clusters), cs[p.ci], p.s, p.i, e)
    ensures ok && size < 0x1_0000_0000 ==> Rewritten(DirSlots(old(fs.clusters), cs)[k], e, first, size)
    ensures !ok && fs.dev.canWrite ==> fs.dev.faults > old(fs.dev.faults)
  {
    SlotAtPlace(fs.g, fs.clusters, cs, p);
    var sec;
    ok, sec := fs.ReadDataSector(lba, cs[p.ci], p.s);
    e := ZeroSlot();
    if !ok { return; }
    var entry := SlotAt(sec, off / 32);
    e := WrittenSlot(entry, first, size);
    if size < 0x1_0000_0000 { WrittenSlotFields(entry, first, size); }
    ok := StoreSlot(fs, lba, off, sec, WrittenSlot(entry, first, size), cs, k, p);
  }

  /** Frees the old chain and makes a new one that holds the data. */
  method ReplaceChain(fs: Fat32, was: nat, data: seq<byte>)
    returns (ok: bool, lost: bool, first: nat, ghost cs: seq<nat>, ghost n: nat, ghost mid: Clusters, ghost needed: nat)
    requires fs.Valid()
    modifies fs`ageCounter, fs`links, fs`agree, fs`lowest, fs`clusters, fs`allocHint, fs.dev, fs.dataCache, fs.fatCache
    ensures fs.Valid() && fs.dev.faults >= old(fs.dev.faults)
    ensures ok || (fs.dev.canWrite && fs.dev.faults == old(fs.dev.faults) && LinksOk(fs.g, old(fs.links))) ==>
              fs.Steady(old(fs.agree), old(fs.lowest))
    ensures ok && |data| < 0x1_0000_0000 ==>
              JustEnough(needed, |data|, fs.g.spc) &&
              NewChain(fs.g, FreedLinks(fs.g, old(fs.links), was), old(fs.clusters), fs.links, mid, fs.clusters, cs,
                       n, data)
    ensures ok ==> !lost && |cs| == needed && first == (if |cs| > 0 then cs[0] else 0) && first <= fs.g.max
    ensures !ok && fs.dev.canWrite && LinksOk(fs.g, old(fs.links)) &&
            LinksOk(fs.g, FreedLinks(fs.g, old(fs.links), was)) &&
            |data| < 0x1_0000_0000 ==>
              fs.dev.faults > old(fs.dev.faults) ||
              (lost && JustEnough(needed, |data|, fs.g.spc) && |FreeSet(fs.links)| < needed &&
               fs.links == FreedLinks(fs.g, old(fs.links), was) && OnlyFree(fs.links, old(fs.clusters), fs.clusters))
  {
    lost, first, cs, n, mid, needed := false, 0, [], 0, fs.clusters, 0;
    ok := FreeOld(fs, was);
    if !ok { return; }
    ok, lost, first, cs, n, mid, needed := MakeChain(fs, data);
  }

  /** What writing an existing file entry comes to. */
  ghost predicate EntryReplaced(g: Geometry, links: seq<nat>, clusters: Clusters, chains: Chains, dirs: Dirs, d: nat,
                                k: nat,
                                data: seq<byte>, links': seq<nat>, clusters': Clusters, chains': Chains, dirs': Dirs,
                                needed: nat)
    requires d in dirs && k < |dirs[d]|
  {
    && EntryWritten(g, clusters, chains, dirs, d, k, data, links', clusters', chains', dirs')
    && JustEnough(needed, |data|, g.spc)
    && |FreeSet(links')| + needed == |FreeSet(links)| + OldLength(chains, dirs[d][k])
  }

  lemma FreedLinksOk(g: Geometry, links: seq<nat>, clusters: Clusters, chains: Chains, dirs: Dirs, d: nat, k: nat)
    requires Shows(g, links, clusters, chains, dirs) && TreeOk(g.root, g.spc, chains, dirs)
    requires d in dirs && k < |dirs[d]| && FileEntry(dirs[d][k])
    ensures LinksOk(g, FreedLinks(g, links, FirstCluster(dirs[d][k])))
  {
    FreeMeaning(g, links, clusters, chains, dirs, d, k);
    assert Looking(DiskLayer);
  }

  /** From the chains before a write to those after one that ran out of clusters. */
  lemma LostMeaning(g: Geometry, links: seq<nat>, clusters: Clusters, chains: Chains, dirs: Dirs, d: nat, k: nat,
                    links': seq<nat>, clusters': Clusters) returns (chains': Chains)
    requires Shows(g, links, clusters, chains, dirs) && TreeOk(g.root, g.spc, chains, dirs)
    requires d in dirs && k < |dirs[d]| && FileEntry(dirs[d][k])
    requires forall c :: ValidCluster(g, c) && c < |clusters'| ==> |clusters'[c]| == g.spc
    ensures chains' == AfterFree(chains, FirstCluster(dirs[d][k]))
    ensures links' == FreedLinks(g, links, FirstCluster(dirs[d][k])) && OnlyFree(links', clusters, clusters') ==>
              Shows(g, links', clusters', chains', dirs) &&
              AllKeptBut(clusters, chains, clusters', chains', {FirstCluster(dirs[d][k])}) &&
              |FreeSet(links')| == |FreeSet(links)| + OldLength(chains, dirs[d][k])
  {
    chains' := AfterFree(chains, FirstCluster(dirs[d][k]));
    FreeMeaning(g, links, clusters, chains, dirs, d, k);
    if links' == FreedLinks(g, links, FirstCluster(dirs[d][k])) && OnlyFree(links', clusters, clusters') {
      ShowsOnlyFree(g, links', clusters, chains', dirs, clusters');
      var was := FirstCluster(dirs[d][k]);
      KeptTrans(clusters, chains, clusters, chains', clusters', chains', {was}, {});
      assert {was} + {} == {was};
    }
  }

  /** Replaces what a file entry names by the data. Without a device fault it fails only for want of clusters. */
  method WriteEntry(fs: Fat32, d: nat, lba: nat, off: nat, entry: Slot, data: seq<byte>,
                    ghost chains: Chains, ghost dirs: Dirs, ghost k: nat, ghost p: Place)
    returns (ok: bool, lost: bool, ghost chains': Chains, ghost dirs': Dirs, ghost needed: nat)
    requires fs.Valid() && Shows(fs.g, fs.links, fs.clusters, chains, dirs) && d in dirs
    requires At(fs.g, chains[d], k, lba, off, p) && k < |dirs[d]| && entry == dirs[d][k]
    modifies fs`ageCounter, fs`links, fs`agree, fs`lowest, fs`clusters, fs`allocHint, fs.dev, fs.dataCache, fs.fatCache
    ensures fs.Valid() && fs.dev.faults >= old(fs.dev.faults)
    ensures ok || (fs.dev.canWrite && fs.dev.faults == old(fs.dev.faults)) ==>
              fs.Steady(old(fs.agree), old(fs.lowest))
    ensures ok ==> !lost
    ensures ok && WritableEntry(fs.g, chains, dirs, entry, data) ==>
              EntryReplaced(fs.g, old(fs.links), old(fs.clusters), chains, dirs, d, k, data,
                            fs.links, fs.clusters, chains', dirs', needed)
    ensures !ok && fs.dev.canWrite && WritableEntry(fs.g, chains, dirs, entry, data) ==>
              fs.dev.faults > old(fs.dev.faults) ||
              (lost && dirs' == dirs &&
               WriteLost(fs.g, old(fs.links), old(fs.clusters), chains, dirs, entry, data, fs.links, fs.clusters,
                         chains', needed))
  {
    ghost var links, clusters := fs.links, fs.clusters;
    ghost var writable := WritableEntry(fs.g, chains, dirs, entry, data);
    ShownDirectory(fs.g, links, clusters, chains, dirs, d);
    if writable { FreedLinksOk(fs.g, links, clusters, chains, dirs, d, k); }
    chains', dirs' := chains, dirs;
    var first;
    ghost var cs, n, mid;
    ok, lost, first, cs, n, mid, needed := ReplaceChain(fs, FirstCluster(entry), data);
    if !ok {
      if writable { chains' := LostMeaning(fs.g, links, clusters, chains, dirs, d, k, fs.links, fs.clusters); }
      return;
    }
    ok, chains', dirs' := StoreEntry(fs, d, lba, off, first, data, links, clusters, chains, dirs, k, p, mid, cs, n);
  }

  /** Stores the entry of a file whose old chain has been freed and whose new one has been filled. */
  method StoreEntry(fs: Fat32, d: nat, lba: nat, off: nat, first: nat, data: seq<byte>, ghost links: seq<nat>,
                    ghost clusters: Clusters, ghost chains: Chains, ghost dirs: Dirs, ghost k: nat, ghost p: Place,
                    ghost mid: Clusters, ghost cs: seq<nat>, ghost n: nat)
    returns (ok: bool, ghost chains': Chains, ghost dirs': Dirs)
    requires fs.Valid() && |links| == fs.g.max + 1 && d in dirs && k < |dirs[d]| && d in chains
    requires At(fs.g, chains[d], k, lba, off, p) && Readable(fs.g, fs.clusters, chains[d])
    requires first == (if |cs| > 0 then cs[0] else 0) && first <= fs.g.max
    modifies fs`ageCounter, fs`clusters, fs.dev, fs.dataCache, fs.fatCache
    ensures fs.Valid() && fs.dev.faults >= old(fs.dev.faults)
    ensures !ok && fs.dev.canWrite ==> fs.dev.faults > old(fs.dev.faults)
    ensures ok && Shows(fs.g, links, clusters, chains, dirs) && WritableEntry(fs.g, chains, dirs, dirs[d][k], data) &&
            NewChain(fs.g, FreedLinks(fs.g, links, FirstCluster(dirs[d][k])), clusters, fs.links, mid,
                     old(fs.clusters), cs, n, data) ==>
              EntryWritten(fs.g, clusters, chains, dirs, d, k, data, fs.links, fs.clusters, chains', dirs') &&
              |FreeSet(fs.links)| + |cs| == |FreeSet(links)| + OldLength(chains, dirs[d][k])
  {
    chains', dirs' := chains, dirs;
    ghost var full := fs.clusters;
    ghost var e;
    ok, e := StoreWritten(fs, lba, off, first, |data|, chains[d], k, p);
    if ok && Shows(fs.g, links, clusters, chains, dirs) && WritableEntry(fs.g, chains, dirs, dirs[d][k], data) &&
       NewChain(fs.g, FreedLinks(fs.g, links, FirstCluster(dirs[d][k])), clusters, fs.links, mid, full, cs, n, data) {
      chains', dirs' := WriteMeaning(fs.g, links, clusters, chains, dirs, d, k, lba, off, p, e, fs.links, mid, cs,
                                     full, n, data);
    }
  }

  /** What a write comes to that runs out of clusters: the old chain of the entry is gone, all else is as it was. */
  ghost predicate WriteLost(g: Geometry, links: seq<nat>, clusters: Clusters, chains: Chains, dirs: Dirs, entry: Slot,
                            data: seq<byte>, links': seq<nat>, clusters': Clusters, chains': Chains, needed: nat)
  {
    && JustEnough(needed, |data|, g.spc) && |FreeSet(links')| == |FreeSet(links)| + OldLength(chains, entry) < needed
    && chains' == AfterFree(chains, FirstCluster(entry)) && Shows(g, links', clusters', chains', dirs)
    && AllKeptBut(clusters, chains, clusters', chains', {FirstCluster(entry)})
  }

  ghost predicate WritableEntry(g: Geometry, chains: Chains, dirs: Dirs, entry: Slot, data: seq<byte>) {
    TreeOk(g.root, g.spc, chains, dirs) && FileEntry(entry) && |data| < 0x1_0000_0000
  }

  /** A live entry of a file. */
  ghost predicate FileEntry(e: Slot) { Live(e) && !IsDirectory(e) && !IsDot(e) }

  ghost function OldLength(chains: Chains, e: Slot): nat {
    if FirstCluster(e) >= 2 && FirstCluster(e) in chains then |chains[FirstCluster(e)]| else 0
  }

  /** From the chains and directories before a write to those just before its entry is stored. */
  lemma RefillMeaning(g: Geometry, links: seq<nat>, clusters: Clusters, chains: Chains, dirs: Dirs, d: nat, k: nat,
                      links': seq<nat>, mid: Clusters, cs: seq<nat>, full: Clusters, n: nat, data: seq<byte>)
    requires Shows(g, links, clusters, chains, dirs) && TreeOk(g.root, g.spc, chains, dirs) && g.spc >= 1
    requires d in dirs && k < |dirs[d]| && FileEntry(dirs[d][k])
    requires NewChain(g, FreedLinks(g, links, FirstCluster(dirs[d][k])), clusters, links', mid, full, cs, n, data)
    ensures var freed := AfterFree(chains, FirstCluster(dirs[d][k]));
            var chains' := AfterAlloc(freed, cs);
            && Shows(g, links', full, chains', dirs) && TreeBut(g.root, g.spc, chains', dirs, Pos(d, k))
            && (|cs| > 0 ==> cs[0] !in freed && cs[0] !in dirs && Unowned(dirs, Pos(d, k), cs[0]))
            && chains'[d] == chains[d]
            && AllKeptBut(clusters, chains, clusters, freed, {FirstCluster(dirs[d][k])})
            && AllKeptBut(clusters, freed, full, chains', if |cs| > 0 then {cs[0]} else {})
    ensures |FreeSet(links')| + |cs| == |FreeSet(links)| + OldLength(chains, dirs[d][k])
  {
    var was := FirstCluster(dirs[d][k]);
    FreeMeaning(g, links, clusters, chains, dirs, d, k);
    FillMeaning(g, FreedLinks(g, links, was), clusters, AfterFree(chains, was), dirs, Pos(d, k), links', mid, cs, full);
  }

  /** From the chains and directories before a write to those after it. */
  lemma WriteMeaning(g: Geometry, links: seq<nat>, clusters: Clusters, chains: Chains, dirs: Dirs,
                     d: nat, k: nat, lba: nat, off: nat, p: Place, e': Slot,
                     links': seq<nat>, mid: Clusters, cs: seq<nat>, full: Clusters, n: nat, data: seq<byte>)
    returns (chains': Chains, dirs': Dirs)
    requires Shows(g, links, clusters, chains, dirs) && TreeOk(g.root, g.spc, chains, dirs) && g.spc >= 1 && g.max < EOC
    requires d in dirs && k < |dirs[d]| && FileEntry(dirs[d][k]) && At(g, chains[d], k, lba, off, p)
    requires NewChain(g, FreedLinks(g, links, FirstCluster(dirs[d][k])), clusters, links', mid, full, cs, n, data)
    requires Readable(g, full, chains[d]) && k < |DirSlots(full, chains[d])|
    requires Rewritten(DirSlots(full, chains[d])[k], e', if |cs| > 0 then cs[0] else 0, |data|)
    ensures EntryWritten(g, clusters, chains, dirs, d, k, data,
                         links', PatchedClusters(full, chains[d][p.ci], p.s, p.i, e'), chains', dirs')
    ensures |FreeSet(links')| + |cs| == |FreeSet(links)| + OldLength(chains, dirs[d][k])
  {
    var was := FirstCluster(dirs[d][k]);
    RefillMeaning(g, links, clusters, chains, dirs, d, k, links', mid, cs, full, n, data);
    chains' := AfterAlloc(AfterFree(chains, was), cs);
    ShownDirectory(g, links', full, chains', dirs, d);
    StoreMeaning(g, links', full, chains', dirs, d, k, lba, off, p, e', cs, n, data);
    dirs' := Put(dirs, d, k, e');
    KeptThroughWrite(g, clusters, chains, was, full, cs, PatchedClusters(full, chains[d][p.ci], p.s, p.i, e'), d);
  }

  lemma KeptThroughWrite(g: Geometry, clusters: Clusters, chains: Chains, was: nat, full: Clusters, cs: seq<nat>,
                         clusters': Clusters, d: nat)
    requires var freed := AfterFree(chains, was);
             var chains' := AfterAlloc(freed, cs);
             && AllKeptBut(clusters, chains, clusters, freed, {was})
             && (|cs| > 0 ==> cs[0] !in freed)
             && AllKeptBut(clusters, freed, full, chains', if |cs| > 0 then {cs[0]} else {})
             && AllKeptBut(full, chains', clusters', chains', {d})
    ensures AllKeptBut(clusters, chains, clusters', AfterAlloc(AfterFree(chains, was), cs), {d, was})
  {
    var freed := AfterFree(chains, was);
    var chains', but := AfterAlloc(freed, cs), {d, was};
    forall h | h !in but ensures Kept(clusters, chains, clusters', chains', h) {
      if h in chains {
        assert Kept(clusters, chains, clusters, freed, h) && h in freed;
        assert Kept(clusters, freed, full, chains', h) && Kept(full, chains', clusters', chains', h);
      }
    }
  }
}
