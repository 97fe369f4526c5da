/** File contents: reading a chain into a buffer, allocating a new chain, and filling it with data. */
module Fat32Files {
  import opened Options
  import opened MachineBytes
  import opened Products
  import opened BlockDevices
  import opened Fat32Layout
  import opened Fat32Volume
  import opened Fat32Chains
  import opened Fat32Slots
  import opened Fat32Directory
  import opened Fat32Room
  import opened Fat32Tree

  /** The bytes of a list of sectors, in order. */
  ghost function Bytes(secs: seq<Sector>): seq<byte> {
    if |secs| == 0 then [] else Bytes(secs[..|secs| - 1]) + secs[|secs| - 1]
  }

  lemma {:induction false} BytesAt(secs: seq<Sector>, j: nat, i: nat)
    requires j < |secs| && i < 512
    ensures |Bytes(secs)| == 512 * |secs| && Bytes(secs)[512 * j + i] == secs[j][i]
  {
    var n := |secs| - 1;
    if n == 0 { assert Bytes(secs[..0]) == []; } else { BytesAt(secs[..n], if j < n then j else 0, i); }
  }

  lemma BytesLength(secs: seq<Sector>)
    ensures |Bytes(secs)| == 512 * |secs|
  {
    if |secs| > 0 { BytesAt(secs, 0, 0); }
  }

  ghost function Min(a: int, b: int): int { if a < b then a else b }

  /** What a file entry holds: its size in bytes from the front of its chain. */
  ghost function FileBytes(clusters: seq<seq<Sector>>, chains: Chains, e: Slot): seq<byte> {
    var first := FirstCluster(e);
    if first < 2 || first !in chains || !Inside(clusters, chains[first]) then []
    else
      var bytes := Bytes(ChainSectors(clusters, chains[first]));
      bytes[..Min(FileSize(e), |bytes|)]
  }

  // ---- Reading ----

  /** The buffer holds the first `written` bytes, as far as it reaches, and is as before beyond them. */
  ghost predicate Filled(out: seq<byte>, before: seq<byte>, bytes: seq<byte>, written: nat) {
    && |out| == |before|
    && forall x :: 0 <= x < |out| ==> out[x] == if x < written && x < |bytes| then bytes[x] else before[x]
  }

  /** Copies one sector of the file, up to its size, into the part of the buffer that exists. */
  method CopySector(out: array<byte>, sec: Sector, written: nat, fileSize: nat, ghost before: seq<byte>,
                    ghost bytes: seq<byte>)
    returns (written': nat)
    requires written + 512 <= |bytes| && bytes[written..written + 512] == sec && written <= fileSize
    requires Filled(out[..], before, bytes, written)
    modifies out
    ensures written' == if written + 512 <= fileSize then written + 512 else fileSize
    ensures Filled(out[..], before, bytes, written')
  {
    written' := written;
    var i := 0;
    while i < 512 && written' < fileSize
      invariant 0 <= i <= 512 && written' == written + i <= fileSize
      invariant Filled(out[..], before, bytes, written')
    {
      assert bytes[written'] == bytes[written..written + 512][i];
      if written' < out.Length { out[written'] := sec[i]; }
      written' := written' + 1;
      i := i + 1;
    }
  }

  lemma SectorBytes(secs: seq<Sector>, j: nat)
    requires j < |secs|
    ensures 512 * j + 512 <= |Bytes(secs)| && Bytes(secs)[512 * j..512 * j + 512] == secs[j]
  {
    BytesAt(secs, j, 0);
    forall i | 0 <= i < 512 ensures Bytes(secs)[512 * j..512 * j + 512][i] == secs[j][i] { BytesAt(secs, j, i); }
  }

  /** How far a file of this size is read after n sectors. */
  function ReadSoFar(fileSize: nat, n: nat): nat { if 512 * n <= fileSize then 512 * n else fileSize }

  /** Copies a run of sectors, which are sectors j on of the file. */
  method CopyRun(out: array<byte>, buffer: seq<Sector>, written: nat, fileSize: nat,
                 ghost before: seq<byte>, ghost secs: seq<Sector>, ghost j: nat)
    returns (written': nat)
    requires written == ReadSoFar(fileSize, j) && SectorsAt(secs, j, buffer)
    requires Filled(out[..], before, Bytes(secs), written)
    modifies out
    ensures written' == ReadSoFar(fileSize, j + |buffer|) && Filled(out[..], before, Bytes(secs), written')
  {
    written' := written;
    var i := 0;
    while i < |buffer| && written' < fileSize
      invariant 0 <= i <= |buffer| && written' == ReadSoFar(fileSize, j + i)
      invariant Filled(out[..], before, Bytes(secs), written')
    {
      SectorBytes(secs, j + i);
      assert buffer[i] == secs[j..j + |buffer|][i] == secs[j + i];
      written' := CopySector(out, buffer[i], written', fileSize, before, Bytes(secs));
      i := i + 1;
    }
  }

  lemma PartAt(secs: seq<Sector>, j: nat, cluster: seq<Sector>, s: nat, count: nat)
    requires SectorsAt(secs, j, cluster) && s + count <= |cluster|
    ensures SectorsAt(secs, j + s, cluster[s..s + count])
  {
    var run, part := secs[j + s..j + s + count], cluster[s..s + count];
    forall i | 0 <= i < count ensures run[i] == part[i] {
      assert secs[j..j + |cluster|][s + i] == secs[j + s + i];
    }
  }

  /** Reads the sectors of one cluster in batches. */
  method ReadCluster(fs: Fat32, cluster: nat, out: array<byte>, written: nat, fileSize: nat,
                     ghost before: seq<byte>, ghost secs: seq<Sector>, ghost j: nat)
    returns (ok: bool, written': nat)
    requires fs.Valid() && ValidCluster(fs.g, cluster) && SectorsAt(secs, j, fs.clusters[cluster])
    requires out != fs.dataCache as object && out != fs.fatCache as object
    requires written == ReadSoFar(fileSize, j) && Filled(out[..], before, Bytes(secs), written)
    modifies fs`ageCounter, fs.dev`faults, fs.dataCache, fs.fatCache, out
    ensures fs.Valid() && fs.dev.faults >= old(fs.dev.faults)
    ensures !ok ==> fs.dev.faults > old(fs.dev.faults)
    ensures ok ==> written' == ReadSoFar(fileSize, j + fs.g.spc) && Filled(out[..], before, Bytes(secs), written')
  {
    var perRead := if fs.dev.canReadMany then fs.ioBatch else 1;
    written' := written;
    var s := 0;
    while s < fs.g.spc && written' < fileSize
      invariant fs.Valid() && fs.dev.faults >= old(fs.dev.faults)
      invariant written' == ReadSoFar(fileSize, j + if s < fs.g.spc then s else fs.g.spc)
      invariant Filled(out[..], before, Bytes(secs), written')
    {
      var remaining := fs.g.spc - s;
      var count := if remaining < perRead then remaining else perRead;
      var buffer;
      ok, buffer := fs.ReadClusterRun(DataLba(fs.g, cluster, s), count, cluster, s);
      if !ok { return; }
      PartAt(secs, j, fs.clusters[cluster], s, count);
      written' := CopyRun(out, buffer, written', fileSize, before, secs, j + s);
      s := s + perRead;
    }
    ok := true;
  }

  /** Reads a file: the buffer receives its bytes as far as it reaches and keeps what it held beyond them. */
  method ReadFileEntry(fs: Fat32, entry: Slot, out: array<byte>, ghost cs: seq<nat>) returns (ok: bool, size: nat)
    requires fs.Valid()
    requires FirstCluster(entry) >= 2 && !IsDirectory(entry) ==>
               IsChain(fs.g, fs.links, cs) && cs[0] == FirstCluster(entry) &&
                 FileSize(entry) <= 512 * Times(|cs|, fs.g.spc)
    requires out != fs.dataCache as object && out != fs.fatCache as object
    modifies fs`ageCounter, fs.dev`faults, fs.dataCache, fs.fatCache, out
    ensures fs.Valid() && fs.dev.faults >= old(fs.dev.faults)
    ensures !ok ==> fs.dev.faults > old(fs.dev.faults) || IsDirectory(entry)
    ensures ok ==> !IsDirectory(entry)
    ensures ok && FirstCluster(entry) < 2 ==> size == 0 && out[..] == old(out[..])
    ensures ok && FirstCluster(entry) >= 2 ==>
              size == Min(FileSize(entry), out.Length) &&
              Filled(out[..], old(out[..]), Bytes(ChainSectors(fs.clusters, cs)), FileSize(entry))
  {
    var first, fileSize := FirstCluster(entry), FileSize(entry);
    if IsDirectory(entry) { return false, 0; }
    if first < 2 { return true, 0; }
    ok := ReadChain(fs, first, fileSize, out, cs);
    size := if fileSize < out.Length then fileSize else out.Length;
  }

  /** Follows the chain of a file, reading cluster by cluster. */
  method ReadChain(fs: Fat32, first: nat, fileSize: nat, out: array<byte>, ghost cs: seq<nat>) returns (ok: bool)
    requires fs.Valid()
    requires IsChain(fs.g, fs.links, cs) && cs[0] == first && fileSize <= 512 * Times(|cs|, fs.g.spc)
    requires out != fs.dataCache as object && out != fs.fatCache as object
    modifies fs`ageCounter, fs.dev`faults, fs.dataCache, fs.fatCache, out
    ensures fs.Valid() && fs.dev.faults >= old(fs.dev.faults)
    ensures !ok ==> fs.dev.faults > old(fs.dev.faults)
    ensures ok ==> Filled(out[..], old(out[..]), Bytes(ChainSectors(fs.clusters, cs)), fileSize)
  {
    ghost var secs, before := ChainSectors(fs.clusters, cs), out[..];
    ChainSectorsSpread(fs.g, fs.clusters, cs);
    var written, cur: nat := 0, first;
    ghost var ci := 0;
    while cur >= 2 && cur < EOC && written < fileSize
      invariant fs.Valid() && fs.dev.faults >= old(fs.dev.faults)
      invariant ci < |cs| && cur == cs[ci]
      invariant written == ReadSoFar(fileSize, Times(ci, fs.g.spc)) && Filled(out[..], before, Bytes(secs), written)
      decreases |cs| - ci
    {
      assert SectorsAt(secs, Times(ci, fs.g.spc), fs.clusters[cs[ci]]);
      ChainStep(fs.g, fs.links, cs, ci);
      ok, written := ReadCluster(fs, cur, out, written, fileSize, before, secs, Times(ci, fs.g.spc));
      if !ok || written >= fileSize { return; }
      var next;
      ok, next := fs.NextCluster(cur);
      if !ok || next >= EOC { return; }
      cur, ci := next, ci + 1;
    }
    ok := true;
  }

  // ---- Allocating a chain ----

  /** Clusters that were free now form the chain cs, and nothing else changed. */
  ghost predicate Allocated(g: Geometry, links: seq<nat>, clusters: seq<seq<Sector>>,
                            links': seq<nat>, clusters': seq<seq<Sector>>, cs: seq<nat>)
  {
    && |links'| == |links| == g.max + 1 && |clusters'| == |clusters| == g.max + 1
    && (forall i :: 0 <= i < |cs| ==> ValidCluster(g, cs[i]) && links[cs[i]] == 0)
    && (forall c :: 0 <= c <= g.max && c !in cs ==> links'[c] == links[c] && clusters'[c] == clusters[c])
    && FreeSet(links') <= FreeSet(links) && |FreeSet(links')| + |cs| == |FreeSet(links)|
    && (|cs| > 0 ==> links'[cs[|cs| - 1]] == END_MARK && IsChain(g, links', cs) && Distinct(cs))
  }

  lemma FreeSetTaken(links: seq<nat>, c: nat, v: nat)
    requires 2 <= c < |links| && links[c] == 0 && v != 0
    ensures |FreeSet(links[c := v])| + 1 == |FreeSet(links)|
  {
    assert FreeSet(links[c := v]) == FreeSet(links) - {c};
  }

  lemma FreeSetKept(links: seq<nat>, c: nat, v: nat)
    requires c < |links| && links[c] != 0 && v != 0
    ensures FreeSet(links[c := v]) == FreeSet(links)
  {
  }

  /** One more cluster extends the allocated chain. */
  lemma AllocatedStep(g: Geometry, links: seq<nat>, clusters: seq<seq<Sector>>,
                      links': seq<nat>, clusters': seq<seq<Sector>>, cs: seq<nat>, c: nat)
    requires Allocated(g, links, clusters, links', clusters', cs) && g.max < EOC
    requires ValidCluster(g, c) && links'[c] == 0
    ensures Allocated(g, links, clusters,
                      if |cs| == 0 then links'[c := END_MARK] else Appended(links', cs[|cs| - 1], c),
                      clusters'[c := ZeroCluster(g.spc)], cs + [c])
  {
    FreeSetTaken(links', c, END_MARK);
    assert c in FreeSet(links') && links[c] == 0;
    if |cs| > 0 {
      AppendedIsChain(g, links', cs, c);
      assert cs[|cs| - 1] in cs;
      FreeSetKept(links'[c := END_MARK], cs[|cs| - 1], c);
    }
  }

  lemma AllocatedApart(g: Geometry, links: seq<nat>, clusters: seq<seq<Sector>>, chains: Chains,
                       links': seq<nat>, clusters': seq<seq<Sector>>, cs: seq<nat>)
    requires ChainsOk(g, links, chains) && Allocated(g, links, clusters, links', clusters', cs) && |cs| > 0
    ensures cs[0] !in chains && forall c, h :: c in cs && h in chains ==> c !in chains[h]
  {
    forall c | c in cs ensures c !in chains && forall h :: h in chains ==> c !in chains[h] {
      NotOnChain(g, links, chains, c);
    }
  }

  /** The new chain joins the chains of the volume. */
  lemma AllocatedJoins(g: Geometry, links: seq<nat>, clusters: seq<seq<Sector>>, chains: Chains,
                       links': seq<nat>, clusters': seq<seq<Sector>>, cs: seq<nat>)
    requires ChainsOk(g, links, chains) && Allocated(g, links, clusters, links', clusters', cs) && |cs| > 0
    ensures ChainsOk(g, links', chains[cs[0] := cs])
  {
    AllocatedApart(g, links, clusters, chains, links', clusters', cs);
    AllocatedLinksOk(g, links, clusters, links', clusters', cs);
    AllocatedLinked(g, links, clusters, chains, links', clusters', cs);
    AllocatedCover(g, links, clusters, chains, links', clusters', cs);
  }

  lemma AllocatedLinked(g: Geometry, links: seq<nat>, clusters: seq<seq<Sector>>, chains: Chains,
                        links': seq<nat>, clusters': seq<seq<Sector>>, cs: seq<nat>)
    requires ChainsLinked(g, links, chains) && Allocated(g, links, clusters, links', clusters', cs) && |cs| > 0
    requires forall c, h :: c in cs && h in chains ==> c !in chains[h]
    ensures ChainsLinked(g, links', chains[cs[0] := cs])
  {
    forall h | h in chains && h != cs[0] ensures IsChain(g, links', chains[h]) {
      forall i | 0 <= i < |chains[h]| ensures links'[chains[h][i]] == links[chains[h][i]] {
        assert chains[h][i] in chains[h];
      }
      ChainKept(g, links, links', chains[h]);
    }
  }

  lemma AllocatedCover(g: Geometry, links: seq<nat>, clusters: seq<seq<Sector>>, chains: Chains,
                       links': seq<nat>, clusters': seq<seq<Sector>>, cs: seq<nat>)
    requires ChainsCover(g, links, chains) && Allocated(g, links, clusters, links', clusters', cs) && |cs| > 0
    requires cs[0] !in chains
    ensures ChainsCover(g, links', chains[cs[0] := cs])
  {
    var chains' := chains[cs[0] := cs];
    forall x: nat | ValidCluster(g, x) && links'[x] >= 2 ensures OnSomeChain(chains', x) {
      if x in cs {
        assert cs[0] in chains' && x in chains'[cs[0]];
      } else {
        assert OnSomeChain(chains, x);
        var h :| h in chains && x in chains[h];
        assert h in chains' && x in chains'[h];
      }
    }
  }

  lemma AllocatedLinksOk(g: Geometry, links: seq<nat>, clusters: seq<seq<Sector>>,
                         links': seq<nat>, clusters': seq<seq<Sector>>, cs: seq<nat>)
    requires LinksOk(g, links) && Allocated(g, links, clusters, links', clusters', cs)
    ensures LinksOk(g, links')
  {
    forall c | ValidCluster(g, c) ensures links'[c] < 2 || links'[c] >= EOC || ValidCluster(g, links'[c]) {
      if c in cs {
        var i :| 0 <= i < |cs| && cs[i] == c;
        ChainStep(g, links', cs, i);
      }
    }
  }

  /** Takes one more free cluster and links it after `prev`, unless it is the first. */
  method AllocNext(fs: Fat32, prev: nat) returns (ok: bool, c: nat)
    requires fs.Valid() && (prev >= 2 ==> ValidCluster(fs.g, prev) && fs.links[prev] == END_MARK)
    modifies fs`ageCounter, fs`links, fs`agree, fs`lowest, fs`clusters, fs`allocHint, fs.dev, fs.dataCache, fs.fatCache
    ensures fs.Valid() && fs.dev.faults >= old(fs.dev.faults)
    ensures ok || (fs.dev.canWrite && fs.dev.faults == old(fs.dev.faults) && LinksOk(fs.g, old(fs.links))) ==>
              fs.Steady(old(fs.agree), old(fs.lowest))
    ensures ok ==> ValidCluster(fs.g, c) && old(fs.links)[c] == 0 &&
                   fs.links == (if prev >= 2 then Appended(old(fs.links), prev, c) else old(fs.links)[c := END_MARK]) &&
                   fs.clusters == old(fs.clusters)[c := ZeroCluster(fs.g.spc)]
    ensures !ok && fs.dev.canWrite && LinksOk(fs.g, old(fs.links)) ==>
              fs.dev.faults > old(fs.dev.faults) ||
              (FreeSet(old(fs.links)) == {} && fs.links == old(fs.links) && fs.clusters == old(fs.clusters))
  {
    ok, c := AllocCluster(fs);
    if !ok { return; }
    if prev >= 2 { ok := fs.SetClusterValue(prev, c); }
  }

  /** Only free clusters changed. */
  ghost predicate OnlyFree(links: seq<nat>, clusters: seq<seq<Sector>>, clusters': seq<seq<Sector>>) {
    |links| == |clusters| == |clusters'| && forall c :: 0 <= c < |links| && links[c] != 0 ==>
        clusters'[c] == clusters[c]
  }

  /** Tries to free the clusters of an unfinished chain; without a device fault the links are then as they were. */
  method GiveBack(fs: Fat32, first: nat, ghost links: seq<nat>, ghost clusters: seq<seq<Sector>>,
                  ghost links': seq<nat>, ghost clusters': seq<seq<Sector>>, ghost cs: seq<nat>)
    requires fs.Valid() && Allocated(fs.g, links, clusters, links', clusters', cs)
    requires if |cs| == 0 then first == 0 else first == cs[0]
    modifies fs`ageCounter, fs`links, fs`agree, fs`lowest, fs`allocHint, fs.dev, fs.dataCache, fs.fatCache
    ensures fs.Valid() && fs.dev.faults >= old(fs.dev.faults)
    ensures fs.dev.faults == old(fs.dev.faults) && fs.dev.canWrite && LinksOk(fs.g, links') &&
            old(fs.links) == links' ==>
              fs.links == links && fs.Steady(old(fs.agree), old(fs.lowest))
  {
    if first >= 2 {
      var _ := FreeChain(fs, first);
      FreedChain(fs.g, links', cs);
      assert Cleared(links', cs) == links;
    }
  }

  /** Extends the chain by one cluster, or fails having tried to free what was taken. */
  method AllocOne(fs: Fat32, first: nat, prev: nat, ghost links: seq<nat>, ghost clusters: seq<seq<Sector>>,
                  ghost cs: seq<nat>)
    returns (ok: bool, c: nat)
    requires fs.Valid() && Allocated(fs.g, links, clusters, fs.links, fs.clusters, cs)
    requires if |cs| == 0 then first == prev == 0 else first == cs[0] && prev == cs[|cs| - 1]
    modifies fs`ageCounter, fs`links, fs`agree, fs`lowest, fs`clusters, fs`allocHint, fs.dev, fs.dataCache, fs.fatCache
    ensures fs.Valid() && fs.dev.faults >= old(fs.dev.faults)
    ensures ok || (fs.dev.canWrite && fs.dev.faults == old(fs.dev.faults) && LinksOk(fs.g, old(fs.links))) ==>
              fs.Steady(old(fs.agree), old(fs.lowest))
    ensures ok ==> Allocated(fs.g, links, clusters, fs.links, fs.clusters, cs + [c])
    ensures !ok && fs.dev.canWrite && LinksOk(fs.g, links) ==>
              fs.dev.faults > old(fs.dev.faults) ||
              (FreeSet(old(fs.links)) == {} && fs.links == links && OnlyFree(links, clusters, fs.clusters))
  {
    ghost var links', clusters' := fs.links, fs.clusters;
    ok, c := AllocNext(fs, prev);
    if ok {
      AllocatedStep(fs.g, links, clusters, links', clusters', cs, c);
    } else {
      if LinksOk(fs.g, links) { AllocatedLinksOk(fs.g, links, clusters, links', clusters', cs); }
      GiveBack(fs, first, links, clusters, links', clusters', cs);
    }
  }

  /** Marks the last cluster once more as the end of the chain. */
  method EndChain(fs: Fat32, first: nat, prev: nat, ghost cs: seq<nat>) returns (ok: bool)
    requires fs.Valid() && if |cs| == 0 then prev == 0
                           else prev == cs[|cs| - 1] && ValidCluster(fs.g, prev) && fs.links[prev] == END_MARK
    modifies fs`ageCounter, fs`links, fs`agree, fs`lowest, fs`allocHint, fs.dev, fs.dataCache, fs.fatCache
    ensures fs.Valid() && fs.dev.faults >= old(fs.dev.faults)
    ensures ok || (fs.dev.canWrite && fs.dev.faults == old(fs.dev.faults) && LinksOk(fs.g, old(fs.links))) ==>
              fs.Steady(old(fs.agree), old(fs.lowest))
    ensures ok ==> fs.links == old(fs.links) && fs.allocHint == old(fs.allocHint)
    ensures !ok && fs.dev.canWrite ==> fs.dev.faults > old(fs.dev.faults)
  {
    ok := true;
    if prev >= 2 {
      ok := fs.SetClusterValue(prev, END_MARK);
      if !ok && first >= 2 { var _ := FreeChain(fs, first); }
    }
  }

  /** Allocates a chain of n clusters, or fails having tried to free what it took. */
  method AllocChain(fs: Fat32, n: nat) returns (ok: bool, first: nat, ghost cs: seq<nat>)
    requires fs.Valid()
    modifies fs`ageCounter, fs`links, fs`agree, fs`lowest, fs`clusters, fs`allocHint, fs.dev, fs.dataCache, fs.fatCache
    ensures fs.Valid() && fs.dev.faults >= old(fs.dev.faults)
    ensures ok || (fs.dev.canWrite && fs.dev.faults == old(fs.dev.faults) && LinksOk(fs.g, old(fs.links))) ==>
              fs.Steady(old(fs.agree), old(fs.lowest))
    ensures ok ==> |cs| == n && first == (if n == 0 then 0 else cs[0]) &&
                   Allocated(fs.g, old(fs.links), old(fs.clusters), fs.links, fs.clusters, cs)
    ensures !ok && fs.dev.canWrite && LinksOk(fs.g, old(fs.links)) ==>
              fs.dev.faults > old(fs.dev.faults) ||
              (|FreeSet(old(fs.links))| < n && fs.links == old(fs.links) &&
                OnlyFree(fs.links, old(fs.clusters), fs.clusters))
  {
    ghost var links, clusters := fs.links, fs.clusters;
    first, cs := 0, [];
    var prev := 0;
    for taken := 0 to n
      invariant fs.Valid() && fs.dev.faults >= old(fs.dev.faults)
      invariant |cs| == taken && Allocated(fs.g, links, clusters, fs.links, fs.clusters, cs)
      invariant if taken == 0 then first == prev == 0 else first == cs[0] && prev == cs[taken - 1]
      invariant fs.Steady(old(fs.agree), old(fs.lowest))
    {
      var c;
      ok, c := AllocOne(fs, first, prev, links, clusters, cs);
      if !ok { return; }
      cs, prev := cs + [c], c;
      if first == 0 { first := c; }
    }
    ok := EndChain(fs, first, prev, cs);
  }

  // ---- Filling a chain ----

  /** Sector number j of the data, padded with zeros. */
  function DataSector(data: seq<byte>, j: nat): Sector {
    seq(512, i requires 0 <= i < 512 => if 512 * j + i < |data| then data[512 * j + i] else 0)
  }

  /** The cluster holds the sectors of the data from number j on, as far as the data goes. */
  ghost predicate HoldsData(cluster: seq<Sector>, data: seq<byte>, j: nat) {
    forall s :: 0 <= s < |cluster| && 512 * (j + s) < |data| ==> cluster[s] == DataSector(data, j + s)
  }

  /** Writes the sectors of the data from number j on into one cluster. */
  method FillCluster(fs: Fat32, cluster: nat, data: seq<byte>, written: nat, ghost j: nat)
    returns (ok: bool, written': nat)
    requires fs.Valid() && ValidCluster(fs.g, cluster) && written == ReadSoFar(|data|, j)
    modifies fs`ageCounter, fs`clusters, fs.dev, fs.dataCache, fs.fatCache
    ensures fs.Valid() && fs.dev.faults >= old(fs.dev.faults)
    ensures !ok && fs.dev.canWrite ==> fs.dev.faults > old(fs.dev.faults)
    ensures ok ==> written' == ReadSoFar(|data|, j + fs.g.spc) && HoldsData(fs.clusters[cluster], data, j)
    ensures forall c :: 0 <= c <= fs.g.max && c != cluster ==> fs.clusters[c] == old(fs.clusters)[c]
  {
    written' := written;
    var s := 0;
    while s < fs.g.spc && written' < |data|
      invariant fs.Valid() && fs.dev.faults >= old(fs.dev.faults) && s <= fs.g.spc
      invariant written' == ReadSoFar(|data|, j + s)
      invariant forall k :: 0 <= k < s && 512 * (j + k) < |data| ==> fs.clusters[cluster][k] == DataSector(data, j + k)
      invariant forall c :: 0 <= c <= fs.g.max && c != cluster ==> fs.clusters[c] == old(fs.clusters)[c]
    {
      var sec := NextSector(data, written', j + s);
      ok := fs.WriteDataSector(DataLba(fs.g, cluster, s), sec, cluster, s);
      if !ok { return; }
      written' := if written' + 512 <= |data| then written' + 512 else |data|;
      s := s + 1;
    }
    ok := true;
  }

  /** Copies the next 512 bytes of the data into a sector, with zeros past the end. */
  method NextSector(data: seq<byte>, written: nat, ghost j: nat) returns (sec: Sector)
    requires written == 512 * j < |data|
    ensures sec == DataSector(data, j)
  {
    var buffer: seq<byte> := [];
    for i := 0 to 512
      invariant |buffer| == i
      invariant forall k :: 0 <= k < i ==> buffer[k] == if written + k < |data| then data[written + k] else 0
    {
      buffer := buffer + [if written + i < |data| then data[written + i] else 0];
    }
    sec := buffer;
  }

  /** Each cluster of the chain holds its part of the data. */
  ghost predicate ChainHoldsData(g: Geometry, clusters: seq<seq<Sector>>, cs: seq<nat>, n: nat, data: seq<byte>) {
    && Readable(g, clusters, cs) && n <= |cs|
    && forall ci {:trigger HoldsData(clusters[cs[ci]], data, Times(ci, g.spc))} ::
         0 <= ci < n ==> HoldsData(clusters[cs[ci]], data, Times(ci, g.spc))
  }

  lemma OneMoreHolds(g: Geometry, clusters: seq<seq<Sector>>, clusters': seq<seq<Sector>>, cs: seq<nat>, n: nat,
                     data: seq<byte>)
    requires ChainHoldsData(g, clusters, cs, n, data) && Distinct(cs) && n < |cs| && |clusters'| == |clusters|
    requires forall c :: 0 <= c <= g.max && c != cs[n] ==> clusters'[c] == clusters[c]
    requires |clusters'[cs[n]]| == g.spc && HoldsData(clusters'[cs[n]], data, Times(n, g.spc))
    ensures ChainHoldsData(g, clusters', cs, n + 1, data)
  {
    forall i | 0 <= i < n + 1 ensures HoldsData(clusters'[cs[i]], data, Times(i, g.spc)) {
      if i < n { assert Pair(i, n) && HoldsData(clusters[cs[i]], data, Times(i, g.spc)); }
    }
  }

  /** Fills cluster number n of the chain and, when data is left, moves on to the next. */
  method FillNext(fs: Fat32, cluster: nat, data: seq<byte>, written: nat, ghost cs: seq<nat>, ghost n: nat)
    returns (ok: bool, written': nat, next: nat)
    requires fs.Valid() && IsChain(fs.g, fs.links, cs) && Distinct(cs) && n < |cs| && cluster == cs[n]
    requires written == ReadSoFar(|data|, Times(n, fs.g.spc)) && ChainHoldsData(fs.g, fs.clusters, cs, n, data)
    modifies fs`ageCounter, fs`clusters, fs.dev, fs.dataCache, fs.fatCache
    ensures fs.Valid() && fs.dev.faults >= old(fs.dev.faults)
    ensures !ok && fs.dev.canWrite ==> fs.dev.faults > old(fs.dev.faults)
    ensures ok ==> ChainHoldsData(fs.g, fs.clusters, cs, n + 1, data)
    ensures ok ==> written' == ReadSoFar(|data|, Times(n + 1, fs.g.spc))
    ensures ok && written' < |data| ==> if n + 1 < |cs| then next == cs[n + 1] else next >= EOC
    ensures forall c :: 0 <= c <= fs.g.max && c != cluster ==> fs.clusters[c] == old(fs.clusters)[c]
  {
    ChainStep(fs.g, fs.links, cs, n);
    ghost var before := fs.clusters;
    ok, written' := FillCluster(fs, cluster, data, written, Times(n, fs.g.spc));
    next := cluster;
    if !ok { return; }
    OneMoreHolds(fs.g, before, fs.clusters, cs, n, data);
    if written' < |data| { ok, next := fs.NextCluster(cluster); }
  }

  /** Writes the data along the chain; its first n clusters then hold it. */
  method FillChain(fs: Fat32, first: nat, data: seq<byte>, ghost cs: seq<nat>) returns (ok: bool, ghost n: nat)
    requires fs.Valid()
    requires |cs| > 0 ==> IsChain(fs.g, fs.links, cs) && Distinct(cs) && cs[0] == first
    requires |cs| == 0 ==> first == 0
    modifies fs`ageCounter, fs`clusters, fs.dev, fs.dataCache, fs.fatCache
    ensures fs.Valid() && fs.dev.faults >= old(fs.dev.faults)
    ensures !ok && fs.dev.canWrite ==> fs.dev.faults > old(fs.dev.faults)
    ensures ok ==> ChainHoldsData(fs.g, fs.clusters, cs, n, data)
    ensures ok && |data| <= 512 * Times(|cs|, fs.g.spc) ==> |data| <= 512 * Times(n, fs.g.spc)
    ensures forall c :: 0 <= c <= fs.g.max && c !in cs ==> fs.clusters[c] == old(fs.clusters)[c]
  {
    var cur: nat, written := first, 0;
    n, ok := 0, true;
    while cur >= 2 && written < |data| && cur < EOC
      invariant fs.Valid() && fs.dev.faults >= old(fs.dev.faults) && n <= |cs|
      invariant written < |data| ==> if n == |cs| then cur < 2 || cur >= EOC else cur == cs[n]
      invariant written == ReadSoFar(|data|, Times(n, fs.g.spc)) && ChainHoldsData(fs.g, fs.clusters, cs, n, data)
      invariant forall c :: 0 <= c <= fs.g.max && c !in cs ==> fs.clusters[c] == old(fs.clusters)[c]
      decreases |cs| - n
    {
      ok, written, cur := FillNext(fs, cur, data, written, cs, n);
      if !ok { return; }
      n := n + 1;
    }
  }

  /** A chain that holds the data reads back as the data. */
  lemma FilledBytes(g: Geometry, clusters: seq<seq<Sector>>, cs: seq<nat>, n: nat, data: seq<byte>)
    requires ChainHoldsData(g, clusters, cs, n, data) && |data| <= 512 * Times(n, g.spc)
    ensures |data| <= |Bytes(ChainSectors(clusters, cs))| && Bytes(ChainSectors(clusters, cs))[..|data|] == data
  {
    var secs := ChainSectors(clusters, cs);
    if |data| > 0 {
      ChainSectorsSpread(g, clusters, cs);
      BytesLength(secs);
      if n < |cs| { TimesStrict(n, |cs|, g.spc); }
      forall x | 0 <= x < |data| ensures Bytes(secs)[x] == data[x] {
        FilledByte(g, clusters, cs, n, data, x / 512, x % 512);
      }
    }
  }

  /** Byte i of sector j of a chain that holds the data. */
  lemma FilledByte(g: Geometry, clusters: seq<seq<Sector>>, cs: seq<nat>, n: nat, data: seq<byte>, j: nat, i: nat)
    requires ChainHoldsData(g, clusters, cs, n, data) && |data| <= 512 * Times(n, g.spc) &&
             512 * j + i < |data| && i < 512
    requires |Bytes(ChainSectors(clusters, cs))| >= |data|
    ensures Bytes(ChainSectors(clusters, cs))[512 * j + i] == data[512 * j + i]
  {
    var secs := ChainSectors(clusters, cs);
    ChainSectorsSpread(g, clusters, cs);
    BytesLength(secs);
    var ci := ClusterOf(n, g.spc, j);
    var s := j - Times(ci, g.spc);
    assert HoldsData(clusters[cs[ci]], data, Times(ci, g.spc));
    assert SectorsAt(secs, Times(ci, g.spc), clusters[cs[ci]]);
    assert secs[j] == secs[Times(ci, g.spc)..Times(ci, g.spc) + g.spc][s] == clusters[cs[ci]][s];
    BytesAt(secs, j, i);
  }

  /** The cluster number in which sector number j lies. */
  lemma ClusterOf(n: nat, spc: nat, j: nat) returns (ci: nat)
    requires j < Times(n, spc)
    ensures ci < n && Times(ci, spc) <= j < Times(ci, spc) + spc
  {
    ci := n - 1;
    while Times(ci, spc) > j
      invariant 0 <= ci < n && j < Times(ci, spc) + spc
      decreases ci
    {
      ci := ci - 1;
    }
  }
}
