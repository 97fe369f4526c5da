/** Mounting: finding the volume on the drive, reading its boot sector, and when the result is usable. */
module Fat32Mount {
  import opened Options
  import opened MachineBytes
  import opened Products
  import opened BlockDevices
  import opened Fat32Layout
  import opened Fat32Volume

  predicate HasSignature(sec: Sector) { sec[510] == 0x55 && sec[511] == 0xAA }

  predicate IsPowerOfTwo(b: byte) { b in {1, 2, 4, 8, 16, 32, 64, 128} }

  /** A FAT32 boot sector: the marks are there and the fields that must not be zero are not. */
  predicate BootIsFat32(sec: Sector) {
    && HasSignature(sec) && sec[82..87] == [0x46, 0x41, 0x54, 0x33, 0x32]
    && Rd16(sec, 11) == 512 && IsPowerOfTwo(sec[13]) && Rd16(sec, 14) != 0 && sec[16] != 0
    && Rd32(sec, 32) != 0 && Rd32(sec, 36) != 0 && Rd32(sec, 44) >= 2 && Rd16(sec, 19) == 0 && Rd16(sec, 22) == 0
  }

  /** The sectors of all FAT copies. */
  function FatSectors(sec: Sector): nat { sec[16] * Rd32(sec, 36) }

  /** The sectors before the data area, from the first of the volume on. */
  function Overhead(sec: Sector): nat { Rd16(sec, 14) + FatSectors(sec) }

  /** The geometry a boot sector gives, in 32-bit arithmetic, when it gives one. */
  function BootGeometry(sec: Sector, start: nat): Option<Geometry>
    requires BootIsFat32(sec)
  {
    var total, rel, spc := Rd32(sec, 32), W32(Overhead(sec)), sec[13];
    if rel >= total || total - rel < spc then None
    else
      var max := W32((total - rel) / spc + 1);
      var fatStart := W32(start + Rd16(sec, 14));
      var g := Geometry(fatStart, sec[16], Rd32(sec, 36), W32(fatStart + FatSectors(sec)), spc, Rd32(sec, 44), max);
      if ValidCluster(g, g.root) then Some(g) else None
  }

  /** The partition that the first sector names, when it is no FAT32 boot sector itself. */
  function PartitionStart(sec: Sector): Option<nat> {
    if HasSignature(sec) && Rd32(sec, 454) != 0 then Some(Rd32(sec, 454)) else None
  }

  /** Where on a drive the volume starts: at its first sector or at the first partition. */
  function VolumeStart(disk: seq<Sector>): (r: Option<nat>)
    ensures r.Some? ==> r.value < |disk| && BootIsFat32(disk[r.value])
  {
    if |disk| == 0 then None
    else if BootIsFat32(disk[0]) then Some(0)
    else match PartitionStart(disk[0])
      case None => None
      case Some(start) => if start < |disk| && BootIsFat32(disk[start]) then Some(start) else None
  }

  /** The volume lies on the drive, its FAT covers its clusters, and nothing wraps: what mounting does not check. */
  ghost predicate WellSized(sec: Sector, start: nat, n: nat)
    requires BootIsFat32(sec)
  {
    && Overhead(sec) < Rd32(sec, 32) && start + Rd32(sec, 32) <= n <= 0x1_0000_0000
    && BootGeometry(sec, start).Some?
    && BootGeometry(sec, start).value.max < 128 * Rd32(sec, 36) && BootGeometry(sec, start).value.max < EOC
  }

  /** A well-sized boot sector gives a geometry whose addresses all lie on the drive, each area clear of the next. */
  lemma WellSizedFits(sec: Sector, start: nat, n: nat)
    requires BootIsFat32(sec) && WellSized(sec, start, n)
    ensures Fits(BootGeometry(sec, start).value, n)
  {
    var g := BootGeometry(sec, start).value;
    NoWrap(Overhead(sec));
    NoWrap(start + Rd16(sec, 14));
    NoWrap(start + Rd16(sec, 14) + FatSectors(sec));
    NoWrap(g.max);
    QuotientBound(Rd32(sec, 32) - Overhead(sec), g.spc);
    NoWrap((Rd32(sec, 32) - Overhead(sec)) / g.spc + 1);
    FitsThere(g, n, start + Overhead(sec), Rd32(sec, 32) - Overhead(sec));
  }

  lemma NoWrap(x: nat)
    ensures x < 0x1_0000_0000 ==> W32(x) == x
  {
  }

  lemma FitsThere(g: Geometry, n: nat, before: nat, data: nat)
    requires g.spc >= 1 && g.fatCount >= 1 && g.max < 128 * g.spf && g.max < EOC && ValidCluster(g, g.root)
    requires g.dataStart == before == g.fatStart + g.fatCount * g.spf
    requires before + data <= n <= 0x1_0000_0000 && (g.max - 1) * g.spc <= data
    ensures Fits(g, n)
  {
    TimesIsProduct(g.fatCount, g.spf);
    TimesIsProduct(g.max - 1, g.spc);
  }

  lemma QuotientBound(n: nat, k: nat)
    requires k > 0
    ensures n / k * k <= n && n / k <= n
  {
    var q := n / k;
    DivFloor(n, k);
    assert q * k == q + q * (k - 1);
    MulNonneg(q, k - 1);
  }

  lemma DivFloor(n: nat, k: nat)
    requires k > 0
    ensures n / k * k <= n
  {
  }

  lemma MulNonneg(a: nat, b: nat)
    ensures a * b >= 0
  {
  }

  // ---- What the disk holds ----

  ghost function LinksOf(g: Geometry, disk: seq<Sector>): seq<nat>
    requires Fits(g, |disk|)
  {
    seq(g.max + 1, c requires 0 <= c <= g.max => if FatLba(g, 0, c) < |disk| then FatValue(g, disk, 0, c) else 0)
  }

  ghost function SectorOf(g: Geometry, disk: seq<Sector>, c: nat, s: nat): Sector {
    if c >= 2 && DataLba(g, c, s) < |disk| then disk[DataLba(g, c, s)] else ZeroSector()
  }

  ghost function ClusterOf(g: Geometry, disk: seq<Sector>, c: nat): seq<Sector> {
    seq(g.spc, s requires 0 <= s < g.spc => SectorOf(g, disk, c, s))
  }

  ghost function ClustersOf(g: Geometry, disk: seq<Sector>): seq<seq<Sector>> {
    seq(g.max + 1, c requires 0 <= c <= g.max => ClusterOf(g, disk, c))
  }

  lemma DiskHolds(g: Geometry, disk: seq<Sector>)
    requires Fits(g, |disk|)
    ensures CopyHolds(g, disk, 0, LinksOf(g, disk)) && ClustersHold(g, disk, ClustersOf(g, disk))
  {
    forall c {:trigger FatLba(g, 0, c)} | 0 <= c <= g.max ensures FatLba(g, 0, c) < |disk| {
      FatLbaBounds(g, |disk|, 0, c);
    }
    forall c, s {:trigger DataLba(g, c, s)} | ValidCluster(g, c) && 0 <= s < g.spc ensures DataLba(g, c, s) < |disk| {
      DataLbaBounds(g, |disk|, c, s);
    }
  }

  // ---- Mounting and unmounting ----

  /** Finds the boot sector of the volume. */
  method ReadBoot(dev: BlockDevice) returns (ok: bool, start: nat, sec: Sector)
    modifies dev`faults
    ensures dev.faults >= old(dev.faults)
    ensures ok ==> VolumeStart(dev.sectors) == Some(start) && sec == dev.sectors[start]
    ensures !ok && dev.faults == old(dev.faults) ==> VolumeStart(dev.sectors) == None
  {
    start := 0;
    ok, sec := dev.ReadSector(0);
    if !ok { return; }
    if !BootIsFat32(sec) {
      if !HasSignature(sec) { return false, start, sec; }
      start := Rd32(sec, 446 + 8);
      if start == 0 { return false, start, sec; }
      ok, sec := dev.ReadSector(start);
      if !ok { return; }
      ok := BootIsFat32(sec);
    }
  }

  /** Mounts the volume on a drive. Caches start out empty; a well-sized volume can then be used, and its links and
      clusters are what the disk holds. */
  method Mount(fs: Fat32, hasDev: bool, dev: BlockDevice) returns (ok: bool, ghost start: nat)
    requires fs.Caching()
    modifies fs, dev`faults, fs.dataCache, fs.fatCache
    ensures fs.Caching() && dev.faults >= old(dev.faults) && fs.mounted == ok
    ensures ok ==>
              fs.dev == dev && start < |dev.sectors| && BootIsFat32(dev.sectors[start]) &&
              VolumeStart(dev.sectors) == Some(start) &&
                   BootGeometry(dev.sectors[start], start) == Some(fs.g)
    ensures ok && WellSized(dev.sectors[start], start, |dev.sectors|) ==>
              fs.Valid() && fs.lowest && fs.agree == AllCopiesHold(fs.g, dev.sectors, fs.links)
    ensures !ok && dev.faults == old(dev.faults) && hasDev && dev.present && dev.canRead ==>
              match VolumeStart(dev.sectors) case None => true case Some(s) => BootGeometry(dev.sectors[s], s) == None
  {
    fs.mounted := false;
    start := 0;
    if !hasDev || !dev.present || !dev.canRead { return false, 0; }
    var sec, lba;
    ok, lba, sec := ReadBoot(dev);
    start := lba;
    if !ok { return; }
    fs.hasDev, fs.dev := true, dev;
    var geometry := BootGeometry(sec, lba);
    if geometry.None? { return false, start; }
    fs.g, fs.allocHint := geometry.value, 2;
    fs.FlushCache();
    fs.mounted := true;
    Adopt(fs, sec, start);
  }

  /** Takes the meaning of a freshly mounted disk as the ghost state. */
  ghost method Adopt(fs: Fat32, sec: Sector, start: nat)
    requires fs.Caching() && fs.mounted && BootIsFat32(sec) && BootGeometry(sec, start) == Some(fs.g) &&
             fs.allocHint == 2
    modifies fs`links, fs`clusters, fs`agree, fs`lowest
    ensures fs.Caching()
    ensures WellSized(sec, start, |fs.dev.sectors|) ==>
              fs.Valid() && fs.lowest && fs.agree == AllCopiesHold(fs.g, fs.dev.sectors, fs.links)
  {
    if WellSized(sec, start, |fs.dev.sectors|) {
      WellSizedFits(sec, start, |fs.dev.sectors|);
      DiskHolds(fs.g, fs.dev.sectors);
      fs.links, fs.clusters := LinksOf(fs.g, fs.dev.sectors), ClustersOf(fs.g, fs.dev.sectors);
      fs.lowest, fs.agree := true, AllCopiesHold(fs.g, fs.dev.sectors, fs.links);
    }
  }

  /** Unmounting leaves nothing cached. */
  method Unmount(fs: Fat32)
    requires fs.Caching()
    modifies fs, fs.dataCache, fs.fatCache
    ensures fs.Caching() && !fs.mounted && !fs.hasDev
    ensures forall i :: 0 <= i < CACHE_SLOTS ==> !fs.dataCache[i].valid && !fs.fatCache[i].valid
  {
    fs.mounted := false;
    fs.FlushCache();
    fs.hasDev := false;
    fs.g, fs.allocHint := Geometry(0, 0, 0, 0, 0, 0, 0), 0;
  }
}
