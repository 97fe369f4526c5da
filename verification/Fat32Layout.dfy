/** Where a FAT32 volume keeps its FAT copies and clusters, and how one FAT entry is stored in a sector. */
module Fat32Layout {
  import opened MachineBytes
  import opened Products
  import opened BlockDevices

  const EOC: nat := 0x0FFF_FFF8
  const LINK_RANGE: nat := 0x1000_0000

  /** The fields of the mounted volume that address arithmetic uses. */
  datatype Geometry = Geometry(fatStart: nat, fatCount: nat, spf: nat, dataStart: nat, spc: nat, root: nat, max: nat)

  predicate ValidCluster(g: Geometry, c: int) { 2 <= c <= g.max }

  function FatLba(g: Geometry, copy: nat, c: nat): nat { g.fatStart + Times(copy, g.spf) + c / 128 }

  function DataLba(g: Geometry, c: nat, s: nat): nat
    requires c >= 2
  {
    g.dataStart + Times(c - 2, g.spc) + s
  }

  /** The volume lies inside a disk of n sectors, the FAT covers every cluster, and no address wraps. */
  ghost predicate Fits(g: Geometry, n: nat) {
    && g.spc >= 1 && g.fatCount >= 1 && g.max < 128 * g.spf && g.max < EOC
    && g.fatStart + Times(g.fatCount, g.spf) <= g.dataStart
    && ValidCluster(g, g.root)
    && g.dataStart + Times(g.max - 1, g.spc) <= n <= 0x1_0000_0000
  }

  lemma FatLbaBounds(g: Geometry, n: nat, copy: nat, c: nat)
    requires Fits(g, n) && copy < g.fatCount && c <= g.max
    ensures g.fatStart <= FatLba(g, copy, c) < g.dataStart <= n
  {
    TimesStrict(copy, g.fatCount, g.spf);
  }

  lemma FatLbaInjective(g: Geometry, n: nat, copy: nat, c: nat, copy': nat, c': nat)
    requires Fits(g, n) && c <= g.max && c' <= g.max
    requires FatLba(g, copy, c) == FatLba(g, copy', c')
    ensures copy == copy' && c / 128 == c' / 128
  {
    if copy < copy' { TimesStrict(copy, copy', g.spf); }
    if copy' < copy { TimesStrict(copy', copy, g.spf); }
  }

  lemma DataLbaBounds(g: Geometry, n: nat, c: nat, s: nat)
    requires Fits(g, n) && ValidCluster(g, c) && s < g.spc
    ensures g.dataStart <= DataLba(g, c, s) < n
  {
    TimesStrict(c - 2, g.max - 1, g.spc);
  }

  lemma DataLbaInjective(g: Geometry, c: nat, s: nat, c': nat, s': nat)
    requires c >= 2 && c' >= 2 && s < g.spc && s' < g.spc
    requires DataLba(g, c, s) == DataLba(g, c', s')
    ensures c == c' && s == s'
  {
    if c < c' { TimesStrict(c - 2, c' - 2, g.spc); }
    if c' < c { TimesStrict(c' - 2, c - 2, g.spc); }
  }

  // ---- One FAT entry: 28 bits, little-endian, the top four bits kept ----

  function EntryValue(sec: Sector, e: nat): (v: nat)
    requires e < 128
    ensures v < LINK_RANGE
  {
    Rd32(sec, 4 * e) % LINK_RANGE
  }

  function PatchEntry(sec: Sector, e: nat, v: nat): Sector
    requires e < 128
  {
    sec[4 * e := v % 256][4 * e + 1 := v / 0x100 % 256][4 * e + 2 := v / 0x1_0000 % 256]
       [4 * e + 3 := sec[4 * e + 3] / 16 * 16 + v / 0x100_0000 % 16]
  }

  lemma Digits(v: nat)
    ensures v % LINK_RANGE == v % 0x100 + 0x100 * (v / 0x100 % 0x100) + 0x1_0000 * (v / 0x1_0000 % 0x100)
                              + 0x100_0000 * (v / 0x100_0000 % 0x10)
  {
    var v1, v2, v3 := v / 0x100, v / 0x1_0000, v / 0x100_0000;
    assert v == 0x100 * v1 + v % 0x100;
    assert v1 == 0x100 * v2 + v1 % 0x100 by { assert v1 / 0x100 == v2; }
    assert v2 == 0x100 * v3 + v2 % 0x100 by { assert v2 / 0x100 == v3; }
    assert v3 == 0x10 * (v / LINK_RANGE) + v3 % 0x10 by { assert v3 / 0x10 == v / LINK_RANGE; }
  }

  lemma PatchedWord(sec: Sector, e: nat, v: nat)
    requires e < 128
    ensures EntryValue(PatchEntry(sec, e, v), e) == v % LINK_RANGE
    ensures PatchEntry(sec, e, v)[4 * e + 3] / 16 == sec[4 * e + 3] / 16
  {
    Digits(v);
    var top := sec[4 * e + 3] as int / 16;
    var last := v / 0x100_0000 % 16;
    assert (top * 16 + last) / 16 == top;
    assert Rd32(PatchEntry(sec, e, v), 4 * e) == v % LINK_RANGE + LINK_RANGE * top;
    assert (v % LINK_RANGE + LINK_RANGE * top) % LINK_RANGE == v % LINK_RANGE;
  }

  /** Storing an entry sets its low 28 bits, keeps its reserved top four, and touches no other entry. */
  lemma PatchEntryValue(sec: Sector, e: nat, v: nat, e': nat)
    requires e < 128 && e' < 128
    ensures EntryValue(PatchEntry(sec, e, v), e') == if e' == e then v % LINK_RANGE else EntryValue(sec, e')
    ensures PatchEntry(sec, e, v)[4 * e' + 3] / 16 == sec[4 * e' + 3] / 16
  {
    if e' == e {
      PatchedWord(sec, e, v);
    } else {
      var p := PatchEntry(sec, e, v);
      assert p[4 * e'] == sec[4 * e'] && p[4 * e' + 1] == sec[4 * e' + 1] && p[4 * e' + 2] == sec[4 * e' + 2];
    }
  }

  function FatValue(g: Geometry, disk: seq<Sector>, copy: nat, c: nat): nat
    requires FatLba(g, copy, c) < |disk|
  {
    EntryValue(disk[FatLba(g, copy, c)], c % 128)
  }
}
