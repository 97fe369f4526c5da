/** The fields on the disk, byte by byte, as Microsoft's FAT32 File System Specification 1.03 lays them out. */
module Fat32Format {
  import opened Options
  import opened MachineBytes
  import opened Products
  import opened BlockDevices
  import opened Fat32Layout
  import opened Fat32Slots
  import opened Fat32Directory
  import opened Fat32View
  import opened Fat32Tree
  import opened Fat32Files
  import opened Fat32Write
  import opened Fat32Mount
  import opened Fat32Remove

  /** A directory entry: name, attributes, the high half of its first cluster at 20, the low half at 26, its size. */
  lemma SlotBytes(e: Slot)
    ensures NameOf(e) == e[..11]
    ensures FirstCluster(e) == Number(e[26..28] + e[20..22]) && FileSize(e) == Number(e[28..32])
    ensures IsDirectory(e) <==> (e[11] as bv8) & 0x10 != 0
    ensures Live(e) <==> e[0] != 0 && e[0] != 0xE5 && e[11] != 0x0F
  {
    ReadsNumbers(e, 20);
    ReadsNumbers(e, 26);
    ReadsNumbers(e, 28);
    PairNumber(e[26..28] + e[20..22]);
    PairNumber(e[20..22]);
    PairNumber(e[26..28]);
    assert (e[26..28] + e[20..22])[2..] == e[20..22];
    assert e[20..22][2..] == [] && e[26..28][2..] == [];
    DirectoryBit(e[11]);
  }

  lemma DirectoryBit(b: byte)
    ensures b as int / 16 % 2 == 1 <==> (b as bv8) & 0x10 != 0
  {
    BitOf(b as bv8);
  }

  lemma BitOf(b: bv8)
    ensures (b / 16) % 2 == 1 <==> b & 0x10 != 0
    ensures (b / 16) as int == b as int / 16
  {
  }

  /** A FAT entry is the low 28 bits of the four bytes in its place. */
  lemma EntryBytes(sec: Sector, e: nat)
    requires e < 128
    ensures EntryValue(sec, e) == Number(sec[4 * e..4 * e + 4]) % 0x1000_0000
  {
    ReadsNumbers(sec, 4 * e);
  }

  /** The entries that a listing shows: those that live and do not begin with a dot. */
  ghost function Visible(slots: seq<Slot>, k: nat): set<nat> {
    set i: nat {:trigger slots[i]} | k <= i < |slots| && slots[i][0] != 0 && slots[i][0] != 0xE5 &&
      slots[i][0] != 0x2E &&
              slots[i][11] != 0x0F
  }

  /** In a directory that ends at its first unused entry a listing counts all of them. */
  lemma {:induction false} CountIs(slots: seq<Slot>, k: nat)
    requires ZeroTail(slots)
    ensures CountFrom(slots, k) == |Visible(slots, k)|
    decreases |slots| - k
  {
    if k < |slots| && slots[k][0] != 0 {
      CountIs(slots, k + 1);
      var rest := Visible(slots, k + 1);
      assert Visible(slots, k) == if Listed(slots[k]) then rest + {k} else rest;
    } else {
      assert Visible(slots, k) == {};
    }
  }

  /** Where byte i of a file lies: in the cluster of its chain that the quotient of i and the cluster size gives, in
      order within the cluster. As long as its size says, and no longer, it goes on. */
  lemma FileByte(g: Geometry, disk: seq<Sector>, clusters: Clusters, chains: Chains, e: Slot, i: nat, ci: nat, s: nat,
                 o: nat)
    requires var h := FirstCluster(e); h >= 2 && h in chains && Readable(g, clusters, chains[h])
    requires ci < |chains[FirstCluster(e)]| && s < g.spc && o < 512 && i == 512 * (ci * g.spc + s) + o < FileSize(e)
    requires var c := chains[FirstCluster(e)][ci];
             DataLba(g, c, s) < |disk| && clusters[c][s] == disk[DataLba(g, c, s)]
    ensures i < |FileBytes(clusters, chains, e)| <= FileSize(e)
    ensures FileBytes(clusters, chains, e)[i] == disk[DataLba(g, chains[FirstCluster(e)][ci], s)][o]
  {
    var cs := chains[FirstCluster(e)];
    ChainByte(g, clusters, cs, ci, s, o);
  }

  lemma ChainByte(g: Geometry, clusters: Clusters, cs: seq<nat>, ci: nat, s: nat, o: nat)
    requires Readable(g, clusters, cs) && ci < |cs| && s < g.spc && o < 512
    ensures var bytes, i := Bytes(ChainSectors(clusters, cs)), 512 * (ci * g.spc + s) + o;
            i < |bytes| && bytes[i] == clusters[cs[ci]][s][o]
  {
    ChainSectorsAt(g, clusters, cs, ci, s);
    TimesIsProduct(ci, g.spc);
    BytesAt(ChainSectors(clusters, cs), Times(ci, g.spc) + s, o);
  }

  /** Slot k of a directory: the entry of 32 bytes in its place in a sector. */
  lemma DirectorySlot(g: Geometry, clusters: Clusters, cs: seq<nat>, ci: nat, s: nat, i: nat)
    requires Readable(g, clusters, cs) && ci < |cs| && s < g.spc && i < 16
    ensures var k := 16 * (ci * g.spc + s) + i;
            k < |DirSlots(clusters, cs)| && DirSlots(clusters, cs)[k] == clusters[cs[ci]][s][32 * i..32 * i + 32]
  {
    SlotAtPlace(g, clusters, cs, Place(ci, s, i));
    TimesIsProduct(ci, g.spc);
  }

  /** A file takes the quotient of its size and the cluster size, rounded up. */
  lemma JustEnoughIs(n: nat, size: nat, spc: nat)
    requires spc >= 1
    ensures JustEnough(n, size, spc) <==> n == (size + (512 * spc - 1)) / (512 * spc)
  {
    var unit := 512 * spc;
    var q := (size + (unit - 1)) / unit;
    DivBounds(size + (unit - 1), unit);
    TimesIsProduct(n, spc);
    if n > 0 { TimesIsProduct(n - 1, spc); }
    assert 512 * (n * spc) == n * unit;
    assert n > 0 ==> 512 * ((n - 1) * spc) == n * unit - unit;
    if n < q { Steps(n, q, unit); }
    if q < n { Steps(q, n, unit); }
  }

  lemma Steps(a: nat, b: nat, unit: nat)
    requires a < b
    ensures a * unit + unit <= b * unit
  {
    assert b * unit == a * unit + (b - a) * unit;
    assert (b - a) * unit == unit + (b - a - 1) * unit;
  }

  /** The fields of a boot sector that address arithmetic uses. */
  datatype BootFields = BootFields(reserved: nat, fats: nat, size: nat, spc: nat, total: nat, root: nat)

  function FieldsOf(sec: Sector): BootFields {
    BootFields(Number(sec[14..16]), sec[16], Number(sec[36..40]), sec[13], Number(sec[32..36]), Number(sec[44..48]))
  }

  lemma FieldsRead(sec: Sector)
    ensures FieldsOf(sec) == BootFields(Rd16(sec, 14), sec[16], Rd32(sec, 36), sec[13], Rd32(sec, 32), Rd32(sec, 44))
  {
    ReadsNumbers(sec, 14);
    ReadsNumbers(sec, 32);
    ReadsNumbers(sec, 36);
    ReadsNumbers(sec, 44);
  }

  /** What marks a boot sector: the signature, the name of the file system, 512 bytes to a sector, a power of two of
      sectors to a cluster, and fields that say something; what older kinds of FAT used is zero. */
  lemma BootIs(sec: Sector)
    ensures BootIsFat32(sec) <==>
            && sec[510] == 0x55 && sec[511] == 0xAA && Letters(sec, 82, "FAT32")
            && Number(sec[11..13]) == 512 && (exists k: nat :: k < 8 && sec[13] == Pow2(k))
            && Number(sec[14..16]) > 0 && sec[16] > 0 && Number(sec[36..40]) > 0 && Number(sec[32..36]) > 0
            && Number(sec[44..48]) > 1 && Number(sec[19..21]) == 0 && Number(sec[22..24]) == 0
  {
    FieldsRead(sec);
    ReadsNumbers(sec, 11);
    ReadsNumbers(sec, 19);
    ReadsNumbers(sec, 22);
    MarkIs(sec);
    SizeIs(sec[13]);
  }

  predicate Letters(sec: Sector, at: nat, text: string)
    requires at + |text| <= 512
  {
    forall i :: 0 <= i < |text| ==> sec[at + i] == text[i] as int
  }

  lemma MarkIs(sec: Sector)
    ensures sec[82..87] == [0x46, 0x41, 0x54, 0x33, 0x32] <==> Letters(sec, 82, "FAT32")
  {
    var text := "FAT32";
    var mark: seq<byte> := [0x46, 0x41, 0x54, 0x33, 0x32];
    assert forall i :: 0 <= i < 5 ==> mark[i] == text[i] as int;
    assert forall i :: 0 <= i < 5 ==> sec[82..87][i] == sec[82 + i];
  }

  function Pow2(k: nat): nat { if k == 0 then 1 else 2 * Pow2(k - 1) }

  lemma SizeIs(b: byte)
    ensures IsPowerOfTwo(b) <==> exists k: nat :: k < 8 && b == Pow2(k)
  {
    assert Pow2(3) == 8;
    assert Pow2(4) == 16;
    assert Pow2(5) == 32;
    assert Pow2(6) == 64;
    assert Pow2(7) == 128;
    assert Pow2(0) == 1 && Pow2(1) == 2 && Pow2(2) == 4;
  }

  /** When the fields make sense: there is room for a cluster behind the FAT copies, and the root directory begins in a
      cluster that there is. */
  lemma GeometryIff(sec: Sector, start: nat)
    requires BootIsFat32(sec)
    requires var b := FieldsOf(sec); b.reserved + b.fats * b.size < 0x1_0000_0000
    ensures var b := FieldsOf(sec);
            var rel := b.reserved + b.fats * b.size;
            b.spc > 0 &&
            (BootGeometry(sec, start).Some? <==> rel + b.spc <= b.total && b.root <= (b.total - rel) / b.spc + 1)
  {
    FieldsRead(sec);
    var total, rel, spc := Rd32(sec, 32), Overhead(sec), sec[13];
    NoWrap(rel);
    if rel + spc <= total {
      QuotientBound(total - rel, spc);
      NoWrap((total - rel) / spc + 1);
    }
  }

  /** A volume starts at the first sector of the drive, or else where the first entry of the partition table says. */
  lemma VolumeIs(disk: seq<Sector>, start: nat)
    requires |disk| > 0
    ensures VolumeStart(disk) == Some(start) <==>
            && start < |disk| && BootIsFat32(disk[start])
            && (start == 0 || (!BootIsFat32(disk[0]) && disk[0][510] == 0x55 && disk[0][511] == 0xAA &&
                               Number(disk[0][454..458]) == start))
  {
    ReadsNumbers(disk[0], 454);
  }

  /** The names of the entries `.` and `..`: dots, and blanks up to eleven. */
  lemma DotNames(k: nat)
    requires k < 11
    ensures DotName()[k] == (if k < 1 then 0x2E else 0x20) && DotDotName()[k] == (if k < 2 then 0x2E else 0x20)
  {
  }

  lemma GeometryIs(sec: Sector, start: nat, n: nat, b: BootFields)
    requires BootIsFat32(sec) && WellSized(sec, start, n)
    requires b == BootFields(Rd16(sec, 14), sec[16], Rd32(sec, 36), sec[13], Rd32(sec, 32), Rd32(sec, 44))
    ensures b.spc > 0 && b.reserved + b.fats * b.size < b.total
    ensures BootGeometry(sec, start).value ==
            Geometry(start + b.reserved, b.fats, b.size, start + b.reserved + b.fats * b.size, b.spc, b.root,
                     (b.total - (b.reserved + b.fats * b.size)) / b.spc + 1)
  {
    var g := BootGeometry(sec, start).value;
    NoWrap(Overhead(sec));
    NoWrap(start + Rd16(sec, 14));
    NoWrap(start + Rd16(sec, 14) + FatSectors(sec));
    QuotientBound(Rd32(sec, 32) - Overhead(sec), g.spc);
    NoWrap((Rd32(sec, 32) - Overhead(sec)) / g.spc + 1);
  }

  /** Where a volume's FAT entries and data lie, from the fields of its boot sector: reserved sectors, then the FAT
      copies, then the clusters from number 2 on, as many as fit. */
  lemma Addresses(sec: Sector, start: nat, n: nat, copy: nat, c: nat, s: nat)
    requires BootIsFat32(sec) && WellSized(sec, start, n) && c >= 2
    ensures var g, b := BootGeometry(sec, start).value, FieldsOf(sec);
            && g.root == b.root && g.fatCount == b.fats && g.spc == b.spc > 0
            && g.max == (b.total - (b.reserved + b.fats * b.size)) / b.spc + 1
            && FatLba(g, copy, c) == start + b.reserved + copy * b.size + c / 128
            && DataLba(g, c, s) == start + b.reserved + b.fats * b.size + (c - 2) * b.spc + s
  {
    FieldsRead(sec);
    GeometryIs(sec, start, n, FieldsOf(sec));
    TimesIsProduct(copy, FieldsOf(sec).size);
    TimesIsProduct(c - 2, FieldsOf(sec).spc);
  }
}
