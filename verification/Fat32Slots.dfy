/** Directory slots: how 32-byte entries sit in sectors, how they are searched, and what a change to one does. */
module Fat32Slots {
  import opened Options
  import opened MachineBytes
  import opened BlockDevices

  const ATTR_DIRECTORY: byte := 0x10
  const ATTR_LFN: byte := 0x0F
  const DELETED: byte := 0xE5

  type Slot = s: seq<byte> | |s| == 32 witness seq(32, _ => 0)
  type Name = s: seq<byte> | |s| == 11 witness seq(11, _ => 0)

  function ZeroSlot(): Slot { seq(32, _ => 0) }

  function FirstCluster(e: Slot): nat { 0x1_0000 * Rd16(e, 20) + Rd16(e, 26) }

  function FileSize(e: Slot): nat { Rd32(e, 28) }

  predicate IsDirectory(e: Slot) { e[11] as int / 16 % 2 == 1 }

  predicate Unused(e: Slot) { e[0] == 0 || e[0] == DELETED }

  /** An entry the searches look at: neither unused nor part of a long name. */
  predicate Live(e: Slot) { !Unused(e) && e[11] != ATTR_LFN }

  function NameOf(e: Slot): Name { e[..11] }

  function SetFirstCluster(e: Slot, cluster: nat): Slot {
    e[20 := cluster / 0x1_0000 % 256][21 := cluster / 0x100_0000 % 256]
     [26 := cluster % 256][27 := cluster / 0x100 % 256]
  }

  function SetFileSize(e: Slot, size: nat): Slot {
    e[28 := size % 256][29 := size / 0x100 % 256][30 := size / 0x1_0000 % 256][31 := size / 0x100_0000 % 256]
  }

  function NewSlot(name: Name, attr: byte, cluster: nat): Slot {
    SetFirstCluster(name + [attr] + seq(20, _ => 0), cluster)
  }

  function WrittenSlot(e: Slot, cluster: nat, size: nat): Slot {
    SetFileSize(SetFirstCluster(e[11 := 0x20], cluster), size)
  }

  lemma DigitsOf32(v: nat)
    requires v < 0x1_0000_0000
    ensures v == v % 0x100 + 0x100 * (v / 0x100 % 0x100) + 0x1_0000 * (v / 0x1_0000 % 0x100)
                 + 0x100_0000 * (v / 0x100_0000 % 0x100)
  {
    var v1, v2 := v / 0x100, v / 0x1_0000;
    assert v1 == 0x100 * v2 + v1 % 0x100 by { assert v1 / 0x100 == v2; }
    assert v2 == 0x100 * (v / 0x100_0000) + v2 % 0x100 by { assert v2 / 0x100 == v / 0x100_0000; }
  }

  /** e is a new entry of this name and kind for this cluster, of size zero. */
  ghost predicate Names(e: Slot, name: Name, attr: byte, cluster: nat) {
    NameOf(e) == name && e[0] == name[0] && e[11] == attr && FirstCluster(e) == cluster && FileSize(e) == 0
  }

  /** A slot written for a file or directory reads back with the name, kind, cluster and size it was given. */
  lemma NewSlotFields(name: Name, attr: byte, cluster: nat)
    requires cluster < 0x1_0000_0000
    ensures Names(NewSlot(name, attr, cluster), name, attr, cluster)
  {
    DigitsOf32(cluster);
    var e := NewSlot(name, attr, cluster);
    assert e[..11] == name;
  }

  /** w is the entry e rewritten to name a file of this cluster and size. */
  ghost predicate Rewritten(e: Slot, w: Slot, cluster: nat, size: nat) {
    && NameOf(w) == NameOf(e) && w[0] == e[0] && w[11] == 0x20 && !IsDirectory(w)
    && FirstCluster(w) == cluster && FileSize(w) == size
  }

  lemma WrittenSlotFields(e: Slot, cluster: nat, size: nat)
    requires cluster < 0x1_0000_0000 && size < 0x1_0000_0000
    ensures Rewritten(e, WrittenSlot(e, cluster, size), cluster, size)
  {
    DigitsOf32(cluster);
    DigitsOf32(size);
    var w := WrittenSlot(e, cluster, size);
    assert w[..11] == e[..11];
  }

  // ---- Slots in sectors ----

  function SlotAt(sec: Sector, i: nat): Slot
    requires i < 16
  {
    sec[32 * i..32 * i + 32]
  }

  function PatchSlot(sec: Sector, i: nat, e: Slot): Sector
    requires i < 16
  {
    sec[..32 * i] + e + sec[32 * i + 32..]
  }

  /** The slots of a list of sectors, sixteen to a sector, in order. */
  ghost function Slots(secs: seq<Sector>): seq<Slot> {
    if |secs| == 0 then []
    else Slots(secs[..|secs| - 1]) + seq(16, i requires 0 <= i < 16 => SlotAt(secs[|secs| - 1], i))
  }

  lemma {:induction false} SlotsAt(secs: seq<Sector>, j: nat, i: nat)
    requires j < |secs| && i < 16
    ensures |Slots(secs)| == 16 * |secs| && Slots(secs)[16 * j + i] == SlotAt(secs[j], i)
  {
    var n := |secs| - 1;
    if n == 0 { assert Slots(secs[..0]) == []; } else { SlotsAt(secs[..n], if j < n then j else 0, i); }
  }

  /** Slots 16j to 16j + 15 are the slots of sector j. */
  ghost predicate Tiled(secs: seq<Sector>, slots: seq<Slot>) {
    && |slots| == 16 * |secs|
    && forall j, m {:trigger SlotAt(secs[j], m)} :: 0 <= j < |secs| && 0 <= m < 16 ==>
       slots[16 * j + m] == SlotAt(secs[j], m)
  }

  lemma SlotsTiled(secs: seq<Sector>)
    ensures Tiled(secs, Slots(secs))
  {
    if |secs| > 0 { SlotsAt(secs, 0, 0); }
    forall j, m | 0 <= j < |secs| && 0 <= m < 16 ensures Slots(secs)[16 * j + m] == SlotAt(secs[j], m) {
      SlotsAt(secs, j, m);
    }
  }

  lemma TiledUnique(secs: seq<Sector>, slots: seq<Slot>)
    requires Tiled(secs, slots)
    ensures slots == Slots(secs)
  {
    SlotsTiled(secs);
    forall k | 0 <= k < |slots| ensures slots[k] == Slots(secs)[k] {
      var j, m := k / 16, k % 16;
      assert slots[16 * j + m] == SlotAt(secs[j], m);
    }
  }

  lemma PatchSlotAt(sec: Sector, i: nat, e: Slot, j: nat)
    requires i < 16 && j < 16
    ensures SlotAt(PatchSlot(sec, i, e), j) == if j == i then e else SlotAt(sec, j)
  {
    if j < i {
      assert PatchSlot(sec, i, e)[32 * j..32 * j + 32] == sec[32 * j..32 * j + 32];
    } else if i < j {
      assert PatchSlot(sec, i, e)[32 * j..32 * j + 32] == sec[32 * j..32 * j + 32];
    } else {
      assert PatchSlot(sec, i, e)[32 * j..32 * j + 32] == e;
    }
  }

  lemma SlotsPatched(secs: seq<Sector>, j: nat, i: nat, e: Slot)
    requires j < |secs| && i < 16
    ensures 16 * j + i < |Slots(secs)|
    ensures Slots(secs[j := PatchSlot(secs[j], i, e)]) == Slots(secs)[16 * j + i := e]
  {
    SlotsTiled(secs);
    var secs', slots' := secs[j := PatchSlot(secs[j], i, e)], Slots(secs)[16 * j + i := e];
    forall j', m | 0 <= j' < |secs'| && 0 <= m < 16 ensures slots'[16 * j' + m] == SlotAt(secs'[j'], m) {
      assert Slots(secs)[16 * j' + m] == SlotAt(secs[j'], m);
      if j' == j { PatchSlotAt(secs[j], i, e, m); }
    }
    TiledUnique(secs', slots');
  }

  lemma SlotsAppend(a: seq<Sector>, b: seq<Sector>)
    ensures Slots(a + b) == Slots(a) + Slots(b)
  {
    SlotsTiled(a);
    SlotsTiled(b);
    var secs, slots := a + b, Slots(a) + Slots(b);
    forall j, m | 0 <= j < |secs| && 0 <= m < 16 ensures slots[16 * j + m] == SlotAt(secs[j], m) {
      if j < |a| {
        assert Slots(a)[16 * j + m] == SlotAt(a[j], m);
      } else {
        assert Slots(b)[16 * (j - |a|) + m] == SlotAt(b[j - |a|], m);
      }
    }
    TiledUnique(secs, slots);
  }

  ghost function ZeroSlots(n: nat): seq<Slot> { seq(n, _ => ZeroSlot()) }

  lemma SlotsOfZeros(n: nat)
    ensures Slots(seq(n, _ => ZeroSector())) == ZeroSlots(16 * n)
  {
    var secs: seq<Sector> := seq(n, _ => ZeroSector());
    forall j, m | 0 <= j < n && 0 <= m < 16 ensures ZeroSlots(16 * n)[16 * j + m] == SlotAt(secs[j], m) {
      assert SlotAt(ZeroSector(), m) == ZeroSlot();
    }
    TiledUnique(secs, ZeroSlots(16 * n));
  }

  function PutSlot(slots: seq<Slot>, k: nat, e: Slot): seq<Slot>
    requires k < |slots|
  {
    slots[k := e]
  }

  // ---- Searching ----

  /** The first live entry called `name`, if it comes before the first slot that starts with zero. */
  function FindFrom(slots: seq<Slot>, name: Name, k: nat): (r: Option<nat>)
    ensures r.Some? ==> k <= r.value < |slots| && Live(slots[r.value]) && NameOf(slots[r.value]) == name
    decreases |slots| - k
  {
    if k >= |slots| || slots[k][0] == 0 then None
    else if Live(slots[k]) && NameOf(slots[k]) == name then Some(k)
    else FindFrom(slots, name, k + 1)
  }

  function Find(slots: seq<Slot>, name: Name): Option<nat> { FindFrom(slots, name, 0) }

  function FreeFrom(slots: seq<Slot>, k: nat): (r: Option<nat>)
    ensures r.Some? ==> k <= r.value < |slots| && Unused(slots[r.value])
    ensures forall i :: k <= i < |slots| && (r.None? || i < r.value) ==> !Unused(slots[i])
    decreases |slots| - k
  {
    if k >= |slots| then None
    else if Unused(slots[k]) then Some(k)
    else FreeFrom(slots, k + 1)
  }

  /** After the first slot that starts with zero only such slots follow. */
  ghost predicate ZeroTail(slots: seq<Slot>) {
    forall i, j :: 0 <= i < j < |slots| && slots[i][0] == 0 ==> slots[j][0] == 0
  }

  ghost predicate DistinctNames(slots: seq<Slot>) {
    forall i, j :: 0 <= i < j < |slots| && Live(slots[i]) && Live(slots[j]) ==> NameOf(slots[i]) != NameOf(slots[j])
  }

  /** In such a directory every live entry is the one its name finds. */
  ghost predicate DirectoryOk(slots: seq<Slot>) { ZeroTail(slots) && DistinctNames(slots) }

  lemma {:induction false} FindFromLive(slots: seq<Slot>, k: nat, i: nat)
    requires DirectoryOk(slots) && k <= i < |slots| && Live(slots[i])
    ensures FindFrom(slots, NameOf(slots[i]), k) == Some(i)
    decreases i - k
  {
    assert slots[k][0] != 0;
    if k < i { FindFromLive(slots, k + 1, i); }
  }

  /** Search finds a name exactly when a live entry bears it. */
  lemma FindIff(slots: seq<Slot>, name: Name)
    requires DirectoryOk(slots)
    ensures Find(slots, name).None? <==> forall i :: 0 <= i < |slots| && Live(slots[i]) ==> NameOf(slots[i]) != name
    ensures forall i :: 0 <= i < |slots| && Live(slots[i]) && NameOf(slots[i]) == name ==> Find(slots, name) == Some(i)
  {
    forall i | 0 <= i < |slots| && Live(slots[i]) && NameOf(slots[i]) == name ensures Find(slots, name) == Some(i) {
      FindFromLive(slots, 0, i);
    }
  }

  /** Storing an entry in the first unused slot (or the first slot of an appended zero block) makes its name
      findable there and leaves the search for every other name as it was. */
  lemma StoreNew(slots: seq<Slot>, k: nat, e: Slot)
    requires DirectoryOk(slots) && k < |slots| && FreeFrom(slots, 0) == Some(k)
    requires Live(e) && Find(slots, NameOf(e)).None?
    ensures DirectoryOk(slots[k := e]) && Find(slots[k := e], NameOf(e)) == Some(k)
    ensures forall n :: n != NameOf(e) ==> Find(slots[k := e], n) == Find(slots, n)
  {
    FindIff(slots, NameOf(e));
    var slots' := slots[k := e];
    assert DirectoryOk(slots');
    FindFromLive(slots', 0, k);
    forall n: Name | n != NameOf(e) ensures Find(slots', n) == Find(slots, n) {
      SameSearch(slots, slots', k, n);
    }
  }

  /** Two directories that agree outside slot k, where neither holds a live entry called n, find n alike. */
  lemma SameSearch(slots: seq<Slot>, slots': seq<Slot>, k: nat, n: Name)
    requires DirectoryOk(slots) && DirectoryOk(slots') && |slots| == |slots'|
    requires forall i :: 0 <= i < |slots| && i != k ==> slots[i] == slots'[i]
    requires k < |slots| ==> (Live(slots[k]) ==> NameOf(slots[k]) != n) && (Live(slots'[k]) ==> NameOf(slots'[k]) != n)
    ensures Find(slots', n) == Find(slots, n)
  {
    FindIff(slots, n);
    FindIff(slots', n);
    if Find(slots, n).Some? { assert slots'[Find(slots, n).value] == slots[Find(slots, n).value]; }
    if Find(slots', n).Some? { assert slots[Find(slots', n).value] == slots'[Find(slots', n).value]; }
  }

  /** Overwriting a live entry under the same name changes what that name finds and nothing else. */
  lemma StoreOver(slots: seq<Slot>, k: nat, e: Slot)
    requires DirectoryOk(slots) && k < |slots| && Live(slots[k]) && Live(e) && NameOf(e) == NameOf(slots[k])
    ensures DirectoryOk(slots[k := e]) && Find(slots[k := e], NameOf(e)) == Some(k)
    ensures forall n :: Find(slots[k := e], n) == Find(slots, n)
  {
    var slots' := slots[k := e];
    FindFromLive(slots', 0, k);
    FindFromLive(slots, 0, k);
    forall n: Name | n != NameOf(e) ensures Find(slots', n) == Find(slots, n) {
      SameSearch(slots, slots', k, n);
    }
  }

  /** Marking a live entry deleted makes its name unfindable and leaves every other search as it was. */
  lemma StoreDeleted(slots: seq<Slot>, k: nat)
    requires DirectoryOk(slots) && k < |slots| && Live(slots[k])
    ensures var slots' := slots[k := slots[k][0 := DELETED]];
            DirectoryOk(slots') && Find(slots', NameOf(slots[k])).None? &&
            forall n :: n != NameOf(slots[k]) ==> Find(slots', n) == Find(slots, n)
  {
    var gone: Slot := slots[k][0 := DELETED];
    var slots' := slots[k := gone];
    assert !Live(gone);
    assert DirectoryOk(slots');
    FindIff(slots', NameOf(slots[k]));
    forall n: Name | n != NameOf(slots[k]) ensures Find(slots', n) == Find(slots, n) {
      SameSearch(slots, slots', k, n);
    }
  }

  /** The first slot of an appended zero block is the first unused one of a full directory. */
  lemma RoomAfterZeros(slots: seq<Slot>, n: nat)
    requires n > 0 && FreeFrom(slots, 0).None?
    ensures FreeFrom(slots + ZeroSlots(n), 0) == Some(|slots|)
  {
    var slots' := slots + ZeroSlots(n);
    assert Unused(slots'[|slots|]);
    assert forall i :: 0 <= i < |slots| ==> slots'[i] == slots[i];
  }

  /** Appending zero slots changes no search. */
  lemma AppendZeros(slots: seq<Slot>, n: nat)
    requires DirectoryOk(slots)
    ensures DirectoryOk(slots + ZeroSlots(n))
    ensures forall name :: Find(slots + ZeroSlots(n), name) == Find(slots, name)
  {
    var slots' := slots + ZeroSlots(n);
    assert forall i :: |slots| <= i < |slots'| ==> slots'[i] == ZeroSlot() && !Live(slots'[i]);
    assert ZeroTail(slots') && DistinctNames(slots');
    forall name: Name ensures Find(slots', name) == Find(slots, name) {
      FindIff(slots, name);
      FindIff(slots', name);
      if Find(slots, name).Some? { assert slots'[Find(slots, name).value] == slots[Find(slots, name).value]; }
    }
  }
}
