/** The block device below the FAT32 driver and the driver's sector cache arrays. */
module BlockDevices {
  import opened MachineBytes

  type Sector = s: seq<byte> | |s| == 512 witness seq(512, _ => 0)

  function ZeroSector(): Sector { seq(512, _ => 0) }

  /** A drive. Any request inside the drive may fail at any time; `faults` counts those failures. */
  class BlockDevice {
    const present: bool
    const canRead: bool
    const canWrite: bool
    const canReadMany: bool
    var sectors: seq<Sector>
    var faults: nat                        // requests that failed so far; the driver never looks at it

    constructor (present: bool, canRead: bool, canWrite: bool, canReadMany: bool, sectors: seq<Sector>)
      ensures this.sectors == sectors && this.present == present && faults == 0
      ensures this.canRead == canRead && this.canWrite == canWrite && this.canReadMany == canReadMany
    {
      this.present, this.canRead, this.canWrite, this.canReadMany := present, canRead, canWrite, canReadMany;
      this.sectors := sectors;
      this.faults := 0;
    }

    method ReadSector(lba: nat) returns (ok: bool, data: Sector)
      modifies this`faults
      ensures ok ==> lba < |sectors| && data == sectors[lba] && faults == old(faults)
      ensures !ok && lba < |sectors| ==> faults > old(faults)
      ensures faults >= old(faults)
    {
      ok, data := *, ZeroSector();
      if lba < |sectors| {
        if ok { data := sectors[lba]; } else { faults := faults + 1; }
      } else {
        ok := false;
      }
    }

    method ReadSectors(lba: nat, count: nat) returns (ok: bool, data: seq<Sector>)
      modifies this`faults
      ensures ok ==> lba + count <= |sectors| && data == sectors[lba..lba + count] && faults == old(faults)
      ensures !ok && lba + count <= |sectors| ==> faults > old(faults)
      ensures faults >= old(faults)
    {
      ok, data := *, [];
      if lba + count <= |sectors| {
        if ok { data := sectors[lba..lba + count]; } else { faults := faults + 1; }
      } else {
        ok := false;
      }
    }

    /** A failed write changes nothing. */
    method WriteSector(lba: nat, data: Sector) returns (ok: bool)
      modifies this
      ensures |sectors| == |old(sectors)| && faults >= old(faults)
      ensures ok ==> lba < |sectors| && sectors == old(sectors)[lba := data] && faults == old(faults)
      ensures !ok ==> sectors == old(sectors)
      ensures !ok && lba < |sectors| ==> faults > old(faults)
    {
      ok := *;
      if lba < |sectors| {
        if ok { sectors := sectors[lba := data]; } else { faults := faults + 1; }
      } else {
        ok := false;
      }
    }
  }

  // ---- Sector cache ----

  datatype CacheEntry = CacheEntry(valid: bool, lba: nat, age: u32, data: Sector)

  /** Every valid entry equals the disk sector at its address, and no address is cached twice. */
  ghost predicate Coherent(cache: seq<CacheEntry>, disk: seq<Sector>) {
    && (forall i :: 0 <= i < |cache| && cache[i].valid ==> cache[i].lba < |disk| && cache[i].data == disk[cache[i].lba])
    && (forall i, j :: 0 <= i < j < |cache| && cache[i].valid && cache[j].valid ==> cache[i].lba != cache[j].lba)
  }

  ghost predicate Caches(cache: seq<CacheEntry>, lba: nat) {
    exists i :: 0 <= i < |cache| && cache[i].valid && cache[i].lba == lba
  }

  method CacheClear(cache: array<CacheEntry>)
    modifies cache
    ensures forall i :: 0 <= i < cache.Length ==> !cache[i].valid
  {
    for k := 0 to cache.Length
      invariant forall i :: 0 <= i < k ==> !cache[i].valid
    {
      cache[k] := cache[k].(valid := false, lba := 0, age := 0);
    }
  }

  /** Fills the first invalid slot, or else replaces the slot with the smallest age. */
  method CacheStore(cache: array<CacheEntry>, lba: nat, sec: Sector, now: u32, ghost disk: seq<Sector>)
    returns (ghost victim: nat)
    requires cache.Length > 0
    requires Coherent(cache[..], disk) && !Caches(cache[..], lba)
    requires lba < |disk| && sec == disk[lba]
    modifies cache
    ensures Coherent(cache[..], disk)
    ensures victim < cache.Length && cache[..] == old(cache[..])[victim := CacheEntry(true, lba, now, sec)]
    ensures old(cache[victim].valid) ==> forall i :: 0 <= i < cache.Length ==>
                                                     old(cache[i].valid) && old(cache[victim].age) <= old(cache[i].age)
  {
    var slot, minAge: u32, i := 0, 0xFFFF_FFFF, 0;
    while i < cache.Length
      invariant 0 <= i <= cache.Length && slot < cache.Length
      invariant forall k :: 0 <= k < i ==> cache[k].valid && minAge <= cache[k].age
      invariant cache[slot].age == minAge || (slot == 0 && minAge == 0xFFFF_FFFF)
    {
      if !cache[i].valid {
        slot, minAge := i, 0;
        break;
      }
      if cache[i].age < minAge {
        minAge, slot := cache[i].age, i;
      }
      i := i + 1;
    }
    ghost var before := cache[..];
    victim := slot;
    cache[slot] := CacheEntry(true, lba, now, sec);
    assert cache[..] == before[slot := CacheEntry(true, lba, now, sec)];
    forall k | 0 <= k < |before| && before[k].valid ensures before[k].lba != lba {
      if before[k].lba == lba { assert Caches(before, lba); }
    }
  }

  /** A hit returns the disk sector and refreshes the age; a miss means the address is not cached. */
  method CacheLookup(cache: array<CacheEntry>, lba: nat, now: u32, ghost disk: seq<Sector>)
    returns (hit: bool, sec: Sector)
    requires Coherent(cache[..], disk)
    modifies cache
    ensures Coherent(cache[..], disk)
    ensures hit == old(Caches(cache[..], lba))
    ensures hit ==> lba < |disk| && sec == disk[lba]
    ensures !hit ==> cache[..] == old(cache[..])
  {
    hit, sec := false, ZeroSector();
    for i := 0 to cache.Length
      invariant forall k :: 0 <= k < i ==> !(cache[k].valid && cache[k].lba == lba)
      invariant cache[..] == old(cache[..])
    {
      if cache[i].valid && cache[i].lba == lba {
        ghost var before := cache[..];
        assert before[i].valid && before[i].lba == lba;
        cache[i] := cache[i].(age := now);
        assert cache[..] == before[i := before[i].(age := now)];
        return true, cache[i].data;
      }
    }
  }
}
