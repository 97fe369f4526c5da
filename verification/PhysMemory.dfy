/** The physical page allocator: which pages of the first four gigabytes are free, and how many. */
module PhysMemory {
  import opened MachineBytes
  import opened Bitmaps

  const PAGE_SIZE: nat := 4096
  const MAX_PHYS: nat := 0x1_0000_0000
  const MAX_PAGES: nat := 0x10_0000

  /** Rounding down and up to a page, the latter in 64-bit arithmetic. */
  function AlignDown(addr: nat): nat { addr / PAGE_SIZE * PAGE_SIZE }

  function AlignUp(addr: nat): nat { AlignDown((addr + PAGE_SIZE - 1) % WORD) }

  function Clip(end: nat): nat { if end > MAX_PHYS then MAX_PHYS else end }

  function Minus(a: nat, b: nat): nat { if a < b then 0 else a - b }

  /** The pages that releasing a region frees run from here, over this many pages. */
  function InsideStart(start: nat): nat { AlignUp(start) / PAGE_SIZE }

  function InsideCount(start: nat, end: nat): nat {
    if start >= MAX_PHYS then 0 else Minus(AlignDown(Clip(end)) / PAGE_SIZE, InsideStart(start))
  }

  /** The pages that reserving a region takes run from here, over this many pages. */
  function TouchedStart(start: nat): nat { AlignDown(start) / PAGE_SIZE }

  function TouchedCount(start: nat, end: nat): nat { Minus(Clip(AlignUp(end)) / PAGE_SIZE, TouchedStart(start)) }

  ghost function AfterRelease(free: set<nat>, start: nat, end: nat): set<nat> {
    AfterRun(free, InsideStart(start), InsideCount(start, end), false)
  }

  ghost function AfterReserve(free: set<nat>, start: nat, end: nat): set<nat> {
    AfterRun(free, TouchedStart(start), TouchedCount(start, end), true)
  }

  lemma AlignDownPage(addr: nat)
    ensures AlignDown(addr) / PAGE_SIZE == addr / PAGE_SIZE
  {
  }

  /** Releasing frees the pages that lie wholly in the region. */
  lemma ReleasedPages(free: set<nat>, start: nat, end: nat, p: nat)
    requires start < WORD && end < WORD
    ensures p in AfterRelease(free, start, end) <==>
              p in free || (p < MAX_PAGES && start <= PAGE_SIZE * p && PAGE_SIZE * p + PAGE_SIZE <= end)
  {
    AfterRunAt(free, InsideStart(start), InsideCount(start, end), false, p);
    if start < MAX_PHYS {
      AlignDownPage(start + PAGE_SIZE - 1);
      AlignDownPage(Clip(end));
    }
  }

  /** Reserving takes the pages that the region touches, except that a region which ends in the last page of the
      64-bit space takes nothing, because its rounded end wraps to zero. */
  lemma ReservedPages(free: set<nat>, start: nat, end: nat, p: nat)
    requires start < WORD && end < WORD
    ensures p in AfterReserve(free, start, end) <==>
              p in free && !(p < MAX_PAGES && end <= WORD - PAGE_SIZE && start < PAGE_SIZE * p + PAGE_SIZE &&
                PAGE_SIZE * p < end)
  {
    AfterRunAt(free, TouchedStart(start), TouchedCount(start, end), true, p);
    AlignDownPage(start);
    AlignDownPage((end + PAGE_SIZE - 1) % WORD);
  }

  class PhysAllocator {
    const bits: Bitmap
    var totalPages: nat
    var freePages: nat

    ghost predicate Valid()
      reads this, bits, bits.bytes
    {
      bits.Valid() && bits.pages == MAX_PAGES && freePages == |bits.free|
    }

    constructor ()
      ensures Valid() && fresh(bits) && fresh(bits.bytes) && bits.free == {} && totalPages == 0
    {
      bits := new Bitmap(MAX_PAGES / 8, true);
      totalPages, freePages := 0, 0;
    }

    /** Makes a page free; `given` says that it was not. */
    method GivePage(page: nat) returns (given: bool)
      requires Valid() && page < MAX_PAGES
      modifies this`freePages, bits`free, bits.bytes
      ensures Valid() && bits.free == old(bits.free) + {page}
      ensures given == (page !in old(bits.free)) && freePages == old(freePages) + if given then 1 else 0
    {
      given := !bits.IsFree(page);
      if given {
        bits.MarkFree(page);
        freePages := freePages + 1;
      }
    }

    method ReleasePage(page: nat)
      requires Valid() && page < MAX_PAGES
      modifies this, bits`free, bits.bytes
      ensures Valid() && bits.free == old(bits.free) + {page}
      ensures totalPages - old(totalPages) == freePages - old(freePages)
    {
      var given := GivePage(page);
      if given { totalPages := totalPages + 1; }
    }

    method ReservePage(page: nat)
      requires Valid() && page < MAX_PAGES
      modifies this`freePages, bits`free, bits.bytes
      ensures Valid() && bits.free == old(bits.free) - {page}
    {
      if bits.IsFree(page) {
        bits.MarkUsed(page);
        freePages := freePages - 1;
      }
    }

    /** Frees the pages that lie wholly in the region and counts those that were not free. */
    method ReleaseRegion(start: nat, end: nat)
      requires Valid() && start < WORD && end < WORD
      modifies this, bits`free, bits.bytes
      ensures Valid() && bits.free == AfterRelease(old(bits.free), start, end)
      ensures totalPages - old(totalPages) == freePages - old(freePages)
    {
      if start >= MAX_PHYS { return; }
      var last := if end > MAX_PHYS then MAX_PHYS else end;
      var page, stop := AlignUp(start) / PAGE_SIZE, AlignDown(last) / PAGE_SIZE;
      ghost var count := 0;
      while page < stop
        invariant page == InsideStart(start) + count && (page <= stop || count == 0) && Valid()
        invariant bits.free == AfterRun(old(bits.free), InsideStart(start), count, false)
        invariant totalPages - old(totalPages) == freePages - old(freePages)
      {
        ReleasePage(page);
        page, count := page + 1, count + 1;
      }
    }

    /** Takes the pages that the region touches. */
    method ReserveRegion(start: nat, end: nat)
      requires Valid() && start < WORD && end < WORD
      modifies this`freePages, bits`free, bits.bytes
      ensures Valid() && bits.free == AfterReserve(old(bits.free), start, end)
    {
      var stop := AlignUp(end);
      if stop > MAX_PHYS { stop := MAX_PHYS; }
      var page, last := AlignDown(start) / PAGE_SIZE, stop / PAGE_SIZE;
      ghost var count := 0;
      while page < last
        invariant page == TouchedStart(start) + count && (page <= last || count == 0) && Valid()
        invariant bits.free == AfterRun(old(bits.free), TouchedStart(start), count, true)
      {
        if page < MAX_PAGES { ReservePage(page); }
        page, count := page + 1, count + 1;
      }
    }

    /** Takes the lowest run of free pages and returns its address; zero means failure, so a run at page 0 is taken
        but reported as none. */
    method AllocPages(count: nat) returns (addr: nat, ghost start: nat)
      requires Valid()
      modifies this`freePages, bits`free, bits.bytes
      ensures Valid() && start <= MAX_PAGES
      ensures count == 0 ==> start == MAX_PAGES
      ensures start < MAX_PAGES ==> start + count <= MAX_PAGES && FreeRun(old(bits.free), start, count) &&
                                    bits.free == AfterRun(old(bits.free), start, count, true) &&
                                      addr == start * PAGE_SIZE
      ensures start == MAX_PAGES ==> bits.free == old(bits.free) && addr == 0
      ensures count > 0 ==> forall s: nat :: s < start ==> !FreeRun(old(bits.free), s, count)
      ensures addr == 0 <==> start == MAX_PAGES || start == 0
      ensures 0 !in old(bits.free) && addr == 0 ==> start == MAX_PAGES
    {
      var first := bits.FindRun(count);
      start := first;
      if first == bits.pages { return 0, start; }
      bits.MarkRun(first, count, true);
      RunTaken(old(bits.free), first, count);
      freePages := freePages - count;
      addr := first * PAGE_SIZE;
    }

    method AllocPage() returns (addr: nat, ghost start: nat)
      requires Valid()
      modifies this`freePages, bits`free, bits.bytes
      ensures Valid() && start <= MAX_PAGES
      ensures start < MAX_PAGES ==>
                start in old(bits.free) && bits.free == old(bits.free) - {start} && addr == start * PAGE_SIZE
      ensures start == MAX_PAGES ==> old(bits.free) == bits.free == {} && addr == 0
      ensures forall p :: p in old(bits.free) ==> start <= p
    {
      ghost var was := bits.free;
      addr, start := AllocPages(1);
      assert start < MAX_PAGES ==>
               AfterRun(was, start, 1, true) == AfterRun(was, start, 0, true) - {start} &&
               was == AfterRun(was, start, 0, true);
      bits.InRange();
      forall p | p in was ensures start <= p { assert FreeRun(was, p, 1); }
    }

    /** Frees pages, ignoring those beyond the end and those that are free already. */
    method FreePages(addr: nat, count: nat)
      requires Valid()
      modifies this`freePages, bits`free, bits.bytes
      ensures Valid()
      ensures bits.free == AfterRun(old(bits.free), addr / PAGE_SIZE, Fitting(addr / PAGE_SIZE, count), false)
    {
      var page := addr / PAGE_SIZE;
      for i := 0 to count
        invariant Valid() && bits.free == AfterRun(old(bits.free), page, Fitting(page, i), false)
      {
        if page + i < MAX_PAGES { var _ := GivePage(page + i); }
      }
    }

    method FreePage(addr: nat)
      requires Valid()
      modifies this`freePages, bits`free, bits.bytes
      ensures Valid() && bits.free == old(bits.free) + if addr / PAGE_SIZE < MAX_PAGES then {addr / PAGE_SIZE} else {}
    {
      FreePages(addr, 1);
      assert AfterRun(old(bits.free), addr / PAGE_SIZE, 0, false) == old(bits.free);
    }
  }

  /** How many of the pages from `page` on exist. */
  function Fitting(page: nat, count: nat): nat {
    if page + count <= MAX_PAGES then count else Minus(MAX_PAGES, page)
  }

  /** Which pages a run frees, those that exist, and which it takes. */
  lemma RunPages(free: set<nat>, page: nat, count: nat, p: nat)
    ensures p in AfterRun(free, page, Fitting(page, count), false) <==>
            p in free || (page <= p < page + count && p < 0x10_0000)
    ensures p in AfterRun(free, page, count, true) <==> p in free && !(page <= p < page + count)
  {
    AfterRunAt(free, page, Fitting(page, count), false, p);
    AfterRunAt(free, page, count, true, p);
  }

  datatype Region = Region(start: nat, end: nat)

  ghost function AfterReleases(free: set<nat>, regions: seq<Region>): set<nat> {
    if |regions| == 0 then free
    else AfterRelease(AfterReleases(free, regions[..|regions| - 1]), regions[|regions| - 1].start,
                      regions[|regions| - 1].end)
  }

  lemma StaysReserved(free: set<nat>, start: nat, end: nat)
    requires start < WORD && end < WORD
    ensures 0 !in AfterReserve(free, 0, 0x10_0000)
    ensures 0 !in free ==> 0 !in AfterReserve(free, start, end)
  {
    ReservedPages(free, 0, 0x10_0000, 0);
    ReservedPages(free, start, end, 0);
  }

  method ReleaseAll(a: PhysAllocator, available: seq<Region>)
    requires a.Valid() && forall i :: 0 <= i < |available| ==> available[i].start < WORD && available[i].end < WORD
    modifies a, a.bits`free, a.bits.bytes
    ensures a.Valid() && a.bits.free == AfterReleases(old(a.bits.free), available)
  {
    for i := 0 to |available|
      invariant a.Valid() && a.bits.free == AfterReleases(old(a.bits.free), available[..i])
    {
      a.ReleaseRegion(available[i].start, available[i].end);
      assert available[..i + 1][..i] == available[..i];
    }
    assert available[..|available|] == available;
  }

  /** Start-up: everything is in use but the available regions of the memory map, less the first megabyte, the kernel
      image and the boot information; without boot information nothing is free. Page 0 is then reserved. */
  method Init(infoAddr: nat, infoSize: nat, available: seq<Region>, kernel: Region) returns (a: PhysAllocator)
    requires forall i :: 0 <= i < |available| ==> available[i].start < WORD && available[i].end < WORD
    requires kernel.start < WORD && kernel.end < WORD && infoAddr + infoSize < WORD
    ensures a.Valid() && fresh(a) && fresh(a.bits) && fresh(a.bits.bytes)
    ensures infoAddr == 0 ==> a.bits.free == {}
    ensures infoAddr != 0 ==>
              var free := AfterReserve(AfterReserve(AfterReleases({}, available), 0, 0x10_0000), kernel.start,
                                       kernel.end);
              a.bits.free == if infoSize == 0 then free else AfterReserve(free, infoAddr, infoAddr + infoSize)
    ensures 0 !in a.bits.free
  {
    a := new PhysAllocator();
    if infoAddr == 0 { return; }
    Populate(a, infoAddr, infoSize, available, kernel);
  }

  /** Frees the available regions, less what is in use. */
  method Populate(a: PhysAllocator, infoAddr: nat, infoSize: nat, available: seq<Region>, kernel: Region)
    requires forall i :: 0 <= i < |available| ==> available[i].start < WORD && available[i].end < WORD
    requires a.Valid() && kernel.start < WORD && kernel.end < WORD && infoAddr + infoSize < WORD
    modifies a, a.bits`free, a.bits.bytes
    ensures a.Valid() && 0 !in a.bits.free
    ensures var free := AfterReserve(AfterReserve(AfterReleases(old(a.bits.free), available), 0, 0x10_0000),
                                     kernel.start, kernel.end);
            a.bits.free == if infoSize == 0 then free else AfterReserve(free, infoAddr, infoAddr + infoSize)
  {
    ReleaseAll(a, available);
    ReserveKernel(a, kernel);
    if infoSize != 0 { Reserve(a, infoAddr, infoAddr + infoSize); }
  }

  method ReserveKernel(a: PhysAllocator, kernel: Region)
    requires a.Valid() && kernel.start < WORD && kernel.end < WORD
    modifies a, a.bits`free, a.bits.bytes
    ensures a.Valid()
    ensures a.bits.free == AfterReserve(AfterReserve(old(a.bits.free), 0, 0x10_0000), kernel.start, kernel.end)
    ensures 0 !in a.bits.free
  {
    Reserve(a, 0, 0x10_0000);
    Reserve(a, kernel.start, kernel.end);
  }

  /** Reserving gives back nothing, and reserving the first megabyte takes page 0. */
  method Reserve(a: PhysAllocator, start: nat, end: nat)
    requires a.Valid() && start < WORD && end < WORD
    modifies a, a.bits`free, a.bits.bytes
    ensures a.Valid() && a.bits.free == AfterReserve(old(a.bits.free), start, end)
    ensures old(0 !in a.bits.free) || (start == 0 && end == 0x10_0000) ==> 0 !in a.bits.free
  {
    StaysReserved(a.bits.free, start, end);
    a.ReserveRegion(start, end);
  }
}
