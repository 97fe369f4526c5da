/** The kernel's virtual window: allocating a run of pages backed by frames, all or nothing, and freeing one. */
module VirtRanges {
  import opened Options
  import opened Bitmaps
  import opened PhysMemory
  import opened PageEntries
  import opened PageTables
  import opened PageAccess
  import opened Paging

  const VIRT_BASE: nat := 0xFFFF_9000_0000_0000
  const VIRT_PAGES: nat := 16384

  function VirtAddr(page: nat): nat { VIRT_BASE + page * PAGE_SIZE }

  function VirtPath(page: nat): (p: Path)
    ensures |p| == 4
  {
    PathOf(VirtAddr(page))
  }

  lemma VirtPathIs(page: nat)
    requires page < VIRT_PAGES
    ensures VirtPath(page) == [288, 0, page / 512, page % 512]
    ensures Aligned(VirtAddr(page)) && VirtAddr(page) % PAGE_SIZE == 0
  {
    PathOfPage(VirtAddr(page));
    assert VirtAddr(page) / 0x1000 == 0xF_FFF9_0000_0000 + page;
  }

  /** Pages of the window have paths of their own. */
  lemma VirtPathsDiffer(page: nat, page': nat)
    requires page < VIRT_PAGES && page' < VIRT_PAGES && page != page'
    ensures VirtPath(page) != VirtPath(page')
  {
    VirtPathIs(page);
    VirtPathIs(page');
    assert VirtPath(page)[2] == page / 512 && VirtPath(page)[3] == page % 512;
    assert VirtPath(page')[2] == page' / 512 && VirtPath(page')[3] == page' % 512;
  }

  // ---- Runs of pages, given by their paths ----

  ghost predicate Apart(ps: seq<Path>) {
    (forall i {:trigger ps[i]} :: 0 <= i < |ps| ==> |ps[i]| == 4) && forall i, j :: 0 <= i < j < |ps| ==> ps[i] != ps[j]
  }

  ghost predicate InRun(p: Path, ps: seq<Path>, vp: nat, n: nat)
    requires vp + n <= |ps|
  {
    exists i :: vp <= i < vp + n && p == ps[i]
  }

  /** A page for the kernel alone: it can be written, but not used in user mode. */
  ghost predicate KernelPage(m: Memory, root: nat, p: Path, f: nat)
    requires |p| == 4
  {
    && EntryAt(m, root, p[..3], p[3]) == Some(LeafEntry(f, WRITABLE, false))
    && Lets(m, root, p, WRITABLE) && !Lets(m, root, p, USER)
  }

  lemma KernelPageKept(m: Memory, m': Memory, root: nat, but: Path, p: Path, f: nat)
    requires |p| == 4 && KernelPage(m, root, p, f) && KeepsBut(m, m', root, but) &&
             (but == [] || (|but| == 4 && but != p))
    ensures KernelPage(m', root, p, f)
  {
    assert |but| > 0 ==> !(but <= p);
    LetsKept(m, m', root, but, p, WRITABLE);
    KernelLeaf();
    KeptEntry(m, m', root, but, p[..3], p[3]);
    if Lets(m', root, p, USER) { LetsEntry(m', root, p, USER, 3); }
  }

  lemma KernelLeaf()
    ensures (WRITABLE | PRESENT) & 1 != 0 && (WRITABLE | PRESENT) & USER != USER
    ensures WRITABLE & WRITABLE != 0 && WRITABLE & USER == 0
  {
  }

  /** From m0 to m the first n pages from vp on have been mapped to the frames from f on, and nothing else moved. */
  ghost predicate RunMapped(m0: Memory, m: Memory, root: nat, ps: seq<Path>, vp: nat, n: nat, f: nat)
    requires vp + n <= |ps| && Apart(ps)
  {
    && (forall i {:trigger ps[i]} :: vp <= i < vp + n ==>
          Translate(m0, root, ps[i]) == None && Translate(m, root, ps[i]) == Some(f + i - vp) &&
            Table(m, root, ps[i][..3]).Some? && KernelPage(m, root, ps[i], f + i - vp))
    && forall p: Path {:trigger Translate(m, root, p)} :: |p| == 4 && !InRun(p, ps, vp, n) ==>
         Translate(m, root, p) == Translate(m0, root, p)
  }

  ghost predicate AnyMapped(m: Memory, root: nat, ps: seq<Path>, vp: nat, n: nat)
    requires vp + n <= |ps| && Apart(ps)
  {
    exists i {:trigger ps[i]} :: vp <= i < vp + n && Translate(m, root, ps[i]).Some?
  }

  lemma TablesKept(m: Memory, m': Memory, root: nat, free: set<nat>, free': set<nat>)
    requires Grown(m, m', root, free, free')
    ensures forall p: Path {:trigger Table(m', root, p)} :: |p| <= 3 && Table(m, root, p).Some? ==>
              Table(m', root, p).Some?
  {
    forall p: Path | |p| <= 3 && Table(m, root, p).Some? ensures Table(m', root, p).Some? {
      TableStays(m, m', root, free, free', p, Table(m, root, p).value);
    }
  }

  /** One page more. */
  lemma RunGrows(m0: Memory, m: Memory, m': Memory, root: nat, free: set<nat>, free': set<nat>, ps: seq<Path>, vp: nat,
                 n: nat, f: nat)
    requires vp + n < |ps| && Apart(ps) && RunMapped(m0, m, root, ps, vp, n, f)
    requires Grown(m, m', root, free, free') && Translate(m, root, ps[vp + n]) == None
    requires Remapped(m, m', root, ps[vp + n], Some(f + n)) && Table(m', root, ps[vp + n][..3]).Some?
    requires KeepsBut(m, m', root, []) && KernelPage(m', root, ps[vp + n], f + n)
    ensures RunMapped(m0, m', root, ps, vp, n + 1, f)
  {
    TablesKept(m, m', root, free, free');
    assert !InRun(ps[vp + n], ps, vp, n);
    forall i {:trigger ps[i]} | vp <= i < vp + n
      ensures Translate(m', root, ps[i]) == Translate(m, root, ps[i]) && KernelPage(m', root, ps[i], f + i - vp)
    {
      assert ps[i] != ps[vp + n];
      KernelPageKept(m, m', root, [], ps[i], f + i - vp);
    }
    forall p: Path | |p| == 4 && !InRun(p, ps, vp, n + 1) ensures Translate(m', root, p) == Translate(m0, root, p) {
      assert p != ps[vp + n];
      assert !InRun(p, ps, vp, n);
    }
  }

  /** One page less: unmapping the last page of the run. */
  lemma RunShrinks(m0: Memory, m: Memory, m': Memory, root: nat, free: set<nat>, ps: seq<Path>, vp: nat, n: nat, f: nat)
    requires vp + n < |ps| && Apart(ps) && RunMapped(m0, m, root, ps, vp, n + 1, f)
    requires Grown(m, m', root, free, free) && Remapped(m, m', root, ps[vp + n], None)
    requires KeepsBut(m, m', root, ps[vp + n])
    ensures RunMapped(m0, m', root, ps, vp, n, f)
  {
    TablesKept(m, m', root, free, free);
    forall i {:trigger ps[i]} | vp <= i < vp + n ensures KernelPage(m', root, ps[i], f + i - vp) {
      KernelPageKept(m, m', root, ps[vp + n], ps[i], f + i - vp);
    }
    forall p: Path | |p| == 4 && !InRun(p, ps, vp, n) ensures Translate(m', root, p) == Translate(m0, root, p) {
      if p == ps[vp + n] { assert Translate(m0, root, ps[vp + n]) == None; } else { assert !InRun(p, ps, vp, n + 1); }
    }
  }

  /** A page is small exactly when it is mapped and its last-level table is there. */
  lemma SmallPageIs(m: Memory, root: nat, p: Path)
    requires |p| == 4
    ensures SmallPage(m, root, p) <==> Table(m, root, p[..3]).Some? && Translate(m, root, p).Some?
    ensures SmallPage(m, root, p) ==> !LargePage(m, root, p)
    ensures Translate(m, root, p).Some? && !SmallPage(m, root, p) ==> LargePage(m, root, p)
  {
    Walk(m, root, p, 2);
  }

  /** A page of the run is a small one. */
  lemma RunIsSmall(m0: Memory, m: Memory, root: nat, ps: seq<Path>, vp: nat, n: nat, f: nat, i: nat)
    requires vp + n <= |ps| && Apart(ps) && RunMapped(m0, m, root, ps, vp, n, f)
    requires vp <= i < vp + n
    ensures SmallPage(m, root, ps[i])
  {
    SmallPageIs(m, root, ps[i]);
  }

  // ---- The window ----

  ghost function WindowPaths(): (ps: seq<Path>)
    ensures |ps| == VIRT_PAGES
  {
    seq(VIRT_PAGES, page requires 0 <= page < VIRT_PAGES => VirtPath(page))
  }

  lemma WindowApart()
    ensures Apart(WindowPaths()) && forall i {:trigger WindowPaths()[i]} :: 0 <= i < VIRT_PAGES ==>
            WindowPaths()[i][3] < 512
  {
    forall i, j | 0 <= i < j < VIRT_PAGES ensures WindowPaths()[i] != WindowPaths()[j] { VirtPathsDiffer(i, j); }
  }

  /** The path of a page of the window, as the paging operations compute it from its address. */
  lemma WindowPath(page: nat)
    requires page < VIRT_PAGES
    ensures WindowPaths()[page] == PathOf(VirtAddr(page)) && Aligned(VirtAddr(page))
  {
    VirtPathIs(page);
  }

  /** Frames taken for a run and then given back: the tree is sound with them free again. */
  lemma RunReturned(m0: Memory, m: Memory, root: nat, free0: set<nat>, free2: set<nat>, f: nat, count: nat)
    requires FreeRun(free0, f, count) && TreeOk(m0, root, free0) && TreeOk(m, root, free2)
    requires Grown(m0, m, root, AfterRun(free0, f, count, true), free2)
    ensures var free3 := AfterRun(free2, f, count, false); TreeOk(m, root, free3) && Grown(m0, m, root, free0, free3)
  {
    assert Opened(true);
    var free1, free3 := AfterRun(free0, f, count, true), AfterRun(free2, f, count, false);
    forall p: nat ensures p in free1 <==> p in free0 && !(f <= p < f + count) { AfterRunAt(free0, f, count, true, p); }
    forall p: nat ensures p in free3 <==> p in free2 || f <= p < f + count { AfterRunAt(free2, f, count, false, p); }
    assert free3 <= free0;
    forall p: Path, t: nat | At(m, root, p, t) ensures t !in free3 && (At(m0, root, p, t) || t in free0 - free3) {
      assert At(m0, root, p, t) || t in free1 - free2;
    }
    forall t: nat | t < |m0| && t !in free0 && !IsTable(m0, root, t) ensures m[t] == m0[t] { assert t !in free1; }
  }

  class VirtualWindow {
    const mmu: Mmu
    const bits: Bitmap

    constructor (mmu: Mmu, bits: Bitmap)
      ensures this.mmu == mmu && this.bits == bits
    {
      this.mmu, this.bits := mmu, bits;
    }

    ghost predicate Valid()
      reads this, mmu, mmu.phys, mmu.phys.bits, mmu.phys.bits.bytes, bits, bits.bytes
    {
      && mmu.Valid() && bits.Valid() && bits.pages == VIRT_PAGES
      && bits != mmu.phys.bits && bits.bytes != mmu.phys.bits.bytes
    }

    /** The same, but for that tables may lie in frames that are free. */
    ghost predicate Loose()
      reads this, mmu, mmu.phys, mmu.phys.bits, mmu.phys.bits.bytes, bits, bits.bytes
    {
      && mmu.phys.Valid() && 0 !in mmu.phys.bits.free && mmu.Walkable({}) && bits.Valid() && bits.pages == VIRT_PAGES
      && bits != mmu.phys.bits && bits.bytes != mmu.phys.bits.bytes
    }

    lemma ValidIs()
      ensures Valid() <==> Loose() && HoldNoTable(mmu.frames, mmu.root, mmu.phys.bits.free)
    {
      TreeOkIs(mmu.frames, mmu.root, mmu.phys.bits.free);
    }

    /** Unmaps the first n pages of a run, last first. */
    method UnmapRun(vp: nat, n: nat, ghost m0: Memory, ghost f: nat)
      requires mmu.Valid() && vp + n <= VIRT_PAGES && Apart(WindowPaths()) &&
               RunMapped(m0, mmu.frames, mmu.root, WindowPaths(), vp, n, f)
      modifies mmu`frames
      ensures mmu.Valid() && Grown(old(mmu.frames), mmu.frames, mmu.root, mmu.phys.bits.free, mmu.phys.bits.free)
      ensures SameTranslation(m0, mmu.frames, mmu.root)
    {
      WindowApart();
      ghost var ps, m1, free := WindowPaths(), mmu.frames, mmu.phys.bits.free;
      KeptSame(m1, mmu.root, free);
      var i: nat := n;
      while i > 0
        invariant i <= n && mmu.Valid() && RunMapped(m0, mmu.frames, mmu.root, ps, vp, i, f)
        invariant Grown(m1, mmu.frames, mmu.root, free, free)
      {
        i := i - 1;
        ghost var m := mmu.frames;
        WindowPath(vp + i);
        RunIsSmall(m0, m, mmu.root, ps, vp, i + 1, f, vp + i);
        mmu.UnmapPage(VirtAddr(vp + i), mmu.phys.bits.free);
        RunShrinks(m0, m, mmu.frames, mmu.root, free, ps, vp, i, f);
        GrownTrans(m1, m, mmu.frames, mmu.root, free, free, free);
      }
      assert forall p: Path :: !InRun(p, ps, vp, 0);
    }

    /** Maps one more page of a run, or undoes the run. */
    method MapNext(vp: nat, i: nat, pa: nat, ghost m0: Memory, ghost f: nat) returns (ok: bool)
      requires mmu.Valid() && vp + i < VIRT_PAGES && pa == f * PAGE_SIZE && f + i < MAX_PAGES && Apart(WindowPaths())
      requires RunMapped(m0, mmu.frames, mmu.root, WindowPaths(), vp, i, f)
      modifies mmu`frames, mmu.phys`freePages, mmu.phys.bits`free, mmu.phys.bits.bytes
      ensures mmu.Valid() && Grown(old(mmu.frames), mmu.frames, mmu.root, old(mmu.phys.bits.free), mmu.phys.bits.free)
      ensures ok ==> RunMapped(m0, mmu.frames, mmu.root, WindowPaths(), vp, i + 1, f)
      ensures !ok ==> SameTranslation(m0, mmu.frames, mmu.root)
      ensures !ok ==> mmu.phys.bits.free == {} || Translate(m0, mmu.root, WindowPaths()[vp + i]).Some?
    {
      ghost var ps, m, free := WindowPaths(), mmu.frames, mmu.phys.bits.free;
      WindowPath(vp + i);
      var rc := mmu.MapPage(VirtAddr(vp + i), pa + i * PAGE_SIZE, WRITABLE, false);
      if rc == 0 {
        KernelLeaf();
        RunGrows(m0, m, mmu.frames, mmu.root, free, mmu.phys.bits.free, ps, vp, i, f);
        return true;
      }
      ghost var m2 := mmu.frames;
      RunStays(m0, m, m2, mmu.root, free, mmu.phys.bits.free, ps, vp, i, f);
      UnmapRun(vp, i, m0, f);
      GrownTrans(m, m2, mmu.frames, mmu.root, free, mmu.phys.bits.free, mmu.phys.bits.free);
      ok := false;
    }

    /** Maps a run of pages to a run of frames, or leaves every translation as it was. */
    method MapRun(vp: nat, count: nat, pa: nat, ghost f: nat) returns (ok: bool)
      requires mmu.Valid() && vp + count <= VIRT_PAGES && pa == f * PAGE_SIZE && f + count <= MAX_PAGES &&
               Apart(WindowPaths())
      modifies mmu`frames, mmu.phys`freePages, mmu.phys.bits`free, mmu.phys.bits.bytes
      ensures mmu.Valid() && Grown(old(mmu.frames), mmu.frames, mmu.root, old(mmu.phys.bits.free), mmu.phys.bits.free)
      ensures ok ==> RunMapped(old(mmu.frames), mmu.frames, mmu.root, WindowPaths(), vp, count, f)
      ensures !ok ==> SameTranslation(old(mmu.frames), mmu.frames, mmu.root)
      ensures !ok ==> mmu.phys.bits.free == {} || AnyMapped(old(mmu.frames), mmu.root, WindowPaths(), vp, count)
    {
      ghost var m0, free0 := mmu.frames, mmu.phys.bits.free;
      KeptSame(m0, mmu.root, free0);
      for i := 0 to count
        invariant mmu.Valid() && RunMapped(m0, mmu.frames, mmu.root, WindowPaths(), vp, i, f)
        invariant Grown(m0, mmu.frames, mmu.root, free0, mmu.phys.bits.free)
      {
        ghost var m, free := mmu.frames, mmu.phys.bits.free;
        ok := MapNext(vp, i, pa, m0, f);
        GrownTrans(m0, m, mmu.frames, mmu.root, free0, free, mmu.phys.bits.free);
        if !ok { return; }
      }
      ok := true;
    }

    /** Reserves a run of pages of the window without mapping anything. */
    method ReservePages(count: nat) returns (addr: nat, ghost vp: nat)
      requires Valid()
      modifies bits`free, bits.bytes
      ensures Valid() && addr == (if vp < VIRT_PAGES then VirtAddr(vp) else 0) && vp <= VIRT_PAGES
      ensures vp < VIRT_PAGES ==>
                count > 0 && FreeRun(old(bits.free), vp, count) &&
                bits.free == AfterRun(old(bits.free), vp, count, true)
      ensures vp == VIRT_PAGES ==> bits.free == old(bits.free)
      ensures count > 0 ==> forall s: nat :: s < vp ==> !FreeRun(old(bits.free), s, count)
    {
      vp := VIRT_PAGES;
      if count == 0 { return 0, vp; }
      var start := bits.FindRun(count);
      vp := start;
      if start >= VIRT_PAGES { return 0, vp; }
      bits.MarkRun(start, count, true);
      addr := VirtAddr(start);
    }

    /** Allocates a run of pages backed by frames, all or nothing: success maps the lowest free run of the window to
        the lowest run of free frames; failure leaves the window, every translation and every frame but those of
        new tables as they were. */
    method AllocPages(count: nat) returns (addr: nat, ghost vp: nat, ghost f: nat)
      requires Valid()
      modifies mmu`frames, mmu.phys`freePages, mmu.phys.bits`free, mmu.phys.bits.bytes, bits`free, bits.bytes
      ensures Valid()
      ensures addr != 0 ==>
                count > 0 && addr == VirtAddr(vp) &&
                Allocated(old(mmu.frames), mmu.frames, mmu.root, vp, count, f,
                              old(mmu.phys.bits.free), mmu.phys.bits.free, old(bits.free), bits.free)
      ensures addr == 0 ==> bits.free == old(bits.free) &&
                            Kept(old(mmu.frames), mmu.frames, mmu.root, old(mmu.phys.bits.free), mmu.phys.bits.free)
      ensures count == 0 ==> addr == 0
      ensures addr == 0 && count > 0 ==>
                Unallocatable(old(mmu.frames), mmu.frames, mmu.root, vp, count, f, old(mmu.phys.bits.free),
                              old(bits.free))
    {
      ghost var m0, free0, window0 := mmu.frames, mmu.phys.bits.free, bits.free;
      WindowApart();
      KeptSame(m0, mmu.root, free0);
      vp, f := 0, 0;
      if count == 0 { return 0, vp, f; }
      var start := bits.FindRun(count);
      vp := start;
      if start >= VIRT_PAGES {
        bits.RunsInRange(count);
        return 0, vp, f;
      }
      var pa;
      pa, f := mmu.phys.AllocPages(count);
      if pa == 0 {
        mmu.phys.bits.RunsInRange(count);
        return 0, vp, f;
      }
      RunTakenOk(m0, mmu.root, free0, f, count);
      bits.MarkRun(start, count, true);
      var ok := MapOrGiveBack(start, count, pa, f, m0, free0, window0);
      addr := if ok then VirtAddr(start) else 0;
    }

    /** Maps a run of the window to a run of frames, both just taken, or gives them back. */
    method MapOrGiveBack(start: nat, count: nat, pa: nat, ghost f: nat, ghost m0: Memory, ghost free0: set<nat>,
                         ghost window0: set<nat>) returns (ok: bool)
      requires Valid() && Apart(WindowPaths()) && count > 0 && start + count <= VIRT_PAGES && pa == f * PAGE_SIZE &&
               f + count <= MAX_PAGES
      requires mmu.frames == m0 && 0 !in free0 && TreeOk(m0, mmu.root, free0) && FreeRun(free0, f, count) &&
               FreeRun(window0, start, count)
      requires mmu.phys.bits.free == AfterRun(free0, f, count, true) &&
               bits.free == AfterRun(window0, start, count, true)
      modifies mmu`frames, mmu.phys`freePages, mmu.phys.bits`free, mmu.phys.bits.bytes, bits`free, bits.bytes
      ensures Valid()
      ensures ok ==>
                bits.free == AfterRun(window0, start, count, true) &&
                RunMapped(m0, mmu.frames, mmu.root, WindowPaths(), start, count, f) &&
                     Grown(m0, mmu.frames, mmu.root, AfterRun(free0, f, count, true), mmu.phys.bits.free)
      ensures !ok ==> bits.free == window0 && Kept(m0, mmu.frames, mmu.root, free0, mmu.phys.bits.free) &&
                      (AnyMapped(m0, mmu.root, WindowPaths(), start, count) ||
                        OnlyTablesLeft(mmu.frames, mmu.root, free0, f, count))
    {
      ok := MapRun(start, count, pa, f);
      if ok { return; }
      ghost var free2 := mmu.phys.bits.free;
      if free2 == {} { AllTables(m0, mmu.frames, mmu.root, free0, f, count); }
      RunRestored(window0, start, count);
      RunReturned(m0, mmu.frames, mmu.root, free0, free2, f, count);
      GiveBack(start, count, pa);
    }

    /** Marks a run of the window free and gives back a run of frames. */
    method GiveBack(start: nat, count: nat, pa: nat)
      requires bits.Valid() && mmu.phys.Valid() && bits != mmu.phys.bits && bits.bytes != mmu.phys.bits.bytes &&
               start + count <= bits.pages
      modifies mmu.phys`freePages, mmu.phys.bits`free, mmu.phys.bits.bytes, bits`free, bits.bytes
      ensures bits.Valid() && bits.free == AfterRun(old(bits.free), start, count, false)
      ensures mmu.phys.Valid()
      ensures var f := pa / PAGE_SIZE;
              mmu.phys.bits.free == AfterRun(old(mmu.phys.bits.free), f, Fitting(f, count), false)
    {
      bits.MarkRun(start, count, false);
      mmu.phys.FreePages(pa, count);
    }

    ghost function Now(): (s: State)
      reads this, mmu, mmu.phys.bits, bits
      ensures s.frames == mmu.frames && s.free == mmu.phys.bits.free && s.window == bits.free
    {
      State(mmu.frames, mmu.phys.bits.free, bits.free)
    }

    /** Frees one page of the window: unmaps it, gives its frame back, and marks it free. */
    method FreePage(page: nat)
      requires Loose() && page < VIRT_PAGES
      modifies mmu`frames, mmu.phys`freePages, mmu.phys.bits`free, mmu.phys.bits.bytes, bits`free, bits.bytes
      ensures Loose() && PageFreed(old(Now()), Now(), mmu.root, page)
    {
      ghost var m := mmu.frames;
      VirtPathIs(page);
      SmallPageIs(m, mmu.root, VirtPath(page));
      KeptSame(m, mmu.root, {});
      GrownSameTables(m, m, mmu.root, {});
      var pa := mmu.GetPhys(VirtAddr(page), {});
      if pa != 0 {
        mmu.UnmapPage(VirtAddr(page), {});
        GrownSameTables(m, mmu.frames, mmu.root, {});
        mmu.phys.FreePage(pa);
      }
      bits.MarkFree(page);
    }

    /** Frees pages of the window, up to its end. */
    method FreeRunFrom(vp: nat, count: nat) returns (ghost n: nat)
      requires Loose() && vp < VIRT_PAGES
      modifies mmu`frames, mmu.phys`freePages, mmu.phys.bits`free, mmu.phys.bits.bytes, bits`free, bits.bytes
      ensures Loose() && n == UpToEnd(vp, count)
      ensures RunFreed(old(Now()), Now(), mmu.root, vp, n)
    {
      ghost var s0 := Now();
      RunFreedNone(s0, mmu.root, vp);
      var i := 0;
      while i < count && vp + i < VIRT_PAGES
        invariant i <= count && vp + i <= VIRT_PAGES && Loose() && RunFreed(s0, Now(), mmu.root, vp, i)
      {
        FreeNext(vp, i, s0);
        i := i + 1;
      }
      n := i;
    }

    method FreeNext(vp: nat, i: nat, ghost s0: State)
      requires Loose() && vp + i < VIRT_PAGES && RunFreed(s0, Now(), mmu.root, vp, i)
      modifies mmu`frames, mmu.phys`freePages, mmu.phys.bits`free, mmu.phys.bits.bytes, bits`free, bits.bytes
      ensures Loose() && RunFreed(s0, Now(), mmu.root, vp, i + 1)
    {
      ghost var s := Now();
      FreePage(vp + i);
      RunFreedNext(s0, s, Now(), mmu.root, vp, i);
    }

    /** Frees pages of the window, ignoring an address outside it or not page-aligned, and what lies beyond its end.
        Page tables stay out of free frames if and only if no frame given back holds one. */
    method FreePages(addr: nat, count: nat)
      requires Loose()
      modifies mmu`frames, mmu.phys`freePages, mmu.phys.bits`free, mmu.phys.bits.bytes, bits`free, bits.bytes
      ensures Loose() && RunFreed(old(Now()), Now(), mmu.root, SpanStart(addr), SpanCount(addr, count))
      ensures Valid() <==>
              old(Valid()) && AllFreeable(old(mmu.frames), mmu.root, SpanStart(addr), SpanCount(addr, count))
    {
      ghost var s := Now();
      ValidIs();
      FreeSpan(addr, count);
      ValidIs();
      RunFreedTables(s, Now(), mmu.root, SpanStart(addr), SpanCount(addr, count));
    }

    method FreeSpan(addr: nat, count: nat)
      requires Loose()
      modifies mmu`frames, mmu.phys`freePages, mmu.phys.bits`free, mmu.phys.bits.bytes, bits`free, bits.bytes
      ensures Loose() && RunFreed(old(Now()), Now(), mmu.root, SpanStart(addr), SpanCount(addr, count))
    {
      RunFreedNone(Now(), mmu.root, SpanStart(addr));
      if addr == 0 || count == 0 { return; }
      if addr < VIRT_BASE || addr >= VIRT_BASE + VIRT_PAGES * PAGE_SIZE { return; }
      if !Aligned(addr) { return; }
      ghost var n := FreeRunFrom((addr - VIRT_BASE) / PAGE_SIZE, count);
    }
  }

  /** The frames, the free ones among them, and the free pages of the window. */
  datatype State = State(frames: Memory, free: set<nat>, window: set<nat>)

  /** From s to s' one page of the window has been freed. */
  ghost predicate PageFreed(s: State, s': State, root: nat, page: nat) {
    forall x {:trigger Opened(x)} :: Opened(x) ==>
      && SameTables(s.frames, s'.frames, root) && s'.window == s.window + {page}
      && Remapped(s.frames, s'.frames, root, VirtPath(page), Remains(s.frames, root, VirtPath(page)))
      && s'.free == s.free + Backing(s.frames, root, VirtPath(page))
  }

  /** From s0 to s the n pages from vp on have been marked free, the small ones unmapped, their frames given back, and
      no other translation changed. */
  ghost predicate RunFreed(s0: State, s: State, root: nat, vp: nat, n: nat) {
    forall x {:trigger Opened(x)} :: Opened(x) ==>
      && SameTables(s0.frames, s.frames, root) && Released(s0.frames, s.frames, root, vp, n)
      && s.window == AfterRun(s0.window, vp, n, false)
      && s.free == GivenBack(s0.free, s0.frames, root, vp, n)
  }

  ghost predicate AllFreeable(m: Memory, root: nat, vp: nat, n: nat) {
    forall page: nat {:trigger VirtPath(page)} :: vp <= page < vp + n ==> Freeable(m, root, VirtPath(page))
  }

  lemma RunFreedNone(s: State, root: nat, vp: nat)
    ensures RunFreed(s, s, root, vp, 0)
  {
    ReleasedNone(s.frames, root, vp);
  }

  lemma RunFreedNext(s0: State, s: State, s': State, root: nat, vp: nat, i: nat)
    requires vp + i < VIRT_PAGES && RunFreed(s0, s, root, vp, i) && PageFreed(s, s', root, vp + i)
    ensures RunFreed(s0, s', root, vp, i + 1)
  {
    assert Opened(true);
    NotYetFreed(s0, s, root, vp, i);
    ReleasedNext(s0.frames, s.frames, s'.frames, root, vp, i);
  }

  lemma ReleasedNone(m: Memory, root: nat, vp: nat)
    ensures Released(m, m, root, vp, 0) && SameTables(m, m, root)
  {
  }

  predicate InWindow(addr: nat) { VIRT_BASE <= addr < VIRT_BASE + VIRT_PAGES * PAGE_SIZE && Aligned(addr) }

  /** The pages that a request to free covers: the first, and how many. */
  function SpanStart(addr: nat): nat { if InWindow(addr) then (addr - VIRT_BASE) / PAGE_SIZE else 0 }

  function SpanCount(addr: nat, count: nat): nat {
    if InWindow(addr) then UpToEnd(SpanStart(addr), count) else 0
  }

  function UpToEnd(vp: nat, count: nat): nat
    requires vp <= VIRT_PAGES
  {
    if vp + count <= VIRT_PAGES then count else VIRT_PAGES - vp
  }

  /** Which pages of the window a request to free covers: for an aligned address in the window, those whose addresses
      are among the ones asked for; for any other, none. */
  lemma SpanPages(addr: nat, count: nat, page: nat)
    ensures SpanStart(addr) <= page < SpanStart(addr) + SpanCount(addr, count) <==>
            && addr % 4096 == 0 && VirtAddr(0) <= addr <= VirtAddr(page) < addr + 4096 * count && page < VIRT_PAGES
  {
    if InWindow(addr) { assert addr == VirtAddr(SpanStart(addr)); }
  }

  ghost predicate SameTables(m: Memory, m': Memory, root: nat) {
    |m'| == |m| && forall p: Path, t: nat {:trigger At(m', root, p, t)} {:trigger At(m, root, p, t)} ::
        At(m', root, p, t) == At(m, root, p, t)
  }

  lemma GrownSameTables(m: Memory, m': Memory, root: nat, free: set<nat>)
    requires Grown(m, m', root, free, free)
    ensures SameTables(m, m', root)
  {
    assert Opened(true);
  }

  /** The frame that freeing a page gives back, if any, holds no table. */
  ghost predicate Freeable(m: Memory, root: nat, p: Path)
    requires |p| == 4
  {
    HoldNoTable(m, root, Backing(m, root, p))
  }

  ghost predicate HoldNoTable(m: Memory, root: nat, fs: set<nat>) {
    forall f {:trigger IsTable(m, root, f)} :: f in fs ==> !IsTable(m, root, f)
  }

  /** That tables lie in frames in use is all that the tree asks of the allocator. */
  lemma TreeOkIs(m: Memory, root: nat, free: set<nat>)
    ensures TreeOk(m, root, free) <==> TreeOk(m, root, {}) && HoldNoTable(m, root, free)
  {
    assert Opened(true);
    if TreeOk(m, root, free) {
      forall f | f in free ensures !IsTable(m, root, f) { assert forall p: Path :: At(m, root, p, f) ==> f !in free; }
    }
    if TreeOk(m, root, {}) && HoldNoTable(m, root, free) {
      forall p: Path, t: nat | At(m, root, p, t) ensures t !in free { assert IsTable(m, root, t); }
    }
  }

  /** What a page leads to once it has been freed: unmapping does nothing to a large page, and a page mapped to frame 0
      reads as unmapped to the kernel. */
  ghost function Remains(m: Memory, root: nat, p: Path): Option<nat>
    requires |p| == 4
  {
    var f := Translate(m, root, p);
    if SmallPage(m, root, p) && f != Some(0) then None else f
  }

  ghost function Backing(m: Memory, root: nat, p: Path): set<nat>
    requires |p| == 4
  {
    match Translate(m, root, p)
    case None => {}
    case Some(f) => if f != 0 && f < MAX_PAGES then {f} else {}
  }

  /** The free frames once those behind the n pages from vp on have been given back. */
  ghost function GivenBack(free: set<nat>, m: Memory, root: nat, vp: nat, n: nat): set<nat> {
    if n == 0 then free else GivenBack(free, m, root, vp, n - 1) + Backing(m, root, VirtPath(vp + n - 1))
  }

  /** From m0 to m the small ones of the n pages from vp on have been unmapped, and nothing else moved. */
  ghost predicate Released(m0: Memory, m: Memory, root: nat, vp: nat, n: nat) {
    forall p: Path {:trigger Translate(m, root, p)} :: |p| == 4 ==>
      Translate(m, root, p) == if OfRun(p, vp, n) then Remains(m0, root, p) else Translate(m0, root, p)
  }

  ghost predicate OfRun(p: Path, vp: nat, n: nat) {
    exists page {:trigger VirtPath(page)} :: vp <= page < vp + n && p == VirtPath(page)
  }

  lemma {:induction false} GivenBackAt(free: set<nat>, m: Memory, root: nat, vp: nat, n: nat, f: nat)
    ensures f in GivenBack(free, m, root, vp, n) <==>
            f in free || exists page {:trigger VirtPath(page)} ::
                vp <= page < vp + n && f in Backing(m, root, VirtPath(page))
  {
    if n > 0 {
      GivenBackAt(free, m, root, vp, n - 1, f);
      assert f in Backing(m, root, VirtPath(vp + n - 1)) ==> f in GivenBack(free, m, root, vp, n);
    }
  }

  /** After freeing a run no table lies in a free frame exactly when none did and no frame given back holds one. */
  lemma RunFreedTables(s0: State, s: State, root: nat, vp: nat, n: nat)
    requires RunFreed(s0, s, root, vp, n)
    ensures HoldNoTable(s.frames, root, s.free) <==>
            HoldNoTable(s0.frames, root, s0.free) && AllFreeable(s0.frames, root, vp, n)
  {
    assert Opened(true);
    forall f: nat
      ensures IsTable(s.frames, root, f) <==> IsTable(s0.frames, root, f)
      ensures f in s.free <==> f in s0.free || exists page {:trigger VirtPath(page)} ::
                vp <= page < vp + n && f in Backing(s0.frames, root, VirtPath(page))
    {
      GivenBackAt(s0.free, s0.frames, root, vp, n, f);
      assert forall p: Path :: At(s.frames, root, p, f) == At(s0.frames, root, p, f);
    }
    if HoldNoTable(s.frames, root, s.free) {
      forall page: nat | vp <= page < vp + n ensures Freeable(s0.frames, root, VirtPath(page)) {}
    }
  }

  /** A page of the window that has been freed is still mapped exactly when it lies in a 2 MiB page or was mapped to
      frame 0: it leads where it did, and in the first case that frame is free, if it is one the allocator knows. */
  lemma StillMapped(s0: State, s: State, root: nat, vp: nat, n: nat, page: nat)
    requires RunFreed(s0, s, root, vp, n) && vp <= page < vp + n <= VIRT_PAGES
    ensures var p := VirtPath(page);
            var f0, f := Translate(s0.frames, root, p), Translate(s.frames, root, p);
            && (f.Some? <==> LargePage(s0.frames, root, p) || f0 == Some(0)) && (f.Some? ==> f == f0)
            && (f.Some? && 0 < f.value < MAX_PAGES ==> f.value in s.free)
  {
    assert Opened(true);
    var p := VirtPath(page);
    VirtPathIs(page);
    assert OfRun(p, vp, n);
    SmallPageIs(s0.frames, root, p);
    if LargePage(s0.frames, root, p) { LargeMapped(s0.frames, root, p); }
    if Translate(s0.frames, root, p).Some? {
      GivenBackAt(s0.free, s0.frames, root, vp, n, Translate(s0.frames, root, p).value);
    }
  }

  /** The next page of a run is as it was. */
  lemma NotYetFreed(s0: State, s: State, root: nat, vp: nat, i: nat)
    requires vp + i < VIRT_PAGES && RunFreed(s0, s, root, vp, i)
    ensures Translate(s.frames, root, VirtPath(vp + i)) == Translate(s0.frames, root, VirtPath(vp + i))
    ensures Remains(s.frames, root, VirtPath(vp + i)) == Remains(s0.frames, root, VirtPath(vp + i))
  {
    assert Opened(true);
    var p := VirtPath(vp + i);
    assert !OfRun(p, vp, i) by {
      forall page | vp <= page < vp + i ensures p != VirtPath(page) { VirtPathsDiffer(page, vp + i); }
    }
    SmallPageIs(s0.frames, root, p);
    SmallPageIs(s.frames, root, p);
    SameTable(s0.frames, s.frames, root, p[..3]);
  }

  lemma SameTable(m: Memory, m': Memory, root: nat, p: Path)
    requires SameTables(m, m', root) && |p| <= 3
    ensures Table(m', root, p) == Table(m, root, p)
  {
    if Table(m, root, p).Some? { assert At(m, root, p, Table(m, root, p).value); }
    if Table(m', root, p).Some? { assert At(m', root, p, Table(m', root, p).value); }
  }

  lemma ReleasedNext(m0: Memory, m: Memory, m': Memory, root: nat, vp: nat, i: nat)
    requires vp + i < VIRT_PAGES && Released(m0, m, root, vp, i)
    requires Translate(m, root, VirtPath(vp + i)) == Translate(m0, root, VirtPath(vp + i))
    requires Remains(m, root, VirtPath(vp + i)) == Remains(m0, root, VirtPath(vp + i))
    requires Remapped(m, m', root, VirtPath(vp + i), Remains(m, root, VirtPath(vp + i)))
    ensures Released(m0, m', root, vp, i + 1)
  {
    forall p: Path | |p| == 4
      ensures Translate(m', root, p) ==
              if OfRun(p, vp, i + 1) then Remains(m0, root, p) else Translate(m0, root, p)
    {
      if p == VirtPath(vp + i) {
        assert OfRun(p, vp, i + 1);
      } else if OfRun(p, vp, i + 1) {
        var page :| vp <= page < vp + i + 1 && p == VirtPath(page);
        assert page != vp + i && OfRun(p, vp, i);
      }
    }
  }

  /** A run of count pages from vp on has been mapped to the frames from f on, which were free. */
  ghost predicate Allocated(m0: Memory, m: Memory, root: nat, vp: nat, count: nat, f: nat,
                            free0: set<nat>, free: set<nat>, window0: set<nat>, window: set<nat>) {
    && vp + count <= VIRT_PAGES && Apart(WindowPaths()) && RunMapped(m0, m, root, WindowPaths(), vp, count, f)
    && FreeRun(free0, f, count) && (forall s: nat :: s < f ==> !FreeRun(free0, s, count))
    && Grown(m0, m, root, AfterRun(free0, f, count, true), free)
    && FreeRun(window0, vp, count) && window == AfterRun(window0, vp, count, true)
    && (forall s: nat :: s < vp ==> !FreeRun(window0, s, count))
  }

  /** Why an allocation fails: no run of pages, no run of frames, a page of the run is mapped already, or every other
      free frame has gone into tables. */
  ghost predicate Unallocatable(m0: Memory, m: Memory, root: nat, vp: nat, count: nat, f: nat, free0: set<nat>,
                                window0: set<nat>) {
    || NoRun(window0, count) || NoRun(free0, count)
    || (vp + count <= VIRT_PAGES && Apart(WindowPaths()) && AnyMapped(m0, root, WindowPaths(), vp, count))
    || OnlyTablesLeft(m, root, free0, f, count)
  }

  /** Every frame that was free, but for a run of them, has become a table. */
  ghost predicate OnlyTablesLeft(m: Memory, root: nat, free0: set<nat>, f: nat, count: nat) {
    forall p: nat {:trigger IsTable(m, root, p)} :: p in free0 && !(f <= p < f + count) ==> IsTable(m, root, p)
  }

  lemma AllTables(m0: Memory, m: Memory, root: nat, free0: set<nat>, f: nat, count: nat)
    requires Grown(m0, m, root, AfterRun(free0, f, count, true), {})
    ensures OnlyTablesLeft(m, root, free0, f, count)
  {
    assert Opened(true);
    forall p: nat | p in free0 && !(f <= p < f + count) ensures IsTable(m, root, p) {
      AfterRunAt(free0, f, count, true, p);
    }
  }

  lemma RunTakenOk(m: Memory, root: nat, free: set<nat>, f: nat, count: nat)
    requires TreeOk(m, root, free)
    ensures TreeOk(m, root, AfterRun(free, f, count, true)) && AfterRun(free, f, count, true) <= free
  {
    assert Opened(true);
    var free' := AfterRun(free, f, count, true);
    forall p: nat ensures p in free' ==> p in free { AfterRunAt(free, f, count, true, p); }
  }

  // ---- Freeing undoes allocating ----

  /** A run just allocated can be freed: its frames hold no table. */
  lemma AllocatedFreeable(m0: Memory, m: Memory, root: nat, vp: nat, count: nat, f: nat,
                          free0: set<nat>, free: set<nat>, window0: set<nat>, window: set<nat>)
    requires Allocated(m0, m, root, vp, count, f, free0, free, window0, window)
    requires TreeOk(m0, root, free0)
    ensures AllFreeable(m, root, vp, count)
  {
    forall page: nat | vp <= page < vp + count ensures Freeable(m, root, VirtPath(page)) {
      var p := WindowPaths()[page];
      assert p == VirtPath(page);
      NoTableInRun(m0, m, root, free0, free, f, count, f + page - vp);
    }
  }

  lemma NoTableInRun(m0: Memory, m: Memory, root: nat, free0: set<nat>, free: set<nat>, f: nat, count: nat, t: nat)
    requires TreeOk(m0, root, free0) && FreeRun(free0, f, count) && f <= t < f + count
    requires Grown(m0, m, root, AfterRun(free0, f, count, true), free)
    ensures !IsTable(m, root, t)
  {
    assert Opened(true);
    AfterRunAt(free0, f, count, true, t);
    assert t in free0;
    forall p: Path ensures !At(m, root, p, t) { assert !At(m0, root, p, t); }
  }

  /** Allocating a run and then freeing it restores every translation and the window, and gives the frames back; what
      is not given back are the frames of tables made on the way. */
  lemma AllocThenFree(m0: Memory, s1: State, s2: State, root: nat, vp: nat, count: nat, f: nat, free0: set<nat>,
                      window0: set<nat>)
    requires Allocated(m0, s1.frames, root, vp, count, f, free0, s1.free, window0, s1.window)
    requires RunFreed(s1, s2, root, vp, count) && 0 !in free0 && forall p :: p in free0 ==> p < MAX_PAGES
    ensures SameTranslation(m0, s2.frames, root) && s2.window == window0
    ensures s2.free == AfterRun(s1.free, f, count, false)
  {
    assert Opened(true);
    RunRestored(window0, vp, count);
    WindowApart();
    var ps := WindowPaths();
    forall p: Path | |p| == 4 ensures Translate(s2.frames, root, p) == Translate(m0, root, p) {
      if OfRun(p, vp, count) {
        var page :| vp <= page < vp + count && p == VirtPath(page);
        assert p == ps[page] && f + page - vp in free0;
        RunIsSmall(m0, s1.frames, root, ps, vp, count, f, page);
      } else {
        forall i | vp <= i < vp + count ensures p != ps[i] { assert ps[i] == VirtPath(i); }
        assert !InRun(p, ps, vp, count);
      }
    }
    forall i: nat | i < count ensures Backed(s1.frames, root, vp, f, i) {
      PageBacking(m0, s1, root, vp, count, i, f, free0);
    }
    RunBacking(s1.free, s1.frames, root, vp, count, f);
  }

  ghost predicate Backed(m: Memory, root: nat, vp: nat, f: nat, i: nat) {
    Backing(m, root, VirtPath(vp + i)) == {f + i}
  }

  lemma {:induction false} RunBacking(free: set<nat>, m: Memory, root: nat, vp: nat, n: nat, f: nat)
    requires forall i: nat :: i < n ==> Backed(m, root, vp, f, i)
    ensures GivenBack(free, m, root, vp, n) == AfterRun(free, f, n, false)
  {
    if n > 0 {
      RunBacking(free, m, root, vp, n - 1, f);
      assert Backed(m, root, vp, f, n - 1);
    }
  }

  lemma PageBacking(m0: Memory, s1: State, root: nat, vp: nat, count: nat, i: nat, f: nat, free0: set<nat>)
    requires i < count && vp + count <= VIRT_PAGES && Apart(WindowPaths())
    requires RunMapped(m0, s1.frames, root, WindowPaths(), vp, count, f) && FreeRun(free0, f, count)
    requires 0 !in free0 && forall p :: p in free0 ==> p < MAX_PAGES
    ensures Backing(s1.frames, root, VirtPath(vp + i)) == {f + i}
  {
    assert WindowPaths()[vp + i] == VirtPath(vp + i);
    assert f + i in free0;
  }

  lemma RunStays(m0: Memory, m: Memory, m': Memory, root: nat, free: set<nat>, free': set<nat>, ps: seq<Path>, vp: nat,
                 n: nat, f: nat)
    requires vp + n < |ps| && Apart(ps) && RunMapped(m0, m, root, ps, vp, n, f)
    requires Grown(m, m', root, free, free') && SameTranslation(m, m', root) && KeepsBut(m, m', root, [])
    ensures RunMapped(m0, m', root, ps, vp, n, f)
    ensures Translate(m, root, ps[vp + n]) == Translate(m0, root, ps[vp + n])
  {
    TablesKept(m, m', root, free, free');
    forall i {:trigger ps[i]} | vp <= i < vp + n ensures KernelPage(m', root, ps[i], f + i - vp) {
      KernelPageKept(m, m', root, [], ps[i], f + i - vp);
    }
    assert !InRun(ps[vp + n], ps, vp, n);
  }

  // ---- A run that breaks the page tables ----

  /** Memory of empty frames, in which the root is the only table and nothing is mapped. */
  lemma BareTree(m: Memory, root: nat, free: set<nat>)
    requires root < |m| && root !in free && m[root] == ZeroFrame()
    ensures TreeOk(m, root, free) && forall p: Path {:trigger Translate(m, root, p)} :: |p| == 4 ==>
                Translate(m, root, p) == None
  {
    assert Opened(true);
    forall p: Path | |p| >= 1 ensures Table(m, root, p) == None { NothingThere(m, root, p); }
    forall p: Path, t: nat | At(m, root, p, t) ensures p == [] && t == root {}
    NoEntry();
    forall p: Path, i: nat | EntryAt(m, root, p, i).Some? ensures EntryAt(m, root, p, i).value == EMPTY {
      assert p == [];
    }
    forall p: Path | |p| == 4 ensures Translate(m, root, p) == None {
      assert Table(m, root, p[..3]) == None && Table(m, root, p[..2]) == None;
    }
  }

  lemma NoEntry()
    ensures !Present(EMPTY)
  {
  }

  lemma {:induction false} NothingThere(m: Memory, root: nat, p: Path)
    requires root < |m| && m[root] == ZeroFrame() && |p| >= 1
    ensures Table(m, root, p) == None
  {
    var q, i := p[..|p| - 1], p[|p| - 1];
    NoEntry();
    if |p| > 1 {
      NothingThere(m, root, q);
    } else {
      assert q == [] && Table(m, root, q) == Some(root);
    }
    assert EntryAt(m, root, q, i).Some? ==> EntryAt(m, root, q, i).value == EMPTY;
  }

  /** Freeing a page that leads to the root table makes the root table's frame free. */
  method FreeMappedRoot(w: VirtualWindow)
    requires w.Loose() && 0 < w.mmu.root < MAX_PAGES &&
             Translate(w.mmu.frames, w.mmu.root, VirtPath(0)) == Some(w.mmu.root)
    modifies w.mmu`frames, w.mmu.phys`freePages, w.mmu.phys.bits`free, w.mmu.phys.bits.bytes, w.bits`free, w.bits.bytes
    ensures w.Loose() && !w.Valid() && w.mmu.phys.bits.free == old(w.mmu.phys.bits.free) + {w.mmu.root}
  {
    assert Opened(true);
    ghost var m, root, free := w.mmu.frames, w.mmu.root, w.mmu.phys.bits.free;
    w.FreePages(VirtAddr(0), 1);
    assert SpanStart(VirtAddr(0)) == 0 && SpanCount(VirtAddr(0), 1) == 1;
    assert GivenBack(free, m, root, 0, 1) == GivenBack(free, m, root, 0, 0) + {root};
    assert At(m, root, [], root) && IsTable(m, root, root) && root in Backing(m, root, VirtPath(0));
    assert !Freeable(m, root, VirtPath(0));
  }

  /** Four free frames, and no page mapped. */
  method BareMmu() returns (mmu: Mmu)
    ensures mmu.Valid() && mmu.root == 1 && mmu.phys.bits.free == {2, 3, 4, 5}
    ensures fresh(mmu) && fresh(mmu.phys) && fresh(mmu.phys.bits) && fresh(mmu.phys.bits.bytes)
    ensures forall p: Path {:trigger Translate(mmu.frames, 1, p)} :: |p| == 4 ==> Translate(mmu.frames, 1, p) == None
  {
    var phys := new PhysAllocator();
    phys.ReleaseRegion(2 * PAGE_SIZE, 6 * PAGE_SIZE);
    ghost var free := phys.bits.free;
    forall p: nat ensures p in free <==> 2 <= p < 6 { ReleasedPages({}, 2 * PAGE_SIZE, 6 * PAGE_SIZE, p); }
    assert free == {2, 3, 4, 5};
    var frames := seq(MAX_PAGES, _ => ZeroFrame());
    BareTree(frames, 1, free);
    mmu := new Mmu(phys, 1, frames);
  }

  /** From an empty address space: the root table's own frame is mapped to a page of the window and that page freed.
      The root is then the lowest free frame, the next to be handed out. */
  method BreakByFreeing() returns (w: VirtualWindow)
    ensures w.Loose() && !w.Valid()
    ensures w.mmu.root in w.mmu.phys.bits.free && forall p :: p in w.mmu.phys.bits.free ==> w.mmu.root <= p
  {
    var mmu := BareMmu();
    MapRoot(mmu);
    var bits := new Bitmap(VIRT_PAGES / 8, false);
    w := new VirtualWindow(mmu, bits);
    TreeOkIs(mmu.frames, mmu.root, mmu.phys.bits.free);
    FreeMappedRoot(w);
  }

  /** Maps the root table's frame to the first page of the window. */
  method MapRoot(mmu: Mmu)
    requires mmu.Valid() && mmu.root == 1 && mmu.phys.bits.free == {2, 3, 4, 5}
    requires Translate(mmu.frames, 1, VirtPath(0)) == None
    modifies mmu`frames, mmu.phys`freePages, mmu.phys.bits`free, mmu.phys.bits.bytes
    ensures mmu.Valid() && Translate(mmu.frames, 1, VirtPath(0)) == Some(1) && mmu.phys.bits.free <= {2, 3, 4, 5}
  {
    assert Counted(true);
    VirtPathIs(0);
    var rc := mmu.MapPage(VirtAddr(0), PAGE_SIZE, WRITABLE, false);
    assert rc == 0;
  }
}
