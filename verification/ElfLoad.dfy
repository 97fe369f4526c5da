/** Loading an image: every page of every segment is mapped to a fresh frame, cleared, and given its file bytes; a
    failure takes everything back. */
module ElfLoad {
  import opened MachineBytes
  import opened Options
  import opened Bitmaps
  import opened PhysMemory
  import opened PageEntries
  import opened PageTables
  import opened PageAccess
  import opened Paging
  import opened PageLists
  import opened ElfImage
  import opened ElfPages

  const MAX_MAPPED: nat := 1024

  ghost predicate Loading(x: bool) { true }

  ghost predicate Undone(x: bool) { true }

  /** On an image that fits, the jobs have targets of their own. */
  ghost predicate Loadable(m0: Memory, root: nat, jobs: seq<Job>, clean: bool) {
    forall x {:trigger Loading(x)} :: Loading(x) ==> (clean ==> Targets(m0, root, jobs))
  }

  class Loader {
    const mmu: Mmu
    var data: seq<PageBytes>     // what each physical frame holds

    constructor (mmu: Mmu, data: seq<PageBytes>)
      ensures this.mmu == mmu && this.data == data
    {
      this.mmu, this.data := mmu, data;
    }

    ghost predicate Valid()
      reads this, mmu, mmu.phys, mmu.phys.bits, mmu.phys.bits.bytes
    {
      mmu.Valid() && |data| == MAX_PAGES
    }

    // ---- Taking pages back ----

    /** Unmaps the pages and frees the frames, last first. */
    method Rollback(pages: seq<nat>, frames: seq<nat>, ghost m0: Memory, ghost free0: set<nat>, ghost clean: bool)
      requires mmu.Valid() && |pages| == |frames| && (forall f :: f in frames ==> 0 < f < MAX_PAGES)
      requires Holding(m0, mmu.frames, mmu.root, free0, mmu.phys.bits.free, frames)
      requires clean ==> ListMapped(m0, mmu.frames, mmu.root, PagePaths(pages), frames) && forall va ::
               va in pages ==> Aligned(va)
      modifies mmu`frames, mmu.phys`freePages, mmu.phys.bits`free, mmu.phys.bits.bytes
      ensures mmu.Valid() && Grown(m0, mmu.frames, mmu.root, free0, mmu.phys.bits.free)
      ensures clean ==> SameTranslation(m0, mmu.frames, mmu.root)
    {
      var i := |pages|;
      assert pages[..i] == pages && frames[..i] == frames;
      while i > 0
        invariant 0 <= i <= |pages| && mmu.Valid()
        invariant Holding(m0, mmu.frames, mmu.root, free0, mmu.phys.bits.free, frames[..i])
        invariant clean ==> ListMapped(m0, mmu.frames, mmu.root, PagePaths(pages[..i]), frames[..i])
      {
        i := i - 1;
        assert frames[i] in frames && pages[i] in pages;
        assert pages[..i + 1] == pages[..i] + [pages[i]] && frames[..i + 1] == frames[..i] + [frames[i]];
        TakeBack(pages[i], frames[i], pages[..i], frames[..i], m0, free0, clean);
      }
      HoldingNothing(m0, mmu.frames, mmu.root, free0, mmu.phys.bits.free, frames[..0]);
      if clean { NothingListed(m0, mmu.frames, mmu.root, PagePaths(pages[..0]), frames[..0]); }
    }

    /** Takes back the last page of a list. */
    method TakeBack(page: nat, f: nat, ghost pages: seq<nat>, ghost frames: seq<nat>, ghost m0: Memory,
                    ghost free0: set<nat>, ghost clean: bool)
      requires mmu.Valid() && |pages| == |frames| && 0 < f < MAX_PAGES
      requires Holding(m0, mmu.frames, mmu.root, free0, mmu.phys.bits.free, frames + [f])
      requires clean ==> ListMapped(m0, mmu.frames, mmu.root, PagePaths(pages + [page]), frames + [f]) && Aligned(page)
      modifies mmu`frames, mmu.phys`freePages, mmu.phys.bits`free, mmu.phys.bits.bytes
      ensures mmu.Valid() && Holding(m0, mmu.frames, mmu.root, free0, mmu.phys.bits.free, frames)
      ensures clean ==> ListMapped(m0, mmu.frames, mmu.root, PagePaths(pages), frames)
    {
      ghost var m, free, n := mmu.frames, mmu.phys.bits.free, |pages|;
      PagePathsSnoc(pages, page);
      LastRemoved(frames, f);
      LastRemoved(PagePaths(pages), PathOf(page));
      if clean { ListIsSmall(m0, m, mmu.root, free, PagePaths(pages + [page]), frames + [f], n); }
      mmu.UnmapPage(page, mmu.phys.bits.free);
      KeptSame(m, mmu.root, free);
      HoldingGrows(m0, m, mmu.frames, mmu.root, free0, free, free, frames + [f]);
      if clean { ListShrinks(m0, m, mmu.frames, mmu.root, free, PagePaths(pages + [page]), frames + [f], n); }
      HoldingGive(m0, mmu.frames, mmu.root, free0, free, frames + [f], n);
      mmu.phys.FreePage(f * PAGE_SIZE);
    }

    // ---- Loading one page ----

    /** Makes sure that a page is not mapped: splits a large page and unmaps a small one that is in the way. */
    method ClearPage(page: nat) returns (ok: bool)
      requires mmu.Valid()
      modifies mmu`frames, mmu.phys`freePages, mmu.phys.bits`free, mmu.phys.bits.bytes
      ensures mmu.Valid() && Grown(old(mmu.frames), mmu.frames, mmu.root, old(mmu.phys.bits.free), mmu.phys.bits.free)
      ensures Translate(old(mmu.frames), mmu.root, PathOf(page)) == None ==>
                ok && mmu.frames == old(mmu.frames) && mmu.phys.bits.free == old(mmu.phys.bits.free)
    {
      ghost var m, free := mmu.frames, mmu.phys.bits.free;
      KeptSame(m, mmu.root, free);
      var pa := mmu.GetPhys(page, mmu.phys.bits.free);
      if pa == 0 { return true; }
      var rc := mmu.SplitHugePage(page);
      if rc != 0 { return false; }
      ghost var m1, free1 := mmu.frames, mmu.phys.bits.free;
      mmu.UnmapPage(page, mmu.phys.bits.free);
      GrownTrans(m, m1, mmu.frames, mmu.root, free, free1, free1);
      pa := mmu.GetPhys(page, mmu.phys.bits.free);
      ok := pa == 0;
    }

    /** Maps a page to a fresh frame, as long as fewer than 1024 pages have been mapped; or leaves everything but
        tables as it was. */
    method MapFresh(page: nat, count: nat) returns (ok: bool, f: nat)
      requires mmu.Valid()
      modifies mmu`frames, mmu.phys`freePages, mmu.phys.bits`free, mmu.phys.bits.bytes
      ensures mmu.Valid()
      ensures ok ==> f in old(mmu.phys.bits.free) && 0 < f < MAX_PAGES && Aligned(page) && count < MAX_MAPPED &&
                     Grown(old(mmu.frames), mmu.frames, mmu.root, old(mmu.phys.bits.free) - {f}, mmu.phys.bits.free) &&
                     Remapped(old(mmu.frames), mmu.frames, mmu.root, PathOf(page), Some(f)) &&
                       SmallPage(mmu.frames, mmu.root, PathOf(page))
      ensures !ok ==> Kept(old(mmu.frames), mmu.frames, mmu.root, old(mmu.phys.bits.free), mmu.phys.bits.free)
      ensures ok ==> Spent(old(mmu.phys.bits.free), mmu.phys.bits.free, 4)
      ensures ok ==> KeepsBut(old(mmu.frames), mmu.frames, mmu.root, [])
      ensures ok ==> OpenPage(mmu.frames, mmu.root, PathOf(page), f)
      ensures !ok ==>
                count >= MAX_MAPPED || !Aligned(page) ||
                Translate(old(mmu.frames), mmu.root, PathOf(page)).Some? || Spent(old(mmu.phys.bits.free), {}, 3)
    {
      ghost var m, free := mmu.frames, mmu.phys.bits.free;
      KeptSame(m, mmu.root, free);
      ok, f := mmu.MapFresh(page, PRESENT | WRITABLE | USER, false);
      if ok && count >= MAX_MAPPED {
        ghost var m1, free1 := mmu.frames, mmu.phys.bits.free;
        mmu.UnmapPage(page, mmu.phys.bits.free);
        GrownTrans(m, m1, mmu.frames, mmu.root, free - {f}, free1, free1);
        TakenAndGiven(m, mmu.frames, mmu.root, free, free1, f);
        mmu.phys.FreePage(f * PAGE_SIZE);
        ok := false;
      }
    }

    // ---- The state of a load in progress ----

    /** The pages so far are held and mapped. When the image is one that fits, that is all that has changed. */
    ghost predicate Mapping(m0: Memory, free0: set<nat>, pages: seq<nat>, frames: seq<nat>, clean: bool)
      reads this, mmu, mmu.phys, mmu.phys.bits, mmu.phys.bits.bytes
    {
      && mmu.Valid() && |pages| == |frames|
      && (forall f :: f in frames ==> 0 < f < MAX_PAGES && f in free0) && (forall va :: va in pages ==> Aligned(va))
      && Holding(m0, mmu.frames, mmu.root, free0, mmu.phys.bits.free, frames)
      && (clean ==>
           ListMapped(m0, mmu.frames, mmu.root, PagePaths(pages), frames) &&
           Spent(free0, mmu.phys.bits.free, 4 * |frames|))
    }

    /** The frames hold their pages, and frames that were in use hold what they held. */
    ghost predicate Filled(data0: seq<PageBytes>, free0: set<nat>, image: seq<byte>, bias: nat, jobs: seq<Job>,
                           frames: seq<nat>)
      reads this
    {
      |data| == |data0| == MAX_PAGES && Contents(data, image, bias, jobs, frames) && Untouched(data0, data, free0)
    }

    /** The pages so far have the flags they should have. */
    ghost predicate Guarded(bias: nat, jobs: seq<Job>, frames: seq<nat>, clean: bool)
      reads this, mmu
    {
      clean ==> Leaves(mmu.frames, mmu.root, PagePaths(PagesOf(jobs)), JobLeaves(jobs, bias, frames))
    }

    /** All that holds when the first jobs have been done. Stated behind a quantifier, so that only proofs that mention
        `Loading` see through it. */
    ghost predicate Underway(m0: Memory, free0: set<nat>, data0: seq<PageBytes>, image: seq<byte>, bias: nat,
                             all: seq<Job>, pages: seq<nat>, frames: seq<nat>, clean: bool)
      reads this, mmu, mmu.phys, mmu.phys.bits, mmu.phys.bits.bytes
    {
      forall x {:trigger Loading(x)} :: Loading(x) ==>
        |pages| <= |all| && Mapping(m0, free0, pages, frames, clean) && pages == PagesOf(all[..|pages|]) &&
        Filled(data0, free0, image, bias, all[..|pages|], frames) && Guarded(bias, all[..|pages|], frames, clean)
    }

    /** Everything is as before, except for tables that were added and for what free frames hold. */
    ghost predicate TakenBack(m0: Memory, free0: set<nat>, data0: seq<PageBytes>, clean: bool)
      reads this, mmu, mmu.phys, mmu.phys.bits, mmu.phys.bits.bytes
    {
      forall x {:trigger Undone(x)} :: Undone(x) ==>
        Valid() && Grown(m0, mmu.frames, mmu.root, free0, mmu.phys.bits.free) &&
        (clean ==> SameTranslation(m0, mmu.frames, mmu.root))
    }

    /** Clears the way for the next page; on an image that fits there is nothing to clear. */
    method ClearNext(page: nat, pages: seq<nat>, frames: seq<nat>, ghost m0: Memory, ghost free0: set<nat>,
                     ghost all: seq<Job>, ghost clean: bool)
      returns (ok: bool)
      requires Mapping(m0, free0, pages, frames, clean)
      requires |pages| < |all| && pages == PagesOf(all[..|pages|]) && page == all[|pages|].page &&
               (clean ==> Targets(m0, mmu.root, all))
      modifies mmu`frames, mmu.phys`freePages, mmu.phys.bits`free, mmu.phys.bits.bytes
      ensures Mapping(m0, free0, pages, frames, clean)
      ensures clean ==>
                ok && mmu.frames == old(mmu.frames) && Translate(m0, mmu.root, PathOf(page)) == None &&
                Translate(mmu.frames, mmu.root, PathOf(page)) == None &&
                        DistinctPaths(PagePaths(pages) + [PathOf(page)])
    {
      ghost var m, free := mmu.frames, mmu.phys.bits.free;
      if clean { NextUnmapped(m0, m, mmu.root, all, |pages|, frames); }
      ok := ClearPage(page);
      HoldingGrows(m0, m, mmu.frames, mmu.root, free0, free, mmu.phys.bits.free, frames);
    }

    /** Takes a frame for the next page and maps it, or takes everything back. */
    method TakePage(page: nat, pages: seq<nat>, frames: seq<nat>, ghost m0: Memory, ghost free0: set<nat>,
                    ghost all: seq<Job>, ghost clean: bool)
      returns (ok: bool, f: nat)
      requires Mapping(m0, free0, pages, frames, clean) && Aligned(page)
      requires |pages| < |all| && pages == PagesOf(all[..|pages|]) && page == all[|pages|].page &&
               (clean ==> Targets(m0, mmu.root, all))
      modifies mmu`frames, mmu.phys`freePages, mmu.phys.bits`free, mmu.phys.bits.bytes
      ensures ok ==>
                f !in frames && Mapping(m0, free0, pages + [page], frames + [f], clean) &&
                SmallPage(mmu.frames, mmu.root, PathOf(page))
      ensures ok && clean ==>
                KeepsBut(old(mmu.frames), mmu.frames, mmu.root, []) && OpenPage(mmu.frames, mmu.root, PathOf(page), f)
      ensures !ok ==>
                mmu.Valid() && Grown(m0, mmu.frames, mmu.root, free0, mmu.phys.bits.free) &&
                (clean ==> SameTranslation(m0, mmu.frames, mmu.root))
      ensures !ok && clean ==> |pages| >= MAX_MAPPED || Spent(free0, {}, 4 * |pages| + 3)
    {
      f := 0;
      ok := ClearNext(page, pages, frames, m0, free0, all, clean);
      ghost var m1, free1 := mmu.frames, mmu.phys.bits.free;
      if !ok {
        Rollback(pages, frames, m0, free0, clean);
        return;
      }
      ok, f := MapFresh(page, |frames|);
      if !ok {
        HoldingGrows(m0, m1, mmu.frames, mmu.root, free0, free1, mmu.phys.bits.free, frames);
        if clean {
          ListStays(m0, m1, mmu.frames, mmu.root, free1, mmu.phys.bits.free, PagePaths(pages), frames);
          if Spent(free1, {}, 3) { SpentTrans(free0, free1, {}, 4 * |frames|, 3); }
        }
        Rollback(pages, frames, m0, free0, clean);
        return;
      }
      HoldingTake(m0, m1, mmu.root, free0, free1, frames, f);
      HoldingGrows(m0, m1, mmu.frames, mmu.root, free0, free1 - {f}, mmu.phys.bits.free, frames + [f]);
      TakenWasFree(m0, m1, mmu.root, free0, free1, frames, f);
      if clean {
        SpentTrans(free0, free1, mmu.phys.bits.free, 4 * |frames|, 4);
        PagePathsSnoc(pages, page);
        SmallHasTable(mmu.frames, mmu.root, PathOf(page));
        ListGrows(m0, m1, mmu.frames, mmu.root, free1 - {f}, mmu.phys.bits.free, PagePaths(pages), frames,
                  PathOf(page), f);
      }
    }

    // ---- The bytes of a page ----

    /** Copies n bytes of the image to a place in a frame. */
    method CopyBytes(f: nat, to: nat, image: seq<byte>, from: nat, n: nat)
      requires f < |data| && to + n <= PAGE && from + n <= |image|
      modifies `data
      ensures data == old(data)[f := Patched(old(data)[f], to, image[from..from + n])]
    {
      assert old(data)[f] == Patched(old(data)[f], to, image[from..from]);
      for k := 0 to n
        invariant |data| == |old(data)| && data == old(data)[f := Patched(old(data)[f], to, image[from..from + k])]
      {
        PatchedOne(old(data)[f], to, image, from, k);
        data := data[f := data[f][to + k := image[from + k]]];
      }
    }

    /** Clears a frame and copies what file bytes fall into its page; tells whether there were any. */
    method FillPage(f: nat, page: nat, s: Segment, image: seq<byte>, bias: nat) returns (copied: bool)
      requires f < |data| && Placed(s, |image|) && Loaded(s) && |image| + PAGE <= WORD && InWindow(page, s, bias) &&
               page % PAGE == 0
      modifies `data
      ensures data == old(data)[f := PageImage(image, Job(page, s), bias)] && copied == Touches(Job(page, s), bias)
    {
      var start, at := StartPage(s, bias), W64(s.vaddr + bias);
      FileFits(page, s, image, bias);
      data := data[f := seq(PAGE, _ => 0)];
      var pageOff, fileStart, fileEnd := page - start, at - start, W64(at - start + s.filesz);
      var copyEnd := pageOff + PAGE;
      if copyEnd <= fileStart || pageOff >= fileEnd {
        NoFileBytes(page, s, image, bias);
        return false;
      }
      var clampStart, clampEnd := if pageOff < fileStart then fileStart else pageOff,
                                  if copyEnd > fileEnd then fileEnd else copyEnd;
      FileBytes(page, s, image, bias, clampStart, clampEnd);
      CopyBytes(f, clampStart - pageOff, image, s.offset + clampStart - fileStart, clampEnd - clampStart);
      copied := true;
    }

    /** Gives the page just mapped the flags of its segment. */
    method GiveFlags(page: nat, s: Segment, bias: nat, ghost pages: seq<nat>, ghost frames: seq<nat>, ghost f: nat,
                     ghost m0: Memory, ghost free0: set<nat>, ghost all: seq<Job>, ghost clean: bool)
      requires Mapping(m0, free0, pages + [page], frames + [f], clean) && SmallPage(mmu.frames, mmu.root, PathOf(page))
      requires |pages| < |all| && pages == PagesOf(all[..|pages|]) && all[|pages|] == Job(page, s) &&
               Touches(Job(page, s), bias)
      requires clean ==> Leaves(mmu.frames, mmu.root, PagePaths(PagesOf(all[..|pages|])) + [PathOf(page)],
                                JobLeaves(all[..|pages|], bias, frames) +
                                [LeafEntry(f, PRESENT | WRITABLE | USER, false)])
      modifies mmu`frames
      ensures Mapping(m0, free0, pages + [page], frames + [f], clean)
      ensures Guarded(bias, all[..|pages| + 1], frames + [f], clean)
    {
      ghost var m, free := mmu.frames, mmu.phys.bits.free;
      var rc := mmu.SetPageFlags(page, PRESENT | USER | (if s.flags / 2 % 2 == 1 then WRITABLE else 0),
                                 s.flags % 2 == 0);
      if clean {
        ListedLast(m0, m, mmu.root, PagePaths(pages), PathOf(page), frames, f);
        PageGuarded(m, mmu.frames, mmu.root, bias, all, |pages|, frames, f);
      }
      HoldingGrows(m0, m, mmu.frames, mmu.root, free0, free, free, frames + [f]);
      if clean { ListStays(m0, m, mmu.frames, mmu.root, free, free, PagePaths(pages + [page]), frames + [f]); }
      if rc != 0 {
        assert false;     // a page just mapped is a small one, so its flags can be set
      }
    }

    /** Loads one page: maps it, fills it and, unless it is all zero, gives it its flags; or takes everything back. */
    method LoadPage(page: nat, s: Segment, image: seq<byte>, bias: nat, pages: seq<nat>, frames: seq<nat>,
                    ghost m0: Memory, ghost free0: set<nat>, ghost data0: seq<PageBytes>, ghost all: seq<Job>,
                    ghost clean: bool)
      returns (ok: bool, f: nat)
      requires |pages| < |all| && pages == PagesOf(all[..|pages|]) && all[|pages|] == Job(page, s) &&
               (clean ==> Targets(m0, mmu.root, all))
      requires Mapping(m0, free0, pages, frames, clean) && Filled(data0, free0, image, bias, all[..|pages|], frames)
      requires Placed(s, |image|) && Loaded(s) && |image| + PAGE <= WORD && InWindow(page, s, bias) && page % PAGE == 0
      requires Guarded(bias, all[..|pages|], frames, clean)
      modifies `data, mmu`frames, mmu.phys`freePages, mmu.phys.bits`free, mmu.phys.bits.bytes
      ensures ok ==>
                Mapping(m0, free0, pages + [page], frames + [f], clean) &&
                Filled(data0, free0, image, bias, all[..|pages| + 1], frames + [f])
      ensures ok ==> Guarded(bias, all[..|pages| + 1], frames + [f], clean)
      ensures !ok ==> TakenBack(m0, free0, data0, clean) && Untouched(data0, data, free0)
      ensures !ok && clean ==> |pages| >= MAX_MAPPED || Spent(free0, {}, 4 * |pages| + 3)
    {
      ghost var m1 := mmu.frames;
      ok, f := TakePage(page, pages, frames, m0, free0, all, clean);
      if !ok { return; }
      ghost var was, m2 := data, mmu.frames;
      assert f in frames + [f];
      var copied := FillPage(f, page, s, image, bias);
      OneMoreFilled(data0, was, data, free0, image, bias, all, |pages|, frames, f);
      if clean { PageOpened(m1, m2, mmu.root, bias, all, |pages|, frames, f); }
      if copied { GiveFlags(page, s, bias, pages, frames, f, m0, free0, all, clean); }
    }

    /** Loads the page of the next job. */
    method LoadNext(page: nat, s: Segment, image: seq<byte>, bias: nat, pages: seq<nat>, frames: seq<nat>,
                    ghost m0: Memory, ghost free0: set<nat>, ghost data0: seq<PageBytes>, ghost all: seq<Job>,
                    ghost clean: bool)
      returns (ok: bool, f: nat)
      requires |pages| < |all| && all[|pages|] == Job(page, s) && Loadable(m0, mmu.root, all, clean)
      requires Underway(m0, free0, data0, image, bias, all, pages, frames, clean)
      requires InPlace(s, |image|) && Loaded(s) && |image| + PAGE <= WORD && InWindow(page, s, bias) && page % PAGE == 0
      modifies `data, mmu`frames, mmu.phys`freePages, mmu.phys.bits`free, mmu.phys.bits.bytes
      ensures ok ==> Underway(m0, free0, data0, image, bias, all, pages + [page], frames + [f], clean)
      ensures !ok ==> TakenBack(m0, free0, data0, clean) && Untouched(data0, data, free0)
      ensures !ok && clean ==> Starved(free0, |all|)
    {
      assert Loading(true);
      PlacedIn(s, |image|);
      ok, f := LoadPage(page, s, image, bias, pages, frames, m0, free0, data0, all, clean);
      PagesSnoc(all, |pages|);
      if !ok && clean && |pages| < MAX_MAPPED { SpentStarves(free0, |pages|, |all|); }
    }

    /** Loads the pages of one segment. */
    method LoadSegment(s: Segment, image: seq<byte>, bias: nat, pages0: seq<nat>, frames0: seq<nat>,
                       ghost m0: Memory, ghost free0: set<nat>, ghost data0: seq<PageBytes>, ghost all: seq<Job>,
                       ghost clean: bool)
      returns (ok: bool, pages: seq<nat>, frames: seq<nat>)
      requires FollowsOn(all, |pages0|, s, bias) && Loadable(m0, mmu.root, all, clean)
      requires Underway(m0, free0, data0, image, bias, all, pages0, frames0, clean)
      requires InPlace(s, |image|) && Loaded(s) && |image| + PAGE <= WORD
      modifies `data, mmu`frames, mmu.phys`freePages, mmu.phys.bits`free, mmu.phys.bits.bytes
      ensures ok ==> Underway(m0, free0, data0, image, bias, all, pages, frames, clean) &&
                     |pages| == |pages0| + PageCount(s, bias)
      ensures !ok ==> TakenBack(m0, free0, data0, clean) && Untouched(data0, data, free0)
      ensures !ok && clean ==> Starved(free0, |all|)
    {
      var page, end := StartPage(s, bias), EndPage(s, bias);
      pages, frames := pages0, frames0;
      ghost var k := 0;
      FirstPage(s, bias);
      while page < end
        invariant AtPage(s, bias, k, page) && end == EndPage(s, bias) && |pages| == |pages0| + k
        invariant Underway(m0, free0, data0, image, bias, all, pages, frames, clean)
        decreases end - page
      {
        var f;
        NextFollows(all, |pages0|, s, bias, k, page);
        ok, f := LoadNext(page, s, image, bias, pages, frames, m0, free0, data0, all, clean);
        if !ok { return; }
        pages, frames, page, k := pages + [page], frames + [f], page + PAGE, k + 1;
      }
      LastPage(s, bias, k, page);
      ok := true;
    }

    /** Loads the segments of an accepted image. */
    method LoadSegments(image: seq<byte>, segs: seq<Segment>, bias: nat, ghost clean: bool)
      returns (ok: bool, ghost frames: seq<nat>)
      requires Valid() && |image| + PAGE <= WORD && AllPlaced(segs, |image|)
      requires Loadable(mmu.frames, mmu.root, JobsOf(segs, bias, |segs|), clean)
      modifies `data, mmu`frames, mmu.phys`freePages, mmu.phys.bits`free, mmu.phys.bits.bytes
      ensures ok ==> Mapping(old(mmu.frames), old(mmu.phys.bits.free), PagesOf(JobsOf(segs, bias, |segs|)),
                             frames, clean)
      ensures ok ==> Filled(old(data), old(mmu.phys.bits.free), image, bias, JobsOf(segs, bias, |segs|), frames) &&
                     Guarded(bias, JobsOf(segs, bias, |segs|), frames, clean)
      ensures !ok ==>
                TakenBack(old(mmu.frames), old(mmu.phys.bits.free), old(data), clean) &&
                Untouched(old(data), data, old(mmu.phys.bits.free))
      ensures !ok && clean ==> Starved(old(mmu.phys.bits.free), |JobsOf(segs, bias, |segs|)|)
    {
      ghost var m0, free0, data0 := mmu.frames, mmu.phys.bits.free, data;
      var pages, taken := [], [];
      ghost var all := JobsOf(segs, bias, |segs|);
      StartsEmpty(m0, mmu.root, free0);
      for n := 0 to |segs|
        invariant Underway(m0, free0, data0, image, bias, all, pages, taken, clean)
        invariant |pages| == |JobsOf(segs, bias, n)|
      {
        if !Loaded(segs[n]) { continue; }
        assert InPlace(segs[n], |image|);
        SegmentFollows(segs, bias, n);
        ok, pages, taken := LoadSegment(segs[n], image, bias, pages, taken, m0, free0, data0, all, clean);
        if !ok { return false, []; }
      }
      ok, frames := true, taken;
      assert Loading(true);
      assert all[..|all|] == all;
    }

    /** Loads an image. It succeeds only on an accepted one; a failure leaves nothing behind but tables. When no page of
        a segment wraps or is mapped, success means that every byte of every segment reads as it should while every
        other address leads where it did, and a failure moves no address. Such an image does load if it has at most
        1024 pages and there are four free frames for each. */
    method Load(image: seq<byte>) returns (rc: Status, entry: nat)
      requires Valid() && |image| + PAGE <= WORD
      modifies `data, mmu`frames, mmu.phys`freePages, mmu.phys.bits`free, mmu.phys.bits.bytes
      ensures Valid() && Untouched(old(data), data, old(mmu.phys.bits.free))
      ensures rc == Ok ==> Accepted(image) && entry == W64(EntryPoint(image) + Bias(image))
      ensures !Accepted(image) ==>
                mmu.frames == old(mmu.frames) && data == old(data) && mmu.phys.bits.free == old(mmu.phys.bits.free)
      ensures rc != Ok ==> Grown(old(mmu.frames), mmu.frames, mmu.root, old(mmu.phys.bits.free), mmu.phys.bits.free)
      ensures Fits(old(mmu.frames), mmu.root, image) ==>
                if rc == Ok
                then ImageLoaded(old(mmu.frames), mmu.frames, mmu.root, data, image, old(mmu.phys.bits.free),
                                 mmu.phys.bits.free)
                else SameTranslation(old(mmu.frames), mmu.frames, mmu.root)
      ensures Fits(old(mmu.frames), mmu.root, image) && PageTotal(image) <= MAX_MAPPED ==>
                4 * PageTotal(image) <= |old(mmu.phys.bits.free)| ==> rc == Ok
    {
      ghost var m0, free0, data0, clean := mmu.frames, mmu.phys.bits.free, data, Fits(mmu.frames, mmu.root, image);
      KeptSame(m0, mmu.root, free0);
      var segs;
      rc, segs := Validate(image);
      if rc != Ok { return rc, 0; }
      ghost var jobs := JobsOf(segs, Bias(image), |segs|);
      if clean { AcceptedTargets(m0, mmu.root, segs, Bias(image), |image|, EntryPoint(image)); }
      var ok;
      ghost var frames;
      ok, frames := LoadSegments(image, segs, Bias(image), clean);
      if !ok {
        assert Undone(true);
        if clean { NotStarved(free0, PageTotal(image)); }
        return ErrMap, 0;
      }
      if clean { LoadIsImage(m0, mmu.frames, mmu.root, data, image, free0, mmu.phys.bits.free, frames); }
      return Ok, W64(EntryPoint(image) + Bias(image));
    }
  }

  // ---- The bytes of a page ----

  function Patched(bytes: PageBytes, to: nat, part: seq<byte>): PageBytes
    requires to + |part| <= PAGE
  {
    bytes[..to] + part + bytes[to + |part|..]
  }

  lemma PatchedAt(to: nat, part: seq<byte>, k: nat)
    requires to + |part| <= PAGE && k < PAGE
    ensures Patched(seq(PAGE, _ => 0), to, part)[k] == if to <= k < to + |part| then part[k - to] else 0
  {
  }

  lemma PatchedOne(bytes: PageBytes, to: nat, image: seq<byte>, from: nat, k: nat)
    requires to + k < PAGE && from + k < |image|
    ensures Patched(bytes, to, image[from..from + k])[to + k := image[from + k]] ==
            Patched(bytes, to, image[from..from + k + 1])
  {
    assert image[from..from + k + 1] == image[from..from + k] + [image[from + k]];
  }

  /** The bytes from the file begin in the first page, and their length does not wrap. */
  lemma FileFits(page: nat, s: Segment, image: seq<byte>, bias: nat)
    requires Placed(s, |image|) && Loaded(s) && |image| + PAGE <= WORD && InWindow(page, s, bias)
    ensures var start, at := StartPage(s, bias), W64(s.vaddr + bias);
            start <= at < start + PAGE && W64(at - start + s.filesz) == at - start + s.filesz && start <= page &&
              s.offset + s.filesz <= |image|
  {
  }

  /** A page before or after the bytes from the file is all zero. */
  lemma NoFileBytes(page: nat, s: Segment, image: seq<byte>, bias: nat)
    requires Placed(s, |image|) && page >= StartPage(s, bias)
    requires var start, at := StartPage(s, bias), W64(s.vaddr + bias);
             page + PAGE <= at || page - start >= at - start + s.filesz
    ensures PageImage(image, Job(page, s), bias) == seq(PAGE, _ => 0)
  {
    forall k | 0 <= k < PAGE ensures ImageByte(image, Job(page, s), bias, k) == 0 {}
  }

  /** Any other has the part of the file between the two clamps. */
  lemma FileBytes(page: nat, s: Segment, image: seq<byte>, bias: nat, from: nat, to: nat)
    requires Placed(s, |image|) && Loaded(s) && page >= StartPage(s, bias)
    requires var start, at := StartPage(s, bias), W64(s.vaddr + bias);
      && page + PAGE > at && page - start < at - start + s.filesz
      && from == (if page < at then at - start else page - start)
      && to == (if page + PAGE > at + s.filesz then at - start + s.filesz else page - start + PAGE)
    ensures var start, at := StartPage(s, bias), W64(s.vaddr + bias);
      && start <= at && page - start <= from <= to <= page - start + PAGE && at - start <= from &&
         to - (at - start) <= s.filesz
      && s.offset + s.filesz <= |image|
      && PageImage(image, Job(page, s), bias) ==
         Patched(seq(PAGE, _ => 0), from - (page - start),
                 image[s.offset + from - (at - start)..s.offset + to - (at - start)])
  {
    var start, at := StartPage(s, bias), W64(s.vaddr + bias);
    var part := image[s.offset + from - (at - start)..s.offset + to - (at - start)];
    var patched := Patched(seq(PAGE, _ => 0), from - (page - start), part);
    forall k | 0 <= k < PAGE ensures ImageByte(image, Job(page, s), bias, k) == patched[k] {
      PatchedAt(from - (page - start), part, k);
    }
  }

  // ---- What a load comes to ----

  ghost predicate AllPlaced(segs: seq<Segment>, len: nat) {
    forall i {:trigger segs[i]} :: 0 <= i < |segs| && Loaded(segs[i]) ==> Placed(segs[i], len)
  }

  /** An accepted image none of whose pages wraps or is mapped. */
  ghost predicate Fits(m: Memory, root: nat, image: seq<byte>) {
    Accepted(image) && Roomy(SegmentsOf(image), Bias(image)) && Unmapped(m, root, SegmentsOf(image), Bias(image))
  }

  ghost function PageTotal(image: seq<byte>): nat
    requires Accepted(image)
  {
    |JobsOf(SegmentsOf(image), Bias(image), Count(image))|
  }

  /** The image reads as it should from frames of its own, and nothing else has moved. */
  ghost predicate ImageLoaded(m0: Memory, m: Memory, root: nat, data: seq<PageBytes>, image: seq<byte>,
                              free0: set<nat>, free: set<nat>)
    requires Accepted(image)
  {
    && ImageReads(m, root, data, image, SegmentsOf(image), Bias(image))
    && OutsideSame(m0, m, root, SegmentsOf(image), Bias(image))
    && OwnFrames(m, root, SegmentsOf(image), Bias(image), free0, free)
    && SegmentBytes(m, root, data, image, SegmentsOf(image), Bias(image))
    && Permitted(m, root, SegmentsOf(image), Bias(image))
  }

  /** An address of a segment, moved by the bias. */
  ghost predicate Covers(s: Segment, bias: nat, va: nat) {
    s.kind == 1 && s.vaddr + bias <= va < s.vaddr + bias + s.memsz
  }

  /** At every address of a segment its byte of the file is read, and zero behind these. */
  ghost predicate SegmentBytes(m: Memory, root: nat, data: seq<PageBytes>, image: seq<byte>, segs: seq<Segment>,
                               bias: nat) {
    forall i, va: nat {:trigger Covers(segs[i], bias, va)} :: 0 <= i < |segs| && Covers(segs[i], bias, va) ==>
      var s, k := segs[i], va - segs[i].vaddr - bias;
      s.offset + s.filesz <= |image| &&
      ReadByte(m, root, data, va) == Some(if k < s.filesz then image[s.offset + k] else 0)
  }

  /** Every address of a segment can be used in user mode. It can be written if the segment says so, and executed if
      it says so; a page in which no byte of the file lies can be written and executed whatever it says. */
  ghost predicate Permitted(m: Memory, root: nat, segs: seq<Segment>, bias: nat) {
    forall i, va: nat {:trigger Covers(segs[i], bias, va)} :: 0 <= i < |segs| && Covers(segs[i], bias, va) ==>
      Permits(m, root, PathOf(va), segs[i], InFile(segs[i], bias, va / 4096 * 4096))
  }

  /** A page reaches into the part of a segment that the file fills. */
  ghost predicate InFile(s: Segment, bias: nat, page: nat) {
    s.vaddr + bias < page + 4096 && page < s.vaddr + bias + s.filesz
  }

  ghost predicate Permits(m: Memory, root: nat, p: Path, s: Segment, file: bool)
    requires |p| == 4
  {
    && Lets(m, root, p, USER) && (Lets(m, root, p, WRITABLE) <==> !file || s.flags / 2 % 2 == 1)
    && EntryAt(m, root, p[..3], p[3]).Some?
    && EntryAt(m, root, p[..3], p[3]).value.high == if file && s.flags % 2 == 0 then 0x800 else 0
  }

  /** The addresses of a segment lie in its pages. */
  lemma CoveredInWindow(s: Segment, bias: nat, va: nat, image: seq<byte>)
    requires Covers(s, bias, va) && s.vaddr + bias + s.memsz + PAGE <= WORD && Placed(s, |image|)
    ensures Loaded(s) && InWindow(va, s, bias) && s.offset + s.filesz <= |image|
    ensures var k := va - s.vaddr - bias; ByteAt(image, s, bias, va) == if k < s.filesz then image[s.offset + k] else 0
    ensures Touches(Job(PageOf(va), s), bias) <==> InFile(s, bias, va / 4096 * 4096)
  {
    CoveredPlaces(s, bias, va);
  }

  lemma CoveredPlaces(s: Segment, bias: nat, va: nat)
    requires s.vaddr + bias <= va < s.vaddr + bias + s.memsz && s.vaddr + bias + s.memsz + PAGE <= WORD
    ensures StartPage(s, bias) <= va < EndPage(s, bias) && W64(s.vaddr + bias) == s.vaddr + bias
    ensures PageOf(va) == va / 4096 * 4096
  {
    RoundingIs(s.vaddr + bias + s.memsz, 0);
    RoundingIs(s.vaddr + bias, 0);
  }

  lemma LoadIsImage(m0: Memory, m: Memory, root: nat, data: seq<PageBytes>, image: seq<byte>, free0: set<nat>,
                    free: set<nat>, fs: seq<nat>)
    requires Fits(m0, root, image) && Holding(m0, m, root, free0, free, fs)
    requires var jobs := JobsOf(SegmentsOf(image), Bias(image), Count(image));
      Contents(data, image, Bias(image), jobs, fs) && ListMapped(m0, m, root, PagePaths(PagesOf(jobs)), fs) &&
      Leaves(m, root, PagePaths(PagesOf(jobs)), JobLeaves(jobs, Bias(image), fs))
    ensures ImageLoaded(m0, m, root, data, image, free0, free)
  {
    var segs, bias := SegmentsOf(image), Bias(image);
    ImageIsLoaded(m0, m, root, data, image, segs, bias, fs);
    forall i, va: nat | 0 <= i < |segs| && Loaded(segs[i]) && InWindow(va, segs[i], bias)
      ensures Translate(m, root, PathOf(va)).Some? && Translate(m, root, PathOf(va)).value in free0 &&
              Translate(m, root, PathOf(va)).value !in free
    {
      FrameIsOwn(m0, m, root, segs, bias, free0, free, fs, i, va);
    }
    SegmentsRead(m0, m, root, data, image, segs, bias, fs);
  }

  lemma SegmentsRead(m0: Memory, m: Memory, root: nat, data: seq<PageBytes>, image: seq<byte>, segs: seq<Segment>,
                     bias: nat, fs: seq<nat>)
    requires Roomy(segs, bias) && ImageReads(m, root, data, image, segs, bias)
    requires forall i {:trigger segs[i]} :: 0 <= i < |segs| && segs[i].kind == PT_LOAD ==> Placed(segs[i], |image|)
    requires var jobs := JobsOf(segs, bias, |segs|);
      ListMapped(m0, m, root, PagePaths(PagesOf(jobs)), fs) &&
      Leaves(m, root, PagePaths(PagesOf(jobs)), JobLeaves(jobs, bias, fs))
    ensures SegmentBytes(m, root, data, image, segs, bias) && Permitted(m, root, segs, bias)
  {
    forall i, va: nat | 0 <= i < |segs| && Covers(segs[i], bias, va)
      ensures segs[i].offset + segs[i].filesz <= |image|
      ensures var k := va - segs[i].vaddr - bias;
              ReadByte(m, root, data, va) == Some(if k < segs[i].filesz then image[segs[i].offset + k] else 0)
      ensures Permits(m, root, PathOf(va), segs[i], InFile(segs[i], bias, va / 4096 * 4096))
    {
      CoveredInWindow(segs[i], bias, va, image);
      AddressPermits(m0, m, root, segs, bias, fs, i, va);
    }
  }

  /** What an address of a segment may be used for. */
  lemma AddressPermits(m0: Memory, m: Memory, root: nat, segs: seq<Segment>, bias: nat, fs: seq<nat>, i: nat, va: nat)
    requires i < |segs| && Loaded(segs[i]) && InWindow(va, segs[i], bias)
    requires var jobs := JobsOf(segs, bias, |segs|);
      ListMapped(m0, m, root, PagePaths(PagesOf(jobs)), fs) &&
      Leaves(m, root, PagePaths(PagesOf(jobs)), JobLeaves(jobs, bias, fs))
    ensures Permits(m, root, PathOf(va), segs[i], Touches(Job(PageOf(va), segs[i]), bias))
  {
    var t := MappedTo(m0, m, root, segs, bias, fs, i, va);
    var jobs := JobsOf(segs, bias, |segs|);
    PageOfWindow(va, segs[i], bias);
    SamePage(va, PageOf(va));
    assert Shown(true);
    assert PagePaths(PagesOf(jobs))[t] == PathOf(PagesOf(jobs)[t]);
    assert LeafIs(m, root, PathOf(va), JobLeaves(jobs, bias, fs)[t]);
    LeafPermits(m, root, PathOf(va), jobs[t], bias, fs[t]);
  }

  lemma LeafPermits(m: Memory, root: nat, p: Path, job: Job, bias: nat, f: nat)
    requires LeafIs(m, root, p, JobLeaf(job, bias, f))
    ensures Permits(m, root, p, job.seg, Touches(job, bias))
  {
    var write := !Touches(job, bias) || job.seg.flags / 2 % 2 == 1;
    LeafFlags(write);
    LetsDown(m, root, p, USER);
    LetsDown(m, root, p, WRITABLE);
  }

  lemma FrameIsOwn(m0: Memory, m: Memory, root: nat, segs: seq<Segment>, bias: nat, free0: set<nat>, free: set<nat>,
                   fs: seq<nat>, i: nat, va: nat)
    requires i < |segs| && Loaded(segs[i]) && InWindow(va, segs[i], bias) && Holding(m0, m, root, free0, free, fs)
    requires ListMapped(m0, m, root, PagePaths(PagesOf(JobsOf(segs, bias, |segs|))), fs)
    ensures Translate(m, root, PathOf(va)).Some? && Translate(m, root, PathOf(va)).value in free0 &&
            Translate(m, root, PathOf(va)).value !in free
  {
    var f := MappedTo(m0, m, root, segs, bias, fs, i, va);
    assert Shown(true);
    assert fs[f] in fs && fs[f] in HeldSet(fs);
  }

  /** The least four frames a page are enough. */
  lemma NotStarved(free: set<nat>, n: nat)
    ensures n <= MAX_MAPPED && 4 * n <= |free| ==> !Starved(free, n)
  {
    assert Counted(true);
  }

  /** Bytes of the file, or the place for them, lie in a page. */
  predicate Touches(job: Job, bias: nat) {
    W64(job.seg.vaddr + bias) < job.page + PAGE && job.page < W64(job.seg.vaddr + bias) + job.seg.filesz
  }

  /** The last-level entry of a page: with the segment's flags if bytes of the file lie in it, and open to everything
      if it is all zero. */
  function JobLeaf(job: Job, bias: nat, f: nat): Entry {
    if Touches(job, bias)
    then LeafEntry(f, PRESENT | USER | (if job.seg.flags / 2 % 2 == 1 then WRITABLE else 0), job.seg.flags % 2 == 0)
    else LeafEntry(f, PRESENT | WRITABLE | USER, false)
  }

  ghost function JobLeaves(jobs: seq<Job>, bias: nat, fs: seq<nat>): (es: seq<Entry>)
    ensures |jobs| == |fs| ==> |es| == |jobs| && forall k {:trigger es[k]} :: 0 <= k < |jobs| ==>
              es[k] == JobLeaf(jobs[k], bias, fs[k])
  {
    if |jobs| != |fs| then []
    else seq(|jobs|, k requires 0 <= k < |jobs| => JobLeaf(jobs[k], bias, fs[k]))
  }

  /** A page just mapped, open to user access, writing and execution. */
  ghost predicate OpenPage(m: Memory, root: nat, p: Path, f: nat)
    requires |p| == 4
  {
    Lets(m, root, p, Passed(PRESENT | WRITABLE | USER)) &&
      EntryAt(m, root, p[..3], p[3]) == Some(LeafEntry(f, PRESENT | WRITABLE | USER, false))
  }

  lemma LeavesSnoc(all: seq<Job>, bias: nat, n: nat, fs: seq<nat>, f: nat)
    requires n < |all| && |fs| == n
    ensures JobLeaves(all[..n + 1], bias, fs + [f]) == JobLeaves(all[..n], bias, fs) + [JobLeaf(all[n], bias, f)]
  {
    var es, ds := JobLeaves(all[..n + 1], bias, fs + [f]), JobLeaves(all[..n], bias, fs) + [JobLeaf(all[n], bias, f)];
    forall k | 0 <= k <= n ensures es[k] == ds[k] {
      if k < n { assert all[..n + 1][k] == all[..n][k] && (fs + [f])[k] == fs[k]; }
    }
  }

  /** A page has been mapped open to everything. */
  lemma PageOpened(m: Memory, m': Memory, root: nat, bias: nat, all: seq<Job>, n: nat, fs: seq<nat>, f: nat)
    requires n < |all| && |fs| == n && Leaves(m, root, PagePaths(PagesOf(all[..n])), JobLeaves(all[..n], bias, fs))
    requires KeepsBut(m, m', root, []) && OpenPage(m', root, PathOf(all[n].page), f)
    ensures Leaves(m', root, PagePaths(PagesOf(all[..n])) + [PathOf(all[n].page)],
                   JobLeaves(all[..n], bias, fs) + [LeafEntry(f, PRESENT | WRITABLE | USER, false)])
    ensures !Touches(all[n], bias) ==>
              Leaves(m', root, PagePaths(PagesOf(all[..n + 1])), JobLeaves(all[..n + 1], bias, fs + [f]))
  {
    LeavesGrow(m, m', root, PagePaths(PagesOf(all[..n])), JobLeaves(all[..n], bias, fs), PathOf(all[n].page), f, false);
    PagesSnoc(all, n);
    LeavesSnoc(all, bias, n, fs, f);
  }

  /** And then given its flags. */
  lemma PageGuarded(m: Memory, m': Memory, root: nat, bias: nat, all: seq<Job>, n: nat, fs: seq<nat>, f: nat)
    requires n < |all| && |fs| == n && KeepsBut(m, m', root, PathOf(all[n].page))
    requires DistinctPaths(PagePaths(PagesOf(all[..n])) + [PathOf(all[n].page)])
    requires Leaves(m, root, PagePaths(PagesOf(all[..n])) + [PathOf(all[n].page)],
                    JobLeaves(all[..n], bias, fs) + [LeafEntry(f, PRESENT | WRITABLE | USER, false)])
    requires var p := PathOf(all[n].page); EntryAt(m', root, p[..3], p[3]) == Some(JobLeaf(all[n], bias, f))
    ensures Leaves(m', root, PagePaths(PagesOf(all[..n + 1])), JobLeaves(all[..n + 1], bias, fs + [f]))
  {
    JobLeafPresent(all[n], bias, f);
    LeavesSet(m, m', root, PagePaths(PagesOf(all[..n])), JobLeaves(all[..n], bias, fs), PathOf(all[n].page),
              LeafEntry(f, PRESENT | WRITABLE | USER, false), JobLeaf(all[n], bias, f));
    PagesSnoc(all, n);
    LeavesSnoc(all, bias, n, fs, f);
  }

  lemma JobLeafPresent(job: Job, bias: nat, f: nat)
    ensures Present(JobLeaf(job, bias, f))
  {
    PresentFlags(PRESENT | USER | (if job.seg.flags / 2 % 2 == 1 then WRITABLE else 0));
  }

  lemma PresentFlags(low: bv12)
    ensures (low | PRESENT) & PRESENT != 0 && ((PRESENT | WRITABLE | USER) | PRESENT) & PRESENT != 0
  {
  }

  lemma ListedLast(m0: Memory, m: Memory, root: nat, ps: seq<Path>, p: Path, fs: seq<nat>, f: nat)
    requires ListMapped(m0, m, root, ps + [p], fs + [f]) && |ps| == |fs|
    ensures DistinctPaths(ps + [p]) && |p| == 4 && Translate(m, root, p) == Some(f)
  {
    assert Shown(true);
    assert (ps + [p])[|ps|] == p;
  }

  lemma LeafFlags(write: bool)
    ensures var low := (PRESENT | USER | (if write then WRITABLE else 0)) | PRESENT;
            low & PRESENT != 0 && low & USER == USER && (low & WRITABLE == WRITABLE <==> write)
    ensures PRESENT | USER | WRITABLE == PRESENT | WRITABLE | USER
    ensures (USER | WRITABLE) & USER == USER && (USER | WRITABLE) & WRITABLE == WRITABLE
  {
  }

  /** A page lets through what its last-level entry does, if the tables above let user access and writing through. */
  lemma LetsDown(m: Memory, root: nat, p: Path, flag: bv12)
    requires |p| == 4 && Lets(m, root, p[..3], USER | WRITABLE) && (flag == USER || flag == WRITABLE)
    requires EntryAt(m, root, p[..3], p[3]).Some? && Present(EntryAt(m, root, p[..3], p[3]).value)
    ensures Lets(m, root, p, flag) <==> EntryAt(m, root, p[..3], p[3]).value.low & flag == flag
  {
    LetsLess(m, root, p[..3], USER | WRITABLE, flag);
    assert Flagged(true);
  }

  lemma StartsEmpty(m: Memory, root: nat, free: set<nat>)
    requires TreeOk(m, root, free)
    ensures Holding(m, m, root, free, free, []) && ListMapped(m, m, root, PagePaths(PagesOf([])), []) &&
            Spent(free, free, 0)
    ensures forall bias :: Leaves(m, root, PagePaths(PagesOf([])), JobLeaves([], bias, []))
  {
    HoldingNone(m, root, free);
    ListMappedNone(m, root);
    assert PagePaths(PagesOf([])) == [];
  }

  ghost predicate Untouched(data0: seq<PageBytes>, data: seq<PageBytes>, free0: set<nat>) {
    |data| == |data0| && forall g: nat {:trigger data[g]} :: g < |data| && g !in free0 ==> data[g] == data0[g]
  }

  /** One more frame has been filled. */
  lemma OneMoreFilled(data0: seq<PageBytes>, was: seq<PageBytes>, data: seq<PageBytes>, free0: set<nat>,
                      image: seq<byte>, bias: nat,
                      all: seq<Job>, n: nat, fs: seq<nat>, f: nat)
    requires n < |all| && Contents(was, image, bias, all[..n], fs) && Untouched(data0, was, free0)
    requires f < |was| && f in free0 && f !in fs && data == was[f := PageImage(image, all[n], bias)]
    ensures Contents(data, image, bias, all[..n + 1], fs + [f]) && Untouched(data0, data, free0)
  {
    var jobs, gs := all[..n + 1], fs + [f];
    forall k {:trigger jobs[k]} {:trigger gs[k]} | 0 <= k < |jobs|
      ensures gs[k] < |data| && data[gs[k]] == PageImage(image, jobs[k], bias)
    {
      if k < n { assert jobs[k] == all[..n][k] && fs[k] in fs; }
    }
  }

  /** Too many pages, or too few frames for n pages. */
  ghost predicate Starved(free: set<nat>, n: nat) { n > MAX_MAPPED || (n > 0 && Spent(free, {}, 4 * n - 1)) }

  lemma SpentStarves(free: set<nat>, k: nat, n: nat)
    requires Spent(free, {}, 4 * k + 3) && k < n
    ensures n > 0 && Spent(free, {}, 4 * n - 1)
  {
    assert Counted(true);
  }

  lemma MorePages(s: Segment, bias: nat, page: nat, k: nat)
    requires page == StartPage(s, bias) + PAGE * k && page < EndPage(s, bias) && page % PAGE == 0
    ensures k < PageCount(s, bias)
  {
  }

  /** The k-th page of a segment. Stated behind a quantifier, so that only proofs that mention `Counting` see the
      arithmetic. */
  ghost predicate AtPage(s: Segment, bias: nat, k: nat, page: nat) {
    forall x {:trigger Counting(x)} :: Counting(x) ==>
      page == StartPage(s, bias) + PAGE * k && page % PAGE == 0 && k <= PageCount(s, bias)
  }

  ghost predicate Counting(x: bool) { true }

  /** A segment is well placed, stated like that. */
  ghost predicate InPlace(s: Segment, len: nat) { forall x {:trigger Counting(x)} :: Counting(x) ==> Placed(s, len) }

  lemma PlacedIn(s: Segment, len: nat)
    requires InPlace(s, len)
    ensures Placed(s, len)
  {
    assert Counting(true);
  }

  lemma FirstPage(s: Segment, bias: nat)
    ensures AtPage(s, bias, 0, StartPage(s, bias))
  {
  }

  /** The jobs from the m-th on are those of a segment. */
  ghost predicate FollowsOn(all: seq<Job>, m: nat, s: Segment, bias: nat) {
    forall x {:trigger Counting(x)} :: Counting(x) ==>
      m + PageCount(s, bias) <= |all| && all[m..m + PageCount(s, bias)] == SegmentJobs(s, bias, PageCount(s, bias))
  }

  lemma NextFollows(all: seq<Job>, m: nat, s: Segment, bias: nat, k: nat, page: nat)
    requires FollowsOn(all, m, s, bias) && AtPage(s, bias, k, page) && page < EndPage(s, bias)
    ensures AtPage(s, bias, k + 1, page + PAGE) && m + k < |all| && all[m + k] == Job(page, s)
    ensures InWindow(page, s, bias) && page % PAGE == 0
  {
    assert Counting(true);
    MorePages(s, bias, page, k);
    assert all[m + k] == all[m..m + PageCount(s, bias)][k];
  }

  lemma SegmentFollows(segs: seq<Segment>, bias: nat, n: nat)
    requires n < |segs| && Loaded(segs[n])
    ensures FollowsOn(JobsOf(segs, bias, |segs|), |JobsOf(segs, bias, n)|, segs[n], bias)
    ensures |JobsOf(segs, bias, n + 1)| == |JobsOf(segs, bias, n)| + PageCount(segs[n], bias)
  {
    var all, before, part := JobsOf(segs, bias, |segs|), JobsOf(segs, bias, n), PageCount(segs[n], bias);
    JobsPrefix(segs, bias, n, part, |segs|);
    var now := before + SegmentJobs(segs[n], bias, part);
    assert all[|before|..|before| + part] == now[|before|..];
  }

  lemma LastPage(s: Segment, bias: nat, k: nat, page: nat)
    requires AtPage(s, bias, k, page) && page >= EndPage(s, bias)
    ensures k == PageCount(s, bias)
  {
    assert Counting(true);
  }
}
