/** The heap of a user program: pages mapped to fresh frames up to the break, and taken back when the break moves
    down. */
module UserHeap {
  import opened Options
  import opened Bitmaps
  import opened PhysMemory
  import opened PageEntries
  import opened PageTables
  import opened PageAccess
  import opened Paging
  import opened PageLists

  const USER_TOP: nat := 0x8000_0000_0000

  type PageBytes = s: seq<int> | |s| == PAGE_SIZE witness seq(PAGE_SIZE, _ => 0)

  function PageUp(a: nat): (r: nat)
    ensures r % PAGE_SIZE == 0 && a <= r < a + PAGE_SIZE
  {
    (a + PAGE_SIZE - 1) / PAGE_SIZE * PAGE_SIZE
  }

  ghost predicate Rounding(x: bool) { true }

  /** An address is another rounded up to a page. Stated behind a quantifier, like the predicates below, so that only
      proofs that mention `Rounding` see through it. */
  ghost predicate RoundsTo(a: nat, r: nat) { forall x {:trigger Rounding(x)} :: Rounding(x) ==> r == PageUp(a) }

  method RoundUp(a: nat) returns (r: nat)
    ensures RoundsTo(a, r) && r % PAGE_SIZE == 0
  {
    r := PageUp(a);
  }

  lemma AlignedOrder(page: nat, a: nat, r: nat)
    requires Aligned(page) && r == PageUp(a)
    ensures r <= page <==> a <= page
  {
  }

  /** Rounded addresses are in order, and whole pages apart. */
  lemma RoundedApart(a: nat, b: nat, r: nat, s: nat) returns (n: nat)
    requires RoundsTo(a, r) && RoundsTo(b, s) && a <= b
    ensures s == r + PAGE_SIZE * n
  {
    assert Rounding(true);
    n := (s - r) / PAGE_SIZE;
  }

  lemma RoundedBelow(a: nat, r: nat)
    requires RoundsTo(a, r) && a <= USER_TOP - PAGE_SIZE
    ensures r <= USER_TOP && r % PAGE_SIZE == 0
  {
    assert Rounding(true);
  }

  lemma RoundedZero()
    ensures RoundsTo(0, 0)
  {
  }

  /** The paths of n pages from a first one on. */
  ghost function HeapPaths(first: nat, n: nat): (ps: seq<Path>)
    ensures |ps| == n
  {
    if n == 0 then [] else HeapPaths(first, n - 1) + [PathOf(first + PAGE_SIZE * (n - 1))]
  }

  lemma {:induction false} HeapPathAt(first: nat, n: nat, k: nat)
    requires k < n
    ensures HeapPaths(first, n)[k] == PathOf(first + PAGE_SIZE * k) && HeapPaths(first, n)[..k] == HeapPaths(first, k)
  {
    if k < n - 1 {
      HeapPathAt(first, n - 1, k);
      assert HeapPaths(first, n)[..k] == HeapPaths(first, n - 1)[..k];
    }
  }

  lemma SameAsBefore(m: Memory, root: nat)
    ensures SameTranslation(m, m, root)
  {
  }

  lemma AlignedStep(first: nat, k: nat)
    requires first % PAGE_SIZE == 0
    ensures (first + PAGE_SIZE * k) % PAGE_SIZE == 0
  {
  }

  lemma PathsApart(a: nat, b: nat)
    requires a < b && a % PAGE_SIZE == 0 && b % PAGE_SIZE == 0 && b < USER_TOP
    ensures PathOf(a) != PathOf(b)
  {
    PathDetermines(a, b);
  }

  /** The pages of the heap have paths of their own. */
  lemma HeapDistinct(first: nat, n: nat)
    requires first % PAGE_SIZE == 0 && first + PAGE_SIZE * n <= USER_TOP
    ensures DistinctPaths(HeapPaths(first, n))
  {
    var ps := HeapPaths(first, n);
    forall i, j {:trigger Pair(i, j)} | 0 <= i < j < n ensures ps[i] != ps[j] { HeapPair(first, n, i, j); }
    forall i {:trigger ps[i]} | 0 <= i < n ensures |ps[i]| == 4 && ps[i][3] < 512 { HeapPathAt(first, n, i); }
  }

  lemma HeapPair(first: nat, n: nat, i: nat, j: nat)
    requires first % PAGE_SIZE == 0 && first + PAGE_SIZE * n <= USER_TOP && i < j < n
    ensures HeapPaths(first, n)[i] != HeapPaths(first, n)[j]
  {
    HeapPathAt(first, n, i);
    HeapPathAt(first, n, j);
    AlignedStep(first, i);
    AlignedStep(first, j);
    PathsApart(first + PAGE_SIZE * i, first + PAGE_SIZE * j);
  }

  /** A page that is neither mapped now nor one of the list was not mapped to begin with. */
  lemma NewPage(m0: Memory, m: Memory, root: nat, ps: seq<Path>, fs: seq<nat>, p: Path)
    requires ListMapped(m0, m, root, ps, fs) && |p| == 4 && Translate(m, root, p) == None
    ensures p !in ps && Translate(m0, root, p) == None
  {
    assert Shown(true);
  }

  ghost predicate Unfolded(x: bool) { true }

  /** The last-level entries of heap pages: for user access and writing, not for execution. */
  ghost function HeapLeaves(fs: seq<nat>): (es: seq<Entry>)
    ensures |es| == |fs|
    ensures forall i {:trigger es[i]} :: 0 <= i < |fs| ==> es[i] == LeafEntry(fs[i], PRESENT | WRITABLE | USER, true)
  {
    seq(|fs|, i requires 0 <= i < |fs| => LeafEntry(fs[i], PRESENT | WRITABLE | USER, true))
  }

  lemma LeavesOfRest(fs: seq<nat>, k: nat, f: nat)
    ensures k < |fs| ==> HeapLeaves(Removed(fs, k)) == Removed(HeapLeaves(fs), k)
    ensures HeapLeaves(fs + [f]) == HeapLeaves(fs) + [LeafEntry(f, PRESENT | WRITABLE | USER, true)]
  {
  }

  class Heap {
    const mmu: Mmu
    var data: seq<PageBytes>     // what each physical frame holds
    var base: nat
    var limit: nat
    var brk: nat
    ghost var m0: Memory         // memory and free frames when the heap was set up
    ghost var free0: set<nat>
    ghost var first: nat         // the first page, and
    ghost var held: seq<nat>     // the frames of the pages, in order

    constructor (mmu: Mmu, data: seq<PageBytes>)
      requires mmu.Valid() && |data| == MAX_PAGES
      ensures Valid() && this.mmu == mmu && this.data == data && base == limit == brk == 0
    {
      this.mmu, this.data, base, limit, brk := mmu, data, 0, 0, 0;
      m0, free0, first, held := mmu.frames, mmu.phys.bits.free, 0, [];
      new;
      StartEmpty();
      assert Unfolded(true);
      RoundedZero();
    }

    /** From the first page on, as many pages as there are frames held are mapped to these, and nothing else has moved
        since the heap was set up. */
    ghost predicate Mapped(first: nat, fs: seq<nat>)
      reads this, mmu, mmu.phys, mmu.phys.bits, mmu.phys.bits.bytes
    {
      |data| == MAX_PAGES && forall x {:trigger Unfolded(x)} :: Unfolded(x) ==> MappedFacts(first, fs)
    }

    ghost predicate MappedFacts(first: nat, fs: seq<nat>)
      reads this, mmu, mmu.phys, mmu.phys.bits, mmu.phys.bits.bytes
    {
      && mmu.Valid() && (forall i {:trigger fs[i]} :: 0 <= i < |fs| ==> 0 < fs[i] < MAX_PAGES)
      && first % PAGE_SIZE == 0 && first + PAGE_SIZE * |fs| <= USER_TOP
      && Holding(m0, mmu.frames, mmu.root, free0, mmu.phys.bits.free, fs)
      && ListMapped(m0, mmu.frames, mmu.root, HeapPaths(first, |fs|), fs)
      && Leaves(mmu.frames, mmu.root, HeapPaths(first, |fs|), HeapLeaves(fs))
    }

    ghost predicate Valid()
      reads this, mmu, mmu.phys, mmu.phys.bits, mmu.phys.bits.bytes
    {
      base <= brk <= limit <= USER_TOP - PAGE_SIZE && (base == 0 ==> limit == 0) && RoundsTo(base, first) &&
        RoundsTo(brk, End()) && Mapped(first, held)
    }

    /** Where the pages of the heap end. */
    ghost function End(): nat
      reads this
    {
      first + PAGE_SIZE * |held|
    }

    lemma StartEmpty()
      requires mmu.Valid() && mmu.frames == m0 && mmu.phys.bits.free == free0 && held == []
      ensures Holding(m0, mmu.frames, mmu.root, free0, mmu.phys.bits.free, held)
      ensures ListMapped(m0, mmu.frames, mmu.root, HeapPaths(first, 0), held)
      ensures Leaves(mmu.frames, mmu.root, HeapPaths(first, 0), HeapLeaves(held))
    {
      HoldingNone(m0, mmu.root, free0);
      ListMappedNone(m0, mmu.root);
    }

    // ---- One page ----

    /** Takes a page back, if it is mapped: unmaps it and frees its frame. */
    method UnmapPage(page: nat, ghost ps: seq<Path>, ghost fs: seq<nat>, ghost k: nat)
      requires mmu.Valid() && k < |ps| == |fs| && ps[k] == PathOf(page) && Aligned(page) && 0 < fs[k] < MAX_PAGES
      requires Holding(m0, mmu.frames, mmu.root, free0, mmu.phys.bits.free, fs) &&
               ListMapped(m0, mmu.frames, mmu.root, ps, fs) && Leaves(mmu.frames, mmu.root, ps, HeapLeaves(fs))
      modifies mmu`frames, mmu.phys`freePages, mmu.phys.bits`free, mmu.phys.bits.bytes
      ensures mmu.Valid() && Holding(m0, mmu.frames, mmu.root, free0, mmu.phys.bits.free, Removed(fs, k))
      ensures ListMapped(m0, mmu.frames, mmu.root, Removed(ps, k), Removed(fs, k))
      ensures Leaves(mmu.frames, mmu.root, Removed(ps, k), HeapLeaves(Removed(fs, k)))
    {
      ghost var m, free := mmu.frames, mmu.phys.bits.free;
      ListIsSmall(m0, m, mmu.root, free, ps, fs, k);
      var phys := mmu.GetPhys(page, mmu.phys.bits.free);
      assert phys == fs[k] * PAGE_SIZE;
      if phys != 0 {
        mmu.UnmapPage(page, mmu.phys.bits.free);
        KeptSame(m, mmu.root, free);
        HoldingGrows(m0, m, mmu.frames, mmu.root, free0, free, free, fs);
        ListShrinks(m0, m, mmu.frames, mmu.root, free, ps, fs, k);
        ListIsDistinct(m0, m, mmu.root, ps, fs);
        LeavesShrink(m, mmu.frames, mmu.root, ps, HeapLeaves(fs), k);
        LeavesOfRest(fs, k, 0);
        HoldingGive(m0, mmu.frames, mmu.root, free0, free, fs, k);
        mmu.phys.FreePage(phys);
      }
    }

    /** Takes back all pages from the k-th on, first to last. */
    method UnmapRange(start: nat, end: nat, ghost first: nat, ghost fs: seq<nat>, ghost k: nat)
      requires Mapped(first, fs) && k <= |fs| && start == first + PAGE_SIZE * k && end == first + PAGE_SIZE * |fs|
      modifies mmu`frames, mmu.phys`freePages, mmu.phys.bits`free, mmu.phys.bits.bytes
      ensures Mapped(first, fs[..k])
    {
      assert Unfolded(true);
      var page := start;
      ghost var i, all := 0, HeapPaths(first, |fs|);
      ghost var left, ps := fs, all;
      while page < end
        invariant k + i <= |fs| && page == start + PAGE_SIZE * i && mmu.Valid()
        invariant left == fs[..k] + fs[k + i..] && ps == all[..k] + all[k + i..]
        invariant Holding(m0, mmu.frames, mmu.root, free0, mmu.phys.bits.free, left) &&
                  ListMapped(m0, mmu.frames, mmu.root, ps, left)
        invariant Leaves(mmu.frames, mmu.root, ps, HeapLeaves(left))
        decreases end - page
      {
        HeapPathAt(first, |fs|, k + i);
        AlignedStep(first, k + i);
        RestRemoved(fs, k, i);
        RestRemoved(all, k, i);
        UnmapPage(page, ps, left, k);
        left, ps := Removed(left, k), Removed(ps, k);
        page, i := page + PAGE_SIZE, i + 1;
      }
      assert left == fs[..k] && ps == all[..k];
      if k < |fs| { HeapPathAt(first, |fs|, k); }
    }

    /** Maps one page to a fresh frame and clears it. */
    method MapPage(page: nat, ghost first: nat, ghost fs: seq<nat>) returns (ok: bool, ghost f: nat)
      requires Mapped(first, fs) && page == first + PAGE_SIZE * |fs| && page < USER_TOP
      modifies `data, mmu`frames, mmu.phys`freePages, mmu.phys.bits`free, mmu.phys.bits.bytes
      ensures ok ==>
                f in old(mmu.phys.bits.free) && f < MAX_PAGES && Mapped(first, fs + [f]) &&
                data == old(data)[f := seq(PAGE_SIZE, _ => 0)]
      ensures !ok ==> Mapped(first, fs) && data == old(data)
      ensures mmu.phys.bits.free <= old(mmu.phys.bits.free)
      ensures ok ==> f !in fs && Spent(old(mmu.phys.bits.free), mmu.phys.bits.free, 4)
      ensures !ok ==> Translate(old(mmu.frames), mmu.root, PathOf(page)).Some? || Spent(old(mmu.phys.bits.free), {}, 3)
    {
      assert Unfolded(true);
      AlignedStep(first, |fs|);
      ghost var m, free, ps := mmu.frames, mmu.phys.bits.free, HeapPaths(first, |fs|);
      f := 0;
      var there := mmu.GetPhys(page, mmu.phys.bits.free);
      if there != 0 { return false, f; }
      var frame;
      ok, frame := mmu.MapFresh(page, PRESENT | WRITABLE | USER, true);
      f := frame;
      if !ok {
        HoldingGrows(m0, m, mmu.frames, mmu.root, free0, free, mmu.phys.bits.free, fs);
        ListStays(m0, m, mmu.frames, mmu.root, free, mmu.phys.bits.free, ps, fs);
        LeavesStay(m, mmu.frames, mmu.root, ps, HeapLeaves(fs));
        return;
      }
      TakenWasFree(m0, m, mmu.root, free0, free, fs, f);
      HeapSnoc(first, |fs|, page);
      PageJoins(m0, m, mmu.frames, mmu.root, free0, free, mmu.phys.bits.free, ps, fs, PathOf(page), f);
      LeavesGrow(m, mmu.frames, mmu.root, ps, HeapLeaves(fs), PathOf(page), f, true);
      LeavesOfRest(fs, 0, f);
      data := data[frame := seq(PAGE_SIZE, _ => 0)];
    }

    // ---- The break ----

    /** Maps one page more of a growing heap. */
    method GrowOne(page: nat, ghost first: nat, ghost fs: seq<nat>, ghost k: nat, ghost m: Memory,
                   ghost free: set<nat>) returns (ok: bool, ghost fs': seq<nat>)
      requires Mapped(first, fs) && first % PAGE_SIZE == 0 && page == first + PAGE_SIZE * |fs| &&
               page < USER_TOP && k <= |fs|
      requires ListMapped(m0, m, mmu.root, HeapPaths(first, k), fs[..k])
      requires Spent(free, mmu.phys.bits.free, 4 * (|fs| - k)) && mmu.phys.bits.free <= free && Cleared(data, fs, k)
      modifies `data, mmu`frames, mmu.phys`freePages, mmu.phys.bits`free, mmu.phys.bits.bytes
      ensures Mapped(first, fs') && |data| == |old(data)| && mmu.phys.bits.free <= free
      ensures forall g {:trigger data[g]} :: 0 <= g < |data| && g !in free ==> data[g] == old(data)[g]
      ensures if ok
              then |fs'| == |fs| + 1 && fs <= fs' && Spent(free, mmu.phys.bits.free, 4 * (|fs'| - k)) &&
                Cleared(data, fs', k)
              else fs' == fs
      ensures !ok ==> Translate(m, mmu.root, PathOf(page)).Some? || Spent(free, {}, 4 * (|fs| - k) + 3)
    {
      assert Unfolded(true);
      ghost var m1, free1 := mmu.frames, mmu.phys.bits.free;
      ghost var f;
      ok, f := MapPage(page, first, fs);
      fs' := if ok then fs + [f] else fs;
      if ok {
        SpentTrans(free, free1, mmu.phys.bits.free, 4 * (|fs| - k), 4);
        ClearedMore(old(data), fs, k, f);
      } else {
        HeapElsewhere(m0, m, m1, mmu.root, first, fs, k, page);
        if Spent(free1, {}, 3) { SpentTrans(free, free1, {}, 4 * (|fs| - k), 3); }
      }
    }

    /** Takes back the pages behind those of the heap: nothing has moved. */
    method TakeBack(from: nat, page: nat, ghost first: nat, ghost fs: seq<nat>, ghost m: Memory)
      requires Mapped(first, fs) && held <= fs && from == first + PAGE_SIZE * |held| && page == first + PAGE_SIZE * |fs|
      requires ListMapped(m0, m, mmu.root, HeapPaths(first, |held|), held)
      modifies mmu`frames, mmu.phys`freePages, mmu.phys.bits`free, mmu.phys.bits.bytes
      ensures Mapped(first, held) && SameTranslation(m, mmu.frames, mmu.root)
    {
      UnmapRange(from, page, first, fs, |held|);
      assert fs[..|held|] == held;
      assert Unfolded(true);
      SameList(m0, m, mmu.frames, mmu.root, HeapPaths(first, |held|), held);
    }

    /** Maps n pages, up to an address, behind those there are, and clears them; or takes them back again. */
    method Grow(from: nat, end: nat, ghost first: nat, ghost n: nat) returns (ok: bool)
      requires Mapped(first, held) && from == first + PAGE_SIZE * |held| && end == from + PAGE_SIZE * n <= USER_TOP &&
               first % PAGE_SIZE == 0
      modifies `data, `held, mmu`frames, mmu.phys`freePages, mmu.phys.bits`free, mmu.phys.bits.bytes
      ensures Mapped(first, held) && |data| == |old(data)|
      ensures forall g {:trigger data[g]} :: 0 <= g < |data| && g !in old(mmu.phys.bits.free) ==>
                data[g] == old(data)[g]
      ensures if ok then old(held) <= held && |held| == |old(held)| + n && Cleared(data, held, |old(held)|)
              else held == old(held) && SameTranslation(old(mmu.frames), mmu.frames, mmu.root)
      ensures !ok ==> Blocked(old(mmu.frames), mmu.root, old(mmu.phys.bits.free), from, n)
    {
      ghost var m, free, k := mmu.frames, mmu.phys.bits.free, |held|;
      ghost var fs := held;
      var page := from;
      StartsSpent(free);
      assert fs[..k] == held;
      assert ListMapped(m0, m, mmu.root, HeapPaths(first, k), held) by { assert Unfolded(true); }
      while page < end
        invariant Mapped(first, fs) && page == first + PAGE_SIZE * |fs| && |fs| <= k + n && held <= fs &&
                  held == old(held)
        invariant Spent(free, mmu.phys.bits.free, 4 * (|fs| - k)) && mmu.phys.bits.free <= free && Cleared(data, fs, k)
        invariant |data| == |old(data)| && forall g {:trigger data[g]} :: 0 <= g < |data| && g !in free ==>
                  data[g] == old(data)[g]
        decreases end - page
      {
        assert fs[..k] == held;
        ok, fs := GrowOne(page, first, fs, k, m, free);
        if !ok {
          IsBlocked(m, mmu.root, free, from, page, n, |fs| - k);
          TakeBack(from, page, first, fs, m);
          return;
        }
        page := page + PAGE_SIZE;
      }
      held := fs;
      ok := true;
    }

    /** What a heap comes to: the pages between its base and its break lead to frames of their own, and every other user
        page where it led when the heap was set up. */
    lemma HeapMaps(page: nat)
      requires Valid() && Aligned(page) && page < USER_TOP
      ensures Translate(mmu.frames, mmu.root, PathOf(page)) ==
              if first <= page < End() then Some(held[(page - first) / PAGE_SIZE])
              else Translate(m0, mmu.root, PathOf(page))
    {
      assert Unfolded(true);
      PageLeads(m0, mmu.frames, mmu.root, first, held, page);
    }

    /** Every page that the heap reaches into, from its base up to its break, leads to a frame of the heap, and every
        other page where it led when the heap was set up. */
    lemma BreakMapped(page: nat)
      requires Valid() && Aligned(page) && page < USER_TOP
      ensures if base <= page < brk
              then Translate(mmu.frames, mmu.root, PathOf(page)).Some? &&
                Translate(mmu.frames, mmu.root, PathOf(page)).value in held
              else Translate(mmu.frames, mmu.root, PathOf(page)) == Translate(m0, mmu.root, PathOf(page))
    {
      HeapMaps(page);
      Reach(page);
    }

    lemma Reach(page: nat)
      requires Valid() && Aligned(page)
      ensures first <= page < End() <==> base <= page < brk
      ensures first <= page < End() ==> (page - first) / PAGE_SIZE < |held|
    {
      assert Unfolded(true);
      assert Rounding(true);
      AlignedOrder(page, base, first);
      AlignedOrder(page, brk, End());
    }

    /** Every page of the heap can be used and written in user mode, and none executed. */
    lemma HeapAccess(page: nat)
      requires Valid() && Aligned(page) && first <= page < End()
      ensures Lets(mmu.frames, mmu.root, PathOf(page), USER) && Lets(mmu.frames, mmu.root, PathOf(page), WRITABLE)
      ensures var p := PathOf(page);
              EntryAt(mmu.frames, mmu.root, p[..3], p[3]).Some? &&
              EntryAt(mmu.frames, mmu.root, p[..3], p[3]).value.high == 0x800
    {
      assert Unfolded(true);
      assert Shown(true);
      var k := (page - first) / PAGE_SIZE;
      PageInHeap(first, page, |held|);
      HeapPathAt(first, |held|, k);
      LeafLets(mmu.frames, mmu.root, PathOf(page), held[k], true);
    }

    /** Moves the break up. */
    method BreakUp(newBreak: nat) returns (ok: bool, ghost n: nat)
      requires Valid() && brk < newBreak <= limit
      modifies `data, `brk, `held, mmu`frames, mmu.phys`freePages, mmu.phys.bits`free, mmu.phys.bits.bytes
      ensures Valid() && |data| == |old(data)|
      ensures forall g {:trigger data[g]} :: 0 <= g < |data| && g !in old(mmu.phys.bits.free) ==>
                data[g] == old(data)[g]
      ensures if ok then brk == newBreak && old(held) <= held && |held| == |old(held)| + n &&
              Cleared(data, held, |old(held)|)
              else brk == old(brk) && held == old(held) && SameTranslation(old(mmu.frames), mmu.frames, mmu.root)
      ensures RoundsTo(newBreak, old(End()) + PAGE_SIZE * n)
      ensures !ok ==> Blocked(old(mmu.frames), mmu.root, old(mmu.phys.bits.free), End(), n)
    {
      var mapFrom := RoundUp(brk);
      var mapTo := RoundUp(newBreak);
      RoundsSame(brk, mapFrom, End());
      RoundedBelow(newBreak, mapTo);
      RoundedBelow(base, first);
      n := RoundedApart(brk, newBreak, mapFrom, mapTo);
      ok := Grow(mapFrom, mapTo, first, n);
      if ok { brk := newBreak; }
    }

    /** Moves the break down. */
    method BreakDown(newBreak: nat)
      requires Valid() && base <= newBreak <= brk
      modifies `brk, `held, mmu`frames, mmu.phys`freePages, mmu.phys.bits`free, mmu.phys.bits.bytes
      ensures Valid() && brk == newBreak && held <= old(held)
    {
      var mapFrom := RoundUp(brk);
      var mapTo := RoundUp(newBreak);
      RoundsSame(brk, mapFrom, End());
      ghost var k := RoundedApart(base, newBreak, first, mapTo);
      ghost var n := RoundedApart(newBreak, brk, mapTo, mapFrom);
      UnmapRange(mapTo, mapFrom, first, held, k);
      held := held[..k];
      brk := newBreak;
    }

    /** Moves the break, mapping or taking back whole pages; on a failure nothing has moved. */
    method SetBreak(newBreak: nat) returns (rc: int, ghost n: nat)
      requires Valid()
      modifies `data, `brk, `held, mmu`frames, mmu.phys`freePages, mmu.phys.bits`free, mmu.phys.bits.bytes
      ensures Valid() && |data| == |old(data)|
      ensures forall g {:trigger data[g]} :: 0 <= g < |data| && g !in old(mmu.phys.bits.free) ==>
                data[g] == old(data)[g]
      ensures rc == -1 || newBreak == 0 ==>
                brk == old(brk) && held == old(held) && SameTranslation(old(mmu.frames), mmu.frames, mmu.root)
      ensures 0 < base < limit && newBreak == 0 ==> rc == brk
      ensures rc != -1 ==> 0 < base < limit && rc == brk == if newBreak == 0 then old(brk) else newBreak
      ensures rc != -1 ==> if old(brk) <= brk then old(held) <= held && Cleared(data, held, |old(held)|)
                           else held <= old(held)
      ensures rc == -1 && 0 < base < limit && base <= newBreak <= limit ==>
                newBreak > brk && RoundsTo(newBreak, End() + PAGE_SIZE * n) &&
                  Blocked(old(mmu.frames), mmu.root, old(mmu.phys.bits.free), End(), n)
    {
      SameAsBefore(mmu.frames, mmu.root);
      n := 0;
      if base == 0 || limit <= base { return -1, n; }
      if newBreak == 0 { return brk, n; }
      if newBreak < base || newBreak > limit { return -1, n; }
      if newBreak == brk { return brk, n; }
      if newBreak > brk {
        var ok;
        ok, n := BreakUp(newBreak);
        if !ok { return -1, n; }
      } else {
        BreakDown(newBreak);
      }
      rc := brk;
    }

    // ---- Setting up and taking back ----

    /** Takes back all pages of the heap. */
    method Empty()
      requires Valid()
      modifies `held, mmu`frames, mmu.phys`freePages, mmu.phys.bits`free, mmu.phys.bits.bytes
      ensures Mapped(first, []) && held == []
    {
      ghost var n := RoundedApart(base, brk, first, End());
      if base != 0 && limit > base {
        var mappedStart := RoundUp(base);
        var mappedEnd := RoundUp(brk);
        RoundsSame(base, mappedStart, first);
        RoundsSame(brk, mappedEnd, End());
        if mappedEnd > mappedStart { UnmapRange(mappedStart, mappedEnd, first, held, 0); }
      } else {
        RoundsSame(base, End(), first);
      }
      assert held[..0] == [];
      held := [];
    }

    /** Without pages, everything is as it was when the heap was set up. */
    lemma NothingMapped()
      requires Mapped(first, [])
      ensures mmu.Valid() && Grown(m0, mmu.frames, mmu.root, free0, mmu.phys.bits.free) &&
              SameTranslation(m0, mmu.frames, mmu.root)
      ensures Mapped(0, [])
    {
      assert Unfolded(true);
      assert HeapPaths(0, 0) == HeapPaths(first, 0);
      HoldingNothing(m0, mmu.frames, mmu.root, free0, mmu.phys.bits.free, []);
      NothingListed(m0, mmu.frames, mmu.root, HeapPaths(first, 0), []);
    }

    /** Takes the whole heap back: every address leads where it did when the heap was set up. */
    method Reset()
      requires Valid()
      modifies this, mmu`frames, mmu.phys`freePages, mmu.phys.bits`free, mmu.phys.bits.bytes
      ensures Valid() && mmu.Valid() && base == limit == brk == 0 && data == old(data)
      ensures Grown(old(m0), mmu.frames, mmu.root, old(free0), mmu.phys.bits.free) &&
              SameTranslation(old(m0), mmu.frames, mmu.root)
    {
      Empty();
      NothingMapped();
      RoundedZero();
      base, limit, brk, first := 0, 0, 0, 0;
    }

    /** Sets up an empty heap between two addresses, after taking back the one there was. */
    method SetUp(newBase: nat, newLimit: nat) returns (rc: int)
      requires Valid() && newLimit <= USER_TOP - PAGE_SIZE
      modifies this, mmu`frames, mmu.phys`freePages, mmu.phys.bits`free, mmu.phys.bits.bytes
      ensures Valid() && data == old(data)
      ensures rc == if newBase == 0 || newLimit <= newBase then -1 else 0
      ensures rc == 0 ==> base == brk == newBase && limit == newLimit && m0 == mmu.frames && free0 == mmu.phys.bits.free
      ensures rc == 0 ==> SameTranslation(old(m0), m0, mmu.root)
      ensures rc != 0 ==> brk == old(brk) && held == old(held) && mmu.frames == old(mmu.frames)
    {
      if newBase == 0 || newLimit <= newBase { return -1; }
      Reset();
      var start := RoundUp(newBase);
      RoundedBelow(newBase, start);
      m0, free0, first, held := mmu.frames, mmu.phys.bits.free, start, [];
      StartEmpty();
      assert Unfolded(true);
      base, limit, brk := newBase, newLimit, newBase;
      rc := 0;
    }
  }

  lemma RoundsSame(a: nat, r: nat, s: nat)
    requires RoundsTo(a, r) && RoundsTo(a, s)
    ensures r == s
  {
    assert Rounding(true);
  }

  /** Where a page leads when a list of pages has been mapped. */
  lemma PageLeads(m0: Memory, m: Memory, root: nat, first: nat, fs: seq<nat>, page: nat)
    requires first % PAGE_SIZE == 0 && first + PAGE_SIZE * |fs| <= USER_TOP && Aligned(page) && page < USER_TOP
    requires ListMapped(m0, m, root, HeapPaths(first, |fs|), fs)
    ensures Translate(m, root, PathOf(page)) ==
            if first <= page < first + PAGE_SIZE * |fs| then Some(fs[(page - first) / PAGE_SIZE])
            else Translate(m0, root, PathOf(page))
  {
    if first <= page < first + PAGE_SIZE * |fs| {
      PageInHeap(first, page, |fs|);
      ListedPage(m0, m, root, first, fs, (page - first) / PAGE_SIZE);
    } else {
      OutsideHeap(first, |fs|, page);
      assert Shown(true);
    }
  }

  lemma ListedPage(m0: Memory, m: Memory, root: nat, first: nat, fs: seq<nat>, k: nat)
    requires ListMapped(m0, m, root, HeapPaths(first, |fs|), fs) && k < |fs|
    ensures Translate(m, root, PathOf(first + PAGE_SIZE * k)) == Some(fs[k])
  {
    HeapPathAt(first, |fs|, k);
    assert Shown(true);
  }

  /** Why a heap does not grow by n pages: one is mapped already, or there are fewer than four free frames for each. */
  ghost predicate Blocked(m: Memory, root: nat, free: set<nat>, from: nat, n: nat) {
    (exists i: nat :: i < n && Translate(m, root, PathOf(from + PAGE_SIZE * i)).Some?) || |free| < 4 * n
  }

  lemma IsBlocked(m: Memory, root: nat, free: set<nat>, from: nat, page: nat, n: nat, i: nat)
    requires Translate(m, root, PathOf(page)).Some? || Spent(free, {}, 4 * i + 3)
    requires page == from + PAGE_SIZE * i && i < n
    ensures Blocked(m, root, free, from, n)
  {
    if Spent(free, {}, 4 * i + 3) { assert Counted(true); }
  }

  lemma StartsSpent(free: set<nat>)
    ensures Spent(free, free, 0)
  {
  }

  /** The same pages on the same frames: nothing has moved. */
  lemma SameList(m0: Memory, m: Memory, m': Memory, root: nat, ps: seq<Path>, fs: seq<nat>)
    requires ListMapped(m0, m, root, ps, fs) && ListMapped(m0, m', root, ps, fs)
    ensures SameTranslation(m, m', root)
  {
    assert Shown(true);
    forall p: Path | |p| == 4 ensures Translate(m', root, p) == Translate(m, root, p) {
      if p in ps { var i :| 0 <= i < |ps| && ps[i] == p; }
    }
  }

  /** A page behind those of the heap is mapped as it was before the heap grew. */
  lemma HeapElsewhere(m0: Memory, m: Memory, m1: Memory, root: nat, first: nat, fs: seq<nat>, k: nat, page: nat)
    requires k <= |fs| && page == first + PAGE_SIZE * |fs| && page < USER_TOP && first % PAGE_SIZE == 0
    requires ListMapped(m0, m, root, HeapPaths(first, k), fs[..k]) &&
             ListMapped(m0, m1, root, HeapPaths(first, |fs|), fs)
    ensures Translate(m1, root, PathOf(page)) == Translate(m, root, PathOf(page))
  {
    AlignedStep(first, |fs|);
    BehindAll(first, |fs|, page);
    BehindAll(first, k, page);
    assert Shown(true);
  }

  lemma PageInHeap(first: nat, page: nat, n: nat)
    requires first % PAGE_SIZE == 0 && page % PAGE_SIZE == 0 && first <= page < first + PAGE_SIZE * n
    ensures page == first + PAGE_SIZE * ((page - first) / PAGE_SIZE) && (page - first) / PAGE_SIZE < n
  {
  }

  lemma OutsideHeap(first: nat, n: nat, page: nat)
    requires first % PAGE_SIZE == 0 && page % PAGE_SIZE == 0 && page < USER_TOP && first + PAGE_SIZE * n <= USER_TOP
    requires page < first || first + PAGE_SIZE * n <= page
    ensures PathOf(page) !in HeapPaths(first, n)
  {
    forall i: nat | i < n ensures HeapPaths(first, n)[i] != PathOf(page) {
      HeapPathAt(first, n, i);
      AlignedStep(first, i);
      if page < first { PathsApart(page, first + PAGE_SIZE * i); } else { PathsApart(first + PAGE_SIZE * i, page); }
    }
  }

  lemma BehindAll(first: nat, n: nat, page: nat)
    requires first + PAGE_SIZE * n <= page < USER_TOP && first % PAGE_SIZE == 0 && page % PAGE_SIZE == 0
    ensures PathOf(page) !in HeapPaths(first, n)
  {
    forall i: nat | i < n ensures HeapPaths(first, n)[i] != PathOf(page) {
      HeapPathAt(first, n, i);
      AlignedStep(first, i);
      PathsApart(first + PAGE_SIZE * i, page);
    }
  }

  /** The frames from the k-th on hold zeros. */
  ghost predicate Cleared(data: seq<PageBytes>, fs: seq<nat>, k: nat) {
    forall i {:trigger fs[i]} :: k <= i < |fs| ==> fs[i] < |data| && data[fs[i]] == seq(PAGE_SIZE, _ => 0)
  }

  lemma ClearedMore(data: seq<PageBytes>, fs: seq<nat>, k: nat, f: nat)
    requires Cleared(data, fs, k) && f < |data| && f !in fs && k <= |fs|
    ensures Cleared(data[f := seq(PAGE_SIZE, _ => 0)], fs + [f], k)
  {
    var gs := fs + [f];
    forall i {:trigger gs[i]} | k <= i < |gs| && i < |fs| ensures gs[i] == fs[i] && gs[i] != f { assert fs[i] in fs; }
  }

  /** What mapping a new page to a free frame makes of the list. */
  lemma PageJoins(m0: Memory, m: Memory, m': Memory, root: nat, free0: set<nat>, free: set<nat>, free': set<nat>,
                  ps: seq<Path>, fs: seq<nat>, p: Path, f: nat)
    requires ListMapped(m0, m, root, ps, fs) && Holding(m0, m, root, free0, free, fs) && f in free && |p| == 4 &&
             DistinctPaths(ps + [p])
    requires Translate(m, root, p) == None && Remapped(m, m', root, p, Some(f)) && SmallPage(m', root, p)
    requires Grown(m, m', root, free - {f}, free') && TreeOk(m', root, free')
    ensures ListMapped(m0, m', root, ps + [p], fs + [f]) && Holding(m0, m', root, free0, free', fs + [f])
  {
    HoldingTake(m0, m, root, free0, free, fs, f);
    HoldingGrows(m0, m, m', root, free0, free - {f}, free', fs + [f]);
    NewPage(m0, m, root, ps, fs, p);
    SmallHasTable(m', root, p);
    ListGrows(m0, m, m', root, free - {f}, free', ps, fs, p, f);
  }

  /** One page more: the path it adds to those of the heap, which stay distinct. */
  lemma HeapSnoc(first: nat, n: nat, page: nat)
    requires first % PAGE_SIZE == 0 && page == first + PAGE_SIZE * n && page < USER_TOP
    ensures HeapPaths(first, n + 1) == HeapPaths(first, n) + [PathOf(page)] && DistinctPaths(HeapPaths(first, n + 1))
    ensures first + PAGE_SIZE * (n + 1) <= USER_TOP
  {
    NextFits(first, n);
    HeapDistinct(first, n + 1);
  }

  lemma NextFits(first: nat, n: nat)
    requires first % PAGE_SIZE == 0 && first + PAGE_SIZE * n < USER_TOP
    ensures first + PAGE_SIZE * (n + 1) <= USER_TOP
  {
    AlignedStep(first, n);
    TopAligned(first + PAGE_SIZE * n);
  }

  lemma TopAligned(page: nat)
    requires page % PAGE_SIZE == 0 && page < USER_TOP
    ensures page + PAGE_SIZE <= USER_TOP
  {
  }

  lemma RestRemoved<T>(s: seq<T>, k: nat, i: nat)
    requires k + i < |s|
    ensures var rest := s[..k] + s[k + i..]; rest[k] == s[k + i] && Removed(rest, k) == s[..k] + s[k + i + 1..]
  {
  }
}
