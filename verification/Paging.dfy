/** The paging operations: mapping, unmapping, changing flags, splitting a large page, and looking an address up. */
module Paging {
  import opened Options
  import opened Bitmaps
  import opened PhysMemory
  import opened PageEntries
  import opened PageTables
  import opened PageAccess

  const FRAME_LIMIT: nat := 0x100_0000_0000

  /** The n table indices of a page number, that of the last level last. */
  function Indices(page: nat, n: nat): (p: Path)
    ensures |p| == n && forall i {:trigger p[i]} :: 0 <= i < n ==> p[i] < 512
    decreases n, page
  {
    if n == 0 then [] else Indices(page / 512, n - 1) + [page % 512]
  }

  /** The four table indices of a virtual address. */
  function PathOf(va: nat): (p: Path)
    ensures |p| == 4 && forall i {:trigger p[i]} :: 0 <= i < 4 ==> p[i] < 512
  {
    Indices(va / 0x1000, 4)
  }

  /** The indices of a page number, one by one. */
  function PagePath(page: nat): Path {
    [page / 512 / 512 / 512 % 512, page / 512 / 512 % 512, page / 512 % 512, page % 512]
  }

  lemma PathOfPage(va: nat)
    ensures PathOf(va) == PagePath(va / 0x1000)
  {
    PathIs(va / 0x1000);
  }

  lemma PathIs(page: nat)
    ensures Indices(page, 4) == PagePath(page)
  {
    var a, b, c := page / 512, page / 512 / 512, page / 512 / 512 / 512;
    assert Indices(c, 1) == [c % 512] by { assert Indices(c / 512, 0) == []; }
    assert Indices(b, 2) == [c % 512, b % 512];
    assert Indices(a, 3) == [c % 512, b % 512, a % 512];
  }

  lemma DivTwice(va: nat)
    ensures va / 0x1000 / 512 == va / 0x20_0000
    ensures va / 0x20_0000 / 512 == va / 0x4000_0000
    ensures va / 0x4000_0000 / 512 == va / 0x80_0000_0000
  {
  }

  lemma PageOfPath(page: nat)
    requires page < 0x10_0000_0000
    ensures var p := PagePath(page); page == ((p[0] * 512 + p[1]) * 512 + p[2]) * 512 + p[3]
  {
    var b, c := page / 512, page / 512 / 512;
    assert page == b * 512 + page % 512 && b == c * 512 + b % 512;
    assert c == c / 512 * 512 + c % 512 && c / 512 < 512;
  }

  /** The indices are the digits of the address, to base 512, above the twelve bits of the page offset. */
  lemma PathDigits(va: nat)
    requires va < 0x1_0000_0000_0000
    ensures var p := PathOf(va);
            va == 0x80_0000_0000 * p[0] + 0x4000_0000 * p[1] + 0x20_0000 * p[2] + 0x1000 * p[3] + va % 0x1000
  {
    PathOfPage(va);
    PageOfPath(va / 0x1000);
  }

  /** The indices determine the page: two 48-bit addresses have the same ones exactly when they lie in one page. */
  lemma PathDetermines(va: nat, va': nat)
    requires va < 0x1_0000_0000_0000 && va' < 0x1_0000_0000_0000
    ensures PathOf(va) == PathOf(va') <==> va / 0x1000 == va' / 0x1000
  {
    PathOfPage(va);
    PathOfPage(va');
    PageOfPath(va / 0x1000);
    PageOfPath(va' / 0x1000);
  }

  function Aligned(addr: nat): bool { addr % PAGE_SIZE == 0 }

  ghost predicate Counted(x: bool) { true }

  /** At most n frames have gone. */
  ghost predicate Spent(free: set<nat>, free': set<nat>, n: nat) {
    forall x {:trigger Counted(x)} :: Counted(x) ==> |free| <= |free'| + n
  }

  lemma OneSpent(free: set<nat>, f: nat)
    requires f in free
    ensures Spent(free, free - {f}, 1)
  {
  }

  lemma SpentTrans(a: set<nat>, b: set<nat>, c: set<nat>, n: nat, k: nat)
    requires Spent(a, b, n) && Spent(b, c, k)
    ensures Spent(a, c, n + k)
  {
    assert Counted(true);
  }

  class Mmu {
    const phys: PhysAllocator
    const root: nat
    var frames: Memory

    constructor (phys: PhysAllocator, root: nat, frames: Memory)
      ensures this.phys == phys && this.root == root && this.frames == frames
    {
      this.phys, this.root, this.frames := phys, root, frames;
    }

    /** Walking the tree and taking pages out of it need no more of the allocator than that the frames of tables are
        none of those in `free`. */
    ghost predicate Walkable(free: set<nat>)
      reads this
    {
      |frames| == MAX_PAGES && TreeOk(frames, root, free)
    }

    ghost predicate Valid()
      reads this, phys, phys.bits, phys.bits.bytes
    {
      phys.Valid() && |frames| == MAX_PAGES && 0 !in phys.bits.free && TreeOk(frames, root, phys.bits.free)
    }

    /** The physical address of a virtual one: inside its page or 2 MiB page, or zero when it is not mapped. */
    method GetPhys(va: nat, ghost free: set<nat>) returns (addr: nat)
      requires Walkable(free)
      ensures match Translate(frames, root, PathOf(va))
              case None => addr == 0
              case Some(f) => addr == f * PAGE_SIZE + va % PAGE_SIZE
    {
      ghost var p := PathOf(va);
      Walk(frames, root, p, 0);
      Walk(frames, root, p, 1);
      Walk(frames, root, p, 2);
      assert p[..0] == [] && At(frames, root, p[..0], root);
      TableFrame(frames, root, free, p[..0], root);
      var e := frames[root][IndexAt(va, 0)];
      if !Present(e) { return 0; }
      TableFrame(frames, root, free, p[..1], e.frame);
      e := frames[e.frame][IndexAt(va, 1)];
      if !Present(e) { return 0; }
      TableFrame(frames, root, free, p[..2], e.frame);
      e := frames[e.frame][IndexAt(va, 2)];
      if !Present(e) { return 0; }
      if Huge(e) {
        LargeOffset(va);
        return LargeFrame(e.frame) * PAGE_SIZE + va % 0x20_0000;
      }
      TableFrame(frames, root, free, p[..3], e.frame);
      e := frames[e.frame][IndexAt(va, 3)];
      if !Present(e) { return 0; }
      return e.frame * PAGE_SIZE + va % PAGE_SIZE;
    }

    // ---- Changing the tree ----

    /** Takes a free frame and clears it; fails when there is none. */
    method AllocTable() returns (ok: bool, f: nat)
      requires Valid()
      modifies this`frames, phys`freePages, phys.bits`free, phys.bits.bytes
      ensures phys.Valid()
      ensures ok ==> f in old(phys.bits.free) && phys.bits.free == old(phys.bits.free) - {f} && f < |old(frames)| &&
                     frames == old(frames)[f := ZeroFrame()]
      ensures !ok ==> phys.bits.free == old(phys.bits.free) == {} && frames == old(frames)
      ensures Spent(old(phys.bits.free), phys.bits.free, 1)
    {
      phys.bits.InRange();
      var addr;
      ghost var start;
      addr, start := phys.AllocPage();
      if addr == 0 { return false, 0; }
      f := addr / PAGE_SIZE;
      frames := frames[f := ZeroFrame()];
      ok := true;
    }

    /** The table that entry i of the table in frame t points to, made on the way when the entry is empty. */
    method EnsureNextTable(ghost p: Path, t: nat, i: nat) returns (ok: bool, next: nat)
      requires Valid() && At(frames, root, p, t) && |p| < 3 && i < 512
      modifies this`frames, phys`freePages, phys.bits`free, phys.bits.bytes
      ensures Valid() && Kept(old(frames), frames, root, old(phys.bits.free), phys.bits.free)
      ensures KeepsBut(old(frames), frames, root, [])
      ensures ok ==> At(frames, root, p + [i], next)
      ensures !ok ==> frames == old(frames) && phys.bits.free == old(phys.bits.free)
      ensures Spent(old(phys.bits.free), phys.bits.free, 1)
      ensures !ok ==> phys.bits.free == {} || (|p| == 2 && EntryAt(frames, root, p, i).Some? &&
                        Present(EntryAt(frames, root, p, i).value) && Huge(EntryAt(frames, root, p, i).value))
    {
      ghost var m, free, q := frames, phys.bits.free, p + [i];
      assert q[..|p|] == p && q[|p|] == i && q[..|p| + 1] == q;
      Walk(m, root, q, |p|);
      TableFrame(m, root, free, p, t);
      KeepsSame(m, root, []);
      phys.bits.InRange();
      if Present(frames[t][i]) {
        if Huge(frames[t][i]) { return false, 0; }
        return true, frames[t][i].frame;
      }
      ok, next := AllocTable();
      if !ok { return; }
      PokeTable(m, root, free, p, t, i, next, ZeroFrame());
      TableKeeps(m, root, free, p, t, i, next);
      frames := Poke(frames, t, i, TableEntry(next));
    }

    /** Lets user access and writing through an entry that points to a table, when the new page asks for them. */
    method PassFlags(ghost p: Path, t: nat, i: nat, low: bv12)
      requires Valid() && At(frames, root, p, t) && |p| < 3 && i < 512
      modifies this`frames
      ensures Valid() && Kept(old(frames), frames, root, phys.bits.free, phys.bits.free)
      ensures KeepsBut(old(frames), frames, root, []) && EntryAt(frames, root, p, i).Some?
      ensures t < |old(frames)| && (Present(old(frames)[t][i]) ==>
                                     Has(EntryAt(frames, root, p, i).value, Passed(low)))
    {
      TableFrame(frames, root, phys.bits.free, p, t);
      var e := frames[t][i];
      var wider := e.(low := e.low | (low & (USER | WRITABLE)));
      WidenedEntry(e, low);
      PokeFlags(frames, root, phys.bits.free, p, t, i, wider);
      FlagsKeep(frames, root, phys.bits.free, p, t, i, wider);
      frames := Poke(frames, t, i, wider);
    }

    /** Goes down one level, making the table when it is missing. */
    method Descend(ghost p: Path, t: nat, i: nat, low: bv12) returns (ok: bool, next: nat)
      requires Valid() && At(frames, root, p, t) && |p| < 3 && i < 512
      modifies this`frames, phys`freePages, phys.bits`free, phys.bits.bytes
      ensures Valid() && Kept(old(frames), frames, root, old(phys.bits.free), phys.bits.free)
      ensures KeepsBut(old(frames), frames, root, [])
      ensures ok ==> At(frames, root, p + [i], next) && EntryAt(frames, root, p, i).Some? &&
                     Has(EntryAt(frames, root, p, i).value, Passed(low))
      ensures Spent(old(phys.bits.free), phys.bits.free, if ok then 1 else 0)
      ensures !ok ==> phys.bits.free == {} || (|p| == 2 && EntryAt(frames, root, p, i).Some? &&
                        Present(EntryAt(frames, root, p, i).value) && Huge(EntryAt(frames, root, p, i).value))
    {
      ghost var m, free := frames, phys.bits.free;
      ok, next := EnsureNextTable(p, t, i);
      if !ok { return; }
      ghost var m1, free1 := frames, phys.bits.free;
      TableStays(m, m1, root, free, free1, p, t);
      PointsTo(m1, root, free1, p, t, i, next);
      PassFlags(p, t, i, low);
      KeepsTrans(m, m1, frames, root, []);
      TableStays(m1, frames, root, free1, free1, p + [i], next);
      KeptTrans(m, m1, frames, root, free, free1, free1);
    }

    /** An entry that a table is reached through is present. */
    static lemma PointsTo(m: Memory, root: nat, free: set<nat>, p: Path, t: nat, i: nat, next: nat)
      requires TreeOk(m, root, free) && At(m, root, p, t) && At(m, root, p + [i], next) && i < 512
      ensures t < |m| && Present(m[t][i])
    {
      TableFrame(m, root, free, p, t);
      var q := p + [i];
      assert q[..|p|] == p && q[..|p| + 1] == q;
      Walk(m, root, q, |p|);
    }

    /** The last-level table of a page, with those above it, made where missing. */
    method DescendToLeaf(va: nat, low: bv12) returns (level: nat, t: nat)
      requires Valid()
      modifies this`frames, phys`freePages, phys.bits`free, phys.bits.bytes
      ensures Valid() && Kept(old(frames), frames, root, old(phys.bits.free), phys.bits.free) && level <= 3
      ensures KeepsBut(old(frames), frames, root, [])
      ensures level == 3 ==> At(frames, root, PathOf(va)[..3], t) && Lets(frames, root, PathOf(va)[..3], Passed(low))
      ensures level < 3 ==> phys.bits.free == {} || Translate(frames, root, PathOf(va)).Some?
      ensures Spent(old(phys.bits.free), phys.bits.free, level)
    {
      ghost var p, m, free := PathOf(va), frames, phys.bits.free;
      var ok;
      level, t := 0, root;
      KeptSame(m, root, free);
      KeepsSame(m, root, []);
      assert p[..0] == [] && At(frames, root, p[..0], root);
      while level < 3
        invariant level <= 3 && Valid() && At(frames, root, p[..level], t)
        invariant KeepsBut(m, frames, root, []) && Lets(frames, root, p[..level], Passed(low))
        invariant Kept(m, frames, root, free, phys.bits.free)
        invariant Spent(free, phys.bits.free, level)
      {
        ghost var m1, free1 := frames, phys.bits.free;
        var next;
        ok, next := Descend(p[..level], t, IndexAt(va, level), low);
        KeptTrans(m, m1, frames, root, free, free1, phys.bits.free);
        KeepsTrans(m, m1, frames, root, []);
        if !ok {
          if phys.bits.free != {} { LargeMapped(frames, root, p); }
          return;
        }
        assert p[..level] + [p[level]] == p[..level + 1];
        LetsNext(m1, frames, root, p, level, Passed(low));
        t, level := next, level + 1;
      }
    }

    static lemma LetsNext(m: Memory, m': Memory, root: nat, p: Path, k: nat, flags: bv12)
      requires KeepsBut(m, m', root, []) && k < |p| <= 4 && Lets(m, root, p[..k], flags)
      requires EntryAt(m', root, p[..k], p[k]).Some? && Has(EntryAt(m', root, p[..k], p[k]).value, flags)
      ensures Lets(m', root, p[..k + 1], flags)
    {
      LetsKept(m, m', root, [], p[..k], flags);
      assert p[..k + 1][..k] == p[..k];
    }

    /** Maps a page. It fails on an address that is not page-aligned, on a page that is mapped already, and for want
        of a frame for a table; a failure moves no address, even if tables were installed on the way. */
    method MapPage(va: nat, pa: nat, low: bv12, nx: bool) returns (rc: int)
      requires Valid()
      modifies this`frames, phys`freePages, phys.bits`free, phys.bits.bytes
      ensures Valid() && Grown(old(frames), frames, root, old(phys.bits.free), phys.bits.free)
      ensures rc == 0 ==> Aligned(va) && Aligned(pa) && Translate(old(frames), root, PathOf(va)) == None &&
                          Remapped(old(frames), frames, root, PathOf(va), Some(pa / PAGE_SIZE % FRAME_LIMIT)) &&
                          EntryAt(frames, root, PathOf(va)[..3],
                                  PathOf(va)[3]) == Some(LeafEntry(pa / PAGE_SIZE % FRAME_LIMIT, low, nx))
      ensures KeepsBut(old(frames), frames, root, [])
      ensures rc == 0 ==> Lets(frames, root, PathOf(va), Passed(low)) &&
                          (Lets(frames, root, PathOf(va), USER) <==> low & USER != 0) &&
                            (Lets(frames, root, PathOf(va), WRITABLE) <==> low & WRITABLE != 0)
      ensures rc != 0 ==> SameTranslation(old(frames), frames, root)
      ensures rc == -1 <==> !Aligned(va) || !Aligned(pa)
      ensures rc == -1 ==> frames == old(frames) && phys.bits.free == old(phys.bits.free)
      ensures rc != 0 && rc != -1 ==>
                Translate(old(frames), root, PathOf(va)).Some? ||
                (phys.bits.free == {} && Spent(old(phys.bits.free), {}, 2))
      ensures Spent(old(phys.bits.free), phys.bits.free, 3)
    {
      ghost var p, m, free := PathOf(va), frames, phys.bits.free;
      KeepsSame(m, root, []);
      if !Aligned(va) || !Aligned(pa) { return -1; }
      var level, t := DescendToLeaf(va, low);
      if level < 3 { return -2 - level as int; }
      ghost var m1, free1 := frames, phys.bits.free;
      var e := LeafEntry(pa / PAGE_SIZE % FRAME_LIMIT, low, nx);
      PresentLeaf(low);
      PokeLeaf(m1, root, free1, p, t, e);
      LeafKeeps(m1, root, free1, p, t, e);
      if Present(frames[t][IndexAt(va, 3)]) { return -5; }
      frames := Poke(frames, t, IndexAt(va, 3), e);
      GrownTrans(m, m1, frames, root, free, free1, free1);
      KeepsTrans(m, m1, frames, root, []);
      LeafHas(e.frame, low, nx);
      LetsNext(m1, frames, root, p, 3, Passed(low));
      assert p[..4] == p;
      AccessAsked(frames, root, p, low, nx, e.frame);
      rc := 0;
    }

    static lemma LeafHas(frame: nat, low: bv12, nx: bool)
      ensures Has(LeafEntry(frame, low, nx), Passed(low))
    {
      LeafBitsHas(low);
    }

    static lemma LeafBitsHas(low: bv12)
      ensures (low | PRESENT) & PRESENT != 0 && (low | PRESENT) & Passed(low) == Passed(low)
    {
    }

    static lemma PresentLeaf(low: bv12)
      ensures (low | PRESENT) & PRESENT != 0
    {
    }

    /** Follows the tables to the last level, without making any. */
    method FindLeaf(va: nat, ghost free: set<nat>) returns (ok: bool, t: nat)
      requires Walkable(free)
      ensures ok ==> At(frames, root, PathOf(va)[..3], t)
      ensures !ok ==> Table(frames, root, PathOf(va)[..3]) == None
    {
      ghost var p := PathOf(va);
      assert p[..0] == [] && At(frames, root, p[..0], root);
      t := root;
      var level := 0;
      while level < 3
        invariant level <= 3 && At(frames, root, p[..level], t)
      {
        Walk(frames, root, p, level);
        TableFrame(frames, root, free, p[..level], t);
        var e := frames[t][IndexAt(va, level)];
        if !Present(e) || (level == 2 && Huge(e)) {
          NoneBelow(frames, root, p, level + 1);
          return false, 0;
        }
        t, level := e.frame, level + 1;
      }
      ok := true;
    }

    /** Changes the flags of a mapped 4 KiB page, moving no address; any other page is refused. */
    method SetPageFlags(va: nat, low: bv12, nx: bool) returns (rc: int)
      requires Valid()
      modifies this`frames
      ensures Valid() && Kept(old(frames), frames, root, phys.bits.free, phys.bits.free)
      ensures KeepsBut(old(frames), frames, root, PathOf(va))
      ensures rc == 0 <==> Aligned(va) && SmallPage(old(frames), root, PathOf(va))
      ensures rc == 0 ==> EntryAt(frames, root, PathOf(va)[..3], PathOf(va)[3]) ==
                          Some(LeafEntry(Translate(old(frames), root, PathOf(va)).value, low, nx))
      ensures rc != 0 ==> frames == old(frames)
    {
      ghost var p, m, free := PathOf(va), frames, phys.bits.free;
      KeptSame(m, root, free);
      KeepsSame(m, root, p);
      if !Aligned(va) { return -1; }
      var ok, t := FindLeaf(va, free);
      if !ok { return -1; }
      TableFrame(m, root, free, p[..3], t);
      var e := frames[t][IndexAt(va, 3)];
      if !Present(e) { return -1; }
      PresentLeaf(low);
      PokeLeaf(m, root, free, p, t, LeafEntry(e.frame, low, nx));
      LeafKeeps(m, root, free, p, t, LeafEntry(e.frame, low, nx));
      frames := Poke(frames, t, IndexAt(va, 3), LeafEntry(e.frame, low, nx));
      TableStays(m, frames, root, free, free, p[..3], t);
      TableFrame(frames, root, free, p[..3], t);
      rc := 0;
    }

    /** Maps a page to a fresh frame, or leaves everything but tables as it was. */
    method MapFresh(va: nat, low: bv12, nx: bool) returns (ok: bool, f: nat)
      requires Valid()
      modifies this`frames, phys`freePages, phys.bits`free, phys.bits.bytes
      ensures Valid()
      ensures ok ==>
                f in old(phys.bits.free) && 0 < f < MAX_PAGES && Aligned(va) &&
                Translate(old(frames), root, PathOf(va)) == None &&
                     Grown(old(frames), frames, root, old(phys.bits.free) - {f}, phys.bits.free) &&
                     Remapped(old(frames), frames, root, PathOf(va), Some(f)) && SmallPage(frames, root, PathOf(va)) &&
                     Spent(old(phys.bits.free), phys.bits.free, 4)
      ensures KeepsBut(old(frames), frames, root, [])
      ensures ok ==> Lets(frames, root, PathOf(va), Passed(low)) &&
                     EntryAt(frames, root, PathOf(va)[..3], PathOf(va)[3]) == Some(LeafEntry(f, low, nx))
      ensures !ok ==> Kept(old(frames), frames, root, old(phys.bits.free), phys.bits.free)
      ensures !ok ==>
                !Aligned(va) || Translate(old(frames), root, PathOf(va)).Some? || Spent(old(phys.bits.free), {}, 3)
    {
      ghost var m, free := frames, phys.bits.free;
      KeptSame(m, root, free);
      KeepsSame(m, root, []);
      phys.bits.InRange();
      var pa;
      ghost var start;
      pa, start := phys.AllocPage();
      if pa == 0 { return false, 0; }
      f := pa / PAGE_SIZE;
      SmallerFree(m, root, free, free - {f});
      OneSpent(free, f);
      var rc := MapPage(va, pa, low, nx);
      TakenAndGiven(m, frames, root, free, phys.bits.free, f);
      if rc != 0 {
        if Spent(free - {f}, {}, 2) { SpentTrans(free, free - {f}, {}, 1, 2); }
        phys.FreePage(pa);
        return false, f;
      }
      SpentTrans(free, free - {f}, phys.bits.free, 1, 3);
      PresentLeaf(low);
      ok := true;
    }

    /** Unmaps a 4 KiB page; on any other address it does nothing. */
    method UnmapPage(va: nat, ghost free: set<nat>)
      requires Walkable(free)
      modifies this`frames
      ensures Walkable(free) && Grown(old(frames), frames, root, free, free)
      ensures KeepsBut(old(frames), frames, root, PathOf(va))
      ensures if Aligned(va) && SmallPage(old(frames), root, PathOf(va))
              then Remapped(old(frames), frames, root, PathOf(va), None) else frames == old(frames)
    {
      ghost var p, m := PathOf(va), frames;
      KeptSame(m, root, free);
      KeepsSame(m, root, p);
      if !Aligned(va) { return; }
      var ok, t := FindLeaf(va, free);
      if !ok { return; }
      TableFrame(m, root, free, p[..3], t);
      if !Present(frames[t][IndexAt(va, 3)]) { return; }
      PokeLeaf(m, root, free, p, t, EMPTY);
      LeafKeeps(m, root, free, p, t, EMPTY);
      frames := Poke(frames, t, IndexAt(va, 3), EMPTY);
    }

    /** Replaces a 2 MiB page by a table of 512 small ones, moving no address. It fails on an address that is not
        page-aligned and for want of a frame, and leaves everything that is no 2 MiB page alone. */
    method SplitHugePage(va: nat) returns (rc: int)
      requires Valid()
      modifies this`frames, phys`freePages, phys.bits`free, phys.bits.bytes
      ensures Valid() && Kept(old(frames), frames, root, old(phys.bits.free), phys.bits.free)
      ensures rc == 0 ==> Aligned(va) && !LargePage(frames, root, PathOf(va))
      ensures KeepsBut(old(frames), frames, root, PathOf(va)[..3])
      ensures rc == 0 && LargePage(old(frames), root, PathOf(va)) ==>
                IntoSmall(old(frames), frames, root, PathOf(va)[..2], PathOf(va)[2])
      ensures rc != 0 ==> !Aligned(va) || (LargePage(frames, root, PathOf(va)) && phys.bits.free == {})
    {
      ghost var p, m, free := PathOf(va), frames, phys.bits.free;
      KeptSame(m, root, free);
      KeepsSame(m, root, p[..3]);
      if !Aligned(va) { return -1; }
      Walk(m, root, p, 0);
      Walk(m, root, p, 1);
      Walk(m, root, p, 2);
      assert p[..0] == [] && At(m, root, p[..0], root);
      TableFrame(m, root, free, p[..0], root);
      var e := frames[root][IndexAt(va, 0)];
      if !Present(e) { return 0; }
      TableFrame(m, root, free, p[..1], e.frame);
      e := frames[e.frame][IndexAt(va, 1)];
      if !Present(e) { return 0; }
      var pd := e.frame;
      TableFrame(m, root, free, p[..2], pd);
      e := frames[pd][IndexAt(va, 2)];
      if !Present(e) || !Huge(e) { return 0; }
      rc := SplitEntryAt(p, pd, IndexAt(va, 2));
    }

    /** Splits the 2 MiB page that entry i of the table in frame t maps. */
    method SplitEntryAt(ghost p: Path, t: nat, i: nat) returns (rc: int)
      requires Valid() && |p| == 4 && At(frames, root, p[..2], t) && t < |frames| && i < 512 && p[2] == i
      requires Present(frames[t][i]) && Huge(frames[t][i]) && EntryAt(frames, root, p[..2], i) == Some(frames[t][i])
      modifies this`frames, phys`freePages, phys.bits`free, phys.bits.bytes
      ensures Valid() && Kept(old(frames), frames, root, old(phys.bits.free), phys.bits.free)
      ensures rc == 0 ==> !LargePage(frames, root, p) && IntoSmall(old(frames), frames, root, p[..2], i)
      ensures KeepsBut(old(frames), frames, root, p[..3])
      ensures rc != 0 ==> LargePage(frames, root, p) && phys.bits.free == {}
    {
      ghost var m, free := frames, phys.bits.free;
      KeptSame(m, root, free);
      KeepsSame(m, root, p[..3]);
      assert p[..3] == p[..2] + [i];
      phys.bits.InRange();
      TableFrame(m, root, free, p[..2], t);
      var e := frames[t][i];
      var ok, f := AllocTable();
      if !ok { return -1; }
      PokeTable(m, root, free, p[..2], t, i, f, SplitFrame(e));
      SplitKeeps(m, root, free, p[..2], t, i, f);
      frames := frames[f := SplitFrame(e)];
      frames := Poke(frames, t, i, TableEntry(f));
      assert frames == Poke(m[f := SplitFrame(e)], t, i, TableEntry(f));
      TableStays(m, frames, root, free, free - {f}, p[..2], t);
      TableFrame(frames, root, free - {f}, p[..2], t);
      rc := 0;
    }
  }

  /** The 2 MiB page that entry i of the table at p mapped has become 512 small ones: present and writable if it was,
      with no other flag. */
  ghost predicate IntoSmall(m: Memory, m': Memory, root: nat, p: Path, i: nat) {
    && EntryAt(m, root, p, i).Some?
    && var e := EntryAt(m, root, p, i).value;
       forall k: nat {:trigger EntryAt(m', root, p + [i], k)} :: k < 512 ==>
         EntryAt(m', root, p + [i], k) == Some(Entry(e.low & 3, LargeFrame(e.frame) + k, 0))
  }

  /** So what user mode could use it can no longer use, and what could not be executed can. */
  lemma SplitFlags(m: Memory, m': Memory, root: nat, p: Path, i: nat, k: nat)
    requires IntoSmall(m, m', root, p, i) && k < 512 && |p| == 2
    ensures !Lets(m', root, p + [i, k], USER)
    ensures EntryAt(m', root, p + [i], k).Some? && EntryAt(m', root, p + [i], k).value.high == 0
  {
    var q := p + [i, k];
    assert q[..3] == p + [i] && q[3] == k;
    assert EntryAt(m', root, p + [i], k).Some?;
    NoUserBit(EntryAt(m, root, p, i).value.low);
    if Lets(m', root, q, USER) { LetsEntry(m', root, q, USER, 3); }
  }

  lemma NoUserBit(low: bv12)
    ensures (low & 3) & USER != USER
  {
  }

  /** A page mapped by a last-level entry, and one that lies in a 2 MiB page. */
  ghost predicate SmallPage(m: Memory, root: nat, p: Path)
    requires |p| == 4
  {
    EntryAt(m, root, p[..3], p[3]).Some? && Present(EntryAt(m, root, p[..3], p[3]).value)
  }

  ghost predicate LargePage(m: Memory, root: nat, p: Path)
    requires |p| == 4
  {
    EntryAt(m, root, p[..2], p[2]).Some? && Present(EntryAt(m, root, p[..2], p[2]).value) &&
      Huge(EntryAt(m, root, p[..2], p[2]).value)
  }

  /** A page is mapped exactly when it is small or lies in a large one. */
  lemma MappedPage(m: Memory, root: nat, va: nat)
    ensures Translate(m, root, PathOf(va)).Some? <==> SmallPage(m, root, PathOf(va)) || LargePage(m, root, PathOf(va))
    ensures !(SmallPage(m, root, PathOf(va)) && LargePage(m, root, PathOf(va)))
  {
    Walk(m, root, PathOf(va), 2);
  }

  lemma {:induction false} NoneBelow(m: Memory, root: nat, p: Path, k: nat)
    requires |p| == 4 && 1 <= k <= 3 && Table(m, root, p[..k]) == None
    ensures Table(m, root, p[..3]) == None
    decreases 3 - k
  {
    if k < 3 {
      Walk(m, root, p, k);
      NoneBelow(m, root, p, k + 1);
    }
  }

  function IndexAt(va: nat, level: nat): (i: nat)
    requires level < 4
    ensures i == PathOf(va)[level]
  {
    PathOfPage(va);
    DivTwice(va);
    if level == 0 then va / 0x80_0000_0000 % 512 else if level == 1 then va / 0x4000_0000 % 512
    else if level == 2 then va / 0x20_0000 % 512 else va / 0x1000 % 512
  }

  /** A page under a 2 MiB entry is mapped. */
  lemma LargeMapped(m: Memory, root: nat, p: Path)
    requires |p| == 4 && p[3] < 512
    requires EntryAt(m, root, p[..2], p[2]).Some? && Present(EntryAt(m, root, p[..2], p[2]).value) &&
             Huge(EntryAt(m, root, p[..2], p[2]).value)
    ensures Translate(m, root, p).Some?
  {
    Walk(m, root, p, 2);
  }

  lemma LargeOffset(va: nat)
    ensures va % 0x20_0000 == va / 0x1000 % 512 * PAGE_SIZE + va % PAGE_SIZE
  {
  }
}
