/** A bitmap over page numbers: a set bit marks a page in use. Both the physical and the virtual map are one. */
module Bitmaps {

  /** The bit of a byte that stands for page number k modulo eight. */
  function Mask(k: nat): bv8
    requires k < 8
  {
    if k == 0 then 0x01 else if k == 1 then 0x02 else if k == 2 then 0x04 else if k == 3 then 0x08
    else if k == 4 then 0x10 else if k == 5 then 0x20 else if k == 6 then 0x40 else 0x80
  }

  lemma MaskIs(k: nat)
    requires k < 8
    ensures Mask(k) == 1 << k
  {
  }

  /** Setting or clearing one bit leaves the other seven. */
  lemma OneBit(b: bv8, k: nat, j: nat)
    requires k < 8 && j < 8
    ensures (b | Mask(k)) & Mask(j) == 0 <==> j != k && b & Mask(j) == 0
    ensures (b & !Mask(k)) & Mask(j) == 0 <==> j == k || b & Mask(j) == 0
  {
  }

  predicate Clear(bytes: seq<bv8>, p: nat)
    requires p / 8 < |bytes|
  {
    bytes[p / 8] & Mask(p % 8) == 0
  }

  ghost predicate Page(p: nat) { true }

  /** `free` is the set of pages whose bit is clear; used only where a proof names the `Page`. */
  ghost predicate Shows(bytes: seq<bv8>, free: set<nat>) {
    forall p: nat {:trigger Page(p)} :: Page(p) ==> (p in free <==> p / 8 < |bytes| && Clear(bytes, p))
  }

  lemma Marked(bytes: seq<bv8>, free: set<nat>, p: nat, b: bv8, freed: bool)
    requires Shows(bytes, free) && p / 8 < |bytes|
    requires b == if freed then bytes[p / 8] & !Mask(p % 8) else bytes[p / 8] | Mask(p % 8)
    ensures Shows(bytes[p / 8 := b], if freed then free + {p} else free - {p})
  {
    var bytes', free' := bytes[p / 8 := b], if freed then free + {p} else free - {p};
    forall q: nat {:trigger Page(q)} ensures q in free' <==> q / 8 < |bytes'| && Clear(bytes', q) {
      assert Page(q);
      if q / 8 == p / 8 {
        OneBit(bytes[p / 8], p % 8, q % 8);
        assert q % 8 == p % 8 ==> q == p;
      }
    }
  }

  /** Pages start to start + count - 1 are all free. */
  ghost predicate FreeRun(free: set<nat>, start: int, count: nat) {
    forall p :: start <= p < start + count ==> p in free
  }

  /** The free pages after those from `start` on have been marked, one after another, as used or free. */
  ghost function AfterRun(free: set<nat>, start: nat, count: nat, used: bool): set<nat> {
    if count == 0 then free
    else
      var was := AfterRun(free, start, count - 1, used);
      if used then was - {start + count - 1} else was + {start + count - 1}
  }

  /** Marking a run changes the pages start to start + count - 1 and no other. */
  lemma {:induction false} AfterRunAt(free: set<nat>, start: nat, count: nat, used: bool, p: nat)
    ensures p in AfterRun(free, start, count, used) <==> if start <= p < start + count then !used else p in free
  {
    if count > 0 { AfterRunAt(free, start, count - 1, used, p); }
  }

  /** Taking a run of free pages takes as many as it is long, and giving it back undoes that. */
  lemma {:induction false} RunTaken(free: set<nat>, start: nat, count: nat)
    requires FreeRun(free, start, count)
    ensures |AfterRun(free, start, count, true)| + count == |free|
  {
    if count > 0 {
      RunTaken(free, start, count - 1);
      AfterRunAt(free, start, count - 1, true, start + count - 1);
      assert start + count - 1 in free;
    }
  }

  lemma RunRestored(free: set<nat>, start: nat, count: nat)
    requires FreeRun(free, start, count)
    ensures AfterRun(AfterRun(free, start, count, true), start, count, false) == free
  {
    var taken := AfterRun(free, start, count, true);
    var back := AfterRun(taken, start, count, false);
    forall p: nat ensures p in back <==> p in free {
      AfterRunAt(taken, start, count, false, p);
      AfterRunAt(free, start, count, true, p);
    }
  }

  ghost predicate NoRun(free: set<nat>, count: nat) { forall s: nat :: !FreeRun(free, s, count) }

  class Bitmap {
    const bytes: array<bv8>
    const pages: nat
    ghost var free: set<nat>

    ghost predicate Valid()
      reads this, bytes
    {
      pages == 8 * bytes.Length && Shows(bytes[..], free)
    }

    /** All pages in use, or all free. */
    constructor (size: nat, used: bool)
      ensures Valid() && fresh(bytes) && pages == 8 * size
      ensures used ==> free == {}
      ensures !used ==> forall p: nat :: p in free <==> p < pages
    {
      var fill: bv8 := if used then 0xFF else 0;
      bytes := new bv8[size](_ => fill);
      pages := 8 * size;
      free := if used then {} else set p: nat {:trigger p / 8} | p < 8 * size && p / 8 < size;
      new;
      forall p: nat | p / 8 < bytes.Length ensures Clear(bytes[..], p) <==> !used { EmptyOrFull(p % 8); }
    }

    static lemma EmptyOrFull(k: nat)
      requires k < 8
      ensures 0xFF & Mask(k) != 0 && 0 & Mask(k) == 0
    {
    }

    lemma InRange()
      requires Valid()
      ensures forall p :: p in free ==> p < pages
    {
      forall p | p in free ensures p < pages { assert Page(p); }
    }

    /** No run reaches beyond the last page. */
    lemma RunsInRange(count: nat)
      requires Valid() && count > 0
      ensures forall s: nat :: s >= pages ==> !FreeRun(free, s, count)
    {
      InRange();
      forall s: nat | s >= pages ensures !FreeRun(free, s, count) { assert s !in free; }
    }

    function IsFree(p: nat): (r: bool)
      requires Valid() && p < pages
      reads this, bytes
      ensures r == (p in free)
    {
      assert Page(p);
      bytes[p / 8] & Mask(p % 8) == 0
    }

    method MarkUsed(p: nat)
      requires Valid() && p < pages
      modifies this`free, bytes
      ensures Valid() && free == old(free) - {p}
    {
      ghost var before := bytes[..];
      bytes[p / 8] := bytes[p / 8] | Mask(p % 8);
      Marked(before, free, p, bytes[p / 8], false);
      assert bytes[..] == before[p / 8 := bytes[p / 8]];
      free := free - {p};
    }

    method MarkFree(p: nat)
      requires Valid() && p < pages
      modifies this`free, bytes
      ensures Valid() && free == old(free) + {p}
    {
      ghost var before := bytes[..];
      bytes[p / 8] := bytes[p / 8] & !Mask(p % 8);
      Marked(before, free, p, bytes[p / 8], true);
      assert bytes[..] == before[p / 8 := bytes[p / 8]];
      free := free + {p};
    }

    /** Marks a run of pages as used or free. */
    method MarkRun(start: nat, count: nat, used: bool)
      requires Valid() && start + count <= pages
      modifies this`free, bytes
      ensures Valid() && free == AfterRun(old(free), start, count, used)
    {
      for i := 0 to count
        invariant Valid() && free == AfterRun(old(free), start, i, used)
      {
        if used { MarkUsed(start + i); } else { MarkFree(start + i); }
      }
    }

    /** Finds the lowest run of free pages of a length; `start` is `pages` when there is none. */
    method FindRun(count: nat) returns (start: nat)
      requires Valid()
      ensures start <= pages
      ensures count == 0 ==> start == pages
      ensures start < pages ==> start + count <= pages && FreeRun(free, start, count)
      ensures count > 0 ==> forall s: nat :: s < start ==> !FreeRun(free, s, count)
    {
      InRange();
      var run, first := 0, 0;
      for page := 0 to pages
        invariant run <= page && (run > 0 ==> first == page - run) && (count == 0 || run < count)
        invariant FreeRun(free, page - run, run)
        invariant run < page ==> page - run - 1 !in free
        invariant count > 0 ==> forall s: nat :: s + count <= page ==> !FreeRun(free, s, count)
      {
        if IsFree(page) {
          if run == 0 { first := page; }
          run := run + 1;
          if run == count {
            forall s: nat | s < first ensures !FreeRun(free, s, count) {
              assert s + count <= page || first - 1 !in free;
            }
            return first;
          }
          forall s: nat | count > 0 && s + count == page + 1 ensures !FreeRun(free, s, count) {
            assert page + 1 - run - 1 !in free && s <= page + 1 - run - 1 < s + count;
          }
        } else {
          run := 0;
        }
      }
      forall s: nat | count > 0 && s < pages ensures !FreeRun(free, s, count) {
        if s + count > pages { assert s + count - 1 !in free; }
      }
      return pages;
    }
  }
}
