/** One page-table entry: its fields, and how the kernel's bit masks act on the 64-bit word that holds them. */
module PageEntries {

  const PRESENT: bv12 := 0x001
  const WRITABLE: bv12 := 0x002
  const USER: bv12 := 0x004
  const HUGE: bv12 := 0x080
  const NO_EXECUTE: bv12 := 0x800

  /** Flags in bits 0 to 11, a frame number in bits 12 to 51, and bits 52 to 63. */
  datatype Entry = Entry(low: bv12, frame: nat, high: bv12)

  const EMPTY := Entry(0, 0, 0)

  predicate Present(e: Entry) { e.low & PRESENT != 0 }

  predicate Huge(e: Entry) { e.low & HUGE != 0 }

  /** The first frame of the 2 MiB page that an entry with the HUGE flag names. */
  function LargeFrame(frame: nat): nat { frame / 512 * 512 }

  /** An entry that points to a table. */
  function TableEntry(frame: nat): Entry { Entry(PRESENT | WRITABLE, frame, 0) }

  function LeafEntry(frame: nat, low: bv12, nx: bool): Entry {
    Entry(low | PRESENT, frame, if nx then NO_EXECUTE else 0)
  }

  // ---- The same on 64-bit words ----

  const PAGE_ADDR_MASK: bv64 := 0x000F_FFFF_FFFF_F000
  const PAGE_LARGE_ADDR_MASK: bv64 := 0x000F_FFFF_FFE0_0000
  const PAGE_FLAGS_MASK: bv64 := 0xFFF
  const PAGE_FLAG_NO_EXECUTE: bv64 := 0x8000_0000_0000_0000

  function Word(low: bv12, frame: bv40, high: bv12): bv64 {
    (low as bv64) | ((frame as bv64) << 12) | ((high as bv64) << 52)
  }

  function LowOf(w: bv64): bv12 { (w & 0xFFF) as bv12 }

  function FrameOf(w: bv64): bv40 { ((w >> 12) & 0xFF_FFFF_FFFF) as bv40 }

  function HighOf(w: bv64): bv12 { (w >> 52) as bv12 }

  lemma WordFields(low: bv12, frame: bv40, high: bv12)
    ensures LowOf(Word(low, frame, high)) == low && FrameOf(Word(low, frame, high)) == frame
    ensures HighOf(Word(low, frame, high)) == high
  {
  }

  lemma FieldsWord(w: bv64)
    ensures Word(LowOf(w), FrameOf(w), HighOf(w)) == w
  {
  }

  /** The address masks select the frame, as a page address or rounded down to 2 MiB. */
  lemma AddressBits(w: bv64)
    ensures w & PAGE_ADDR_MASK == Word(0, FrameOf(w), 0)
    ensures w & PAGE_LARGE_ADDR_MASK == Word(0, FrameOf(w) & 0xFF_FFFF_FE00, 0)
  {
  }

  /** Letting user access and writing through an entry, when the flags of a new page ask for them. */
  function Wider(w: bv64, flags: bv64): bv64 {
    var user := if flags & 4 != 0 then w | 4 else w;
    if flags & 2 != 0 then user | 2 else user
  }

  /** The tests for a present entry and a large page look at the low field. */
  lemma TestBits(w: bv64)
    ensures w & 1 == 0 <==> LowOf(w) & PRESENT == 0
    ensures w & 0x80 == 0 <==> LowOf(w) & HUGE == 0
  {
  }

  /** Widening changes the low field alone. */
  lemma WiderBits(w: bv64, flags: bv64)
    ensures Wider(w, flags) == Word(LowOf(w) | (LowOf(flags) & (USER | WRITABLE)), FrameOf(w), HighOf(w))
  {
    WiderIs(w, flags);
  }

  lemma WiderIs(w: bv64, flags: bv64)
    ensures Wider(w, flags) == w | (flags & 6)
  {
    var user, writing := flags & 4 != 0, flags & 2 != 0;
    TwoBits(flags);
    if user && writing {
      OrTwice(w);
    } else if !user && !writing {
      OrNothing(w);
    }
  }

  lemma TwoBits(flags: bv64)
    ensures flags & 6 == if flags & 4 != 0 then if flags & 2 != 0 then 6 else 4 else if flags & 2 != 0 then 2 else 0
  {
  }

  lemma OrTwice(w: bv64)
    ensures (w | 4) | 2 == w | 6
  {
  }

  lemma OrNothing(w: bv64)
    ensures w | 0 == w
  {
  }

  /** An entry built from a page address and flags keeps the frame, the low flags and the no-execute bit. */
  lemma LeafBits(phys: bv64, flags: bv64)
    ensures (phys & PAGE_ADDR_MASK) | (flags & (PAGE_FLAGS_MASK | PAGE_FLAG_NO_EXECUTE)) | 1
         == Word(LowOf(flags) | PRESENT, FrameOf(phys), HighOf(flags) & NO_EXECUTE)
  {
  }

  /** Entry i of the table that replaces a 2 MiB page. */
  lemma SplitBits(w: bv64, i: bv64)
    requires i < 512
    ensures ((w & PAGE_LARGE_ADDR_MASK) + (i << 12)) | (w & 3)
         == Word(LowOf(w) & 3, (FrameOf(w) & 0xFF_FFFF_FE00) | ((i & 0x1FF) as bv40), 0)
  {
  }

  // ---- The entry that a word stands for ----

  function EntryOf(w: bv64): Entry { Entry(LowOf(w), FrameOf(w) as nat, HighOf(w)) }

  lemma FieldsOf(low: bv12, frame: bv40, high: bv12)
    ensures EntryOf(Word(low, frame, high)) == Entry(low, frame as nat, high)
  {
    WordFields(low, frame, high);
  }

  /** The word that mapping a page stores stands for the entry that the model stores, and so do those that are stored
      for a table and for widening an entry. */
  lemma StoredEntries(phys: bv64, flags: bv64, w: bv64)
    ensures EntryOf((phys & PAGE_ADDR_MASK) | (flags & (PAGE_FLAGS_MASK | PAGE_FLAG_NO_EXECUTE)) | 1) ==
            LeafEntry(FrameOf(phys) as nat, LowOf(flags), flags & PAGE_FLAG_NO_EXECUTE != 0)
    ensures EntryOf((phys & PAGE_ADDR_MASK) | 1 | 2) == TableEntry(FrameOf(phys) as nat)
    ensures EntryOf(Wider(w, flags)) == EntryOf(w).(low := LowOf(w) | (LowOf(flags) & (USER | WRITABLE)))
  {
    LeafBits(phys, flags);
    FieldsOf(LowOf(flags) | PRESENT, FrameOf(phys), HighOf(flags) & NO_EXECUTE);
    NoExecuteBit(flags);
    TableBits(phys);
    FieldsOf(PRESENT | WRITABLE, FrameOf(phys), 0);
    WiderBits(w, flags);
    FieldsOf(LowOf(w) | (LowOf(flags) & (USER | WRITABLE)), FrameOf(w), HighOf(w));
  }

  lemma NoExecuteBit(flags: bv64)
    ensures HighOf(flags) & NO_EXECUTE == if flags & PAGE_FLAG_NO_EXECUTE != 0 then NO_EXECUTE else 0
  {
  }

  lemma TableBits(phys: bv64)
    ensures (phys & PAGE_ADDR_MASK) | 1 | 2 == Word(PRESENT | WRITABLE, FrameOf(phys), 0)
  {
  }

  /** The mask for 2 MiB pages and the model's `LargeFrame` both round down to a multiple of 512 frames. */
  lemma LargeRounds(frame: bv40, f: nat)
    ensures var r := frame & 0xFF_FFFF_FE00; r % 512 == 0 && r <= frame && frame - r < 512
    ensures LargeFrame(f) % 512 == 0 && LargeFrame(f) <= f < LargeFrame(f) + 512
  {
  }
}
