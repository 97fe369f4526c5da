/** ELF64 images: header fields, program headers, and which images the loader accepts. */
module ElfImage {
  import opened MachineBytes
  import opened Products

  const EHDR_SIZE: nat := 64
  const PHDR_SIZE: nat := 56
  const PAGE: nat := 4096
  const ET_EXEC: nat := 2
  const ET_DYN: nat := 3
  const PT_LOAD: nat := 1
  const PT_INTERP: nat := 3
  const DYN_BIAS: nat := 0xFFFF_9000_0380_0000

  datatype Status = Ok | ErrNull | ErrMagic | ErrClass | ErrType | ErrArch | ErrPhdr | ErrInterp | ErrRange | ErrOverlap
                  | ErrEntry | ErrMap

  /** One program header. */
  datatype Segment = Segment(kind: nat, flags: nat, offset: nat, vaddr: nat, filesz: nat, memsz: nat, align: nat)

  function AlignUpPage(v: nat): nat { W64(v + PAGE - 1) / PAGE * PAGE }

  /** Rounding up gives the least multiple of the page size that is not below, and rounding down the greatest that is
      not above. */
  lemma RoundingIs(v: nat, n: nat)
    ensures v + 4095 < 0x1_0000_0000_0000_0000 ==> AlignUpPage(v) % 4096 == 0 && v <= AlignUpPage(v)
    ensures v + 4095 < 0x1_0000_0000_0000_0000 && v <= 4096 * n ==> AlignUpPage(v) <= 4096 * n
    ensures PageOf(v) % 4096 == 0 && PageOf(v) <= v && (4096 * n <= v ==> 4096 * n <= PageOf(v))
  {
    Quotients(v + 4095, n);
    Quotients(v, n);
  }

  lemma Quotients(x: nat, n: nat)
    ensures x / 4096 * 4096 <= x < x / 4096 * 4096 + 4096
    ensures 4096 * n <= x ==> n <= x / 4096
    ensures x < 4096 * n + 4096 ==> x / 4096 <= n
  {
  }

  function PageOf(v: nat): nat { v / PAGE * PAGE }

  /** The program-header table lies inside the image. */
  predicate HeadersInside(image: seq<byte>)
    requires |image| >= EHDR_SIZE
  {
    var phoff, entsize, count := Rd64(image, 32), Rd16(image, 54), Rd16(image, 56);
    phoff != 0 && count != 0 && entsize >= PHDR_SIZE && phoff < |image| && count <= (|image| - phoff) / entsize
  }

  /** That is: the table has a place, entries, and entries of enough bytes, the last of which ends in the image. */
  lemma TableInside(image: seq<byte>)
    requires |image| >= EHDR_SIZE
    ensures var phoff, entsize, count := Number(image[32..40]), Number(image[54..56]), Number(image[56..58]);
            HeadersInside(image) <==>
            phoff != 0 && count != 0 && entsize >= 56 && phoff + count * entsize <= |image|
  {
    ReadsNumbers(image, 32);
    ReadsNumbers(image, 54);
    ReadsNumbers(image, 56);
    if Rd16(image, 54) > 0 && Rd16(image, 56) > 0 {
      TableFits(|image|, Rd64(image, 32), Rd16(image, 54), Rd16(image, 56));
    }
  }

  lemma TableFits(len: nat, phoff: nat, entsize: nat, count: nat)
    requires entsize > 0 && count > 0
    ensures phoff < len && count <= (len - phoff) / entsize <==> phoff + count * entsize <= len
  {
    assert count * entsize == entsize + (count - 1) * entsize;
    if phoff < len { Quotient(len - phoff, entsize, count); }
  }

  lemma Quotient(n: nat, k: nat, c: nat)
    requires k > 0
    ensures c <= n / k <==> c * k <= n
  {
    DivMul(n, k);
    if c <= n / k {
      assert n / k * k == c * k + (n / k - c) * k;
    } else {
      assert c * k == (n / k + 1) * k + (c - n / k - 1) * k;
      assert n < (n / k + 1) * k;
    }
  }

  function Count(image: seq<byte>): nat
    requires |image| >= EHDR_SIZE
  {
    Rd16(image, 56)
  }

  function HeaderAt(image: seq<byte>, i: nat): nat
    requires |image| >= EHDR_SIZE
  {
    Rd64(image, 32) + Times(i, Rd16(image, 54))
  }

  lemma HeaderInside(image: seq<byte>, i: nat)
    requires |image| >= EHDR_SIZE && HeadersInside(image) && i < Count(image)
    ensures HeaderAt(image, i) + PHDR_SIZE <= |image|
  {
    var entsize, room := Rd16(image, 54), |image| - Rd64(image, 32);
    DivMul(room, entsize);
    TimesIsProduct(room / entsize, entsize);
    TimesStrict(i, room / entsize, entsize);
  }

  lemma DivMul(n: nat, k: nat)
    requires k > 0
    ensures n / k * k <= n
  {
  }

  function SegmentAt(image: seq<byte>, i: nat): Segment
    requires |image| >= EHDR_SIZE && HeaderAt(image, i) + PHDR_SIZE <= |image|
  {
    var h := HeaderAt(image, i);
    Segment(Rd32(image, h), Rd32(image, h + 4), Rd64(image, h + 8), Rd64(image, h + 16), Rd64(image, h + 32),
            Rd64(image, h + 40),
            Rd64(image, h + 48))
  }

  /** The first n program headers lie in the image. */
  ghost predicate HeadersFit(image: seq<byte>, n: nat) {
    |image| >= EHDR_SIZE && forall i: nat {:trigger HeaderAt(image, i)} :: i < n ==>
        HeaderAt(image, i) + PHDR_SIZE <= |image|
  }

  lemma HeadersInsideFit(image: seq<byte>)
    requires |image| >= EHDR_SIZE && HeadersInside(image)
    ensures HeadersFit(image, Count(image))
  {
    forall i: nat | i < Count(image) ensures HeaderAt(image, i) + PHDR_SIZE <= |image| { HeaderInside(image, i); }
  }

  /** The program headers of an image, in order. */
  ghost function Segments(image: seq<byte>, n: nat): (segs: seq<Segment>)
    requires HeadersFit(image, n)
    ensures |segs| == n
    ensures forall i {:trigger segs[i]} :: 0 <= i < n ==>
              HeaderAt(image, i) + PHDR_SIZE <= |image| && segs[i] == SegmentAt(image, i)
  {
    if n == 0 then [] else Segments(image, n - 1) + [SegmentAt(image, n - 1)]
  }

  predicate Loaded(s: Segment) { s.kind == PT_LOAD && s.memsz != 0 }

  function Pow2(k: nat): (r: nat)
    ensures r > 0
  {
    if k == 0 then 1 else 2 * Pow2(k - 1)
  }

  predicate PowerOfTwo(v: nat) { v == 1 || (v > 1 && v % 2 == 0 && PowerOfTwo(v / 2)) }

  lemma {:induction false} PowerOfTwoIs(v: nat, k: nat)
    ensures PowerOfTwo(Pow2(k))
    ensures PowerOfTwo(v) ==> exists i: nat :: v == Pow2(i)
    decreases v + k
  {
    if k > 0 {
      PowerOfTwoIs(0, k - 1);
      assert Pow2(k) / 2 == Pow2(k - 1);
    }
    if v == 1 {
      assert v == Pow2(0);
    } else if PowerOfTwo(v) {
      PowerOfTwoIs(v / 2, 0);
      var i: nat :| v / 2 == Pow2(i);
      assert v == Pow2(i + 1);
    }
  }

  /** The segment's file range lies in the image, is no longer than its memory range, and neither range wraps; its
      alignment is a power of two to which address and offset are congruent. */
  predicate Placed(s: Segment, len: nat) {
    && W64(s.offset + s.filesz) <= len && s.filesz <= s.memsz
    && (s.memsz != 0 ==>
          && s.vaddr + s.memsz < WORD && s.offset + s.filesz < WORD
          && (s.align > 1 ==> PowerOfTwo(s.align) && s.vaddr % s.align == s.offset % s.align))
  }

  /** For a segment with bytes in memory: its bytes of the file are in the image, no more than those in memory, its
      addresses are 64-bit ones, and its alignment is kept. */
  lemma PlacedIs(s: Segment, len: nat)
    requires s.memsz > 0 && len < WORD
    ensures Placed(s, len) <==>
            && s.offset + s.filesz <= len && s.filesz <= s.memsz && s.vaddr + s.memsz < 0x1_0000_0000_0000_0000
            && (s.align <= 1 || ((exists k: nat :: s.align == Pow2(k)) && s.vaddr % s.align == s.offset % s.align))
  {
    if s.align > 1 {
      PowerOfTwoIs(s.align, 0);
      if k: nat :| s.align == Pow2(k) { PowerOfTwoIs(0, k); }
    }
  }

  function WindowStart(s: Segment): nat { PageOf(s.vaddr) }

  function WindowEnd(s: Segment): nat { AlignUpPage(s.vaddr + s.memsz) }

  predicate WindowsApart(s: Segment, t: Segment) { WindowEnd(t) <= WindowStart(s) || WindowEnd(s) <= WindowStart(t) }

  /** A page that bytes of a segment lie in. */
  predicate LiesIn(s: Segment, page: nat) { s.vaddr < 4096 * page + 4096 && 4096 * page < s.vaddr + s.memsz }

  /** Two segments are apart exactly when bytes of both lie in no page. */
  lemma ApartIs(s: Segment, t: Segment)
    requires s.memsz > 0 && t.memsz > 0 && s.vaddr + s.memsz + 4095 < WORD && t.vaddr + t.memsz + 4095 < WORD
    ensures WindowsApart(s, t) <==> !exists page: nat :: LiesIn(s, page) && LiesIn(t, page)
  {
    if WindowsApart(s, t) {
      forall page: nat ensures !(LiesIn(s, page) && LiesIn(t, page)) {
        Edges(s, page);
        Edges(t, page);
      }
    } else {
      var page := if s.vaddr < t.vaddr then t.vaddr / 4096 else s.vaddr / 4096;
      Edges(s, page);
      Edges(t, page);
      assert LiesIn(s, page) && LiesIn(t, page);
    }
  }

  lemma Edges(s: Segment, page: nat)
    requires s.vaddr + s.memsz + 4095 < WORD && s.memsz > 0
    ensures WindowStart(s) <= 4096 * page <==> s.vaddr < 4096 * page + 4096
    ensures 4096 * page < WindowEnd(s) <==> 4096 * page < s.vaddr + s.memsz
    ensures WindowStart(s) % 4096 == 0 && WindowEnd(s) % 4096 == 0
  {
  }

  /** What makes a list of program headers acceptable for an entry point. */
  ghost predicate Acceptable(segs: seq<Segment>, len: nat, entry: nat) {
    && (forall i {:trigger segs[i]} :: 0 <= i < |segs| ==>
         segs[i].kind != PT_INTERP && (segs[i].kind == PT_LOAD ==> Placed(segs[i], len)))
    && (forall i, j {:trigger segs[i], segs[j]} :: 0 <= i < j < |segs| && Loaded(segs[i]) && Loaded(segs[j]) ==>
       WindowsApart(segs[i], segs[j]))
    && (exists i :: 0 <= i < |segs| && Loaded(segs[i]) && segs[i].vaddr <= entry < segs[i].vaddr + segs[i].memsz)
  }

  // ---- Validation ----

  ghost predicate GoodUpTo(segs: seq<Segment>, len: nat, n: nat)
    requires n <= |segs|
  {
    && (forall i {:trigger segs[i]} :: 0 <= i < n && segs[i].kind == PT_LOAD ==> Placed(segs[i], len))
    && (forall i, j {:trigger segs[i], segs[j]} ::
         0 <= i < n && i < j < |segs| && Loaded(segs[i]) && Loaded(segs[j]) ==> WindowsApart(segs[i], segs[j]))
  }

  /** Checks one loadable segment by itself. */
  method CheckPlaced(s: Segment, len: nat) returns (rc: Status)
    ensures rc == Ok <==> Placed(s, len)
  {
    if W64(s.offset + s.filesz) > len { return ErrRange; }
    if s.memsz < s.filesz { return ErrRange; }
    if s.memsz == 0 { return Ok; }
    if s.vaddr + s.memsz >= WORD { return ErrRange; }
    if s.offset + s.filesz >= WORD { return ErrRange; }
    if s.align > 1 {
      if !PowerOfTwo(s.align) { return ErrPhdr; }
      if s.vaddr % s.align != s.offset % s.align { return ErrPhdr; }
    }
    return Ok;
  }

  /** Compares the page window of segment i with those of the segments after it. */
  method CheckApart(segs: seq<Segment>, i: nat) returns (rc: Status)
    requires i < |segs| && Loaded(segs[i]) && segs[i].vaddr + segs[i].memsz < WORD
    ensures rc == Ok ==> forall j {:trigger segs[j]} :: i < j < |segs| && Loaded(segs[j]) ==>
              WindowsApart(segs[i], segs[j])
    ensures rc != Ok ==> exists j ::
              i < j < |segs| && Loaded(segs[j]) &&
              (segs[j].vaddr + segs[j].memsz >= WORD || !WindowsApart(segs[i], segs[j]))
  {
    for j := i + 1 to |segs|
      invariant forall k {:trigger segs[k]} :: i < k < j && Loaded(segs[k]) ==> WindowsApart(segs[i], segs[k])
    {
      var other := segs[j];
      if other.kind != PT_LOAD || other.memsz == 0 { continue; }
      if other.vaddr + other.memsz >= WORD { return ErrRange; }
      if WindowStart(segs[i]) < WindowEnd(other) && WindowStart(other) < WindowEnd(segs[i]) { return ErrOverlap; }
    }
    return Ok;
  }

  /** Accepts exactly the acceptable lists of program headers. */
  method ValidateSegments(segs: seq<Segment>, len: nat, entry: nat) returns (rc: Status)
    ensures rc == Ok <==> Acceptable(segs, len, entry)
  {
    for i := 0 to |segs|
      invariant forall k {:trigger segs[k]} :: 0 <= k < i ==> segs[k].kind != PT_INTERP
    {
      if segs[i].kind == PT_INTERP { return ErrInterp; }
    }
    var loadCount := 0;
    for i := 0 to |segs|
      invariant GoodUpTo(segs, len, i)
      invariant loadCount == 0 ==> forall k {:trigger segs[k]} :: 0 <= k < i ==> segs[k].kind != PT_LOAD
    {
      if segs[i].kind != PT_LOAD { continue; }
      loadCount := loadCount + 1;
      rc := CheckPlaced(segs[i], len);
      if rc != Ok { return; }
      if segs[i].memsz == 0 { continue; }
      rc := CheckApart(segs, i);
      if rc != Ok { return; }
    }
    if loadCount == 0 { return ErrPhdr; }
    for i := 0 to |segs|
      invariant forall k {:trigger segs[k]} :: 0 <= k < i && Loaded(segs[k]) ==>
                !(segs[k].vaddr <= entry < segs[k].vaddr + segs[k].memsz)
    {
      if segs[i].kind != PT_LOAD || segs[i].memsz == 0 { continue; }
      if segs[i].vaddr <= entry < segs[i].vaddr + segs[i].memsz { return Ok; }
    }
    return ErrEntry;
  }

  /** An accepted image is an ELF64 file for x86-64 whose program headers lie in it and are acceptable. */
  ghost predicate Accepted(image: seq<byte>) {
    && |image| >= EHDR_SIZE && image[0] == 0x7F && image[1] == 0x45 && image[2] == 0x4C && image[3] == 0x46 &&
       image[4] == 2
    && (Rd16(image, 16) == ET_EXEC || Rd16(image, 16) == ET_DYN) && Rd16(image, 18) == 62
    && HeadersInside(image) && HeadersFit(image, Count(image)) &&
       Acceptable(SegmentsOf(image), |image|, EntryPoint(image))
  }

  function EntryPoint(image: seq<byte>): nat
    requires |image| >= EHDR_SIZE
  {
    Rd64(image, 24)
  }

  function Bias(image: seq<byte>): nat
    requires |image| >= EHDR_SIZE
  {
    if Rd16(image, 16) == ET_DYN then DYN_BIAS else 0
  }

  /** What is added to the addresses of an image: nothing to those of an executable, and a constant to those of a shared
      object. */
  lemma BiasIs(image: seq<byte>)
    requires |image| >= EHDR_SIZE
    ensures Bias(image) == if Number(image[16..18]) == 3 then 0xFFFF_9000_0380_0000 else 0
  {
    ReadsNumbers(image, 16);
  }

  ghost function SegmentsOf(image: seq<byte>): seq<Segment>
    requires |image| >= EHDR_SIZE && HeadersFit(image, Count(image))
  {
    Segments(image, Count(image))
  }

  /** Reads the program headers. */
  method ReadSegments(image: seq<byte>) returns (segs: seq<Segment>)
    requires |image| >= EHDR_SIZE && HeadersFit(image, Count(image))
    ensures segs == SegmentsOf(image)
  {
    segs := [];
    for i := 0 to Count(image)
      invariant segs == Segments(image, i)
    {
      segs := segs + [SegmentAt(image, i)];
    }
  }

  /** Checks the ELF header and the program headers. */
  method Validate(image: seq<byte>) returns (rc: Status, segs: seq<Segment>)
    ensures rc == Ok <==> Accepted(image)
    ensures rc == Ok ==> segs == SegmentsOf(image)
  {
    segs := [];
    if |image| < EHDR_SIZE { return ErrNull, segs; }
    if !(image[0] == 0x7F && image[1] == 0x45 && image[2] == 0x4C && image[3] == 0x46) { return ErrMagic, segs; }
    if image[4] != 2 { return ErrClass, segs; }
    if Rd16(image, 16) != ET_EXEC && Rd16(image, 16) != ET_DYN { return ErrType, segs; }
    if Rd16(image, 18) != 62 { return ErrArch, segs; }
    if !HeadersInside(image) { return ErrPhdr, segs; }
    HeadersInsideFit(image);
    segs := ReadSegments(image);
    rc := ValidateSegments(segs, |image|, EntryPoint(image));
  }

  /** The fields of program header i, as the ELF-64 object file format lays them out. */
  lemma SegmentFields(image: seq<byte>, i: nat)
    requires |image| >= EHDR_SIZE && HeaderAt(image, i) + PHDR_SIZE <= |image|
    ensures EntryPoint(image) == Number(image[24..32])
    ensures HeaderAt(image, i) == Number(image[32..40]) + i * Number(image[54..56])
    ensures var h, s := image[HeaderAt(image, i)..HeaderAt(image, i) + PHDR_SIZE], SegmentAt(image, i);
            && s.kind == Number(h[0..4]) && s.flags == Number(h[4..8]) && s.offset == Number(h[8..16])
            && s.vaddr == Number(h[16..24]) && s.filesz == Number(h[32..40]) && s.memsz == Number(h[40..48])
            && s.align == Number(h[48..56])
  {
    HeaderFields(image, i);
    ProgramFields(image, i, image[HeaderAt(image, i)..HeaderAt(image, i) + PHDR_SIZE]);
  }

  lemma HeaderFields(image: seq<byte>, i: nat)
    requires |image| >= EHDR_SIZE
    ensures EntryPoint(image) == Number(image[24..32])
    ensures HeaderAt(image, i) == Number(image[32..40]) + i * Number(image[54..56])
  {
    ReadsNumbers(image, 24);
    ReadsNumbers(image, 32);
    ReadsNumbers(image, 54);
    TimesIsProduct(i, Rd16(image, 54));
  }

  lemma ProgramFields(image: seq<byte>, i: nat, h: seq<byte>)
    requires |image| >= EHDR_SIZE && HeaderAt(image, i) + PHDR_SIZE <= |image|
    requires h == image[HeaderAt(image, i)..HeaderAt(image, i) + PHDR_SIZE]
    ensures SegmentAt(image, i) == Segment(Number(h[0..4]), Number(h[4..8]), Number(h[8..16]), Number(h[16..24]),
                                           Number(h[32..40]), Number(h[40..48]), Number(h[48..56]))
  {
    var at := HeaderAt(image, i);
    FieldAt(image, at, h, 0, 4);
    FieldAt(image, at, h, 4, 4);
    FieldAt(image, at, h, 8, 8);
    FieldAt(image, at, h, 16, 8);
    FieldAt(image, at, h, 32, 8);
    FieldAt(image, at, h, 40, 8);
    FieldAt(image, at, h, 48, 8);
  }

  lemma FieldAt(image: seq<byte>, at: nat, h: seq<byte>, off: nat, len: nat)
    requires at + PHDR_SIZE <= |image| && h == image[at..at + PHDR_SIZE] && off + len <= PHDR_SIZE
    ensures len == 4 ==> Rd32(image, at + off) == Number(h[off..off + len])
    ensures len == 8 ==> Rd64(image, at + off) == Number(h[off..off + len])
  {
    ReadsNumbers(image, at + off);
    SliceOfSlice(image, at, PHDR_SIZE, off, len);
  }

  lemma SliceOfSlice(s: seq<byte>, at: nat, n: nat, off: nat, len: nat)
    requires at + n <= |s| && off + len <= n
    ensures s[at..at + n][off..off + len] == s[at + off..at + off + len]
  {
    var a, b := s[at..at + n][off..off + len], s[at + off..at + off + len];
    forall i | 0 <= i < len ensures a[i] == b[i] { assert s[at..at + n][off + i] == s[at + off + i]; }
  }
}
