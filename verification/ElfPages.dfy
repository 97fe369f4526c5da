/** Which pages an image is loaded to, in what order, and which bytes belong in them. */
module ElfPages {
  import opened MachineBytes
  import opened Options
  import opened PageEntries
  import opened PageTables
  import opened Paging
  import opened PageLists
  import opened ElfImage

  type PageBytes = s: seq<byte> | |s| == PAGE witness seq(PAGE, _ => 0)

  /** One page to load, and the segment it belongs to. */
  datatype Job = Job(page: nat, seg: Segment)

  function StartPage(s: Segment, bias: nat): nat { PageOf(W64(s.vaddr + bias)) }

  function EndPage(s: Segment, bias: nat): nat { AlignUpPage(s.vaddr + bias + s.memsz) }

  function PageCount(s: Segment, bias: nat): nat {
    if StartPage(s, bias) < EndPage(s, bias) then (EndPage(s, bias) - StartPage(s, bias)) / PAGE else 0
  }

  ghost function SegmentJobs(s: Segment, bias: nat, n: nat): (js: seq<Job>)
    ensures |js| == n
    ensures forall k {:trigger js[k]} :: 0 <= k < n ==> js[k] == Job(StartPage(s, bias) + PAGE * k, s)
  {
    if n == 0 then [] else SegmentJobs(s, bias, n - 1) + [Job(StartPage(s, bias) + PAGE * (n - 1), s)]
  }

  /** The pages of the first n segments, in the order in which they are loaded. */
  ghost function JobsOf(segs: seq<Segment>, bias: nat, n: nat): seq<Job>
    requires n <= |segs|
  {
    if n == 0 then []
    else
      var s := segs[n - 1];
      JobsOf(segs, bias, n - 1) + if Loaded(s) then SegmentJobs(s, bias, PageCount(s, bias)) else []
  }

  /** The byte that belongs at an address of a segment: from the file, or zero. */
  function ByteAt(image: seq<byte>, s: Segment, bias: nat, va: nat): byte {
    var at := va - W64(s.vaddr + bias);
    if 0 <= at < s.filesz && s.offset + at < |image| then image[s.offset + at] else 0
  }

  function PageImage(image: seq<byte>, job: Job, bias: nat): PageBytes {
    seq(PAGE, k requires 0 <= k < PAGE => ImageByte(image, job, bias, k))
  }

  function ImageByte(image: seq<byte>, job: Job, bias: nat, k: nat): byte { ByteAt(image, job.seg, bias, job.page + k) }

  /** Every frame holds the page it was taken for. */
  ghost predicate Contents(data: seq<PageBytes>, image: seq<byte>, bias: nat, jobs: seq<Job>, fs: seq<nat>) {
    |jobs| == |fs| && forall k {:trigger jobs[k]} {:trigger fs[k]} :: 0 <= k < |jobs| ==>
        fs[k] < |data| && data[fs[k]] == PageImage(image, jobs[k], bias)
  }

  // ---- Which pages ----

  ghost predicate InWindow(page: nat, s: Segment, bias: nat) { StartPage(s, bias) <= page < EndPage(s, bias) }

  /** A page of one of the first n segments. */
  ghost predicate Listed(job: Job, segs: seq<Segment>, bias: nat, n: nat)
    requires n <= |segs|
  {
    job.page % PAGE == 0 && InWindow(job.page, job.seg, bias) && exists i ::
        0 <= i < n && segs[i] == job.seg && Loaded(segs[i])
  }

  lemma {:induction false} JobsAreListed(segs: seq<Segment>, bias: nat, n: nat, t: nat)
    requires n <= |segs| && t < |JobsOf(segs, bias, n)|
    ensures Listed(JobsOf(segs, bias, n)[t], segs, bias, n)
  {
    var before := JobsOf(segs, bias, n - 1);
    if t < |before| {
      JobsAreListed(segs, bias, n - 1, t);
    } else {
      SegmentPage(segs[n - 1], bias, t - |before|);
    }
  }

  lemma SegmentPage(s: Segment, bias: nat, k: nat)
    requires k < PageCount(s, bias)
    ensures (StartPage(s, bias) + PAGE * k) % PAGE == 0 && InWindow(StartPage(s, bias) + PAGE * k, s, bias)
  {
  }

  /** Every page of every segment is loaded. */
  lemma {:induction false} ListedAreJobs(segs: seq<Segment>, bias: nat, n: nat, job: Job)
    requires n <= |segs| && Listed(job, segs, bias, n)
    ensures job in JobsOf(segs, bias, n)
  {
    var i :| 0 <= i < n && segs[i] == job.seg && Loaded(segs[i]);
    if i < n - 1 {
      ListedAreJobs(segs, bias, n - 1, job);
      return;
    }
    var k := (job.page - StartPage(job.seg, bias)) / PAGE;
    var js := SegmentJobs(segs[i], bias, PageCount(segs[i], bias));
    assert StartPage(job.seg, bias) + PAGE * k == job.page && k < |js|;
    assert js[k] == job;
  }

  // ---- Pages of an accepted image are distinct ----

  ghost predicate Canonical(va: nat) { va < 0x8000_0000_0000 || WORD - 0x8000_0000_0000 <= va < WORD }

  /** No segment wraps when it is moved by the bias, and every address of its pages is canonical. */
  ghost predicate Roomy(segs: seq<Segment>, bias: nat) {
    && bias % PAGE == 0
    && (forall i {:trigger segs[i]} :: 0 <= i < |segs| && Loaded(segs[i]) ==>
       segs[i].vaddr + bias + segs[i].memsz + PAGE <= WORD)
    && forall i, va: nat {:trigger InWindow(va, segs[i], bias)} ::
         0 <= i < |segs| && Loaded(segs[i]) && InWindow(va, segs[i], bias) ==> Canonical(va)
  }

  /** No page of a segment is mapped. */
  ghost predicate Unmapped(m: Memory, root: nat, segs: seq<Segment>, bias: nat) {
    forall i, va: nat {:trigger InWindow(va, segs[i], bias)} ::
        0 <= i < |segs| && Loaded(segs[i]) && InWindow(va, segs[i], bias) ==>
      Translate(m, root, PathOf(va)) == None
  }

  lemma BiasedWindow(s: Segment, bias: nat)
    requires bias % PAGE == 0 && s.vaddr + bias + s.memsz + PAGE <= WORD
    ensures StartPage(s, bias) == WindowStart(s) + bias && EndPage(s, bias) == WindowEnd(s) + bias
  {
    AlignedSum(s.vaddr, bias);
    AlignedSum(s.vaddr + s.memsz + PAGE - 1, bias);
  }

  lemma AlignedSum(v: nat, bias: nat)
    requires bias % PAGE == 0
    ensures (v + bias) / PAGE * PAGE == v / PAGE * PAGE + bias
  {
  }

  /** Segments whose windows are apart share no page. */
  lemma ApartPages(s: Segment, t: Segment, bias: nat, page: nat)
    requires WindowsApart(s, t) && bias % PAGE == 0 && s.vaddr + bias + s.memsz + PAGE <= WORD &&
             t.vaddr + bias + t.memsz + PAGE <= WORD
    ensures !(InWindow(page, s, bias) && InWindow(page, t, bias))
  {
    BiasedWindow(s, bias);
    BiasedWindow(t, bias);
  }

  lemma {:induction false} JobsAreDistinct(segs: seq<Segment>, bias: nat, n: nat, len: nat, entry: nat, t: nat, u: nat)
    requires n <= |segs| && t < u < |JobsOf(segs, bias, n)| && Acceptable(segs, len, entry) && Roomy(segs, bias)
    ensures JobsOf(segs, bias, n)[t].page != JobsOf(segs, bias, n)[u].page
  {
    var before := JobsOf(segs, bias, n - 1);
    if u < |before| {
      JobsAreDistinct(segs, bias, n - 1, len, entry, t, u);
    } else if t < |before| {
      JobsAreListed(segs, bias, n - 1, t);
      var i :| 0 <= i < n - 1 && segs[i] == before[t].seg && Loaded(segs[i]);
      SegmentPage(segs[n - 1], bias, u - |before|);
      ApartPages(segs[i], segs[n - 1], bias, before[t].page);
    }
  }

  /** Canonical addresses with the same indices lie in one page. */
  lemma CanonicalPath(va: nat, va': nat)
    requires Canonical(va) && Canonical(va')
    ensures PathOf(va) == PathOf(va') <==> va / PAGE == va' / PAGE
  {
    LowBits(va);
    LowBits(va');
    PathDetermines(va % 0x1_0000_0000_0000, va' % 0x1_0000_0000_0000);
    CanonicalPage(va);
    CanonicalPage(va');
  }

  lemma LowBits(va: nat)
    ensures PathOf(va) == PathOf(va % 0x1_0000_0000_0000)
  {
    var q, r := va / 0x1_0000_0000_0000, va % 0x1_0000_0000_0000;
    PathOfPage(va);
    PathOfPage(r);
    PageShift(q, r);
    var s := r / 0x1000;
    NineBits(q * 0x800_0000, s);
    NineBits(q * 0x4_0000, s / 512);
    NineBits(q * 512, s / 512 / 512);
    NineBits(q, s / 512 / 512 / 512);
  }

  lemma PageShift(q: nat, r: nat)
    ensures (q * 0x1_0000_0000_0000 + r) / 0x1000 == 512 * (q * 0x800_0000) + r / 0x1000
  {
  }

  lemma NineBits(x: nat, y: nat)
    ensures (512 * x + y) / 512 == x + y / 512 && (512 * x + y) % 512 == y % 512
  {
  }

  lemma CanonicalPage(va: nat)
    requires Canonical(va)
    ensures va % 0x1_0000_0000_0000 == if va < 0x8000_0000_0000 then va else va - (WORD - 0x1_0000_0000_0000)
    ensures va % 0x1_0000_0000_0000 / PAGE ==
            if va < 0x8000_0000_0000 then va / PAGE else va / PAGE - (WORD - 0x1_0000_0000_0000) / PAGE
  {
  }

  ghost function PagesOf(jobs: seq<Job>): (pages: seq<nat>)
    ensures |pages| == |jobs| && forall k {:trigger pages[k]} :: 0 <= k < |jobs| ==> pages[k] == jobs[k].page
  {
    seq(|jobs|, k requires 0 <= k < |jobs| => jobs[k].page)
  }

  /** What the loader counts on: the pages to be loaded have distinct paths and are not mapped. */
  ghost predicate Targets(m: Memory, root: nat, jobs: seq<Job>) {
    DistinctPaths(PagePaths(PagesOf(jobs))) && forall k {:trigger jobs[k]} :: 0 <= k < |jobs| ==>
        Translate(m, root, PathOf(jobs[k].page)) == None
  }

  /** An accepted image that fits gives the loader what it counts on. */
  lemma AcceptedTargets(m: Memory, root: nat, segs: seq<Segment>, bias: nat, len: nat, entry: nat)
    requires Acceptable(segs, len, entry) && Roomy(segs, bias) && Unmapped(m, root, segs, bias)
    ensures Targets(m, root, JobsOf(segs, bias, |segs|))
  {
    var jobs := JobsOf(segs, bias, |segs|);
    var pages := PagesOf(jobs);
    var ps := PagePaths(pages);
    forall k | 0 <= k < |jobs|
      ensures Translate(m, root, PathOf(jobs[k].page)) == None && Canonical(jobs[k].page) && jobs[k].page % PAGE == 0
    {
      JobsAreListed(segs, bias, |segs|, k);
      var i :| 0 <= i < |segs| && segs[i] == jobs[k].seg && Loaded(segs[i]);
      assert InWindow(jobs[k].page, segs[i], bias);
    }
    forall t, u {:trigger Pair(t, u)} | 0 <= t < u < |ps| ensures ps[t] != ps[u] {
      JobsAreDistinct(segs, bias, |segs|, len, entry, t, u);
      assert pages[t] == jobs[t].page && pages[u] == jobs[u].page;
      CanonicalPath(pages[t], pages[u]);
    }
    forall t {:trigger ps[t]} | 0 <= t < |ps| ensures |ps[t]| == 4 && ps[t][3] < 512 {
      assert ps[t] == PathOf(pages[t]);
    }
  }

  /** The pages of the first i segments and k pages of the next one come first among all pages. */
  lemma {:induction false} JobsPrefix(segs: seq<Segment>, bias: nat, i: nat, k: nat, n: nat)
    requires i < n <= |segs| && Loaded(segs[i]) && k <= PageCount(segs[i], bias)
    ensures JobsOf(segs, bias, i) + SegmentJobs(segs[i], bias, k) <= JobsOf(segs, bias, n)
    decreases n - i
  {
    if n == i + 1 {
      var some, js := SegmentJobs(segs[i], bias, k), SegmentJobs(segs[i], bias, PageCount(segs[i], bias));
      assert forall x {:trigger some[x]} :: 0 <= x < k ==> some[x] == js[x];
    } else {
      JobsPrefix(segs, bias, i, k, n - 1);
    }
  }

  /** The next page of the list is not mapped yet. */
  lemma NextUnmapped(m0: Memory, m: Memory, root: nat, all: seq<Job>, n: nat, fs: seq<nat>)
    requires n < |all| && Targets(m0, root, all) && ListMapped(m0, m, root, PagePaths(PagesOf(all[..n])), fs)
    ensures Translate(m0, root, PathOf(all[n].page)) == None && Translate(m, root, PathOf(all[n].page)) == None
    ensures DistinctPaths(PagePaths(PagesOf(all[..n])) + [PathOf(all[n].page)])
  {
    var ps, qs := PagePaths(PagesOf(all)), PagePaths(PagesOf(all[..n]));
    var p := PathOf(all[n].page);
    assert ps[n] == p;
    forall i | 0 <= i < n ensures qs[i] == ps[i] && ps[i] != p { assert all[..n][i] == all[i] && Pair(i, n); }
    var more := qs + [p];
    forall i, j {:trigger Pair(i, j)} | 0 <= i < j < |more| ensures more[i] != more[j] {
      assert Pair(i, j) && more[i] == ps[i] && more[j] == ps[j];
    }
    assert Shown(true);
    assert p !in qs;
  }

  lemma PagesSnoc(all: seq<Job>, n: nat)
    requires n < |all|
    ensures all[..n + 1] == all[..n] + [all[n]] && PagesOf(all[..n + 1]) == PagesOf(all[..n]) + [all[n].page]
    ensures PagePaths(PagesOf(all[..n + 1])) == PagePaths(PagesOf(all[..n])) + [PathOf(all[n].page)]
  {
    PagePathsSnoc(PagesOf(all[..n]), all[n].page);
  }

  // ---- What a loaded image reads as ----

  /** The byte at a virtual address. */
  ghost function ReadByte(m: Memory, root: nat, data: seq<PageBytes>, va: nat): Option<byte> {
    match Translate(m, root, PathOf(va))
    case None => None
    case Some(f) => if f < |data| then Some(data[f][va % PAGE]) else None
  }

  /** Every byte of every segment reads as it should, up to the end of its last page. */
  ghost predicate ImageReads(m: Memory, root: nat, data: seq<PageBytes>, image: seq<byte>, segs: seq<Segment>,
                             bias: nat) {
    forall i, va: nat {:trigger InWindow(va, segs[i], bias)} ::
        0 <= i < |segs| && Loaded(segs[i]) && InWindow(va, segs[i], bias) ==>
      ReadByte(m, root, data, va) == Some(ByteAt(image, segs[i], bias, va))
  }

  /** Segments lie in frames that were free and no longer are. */
  ghost predicate OwnFrames(m: Memory, root: nat, segs: seq<Segment>, bias: nat, free0: set<nat>, free: set<nat>) {
    forall i, va: nat {:trigger InWindow(va, segs[i], bias)} ::
        0 <= i < |segs| && Loaded(segs[i]) && InWindow(va, segs[i], bias) ==>
      Translate(m, root, PathOf(va)).Some? && Translate(m, root, PathOf(va)).value in free0 &&
        Translate(m, root, PathOf(va)).value !in free
  }

  /** Addresses outside all segments lead where they did. */
  ghost predicate OutsideSame(m0: Memory, m: Memory, root: nat, segs: seq<Segment>, bias: nat) {
    forall va: nat {:trigger PathOf(va)} ::
        Canonical(va) && Translate(m, root, PathOf(va)) != Translate(m0, root, PathOf(va)) ==> InSome(va, segs, bias)
  }

  ghost predicate InSome(va: nat, segs: seq<Segment>, bias: nat) {
    exists i :: 0 <= i < |segs| && Loaded(segs[i]) && InWindow(va, segs[i], bias)
  }

  lemma SamePage(va: nat, page: nat)
    requires page % PAGE == 0 && page <= va < page + PAGE
    ensures PathOf(va) == PathOf(page) && va - page == va % PAGE
  {
    PageNumber(va, page);
    SamePath(va, page);
  }

  lemma PageNumber(va: nat, page: nat)
    requires page % 0x1000 == 0 && page <= va < page + 0x1000
    ensures va / 0x1000 == page / 0x1000 && va - page == va % 0x1000
  {
  }

  lemma SamePath(va: nat, page: nat)
    requires va / 0x1000 == page / 0x1000
    ensures PathOf(va) == PathOf(page)
  {
    PathOfPage(va);
    PathOfPage(page);
  }

  lemma PageOfWindow(va: nat, s: Segment, bias: nat)
    requires InWindow(va, s, bias)
    ensures InWindow(PageOf(va), s, bias) && PageOf(va) <= va < PageOf(va) + PAGE && PageOf(va) % PAGE == 0
  {
  }

  /** Which of the frames an address of a segment leads to. */
  lemma MappedTo(m0: Memory, m: Memory, root: nat, segs: seq<Segment>, bias: nat, fs: seq<nat>, i: nat, va: nat)
    returns (t: nat)
    requires i < |segs| && Loaded(segs[i]) && InWindow(va, segs[i], bias)
    requires ListMapped(m0, m, root, PagePaths(PagesOf(JobsOf(segs, bias, |segs|))), fs)
    ensures t < |fs| == |JobsOf(segs, bias, |segs|)| && JobsOf(segs, bias, |segs|)[t] == Job(PageOf(va), segs[i])
    ensures Translate(m, root, PathOf(va)) == Some(fs[t]) && va - PageOf(va) == va % PAGE
  {
    var jobs := JobsOf(segs, bias, |segs|);
    PageOfWindow(va, segs[i], bias);
    ListedAreJobs(segs, bias, |segs|, Job(PageOf(va), segs[i]));
    t :| 0 <= t < |jobs| && jobs[t] == Job(PageOf(va), segs[i]);
    SamePage(va, PageOf(va));
    assert Shown(true);
    assert PagePaths(PagesOf(jobs))[t] == PathOf(PagesOf(jobs)[t]);
  }

  /** A byte read through the tables is the byte that belongs there. */
  lemma ReadsByte(m0: Memory, m: Memory, root: nat, data: seq<PageBytes>, image: seq<byte>, segs: seq<Segment>,
                  bias: nat, fs: seq<nat>, i: nat, va: nat)
    requires i < |segs| && Loaded(segs[i]) && InWindow(va, segs[i], bias)
    requires var jobs := JobsOf(segs, bias, |segs|);
             Contents(data, image, bias, jobs, fs) && ListMapped(m0, m, root, PagePaths(PagesOf(jobs)), fs)
    ensures ReadByte(m, root, data, va) == Some(ByteAt(image, segs[i], bias, va))
  {
    var t := MappedTo(m0, m, root, segs, bias, fs, i, va);
    var job := JobsOf(segs, bias, |segs|)[t];
    assert PageImage(image, job, bias)[va % PAGE] == ImageByte(image, job, bias, va % PAGE);
  }

  lemma ImageIsLoaded(m0: Memory, m: Memory, root: nat, data: seq<PageBytes>, image: seq<byte>, segs: seq<Segment>,
                      bias: nat, fs: seq<nat>)
    requires var jobs := JobsOf(segs, bias, |segs|);
             Contents(data, image, bias, jobs, fs) && ListMapped(m0, m, root, PagePaths(PagesOf(jobs)), fs)
    requires Roomy(segs, bias)
    ensures ImageReads(m, root, data, image, segs, bias) && OutsideSame(m0, m, root, segs, bias)
  {
    forall i, va: nat | 0 <= i < |segs| && Loaded(segs[i]) && InWindow(va, segs[i], bias)
      ensures ReadByte(m, root, data, va) == Some(ByteAt(image, segs[i], bias, va))
    {
      ReadsByte(m0, m, root, data, image, segs, bias, fs, i, va);
    }
    forall va: nat | Canonical(va) && Translate(m, root, PathOf(va)) != Translate(m0, root, PathOf(va))
      ensures InSome(va, segs, bias)
    {
      MovedIsInside(m0, m, root, segs, bias, fs, va);
    }
  }

  lemma MovedIsInside(m0: Memory, m: Memory, root: nat, segs: seq<Segment>, bias: nat, fs: seq<nat>, va: nat)
    requires ListMapped(m0, m, root, PagePaths(PagesOf(JobsOf(segs, bias, |segs|))), fs) && Roomy(segs, bias)
    requires Canonical(va) && Translate(m, root, PathOf(va)) != Translate(m0, root, PathOf(va))
    ensures InSome(va, segs, bias)
  {
    var jobs := JobsOf(segs, bias, |segs|);
    var ps := PagePaths(PagesOf(jobs));
    assert Shown(true);
    assert PathOf(va) in ps;
    var t :| 0 <= t < |ps| && ps[t] == PathOf(va);
    assert ps[t] == PathOf(PagesOf(jobs)[t]);
    JobsAreListed(segs, bias, |segs|, t);
    var i :| 0 <= i < |segs| && segs[i] == jobs[t].seg && Loaded(segs[i]);
    assert InWindow(jobs[t].page, segs[i], bias);
    CanonicalPath(va, jobs[t].page);
    WholePage(va, jobs[t].page, segs[i], bias);
  }

  lemma WholePage(va: nat, page: nat, s: Segment, bias: nat)
    requires InWindow(page, s, bias) && va / PAGE == page / PAGE
    ensures InWindow(va, s, bias)
  {
  }
}
