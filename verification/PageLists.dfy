/** Lists of pages mapped one by one to frames taken one by one, and how to take all of it back. */
module PageLists {
  import opened Options
  import opened PageEntries
  import opened PageTables
  import opened PageAccess
  import opened Paging

  ghost function HeldSet(fs: seq<nat>): set<nat> { set f | f in fs }

  ghost predicate Pair(i: int, j: int) { true }

  ghost predicate DistinctPaths(ps: seq<Path>) {
    (forall i {:trigger ps[i]} :: 0 <= i < |ps| ==> |ps[i]| == 4 && ps[i][3] < 512) &&
    forall i, j {:trigger Pair(i, j)} :: 0 <= i < j < |ps| && Pair(i, j) ==> ps[i] != ps[j]
  }

  ghost predicate Shown(x: bool) { true }

  /** From m0 to m the pages ps, unmapped before, have been mapped to the frames fs, and nothing else moved. */
  ghost predicate ListMapped(m0: Memory, m: Memory, root: nat, ps: seq<Path>, fs: seq<nat>) {
    |ps| == |fs| && forall x {:trigger Shown(x)} :: Shown(x) ==> ListFacts(m0, m, root, ps, fs)
  }

  ghost predicate ListFacts(m0: Memory, m: Memory, root: nat, ps: seq<Path>, fs: seq<nat>) {
    && |ps| == |fs| && DistinctPaths(ps)
    && (forall i {:trigger ps[i]} :: 0 <= i < |ps| ==>
          Translate(m0, root, ps[i]) == None && Translate(m, root, ps[i]) == Some(fs[i]) &&
            Table(m, root, ps[i][..3]).Some?)
    && forall p: Path {:trigger Translate(m, root, p)} :: |p| == 4 && p !in ps ==>
       Translate(m, root, p) == Translate(m0, root, p)
  }

  /** The frames fs are held: neither free nor tables, and each once. With them counted as free the tree is sound and
      has grown from m0 as if they had never been taken. */
  ghost predicate Holding(m0: Memory, m: Memory, root: nat, free0: set<nat>, free: set<nat>, fs: seq<nat>) {
    forall x {:trigger Shown(x)} :: Shown(x) ==> HoldingFacts(m0, m, root, free0, free, fs)
  }

  ghost predicate HoldingFacts(m0: Memory, m: Memory, root: nat, free0: set<nat>, free: set<nat>, fs: seq<nat>) {
    && TreeOk(m, root, free + HeldSet(fs)) && Grown(m0, m, root, free0, free + HeldSet(fs))
    && (forall f :: f in fs ==> f !in free)
    && forall i, j {:trigger Pair(i, j)} :: 0 <= i < j < |fs| && Pair(i, j) ==> fs[i] != fs[j]
  }

  lemma HoldingNone(m: Memory, root: nat, free: set<nat>)
    requires TreeOk(m, root, free)
    ensures Holding(m, m, root, free, free, [])
  {
    assert Shown(true);
    assert free + HeldSet([]) == free;
    KeptSame(m, root, free);
  }

  /** Taking a free frame. */
  lemma HoldingTake(m0: Memory, m: Memory, root: nat, free0: set<nat>, free: set<nat>, fs: seq<nat>, f: nat)
    requires Holding(m0, m, root, free0, free, fs) && f in free
    ensures Holding(m0, m, root, free0, free - {f}, fs + [f])
  {
    assert Shown(true);
    assert (free - {f}) + HeldSet(fs + [f]) == free + HeldSet(fs);
    forall i, j {:trigger Pair(i, j)} | 0 <= i < j < |fs + [f]| ensures (fs + [f])[i] != (fs + [f])[j] {
      assert Pair(i, j) && fs[i] in fs;
    }
  }

  function Removed<T>(s: seq<T>, k: nat): (r: seq<T>)
    requires k < |s|
    ensures |r| == |s| - 1
  {
    s[..k] + s[k + 1..]
  }

  lemma LastRemoved<T>(s: seq<T>, x: T)
    ensures Removed(s + [x], |s|) == s
  {
  }

  /** Giving one of the frames back. */
  lemma HoldingGive(m0: Memory, m: Memory, root: nat, free0: set<nat>, free: set<nat>, fs: seq<nat>, k: nat)
    requires k < |fs| && Holding(m0, m, root, free0, free, fs)
    ensures Holding(m0, m, root, free0, free + {fs[k]}, Removed(fs, k))
    ensures TreeOk(m, root, free + {fs[k]})
  {
    assert Shown(true);
    var f, rest := fs[k], Removed(fs, k);
    assert fs == fs[..k] + [f] + fs[k + 1..];
    assert (free + {f}) + HeldSet(rest) == free + HeldSet(fs) by {
      forall x ensures x in HeldSet(fs) <==> x in HeldSet(rest) || x == f {}
    }
    forall i | 0 <= i < |rest| ensures rest[i] !in free + {f} {
      var i' := if i < k then i else i + 1;
      assert rest[i] == fs[i'] && fs[i'] in fs && Pair(i', k) && Pair(k, i');
    }
    forall i, j {:trigger Pair(i, j)} | 0 <= i < j < |rest| ensures rest[i] != rest[j] {
      assert Pair(if i < k then i else i + 1, if j < k then j else j + 1);
    }
    SmallerFree(m, root, free + HeldSet(fs), free + {f});
  }

  /** Changing the tree while frames are held. */
  lemma HoldingGrows(m0: Memory, m: Memory, m': Memory, root: nat, free0: set<nat>, free: set<nat>, free': set<nat>,
                     fs: seq<nat>)
    requires Holding(m0, m, root, free0, free, fs) && Grown(m, m', root, free, free') && TreeOk(m', root, free')
    ensures Holding(m0, m', root, free0, free', fs)
  {
    assert Shown(true);
    var all, all' := free + HeldSet(fs), free' + HeldSet(fs);
    GrownLifted(m, m', root, free, free', HeldSet(fs));
    GrownTrans(m0, m, m', root, free0, all, all');
    TreeLifted(m, m', root, free, free', HeldSet(fs));
  }

  lemma TablesKeptAll(m: Memory, m': Memory, root: nat, free: set<nat>, free': set<nat>)
    requires Grown(m, m', root, free, free')
    ensures forall p: Path {:trigger Table(m', root, p)} :: |p| <= 3 && Table(m, root, p).Some? ==>
              Table(m', root, p).Some?
  {
    forall p: Path | |p| <= 3 && Table(m, root, p).Some? ensures Table(m', root, p).Some? {
      TableStays(m, m', root, free, free', p, Table(m, root, p).value);
    }
  }

  lemma ListMappedNone(m: Memory, root: nat)
    ensures ListMapped(m, m, root, [], [])
  {
    assert Shown(true);
  }

  /** One page more. */
  lemma ListGrows(m0: Memory, m: Memory, m': Memory, root: nat, free: set<nat>, free': set<nat>, ps: seq<Path>,
                  fs: seq<nat>, p: Path, f: nat)
    requires ListMapped(m0, m, root, ps, fs) && DistinctPaths(ps + [p]) && Grown(m, m', root, free, free')
    requires |p| == 4 && Translate(m0, root, p) == None && Remapped(m, m', root, p, Some(f)) &&
             Table(m', root, p[..3]).Some?
    ensures ListMapped(m0, m', root, ps + [p], fs + [f])
  {
    assert Shown(true);
    var ps', fs' := ps + [p], fs + [f];
    TablesKeptAll(m, m', root, free, free');
    forall i | 0 <= i < |ps'|
      ensures Translate(m0, root, ps'[i]) == None && Translate(m', root, ps'[i]) == Some(fs'[i]) &&
              Table(m', root, ps'[i][..3]).Some?
    {
      if i < |ps| { assert ps'[i] == ps[i] && Pair(i, |ps|) && ps'[|ps|] == p; }
    }
    forall q: Path | |q| == 4 && q !in ps' ensures Translate(m', root, q) == Translate(m0, root, q) {
      assert ps'[|ps|] == p;
      assert q !in ps && q != p;
    }
  }

  /** A change that moves no address. */
  lemma ListStays(m0: Memory, m: Memory, m': Memory, root: nat, free: set<nat>, free': set<nat>, ps: seq<Path>,
                  fs: seq<nat>)
    requires ListMapped(m0, m, root, ps, fs) && Grown(m, m', root, free, free') && SameTranslation(m, m', root)
    ensures ListMapped(m0, m', root, ps, fs)
  {
    assert Shown(true);
    TablesKeptAll(m, m', root, free, free');
  }

  /** One page less. */
  lemma ListShrinks(m0: Memory, m: Memory, m': Memory, root: nat, free: set<nat>, ps: seq<Path>, fs: seq<nat>, k: nat)
    requires k < |ps| == |fs| && ListMapped(m0, m, root, ps, fs) && Grown(m, m', root, free, free)
    requires |ps[k]| == 4 && Remapped(m, m', root, ps[k], None)
    ensures ListMapped(m0, m', root, Removed(ps, k), Removed(fs, k))
  {
    var rest, held := Removed(ps, k), Removed(fs, k);
    RestDistinct(m0, m, root, ps, fs, k);
    forall i | 0 <= i < |rest|
      ensures Translate(m0, root, rest[i]) == None && Translate(m', root, rest[i]) == Some(held[i]) &&
              Table(m', root, rest[i][..3]).Some?
    {
      RestMapped(m0, m, m', root, free, ps, fs, k, i);
    }
    forall q: Path | |q| == 4 && q !in rest ensures Translate(m', root, q) == Translate(m0, root, q) {
      OthersUnmoved(m0, m, m', root, ps, fs, k, q);
    }
  }

  lemma RestDistinct(m0: Memory, m: Memory, root: nat, ps: seq<Path>, fs: seq<nat>, k: nat)
    requires k < |ps| == |fs| && ListMapped(m0, m, root, ps, fs)
    ensures DistinctPaths(Removed(ps, k))
  {
    assert Shown(true);
    var rest := Removed(ps, k);
    forall i {:trigger rest[i]} | 0 <= i < |rest| ensures |rest[i]| == 4 && rest[i][3] < 512 {
      assert rest[i] == ps[if i < k then i else i + 1];
    }
    forall i, j {:trigger Pair(i, j)} | 0 <= i < j < |rest| ensures rest[i] != rest[j] {
      assert Pair(if i < k then i else i + 1, if j < k then j else j + 1);
    }
  }

  lemma RestMapped(m0: Memory, m: Memory, m': Memory, root: nat, free: set<nat>, ps: seq<Path>, fs: seq<nat>,
                   k: nat, i: nat)
    requires k < |ps| == |fs| && i < |ps| - 1 && ListMapped(m0, m, root, ps, fs) && Grown(m, m', root, free, free)
    requires |ps[k]| == 4 && Remapped(m, m', root, ps[k], None)
    ensures var p := Removed(ps, k)[i];
            |p| == 4 && Translate(m0, root, p) == None && Translate(m', root, p) == Some(Removed(fs, k)[i]) &&
              Table(m', root, p[..3]).Some?
  {
    assert Shown(true);
    var i' := if i < k then i else i + 1;
    assert Removed(ps, k)[i] == ps[i'] && Removed(fs, k)[i] == fs[i'] && Pair(i', k) && Pair(k, i');
    TablesKeptAll(m, m', root, free, free);
  }

  lemma OthersUnmoved(m0: Memory, m: Memory, m': Memory, root: nat, ps: seq<Path>, fs: seq<nat>, k: nat, q: Path)
    requires k < |ps| == |fs| && ListMapped(m0, m, root, ps, fs) && |ps[k]| == 4 && Remapped(m, m', root, ps[k], None)
    requires |q| == 4 && q !in Removed(ps, k)
    ensures Translate(m', root, q) == Translate(m0, root, q)
  {
    assert Shown(true);
    if q != ps[k] { NotRemoved(ps, k, q); } else { assert Translate(m0, root, ps[k]) == None; }
  }

  lemma NotRemoved(ps: seq<Path>, k: nat, q: Path)
    requires k < |ps| && q != ps[k] && q !in Removed(ps, k)
    ensures q !in ps
  {
    assert ps == ps[..k] + [ps[k]] + ps[k + 1..];
  }

  /** Every page of the list is a small one. */
  lemma ListIsSmall(m0: Memory, m: Memory, root: nat, free: set<nat>, ps: seq<Path>, fs: seq<nat>, k: nat)
    requires k < |ps| && ListMapped(m0, m, root, ps, fs) && TreeOk(m, root, free)
    ensures |ps[k]| == 4 && SmallPage(m, root, ps[k]) && Translate(m, root, ps[k]) == Some(fs[k])
  {
    assert Shown(true);
    TableFrame(m, root, free, ps[k][..3], Table(m, root, ps[k][..3]).value);
  }

  ghost function PagePaths(pages: seq<nat>): (ps: seq<Path>)
    ensures |ps| == |pages| && forall k {:trigger ps[k]} :: 0 <= k < |pages| ==> ps[k] == PathOf(pages[k])
  {
    if |pages| == 0 then [] else PagePaths(pages[..|pages| - 1]) + [PathOf(pages[|pages| - 1])]
  }

  lemma PagePathsSnoc(pages: seq<nat>, page: nat)
    ensures PagePaths(pages + [page]) == PagePaths(pages) + [PathOf(page)]
  {
    assert (pages + [page])[..|pages|] == pages;
  }

  lemma NothingListed(m0: Memory, m: Memory, root: nat, ps: seq<Path>, fs: seq<nat>)
    requires ListMapped(m0, m, root, ps, fs) && fs == []
    ensures SameTranslation(m0, m, root)
  {
    assert Shown(true);
  }

  lemma HoldingNothing(m0: Memory, m: Memory, root: nat, free0: set<nat>, free: set<nat>, fs: seq<nat>)
    requires Holding(m0, m, root, free0, free, fs) && fs == []
    ensures Grown(m0, m, root, free0, free)
  {
    assert Shown(true);
    assert free + HeldSet(fs) == free;
  }

  /** A frame taken was free at the start, and is none of those held. */
  lemma TakenWasFree(m0: Memory, m: Memory, root: nat, free0: set<nat>, free: set<nat>, fs: seq<nat>, f: nat)
    requires Holding(m0, m, root, free0, free, fs) && f in free
    ensures f in free0 && f !in fs
  {
    assert Shown(true);
  }

  lemma SmallHasTable(m: Memory, root: nat, p: Path)
    requires |p| == 4 && SmallPage(m, root, p)
    ensures Table(m, root, p[..3]).Some?
  {
  }

  // ---- Their last-level entries ----

  /** The pages have these last-level entries, and the tables above them let user access and writing through. */
  ghost predicate Leaves(m: Memory, root: nat, ps: seq<Path>, es: seq<Entry>) {
    |ps| == |es| && forall x {:trigger Shown(x)} :: Shown(x) ==>
      forall i {:trigger ps[i]} {:trigger es[i]} :: 0 <= i < |ps| ==> LeafIs(m, root, ps[i], es[i])
  }

  ghost predicate LeafIs(m: Memory, root: nat, p: Path, e: Entry) {
    |p| == 4 && EntryAt(m, root, p[..3], p[3]) == Some(e) && Present(e) && Lets(m, root, p[..3], USER | WRITABLE)
  }

  lemma LeafKept(m: Memory, m': Memory, root: nat, but: Path, p: Path, e: Entry)
    requires LeafIs(m, root, p, e) && KeepsBut(m, m', root, but) && (but == [] || (|but| == 4 && but != p))
    ensures LeafIs(m', root, p, e)
  {
    assert p == p[..3] + [p[3]];
    assert |but| > 0 ==> !(but <= p[..3]);
    PresentKept(m, m', root, but, p[..3], p[3]);
    LetsKept(m, m', root, but, p[..3], USER | WRITABLE);
  }

  lemma PresentKept(m: Memory, m': Memory, root: nat, but: Path, p: Path, i: nat)
    requires KeepsBut(m, m', root, but) && |p| == 3 && !EndsIn(but, p, i)
    requires EntryAt(m, root, p, i).Some? && Present(EntryAt(m, root, p, i).value)
    ensures EntryAt(m', root, p, i) == EntryAt(m, root, p, i)
  {
    KeptEntry(m, m', root, but, p, i);
  }

  lemma LeavesStay(m: Memory, m': Memory, root: nat, ps: seq<Path>, es: seq<Entry>)
    requires Leaves(m, root, ps, es) && KeepsBut(m, m', root, [])
    ensures Leaves(m', root, ps, es)
  {
    assert Shown(true);
    forall i | 0 <= i < |ps| ensures LeafIs(m', root, ps[i], es[i]) { LeafKept(m, m', root, [], ps[i], es[i]); }
  }

  /** One page more, mapped for user access and writing. */
  lemma LeavesGrow(m: Memory, m': Memory, root: nat, ps: seq<Path>, es: seq<Entry>, p: Path, f: nat, nx: bool)
    requires Leaves(m, root, ps, es) && KeepsBut(m, m', root, []) && |p| == 4
    requires Lets(m', root, p, Passed(PRESENT | WRITABLE | USER))
    requires EntryAt(m', root, p[..3], p[3]) == Some(LeafEntry(f, PRESENT | WRITABLE | USER, nx))
    ensures Leaves(m', root, ps + [p], es + [LeafEntry(f, PRESENT | WRITABLE | USER, nx)])
  {
    LeavesStay(m, m', root, ps, es);
    assert Shown(true);
    AllFlags();
    var e := LeafEntry(f, PRESENT | WRITABLE | USER, nx);
    assert LeafIs(m', root, p, e);
    var qs, ds := ps + [p], es + [e];
    forall i | 0 <= i < |qs| ensures LeafIs(m', root, qs[i], ds[i]) {
      if i < |ps| { assert LeafIs(m', root, ps[i], es[i]); }
    }
  }

  lemma AllFlags()
    ensures Passed(PRESENT | WRITABLE | USER) == USER | WRITABLE
    ensures ((PRESENT | WRITABLE | USER) | PRESENT) & PRESENT != 0
  {
  }

  /** One page less. */
  lemma LeavesShrink(m: Memory, m': Memory, root: nat, ps: seq<Path>, es: seq<Entry>, k: nat)
    requires Leaves(m, root, ps, es) && k < |ps| && DistinctPaths(ps) && KeepsBut(m, m', root, ps[k])
    ensures Leaves(m', root, Removed(ps, k), Removed(es, k))
  {
    assert Shown(true);
    var qs, ds := Removed(ps, k), Removed(es, k);
    forall i | 0 <= i < |qs| ensures LeafIs(m', root, qs[i], ds[i]) {
      var j := if i < k then i else i + 1;
      assert qs[i] == ps[j] && ds[i] == es[j] && Pair(j, k) && Pair(k, j);
      LeafKept(m, m', root, ps[k], ps[j], es[j]);
    }
  }

  /** New flags for the last page. */
  lemma LeavesSet(m: Memory, m': Memory, root: nat, ps: seq<Path>, es: seq<Entry>, p: Path, e: Entry, e': Entry)
    requires Leaves(m, root, ps + [p], es + [e]) && |ps| == |es| && DistinctPaths(ps + [p])
    requires KeepsBut(m, m', root, p) && |p| == 4 && EntryAt(m', root, p[..3], p[3]) == Some(e') && Present(e')
    ensures Leaves(m', root, ps + [p], es + [e'])
  {
    assert Shown(true);
    var qs, ds, ds' := ps + [p], es + [e], es + [e'];
    assert qs[|ps|] == p && LeafIs(m, root, qs[|ps|], ds[|ps|]);
    LetsKept(m, m', root, p, p[..3], USER | WRITABLE);
    forall i | 0 <= i < |qs| ensures LeafIs(m', root, qs[i], ds'[i]) {
      if i < |ps| {
        assert Pair(i, |ps|) && ds'[i] == ds[i];
        LeafKept(m, m', root, p, qs[i], ds[i]);
      }
    }
  }

  lemma ListIsDistinct(m0: Memory, m: Memory, root: nat, ps: seq<Path>, fs: seq<nat>)
    requires ListMapped(m0, m, root, ps, fs)
    ensures DistinctPaths(ps)
  {
    assert Shown(true);
  }

  /** What such a page lets through. */
  lemma LeafLets(m: Memory, root: nat, p: Path, f: nat, nx: bool)
    requires LeafIs(m, root, p, LeafEntry(f, PRESENT | WRITABLE | USER, nx))
    ensures Lets(m, root, p, USER) && Lets(m, root, p, WRITABLE)
  {
    AllFlags();
    LeafEntryHas(f, nx);
    assert Lets(m, root, p, USER | WRITABLE);
    AccessAsked(m, root, p, PRESENT | WRITABLE | USER, nx, f);
    AskedBits();
  }

  lemma AskedBits()
    ensures (PRESENT | WRITABLE | USER) & 4 != 0 && (PRESENT | WRITABLE | USER) & 2 != 0
  {
  }

  lemma LeafEntryHas(f: nat, nx: bool)
    ensures Has(LeafEntry(f, PRESENT | WRITABLE | USER, nx), USER | WRITABLE)
  {
  }
}
