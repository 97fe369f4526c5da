/** The directory tree of a volume as values: which chains exist, what each directory holds, who owns what. */
module Fat32Tree {
  import opened Options
  import opened MachineBytes
  import opened Products
  import opened BlockDevices
  import opened Fat32Layout
  import opened Fat32Volume
  import opened Fat32Chains
  import opened Fat32Slots
  import opened Fat32Directory
  import opened Fat32Room

  type Chains = map<nat, seq<nat>>
  type Dirs = map<nat, seq<Slot>>

  // ---- The chains partition the clusters in use ----

  ghost predicate OnSomeChain(chains: Chains, c: nat) { exists h :: h in chains && c in chains[h] }

  /** Every chain follows the links from its key to an end mark without meeting itself. */
  ghost predicate ChainsLinked(g: Geometry, links: seq<nat>, chains: Chains) {
    forall h :: h in chains ==> IsChain(g, links, chains[h]) && Distinct(chains[h]) && chains[h][0] == h
  }

  /** No cluster lies on two chains. */
  ghost predicate ChainsApart(chains: Chains) {
    forall h, h', c :: h in chains && h' in chains && c in chains[h] && c in chains[h'] ==> h == h'
  }

  /** Every linked cluster lies on a chain. */
  ghost predicate ChainsCover(g: Geometry, links: seq<nat>, chains: Chains) {
    && |links| == g.max + 1
    && forall c: nat {:trigger OnSomeChain(chains, c)} :: ValidCluster(g, c) && links[c] >= 2 ==> OnSomeChain(chains, c)
  }

  /** The links form acyclic chains, pairwise disjoint, each with one head, that make up all clusters in use. */
  ghost predicate ChainsOk(g: Geometry, links: seq<nat>, chains: Chains) {
    LinksOk(g, links) && ChainsLinked(g, links, chains) && ChainsApart(chains) && ChainsCover(g, links, chains)
  }

  lemma NotOnChain(g: Geometry, links: seq<nat>, chains: Chains, c: nat)
    requires ChainsOk(g, links, chains) && ValidCluster(g, c) && links[c] < 2
    ensures forall h :: h in chains ==> c !in chains[h]
    ensures c !in chains
  {
    forall h | h in chains ensures c !in chains[h] {
      forall i | 0 <= i < |chains[h]| ensures chains[h][i] != c { ChainStep(g, links, chains[h], i); }
    }
  }

  /** Taking a free cluster and appending it to a chain. */
  lemma AppendedChain(g: Geometry, links: seq<nat>, chains: Chains, h: nat, c: nat)
    requires ChainsOk(g, links, chains) && h in chains && ValidCluster(g, c) && links[c] == 0
    ensures ChainsOk(g, Appended(links, chains[h][|chains[h]| - 1], c), chains[h := chains[h] + [c]])
  {
    NotOnChain(g, links, chains, c);
    var cs := chains[h];
    var links', chains' := Appended(links, cs[|cs| - 1], c), chains[h := cs + [c]];
    AppendedLinks(g, links, chains, h, c);
    assert LinksOk(g, links') && ChainsApart(chains');
    forall x: nat | ValidCluster(g, x) && links'[x] >= 2 ensures OnSomeChain(chains', x) {
      if x == c {
        assert h in chains' && x in chains'[h];
      } else {
        assert OnSomeChain(chains, x) by { if x == cs[|cs| - 1] { assert x in cs; } }
        var h' :| h' in chains && x in chains[h'];
        assert h' in chains' && x in chains'[h'];
      }
    }
  }

  lemma AppendedLinks(g: Geometry, links: seq<nat>, chains: Chains, h: nat, c: nat)
    requires ChainsOk(g, links, chains) && h in chains && ValidCluster(g, c) && links[c] == 0
    requires forall h' :: h' in chains ==> c !in chains[h']
    ensures var links', chains' := Appended(links, chains[h][|chains[h]| - 1], c), chains[h := chains[h] + [c]];
            ChainsLinked(g, links', chains')
  {
    var cs := chains[h];
    var last := cs[|cs| - 1];
    var links', chains' := Appended(links, last, c), chains[h := cs + [c]];
    AppendedIsChain(g, links, cs, c);
    assert last in cs;
    forall h' | h' in chains' ensures IsChain(g, links', chains'[h']) && Distinct(chains'[h']) {
      if h' != h { ChainKept(g, links, links', chains[h']); }
    }
  }

  /** Freeing a chain removes it and keeps every other chain. */
  lemma ClearedChain(g: Geometry, links: seq<nat>, chains: Chains, h: nat)
    requires ChainsOk(g, links, chains) && h in chains
    ensures ChainsOk(g, Cleared(links, chains[h]), chains - {h})
  {
    var links', chains' := Cleared(links, chains[h]), chains - {h};
    forall h' | h' in chains' ensures IsChain(g, links', chains'[h']) {
      ChainKept(g, links, links', chains[h']);
    }
    forall x: nat | ValidCluster(g, x) && links'[x] >= 2 ensures OnSomeChain(chains', x) {
      assert OnSomeChain(chains, x);
      var h' :| h' in chains && x in chains[h'];
      assert h' in chains' && x in chains'[h'];
    }
  }

  // ---- The tree ----

  const DOT: byte := 0x2E

  predicate IsDot(e: Slot) { e[0] == DOT }

  /** An entry that owns the chain it names, unlike the entries `.` and `..`. */
  ghost predicate Owner(e: Slot) { Live(e) && !IsDot(e) && FirstCluster(e) >= 2 }

  datatype Pos = Pos(d: nat, k: int)

  const NO_HOLE: Pos := Pos(0, -1)

  ghost predicate HasSlot(dirs: Dirs, q: Pos) { q.d in dirs && 0 <= q.k < |dirs[q.d]| }

  ghost function SlotOf(dirs: Dirs, q: Pos): Slot
    requires HasSlot(dirs, q)
  {
    dirs[q.d][q.k]
  }

  /** A directory entry names a directory, a file entry nothing or a chain that is no directory and is long enough. */
  ghost predicate EntryOk(spc: nat, chains: Chains, dirs: Dirs, e: Slot) {
    var first := FirstCluster(e);
    first < 2 ||
    if IsDirectory(e) then first in dirs
    else first in chains && first !in dirs && FileSize(e) <= 512 * Times(|chains[first]|, spc)
  }

  /** The parent that a `..` entry of directory d names holds d. */
  ghost predicate DotOk(dirs: Dirs, d: nat, e: Slot) {
    var first := FirstCluster(e);
    && IsDirectory(e)
    && (first < 2 || first == d ||
        exists q :: HasSlot(dirs, q) && q.d == first && Owner(SlotOf(dirs, q)) && IsDirectory(SlotOf(dirs, q)) &&
                    FirstCluster(SlotOf(dirs, q)) == d)
  }

  /** The tree is sound, except for what the file entry at `hole` names. Stated, like `Held`, so that only proofs
      that mention `Looking(DiskLayer)` see through it. */
  ghost predicate TreeBut(root: nat, spc: nat, chains: Chains, dirs: Dirs, hole: Pos) {
    && root in dirs && dirs.Keys <= chains.Keys
    && forall layer: Layer {:trigger Looking(layer)} :: Looking(layer) ==> TreeFacts(root, spc, chains, dirs, hole)
  }

  ghost predicate TreeFacts(root: nat, spc: nat, chains: Chains, dirs: Dirs, hole: Pos) {
    && (forall d :: d in dirs ==> DirectoryOk(dirs[d]))
    && (forall q :: HasSlot(dirs, q) && Live(SlotOf(dirs, q)) && q != hole ==>
         EntryOk(spc, chains, dirs, SlotOf(dirs, q)))
    && (forall q, q' :: HasSlot(dirs, q) && HasSlot(dirs, q') && q != q' && q != hole && q' != hole &&
                        Owner(SlotOf(dirs, q)) && Owner(SlotOf(dirs, q')) ==>
          FirstCluster(SlotOf(dirs, q)) != FirstCluster(SlotOf(dirs, q')))
    && (forall q :: HasSlot(dirs, q) && q != hole && Owner(SlotOf(dirs, q)) ==> FirstCluster(SlotOf(dirs, q)) != root)
    && (forall q :: HasSlot(dirs, q) && Live(SlotOf(dirs, q)) && IsDot(SlotOf(dirs, q)) ==>
       DotOk(dirs, q.d, SlotOf(dirs, q)))
    && (HasSlot(dirs, hole) ==> !IsDirectory(SlotOf(dirs, hole)) && !IsDot(SlotOf(dirs, hole)))
  }

  ghost predicate TreeOk(root: nat, spc: nat, chains: Chains, dirs: Dirs) {
    TreeBut(root, spc, chains, dirs, NO_HOLE)
  }

  ghost function Put(dirs: Dirs, d: nat, k: nat, e: Slot): Dirs
    requires d in dirs && k < |dirs[d]|
  {
    dirs[d := PutSlot(dirs[d], k, e)]
  }

  /** No entry outside the hole owns chain h. */
  ghost predicate Unowned(dirs: Dirs, hole: Pos, h: nat) {
    forall q :: HasSlot(dirs, q) && q != hole && Owner(SlotOf(dirs, q)) ==> FirstCluster(SlotOf(dirs, q)) != h
  }

  /** What a name denotes in a directory. */
  ghost function Lookup(dirs: Dirs, d: nat, name: Name): (r: Option<Slot>)
    ensures r.Some? ==> d in dirs && Live(r.value) && NameOf(r.value) == name
  {
    if d in dirs && Find(dirs[d], name).Some? then Some(dirs[d][Find(dirs[d], name).value]) else None
  }

  /** Every name but one, in one directory, denotes what it denoted. */
  ghost predicate SameElsewhere(dirs: Dirs, dirs': Dirs, d: nat, name: Name) {
    forall x, n: Name :: x in dirs && (x != d || n != name) ==> Lookup(dirs', x, n) == Lookup(dirs, x, n)
  }

  // ---- What changes keep the tree sound ----

  /** A `..` entry stays right when the owner entries of directories stay where they are. */
  lemma DotKept(dirs: Dirs, dirs': Dirs, d: nat, e: Slot)
    requires DotOk(dirs, d, e)
    requires forall p :: HasSlot(dirs, p) && Owner(SlotOf(dirs, p)) && IsDirectory(SlotOf(dirs, p)) &&
                         FirstCluster(SlotOf(dirs, p)) == d ==>
                         HasSlot(dirs', p) && SlotOf(dirs', p) == SlotOf(dirs, p)
    ensures DotOk(dirs', d, e)
  {
    var first := FirstCluster(e);
    if first >= 2 && first != d {
      var p :| HasSlot(dirs, p) && p.d == first && Owner(SlotOf(dirs, p)) && IsDirectory(SlotOf(dirs, p)) &&
               FirstCluster(SlotOf(dirs, p)) == d;
      assert HasSlot(dirs', p) && p.d == first && SlotOf(dirs', p) == SlotOf(dirs, p);
    }
  }

  /** Changing slots away from the hole so that no live entry appears and no directory is disowned. */
  lemma TreeKept(root: nat, spc: nat, chains: Chains, dirs: Dirs, hole: Pos, dirs': Dirs, hole': Pos)
    requires TreeBut(root, spc, chains, dirs, hole) && (hole == hole' || hole == NO_HOLE)
    requires dirs'.Keys == dirs.Keys && forall d :: d in dirs' ==> DirectoryOk(dirs'[d])
    requires forall q :: HasSlot(dirs', q) && Live(SlotOf(dirs', q)) && q != hole' ==>
                         HasSlot(dirs, q) && SlotOf(dirs, q) == SlotOf(dirs', q)
    requires forall q :: HasSlot(dirs, q) && Owner(SlotOf(dirs, q)) && IsDirectory(SlotOf(dirs, q)) ==>
                         HasSlot(dirs', q) && SlotOf(dirs', q) == SlotOf(dirs, q)
    requires HasSlot(dirs', hole') ==> !IsDirectory(SlotOf(dirs', hole')) && !IsDot(SlotOf(dirs', hole'))
    ensures TreeBut(root, spc, chains, dirs', hole')
  {
    assert Looking(DiskLayer);
    forall q | HasSlot(dirs', q) && Live(SlotOf(dirs', q)) && q != hole'
      ensures EntryOk(spc, chains, dirs', SlotOf(dirs', q))
    {
      assert EntryOk(spc, chains, dirs, SlotOf(dirs, q)) || q == hole;
    }
    forall q | HasSlot(dirs', q) && Live(SlotOf(dirs', q)) && IsDot(SlotOf(dirs', q))
      ensures DotOk(dirs', q.d, SlotOf(dirs', q))
    {
      DotKept(dirs, dirs', q.d, SlotOf(dirs, q));
    }
  }

  /** Filling the hole with a file entry whose chain nobody else owns. */
  lemma HoleFilled(root: nat, spc: nat, chains: Chains, dirs: Dirs, q: Pos)
    requires TreeBut(root, spc, chains, dirs, q) && HasSlot(dirs, q)
    requires Live(SlotOf(dirs, q)) ==> EntryOk(spc, chains, dirs, SlotOf(dirs, q))
    requires Owner(SlotOf(dirs, q)) ==> Unowned(dirs, q, FirstCluster(SlotOf(dirs, q)))
    ensures TreeOk(root, spc, chains, dirs)
  {
    assert Looking(DiskLayer);
    assert !IsDirectory(SlotOf(dirs, q));
  }

  /** Appending unused slots and a cluster to a directory. */
  lemma GrownTree(root: nat, spc: nat, chains: Chains, dirs: Dirs, d: nat, c: nat, n: nat)
    requires TreeOk(root, spc, chains, dirs) && d in dirs
    ensures TreeOk(root, spc, chains[d := chains[d] + [c]], dirs[d := dirs[d] + ZeroSlots(n)])
    ensures forall x, name: Name :: Lookup(dirs[d := dirs[d] + ZeroSlots(n)], x, name) == Lookup(dirs, x, name)
  {
    assert Looking(DiskLayer);
    var dirs' := dirs[d := dirs[d] + ZeroSlots(n)];
    AppendZeros(dirs[d], n);
    MoreChains(root, spc, chains, chains[d := chains[d] + [c]], dirs, NO_HOLE);
    TreeKept(root, spc, chains[d := chains[d] + [c]], dirs, NO_HOLE, dirs', NO_HOLE);
    forall x, name: Name ensures Lookup(dirs', x, name) == Lookup(dirs, x, name) {
      if x == d { assert Find(dirs'[d], name) == Find(dirs[d], name); }
    }
  }

  /** Storing a new file entry, without a chain yet, in the first unused slot of a directory. */
  lemma CreatedTree(root: nat, spc: nat, chains: Chains, dirs: Dirs, d: nat, k: nat, e: Slot)
    requires TreeOk(root, spc, chains, dirs) && d in dirs && k < |dirs[d]| && FreeFrom(dirs[d], 0) == Some(k)
    requires Live(e) && !IsDirectory(e) && !IsDot(e) && FirstCluster(e) < 2 && Find(dirs[d], NameOf(e)).None?
    ensures TreeOk(root, spc, chains, Put(dirs, d, k, e))
    ensures Find(Put(dirs, d, k, e)[d], NameOf(e)) == Some(k)
    ensures SameElsewhere(dirs, Put(dirs, d, k, e), d, NameOf(e))
  {
    assert Looking(DiskLayer);
    var dirs', q := Put(dirs, d, k, e), Pos(d, k);
    StoreNew(dirs[d], k, e);
    TreeKept(root, spc, chains, dirs, NO_HOLE, dirs', q);
    HoleFilled(root, spc, chains, dirs', q);
    OtherLookups(dirs, dirs', d, k, NameOf(e));
  }

  /** Storing an entry that begins with the mark of a deleted one changes nothing that the tree means. */
  lemma DeadTree(root: nat, spc: nat, chains: Chains, dirs: Dirs, d: nat, k: nat, e: Slot)
    requires TreeOk(root, spc, chains, dirs) && d in dirs && k < |dirs[d]| && FreeFrom(dirs[d], 0) == Some(k)
    requires e[0] == DELETED
    ensures TreeOk(root, spc, chains, Put(dirs, d, k, e))
    ensures forall x, n: Name :: Lookup(Put(dirs, d, k, e), x, n) == Lookup(dirs, x, n)
  {
    assert Looking(DiskLayer);
    var dirs' := Put(dirs, d, k, e);
    assert Unused(dirs[d][k]) && DirectoryOk(dirs'[d]);
    TreeKept(root, spc, chains, dirs, NO_HOLE, dirs', NO_HOLE);
    forall x, n: Name ensures Lookup(dirs', x, n) == Lookup(dirs, x, n) {
      if x == d {
        SameSearch(dirs[d], dirs'[d], k, n);
        FindIff(dirs[d], n);
      }
    }
  }

  lemma OtherLookups(dirs: Dirs, dirs': Dirs, d: nat, k: nat, name: Name)
    requires d in dirs && k < |dirs[d]| && exists e :: dirs' == Put(dirs, d, k, e)
    requires DirectoryOk(dirs[d]) && DirectoryOk(dirs'[d])
    requires Live(dirs[d][k]) ==> NameOf(dirs[d][k]) == name
    requires Live(dirs'[d][k]) ==> NameOf(dirs'[d][k]) == name
    ensures SameElsewhere(dirs, dirs', d, name)
  {
    forall x, n: Name | x in dirs && (x != d || n != name) ensures Lookup(dirs', x, n) == Lookup(dirs, x, n) {
      if x == d {
        SameSearch(dirs[d], dirs'[d], k, n);
        FindIff(dirs[d], n);
      }
    }
  }

  /** Chains may appear and grow. */
  lemma MoreChains(root: nat, spc: nat, chains: Chains, chains': Chains, dirs: Dirs, hole: Pos)
    requires TreeBut(root, spc, chains, dirs, hole)
    requires forall h :: h in chains ==> h in chains' && |chains'[h]| >= |chains[h]|
    ensures TreeBut(root, spc, chains', dirs, hole)
  {
    assert Looking(DiskLayer);
    forall q | HasSlot(dirs, q) && Live(SlotOf(dirs, q)) && q != hole
      ensures EntryOk(spc, chains', dirs, SlotOf(dirs, q))
    {
      var first := FirstCluster(SlotOf(dirs, q));
      assert EntryOk(spc, chains, dirs, SlotOf(dirs, q));
      if first in chains && |chains'[first]| > |chains[first]| { TimesStrict(|chains[first]|, |chains'[first]|, spc); }
    }
  }

  /** A chain that does not exist is owned by nobody. */
  lemma FreshUnowned(root: nat, spc: nat, chains: Chains, dirs: Dirs, hole: Pos, h: nat)
    requires TreeBut(root, spc, chains, dirs, hole) && h !in chains
    ensures Unowned(dirs, hole, h)
  {
    assert Looking(DiskLayer);
    forall q | HasSlot(dirs, q) && q != hole && Owner(SlotOf(dirs, q)) ensures FirstCluster(SlotOf(dirs, q)) != h {
      assert EntryOk(spc, chains, dirs, SlotOf(dirs, q));
    }
  }

  /** Opening a hole at a file entry lets the chain it owns go. */
  lemma FreedTree(root: nat, spc: nat, chains: Chains, dirs: Dirs, q: Pos)
    requires TreeOk(root, spc, chains, dirs) && HasSlot(dirs, q)
    requires var e := SlotOf(dirs, q); Live(e) && !IsDirectory(e) && !IsDot(e)
    ensures var h := FirstCluster(SlotOf(dirs, q)); TreeBut(root, spc, if h >= 2 then chains - {h} else chains, dirs, q)
  {
    assert Looking(DiskLayer);
    var h := FirstCluster(SlotOf(dirs, q));
    assert EntryOk(spc, chains, dirs, SlotOf(dirs, q));
    forall q' | h >= 2 && HasSlot(dirs, q') && Live(SlotOf(dirs, q')) && q' != q
      ensures EntryOk(spc, chains - {h}, dirs, SlotOf(dirs, q'))
    {
      assert EntryOk(spc, chains, dirs, SlotOf(dirs, q'));
      if IsDot(SlotOf(dirs, q')) { assert DotOk(dirs, q'.d, SlotOf(dirs, q')); }
    }
  }

  /** Rewriting the file entry at the hole so that it names a chain nobody else owns. */
  lemma WrittenTree(root: nat, spc: nat, chains: Chains, dirs: Dirs, d: nat, k: nat, e: Slot)
    requires TreeBut(root, spc, chains, dirs, Pos(d, k)) && d in dirs && k < |dirs[d]| && Live(dirs[d][k])
    requires Live(e) && !IsDirectory(e) && !IsDot(e) && NameOf(e) == NameOf(dirs[d][k])
    requires EntryOk(spc, chains, dirs, e) && Unowned(dirs, Pos(d, k), FirstCluster(e))
    ensures TreeOk(root, spc, chains, Put(dirs, d, k, e))
    ensures Find(Put(dirs, d, k, e)[d], NameOf(e)) == Some(k)
    ensures SameElsewhere(dirs, Put(dirs, d, k, e), d, NameOf(e))
  {
    assert Looking(DiskLayer);
    var dirs', q := Put(dirs, d, k, e), Pos(d, k);
    StoreOver(dirs[d], k, e);
    TreeKept(root, spc, chains, dirs, q, dirs', q);
    HoleFilled(root, spc, chains, dirs', q);
    OtherLookups(dirs, dirs', d, k, NameOf(e));
  }

  function Erased(e: Slot): Slot { e[0 := DELETED] }

  lemma ErasedLookups(dirs: Dirs, d: nat, k: nat)
    requires d in dirs && k < |dirs[d]| && DirectoryOk(dirs[d]) && Live(dirs[d][k])
    ensures var dirs' := Put(dirs, d, k, Erased(dirs[d][k]));
            DirectoryOk(dirs'[d]) && Lookup(dirs', d, NameOf(dirs[d][k])) == None &&
            SameElsewhere(dirs, dirs', d, NameOf(dirs[d][k]))
  {
    StoreDeleted(dirs[d], k);
    OtherLookups(dirs, Put(dirs, d, k, Erased(dirs[d][k])), d, k, NameOf(dirs[d][k]));
  }

  /** Erasing the file entry at the hole. */
  lemma RemovedFile(root: nat, spc: nat, chains: Chains, dirs: Dirs, d: nat, k: nat)
    requires TreeBut(root, spc, chains, dirs, Pos(d, k)) && d in dirs && k < |dirs[d]| && Live(dirs[d][k])
    ensures TreeOk(root, spc, chains, Put(dirs, d, k, Erased(dirs[d][k])))
  {
    assert Looking(DiskLayer);
    var dirs', q := Put(dirs, d, k, Erased(dirs[d][k])), Pos(d, k);
    assert HasSlot(dirs, q);
    ErasedLookups(dirs, d, k);
    TreeKept(root, spc, chains, dirs, q, dirs', q);
    HoleFilled(root, spc, chains, dirs', q);
  }

  /** Nothing but the entries `.` and `..` is live. */
  ghost predicate EmptyDirectory(slots: seq<Slot>) {
    forall i :: 0 <= i < |slots| && Live(slots[i]) ==> IsDot(slots[i])
  }

  /** The tree without the entry in slot k of directory d and without the directory that entry names. */
  ghost function Without(dirs: Dirs, d: nat, k: nat): Dirs
    requires d in dirs && k < |dirs[d]|
  {
    Put(dirs, d, k, Erased(dirs[d][k])) - {FirstCluster(dirs[d][k])}
  }

  /** No surviving entry names the directory being removed. */
  lemma SurvivorKept(root: nat, spc: nat, chains: Chains, dirs: Dirs, d: nat, k: nat, q: Pos)
    requires TreeOk(root, spc, chains, dirs) && d in dirs && k < |dirs[d]|
    requires Owner(dirs[d][k]) && IsDirectory(dirs[d][k]) && FirstCluster(dirs[d][k]) in dirs
    requires EmptyDirectory(dirs[FirstCluster(dirs[d][k])])
    requires HasSlot(dirs, q) && Live(SlotOf(dirs, q)) && q != Pos(d, k) && q.d != FirstCluster(dirs[d][k])
    ensures FirstCluster(SlotOf(dirs, q)) != FirstCluster(dirs[d][k])
    ensures EntryOk(spc, chains - {FirstCluster(dirs[d][k])}, Without(dirs, d, k), SlotOf(dirs, q))
    ensures IsDot(SlotOf(dirs, q)) ==> DotOk(Without(dirs, d, k), q.d, SlotOf(dirs, q))
  {
    assert Looking(DiskLayer);
    var x, e := FirstCluster(dirs[d][k]), SlotOf(dirs, q);
    assert HasSlot(dirs, Pos(d, k)) && SlotOf(dirs, Pos(d, k)) == dirs[d][k];
    assert EntryOk(spc, chains, dirs, e);
    if IsDot(e) {
      assert DotOk(dirs, q.d, e);
      var first := FirstCluster(e);
      if first >= 2 && first != q.d {
        var p :| HasSlot(dirs, p) && p.d == first && Owner(SlotOf(dirs, p)) && IsDirectory(SlotOf(dirs, p)) &&
                 FirstCluster(SlotOf(dirs, p)) == q.d;
        assert p.d != x && p != Pos(d, k);
        assert HasSlot(Without(dirs, d, k), p) && SlotOf(Without(dirs, d, k), p) == SlotOf(dirs, p);
      }
    }
  }

  /** Erasing the entry of an empty directory and letting its chain go. */
  lemma RemovedDirectory(root: nat, spc: nat, chains: Chains, dirs: Dirs, d: nat, k: nat)
    requires TreeOk(root, spc, chains, dirs) && d in dirs && k < |dirs[d]|
    requires Owner(dirs[d][k]) && IsDirectory(dirs[d][k]) && FirstCluster(dirs[d][k]) in dirs
    requires EmptyDirectory(dirs[FirstCluster(dirs[d][k])])
    ensures FirstCluster(dirs[d][k]) != d && FirstCluster(dirs[d][k]) != root
    ensures TreeOk(root, spc, chains - {FirstCluster(dirs[d][k])}, Without(dirs, d, k))
  {
    assert Looking(DiskLayer);
    var x, dirs' := FirstCluster(dirs[d][k]), Without(dirs, d, k);
    assert HasSlot(dirs, Pos(d, k)) && SlotOf(dirs, Pos(d, k)) == dirs[d][k];
    ErasedLookups(dirs, d, k);
    forall q | HasSlot(dirs', q) && Live(SlotOf(dirs', q))
      ensures HasSlot(dirs, q) && SlotOf(dirs, q) == SlotOf(dirs', q) && q != Pos(d, k)
      ensures EntryOk(spc, chains - {x}, dirs', SlotOf(dirs', q))
      ensures IsDot(SlotOf(dirs', q)) ==> DotOk(dirs', q.d, SlotOf(dirs', q))
    {
      SurvivorKept(root, spc, chains, dirs, d, k, q);
    }
  }

  function DotName(): Name { [DOT] + seq(10, _ => 0x20) }

  function DotDotName(): Name { [DOT, DOT] + seq(9, _ => 0x20) }

  /** The slots of a directory with cluster c that holds nothing but the entries `.` and `..`. */
  ghost predicate NewDirectory(slots: seq<Slot>, c: nat, parent: nat) {
    && DirectoryOk(slots) && |slots| >= 2
    && Live(slots[0]) && IsDot(slots[0]) && IsDirectory(slots[0]) && NameOf(slots[0]) == DotName() &&
       FirstCluster(slots[0]) == c
    && Live(slots[1]) && IsDot(slots[1]) && IsDirectory(slots[1]) && NameOf(slots[1]) == DotDotName() &&
       FirstCluster(slots[1]) == parent
    && forall i :: 2 <= i < |slots| ==> !Live(slots[i])
  }

  lemma NewDirectoryOk(n: nat, c: nat, parent: nat, e0: Slot, e1: Slot)
    requires n >= 2 && Names(e0, DotName(), ATTR_DIRECTORY, c) && Names(e1, DotDotName(), ATTR_DIRECTORY, parent)
    ensures NewDirectory(PutSlot(PutSlot(ZeroSlots(n), 0, e0), 1, e1), c, parent)
  {
    var slots := PutSlot(PutSlot(ZeroSlots(n), 0, e0), 1, e1);
    assert NameOf(slots[0])[1] == 0x20 && NameOf(slots[1])[1] == DOT;
  }

  /** Storing the entry of a new directory, whose cluster was free, in the first unused slot of its parent. */
  lemma MadeDirectory(root: nat, spc: nat, chains: Chains, dirs: Dirs, d: nat, k: nat, c: nat, e: Slot,
                      slots: seq<Slot>)
    requires TreeOk(root, spc, chains, dirs) && d in dirs && k < |dirs[d]| && FreeFrom(dirs[d], 0) == Some(k)
    requires c !in chains && c >= 2 && NewDirectory(slots, c, d)
    requires Live(e) && !IsDot(e) && IsDirectory(e) && FirstCluster(e) == c && Find(dirs[d], NameOf(e)).None?
    ensures var dirs' := Put(dirs, d, k, e)[c := slots];
            TreeOk(root, spc, chains[c := [c]], dirs') && Lookup(dirs', d, NameOf(e)) == Some(e) &&
            SameElsewhere(dirs, dirs', d, NameOf(e))
  {
    assert Looking(DiskLayer);
    var mid := Put(dirs, d, k, e);
    var dirs', chains', q0 := mid[c := slots], chains[c := [c]], Pos(d, k);
    StoreNew(dirs[d], k, e);
    OtherLookups(dirs, mid, d, k, NameOf(e));
    FreshUnowned(root, spc, chains, dirs, NO_HOLE, c);
    assert HasSlot(dirs', q0) && SlotOf(dirs', q0) == e;
    forall q | HasSlot(dirs', q) && Live(SlotOf(dirs', q)) && q != q0
      ensures EntryOk(spc, chains', dirs', SlotOf(dirs', q))
      ensures if q.d == c then IsDot(SlotOf(dirs', q)) else HasSlot(dirs, q) && SlotOf(dirs, q) == SlotOf(dirs', q)
    {
      if q.d != c {
        assert HasSlot(dirs, q) && SlotOf(dirs, q) == SlotOf(dirs', q);
        assert EntryOk(spc, chains, dirs, SlotOf(dirs, q));
      }
    }
    forall q | HasSlot(dirs', q) && Live(SlotOf(dirs', q)) && IsDot(SlotOf(dirs', q))
      ensures DotOk(dirs', q.d, SlotOf(dirs', q))
    {
      if q.d != c { DotKept(dirs, dirs', q.d, SlotOf(dirs, q)); }
    }
  }
}
