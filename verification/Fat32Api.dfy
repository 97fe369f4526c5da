/** The path operations on files: touch, write and read. Claims about the tree are for calls in which no device
    request failed (`dev.faults` as before); a failed request makes the driver take a name for missing. */
module Fat32Api {
  import opened Options
  import opened MachineBytes
  import opened Products
  import opened BlockDevices
  import opened Fat32Layout
  import opened Fat32Volume
  import opened Fat32Chains
  import opened Fat32Slots
  import opened Fat32Directory
  import opened Fat32Room
  import opened Fat32Tree
  import opened Fat32Files
  import opened Fat32Paths
  import opened Fat32View
  import opened Fat32Write

  // ---- Creating an entry ----

  /** Reads the sector at a place in directory d and writes it back with a new entry there. */
  method StoreNewEntry(fs: Fat32, d: nat, lba: nat, off: nat, name: Name, attr: byte, cluster: nat,
                       ghost chains: Chains, ghost dirs: Dirs, ghost k: nat, ghost p: Place)
    returns (ok: bool, ghost e: Slot)
    requires fs.Valid() && Shows(fs.g, fs.links, fs.clusters, chains, dirs) && d in dirs && k < |dirs[d]|
    requires At(fs.g, chains[d], k, lba, off, p) && Readable(fs.g, fs.clusters, chains[d]) && cluster <= fs.g.max
    modifies fs`ageCounter, fs`clusters, fs.dev, fs.dataCache, fs.fatCache
    ensures fs.Valid() && fs.dev.faults >= old(fs.dev.faults)
    ensures ok ==>
              fs.clusters == PatchedClusters(old(fs.clusters), chains[d][p.ci], p.s, p.i, e) &&
              Names(e, name, attr, cluster)
    ensures ok ==> Shows(fs.g, fs.links, fs.clusters, chains, Put(dirs, d, k, e))
    ensures !ok && fs.dev.canWrite ==> fs.dev.faults > old(fs.dev.faults)
  {
    var sec;
    ok, sec := fs.ReadDataSector(lba, chains[d][p.ci], p.s);
    var entry := NewSlot(name, attr, cluster);
    NewSlotFields(name, attr, cluster);
    ShowsStored(fs.g, fs.links, fs.clusters, chains, dirs, d, k, lba, off, p, entry);
    e := entry;
    if !ok { return; }
    ok := StoreSlot(fs, lba, off, sec, entry, chains[d], k, p);
  }

  /** The first byte of a name that a path can spell: neither zero nor a dot. */
  predicate Spelled(name: Name) { name[0] != 0 && name[0] != DOT }

  /** What storing a new file entry in the first unused slot of a directory comes to. A name whose first byte is
      the mark of a deleted entry is stored, but stays unfindable. */
  lemma CreateMeaning(g: Geometry, links: seq<nat>, clusters: Clusters, chains: Chains, dirs: Dirs, d: nat,
                      k: nat, lba: nat, off: nat, p: Place, name: Name, e: Slot)
    requires Shows(g, links, clusters, chains, dirs) && TreeOk(g.root, g.spc, chains, dirs) && d in dirs
    requires At(g, chains[d], k, lba, off, p) && Readable(g, clusters, chains[d])
    requires k < |dirs[d]| && FreeFrom(dirs[d], 0) == Some(k) && Lookup(dirs, d, name) == None
    requires Spelled(name) && Names(e, name, ATTR_FILE, 0)
    ensures var clusters', dirs' := PatchedClusters(clusters, chains[d][p.ci], p.s, p.i, e), Put(dirs, d, k, e);
            Shows(g, links, clusters', chains, dirs') && TreeOk(g.root, g.spc, chains, dirs') &&
            AllKeptBut(clusters, chains, clusters', chains, {d}) && SameElsewhere(dirs, dirs', d, name) &&
            Lookup(dirs', d, name) == if name[0] == DELETED then None else Some(e)
  {
    ShowsStored(g, links, clusters, chains, dirs, d, k, lba, off, p, e);
    if name[0] == DELETED {
      DeadTree(g.root, g.spc, chains, dirs, d, k, e);
    } else {
      CreatedTree(g.root, g.spc, chains, dirs, d, k, e);
    }
  }

  /** The view of a volume, before and after an operation. */
  datatype View = View(links: seq<nat>, clusters: Clusters, chains: Chains, dirs: Dirs)

  ghost predicate Shown(g: Geometry, v: View) { Shows(g, v.links, v.clusters, v.chains, v.dirs) }

  /** The volume shows this view and its directories form a sound tree. */
  ghost predicate Good(g: Geometry, v: View) { Shown(g, v) && TreeOk(g.root, g.spc, v.chains, v.dirs) }

  ghost function Denoted(v: View, t: Target): Option<Slot> { Lookup(v.dirs, t.dir, t.name) }

  /** From v to w an entry for t has been created, which took a cluster when the directory was full. */
  ghost predicate Created(g: Geometry, v: View, w: View, t: Target) {
    && Good(g, w) && t.dir in v.dirs && w.dirs.Keys == v.dirs.Keys
    && SameElsewhere(v.dirs, w.dirs, t.dir, t.name) && AllKeptBut(v.clusters, v.chains, w.clusters, w.chains, {t.dir})
    && (if t.name[0] == DELETED then Denoted(w, t) == None
        else Denoted(w, t).Some? && Names(Denoted(w, t).value, t.name, ATTR_FILE, 0))
    && |FreeSet(w.links)| + Growth(v.dirs[t.dir]) == |FreeSet(v.links)|
  }

  /** A directory has no unused slot and no cluster is free to extend it. */
  ghost predicate NoRoom(v: View, d: nat) { d in v.dirs && FreeFrom(v.dirs[d], 0) == None && FreeSet(v.links) == {} }

  /** Making room in a directory (v to w) and then storing a new entry there. */
  lemma EntryCreated(g: Geometry, v: View, w: View, t: Target, k: nat, lba: nat, off: nat, p: Place, e: Slot)
    requires Good(g, v) && Good(g, w) && t.dir in v.dirs && w.dirs.Keys == v.dirs.Keys
    requires forall x, n: Name :: Lookup(w.dirs, x, n) == Lookup(v.dirs, x, n)
    requires AllKeptBut(v.clusters, v.chains, w.clusters, w.chains, {t.dir})
    requires |FreeSet(w.links)| + Growth(v.dirs[t.dir]) == |FreeSet(v.links)|
    requires At(g, w.chains[t.dir], k, lba, off, p) && Readable(g, w.clusters, w.chains[t.dir])
    requires k < |w.dirs[t.dir]| && FreeFrom(w.dirs[t.dir], 0) == Some(k) && Denoted(v, t) == None
    requires Spelled(t.name) && Names(e, t.name, ATTR_FILE, 0)
    ensures Created(g, v, View(w.links, PatchedClusters(w.clusters, w.chains[t.dir][p.ci], p.s, p.i, e), w.chains,
                               Put(w.dirs, t.dir, k, e)), t)
  {
    CreateMeaning(g, w.links, w.clusters, w.chains, w.dirs, t.dir, k, lba, off, p, t.name, e);
    var clusters' := PatchedClusters(w.clusters, w.chains[t.dir][p.ci], p.s, p.i, e);
    KeptTrans(v.clusters, v.chains, w.clusters, w.chains, clusters', w.chains, {t.dir}, {t.dir});
    assert {t.dir} + {t.dir} == {t.dir};
  }

  method CreateEntry(fs: Fat32, t: Target, ghost chains: Chains, ghost dirs: Dirs)
    returns (ok: bool, ghost chains': Chains, ghost dirs': Dirs)
    requires Sound(fs, chains, dirs) && t.dir in dirs
    modifies fs`ageCounter, fs`links, fs`agree, fs`lowest, fs`clusters, fs`allocHint, fs.dev, fs.dataCache, fs.fatCache
    ensures fs.Valid() && fs.dev.faults >= old(fs.dev.faults)
    ensures ok || (fs.dev.canWrite && fs.dev.faults == old(fs.dev.faults)) ==>
              fs.Steady(old(fs.agree), old(fs.lowest))
    ensures ok ==> Shown(fs.g, View(fs.links, fs.clusters, chains', dirs')) && dirs'.Keys == dirs.Keys
    ensures ok && Lookup(dirs, t.dir, t.name) == None && Spelled(t.name) ==>
              Created(fs.g, View(old(fs.links), old(fs.clusters), chains, dirs),
                      View(fs.links, fs.clusters, chains', dirs'), t)
    ensures !ok && fs.dev.canWrite ==>
              fs.dev.faults > old(fs.dev.faults) ||
              var v := View(old(fs.links), old(fs.clusters), chains, dirs);
              NoRoom(v, t.dir) && View(fs.links, fs.clusters, chains', dirs') == v
  {
    var lba, off;
    ghost var dirs1, k, p, e;
    ghost var links, clusters := fs.links, fs.clusters;
    ok, lba, off, chains', dirs1, k, p := MakeRoom(fs, t.dir, chains, dirs);
    dirs' := dirs1;
    if !ok { return; }
    ShownDirectory(fs.g, fs.links, fs.clusters, chains', dirs1, t.dir);
    ghost var roomy := View(fs.links, fs.clusters, chains', dirs1);
    ok, e := StoreNewEntry(fs, t.dir, lba, off, t.name, ATTR_FILE, 0, chains', dirs1, k, p);
    if !ok { return; }
    dirs' := Put(dirs1, t.dir, k, e);
    if Lookup(dirs, t.dir, t.name) == None && Spelled(t.name) {
      EntryCreated(fs.g, View(links, clusters, chains, dirs), roomy, t, k, lba, off, p, e);
    }
  }

  // ---- Touch ----

  /** The bytes of the name a path ends in come from the path: it can start with neither a zero nor a dot. */
  lemma {:induction false} ResolvedSpelled(root: nat, dirs: Dirs, cur: nat, path: seq<byte>, i: nat)
    requires i <= |path| && 0 !in path
    ensures Resolve(root, dirs, cur, path, i).Some? ==> Spelled(Resolve(root, dirs, cur, path, i).value.name)
    decreases |path| - i
  {
    match NextTurn(path, i)
    case Malformed =>
    case Leaf(text) =>
      var start := SkipSeparators(path, i);
      assert text == path[start..PartEnd(path, start)] && text[0] == path[start];
      if Is83(text) { assert text[0] != DOT && Packed(text)[0] == Upcase(text[0]); }
    case Descend(text, next) =>
      var d := Step(root, dirs, cur, text);
      if d.Some? { ResolvedSpelled(root, dirs, d.value, path, next); }
  }

  /** What touching t comes to: an existing file is left alone, a missing one is created empty. */
  ghost predicate Touched(g: Geometry, v: View, w: View, t: Target) {
    match Denoted(v, t)
    case Some(e) => !IsDirectory(e) && w == v
    case None => Created(g, v, w, t)
  }

  /** Touching t cannot succeed: it is a directory, or it is missing and there is no room for it. */
  ghost predicate Untouchable(v: View, t: Target) {
    match Denoted(v, t)
    case Some(e) => IsDirectory(e)
    case None => NoRoom(v, t.dir)
  }

  method TouchTarget(fs: Fat32, t: Target, ghost chains: Chains, ghost dirs: Dirs)
    returns (ok: bool, ghost chains': Chains, ghost dirs': Dirs)
    requires Sound(fs, chains, dirs) && t.dir in dirs
    modifies fs`ageCounter, fs`links, fs`agree, fs`lowest, fs`clusters, fs`allocHint, fs.dev, fs.dataCache, fs.fatCache
    ensures fs.Valid() && fs.dev.faults >= old(fs.dev.faults)
    ensures ok || (fs.dev.canWrite && fs.dev.faults == old(fs.dev.faults)) ==>
              fs.Steady(old(fs.agree), old(fs.lowest))
    ensures ok ==> Shown(fs.g, View(fs.links, fs.clusters, chains', dirs')) && dirs'.Keys == dirs.Keys
    ensures ok && fs.dev.faults == old(fs.dev.faults) && Spelled(t.name) ==>
              Touched(fs.g, View(old(fs.links), old(fs.clusters), chains, dirs),
                      View(fs.links, fs.clusters, chains', dirs'), t)
    ensures !ok && fs.dev.canWrite && fs.dev.faults == old(fs.dev.faults) ==>
              var v := View(old(fs.links), old(fs.clusters), chains, dirs);
              Untouchable(v, t) && View(fs.links, fs.clusters, chains', dirs') == v
  {
    chains', dirs' := chains, dirs;
    var lba, off, entry;
    ghost var k, p;
    ok, lba, off, entry, k, p := Look(fs, t.dir, t.name, chains, dirs);
    if ok { return !IsDirectory(entry), chains, dirs; }
    ok, chains', dirs' := CreateEntry(fs, t, chains, dirs);
  }

  /** Nothing is mounted, or a volume whose directories form a sound tree is. */
  ghost predicate Ready(fs: Fat32, chains: Chains, dirs: Dirs)
    reads fs, fs.dev, fs.dataCache, fs.fatCache
  {
    fs.mounted ==> Sound(fs, chains, dirs)
  }

  /** Creates an empty file. Without a device fault it succeeds exactly when the path leads to a directory that
      holds a file of the name, or has or can be given room for one. */
  method TouchFilePath(fs: Fat32, path: seq<byte>, ghost chains: Chains, ghost dirs: Dirs)
    returns (ok: bool, ghost chains': Chains, ghost dirs': Dirs)
    requires Ready(fs, chains, dirs) && 0 !in path
    modifies fs`ageCounter, fs`links, fs`agree, fs`lowest, fs`clusters, fs`allocHint, fs.dev, fs.dataCache, fs.fatCache
    ensures fs.dev.faults >= old(fs.dev.faults) && if fs.mounted then fs.Valid() else !ok
    ensures ok ==> Shown(fs.g, View(fs.links, fs.clusters, chains', dirs')) && dirs'.Keys == dirs.Keys
    ensures ok || (fs.dev.canWrite && fs.dev.faults == old(fs.dev.faults)) ==>
              fs.Steady(old(fs.agree), old(fs.lowest))
    ensures fs.mounted && fs.dev.faults == old(fs.dev.faults) ==>
              var v, w := View(old(fs.links), old(fs.clusters), chains, dirs),
                          View(fs.links, fs.clusters, chains', dirs');
              match Resolve(fs.g.root, dirs, fs.g.root, path, 0)
              case None => !ok && w == v
              case Some(t) => if ok then Touched(fs.g, v, w, t) else fs.dev.canWrite ==> Untouchable(v, t) && w == v
  {
    ok, chains', dirs' := false, chains, dirs;
    if !fs.mounted { return; }
    ResolvedSpelled(fs.g.root, dirs, fs.g.root, path, 0);
    var target := ResolveParentAndLeaf(fs, path, chains, dirs);
    if target.None? { return; }
    ok, chains', dirs' := TouchTarget(fs, target.value, chains, dirs);
  }

  // ---- Write ----

  ghost function Reads(v: View, t: Target): Option<seq<byte>> { ReadAt(v.clusters, v.chains, v.dirs, t.dir, t.name) }

  /** Every name but t reads as before. */
  ghost predicate OthersRead(v: View, w: View, t: Target) {
    forall t' :: t' != t ==> Reads(w, t') == Reads(v, t')
  }

  /** Every name but t that is in a directory before and after denotes what it denoted; names that came or went with
      a directory denote no file. */
  ghost predicate OthersDenote(v: View, w: View, t: Target) {
    && (forall t': Target :: t' != t && t'.dir in v.dirs && t'.dir in w.dirs ==> Denoted(w, t') == Denoted(v, t'))
    && (forall t': Target :: t'.dir in v.dirs && t'.dir !in w.dirs && Denoted(v, t').Some? ==>
       IsDirectory(Denoted(v, t').value))
    && (forall t': Target :: t'.dir !in v.dirs && t'.dir in w.dirs && Denoted(w, t').Some? ==>
       IsDirectory(Denoted(w, t').value))
  }

  /** A change to directories and to the chain of the file t leaves every other file as it reads. */
  lemma OthersKeptIn(g: Geometry, v: View, w: View, t: Target, but: set<nat>)
    requires Good(g, v) && t.dir in v.dirs && OthersDenote(v, w, t)
    requires AllKeptBut(v.clusters, v.chains, w.clusters, w.chains, but)
    requires forall h :: h in but ==>
                         h in v.dirs || h !in v.chains ||
                         (Denoted(v, t).Some? && FileEntry(Denoted(v, t).value) &&
                           h == FirstCluster(Denoted(v, t).value))
    ensures OthersRead(v, w, t)
  {
    forall t' | t' != t ensures Reads(w, t') == Reads(v, t') {
      if t'.dir in v.dirs && t'.dir in w.dirs && Denoted(v, t').Some? && !IsDirectory(Denoted(v, t').value) &&
        FirstCluster(Denoted(v, t').value) >= 2 {
        var first := FirstCluster(Denoted(v, t').value);
        OwnersDiffer(g, v, t, t');
        assert Kept(v.clusters, v.chains, w.clusters, w.chains, first);
        KeptSectors(v.clusters, v.chains, w.clusters, w.chains, first);
      }
    }
  }

  lemma OthersKept(g: Geometry, v: View, w: View, t: Target, but: set<nat>)
    requires Good(g, v) && w.dirs.Keys == v.dirs.Keys && SameElsewhere(v.dirs, w.dirs, t.dir, t.name) && t.dir in v.dirs
    requires AllKeptBut(v.clusters, v.chains, w.clusters, w.chains, but)
    requires but <= {t.dir} || exists e :: Denoted(v, t) == Some(e) && FileEntry(e) && but <= {t.dir, FirstCluster(e)}
    ensures OthersRead(v, w, t)
  {
    OthersKeptIn(g, v, w, t, but);
  }

  lemma OwnersDiffer(g: Geometry, v: View, t: Target, t': Target)
    requires Good(g, v) && t.dir in v.dirs && t'.dir in v.dirs && t' != t
    requires Denoted(v, t').Some? && !IsDirectory(Denoted(v, t').value) && FirstCluster(Denoted(v, t').value) >= 2
    ensures var first := FirstCluster(Denoted(v, t').value);
            && first in v.chains && first !in v.dirs && Inside(v.clusters, v.chains[first])
            && (Denoted(v, t).Some? && FileEntry(Denoted(v, t).value) ==> FirstCluster(Denoted(v, t).value) != first)
  {
    FoundEntry(g.root, g.spc, v.chains, v.dirs, t'.dir, t'.name);
    assert Looking(DiskLayer);
    var q' := Pos(t'.dir, Find(v.dirs[t'.dir], t'.name).value);
    assert HasSlot(v.dirs, q') && Owner(SlotOf(v.dirs, q'));
    if Denoted(v, t).Some? {
      var q := Pos(t.dir, Find(v.dirs[t.dir], t.name).value);
      assert HasSlot(v.dirs, q) && SlotOf(v.dirs, q) == Denoted(v, t).value;
      assert NameOf(SlotOf(v.dirs, q)) == t.name && NameOf(SlotOf(v.dirs, q')) == t'.name;
    }
  }

  /** The cluster that creating an entry for t takes, if any. */
  ghost function GrowthAt(v: View, t: Target): nat {
    if Denoted(v, t).None? && t.dir in v.dirs then Growth(v.dirs[t.dir]) else 0
  }

  /** The clusters of the file t. */
  ghost function LengthAt(v: View, t: Target): nat {
    match Denoted(v, t) case None => 0 case Some(e) => OldLength(v.chains, e)
  }

  /** From v to w the file t has been written. */
  ghost predicate FileWritten(g: Geometry, v: View, w: View, t: Target, data: seq<byte>, needed: nat) {
    && Good(g, w) && w.dirs.Keys == v.dirs.Keys && SameElsewhere(v.dirs, w.dirs, t.dir, t.name)
    && (Denoted(v, t).Some? ==> !IsDirectory(Denoted(v, t).value))
    && Reads(w, t) == Some(data) && OthersRead(v, w, t)
    && JustEnough(needed, |data|, g.spc)
    && |FreeSet(w.links)| + needed + GrowthAt(v, t) == |FreeSet(v.links)| + LengthAt(v, t)
  }

  /** Finding or creating the entry (v to u) and then writing it (u to w). */
  lemma WriteComposed(g: Geometry, v: View, u: View, w: View, t: Target, k: nat, data: seq<byte>, needed: nat)
    requires Good(g, v) && Good(g, u) && t.dir in v.dirs && (u == v || (Denoted(v, t) == None && Created(g, v, u, t)))
    requires t.dir in u.dirs && k < |u.dirs[t.dir]| && Find(u.dirs[t.dir], t.name) == Some(k) &&
             FileEntry(u.dirs[t.dir][k])
    requires EntryWritten(g, u.clusters, u.chains, u.dirs, t.dir, k, data, w.links, w.clusters, w.chains, w.dirs)
    requires JustEnough(needed, |data|, g.spc)
    requires |FreeSet(w.links)| + needed == |FreeSet(u.links)| + OldLength(u.chains, u.dirs[t.dir][k])
    ensures FileWritten(g, v, w, t, data, needed)
  {
    assert Denoted(u, t) == Some(u.dirs[t.dir][k]) && NameOf(u.dirs[t.dir][k]) == t.name;
    OthersKept(g, u, w, t, {t.dir, FirstCluster(u.dirs[t.dir][k])});
    if u != v { OthersKept(g, v, u, t, {t.dir}); }
    forall t' | t' != t ensures Reads(w, t') == Reads(v, t') { assert Reads(u, t') == Reads(v, t'); }
  }

  /** Finds the entry of t, creating an empty file when it is missing. */
  method FindOrTouch(fs: Fat32, path: seq<byte>, t: Target, ghost chains: Chains, ghost dirs: Dirs)
    returns (ok: bool, lba: nat, off: nat, entry: Slot, ghost chains': Chains, ghost dirs': Dirs, ghost k: nat,
             ghost p: Place)
    requires Ready(fs, chains, dirs) && fs.mounted && t.dir in dirs && 0 !in path
    modifies fs`ageCounter, fs`links, fs`agree, fs`lowest, fs`clusters, fs`allocHint, fs.dev, fs.dataCache, fs.fatCache
    ensures fs.Valid() && fs.dev.faults >= old(fs.dev.faults)
    ensures ok || (fs.dev.canWrite && fs.dev.faults == old(fs.dev.faults)) ==>
              fs.Steady(old(fs.agree), old(fs.lowest))
    ensures ok ==> Shown(fs.g, View(fs.links, fs.clusters, chains', dirs')) && dirs'.Keys == dirs.Keys
    ensures ok ==> k < |dirs'[t.dir]| && entry == dirs'[t.dir][k] && Find(dirs'[t.dir], t.name) == Some(k) &&
                   At(fs.g, chains'[t.dir], k, lba, off, p)
    ensures fs.dev.faults == old(fs.dev.faults) && Resolve(fs.g.root, dirs, fs.g.root, path, 0) == Some(t) ==>
              var v, w := View(old(fs.links), old(fs.clusters), chains, dirs),
                          View(fs.links, fs.clusters, chains', dirs');
              if ok then w == v || (Denoted(v, t) == None && Created(fs.g, v, w, t))
              else fs.dev.canWrite ==> Denoted(v, t) == None && Uncreated(fs.g, v, w, t)
  {
    chains', dirs' := chains, dirs;
    ok, lba, off, entry, k, p := LookIn(fs, t.dir, t.name, chains, dirs);
    if ok { return; }
    ok, chains', dirs' := TouchFilePath(fs, path, chains, dirs);
    if !ok { return; }
    ok, lba, off, entry, k, p := LookIn(fs, t.dir, t.name, chains', dirs');
  }

  /** No file t can be found where an entry for it was to be created: there was no room for one, or one was stored
      under a name that begins with the mark of a deleted entry. */
  ghost predicate Uncreated(g: Geometry, v: View, w: View, t: Target) {
    if NoRoom(v, t.dir) then w == v else t.name[0] == DELETED && Created(g, v, w, t)
  }

  /** Writing t cannot succeed: it is a directory, it cannot be created, or the data needs more clusters than are
      free once its old chain has been given back. */
  ghost predicate Unwritable(g: Geometry, v: View, t: Target, data: seq<byte>, needed: nat) {
    match Denoted(v, t)
    case None => t.name[0] == DELETED || NoRoom(v, t.dir) || TooLarge(g, v, t, data, needed)
    case Some(e) => IsDirectory(e) || TooLarge(g, v, t, data, needed)
  }

  ghost predicate TooLarge(g: Geometry, v: View, t: Target, data: seq<byte>, needed: nat) {
    JustEnough(needed, |data|, g.spc) && |FreeSet(v.links)| + LengthAt(v, t) < needed + GrowthAt(v, t)
  }

  /** From v to w the write of t has run out of clusters. A file that was there has lost its chain, and its entry
      still names it; one that was not is there now and empty. */
  ghost predicate FileLost(g: Geometry, v: View, w: View, t: Target) {
    match Denoted(v, t)
    case None => Created(g, v, w, t)
    case Some(e) =>
      && !IsDirectory(e) && Shown(g, w) && w.dirs == v.dirs && w.chains == AfterFree(v.chains, FirstCluster(e))
      && AllKeptBut(v.clusters, v.chains, w.clusters, w.chains, {FirstCluster(e)})
      && |FreeSet(w.links)| == |FreeSet(v.links)| + LengthAt(v, t)
  }

  /** From v to w the write of t has been refused: t is a directory, or no entry for it can be found. */
  ghost predicate WriteRefused(g: Geometry, v: View, w: View, t: Target) {
    match Denoted(v, t)
    case None => Uncreated(g, v, w, t)
    case Some(e) => IsDirectory(e) && w == v
  }

  /** The entry of t was there (u is v), or has been created. */
  ghost predicate Reached(g: Geometry, v: View, u: View, t: Target) {
    Good(g, v) && t.dir in v.dirs && (u == v || (Denoted(v, t) == None && Created(g, v, u, t)))
  }

  /** What writing the entry (u to w) means for the write as a whole (v to w), when it succeeds and when it does not. */
  lemma WriteJudged(g: Geometry, v: View, u: View, w: View, t: Target, k: nat, data: seq<byte>, needed: nat)
    requires Reached(g, v, u, t) && t.dir in u.dirs && k < |u.dirs[t.dir]| && Find(u.dirs[t.dir], t.name) == Some(k)
    requires !IsDirectory(u.dirs[t.dir][k]) && |data| < 0x1_0000_0000
    ensures WritableEntry(g, u.chains, u.dirs, u.dirs[t.dir][k], data)
    ensures EntryReplaced(g, u.links, u.clusters, u.chains, u.dirs, t.dir, k, data, w.links, w.clusters, w.chains,
                          w.dirs, needed) ==>
              FileWritten(g, v, w, t, data, needed)
    ensures WriteLost(g, u.links, u.clusters, u.chains, u.dirs, u.dirs[t.dir][k], data, w.links, w.clusters, w.chains,
                      needed) &&
            w.dirs == u.dirs ==>
              TooLarge(g, v, t, data, needed) && FileLost(g, v, w, t)
  {
    var e := u.dirs[t.dir][k];
    FoundEntry(g.root, g.spc, u.chains, u.dirs, t.dir, t.name);
    assert Denoted(u, t) == Some(e);
    if EntryReplaced(g, u.links, u.clusters, u.chains, u.dirs, t.dir, k, data, w.links, w.clusters, w.chains, w.dirs,
                     needed) {
      WriteComposed(g, v, u, w, t, k, data, needed);
    }
    if WriteLost(g, u.links, u.clusters, u.chains, u.dirs, e, data, w.links, w.clusters, w.chains, needed) &&
      w.dirs == u.dirs {
      if Denoted(v, t) == None { CreatedStays(g, v, u, w, t); }
    }
  }

  /** An empty file that has just been created stays so when only free clusters are written. */
  lemma CreatedStays(g: Geometry, v: View, u: View, w: View, t: Target)
    requires Created(g, v, u, t) && Shown(g, w) && w.dirs == u.dirs && w.chains == u.chains && Denoted(u, t).Some?
    requires AllKeptBut(u.clusters, u.chains, w.clusters, w.chains, {FirstCluster(Denoted(u, t).value)})
    requires |FreeSet(w.links)| == |FreeSet(u.links)|
    ensures Created(g, v, w, t)
  {
    assert FirstCluster(Denoted(u, t).value) == 0;
    assert 0 !in u.chains by { assert Looking(DiskLayer); }
    assert AllKeptBut(u.clusters, u.chains, w.clusters, w.chains, {});
    KeptTrans(v.clusters, v.chains, u.clusters, u.chains, w.clusters, w.chains, {t.dir}, {});
    assert {t.dir} + {} == {t.dir};
  }

  /** Finds or creates the entry of t and replaces what it names by the data. */
  method WriteTarget(fs: Fat32, path: seq<byte>, t: Target, data: seq<byte>, ghost chains: Chains, ghost dirs: Dirs)
    returns (ok: bool, lost: bool, ghost chains': Chains, ghost dirs': Dirs, ghost needed: nat)
    requires Ready(fs, chains, dirs) && fs.mounted && t.dir in dirs && 0 !in path
    modifies fs`ageCounter, fs`links, fs`agree, fs`lowest, fs`clusters, fs`allocHint, fs.dev, fs.dataCache, fs.fatCache
    ensures fs.Valid() && fs.dev.faults >= old(fs.dev.faults)
    ensures ok ==> !lost
    ensures ok || (fs.dev.canWrite && fs.dev.faults == old(fs.dev.faults)) ==>
              fs.Steady(old(fs.agree), old(fs.lowest))
    ensures fs.dev.faults == old(fs.dev.faults) && Resolve(fs.g.root, dirs, fs.g.root, path, 0) == Some(t) &&
            |data| < 0x1_0000_0000 ==>
              var v, w := View(old(fs.links), old(fs.clusters), chains, dirs),
                          View(fs.links, fs.clusters, chains', dirs');
              if ok then FileWritten(fs.g, v, w, t, data, needed)
              else fs.dev.canWrite ==>
                     Unwritable(fs.g, v, t, data, needed) &&
                     if lost then TooLarge(fs.g, v, t, data, needed) && FileLost(fs.g, v, w, t)
                     else WriteRefused(fs.g, v, w, t)
  {
    var lba, off, entry;
    ghost var k, p;
    ghost var v := View(fs.links, fs.clusters, chains, dirs);
    needed, lost := 0, false;
    ok, lba, off, entry, chains', dirs', k, p := FindOrTouch(fs, path, t, chains, dirs);
    if !ok || IsDirectory(entry) { return false, false, chains', dirs', needed; }
    ghost var u := View(fs.links, fs.clusters, chains', dirs');
    ok, lost, chains', dirs', needed := WriteEntry(fs, t.dir, lba, off, entry, data, chains', dirs', k, p);
    if Reached(fs.g, v, u, t) && |data| < 0x1_0000_0000 {
      WriteJudged(fs.g, v, u, View(fs.links, fs.clusters, chains', dirs'), t, k, data, needed);
    }
  }

  /** Writes a whole file. Without a device fault it succeeds exactly when the path resolves and t is not
      `Unwritable`; then t reads as the data and every other name as before. When it fails for want of clusters, which
      `lost` tells from other failures, the old contents are gone already. */
  method WriteFilePath(fs: Fat32, path: seq<byte>, data: seq<byte>, ghost chains: Chains, ghost dirs: Dirs)
    returns (ok: bool, lost: bool, ghost chains': Chains, ghost dirs': Dirs, ghost needed: nat)
    requires Ready(fs, chains, dirs) && 0 !in path
    modifies fs`ageCounter, fs`links, fs`agree, fs`lowest, fs`clusters, fs`allocHint, fs.dev, fs.dataCache, fs.fatCache
    ensures fs.dev.faults >= old(fs.dev.faults) && if fs.mounted then fs.Valid() else !ok
    ensures ok ==> !lost
    ensures ok || (fs.dev.canWrite && fs.dev.faults == old(fs.dev.faults)) ==>
              fs.Steady(old(fs.agree), old(fs.lowest))
    ensures fs.mounted && fs.dev.faults == old(fs.dev.faults) && |data| < 0x1_0000_0000 ==>
              var v, w := View(old(fs.links), old(fs.clusters), chains, dirs),
                          View(fs.links, fs.clusters, chains', dirs');
              match Resolve(fs.g.root, dirs, fs.g.root, path, 0)
              case None => !ok && !lost && w == v
              case Some(t) =>
                if ok then FileWritten(fs.g, v, w, t, data, needed)
                else fs.dev.canWrite ==>
                       Unwritable(fs.g, v, t, data, needed) &&
                       if lost then TooLarge(fs.g, v, t, data, needed) && FileLost(fs.g, v, w, t)
                       else WriteRefused(fs.g, v, w, t)
  {
    ok, lost, chains', dirs', needed := false, false, chains, dirs, 0;
    if !fs.mounted { return; }
    var target := ResolveParentAndLeaf(fs, path, chains, dirs);
    if target.None? { return; }
    ok, lost, chains', dirs', needed := WriteTarget(fs, path, target.value, data, chains, dirs);
  }

  lemma {:induction false} JustEnoughUnique(n: nat, n': nat, size: nat, spc: nat)
    requires JustEnough(n, size, spc) && JustEnough(n', size, spc)
    ensures n == n'
  {
    if n < n' { TimesMono(n, n' - 1, spc); }
    if n' < n { TimesMono(n', n - 1, spc); }
  }

  /** A write that succeeded was possible: being `Unwritable` is exactly what rules success out. */
  lemma WrittenWasWritable(g: Geometry, v: View, w: View, t: Target, data: seq<byte>, needed: nat, needed': nat)
    requires FileWritten(g, v, w, t, data, needed)
    ensures !Unwritable(g, v, t, data, needed')
  {
    if TooLarge(g, v, t, data, needed') { JustEnoughUnique(needed, needed', |data|, g.spc); }
    FoundEntry(g.root, g.spc, w.chains, w.dirs, t.dir, t.name);
  }

  // ---- Read ----

  /** Reads a file into a buffer of any size. Without a device fault it succeeds exactly when the path denotes a
      file; the buffer then holds its bytes, as many as fit, and is as before beyond them. */
  method ReadFilePath(fs: Fat32, path: seq<byte>, out: array<byte>, ghost chains: Chains, ghost dirs: Dirs)
    returns (ok: bool, size: nat)
    requires Ready(fs, chains, dirs) && out != fs.dataCache as object && out != fs.fatCache as object
    modifies fs`ageCounter, fs.dev`faults, fs.dataCache, fs.fatCache, out
    ensures Ready(fs, chains, dirs) && fs.dev.faults >= old(fs.dev.faults) && (!fs.mounted ==> !ok)
    ensures fs.mounted && fs.dev.faults == old(fs.dev.faults) ==>
              var v := View(fs.links, fs.clusters, chains, dirs);
              match Resolve(fs.g.root, dirs, fs.g.root, path, 0)
              case None => !ok
              case Some(t) =>
                ok == Reads(v, t).Some? &&
                (ok ==>
                  size == Min(|Reads(v, t).value|, out.Length) &&
                  Filled(out[..], old(out[..]), Reads(v, t).value, size))
  {
    ok, size := false, 0;
    if !fs.mounted { return; }
    var target := ResolveParentAndLeaf(fs, path, chains, dirs);
    if target.None? { return; }
    ok, size := ReadTarget(fs, target.value, out, chains, dirs);
  }

  method ReadTarget(fs: Fat32, t: Target, out: array<byte>, ghost chains: Chains, ghost dirs: Dirs)
    returns (ok: bool, size: nat)
    requires Sound(fs, chains, dirs) && t.dir in dirs && out != fs.dataCache as object && out != fs.fatCache as object
    modifies fs`ageCounter, fs.dev`faults, fs.dataCache, fs.fatCache, out
    ensures Sound(fs, chains, dirs) && fs.dev.faults >= old(fs.dev.faults)
    ensures fs.dev.faults == old(fs.dev.faults) ==>
              var read := Reads(View(fs.links, fs.clusters, chains, dirs), t);
              ok == read.Some? &&
              (ok ==> size == Min(|read.value|, out.Length) && Filled(out[..], old(out[..]), read.value, size))
  {
    var lba, off, entry;
    ghost var k, p;
    ok, lba, off, entry, k, p := Look(fs, t.dir, t.name, chains, dirs);
    if !ok { return false, 0; }
    ghost var cs := if FirstCluster(entry) in chains then chains[FirstCluster(entry)] else [];
    if !IsDirectory(entry) { FileChain(fs.g, fs.links, fs.clusters, chains, dirs, entry); }
    ok, size := ReadFileEntry(fs, entry, out, cs);
  }

  /** The chain of a file entry, and what the file holds. */
  lemma FileChain(g: Geometry, links: seq<nat>, clusters: Clusters, chains: Chains, dirs: Dirs, e: Slot)
    requires Shows(g, links, clusters, chains, dirs) && EntryOk(g.spc, chains, dirs, e) && !IsDirectory(e)
    ensures FirstCluster(e) >= 2 ==>
              var cs := chains[FirstCluster(e)];
              && IsChain(g, links, cs) && cs[0] == FirstCluster(e) && Inside(clusters, cs)
              && FileSize(e) <= 512 * Times(|cs|, g.spc)
              && |Bytes(ChainSectors(clusters, cs))| == 512 * Times(|cs|, g.spc)
              && FileBytes(clusters, chains, e) == Bytes(ChainSectors(clusters, cs))[..FileSize(e)]
  {
    assert Looking(DiskLayer);
    if FirstCluster(e) >= 2 {
      ChainSectorsLength(g, clusters, chains[FirstCluster(e)]);
      BytesLength(ChainSectors(clusters, chains[FirstCluster(e)]));
    }
  }

  // ---- Write, then read ----

  /** Changing what one file name denotes, in a tree whose directories stay, changes the meaning of no path. */
  lemma {:induction false} SameResolve(root: nat, dirs: Dirs, dirs': Dirs, t: Target, cur: nat, path: seq<byte>, i: nat)
    requires i <= |path| && dirs'.Keys == dirs.Keys && SameElsewhere(dirs, dirs', t.dir, t.name) && t.name[0] != DOT
    requires Lookup(dirs, t.dir, t.name).Some? ==> !IsDirectory(Lookup(dirs, t.dir, t.name).value)
    requires Lookup(dirs', t.dir, t.name).Some? ==> !IsDirectory(Lookup(dirs', t.dir, t.name).value)
    ensures Resolve(root, dirs', cur, path, i) == Resolve(root, dirs, cur, path, i)
    decreases |path| - i
  {
    match NextTurn(path, i)
    case Malformed =>
    case Leaf(_) =>
    case Descend(text, next) =>
      assert DotDotName()[0] == DOT;
      assert Step(root, dirs', cur, text) == Step(root, dirs, cur, text);
      var d := Step(root, dirs, cur, text);
      if d.Some? { SameResolve(root, dirs, dirs', t, d.value, path, next); }
  }

  /** What a path reads as. */
  ghost function PathReads(root: nat, v: View, path: seq<byte>): Option<seq<byte>> {
    match Resolve(root, v.dirs, root, path, 0)
    case None => None
    case Some(t) => Reads(v, t)
  }

  /** After a write the path reads as the data, and every path that leads elsewhere reads as before. */
  lemma WriteThenRead(g: Geometry, v: View, w: View, t: Target, data: seq<byte>, needed: nat, path: seq<byte>,
                      other: seq<byte>)
    requires FileWritten(g, v, w, t, data, needed) && 0 !in path && Resolve(g.root, v.dirs, g.root, path, 0) == Some(t)
    ensures PathReads(g.root, w, path) == Some(data)
    ensures Resolve(g.root, w.dirs, g.root, other, 0) == Resolve(g.root, v.dirs, g.root, other, 0)
    ensures Resolve(g.root, v.dirs, g.root, other, 0) != Some(t) ==>
            PathReads(g.root, w, other) == PathReads(g.root, v, other)
  {
    ResolvedSpelled(g.root, v.dirs, g.root, path, 0);
    SameResolve(g.root, v.dirs, w.dirs, t, g.root, path, 0);
    SameResolve(g.root, v.dirs, w.dirs, t, g.root, other, 0);
  }
}
