/** What a write that ran out of clusters leaves: there is no way of reading the disk as a sound tree. */
module Fat32Lost {
  import opened Options
  import opened MachineBytes
  import opened BlockDevices
  import opened Fat32Layout
  import opened Fat32Volume
  import opened Fat32Chains
  import opened Fat32Slots
  import opened Fat32Directory
  import opened Fat32Tree
  import opened Fat32Paths
  import opened Fat32View
  import opened Fat32Write
  import opened Fat32Api

  /** The links and the head determine a chain. */
  lemma {:induction false} ChainIsOne(g: Geometry, links: seq<nat>, cs: seq<nat>, cs': seq<nat>, n: nat)
    requires IsChain(g, links, cs) && IsChain(g, links, cs') && cs[0] == cs'[0] && n < |cs|
    ensures n < |cs'| && cs'[n] == cs[n]
    ensures n == |cs| - 1 ==> cs' == cs
  {
    if n > 0 {
      ChainIsOne(g, links, cs, cs', n - 1);
      assert links[cs[n - 1]] == cs[n];
      assert n - 1 < |cs'| - 1 && links[cs'[n - 1]] == cs'[n];
    }
    if n == |cs| - 1 {
      forall i | 0 <= i < n ensures cs'[i] == cs[i] { ChainIsOne(g, links, cs, cs', i); }
    }
  }

  /** Two ways of reading one disk agree on every directory they both hold. */
  lemma SameSlots(g: Geometry, a: View, b: View, d: nat)
    requires Shown(g, a) && Shown(g, b) && a.links == b.links && a.clusters == b.clusters && d in a.dirs && d in b.dirs
    ensures a.dirs[d] == b.dirs[d]
  {
    ShownDirectory(g, a.links, a.clusters, a.chains, a.dirs, d);
    ShownDirectory(g, b.links, b.clusters, b.chains, b.dirs, d);
    ChainIsOne(g, a.links, a.chains[d], b.chains[d], |a.chains[d]| - 1);
  }

  /** A component leads to the same directory, whichever of two sound trees it is looked up in. */
  lemma SameStep(root: nat, spc: nat, chains: Chains, dirs: Dirs, chains': Chains, dirs': Dirs, cur: nat,
                 text: seq<byte>)
    requires TreeOk(root, spc, chains, dirs) && TreeOk(root, spc, chains', dirs')
    requires cur in dirs && cur in dirs' && dirs'[cur] == dirs[cur]
    ensures var d := Step(root, dirs, cur, text);
            Step(root, dirs', cur, text) == d && (d.Some? ==> d.value in dirs && d.value in dirs')
  {
    if Lookup(dirs, cur, DotDotName()).Some? {
      FoundEntry(root, spc, chains, dirs, cur, DotDotName());
      FoundEntry(root, spc, chains', dirs', cur, DotDotName());
      assert NameOf(Lookup(dirs, cur, DotDotName()).value)[0] == DOT;
    }
    if Name83(text).Some? && Lookup(dirs, cur, Name83(text).value).Some? {
      FoundEntry(root, spc, chains, dirs, cur, Name83(text).value);
      FoundEntry(root, spc, chains', dirs', cur, Name83(text).value);
    }
  }

  /** A path leads through the same directories. */
  lemma {:induction false} SameWay(g: Geometry, v: View, a: View, b: View, cur: nat, path: seq<byte>, i: nat)
    requires Good(g, v) && Shown(g, a) && a.dirs == v.dirs && Good(g, b) && a.links == b.links &&
             a.clusters == b.clusters
    requires cur in v.dirs && cur in b.dirs && i <= |path|
    ensures var t := Resolve(g.root, v.dirs, cur, path, i); t.Some? ==> t.value.dir in v.dirs && t.value.dir in b.dirs
    decreases |path| - i
  {
    match NextTurn(path, i)
    case Malformed =>
    case Leaf(_) =>
    case Descend(text, next) =>
      SameSlots(g, a, b, cur);
      SameStep(g.root, g.spc, v.chains, v.dirs, b.chains, b.dirs, cur, text);
      var d := Step(g.root, v.dirs, cur, text);
      if d.Some? { SameWay(g, v, a, b, d.value, path, next); }
  }

  /** The head of a chain that has been freed is no longer linked. */
  lemma FreedHead(g: Geometry, v: View, w: View, h: nat)
    requires Shown(g, v) && Shown(g, w) && h in v.chains && w.chains == v.chains - {h}
    requires AllKeptBut(v.clusters, v.chains, w.clusters, w.chains, {h})
    ensures ValidCluster(g, h) && w.links[h] < 2
  {
    assert Looking(DiskLayer);
    assert v.chains[h][0] == h;
    forall x | x in w.chains ensures h !in w.chains[x] { assert Kept(v.clusters, v.chains, w.clusters, w.chains, x); }
    assert !OnSomeChain(w.chains, h);
  }

  /** A file that has contents starts at a linked cluster. */
  lemma FileLinked(g: Geometry, v: View, t: Target)
    requires Good(g, v) && t.dir in v.dirs && Denoted(v, t).Some? && !IsDirectory(Denoted(v, t).value)
    requires FirstCluster(Denoted(v, t).value) >= 2
    ensures var h := FirstCluster(Denoted(v, t).value); ValidCluster(g, h) && v.links[h] >= 2
  {
    FoundEntry(g.root, g.spc, v.chains, v.dirs, t.dir, t.name);
    assert Looking(DiskLayer);
    var cs := v.chains[FirstCluster(Denoted(v, t).value)];
    if |cs| > 1 { assert v.links[cs[0]] == cs[1]; }
  }

  /** After a write that ran out of clusters the entry of a file that had contents is still found and names a free
      cluster, so that no choice of chains and directories makes the disk a sound tree. */
  lemma LostIsUnsound(g: Geometry, v: View, w: View, t: Target, path: seq<byte>, chains: Chains, dirs: Dirs)
    requires Good(g, v) && Resolve(g.root, v.dirs, g.root, path, 0) == Some(t)
    requires Denoted(v, t).Some? && FirstCluster(Denoted(v, t).value) >= 2 && FileLost(g, v, w, t)
    ensures !Good(g, View(w.links, w.clusters, chains, dirs))
  {
    var b, h := View(w.links, w.clusters, chains, dirs), FirstCluster(Denoted(v, t).value);
    if Good(g, b) {
      SameWay(g, v, w, b, g.root, path, 0);
      SameSlots(g, w, b, t.dir);
      FoundEntry(g.root, g.spc, v.chains, v.dirs, t.dir, t.name);
      FreedHead(g, v, w, h);
      FileLinked(g, b, t);
    }
  }

  /** When the file had no contents, or was not there, the tree is sound and reads as if it had been touched. */
  lemma LostWithoutContents(g: Geometry, v: View, w: View, t: Target)
    requires Good(g, v) && t.dir in v.dirs && FileLost(g, v, w, t)
    requires Denoted(v, t).Some? ==> FirstCluster(Denoted(v, t).value) < 2
    ensures Good(g, w) && OthersRead(v, w, t)
    ensures Denoted(v, t).Some? ==> Reads(w, t) == Reads(v, t)
  {
    if Denoted(v, t).None? {
      OthersKept(g, v, w, t, {t.dir});
    } else {
      var e := Denoted(v, t).value;
      FoundEntry(g.root, g.spc, v.chains, v.dirs, t.dir, t.name);
      OthersKept(g, v, w, t, {FirstCluster(e)});
    }
  }
}
