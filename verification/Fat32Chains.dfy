/** Cluster chains: what the links mean, and the allocator and the chain deallocator that change them. */
module Fat32Chains {
  import opened MachineBytes
  import opened BlockDevices
  import opened Fat32Layout
  import opened Fat32Volume

  const END_MARK: nat := 0x0FFF_FFFF

  ghost predicate Pair(i: int, j: int) { true }

  /** No two elements are equal; used only where a proof names the two positions as a `Pair`. */
  ghost predicate Distinct(cs: seq<nat>) {
    forall i, j {:trigger Pair(i, j)} :: 0 <= i < j < |cs| && Pair(i, j) ==> cs[i] != cs[j]
  }

  /** cs follows the links from its head to an end mark, through valid clusters. */
  ghost predicate IsChain(g: Geometry, links: seq<nat>, cs: seq<nat>) {
    && |links| == g.max + 1 && g.max < EOC && |cs| > 0
    && (forall i :: 0 <= i < |cs| ==> ValidCluster(g, cs[i]))
    && (forall i {:trigger links[cs[i]]} :: 0 <= i < |cs| - 1 ==> links[cs[i]] == cs[i + 1])
    && links[cs[|cs| - 1]] >= EOC
  }

  /** Every link is free, reserved, an end mark or a cluster of the volume. */
  ghost predicate LinksOk(g: Geometry, links: seq<nat>) {
    && |links| == g.max + 1
    && forall c {:trigger links[c]} :: ValidCluster(g, c) ==>
         links[c] < 2 || links[c] >= EOC || ValidCluster(g, links[c])
  }

  ghost function FreeSet(links: seq<nat>): set<nat> {
    set c | 2 <= c < |links| && links[c] == 0
  }

  ghost function NonZero(links: seq<nat>): set<nat> {
    set c | 0 <= c < |links| && links[c] != 0
  }

  /** Only the last cluster of a chain has an end mark; every other one links to its successor. */
  lemma ChainStep(g: Geometry, links: seq<nat>, cs: seq<nat>, i: nat)
    requires IsChain(g, links, cs) && i < |cs|
    ensures if i == |cs| - 1 then links[cs[i]] >= EOC else links[cs[i]] == cs[i + 1] && ValidCluster(g, cs[i + 1])
  {
  }

  /** A chain stays one when the links of its clusters stay. */
  lemma ChainKept(g: Geometry, links: seq<nat>, links': seq<nat>, cs: seq<nat>)
    requires IsChain(g, links, cs) && |links'| == |links|
    requires forall i :: 0 <= i < |cs| ==> links'[cs[i]] == links[cs[i]]
    ensures IsChain(g, links', cs)
  {
    forall i | 0 <= i < |cs| - 1 ensures links'[cs[i]] == cs[i + 1] { ChainStep(g, links, cs, i); }
  }

  // ---- Freeing ----

  /** The links after following and zeroing from cur, on any contents whatever. */
  ghost function Freed(g: Geometry, links: seq<nat>, cur: nat): (r: seq<nat>)
    requires |links| == g.max + 1
    ensures |r| == |links|
    ensures forall c :: 0 <= c < |links| ==> r[c] == links[c] || r[c] == 0
    ensures ValidCluster(g, cur) ==> r[cur] == 0
    decreases NonZero(links), if ValidCluster(g, cur) then 1 else 0
  {
    if !ValidCluster(g, cur) then links
    else
      var rest := links[cur := 0];
      assert NonZero(rest) == NonZero(links) - {cur};
      if links[cur] >= EOC then rest else Freed(g, rest, links[cur])
  }

  ghost function Cleared(links: seq<nat>, cs: seq<nat>): seq<nat> {
    seq(|links|, c requires 0 <= c < |links| => if c in cs then 0 else links[c])
  }

  /** On a chain, freeing from the head zeroes exactly its clusters. */
  lemma {:induction false} FreedChain(g: Geometry, links: seq<nat>, cs: seq<nat>)
    requires IsChain(g, links, cs) && Distinct(cs)
    ensures Freed(g, links, cs[0]) == Cleared(links, cs)
    decreases |cs|
  {
    var rest := links[cs[0] := 0];
    assert |cs| > 1 ==> links[cs[0]] == cs[1] && ValidCluster(g, cs[1]);
    if |cs| == 1 {
      assert rest == Cleared(links, cs);
    } else {
      var tail := cs[1..];
      assert Distinct(tail) by {
        forall i, j | 0 <= i < j < |tail| ensures tail[i] != tail[j] { assert Pair(i + 1, j + 1); }
      }
      forall i | 0 <= i < |tail| ensures tail[i] != cs[0] { assert Pair(0, i + 1); }
      assert IsChain(g, rest, tail) by {
        forall i | 0 <= i < |tail| - 1 ensures rest[tail[i]] == tail[i + 1] {
          assert links[cs[i + 1]] == cs[i + 2];
        }
      }
      FreedChain(g, rest, tail);
      assert Cleared(rest, tail) == Cleared(links, cs);
    }
  }

  ghost function Elems(cs: seq<nat>): set<nat> { set i | 0 <= i < |cs| :: cs[i] }

  lemma {:induction false} DistinctCount(cs: seq<nat>)
    requires Distinct(cs)
    ensures |Elems(cs)| == |cs|
  {
    if |cs| > 0 {
      var init, last := cs[..|cs| - 1], cs[|cs| - 1];
      DistinctCount(init);
      forall i | 0 <= i < |init| ensures init[i] != last { assert Pair(i, |init|); }
      forall c ensures c in Elems(cs) <==> c in Elems(init) + {last} {
        if c in Elems(cs) {
          var i :| 0 <= i < |cs| && cs[i] == c;
          assert i < |init| ==> init[i] == c;
        }
      }
      assert Elems(cs) == Elems(init) + {last};
    }
  }

  /** Freeing a chain gives back as many clusters as it is long. */
  lemma ClearedCount(g: Geometry, links: seq<nat>, cs: seq<nat>)
    requires IsChain(g, links, cs) && Distinct(cs)
    ensures FreeSet(Cleared(links, cs)) == FreeSet(links) + Elems(cs)
    ensures |FreeSet(Cleared(links, cs))| == |FreeSet(links)| + |cs|
  {
    DistinctCount(cs);
    forall c | c in Elems(cs) ensures 2 <= c < |links| && links[c] != 0 {
      var i :| 0 <= i < |cs| && cs[i] == c;
      if i < |cs| - 1 { assert links[cs[i]] == cs[i + 1] && ValidCluster(g, cs[i + 1]); }
    }
    var after := Cleared(links, cs);
    forall c ensures c in FreeSet(after) <==> c in FreeSet(links) + Elems(cs) {
      if 2 <= c < |links| { assert after[c] == if c in cs then 0 else links[c]; }
    }
    assert FreeSet(after) == FreeSet(links) + Elems(cs);
    assert FreeSet(links) !! Elems(cs);
  }

  lemma HintAfterFree(g: Geometry, links: seq<nat>, hint: nat, cur: nat)
    requires HintOk(g, links, hint) && ValidCluster(g, cur)
    ensures HintOk(g, links[cur := 0], if cur < hint then cur else hint)
  {
  }

  /** One step of freeing: frees `cur` and yields the link it had. */
  method FreeOne(fs: Fat32, cur: nat) returns (ok: bool, next: nat)
    requires fs.Valid() && ValidCluster(fs.g, cur)
    modifies fs`ageCounter, fs`links, fs`agree, fs`lowest, fs`allocHint, fs.dev, fs.dataCache, fs.fatCache
    ensures fs.Valid() && fs.dev.faults >= old(fs.dev.faults)
    ensures ok || (fs.dev.canWrite && fs.dev.faults == old(fs.dev.faults) && LinksOk(fs.g, old(fs.links))) ==>
              fs.Steady(old(fs.agree), old(fs.lowest))
    ensures ok ==> next == old(fs.links)[cur] && fs.links == old(fs.links)[cur := 0]
    ensures !ok && fs.dev.canWrite && LinksOk(fs.g, old(fs.links)) ==> fs.dev.faults > old(fs.dev.faults)
  {
    ok, next := fs.NextCluster(cur);
    if !ok { return; }
    ghost var links, hint, low := fs.links, fs.allocHint, fs.lowest;
    ok := fs.SetClusterValue(cur, 0);
    if !ok { return; }
    if !ValidCluster(fs.g, fs.allocHint) || cur < fs.allocHint {
      fs.allocHint := cur;
    }
    if low {
      HintAfterFree(fs.g, links, hint, cur);
      fs.lowest := true;
    }
  }

  /** Frees what the links reach from `first`; terminates on any link contents, cyclic ones included. */
  method FreeChain(fs: Fat32, first: nat) returns (ok: bool)
    requires fs.Valid()
    modifies fs`ageCounter, fs`links, fs`agree, fs`lowest, fs`allocHint, fs.dev, fs.dataCache, fs.fatCache
    ensures fs.Valid() && fs.dev.faults >= old(fs.dev.faults)
    ensures ok || (fs.dev.canWrite && fs.dev.faults == old(fs.dev.faults) && LinksOk(fs.g, old(fs.links))) ==>
              fs.Steady(old(fs.agree), old(fs.lowest))
    ensures ok ==> fs.links == Freed(fs.g, old(fs.links), first)
    ensures !ok && fs.dev.canWrite && LinksOk(fs.g, old(fs.links)) ==> fs.dev.faults > old(fs.dev.faults)
  {
    var cur: nat := first;
    while ValidCluster(fs.g, cur) && cur < EOC
      invariant fs.Valid() && fs.dev.faults >= old(fs.dev.faults)
      invariant Freed(fs.g, fs.links, cur) == Freed(fs.g, old(fs.links), first)
      invariant fs.Steady(old(fs.agree), old(fs.lowest))
      invariant LinksOk(fs.g, old(fs.links)) ==> LinksOk(fs.g, fs.links)
      decreases NonZero(fs.links), if ValidCluster(fs.g, cur) then 1 else 0
    {
      var next;
      ghost var before := fs.links;
      ok, next := FreeOne(fs, cur);
      if !ok { return; }
      assert NonZero(fs.links) == NonZero(before) - {cur};
      if next >= EOC { break; }
      cur := next;
    }
    ok := true;
  }

  // ---- Allocating ----

  ghost function ZeroCluster(spc: nat): seq<Sector> { seq(spc, _ => ZeroSector()) }

  /** Clears the sectors of a cluster. */
  method ClearCluster(fs: Fat32, c: nat) returns (ok: bool)
    requires fs.Valid() && ValidCluster(fs.g, c)
    modifies fs`ageCounter, fs`clusters, fs.dev, fs.dataCache, fs.fatCache
    ensures fs.Valid() && fs.dev.faults >= old(fs.dev.faults)
    ensures ok ==> fs.clusters == old(fs.clusters)[c := ZeroCluster(fs.g.spc)]
    ensures !ok && fs.dev.canWrite ==> fs.dev.faults > old(fs.dev.faults)
  {
    var zero := ZeroSector();
    for s := 0 to fs.g.spc
      invariant fs.Valid() && fs.dev.faults >= old(fs.dev.faults)
      invariant forall c' :: 0 <= c' <= fs.g.max && c' != c ==> fs.clusters[c'] == old(fs.clusters)[c']
      invariant forall k :: 0 <= k < s ==> fs.clusters[c][k] == zero
    {
      ok := fs.WriteDataSector(DataLba(fs.g, c, s), zero, c, s);
      if !ok { return; }
    }
    assert fs.clusters[c] == ZeroCluster(fs.g.spc);
    ok := true;
  }

  /** Marks cluster c as the end of a chain and clears its sectors. */
  method TakeCluster(fs: Fat32, c: nat, ghost low: bool) returns (ok: bool)
    requires fs.Valid() && ValidCluster(fs.g, c) && (low ==> forall c' :: 2 <= c' < c ==> fs.links[c'] != 0)
    modifies fs`ageCounter, fs`links, fs`agree, fs`lowest, fs`clusters, fs`allocHint, fs.dev, fs.dataCache, fs.fatCache
    ensures fs.Valid() && fs.dev.faults >= old(fs.dev.faults)
    ensures ok ==> (old(fs.agree) ==> fs.agree) && fs.lowest == low
    ensures ok ==> fs.links == old(fs.links)[c := END_MARK]
    ensures ok ==> fs.clusters == old(fs.clusters)[c := ZeroCluster(fs.g.spc)]
    ensures ok ==> fs.allocHint == if c < fs.g.max then c + 1 else 2
    ensures !ok && fs.dev.canWrite ==> fs.dev.faults > old(fs.dev.faults)
  {
    ok := fs.SetClusterValue(c, END_MARK);
    if !ok { return; }
    ok := ClearCluster(fs, c);
    if !ok { return; }
    fs.allocHint := if c < fs.g.max then c + 1 else 2;
    fs.lowest := low;
  }

  /** The clusters from lo (inclusive) to hi (exclusive): takes the first free one, if any. `low` says that none
      below lo is free. */
  method Sweep(fs: Fat32, lo: nat, hi: nat, ghost low: bool) returns (ok: bool, found: bool, out: nat)
    requires fs.Valid() && 2 <= lo && hi <= fs.g.max + 1 &&
             (low ==> forall c :: 2 <= c < lo && c <= fs.g.max ==> fs.links[c] != 0)
    modifies fs`ageCounter, fs`links, fs`agree, fs`lowest, fs`clusters, fs`allocHint, fs.dev, fs.dataCache, fs.fatCache
    ensures fs.Valid() && fs.dev.faults >= old(fs.dev.faults)
    ensures ok ==> (old(fs.agree) ==> fs.agree) && fs.lowest == if found then low else old(fs.lowest)
    ensures ok && !found ==> fs.links == old(fs.links) && fs.clusters == old(fs.clusters) &&
                             fs.allocHint == old(fs.allocHint) && forall c :: lo <= c < hi ==> fs.links[c] != 0
    ensures ok && found ==> lo <= out < hi && old(fs.links)[out] == 0 &&
                            (forall c :: lo <= c < out ==> old(fs.links)[c] != 0) &&
                            fs.links == old(fs.links)[out := END_MARK] &&
                            fs.clusters == old(fs.clusters)[out := ZeroCluster(fs.g.spc)] &&
                            fs.allocHint == if out < fs.g.max then out + 1 else 2
    ensures !ok && fs.dev.canWrite && LinksOk(fs.g, old(fs.links)) ==> fs.dev.faults > old(fs.dev.faults)
  {
    var c := lo;
    found, out := false, 0;
    while c < hi
      invariant fs.Valid() && fs.dev.faults >= old(fs.dev.faults)
      invariant lo <= c && forall c' :: lo <= c' < c && c' < hi ==> fs.links[c'] != 0
      invariant fs.links == old(fs.links) && fs.clusters == old(fs.clusters) && fs.allocHint == old(fs.allocHint)
      invariant fs.agree == old(fs.agree) && fs.lowest == old(fs.lowest)
    {
      var val;
      ok, val := fs.NextCluster(c);
      if !ok { return; }
      if val == 0 {
        ok := TakeCluster(fs, c, low);
        return ok, true, c;
      }
      c := c + 1;
    }
    ok := true;
  }

  lemma LowTaken(g: Geometry, links: seq<nat>, hint: nat)
    requires HintOk(g, links, hint)
    ensures forall c :: 2 <= c < hint ==> links[c] != 0
  {
    forall c | 2 <= c < hint ensures links[c] != 0 { assert Below(c); }
  }

  /** Takes the first free cluster at or after the hint, or else the first one below it. With no free cluster
      below the hint this is the lowest-numbered free cluster of the volume, found by the first sweep. */
  method AllocCluster(fs: Fat32) returns (ok: bool, out: nat)
    requires fs.Valid()
    modifies fs`ageCounter, fs`links, fs`agree, fs`lowest, fs`clusters, fs`allocHint, fs.dev, fs.dataCache, fs.fatCache
    ensures fs.Valid() && fs.dev.faults >= old(fs.dev.faults)
    ensures ok || (fs.dev.canWrite && fs.dev.faults == old(fs.dev.faults) && LinksOk(fs.g, old(fs.links))) ==>
              fs.Steady(old(fs.agree), old(fs.lowest))
    ensures ok ==> ValidCluster(fs.g, out) && old(fs.links)[out] == 0 &&
                   fs.links == old(fs.links)[out := END_MARK] &&
                   fs.clusters == old(fs.clusters)[out := ZeroCluster(fs.g.spc)]
    ensures ok && old(fs.lowest) ==> out >= old(fs.allocHint) && forall c :: 2 <= c < out ==> old(fs.links)[c] != 0
    ensures !ok && fs.dev.canWrite && LinksOk(fs.g, old(fs.links)) ==>
              fs.dev.faults > old(fs.dev.faults) ||
              (FreeSet(old(fs.links)) == {} && fs.links == old(fs.links) && fs.clusters == old(fs.clusters) &&
               fs.allocHint == old(fs.allocHint))
  {
    var start := fs.allocHint;
    if !ValidCluster(fs.g, start) { start := 2; }
    var found;
    if fs.lowest { LowTaken(fs.g, fs.links, fs.allocHint); }
    ok, found, out := Sweep(fs, start, fs.g.max + 1, start == 2 || fs.lowest);
    if !ok || found { return; }
    ok, found, out := Sweep(fs, 2, start, true);
    if ok && !found { ok := false; }
  }
}
