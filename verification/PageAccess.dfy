/** What the flags along a path of page tables let through, and which changes keep it. */
module PageAccess {
  import opened Options
  import opened PageEntries
  import opened PageTables

  // ---- What a path lets through ----

  ghost predicate Flagged(x: bool) { true }

  /** A present entry that has all of these flags. Stated, like `Gained`, behind a quantifier so that only proofs that
      mention `Flagged` see the bits. */
  ghost predicate Has(e: Entry, flags: bv12) {
    forall x {:trigger Flagged(x)} :: Flagged(x) ==> Present(e) && e.low & flags == flags
  }

  /** Every entry on the way has all of these flags; for a page, down to its last-level entry. */
  ghost predicate Lets(m: Memory, root: nat, p: Path, flags: bv12)
    decreases |p|
  {
    |p| == 0 ||
      (&& EntryAt(m, root, p[..|p| - 1], p[|p| - 1]).Some?
       && Has(EntryAt(m, root, p[..|p| - 1], p[|p| - 1]).value, flags) && Lets(m, root, p[..|p| - 1], flags))
  }

  /** The flags that the tables above a page are asked to pass on. */
  function Passed(low: bv12): bv12 { low & (USER | WRITABLE) }

  /** An entry that has gained at most user access and writing; one at the last level is as it was. */
  ghost predicate Gained(e: Entry, e': Entry, last: bool) {
    forall x {:trigger Flagged(x)} :: Flagged(x) ==> GainedFacts(e, e', last)
  }

  predicate GainedFacts(e: Entry, e': Entry, last: bool) {
    && e'.frame == e.frame && e'.high == e.high && (last ==> e' == e)
    && e'.low & e.low == e.low && e'.low & !(USER | WRITABLE) == e.low & !(USER | WRITABLE)
  }

  ghost predicate Watched(x: bool) { true }

  /** No entry in use has lost a flag, nor gained any but user access and writing, nor come to lead elsewhere; only the
      entry that the path `but` ends in may have changed in other ways. */
  ghost predicate KeepsBut(m: Memory, m': Memory, root: nat, but: Path) {
    forall x {:trigger Watched(x)} :: Watched(x) ==> KeepsFacts(m, m', root, but)
  }

  ghost predicate KeepsFacts(m: Memory, m': Memory, root: nat, but: Path) {
    forall p: Path, i: nat {:trigger EntryAt(m, root, p, i)} {:trigger EntryAt(m', root, p, i)} ::
      |p| <= 3 && EntryAt(m, root, p, i).Some? && Present(EntryAt(m, root, p, i).value) && !EndsIn(but, p, i) ==>
        EntryAt(m', root, p, i).Some? &&
        Gained(EntryAt(m, root, p, i).value, EntryAt(m', root, p, i).value, |p| == 3)
  }

  predicate EndsIn(path: Path, p: Path, i: nat) { |path| == |p| + 1 && path[..|p|] == p && path[|p|] == i }

  lemma GainedTrans(e: Entry, e1: Entry, e2: Entry, last: bool)
    requires Gained(e, e1, last) && Gained(e1, e2, last)
    ensures Gained(e, e2, last)
  {
    assert Flagged(true);
  }

  lemma GainedPresent(e: Entry, e': Entry, last: bool)
    requires Gained(e, e', last)
    ensures Present(e) ==> Present(e')
    ensures forall flags: bv12 :: Has(e, flags) ==> Has(e', flags)
  {
    GainedIncludes(e, e', last);
    forall flags: bv12 | Has(e, flags) ensures Has(e', flags) {
      HasIncludes(e, flags);
      IncludesTrans(e'.low, e.low, flags);
      IncludesTrans(e'.low, e.low, PRESENT);
      HasIncludes(e', flags);
    }
  }

  /** All of some flags are among others. Stated behind a quantifier, as above. */
  ghost predicate Includes(b: bv12, a: bv12) { forall x {:trigger Flagged(x)} :: Flagged(x) ==> b & a == a }

  lemma IncludesTrans(c: bv12, b: bv12, a: bv12)
    requires Includes(c, b) && Includes(b, a)
    ensures Includes(c, a)
  {
    assert Flagged(true);
    FlagsStay(b, c, a);
  }

  lemma HasIncludes(e: Entry, flags: bv12)
    ensures Has(e, flags) <==> Includes(e.low, flags) && Includes(e.low, PRESENT)
  {
    assert Flagged(true);
  }

  lemma GainedIncludes(e: Entry, e': Entry, last: bool)
    requires Gained(e, e', last)
    ensures Includes(e'.low, e.low) && (Present(e) ==> Present(e'))
  {
    assert Flagged(true);
    if Present(e) { PresentStays(e.low, e'.low); }
  }

  lemma PresentStays(a: bv12, b: bv12)
    requires b & a == a && a & PRESENT != 0
    ensures b & PRESENT != 0
  {
  }

  lemma KeepsSame(m: Memory, root: nat, but: Path)
    ensures KeepsBut(m, m, root, but)
  {
    EntrySame();
  }

  lemma KeepsTrans(m: Memory, m1: Memory, m2: Memory, root: nat, but: Path)
    requires KeepsBut(m, m1, root, but) && KeepsBut(m1, m2, root, but)
    ensures KeepsBut(m, m2, root, but)
  {
    assert Watched(true);
    forall p: Path, i: nat |
      |p| <= 3 && EntryAt(m, root, p, i).Some? && Present(EntryAt(m, root, p, i).value) && !EndsIn(but, p, i)
      ensures EntryAt(m2, root, p, i).Some? &&
              Gained(EntryAt(m, root, p, i).value, EntryAt(m2, root, p, i).value, |p| == 3)
    {
      GainedPresent(EntryAt(m, root, p, i).value, EntryAt(m1, root, p, i).value, |p| == 3);
      GainedTrans(EntryAt(m, root, p, i).value, EntryAt(m1, root, p, i).value, EntryAt(m2, root, p, i).value, |p| == 3);
    }
  }

  lemma KeepsMore(m: Memory, m': Memory, root: nat, but: Path)
    requires KeepsBut(m, m', root, [])
    ensures KeepsBut(m, m', root, but)
  {
    assert Watched(true);
  }

  /** What was let through still is, but on the way through the entry excepted. */
  lemma {:induction false} LetsKept(m: Memory, m': Memory, root: nat, but: Path, p: Path, flags: bv12)
    requires KeepsBut(m, m', root, but) && Lets(m, root, p, flags) && |p| <= 4 && (|but| > 0 ==> !(but <= p))
    ensures Lets(m', root, p, flags)
    decreases |p|
  {
    assert Watched(true);
    if |p| > 0 {
      var q, i := p[..|p| - 1], p[|p| - 1];
      assert q + [i] == p;
      assert EndsIn(but, q, i) ==> but == q + [i];
      LetsKept(m, m', root, but, q, flags);
      var e := EntryAt(m, root, q, i).value;
      HasPresent(e, flags);
      GainedPresent(e, EntryAt(m', root, q, i).value, |q| == 3);
    }
  }

  lemma HasPresent(e: Entry, flags: bv12)
    requires Has(e, flags)
    ensures Present(e)
  {
    assert Flagged(true);
  }

  lemma FlagsStay(a: bv12, b: bv12, flags: bv12)
    requires b & a == a && a & flags == flags
    ensures b & flags == flags
  {
  }

  // ---- The same, entry by entry ----

  /** Entry k on a way that lets flags through has them. */
  lemma {:induction false} LetsEntry(m: Memory, root: nat, p: Path, flags: bv12, k: nat)
    requires Lets(m, root, p, flags) && k < |p|
    ensures EntryAt(m, root, p[..k], p[k]).Some?
    ensures var low := EntryAt(m, root, p[..k], p[k]).value.low; low & 1 != 0 && low & flags == flags
    decreases |p|
  {
    assert Flagged(true);
    var q := p[..|p| - 1];
    if k < |q| {
      LetsEntry(m, root, q, flags, k);
      assert q[..k] == p[..k];
    }
  }

  /** The other way round. */
  lemma {:induction false} EntriesLet(m: Memory, root: nat, p: Path, flags: bv12)
    requires forall k {:trigger p[k]} :: 0 <= k < |p| ==>
               EntryAt(m, root, p[..k], p[k]).Some? && Has(EntryAt(m, root, p[..k], p[k]).value, flags)
    ensures Lets(m, root, p, flags)
    decreases |p|
  {
    if |p| > 0 {
      var q := p[..|p| - 1];
      assert p[|p| - 1] == p[|p| - 1];
      forall k {:trigger q[k]} | 0 <= k < |q|
        ensures EntryAt(m, root, q[..k], q[k]).Some? && Has(EntryAt(m, root, q[..k], q[k]).value, flags)
      {
        assert q[..k] == p[..k] && q[k] == p[k];
      }
      EntriesLet(m, root, q, flags);
    }
  }

  /** What became of an entry in use. */
  lemma KeptEntry(m: Memory, m': Memory, root: nat, but: Path, p: Path, i: nat)
    requires KeepsBut(m, m', root, but) && |p| <= 3 && !EndsIn(but, p, i)
    requires EntryAt(m, root, p, i).Some? && EntryAt(m, root, p, i).value.low & 1 != 0
    ensures EntryAt(m', root, p, i).Some?
    ensures var e, e' := EntryAt(m, root, p, i).value, EntryAt(m', root, p, i).value;
            && e'.frame == e.frame && e'.high == e.high && (|p| == 3 ==> e' == e)
            && (e'.low == e.low || e'.low == e.low | 2 || e'.low == e.low | 4 || e'.low == e.low | 6)
  {
    assert Watched(true) && Flagged(true);
    GainedBits(EntryAt(m, root, p, i).value.low, EntryAt(m', root, p, i).value.low);
  }

  lemma GainedBits(a: bv12, b: bv12)
    requires b & a == a && b & !(USER | WRITABLE) == a & !(USER | WRITABLE)
    ensures b == a || b == a | 2 || b == a | 4 || b == a | 6
  {
  }

  /** A page mapped with some flags can be used in user mode exactly when they ask for it, and written likewise. */
  lemma AccessAsked(m: Memory, root: nat, p: Path, low: bv12, nx: bool, f: nat)
    requires |p| == 4 && Lets(m, root, p, Passed(low)) && EntryAt(m, root, p[..3], p[3]) == Some(LeafEntry(f, low, nx))
    ensures Lets(m, root, p, 4) <==> low & 4 != 0
    ensures Lets(m, root, p, 2) <==> low & 2 != 0
  {
    AskedFlag(m, root, p, low, nx, f, 4);
    AskedFlag(m, root, p, low, nx, f, 2);
  }

  lemma AskedFlag(m: Memory, root: nat, p: Path, low: bv12, nx: bool, f: nat, flag: bv12)
    requires |p| == 4 && Lets(m, root, p, Passed(low)) && EntryAt(m, root, p[..3], p[3]) == Some(LeafEntry(f, low, nx))
    requires flag == 4 || flag == 2
    ensures Lets(m, root, p, flag) <==> low & flag != 0
  {
    if Lets(m, root, p, flag) {
      LetsEntry(m, root, p, flag, 3);
      LeafFlag(low, flag);
    }
    if low & flag != 0 {
      forall k {:trigger p[k]} | 0 <= k < 4
        ensures EntryAt(m, root, p[..k], p[k]).Some? && Has(EntryAt(m, root, p[..k], p[k]).value, flag)
      {
        LetsEntry(m, root, p, Passed(low), k);
        FewerFlags(EntryAt(m, root, p[..k], p[k]).value.low, low, flag);
      }
      EntriesLet(m, root, p, flag);
    }
  }

  lemma LeafFlag(low: bv12, flag: bv12)
    requires flag == 4 || flag == 2
    ensures (low | PRESENT) & flag == low & flag
  {
  }

  lemma FewerFlags(e: bv12, low: bv12, flag: bv12)
    requires e & Passed(low) == Passed(low) && (flag == 4 || flag == 2) && low & flag != 0
    ensures e & flag == flag
  {
  }

  lemma {:induction false} LetsLess(m: Memory, root: nat, p: Path, flags: bv12, fewer: bv12)
    requires Lets(m, root, p, flags) && flags & fewer == fewer
    ensures Lets(m, root, p, fewer)
    decreases |p|
  {
    if |p| > 0 {
      HasLess(EntryAt(m, root, p[..|p| - 1], p[|p| - 1]).value, flags, fewer);
      LetsLess(m, root, p[..|p| - 1], flags, fewer);
    }
  }

  lemma HasLess(e: Entry, flags: bv12, fewer: bv12)
    requires Has(e, flags) && flags & fewer == fewer
    ensures Has(e, fewer)
  {
    assert Flagged(true);
  }

  // ---- The kinds of change ----

  /** Widening an entry that points to a table. */
  lemma FlagsKeep(m: Memory, root: nat, free: set<nat>, p0: Path, t: nat, i: nat, e': Entry)
    requires TreeOk(m, root, free) && At(m, root, p0, t) && t < |m| && i < 512 && |p0| < 3
    requires SameTarget(m[t][i], e') && Gained(m[t][i], e', false)
    ensures KeepsBut(m, Poke(m, t, i, e'), root, []) && EntryAt(Poke(m, t, i, e'), root, p0, i) == Some(e')
  {
    var m' := Poke(m, t, i, e');
    PokedChanged(m, root, p0, t, i, e');
    TableFrame(m, root, free, p0, t);
    EntrySame();
    forall p: Path, k: nat | |p| <= 3
      ensures EntryAt(m', root, p, k) == if p == p0 && k == i then Some(e') else EntryAt(m, root, p, k)
    {
      EntryStays(m, m', root, free, p0, t, i, e', p, k);
    }
  }

  lemma EntrySame()
    ensures forall e: Entry, last: bool :: Gained(e, e, last)
  {
    forall e: Entry, last: bool ensures Gained(e, e, last) { SelfGained(e, last); }
  }

  lemma SelfGained(e: Entry, last: bool)
    ensures Gained(e, e, last)
  {
  }

  lemma WidenedEntry(e: Entry, low: bv12)
    ensures var e' := e.(low := e.low | Passed(low));
            SameTarget(e, e') && Gained(e, e', false) && (Present(e) ==> Has(e', Passed(low)))
  {
    WidenedBits(e.low, low);
  }

  lemma WidenedBits(e: bv12, low: bv12)
    ensures var w := e | Passed(low);
            && w & e == e && w & !(USER | WRITABLE) == e & !(USER | WRITABLE) && w & Passed(low) == Passed(low)
            && w & PRESENT == e & PRESENT && w & HUGE == e & HUGE
  {
  }

  /** Writing a last-level entry. */
  lemma LeafKeeps(m: Memory, root: nat, free: set<nat>, page: Path, t: nat, e: Entry)
    requires TreeOk(m, root, free) && |page| == 4 && At(m, root, page[..3], t) && t < |m| && page[3] < 512
    ensures var m' := Poke(m, t, page[3], e);
            && KeepsBut(m, m', root, page) && (!Present(m[t][page[3]]) ==> KeepsBut(m, m', root, []))
            && EntryAt(m', root, page[..3], page[3]) == Some(e)
  {
    var m' := Poke(m, t, page[3], e);
    PokedChanged(m, root, page[..3], t, page[3], e);
    forall p: Path, k: nat | |p| <= 3
      ensures EntryAt(m', root, p, k) == if p == page[..3] && k == page[3] then Some(e) else EntryAt(m, root, p, k)
    {
      EntryStays(m, m', root, free, page[..3], t, page[3], e, p, k);
    }
    TableFrame(m, root, free, page[..3], t);
    EntrySame();
  }

  /** Installing a table where there was nothing. */
  lemma TableKeeps(m: Memory, root: nat, free: set<nat>, p0: Path, t: nat, i: nat, f: nat)
    requires TreeOk(m, root, free) && At(m, root, p0, t) && t < |m| && i < 512 && |p0| < 3 && f in free && f < |m|
    requires !Present(m[t][i])
    ensures KeepsBut(m, Poke(m[f := ZeroFrame()], t, i, TableEntry(f)), root, [])
  {
    assert Opened(true);
    var m' := Poke(m[f := ZeroFrame()], t, i, TableEntry(f));
    assert Added(m, m', root, free, p0, t, i, f);
    NoTableThere(m, m', root, free, p0, t, i, f);
    EntrySame();
    forall p: Path, k: nat | |p| <= 3 && EntryAt(m, root, p, k).Some? && Present(EntryAt(m, root, p, k).value)
      ensures EntryAt(m', root, p, k) == EntryAt(m, root, p, k)
    {
      AddedEntry(m, m', root, free, p0, t, i, f, p, k);
    }
  }

  /** Replacing a 2 MiB page by a table: its 512 pages get entries of their own, and no other entry changes. */
  lemma SplitKeeps(m: Memory, root: nat, free: set<nat>, p0: Path, t: nat, i: nat, f: nat)
    requires TreeOk(m, root, free) && At(m, root, p0, t) && t < |m| && i < 512 && |p0| == 2 && f in free && f < |m|
    requires Present(m[t][i]) && Huge(m[t][i])
    ensures var m' := Poke(m[f := SplitFrame(m[t][i])], t, i, TableEntry(f));
            && KeepsBut(m, m', root, p0 + [i]) && EntryAt(m', root, p0, i) == Some(TableEntry(f))
            && forall k: nat {:trigger EntryAt(m', root, p0 + [i], k)} :: k < 512 ==>
                 EntryAt(m', root, p0 + [i], k) == Some(SplitEntry(m[t][i], k))
  {
    assert Opened(true);
    var m' := Poke(m[f := SplitFrame(m[t][i])], t, i, TableEntry(f));
    assert Added(m, m', root, free, p0, t, i, f);
    NoTableThere(m, m', root, free, p0, t, i, f);
    EntrySame();
    var q := p0 + [i];
    assert EndsIn(q, p0, i);
    forall p: Path, k: nat | |p| <= 3 && EntryAt(m, root, p, k).Some? && !EndsIn(q, p, k)
      ensures EntryAt(m', root, p, k) == EntryAt(m, root, p, k)
    {
      AddedEntry(m, m', root, free, p0, t, i, f, p, k);
    }
    AddedEntry(m, m', root, free, p0, t, i, f, p0, i);
    forall k: nat | k < 512 ensures EntryAt(m', root, q, k) == Some(SplitEntry(m[t][i], k)) {
      AddedEntry(m, m', root, free, p0, t, i, f, q, k);
    }
  }
}
