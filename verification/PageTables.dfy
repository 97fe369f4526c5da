/** Page tables as a tree inside physical frames, and the address translation it stands for. */
module PageTables {
  import opened Options
  import opened PageEntries

  type Frame = s: seq<Entry> | |s| == 512 witness seq(512, _ => EMPTY)
  type Memory = seq<Frame>

  /** The table indices on the way from the root: none for the root table, three for a last-level table, four for a
      page. */
  type Path = seq<nat>

  function ZeroFrame(): Frame { seq(512, _ => EMPTY) }

  function SetEntry(f: Frame, i: nat, e: Entry): Frame
    requires i < 512
  {
    f[i := e]
  }

  function Poke(m: Memory, t: nat, i: nat, e: Entry): Memory
    requires t < |m| && i < 512
  {
    m[t := SetEntry(m[t], i, e)]
  }

  /** The frame of the table at a path of at most three indices. */
  ghost function Table(m: Memory, root: nat, p: Path): Option<nat>
    decreases |p|, 0
  {
    if |p| == 0 then Some(root)
    else match EntryAt(m, root, p[..|p| - 1], p[|p| - 1])
      case None => None
      case Some(e) => if Present(e) && !(|p| == 3 && Huge(e)) then Some(e.frame) else None
  }

  /** Entry i of the table at a path. */
  ghost function EntryAt(m: Memory, root: nat, p: Path, i: nat): Option<Entry>
    decreases |p|, 1
  {
    match Table(m, root, p)
    case None => None
    case Some(t) => if t < |m| && i < 512 then Some(m[t][i]) else None
  }

  /** The frame a page (a path of four indices) is mapped to: by a last-level entry, or inside a 2 MiB page. */
  ghost function Translate(m: Memory, root: nat, p: Path): Option<nat>
    requires |p| == 4
  {
    match EntryAt(m, root, p[..3], p[3])
    case Some(e) => if Present(e) then Some(e.frame) else None
    case None =>
      match EntryAt(m, root, p[..2], p[2])
      case None => None
      case Some(e) => if Present(e) && Huge(e) && p[3] < 512 then Some(LargeFrame(e.frame) + p[3]) else None
  }

  ghost predicate SameTranslation(m: Memory, m': Memory, root: nat) {
    forall p: Path {:trigger Translate(m', root, p)} :: |p| == 4 ==> Translate(m', root, p) == Translate(m, root, p)
  }

  /** One page, and no other, has come to be mapped to a frame, or to nothing. */
  ghost predicate Remapped(m: Memory, m': Memory, root: nat, page: Path, f: Option<nat>)
    requires |page| == 4
  {
    && Translate(m', root, page) == f
    && forall p: Path {:trigger Translate(m', root, p)} :: |p| == 4 && p != page ==>
       Translate(m', root, p) == Translate(m, root, p)
  }

  /** One step of the walk. */
  lemma Walk(m: Memory, root: nat, p: Path, k: nat)
    requires k < |p|
    ensures Table(m, root, p[..k + 1]) ==
            match EntryAt(m, root, p[..k], p[k])
            case None => None
            case Some(e) => if Present(e) && !(k == 2 && Huge(e)) then Some(e.frame) else None
  {
    assert p[..k + 1][..k] == p[..k];
  }

  ghost predicate At(m: Memory, root: nat, p: Path, t: nat) { |p| <= 3 && Table(m, root, p) == Some(t) }

  ghost predicate Opened(x: bool) { true }

  /** Tables lie in distinct frames that are in use, and only the third level has 2 MiB entries. Stated, like `Grown`,
      behind a quantifier so that only proofs that mention `Opened` see through it. */
  ghost predicate TreeOk(m: Memory, root: nat, free: set<nat>) {
    forall x {:trigger Opened(x)} :: Opened(x) ==> TreeFacts(m, root, free)
  }

  ghost predicate TreeFacts(m: Memory, root: nat, free: set<nat>) {
    && (forall p: Path, t: nat {:trigger At(m, root, p, t)} :: At(m, root, p, t) ==> t < |m| && t !in free)
    && (forall p: Path, q: Path, t: nat {:trigger At(m, root, p, t), At(m, root, q, t)} ::
         At(m, root, p, t) && At(m, root, q, t) ==> p == q)
    && (forall p: Path, i: nat {:trigger EntryAt(m, root, p, i)} ::
          |p| < 2 && EntryAt(m, root, p, i).Some? && Present(EntryAt(m, root, p, i).value) ==>
              !Huge(EntryAt(m, root, p, i).value))
  }

  ghost predicate IsTable(m: Memory, root: nat, t: nat) { exists p: Path :: At(m, root, p, t) }

  // ---- What changing one entry does ----

  /** The table at p after entry i of the table at p0 (frame t) has become e and frame f has been filled. */
  ghost predicate Changed(m: Memory, m': Memory, root: nat, p0: Path, t: nat, i: nat, e: Entry) {
    && At(m, root, p0, t) && t < |m| && i < 512 && |m'| == |m| && m'[t] == SetEntry(m[t], i, e)
  }

  /** Other tables keep their frames. */
  ghost predicate OthersSame(m: Memory, m': Memory, root: nat, t: nat) {
    |m'| == |m| && forall q: Path, u: nat {:trigger At(m, root, q, u)} :: At(m, root, q, u) && u != t && u < |m| ==>
        m'[u] == m[u]
  }

  /** An entry whose target stays leaves every table where it is. */
  lemma {:induction false} TablesStay(m: Memory, m': Memory, root: nat, free: set<nat>, p0: Path, t: nat, i: nat,
                                      e: Entry, p: Path)
    requires TreeOk(m, root, free) && Changed(m, m', root, p0, t, i, e) && OthersSame(m, m', root, t) && |p| <= 3
    requires |p0| == 3 || (e.frame == m[t][i].frame && Present(e) == Present(m[t][i]) && Huge(e) == Huge(m[t][i]))
    ensures Table(m', root, p) == Table(m, root, p)
    decreases |p|
  {
    assert Opened(true);
    if |p| > 0 {
      var q := p[..|p| - 1];
      TablesStay(m, m', root, free, p0, t, i, e, q);
      if Table(m, root, q).Some? {
        var u := Table(m, root, q).value;
        assert At(m, root, q, u);
        if u == t { assert At(m, root, p0, t) && q == p0; }
      }
    }
  }

  /** Filling an absent entry with a new table, whose frame f no table uses, adds that table and no other. */
  lemma {:induction false} TableAdded(m: Memory, m': Memory, root: nat, free: set<nat>, p0: Path, t: nat, i: nat,
                                      f: nat, p: Path)
    requires TreeOk(m, root, free) && Changed(m, m', root, p0, t, i, TableEntry(f)) &&
             OthersSame(m, m', root, t) && |p| <= 3
    requires |p0| < 3 && f in free && f < |m| && (Present(m[t][i]) ==> |p0| == 2 && Huge(m[t][i]))
    requires |p0| < 2 ==> m'[f] == ZeroFrame()
    ensures Table(m', root, p) == if p == p0 + [i] then Some(f) else Table(m, root, p)
    decreases |p|
  {
    assert Opened(true);
    if |p| > 0 {
      var q, k := p[..|p| - 1], p[|p| - 1];
      assert p == q + [k];
      TableAdded(m, m', root, free, p0, t, i, f, q);
      if q == p0 + [i] {
        assert q[..|q| - 1] == p0 && q[|q| - 1] == i;
        assert EntryAt(m, root, p0, i) == Some(m[t][i]);
      } else if Table(m, root, q).Some? {
        var u := Table(m, root, q).value;
        assert At(m, root, q, u) && u != f;
        if u == t { assert At(m, root, p0, t) && q == p0; }
      }
    }
  }

  /** The entry at t changes into one with the same target. */
  ghost predicate SameTarget(e: Entry, e': Entry) {
    e'.frame == e.frame && Present(e') == Present(e) && Huge(e') == Huge(e)
  }

  /** Changing flags that translation does not look at moves no address. */
  lemma FlagsTranslate(m: Memory, m': Memory, root: nat, free: set<nat>, p0: Path, t: nat, i: nat, e: Entry, p: Path)
    requires TreeOk(m, root, free) && Changed(m, m', root, p0, t, i, e) && OthersSame(m, m', root, t) && |p| == 4
    requires SameTarget(m[t][i], e)
    ensures Translate(m', root, p) == Translate(m, root, p)
  {
    assert Opened(true);
    EntryStays(m, m', root, free, p0, t, i, e, p[..3], p[3]);
    EntryStays(m, m', root, free, p0, t, i, e, p[..2], p[2]);
  }

  lemma EntryStays(m: Memory, m': Memory, root: nat, free: set<nat>, p0: Path, t: nat, i: nat, e: Entry, p: Path,
                   k: nat)
    requires TreeOk(m, root, free) && Changed(m, m', root, p0, t, i, e) && OthersSame(m, m', root, t) && |p| <= 3
    requires |p0| == 3 || SameTarget(m[t][i], e)
    ensures EntryAt(m', root, p, k) == if p == p0 && k == i then Some(e) else EntryAt(m, root, p, k)
  {
    assert Opened(true);
    TablesStay(m, m', root, free, p0, t, i, e, p);
    if Table(m, root, p).Some? {
      var u := Table(m, root, p).value;
      assert At(m, root, p, u);
      if u == t { assert At(m, root, p0, t) && p == p0; }
    }
  }

  /** Changing a last-level entry changes the translation of its page and of no other. */
  lemma LeafTranslate(m: Memory, m': Memory, root: nat, free: set<nat>, p0: Path, t: nat, i: nat, e: Entry, p: Path)
    requires TreeOk(m, root, free) && Changed(m, m', root, p0, t, i, e) && OthersSame(m, m', root, t) &&
             |p| == 4 && |p0| == 3
    ensures Translate(m', root, p) ==
            if p == p0 + [i] then if Present(e) then Some(e.frame) else None else Translate(m, root, p)
  {
    assert Opened(true);
    EntryStays(m, m', root, free, p0, t, i, e, p[..3], p[3]);
    EntryStays(m, m', root, free, p0, t, i, e, p[..2], p[2]);
    assert p == p[..3] + [p[3]];
  }

  /** The tree stays sound. */
  lemma StaysOk(m: Memory, m': Memory, root: nat, free: set<nat>, p0: Path, t: nat, i: nat, e: Entry)
    requires TreeOk(m, root, free) && Changed(m, m', root, p0, t, i, e) && OthersSame(m, m', root, t)
    requires |p0| == 3 || SameTarget(m[t][i], e)
    ensures TreeOk(m', root, free)
    ensures forall p: Path, u: nat :: At(m', root, p, u) == At(m, root, p, u)
  {
    assert Opened(true);
    forall p: Path, u: nat ensures At(m', root, p, u) == At(m, root, p, u) {
      if |p| <= 3 { TablesStay(m, m', root, free, p0, t, i, e, p); }
    }
    forall p: Path, k: nat | |p| < 2 && EntryAt(m', root, p, k).Some? && Present(EntryAt(m', root, p, k).value)
      ensures !Huge(EntryAt(m', root, p, k).value)
    {
      EntryStays(m, m', root, free, p0, t, i, e, p, k);
      assert EntryAt(m, root, p0, i) == Some(m[t][i]);
    }
  }

  /** From m to m' tables may have been added in frames that were free, and nothing else took a free frame; frames of
      data are as they were. */
  ghost predicate Grown(m: Memory, m': Memory, root: nat, free: set<nat>, free': set<nat>) {
    free' <= free && |m'| == |m| && forall x {:trigger Opened(x)} :: Opened(x) ==> GrownFacts(m, m', root, free, free')
  }

  ghost predicate GrownFacts(m: Memory, m': Memory, root: nat, free: set<nat>, free': set<nat>) {
    && free' <= free && |m'| == |m|
    && (forall p: Path, t: nat {:trigger At(m, root, p, t)} :: At(m, root, p, t) ==> At(m', root, p, t))
    && (forall p: Path, t: nat {:trigger At(m', root, p, t)} :: At(m', root, p, t) ==>
       At(m, root, p, t) || t in free - free')
    && (forall f: nat {:trigger IsTable(m', root, f)} :: f in free && f !in free' ==> IsTable(m', root, f))
    && (forall f: nat {:trigger m'[f]} :: f < |m| && f !in free && !IsTable(m, root, f) ==> m'[f] == m[f])
  }

  lemma GrownTrans(m: Memory, m1: Memory, m2: Memory, root: nat, free: set<nat>, free1: set<nat>, free2: set<nat>)
    requires Grown(m, m1, root, free, free1) && Grown(m1, m2, root, free1, free2)
    ensures Grown(m, m2, root, free, free2)
  {
    assert Opened(true);
    forall f: nat | f < |m| && f !in free && !IsTable(m, root, f) ensures m2[f] == m[f] {
      assert m1[f] == m[f];
    }
    forall f: nat | f in free && f !in free2 ensures IsTable(m2, root, f) {
      if f !in free1 {
        assert IsTable(m1, root, f);
        var p: Path :| At(m1, root, p, f);
        assert At(m2, root, p, f);
      }
    }
  }

  /** What adding a table in frame f comes to: one more table, every entry elsewhere as it was. */
  ghost predicate Added(m: Memory, m': Memory, root: nat, free: set<nat>, p0: Path, t: nat, i: nat, f: nat) {
    && TreeOk(m, root, free) && Changed(m, m', root, p0, t, i, TableEntry(f)) && |p0| < 3 && f in free && f < |m|
    && (Present(m[t][i]) ==> |p0| == 2 && Huge(m[t][i]))
    && (|p0| < 2 || !Present(m[t][i]) ==> m'[f] == ZeroFrame())
    && forall u: nat :: u < |m| && u != t && u != f ==> m'[u] == m[u]
  }

  lemma AddedTables(m: Memory, m': Memory, root: nat, free: set<nat>, p0: Path, t: nat, i: nat, f: nat, p: Path)
    requires Added(m, m', root, free, p0, t, i, f) && |p| <= 3
    ensures Table(m', root, p) == if p == p0 + [i] then Some(f) else Table(m, root, p)
  {
    assert Opened(true);
    TableAdded(m, m', root, free, p0, t, i, f, p);
  }

  lemma AddedEntry(m: Memory, m': Memory, root: nat, free: set<nat>, p0: Path, t: nat, i: nat, f: nat, p: Path, k: nat)
    requires Added(m, m', root, free, p0, t, i, f) && |p| <= 3
    ensures EntryAt(m', root, p, k) ==
            if p == p0 && k == i then Some(TableEntry(f))
            else if p == p0 + [i] then if k < 512 then Some(m'[f][k]) else None
            else EntryAt(m, root, p, k)
  {
    assert Opened(true);
    AddedTables(m, m', root, free, p0, t, i, f, p);
    if p != p0 + [i] && Table(m, root, p).Some? {
      var u := Table(m, root, p).value;
      assert At(m, root, p, u) && u != f;
      if u == t { assert At(m, root, p0, t) && p == p0; }
    }
  }

  lemma NoTableThere(m: Memory, m': Memory, root: nat, free: set<nat>, p0: Path, t: nat, i: nat, f: nat)
    requires Added(m, m', root, free, p0, t, i, f)
    ensures Table(m, root, p0 + [i]) == None && EntryAt(m, root, p0, i) == Some(m[t][i])
  {
    assert Opened(true);
    var p := p0 + [i];
    assert p[..|p| - 1] == p0 && p[|p| - 1] == i;
  }

  /** Adding an empty table where nothing was mapped moves no address. */
  lemma AddedTranslate(m: Memory, m': Memory, root: nat, free: set<nat>, p0: Path, t: nat, i: nat, f: nat, p: Path)
    requires Added(m, m', root, free, p0, t, i, f) && !Present(m[t][i]) && |p| == 4
    ensures Translate(m', root, p) == Translate(m, root, p)
  {
    assert Opened(true);
    NoTableThere(m, m', root, free, p0, t, i, f);
    AddedEntry(m, m', root, free, p0, t, i, f, p[..3], p[3]);
    AddedEntry(m, m', root, free, p0, t, i, f, p[..2], p[2]);
    assert p[..3] == p[..2] + [p[2]];
    if p[..3] == p0 + [i] { assert p[..2] == p0 && p[2] == i; }
  }

  /** The table that replaces a 2 MiB page: its 512 small pages, writable if it was. */
  function SplitFrame(e: Entry): Frame { seq(512, k requires 0 <= k < 512 => SplitEntry(e, k)) }

  function SplitEntry(e: Entry, k: nat): Entry { Entry(e.low & (PRESENT | WRITABLE), LargeFrame(e.frame) + k, 0) }

  /** Splitting a 2 MiB page moves no address. */
  lemma SplitTranslate(m: Memory, m': Memory, root: nat, free: set<nat>, p0: Path, t: nat, i: nat, f: nat, p: Path)
    requires Added(m, m', root, free, p0, t, i, f) && |p0| == 2 && Present(m[t][i]) && Huge(m[t][i]) && |p| == 4
    requires m'[f] == SplitFrame(m[t][i])
    ensures Translate(m', root, p) == Translate(m, root, p)
  {
    assert Opened(true);
    NoTableThere(m, m', root, free, p0, t, i, f);
    AddedEntry(m, m', root, free, p0, t, i, f, p[..3], p[3]);
    AddedEntry(m, m', root, free, p0, t, i, f, p[..2], p[2]);
    assert p[..3] == p[..2] + [p[2]];
    if p[..3] == p0 + [i] { assert p[..2] == p0 && p[2] == i; }
    SplitPresent(m[t][i].low);
  }

  lemma SplitPresent(low: bv12)
    ensures (low & (PRESENT | WRITABLE)) & PRESENT == low & PRESENT
  {
  }

  /** The tree with the added table is sound, and the table's frame is no longer free. */
  lemma AddedOk(m: Memory, m': Memory, root: nat, free: set<nat>, p0: Path, t: nat, i: nat, f: nat)
    requires Added(m, m', root, free, p0, t, i, f)
    ensures TreeOk(m', root, free - {f}) && Grown(m, m', root, free, free - {f}) && At(m', root, p0 + [i], f)
  {
    assert Opened(true);
    NoTableThere(m, m', root, free, p0, t, i, f);
    forall p: Path, u: nat ensures At(m', root, p, u) <==> if p == p0 + [i] then u == f else At(m, root, p, u) {
      if |p| <= 3 { AddedTables(m, m', root, free, p0, t, i, f, p); }
    }
    forall p: Path, k: nat | |p| < 2 && EntryAt(m', root, p, k).Some? && Present(EntryAt(m', root, p, k).value)
      ensures !Huge(EntryAt(m', root, p, k).value)
    {
      AddedEntry(m, m', root, free, p0, t, i, f, p, k);
    }
    assert At(m', root, p0 + [i], f) && IsTable(m', root, f);
    forall u: nat | u < |m| && u !in free && !IsTable(m, root, u) ensures m'[u] == m[u] {
      assert At(m, root, p0, t);
    }
  }

  // ---- The three kinds of change, as single updates ----

  lemma PokedChanged(m: Memory, root: nat, p0: Path, t: nat, i: nat, e: Entry)
    requires At(m, root, p0, t) && t < |m| && i < 512
    ensures Changed(m, Poke(m, t, i, e), root, p0, t, i, e) && OthersSame(m, Poke(m, t, i, e), root, t)
  {
  }

  /** Setting flags of an entry that points to a table. */
  lemma PokeFlags(m: Memory, root: nat, free: set<nat>, p0: Path, t: nat, i: nat, e: Entry)
    requires TreeOk(m, root, free) && At(m, root, p0, t) && t < |m| && i < 512 && SameTarget(m[t][i], e)
    ensures var m' := Poke(m, t, i, e);
            TreeOk(m', root, free) && Grown(m, m', root, free, free) && SameTranslation(m, m', root)
  {
    assert Opened(true);
    var m' := Poke(m, t, i, e);
    PokedChanged(m, root, p0, t, i, e);
    StaysOk(m, m', root, free, p0, t, i, e);
    forall p: Path | |p| == 4 ensures Translate(m', root, p) == Translate(m, root, p) {
      FlagsTranslate(m, m', root, free, p0, t, i, e, p);
    }
  }

  /** Writing a last-level entry. */
  lemma PokeLeaf(m: Memory, root: nat, free: set<nat>, page: Path, t: nat, e: Entry)
    requires TreeOk(m, root, free) && |page| == 4 && At(m, root, page[..3], t) && page[3] < 512
    ensures t < |m|
    ensures var m' := Poke(m, t, page[3], e);
            TreeOk(m', root, free) && Grown(m, m', root, free, free) &&
            Remapped(m, m', root, page, if Present(e) then Some(e.frame) else None)
    ensures Translate(m, root, page) == if Present(m[t][page[3]]) then Some(m[t][page[3]].frame) else None
  {
    assert Opened(true);
    var i := page[3];
    var m' := Poke(m, t, i, e);
    PokedChanged(m, root, page[..3], t, i, e);
    StaysOk(m, m', root, free, page[..3], t, i, e);
    assert page == page[..3] + [i];
    forall p: Path | |p| == 4
      ensures Translate(m', root, p) ==
              if p == page then if Present(e) then Some(e.frame) else None else Translate(m, root, p)
    {
      LeafTranslate(m, m', root, free, page[..3], t, i, e, p);
    }
  }

  /** Installing a table in a free frame: an empty one where nothing was, or one that splits a 2 MiB page. */
  lemma PokeTable(m: Memory, root: nat, free: set<nat>, p0: Path, t: nat, i: nat, f: nat, content: Frame)
    requires TreeOk(m, root, free) && At(m, root, p0, t) && t < |m| && i < 512 && |p0| < 3 && f in free && f < |m|
    requires if Present(m[t][i]) then |p0| == 2 && Huge(m[t][i]) && content == SplitFrame(m[t][i])
             else content == ZeroFrame()
    ensures var m' := Poke(m[f := content], t, i, TableEntry(f));
            TreeOk(m', root, free - {f}) && Grown(m, m', root, free, free - {f}) && SameTranslation(m, m', root) &&
            At(m', root, p0 + [i], f)
  {
    assert Opened(true);
    var m' := Poke(m[f := content], t, i, TableEntry(f));
    assert Added(m, m', root, free, p0, t, i, f);
    AddedOk(m, m', root, free, p0, t, i, f);
    forall p: Path | |p| == 4 ensures Translate(m', root, p) == Translate(m, root, p) {
      if Present(m[t][i]) {
        SplitTranslate(m, m', root, free, p0, t, i, f, p);
      } else {
        AddedTranslate(m, m', root, free, p0, t, i, f, p);
      }
    }
  }

  /** A table lies in memory, in a frame that is in use. */
  lemma TableFrame(m: Memory, root: nat, free: set<nat>, p: Path, t: nat)
    requires TreeOk(m, root, free) && At(m, root, p, t)
    ensures t < |m| && t !in free && forall i: nat :: i < 512 ==> EntryAt(m, root, p, i) == Some(m[t][i])
    ensures |p| < 2 ==> forall i: nat :: i < 512 && Present(m[t][i]) ==> !Huge(m[t][i])
  {
    assert Opened(true);
    forall i: nat | i < 512 ensures EntryAt(m, root, p, i) == Some(m[t][i]) {}
  }

  lemma TableStays(m: Memory, m': Memory, root: nat, free: set<nat>, free': set<nat>, p: Path, t: nat)
    requires Grown(m, m', root, free, free') && At(m, root, p, t)
    ensures At(m', root, p, t)
  {
    assert Opened(true);
  }

  /** Following growth by growth. */
  ghost predicate Kept(m: Memory, m': Memory, root: nat, free: set<nat>, free': set<nat>) {
    Grown(m, m', root, free, free') && SameTranslation(m, m', root)
  }

  lemma KeptSame(m: Memory, root: nat, free: set<nat>)
    ensures Kept(m, m, root, free, free)
  {
    assert Opened(true);
  }

  lemma KeptTrans(m: Memory, m1: Memory, m2: Memory, root: nat, free: set<nat>, free1: set<nat>, free2: set<nat>)
    requires Kept(m, m1, root, free, free1) && Kept(m1, m2, root, free1, free2)
    ensures Kept(m, m2, root, free, free2)
  {
    GrownTrans(m, m1, m2, root, free, free1, free2);
    forall p: Path | |p| == 4 ensures Translate(m2, root, p) == Translate(m, root, p) {
      assert Translate(m1, root, p) == Translate(m, root, p);
    }
  }

  // ---- Frames that are held ----

  lemma SmallerFree(m: Memory, root: nat, free: set<nat>, free': set<nat>)
    requires TreeOk(m, root, free) && free' <= free
    ensures TreeOk(m, root, free')
  {
    assert Opened(true);
  }

  lemma GrownLifted(m: Memory, m': Memory, root: nat, free: set<nat>, free': set<nat>, held: set<nat>)
    requires Grown(m, m', root, free, free') && held !! free
    ensures Grown(m, m', root, free + held, free' + held)
  {
    assert Opened(true);
  }

  lemma TreeLifted(m: Memory, m': Memory, root: nat, free: set<nat>, free': set<nat>, held: set<nat>)
    requires TreeOk(m, root, free + held) && TreeOk(m', root, free') && Grown(m, m', root, free, free') && held !! free
    ensures TreeOk(m', root, free' + held)
  {
    assert Opened(true);
  }

  /** A frame taken, the tree changed meanwhile, and the frame given back unused. */
  lemma TakenAndGiven(m: Memory, m': Memory, root: nat, free: set<nat>, free': set<nat>, f: nat)
    requires TreeOk(m, root, free) && f in free && Grown(m, m', root, free - {f}, free') && TreeOk(m', root, free')
    ensures TreeOk(m', root, free' + {f}) && Grown(m, m', root, free, free' + {f})
  {
    assert (free - {f}) + {f} == free;
    GrownLifted(m, m', root, free - {f}, free', {f});
    TreeLifted(m, m', root, free - {f}, free', {f});
  }
}
