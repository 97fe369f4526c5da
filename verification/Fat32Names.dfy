/** What a path means, from its text: which names are one name, where components lead, and which paths a write leaves
    as they were. */
module Fat32Names {
  import opened Options
  import opened MachineBytes
  import opened Fat32Layout
  import opened Fat32Slots
  import opened Fat32Tree
  import opened Fat32Paths
  import opened Fat32Api
  import opened Fat32Mkdir
  import Fat32Runs

  // ---- Which names are one name ----

  /** A name without a dot that ends it. */
  function Bare(name: seq<byte>): seq<byte> {
    if |name| > 0 && name[|name| - 1] == DOT then name[..|name| - 1] else name
  }

  /** The same but for the case of letters and a dot at the end. */
  predicate SameName(a: seq<byte>, b: seq<byte>) {
    |Bare(a)| == |Bare(b)| && forall i :: 0 <= i < |Bare(a)| ==> SameLetter(Bare(a)[i], Bare(b)[i])
  }

  /** Equal, or one letter in both cases. */
  predicate SameLetter(x: byte, y: byte) {
    x == y || ('a' as int <= x <= 'z' as int && y == x - 32) || ('a' as int <= y <= 'z' as int && x == y - 32)
  }

  /** The stored name p, byte by byte: a base that ends at `dot`, and what follows the dot. */
  ghost predicate Holds(p: Name, a: seq<byte>, dot: nat) {
    && 1 <= dot <= 8 && dot <= |a| <= dot + 4
    && (forall k :: 0 <= k < 8 ==> p[k] == if k < dot then Upcase(a[k]) else SPACE)
    && (forall k :: 8 <= k < 11 ==> p[k] == if dot + k - 7 < |a| then Upcase(a[dot + k - 7]) else SPACE)
    && forall i :: 0 <= i < |a| ==> (a[i] == DOT <==> i == dot)
  }

  lemma PackedHolds(a: seq<byte>)
    requires Is83(a)
    ensures Holds(Packed(a), a, FirstDot(a))
  {
    var d := FirstDot(a);
    forall i | 0 <= i < |a| ensures a[i] == DOT <==> i == d {
      if i < d { assert a[i] == a[..d][i]; }
      if i > d { assert a[i] == a[d + 1..][i - d - 1]; }
    }
  }

  /** Two names without blanks are stored alike exactly when they are the same but for case and a dot at the end. */
  lemma StoredAlike(a: seq<byte>, b: seq<byte>)
    requires Name83(a).Some? && Name83(b).Some? && SPACE !in a && SPACE !in b
    ensures Name83(a) == Name83(b) <==> SameName(a, b)
  {
    PackedHolds(a);
    PackedHolds(b);
    AlikeIsSame(a, b, Packed(a), Packed(b), FirstDot(a), FirstDot(b));
  }

  lemma NoBlanks(a: seq<byte>, p: Name, d: nat)
    requires Holds(p, a, d) && SPACE !in a
    ensures forall k :: 0 <= k < 8 ==> (k < d <==> p[k] != SPACE)
    ensures forall k :: 8 <= k < 11 ==> (d + k - 7 < |a| <==> p[k] != SPACE)
  {
    forall i | 0 <= i < |a| ensures Upcase(a[i]) != SPACE { assert a[i] in a; }
  }

  /** How long a name is without a dot at the end. */
  function BareLength(a: seq<byte>, d: nat): nat { if d + 1 < |a| then |a| else d }

  lemma BareIs(a: seq<byte>, p: Name, d: nat)
    requires Holds(p, a, d)
    ensures BareLength(a, d) <= |a| && Bare(a) == a[..BareLength(a, d)]
  {
    assert a[|a| - 1] == DOT <==> |a| - 1 == d;
  }

  lemma SameParts(a: seq<byte>, b: seq<byte>, p: Name, d: nat, e: nat)
    requires Holds(p, a, d) && Holds(p, b, e)
    requires forall k :: 0 <= k < 8 ==> (k < d <==> p[k] != SPACE) && (k < e <==> p[k] != SPACE)
    requires forall k :: 8 <= k < 11 ==> (d + k - 7 < |a| <==> p[k] != SPACE)
    requires forall k :: 8 <= k < 11 ==> (e + k - 7 < |b| <==> p[k] != SPACE)
    ensures d == e && BareLength(a, d) == BareLength(b, e)
    ensures forall i :: 0 <= i < BareLength(a, d) ==> i < |a| && i < |b| && SameLetter(a[i], b[i])
  {
    assert d < 8 ==> (d < e <==> p[d] != SPACE);
    assert e < 8 ==> (e < d <==> p[e] != SPACE);
    assert p[8] != SPACE <==> d + 1 < |a|;
    assert p[9] != SPACE <==> d + 2 < |a|;
    assert p[10] != SPACE <==> d + 3 < |a|;
    assert d == e && BareLength(a, d) == BareLength(b, e);
    forall i | 0 <= i < BareLength(a, d) ensures SameLetter(a[i], b[i]) {
      if i < d { assert Upcase(a[i]) == p[i] == Upcase(b[i]); }
      if i > d { assert Upcase(a[i]) == p[i - d + 7] == Upcase(b[i]); }
    }
  }

  lemma AlikeByte(a: seq<byte>, b: seq<byte>, p: Name, q: Name, d: nat, e: nat)
    requires Holds(p, a, d) && Holds(q, b, e) && BareLength(a, d) == BareLength(b, e)
    requires forall i :: 0 <= i < BareLength(a, d) ==> i < |a| && i < |b| && SameLetter(a[i], b[i])
    ensures p == q
  {
    assert d < BareLength(a, d) ==> b[d] == DOT;
    assert e < BareLength(b, e) ==> a[e] == DOT;
    assert d == e;
    forall k | 0 <= k < 11 ensures p[k] == q[k] {
      var i := if k < 8 then k else k + d - 7;
      if i < BareLength(a, d) { assert SameLetter(a[i], b[i]); }
    }
  }

  lemma AlikeIsSame(a: seq<byte>, b: seq<byte>, p: Name, q: Name, d: nat, e: nat)
    requires Holds(p, a, d) && Holds(q, b, e) && SPACE !in a && SPACE !in b
    ensures p == q <==> SameName(a, b)
  {
    NoBlanks(a, p, d);
    NoBlanks(b, q, e);
    BareIs(a, p, d);
    BareIs(b, q, e);
    if p == q { SameParts(a, b, p, d, e); }
    if SameName(a, b) {
      forall i | 0 <= i < BareLength(a, d) ensures SameLetter(a[i], b[i]) {
        assert SameLetter(Bare(a)[i], Bare(b)[i]);
      }
      AlikeByte(a, b, p, q, d, e);
    }
  }

  // ---- Components ----

  predicate Separator(b: byte) { b == 0x2F || b == 0x5C }

  /** Text that can stand between two separators and is not too long. */
  predicate Component(x: seq<byte>) {
    1 <= |x| <= PART_MAX && forall i :: 0 <= i < |x| ==> x[i] != 0x2F && x[i] != 0x5C
  }

  /** Nothing, or text that ends in a separator. */
  predicate Leading(d: seq<byte>) { d == [] || d[|d| - 1] == 0x2F || d[|d| - 1] == 0x5C }

  /** The components of a path from position i on, unless one is too long. */
  function Parts(path: seq<byte>, i: nat): Option<seq<seq<byte>>>
    requires i <= |path|
    decreases |path| - i
  {
    match NextPart(path, i)
    case TooLong => None
    case End => Some([])
    case Part(text, next) =>
      match Parts(path, next) case None => None case Some(ps) => Some([text] + ps)
  }

  /** What a list of components denotes: directories to go through, and a name in the last one. */
  ghost function Follow(root: nat, dirs: Dirs, cur: nat, ps: seq<seq<byte>>): Option<Target>
    decreases |ps|
  {
    if |ps| == 0 then None
    else if |ps| == 1 then if LeafName(ps[0]).None? then None else Some(Target(cur, LeafName(ps[0]).value))
    else
      var d := Step(root, dirs, cur, ps[0]);
      if d.None? then None else Follow(root, dirs, d.value, ps[1..])
  }

  /** Resolving a path is following its components. */
  lemma {:induction false} ResolveFollows(root: nat, dirs: Dirs, cur: nat, path: seq<byte>, i: nat)
    requires i <= |path|
    ensures Resolve(root, dirs, cur, path, i) ==
            match Parts(path, i) case None => None case Some(ps) => Follow(root, dirs, cur, ps)
    decreases |path| - i
  {
    match NextTurn(path, i)
    case Malformed => MalformedParts(path, i);
    case Leaf(text) => LeafParts(path, i);
    case Descend(text, next) =>
      DescendParts(path, i);
      var d := Step(root, dirs, cur, text);
      if d.Some? { ResolveFollows(root, dirs, d.value, path, next); }
  }

  lemma MalformedParts(path: seq<byte>, i: nat)
    requires i <= |path| && NextTurn(path, i) == Malformed
    ensures Parts(path, i) == None || Parts(path, i) == Some([])
  {
  }

  lemma LeafParts(path: seq<byte>, i: nat)
    requires i <= |path| && NextTurn(path, i).Leaf?
    ensures Parts(path, i) == Some([NextTurn(path, i).text])
  {
    var t := NextTurn(path, i).text;
    assert Parts(path, NextPart(path, i).next) == Some([]) && [t] + [] == [t];
  }

  lemma DescendParts(path: seq<byte>, i: nat)
    requires i <= |path| && NextTurn(path, i).Descend?
    ensures var t := NextTurn(path, i);
            match Parts(path, t.next)
            case None => Parts(path, i) == None
            case Some(ps) => Parts(path, i) == Some([t.text] + ps) && |ps| > 0
  {
  }

  /** Positions in the first text of two, as the whole sees them. */
  lemma {:induction false} SkipsInside(d: seq<byte>, z: seq<byte>, i: nat)
    requires Leading(d) && i <= |d| && (|z| > 0 ==> !IsSeparator(z[0]))
    ensures SkipSeparators(d + z, i) == SkipSeparators(d, i)
    decreases |d| - i
  {
    if i < |d| && IsSeparator(d[i]) { SkipsInside(d, z, i + 1); }
  }

  lemma {:induction false} EndsInside(d: seq<byte>, z: seq<byte>, i: nat)
    requires Leading(d) && i < |d|
    ensures PartEnd(d + z, i) == PartEnd(d, i) < |d|
    decreases |d| - i
  {
    if !IsSeparator(d[i]) {
      assert i + 1 < |d|;
      EndsInside(d, z, i + 1);
    }
  }

  lemma PartInside(d: seq<byte>, z: seq<byte>, i: nat)
    requires Leading(d) && i <= |d| && |z| > 0 && !IsSeparator(z[0])
    ensures NextPart(d, i) != End ==> NextPart(d + z, i) == NextPart(d, i)
    ensures NextPart(d, i) == End ==> NextPart(d + z, i) == NextPart(d + z, |d|) != End
    ensures NextPart(d, i).Part? ==> NextPart(d, i).next < |d|
  {
    SkipsInside(d, z, i);
    SkipsInside(d, z, |d|);
    var s := SkipSeparators(d, i);
    if s < |d| {
      EndsInside(d, z, s);
      assert (d + z)[s..PartEnd(d, s)] == d[s..PartEnd(d, s)];
    }
  }

  /** Positions in the second. */
  lemma {:induction false} SkipsBehind(d: seq<byte>, z: seq<byte>, j: nat)
    requires j <= |z|
    ensures SkipSeparators(d + z, |d| + j) == |d| + SkipSeparators(z, j)
    decreases |z| - j
  {
    if j < |z| && IsSeparator(z[j]) { SkipsBehind(d, z, j + 1); }
  }

  lemma {:induction false} EndsBehind(d: seq<byte>, z: seq<byte>, j: nat)
    requires j <= |z|
    ensures PartEnd(d + z, |d| + j) == |d| + PartEnd(z, j)
    decreases |z| - j
  {
    if j < |z| && !IsSeparator(z[j]) { EndsBehind(d, z, j + 1); }
  }

  function Shifted(p: Part, n: nat): Part { if p.Part? then p.(next := n + p.next) else p }

  lemma PartBehind(d: seq<byte>, z: seq<byte>, j: nat)
    requires j <= |z|
    ensures NextPart(d + z, |d| + j) == Shifted(NextPart(z, j), |d|)
  {
    SkipsBehind(d, z, j);
    var s := SkipSeparators(z, j);
    EndsBehind(d, z, s);
    assert (d + z)[|d| + s..|d| + PartEnd(z, s)] == z[s..PartEnd(z, s)];
  }

  lemma {:induction false} PartsBehind(d: seq<byte>, z: seq<byte>, j: nat)
    requires j <= |z|
    ensures Parts(d + z, |d| + j) == Parts(z, j)
    decreases |z| - j
  {
    PartBehind(d, z, j);
    if NextPart(z, j).Part? { PartsBehind(d, z, NextPart(z, j).next); }
  }

  function Both(a: Option<seq<seq<byte>>>, b: Option<seq<seq<byte>>>): Option<seq<seq<byte>>> {
    if a.Some? && b.Some? then Some(a.value + b.value) else None
  }

  /** The components of two texts, the second of which begins a component of its own. */
  lemma {:induction false} PartsOn(d: seq<byte>, z: seq<byte>, i: nat)
    requires Leading(d) && i <= |d| && |z| > 0 && !IsSeparator(z[0])
    ensures Parts(d + z, i) == Both(Parts(d, i), Parts(z, 0))
    decreases |d| - i
  {
    PartInside(d, z, i);
    match NextPart(d, i)
    case TooLong =>
    case End =>
      PartsBehind(d, z, 0);
      SamePart(d + z, i, |d|);
      if Parts(z, 0).Some? { assert [] + Parts(z, 0).value == Parts(z, 0).value; }
    case Part(text, next) =>
      PartsOn(d, z, next);
      if Parts(d, next).Some? && Parts(z, 0).Some? {
        assert [text] + (Parts(d, next).value + Parts(z, 0).value) == [text] + Parts(d, next).value + Parts(z, 0).value;
      }
  }

  lemma SamePart(path: seq<byte>, i: nat, j: nat)
    requires i <= |path| && j <= |path| && NextPart(path, i) == NextPart(path, j)
    ensures Parts(path, i) == Parts(path, j)
  {
  }

  /** A component by itself, or with a separator behind it. */
  lemma OnePart(x: seq<byte>)
    requires Component(x)
    ensures !IsSeparator(x[0]) && Parts(x, 0) == Some([x])
    ensures forall b: byte :: Separator(b) ==> Parts(x + [b], 0) == Some([x])
  {
    RunsOn(x, x, 0);
    assert x[0..|x|] == x && Parts(x, |x|) == Some([]) && [x] + [] == [x];
    forall b: byte | Separator(b) ensures Parts(x + [b], 0) == Some([x]) {
      var y := x + [b];
      RunsOn(x, y, 0);
      assert y[0..|x|] == x && SkipSeparators(y, |x|) == |y| && Parts(y, |x|) == Some([]);
    }
  }

  lemma {:induction false} RunsOn(x: seq<byte>, y: seq<byte>, i: nat)
    requires Component(x) && i <= |x| <= |y| && y[..|x|] == x && (|x| < |y| ==> IsSeparator(y[|x|]))
    ensures PartEnd(y, i) == |x| && SkipSeparators(y, 0) == 0
    decreases |x| - i
  {
    assert y[0] == x[0];
    if i < |x| {
      assert y[i] == x[i];
      RunsOn(x, y, i + 1);
    }
  }

  /** A path that is written as its components, each behind a separator, follows them. */
  lemma {:induction false} WrittenFollows(root: nat, dirs: Dirs, d: seq<byte>, x: seq<byte>)
    requires Leading(d) && Component(x)
    ensures Resolve(root, dirs, root, d + x, 0) ==
            match Parts(d, 0) case None => None case Some(ps) => Follow(root, dirs, root, ps + [x])
  {
    OnePart(x);
    PartsOn(d, x, 0);
    ResolveFollows(root, dirs, root, d + x, 0);
  }

  /** The name that a path denotes is that of its last component. */
  lemma {:induction false} LastNames(root: nat, dirs: Dirs, cur: nat, ps: seq<seq<byte>>, x: seq<byte>)
    requires Follow(root, dirs, cur, ps + [x]).Some?
    ensures LeafName(x) == Some(Follow(root, dirs, cur, ps + [x]).value.name)
    decreases |ps|
  {
    var qs := ps + [x];
    if |ps| > 0 {
      assert qs[1..] == ps[1..] + [x];
      LastNames(root, dirs, Step(root, dirs, cur, qs[0]).value, ps[1..], x);
    }
  }

  /** Writing a file changes what no path reads as whose last component is another name: one that differs in more than
      the case of letters and a dot at the end. */
  lemma WriteLeaves(g: Geometry, v: View, w: View, t: Target, data: seq<byte>, needed: nat, d: seq<byte>, x: seq<byte>,
                    e: seq<byte>, y: seq<byte>)
    requires Leading(d) && Component(x) && Leading(e) && Component(y) && 0 !in d + x
    requires SPACE !in x && SPACE !in y && !SameName(x, y)
    requires Resolve(g.root, v.dirs, g.root, d + x, 0) == Some(t) && FileWritten(g, v, w, t, data, needed)
    ensures PathReads(g.root, w, d + x) == Some(data)
    ensures PathReads(g.root, w, e + y) == PathReads(g.root, v, e + y)
  {
    WriteThenRead(g, v, w, t, data, needed, d + x, e + y);
    WrittenFollows(g.root, v.dirs, d, x);
    WrittenFollows(g.root, v.dirs, e, y);
    LastNames(g.root, v.dirs, g.root, Parts(d, 0).value, x);
    if Resolve(g.root, v.dirs, g.root, e + y, 0).Some? {
      LastNames(g.root, v.dirs, g.root, Parts(e, 0).value, y);
      StoredAlike(x, y);
    }
  }

  // ---- Dots ----

  /** The directory that a list of components leads to. */
  ghost function Through(root: nat, dirs: Dirs, cur: nat, ps: seq<seq<byte>>): Option<nat>
    decreases |ps|
  {
    if |ps| == 0 then Some(cur)
    else
      var d := Step(root, dirs, cur, ps[0]);
      if d.None? then None else Through(root, dirs, d.value, ps[1..])
  }

  lemma {:induction false} FollowOn(root: nat, dirs: Dirs, cur: nat, ps: seq<seq<byte>>, qs: seq<seq<byte>>)
    requires |qs| > 0
    ensures Follow(root, dirs, cur, ps + qs) ==
            match Through(root, dirs, cur, ps) case None => None case Some(d) => Follow(root, dirs, d, qs)
    decreases |ps|
  {
    if |ps| == 0 {
      assert ps + qs == qs;
    } else {
      assert (ps + qs)[1..] == ps[1..] + qs;
      var d := Step(root, dirs, cur, ps[0]);
      if d.Some? { FollowOn(root, dirs, d.value, ps[1..], qs); }
    }
  }

  /** A name behind directories denotes that name in the directory they lead to, if they lead to one. */
  lemma NameLeads(root: nat, dirs: Dirs, d: seq<byte>, x: seq<byte>, base: seq<byte>, ext: seq<byte>)
    requires Leading(d) && Component(x) && Spelt(x, base, ext)
    ensures var to := if Parts(d, 0).None? then None else Through(root, dirs, root, Parts(d, 0).value);
            match Resolve(root, dirs, root, d + x, 0)
            case None => to == None
            case Some(t) => to == Some(t.dir) && Stores(t.name, base, ext)
    ensures d == [] ==>
              Resolve(root, dirs, root, d + x, 0).Some? && Resolve(root, dirs, root, d + x, 0).value.dir == root
  {
    SpeltStores(x, base, ext);
    assert x[0] == base[0];
    WrittenFollows(root, dirs, d, x);
    if Parts(d, 0).Some? { FollowOn(root, dirs, root, Parts(d, 0).value, [x]); }
  }

  /** No path that ends in `.` or `..` denotes a name. */
  lemma DotsName(root: nat, dirs: Dirs, d: seq<byte>, x: seq<byte>)
    requires Leading(d) && (x == [0x2E] || x == [0x2E, 0x2E])
    ensures Resolve(root, dirs, root, d + x, 0) == None
  {
    WrittenFollows(root, dirs, d, x);
    if Parts(d, 0).Some? { FollowOn(root, dirs, root, Parts(d, 0).value, [x]); }
  }

  /** Going to `.` stays where it is. */
  lemma DotStays(root: nat, dirs: Dirs, d: seq<byte>, s: byte, z: seq<byte>)
    requires Leading(d) && Separator(s) && Component(z)
    ensures Resolve(root, dirs, root, d + ([0x2E, s] + z), 0) == Resolve(root, dirs, root, d + z, 0)
  {
    var dot: seq<byte> := [0x2E];
    OnePart(dot);
    OnePart(z);
    assert dot + [s] == [0x2E, s];
    PartsOn([0x2E, s], z, 0);
    assert [dot] + [z] == [dot, z];
    assert !IsSeparator(([0x2E, s] + z)[0]);
    PartsOn(d, [0x2E, s] + z, 0);
    WrittenFollows(root, dirs, d, z);
    ResolveFollows(root, dirs, root, d + ([0x2E, s] + z), 0);
    if Parts(d, 0).Some? {
      FollowOn(root, dirs, root, Parts(d, 0).value, [dot, z]);
      FollowOn(root, dirs, root, Parts(d, 0).value, [z]);
      if Through(root, dirs, root, Parts(d, 0).value).Some? {
        assert [dot, z][1..] == [z];
      }
    }
  }

  lemma UpParts(d: seq<byte>, x: seq<byte>, s: byte, z: seq<byte>)
    requires Leading(d) && Component(x) && Separator(s) && Component(z) && Parts(d, 0).Some?
    ensures Parts(d + (x + [s] + ([0x2E, 0x2E, s] + z)), 0) == Some(Parts(d, 0).value + [x, [0x2E, 0x2E], z])
  {
    var up: seq<byte> := [0x2E, 0x2E];
    OnePart(x);
    OnePart(up);
    OnePart(z);
    assert up + [s] == [0x2E, 0x2E, s];
    PartsOn([0x2E, 0x2E, s], z, 0);
    assert [up] + [z] == [up, z];
    var rest := [0x2E, 0x2E, s] + z;
    assert !IsSeparator(rest[0]);
    PartsOn(x + [s], rest, 0);
    assert [x] + [up, z] == [x, up, z];
    assert (x + [s] + rest)[0] == x[0];
    PartsOn(d, x + [s] + rest, 0);
  }

  /** In a directory just made, `..` leads back to where it was made. */
  lemma MadeThenUp(g: Geometry, v: View, w: View, t: Target, d: seq<byte>, x: seq<byte>, s: byte, z: seq<byte>)
    requires Leading(d) && Component(x) && Separator(s) && Component(z) && 0 !in d + x
    requires Good(g, v) && Resolve(g.root, v.dirs, g.root, d + x, 0) == Some(t) && DirectoryMade(g, v, w, t)
    requires t.name[0] != DELETED
    ensures Resolve(g.root, w.dirs, g.root, d + (x + [s] + ([0x2E, 0x2E, s] + z)), 0) ==
            Resolve(g.root, w.dirs, g.root, d + z, 0)
    ensures Resolve(g.root, w.dirs, g.root, d + z, 0) ==
            match LeafName(z) case None => None case Some(name) => Some(Target(t.dir, name))
  {
    ResolvedSpelled(g.root, v.dirs, g.root, d + x, 0);
    Fat32Runs.MadePaths(g, v, w, t, d + x);
    WrittenFollows(g.root, w.dirs, d, x);
    WrittenFollows(g.root, w.dirs, d, z);
    UpParts(d, x, s, z);
    ResolveFollows(g.root, w.dirs, g.root, d + (x + [s] + ([0x2E, 0x2E, s] + z)), 0);
    MadeFollow(g, w, t, Parts(d, 0).value, x, z);
  }

  lemma MadeFollow(g: Geometry, w: View, t: Target, ps: seq<seq<byte>>, x: seq<byte>, z: seq<byte>)
    requires Follow(g.root, w.dirs, g.root, ps + [x]) == Some(t)
    requires Good(g, w) && Denoted(w, t).Some? && IsDirectory(Denoted(w, t).value)
    requires var c := FirstCluster(Denoted(w, t).value); c in w.dirs && ParentOf(g.root, w.dirs, c) == t.dir
    ensures Follow(g.root, w.dirs, g.root, ps + [x, [0x2E, 0x2E], z]) == Follow(g.root, w.dirs, g.root, ps + [z])
    ensures Follow(g.root, w.dirs, g.root, ps + [z]) ==
            match LeafName(z) case None => None case Some(name) => Some(Target(t.dir, name))
  {
    FollowOn(g.root, w.dirs, g.root, ps, [x]);
    FollowOn(g.root, w.dirs, g.root, ps, [z]);
    FollowOn(g.root, w.dirs, g.root, ps, [x, [0x2E, 0x2E], z]);
    ShownDirectory(g, w.links, w.clusters, w.chains, w.dirs, FirstCluster(Denoted(w, t).value));
    MadeUp(g, w, t, x, z);
  }

  lemma MadeUp(g: Geometry, w: View, t: Target, x: seq<byte>, z: seq<byte>)
    requires LeafName(x) == Some(t.name) && Denoted(w, t).Some? && IsDirectory(Denoted(w, t).value)
    requires var c := FirstCluster(Denoted(w, t).value); c >= 2 && ParentOf(g.root, w.dirs, c) == t.dir
    ensures Follow(g.root, w.dirs, t.dir, [x, [0x2E, 0x2E], z]) == Follow(g.root, w.dirs, t.dir, [z])
  {
    var up: seq<byte> := [0x2E, 0x2E];
    var c := FirstCluster(Denoted(w, t).value);
    assert [x, up, z][1..] == [up, z] && [up, z][1..] == [z];
    assert Step(g.root, w.dirs, t.dir, x) == Some(c);
    assert Step(g.root, w.dirs, c, up) == Some(t.dir);
  }
}
