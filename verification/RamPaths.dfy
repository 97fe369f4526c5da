/** Walking a path through the node tree, and printing the path of a node: the two are inverse. */
module RamPaths {
  import opened MachineBytes
  import opened RamTree

  ghost function FindFrom(ns: Nodes, cs: seq<nat>, name: Name, i: nat): (r: int)
    ensures r == -1 || (r in cs && Index(r) && ns[r].name == name)
    decreases |cs| - i
  {
    if i >= |cs| then -1
    else if cs[i] < MAX_NODES && ns[cs[i]].name == name then cs[i]
    else FindFrom(ns, cs, name, i + 1)
  }

  /** The child of p with a name, or -1. */
  ghost function Child(ns: Nodes, kids: Kids, p: int, name: Name): (r: int)
    ensures r == -1 || Index(r)
  {
    if Index(p) then FindFrom(ns, kids[p], name, 0) else -1
  }

  lemma {:induction false} FindFromIs(ns: Nodes, cs: seq<nat>, i: nat, j: nat)
    requires i <= j < |cs| && NamesDiffer(ns, cs) && Distinct(cs) && forall k {:trigger cs[k]} :: 0 <= k < |cs| ==>
             cs[k] < MAX_NODES
    ensures FindFrom(ns, cs, ns[cs[j]].name, i) == cs[j]
    decreases j - i
  {
    if i < j {
      DistinctAt(cs, i, j);
      assert Pair(cs[i], cs[j]);
      FindFromIs(ns, cs, i + 1, j);
    }
  }

  /** A name finds the child that bears it. */
  lemma ChildIs(ns: Nodes, kids: Kids, c: nat)
    requires TreeOk(ns, kids) && Index(c) && c != 0 && ns[c].used
    ensures Index(ns[c].parent) && Child(ns, kids, ns[c].parent, ns[c].name) == c && GoodName(ns[c].name)
  {
    var cs := kids[ns[c].parent];
    var j :| 0 <= j < |cs| && cs[j] == c;
    FindFromIs(ns, cs, 0, j);
  }

  /** A missing name belongs to no child. */
  lemma {:induction false} FindFromNone(ns: Nodes, cs: seq<nat>, name: Name, i: nat)
    requires FindFrom(ns, cs, name, i) == -1
    ensures forall j {:trigger cs[j]} :: i <= j < |cs| && cs[j] < MAX_NODES ==> ns[cs[j]].name != name
    decreases |cs| - i
  {
    if i < |cs| { FindFromNone(ns, cs, name, i + 1); }
  }

  lemma ChildNone(ns: Nodes, kids: Kids, p: nat, name: Name)
    requires Index(p)
    ensures Child(ns, kids, p, name) == -1 <==> NameFree(ns, kids[p], name)
  {
    if Child(ns, kids, p, name) == -1 {
      FindFromNone(ns, kids[p], name, 0);
      forall c: nat | c in kids[p] && Index(c) ensures ns[c].name != name {
        var j :| 0 <= j < |kids[p]| && kids[p][j] == c;
      }
    }
  }

  // ---- Components ----

  function SkipSlashes(path: seq<byte>, i: nat): (r: nat)
    requires i <= |path|
    ensures i <= r <= |path| && (r < |path| ==> path[r] != SLASH)
    decreases |path| - i
  {
    if i < |path| && path[i] == SLASH then SkipSlashes(path, i + 1) else i
  }

  function PartEnd(path: seq<byte>, i: nat): (r: nat)
    requires i <= |path|
    ensures i <= r <= |path| && (i < |path| && path[i] != SLASH ==> i < r) && SLASH !in path[i..r]
    ensures r < |path| ==> path[r] == SLASH
    decreases |path| - i
  {
    if i < |path| && path[i] != SLASH then PartEnd(path, i + 1) else i
  }

  /** A component, or one that does not fit the name buffer; the next one starts at `next`, or nothing does. */
  datatype Part = TooLong | Part(text: Name, next: nat)

  function NextPart(path: seq<byte>, i: nat): (r: Part)
    requires i < |path| && path[i] != SLASH
    ensures r.Part? ==> i < r.next <= |path| && (r.next < |path| ==> path[r.next] != SLASH)
  {
    var end := PartEnd(path, i);
    if end - i > NAME_MAX then TooLong else Part(path[i..end], SkipSlashes(path, end))
  }

  ghost function UpFrom(ns: Nodes, cur: int): (r: int)
    requires Index(cur)
    ensures Index(r)
  {
    if Index(ns[cur].parent) then ns[cur].parent else cur
  }

  ghost function StepTo(ns: Nodes, kids: Kids, cur: int, text: Name): (r: int)
    requires Index(cur)
    ensures r == -1 || Index(r)
  {
    if text == [DOT] then cur else if text == [DOT, DOT] then UpFrom(ns, cur) else Child(ns, kids, cur, text)
  }

  /** The node a path leads to from position i on, or -1. */
  ghost function WalkFrom(ns: Nodes, kids: Kids, cur: int, path: seq<byte>, i: nat): (r: int)
    requires Index(cur) && i <= |path| && (i < |path| ==> path[i] != SLASH)
    ensures r == -1 || Index(r)
    decreases |path| - i
  {
    if i == |path| then cur
    else match NextPart(path, i)
      case TooLong => -1
      case Part(text, next) =>
        var to := StepTo(ns, kids, cur, text);
        if to < 0 then -1 else WalkFrom(ns, kids, to, path, next)
  }

  ghost function StartOf(cwd: int, path: seq<byte>): int { if |path| > 0 && path[0] == SLASH then 0 else cwd }

  ghost function Resolve(ns: Nodes, kids: Kids, cwd: int, path: seq<byte>): (r: int)
    requires Index(cwd)
    ensures r == -1 || Index(r)
  {
    if |path| == 0 then cwd
    else if SkipSlashes(path, 0) == |path| then 0
    else WalkFrom(ns, kids, StartOf(cwd, path), path, SkipSlashes(path, 0))
  }

  datatype Target = NoTarget | Target(dir: int, name: Name)

  /** The directory and last component that a path leads to from position i on. */
  ghost function SplitFrom(ns: Nodes, kids: Kids, cur: int, path: seq<byte>, i: nat): (r: Target)
    requires Index(cur) && i < |path| && path[i] != SLASH
    ensures r.Target? ==> Index(r.dir) && 1 <= |r.name| <= NAME_MAX && SLASH !in r.name && !DotName(r.name)
    ensures r.Target? && 0 !in path ==> GoodName(r.name)
    decreases |path| - i
  {
    match NextPart(path, i)
    case TooLong => NoTarget
    case Part(text, next) =>
      if next == |path| then if DotName(text) then NoTarget else Target(cur, text)
      else
        var to := StepTo(ns, kids, cur, text);
        if to < 0 || (!DotName(text) && !ns[to].isDir) then NoTarget else SplitFrom(ns, kids, to, path, next)
  }

  ghost function Split(ns: Nodes, kids: Kids, cwd: int, path: seq<byte>): (r: Target)
    requires Index(cwd)
    ensures r.Target? ==> Index(r.dir)
    ensures r.Target? && 0 !in path ==> GoodName(r.name)
  {
    if SkipSlashes(path, 0) == |path| then NoTarget
    else SplitFrom(ns, kids, StartOf(cwd, path), path, SkipSlashes(path, 0))
  }

  // ---- Printing a path and resolving it are inverse ----

  /** The path of a node n steps below the root, without the slash of the root itself. */
  ghost function PathText(ns: Nodes, c: int, n: nat): seq<byte>
    requires Climb(ns, c, n)
    decreases n
  {
    if n == 0 then [] else PathText(ns, ns[c].parent, n - 1) + [SLASH] + ns[c].name
  }

  lemma {:induction false} PartEndSame(a: seq<byte>, b: seq<byte>, i: nat)
    requires i <= |a| && (|b| > 0 ==> b[0] == SLASH)
    ensures PartEnd(a + b, i) == PartEnd(a, i)
    decreases |a| - i
  {
    if i < |a| && a[i] != SLASH { PartEndSame(a, b, i + 1); }
  }

  lemma {:induction false} SkipSame(a: seq<byte>, b: seq<byte>, i: nat)
    requires i <= |a| && |a| > 0 && a[|a| - 1] != SLASH && i < |a|
    ensures SkipSlashes(a + b, i) == SkipSlashes(a, i) < |a|
    decreases |a| - i
  {
    if a[i] == SLASH { SkipSame(a, b, i + 1); }
  }

  lemma {:induction false} WholePart(path: seq<byte>, i: nat)
    requires i < |path| && SLASH !in path[i..]
    ensures PartEnd(path, i) == |path|
    decreases |path| - i
  {
    assert path[i] == path[i..][0];
    if i + 1 < |path| {
      assert path[i + 1..] == path[i..][1..];
      WholePart(path, i + 1);
    }
  }

  /** Walking the last component of a path. */
  lemma WalkLast(ns: Nodes, kids: Kids, cur: int, a: seq<byte>, name: Name)
    requires Index(cur) && GoodName(name)
    ensures WalkFrom(ns, kids, cur, a + name, |a|) == Child(ns, kids, cur, name)
  {
    var path := a + name;
    assert path[|a|..] == name && path[|a|] == name[0] && name[0] in name;
    WholePart(path, |a|);
    assert path[|a|..|path|] == name;
    assert NextPart(path, |a|) == Part(name, |path|);
    var to := Child(ns, kids, cur, name);
    assert StepTo(ns, kids, cur, name) == to;
    if to >= 0 { assert WalkFrom(ns, kids, to, path, |path|) == to; }
  }

  /** Appending a slash and a name to a path takes one step more. */
  lemma {:induction false} WalkSnoc(ns: Nodes, kids: Kids, cur: int, a: seq<byte>, name: Name, i: nat)
    requires Index(cur) && i < |a| && a[i] != SLASH && a[|a| - 1] != SLASH && GoodName(name)
    requires WalkFrom(ns, kids, cur, a, i) >= 0
    ensures WalkFrom(ns, kids, cur, a + [SLASH] + name, i) == Child(ns, kids, WalkFrom(ns, kids, cur, a, i), name)
    decreases |a| - i
  {
    var path := a + [SLASH] + name;
    assert path == a + ([SLASH] + name);
    PartEndSame(a, [SLASH] + name, i);
    var end := PartEnd(a, i);
    assert path[i..end] == a[i..end];
    var to := StepTo(ns, kids, cur, a[i..end]);
    if end == |a| {
      assert SkipSlashes(path, |a| + 1) == |a| + 1;
      assert a + [SLASH] + name == (a + [SLASH]) + name;
      WalkLast(ns, kids, to, a + [SLASH], name);
    } else {
      SkipSame(a, [SLASH] + name, end);
      WalkSnoc(ns, kids, to, a, name, SkipSlashes(a, end));
    }
  }

  lemma {:induction false} PathTextWalks(ns: Nodes, kids: Kids, c: int, n: nat)
    requires TreeOk(ns, kids) && Climb(ns, c, n) && n > 0
    ensures var path := PathText(ns, c, n);
            |path| > 1 && path[0] == SLASH && path[1] != SLASH && path[|path| - 1] != SLASH &&
              WalkFrom(ns, kids, 0, path, 1) == c
    decreases n
  {
    ChildIs(ns, kids, c);
    var name := ns[c].name;
    assert name[0] in name && name[|name| - 1] in name;
    if n == 1 {
      assert PathText(ns, ns[c].parent, 0) == [];
      assert PathText(ns, c, 1) == [SLASH] + name;
      WalkLast(ns, kids, 0, [SLASH], name);
    } else {
      PathTextWalks(ns, kids, ns[c].parent, n - 1);
      WalkSnoc(ns, kids, 0, PathText(ns, ns[c].parent, n - 1), name, 1);
    }
  }

  /** What is printed for a node: a slash for the root. */
  ghost function Printed(ns: Nodes, c: int, n: nat): seq<byte>
    requires Climb(ns, c, n)
  {
    if n == 0 then [SLASH] else PathText(ns, c, n)
  }

  /** Resolving the printed path of a live node, from anywhere, gives the node. */
  lemma PrintedResolves(ns: Nodes, kids: Kids, cwd: int, c: int, n: nat)
    requires TreeOk(ns, kids) && Climb(ns, c, n) && Index(cwd)
    ensures Resolve(ns, kids, cwd, Printed(ns, c, n)) == c
  {
    if n > 0 {
      PathTextWalks(ns, kids, c, n);
      assert SkipSlashes(Printed(ns, c, n), 1) == 1;
    }
  }

  // ---- Paths across changes ----

  /** A path that splits leads to what its directory has under the name. */
  lemma {:induction false} SplitIsResolve(ns: Nodes, kids: Kids, cur: int, path: seq<byte>, i: nat)
    requires Index(cur) && i < |path| && path[i] != SLASH && SplitFrom(ns, kids, cur, path, i).Target?
    ensures var t := SplitFrom(ns, kids, cur, path, i);
            WalkFrom(ns, kids, cur, path, i) == Child(ns, kids, t.dir, t.name)
    decreases |path| - i
  {
    match NextPart(path, i)
    case Part(text, next) =>
      var to := StepTo(ns, kids, cur, text);
      if next == |path| {
        if to >= 0 { assert WalkFrom(ns, kids, to, path, next) == to; }
      } else {
        SplitIsResolve(ns, kids, to, path, next);
      }
  }

  lemma SplitResolves(ns: Nodes, kids: Kids, cwd: int, path: seq<byte>)
    requires Index(cwd) && Split(ns, kids, cwd, path).Target?
    ensures var t := Split(ns, kids, cwd, path); Resolve(ns, kids, cwd, path) == Child(ns, kids, t.dir, t.name)
  {
    SplitIsResolve(ns, kids, StartOf(cwd, path), path, SkipSlashes(path, 0));
  }

  lemma {:induction false} FindFromSame(ns: Nodes, ns': Nodes, cs: seq<nat>, name: Name, i: nat)
    requires forall c: nat {:trigger c in cs} :: c in cs && Index(c) ==> ns'[c].name == ns[c].name
    ensures FindFrom(ns', cs, name, i) == FindFrom(ns, cs, name, i)
    decreases |cs| - i
  {
    if i < |cs| {
      assert cs[i] in cs;
      FindFromSame(ns, ns', cs, name, i + 1);
    }
  }

  lemma {:induction false} FindFromTail(ns: Nodes, x: nat, cs: seq<nat>, name: Name, i: nat)
    ensures FindFrom(ns, [x] + cs, name, i + 1) == FindFrom(ns, cs, name, i)
    decreases |cs| - i
  {
    if i < |cs| {
      assert ([x] + cs)[i + 1] == cs[i];
      FindFromTail(ns, x, cs, name, i + 1);
    }
  }

  /** A created node is found under its name, and every other name finds what it found. */
  lemma CreatedChild(ns: Nodes, kids: Kids, ns': Nodes, kids': Kids, p: nat, name: Name, isDir: bool, x: nat,
                     q: int, n: Name)
    requires Tree(ns, kids) && Created(ns, kids, ns', kids', p, name, isDir, x)
    ensures Child(ns', kids', q, n) == if q == p && n == name then x else Child(ns, kids, q, n)
  {
    if Index(q) {
      ListOf(ns, kids, q);
      ListOf(ns, kids, x);
      assert x !in kids[q];
      FindFromSame(ns, ns', kids[q], n, 0);
      if q == p { FindFromTail(ns', x, kids[p], n, 0); }
    }
  }

  /** From a live node every step leads to a live one. */
  lemma StepLive(ns: Nodes, kids: Kids, cur: nat, text: Name)
    requires Tree(ns, kids) && Index(cur) && ns[cur].used
    ensures var to := StepTo(ns, kids, cur, text); to >= 0 ==> ns[to].used
  {
    ListOf(ns, kids, cur);
    if ns[cur].parent >= 0 {
      ListOf(ns, kids, ns[cur].parent);
      RootOf(ns, kids);
      var n := LiveNode(ns, kids, cur);
    }
  }

  /** Creating the last component of a path leaves the way to it. */
  lemma {:induction false} CreatedSplit(ns: Nodes, kids: Kids, ns': Nodes, kids': Kids, p: nat, name: Name, isDir: bool,
                                        x: nat,
                                        cur: int, path: seq<byte>, i: nat)
    requires Tree(ns, kids) && Created(ns, kids, ns', kids', p, name, isDir, x) && Child(ns, kids, p, name) == -1
    requires Index(cur) && ns[cur].used && i < |path| && path[i] != SLASH && SplitFrom(ns, kids, cur, path, i).Target?
    ensures SplitFrom(ns', kids', cur, path, i) == SplitFrom(ns, kids, cur, path, i)
    decreases |path| - i
  {
    match NextPart(path, i)
    case Part(text, next) =>
      if next < |path| {
        CreatedChild(ns, kids, ns', kids', p, name, isDir, x, cur, text);
        var to := StepTo(ns, kids, cur, text);
        assert StepTo(ns', kids', cur, text) == to;
        StepLive(ns, kids, cur, text);
        CreatedSplit(ns, kids, ns', kids', p, name, isDir, x, to, path, next);
      }
  }

  lemma CreatedResolves(ns: Nodes, kids: Kids, ns': Nodes, kids': Kids, p: nat, name: Name, isDir: bool, x: nat,
                        cwd: nat, path: seq<byte>)
    requires Tree(ns, kids) && Created(ns, kids, ns', kids', p, name, isDir, x) && Child(ns, kids, p, name) == -1
    requires Index(cwd) && ns[cwd].used && Split(ns, kids, cwd, path) == Target(p, name)
    ensures Resolve(ns', kids', cwd, path) == x
  {
    RootOf(ns, kids);
    CreatedSplit(ns, kids, ns', kids', p, name, isDir, x, StartOf(cwd, path), path, SkipSlashes(path, 0));
    SplitResolves(ns', kids', cwd, path);
    CreatedChild(ns, kids, ns', kids', p, name, isDir, x, p, name);
  }

  /** File contents do not matter to a path. */
  lemma {:induction false} ShapeWalk(ns: Nodes, ns': Nodes, kids: Kids, cur: int, path: seq<byte>, i: nat)
    requires SameShape(ns, ns') && Index(cur) && i <= |path| && (i < |path| ==> path[i] != SLASH)
    ensures WalkFrom(ns', kids, cur, path, i) == WalkFrom(ns, kids, cur, path, i)
    decreases |path| - i
  {
    if i < |path| {
      match NextPart(path, i)
      case TooLong =>
      case Part(text, next) =>
        assert ns'[cur].parent == ns[cur].parent;
        forall c: nat | c in kids[cur] && Index(c) ensures ns'[c].name == ns[c].name {}
        FindFromSame(ns, ns', kids[cur], text, 0);
        var to := StepTo(ns, kids, cur, text);
        if to >= 0 { ShapeWalk(ns, ns', kids, to, path, next); }
    }
  }

  lemma ShapeResolve(ns: Nodes, ns': Nodes, kids: Kids, cwd: nat, path: seq<byte>)
    requires SameShape(ns, ns') && Index(cwd)
    ensures Resolve(ns', kids, cwd, path) == Resolve(ns, kids, cwd, path)
  {
    if |path| > 0 { ShapeWalk(ns, ns', kids, StartOf(cwd, path), path, SkipSlashes(path, 0)); }
  }

  /** From a live node, paths lead to live nodes. */
  lemma {:induction false} WalkLive(ns: Nodes, kids: Kids, cur: nat, path: seq<byte>, i: nat)
    requires Tree(ns, kids) && Index(cur) && ns[cur].used && i <= |path| && (i < |path| ==> path[i] != SLASH)
    ensures var r := WalkFrom(ns, kids, cur, path, i); r >= 0 ==> ns[r].used
    ensures i < |path| ==> var t := SplitFrom(ns, kids, cur, path, i); t.Target? ==> ns[t.dir].used
    decreases |path| - i
  {
    if i < |path| {
      match NextPart(path, i)
      case TooLong =>
      case Part(text, next) =>
        var to := StepTo(ns, kids, cur, text);
        StepLive(ns, kids, cur, text);
        if to >= 0 { WalkLive(ns, kids, to, path, next); }
    }
  }

  lemma PathsLive(ns: Nodes, kids: Kids, cwd: nat, path: seq<byte>)
    requires Tree(ns, kids) && Index(cwd) && ns[cwd].used
    ensures var r := Resolve(ns, kids, cwd, path); r >= 0 ==> ns[r].used
    ensures var t := Split(ns, kids, cwd, path); t.Target? ==> ns[t.dir].used
  {
    RootOf(ns, kids);
    WalkLive(ns, kids, StartOf(cwd, path), path, SkipSlashes(path, 0));
  }
}
