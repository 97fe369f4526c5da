/** What a path of the RAM filesystem means, from its text: its components are followed one by one. */
module RamWalks {
  import opened MachineBytes
  import opened RamTree
  import opened RamPaths

  datatype Components = Spoilt | Components(names: seq<Name>)

  /** The components from position i on, unless one is too long. */
  function Parts(path: seq<byte>, i: nat): Components
    requires i <= |path| && (i < |path| ==> path[i] != SLASH)
    decreases |path| - i
  {
    if i == |path| then Components([])
    else match NextPart(path, i)
      case TooLong => Spoilt
      case Part(text, next) =>
        match Parts(path, next) case Spoilt => Spoilt case Components(ns) => Components([text] + ns)
  }

  function All(path: seq<byte>): Components { Parts(path, SkipSlashes(path, 0)) }

  /** Text that can stand between two slashes and is not too long. */
  predicate Fitting(text: seq<byte>) { 1 <= |text| <= 31 && forall i :: 0 <= i < |text| ==> text[i] != 0x2F }

  /** The node that components lead to, or -1. */
  ghost function Follow(ns: Nodes, kids: Kids, cur: int, ps: seq<Name>): (r: int)
    requires Index(cur)
    ensures r == -1 || Index(r)
    decreases |ps|
  {
    if |ps| == 0 then cur
    else
      var to := StepTo(ns, kids, cur, ps[0]);
      if to < 0 then -1 else Follow(ns, kids, to, ps[1..])
  }

  /** Every component is a step, and one that is no dot leads to a directory. */
  ghost predicate Dirs(ns: Nodes, kids: Kids, cur: int, ps: seq<Name>)
    requires Index(cur)
    decreases |ps|
  {
    |ps| > 0 ==>
      var to := StepTo(ns, kids, cur, ps[0]);
      to >= 0 && (DotName(ps[0]) || ns[to].isDir) && Dirs(ns, kids, to, ps[1..])
  }

  lemma {:induction false} WalkFollows(ns: Nodes, kids: Kids, cur: int, path: seq<byte>, i: nat)
    requires Index(cur) && i <= |path| && (i < |path| ==> path[i] != SLASH)
    ensures WalkFrom(ns, kids, cur, path, i) ==
            match Parts(path, i) case Spoilt => -1 case Components(ps) => Follow(ns, kids, cur, ps)
    decreases |path| - i
  {
    if i < |path| {
      match NextPart(path, i)
      case TooLong =>
      case Part(text, next) =>
        var to := StepTo(ns, kids, cur, text);
        if to >= 0 { WalkFollows(ns, kids, to, path, next); }
    }
  }

  /** Resolving a path is following its components, from the root if it begins with a slash. */
  lemma ResolveFollows(ns: Nodes, kids: Kids, cwd: int, path: seq<byte>)
    requires Index(cwd)
    ensures Resolve(ns, kids, cwd, path) ==
            match All(path) case Spoilt => -1 case Components(ps) => Follow(ns, kids, StartOf(cwd, path), ps)
  {
    WalkFollows(ns, kids, StartOf(cwd, path), path, SkipSlashes(path, 0));
    if |path| > 0 && SkipSlashes(path, 0) == |path| { SlashFirst(path); }
  }

  lemma SlashFirst(path: seq<byte>)
    requires |path| > 0 && SkipSlashes(path, 0) == |path|
    ensures path[0] == SLASH
  {
  }

  lemma {:induction false} SplitFollows(ns: Nodes, kids: Kids, cur: int, path: seq<byte>, i: nat)
    requires Index(cur) && i < |path| && path[i] != SLASH
    ensures Parts(path, i).Spoilt? ==> SplitFrom(ns, kids, cur, path, i) == NoTarget
    ensures Parts(path, i).Components? ==>
              var ps := Parts(path, i).names;
              |ps| > 0 && SplitFrom(ns, kids, cur, path, i) == SplitOf(ns, kids, cur, ps)
    decreases |path| - i
  {
    match NextPart(path, i)
    case TooLong =>
    case Part(text, next) =>
      var to := StepTo(ns, kids, cur, text);
      if next == |path| {
        assert Parts(path, next) == Components([]);
        assert [text] + [] == [text];
        assert [text][..0] == [];
        assert SplitOf(ns, kids, cur, [text]) == if DotName(text) then NoTarget else Target(cur, text);
      } else {
        if to >= 0 { SplitFollows(ns, kids, to, path, next); }
        if Parts(path, next).Components? { SplitStep(ns, kids, cur, text, Parts(path, next).names); }
      }
  }

  lemma SplitStep(ns: Nodes, kids: Kids, cur: int, text: Name, rest: seq<Name>)
    requires Index(cur) && |rest| > 0
    ensures var to := StepTo(ns, kids, cur, text);
            SplitOf(ns, kids, cur, [text] + rest) ==
            if to < 0 || (!DotName(text) && !ns[to].isDir) then NoTarget else SplitOf(ns, kids, to, rest)
  {
    var ps := [text] + rest;
    var front := ps[..|ps| - 1];
    assert front == [text] + rest[..|rest| - 1] && front[1..] == rest[..|rest| - 1];
    assert ps[|ps| - 1] == rest[|rest| - 1];
  }

  /** Where the last of some components is to be found, if all before it lead through directories. */
  ghost function SplitOf(ns: Nodes, kids: Kids, cur: int, ps: seq<Name>): Target
    requires Index(cur) && |ps| > 0
  {
    var front, last := ps[..|ps| - 1], ps[|ps| - 1];
    if Dirs(ns, kids, cur, front) && Follow(ns, kids, cur, front) >= 0 && !DotName(last)
    then Target(Follow(ns, kids, cur, front), last) else NoTarget
  }

  // ---- One component more ----

  lemma {:induction false} SkipsInside(a: seq<byte>, b: seq<byte>, i: nat)
    requires i <= |a|
    ensures SkipSlashes(a, i) < |a| ==> SkipSlashes(a + b, i) == SkipSlashes(a, i)
    ensures SkipSlashes(a, i) == |a| ==> SkipSlashes(a + b, i) == SkipSlashes(a + b, |a|)
    decreases |a| - i
  {
    if i < |a| && a[i] == SLASH { SkipsInside(a, b, i + 1); }
  }

  lemma {:induction false} RunsToEnd(a: seq<byte>, x: seq<byte>, k: nat)
    requires Fitting(x) && k <= |x|
    ensures PartEnd(a + x, |a| + k) == |a| + |x|
    decreases |x| - k
  {
    if k < |x| {
      assert (a + x)[|a| + k] == x[k];
      RunsToEnd(a, x, k + 1);
    }
  }

  /** The components of a path with a slash and one more component behind it. */
  lemma {:induction false} PartsSnoc(a: seq<byte>, x: seq<byte>, i: nat)
    requires Fitting(x) && i < |a| && a[i] != SLASH
    ensures Parts(a + ([SLASH] + x), i) ==
            match Parts(a, i) case Spoilt => Spoilt case Components(ps) => Components(ps + [x])
    decreases |a| - i
  {
    var b := [SLASH] + x;
    PartEndSame(a, b, i);
    var end := PartEnd(a, i);
    assert (a + b)[i..end] == a[i..end];
    SkipsInside(a, b, end);
    if end - i <= NAME_MAX {
      var next := SkipSlashes(a, end);
      if next < |a| {
        PartsSnoc(a, x, next);
        if Parts(a, next).Components? {
          assert [a[i..end]] + (Parts(a, next).names + [x]) == [a[i..end]] + Parts(a, next).names + [x];
        }
      } else {
        LastParts(a, x);
        assert [a[i..end]] + [] + [x] == [a[i..end]] + [x];
      }
    }
  }

  lemma LastParts(a: seq<byte>, x: seq<byte>)
    requires Fitting(x)
    ensures SkipSlashes(a + ([SLASH] + x), |a|) == |a| + 1
    ensures Parts(a + ([SLASH] + x), |a| + 1) == Components([x])
  {
    var path := a + ([SLASH] + x);
    assert path[|a|] == SLASH && path[|a| + 1] == x[0];
    assert SkipSlashes(path, |a| + 1) == |a| + 1;
    assert path == (a + [SLASH]) + x;
    RunsToEnd(a + [SLASH], x, 0);
    assert path[|a| + 1..|path|] == x;
    assert Parts(path, |path|) == Components([]) && [x] + [] == [x];
  }

  lemma AllSnoc(a: seq<byte>, x: seq<byte>)
    requires Fitting(x)
    ensures All(a + ([SLASH] + x)) ==
            match All(a) case Spoilt => Spoilt case Components(ps) => Components(ps + [x])
  {
    SkipsInside(a, [SLASH] + x, 0);
    var i := SkipSlashes(a, 0);
    if i < |a| {
      PartsSnoc(a, x, i);
    } else {
      LastParts(a, x);
      assert [] + [x] == [x];
    }
  }

  lemma {:induction false} FollowSnoc(ns: Nodes, kids: Kids, cur: int, ps: seq<Name>, x: Name)
    requires Index(cur)
    ensures var d := Follow(ns, kids, cur, ps);
            Follow(ns, kids, cur, ps + [x]) == if d < 0 then -1 else StepTo(ns, kids, d, x)
    decreases |ps|
  {
    var qs := ps + [x];
    if |ps| == 0 {
      var to := StepTo(ns, kids, cur, x);
      if to >= 0 { assert qs[1..] == [] && Follow(ns, kids, to, qs[1..]) == to; }
    } else {
      assert qs[1..] == ps[1..] + [x];
      var to := StepTo(ns, kids, cur, ps[0]);
      if to >= 0 { FollowSnoc(ns, kids, to, ps[1..], x); }
    }
  }

  /** A slash and one more component take one step more. */
  lemma StepAppended(ns: Nodes, kids: Kids, cwd: int, path: seq<byte>, x: seq<byte>)
    requires Index(cwd) && |path| > 0 && Fitting(x)
    ensures var d := Resolve(ns, kids, cwd, path);
            Resolve(ns, kids, cwd, path + ([SLASH] + x)) == if d < 0 then -1 else StepTo(ns, kids, d, x)
  {
    ResolveFollows(ns, kids, cwd, path);
    ResolveFollows(ns, kids, cwd, path + ([SLASH] + x));
    AllSnoc(path, x);
    assert (path + ([SLASH] + x))[0] == path[0];
    if All(path).Components? { FollowSnoc(ns, kids, StartOf(cwd, path), All(path).names, x); }
  }

  // ---- Where paths lead ----

  /** `..` leads to the parent, and at the root it stays there; `.` stays everywhere. */
  lemma DotsLead(ns: Nodes, kids: Kids, cwd: int, path: seq<byte>)
    requires Tree(ns, kids) && Index(cwd) && |path| > 0
    requires var d := Resolve(ns, kids, cwd, path); d >= 0 && ns[d].used
    ensures var d := Resolve(ns, kids, cwd, path);
            && Resolve(ns, kids, cwd, path + [0x2F, 0x2E]) == d
            && Resolve(ns, kids, cwd, path + [0x2F, 0x2E, 0x2E]) == if d == 0 then 0 else ns[d].parent
  {
    var d := Resolve(ns, kids, cwd, path);
    var dot, up: seq<byte> := [DOT], [DOT, DOT];
    assert [SLASH] + dot == [0x2F, 0x2E] && [SLASH] + up == [0x2F, 0x2E, 0x2E];
    StepAppended(ns, kids, cwd, path, dot);
    StepAppended(ns, kids, cwd, path, up);
    RootOf(ns, kids);
    var n := LiveNode(ns, kids, d);
  }

  /** Any other component leads to the child that bears the name. */
  lemma NameLeads(ns: Nodes, kids: Kids, cwd: int, path: seq<byte>, x: seq<byte>)
    requires Tree(ns, kids) && Index(cwd) && |path| > 0 && Fitting(x) && x != [0x2E] && x != [0x2E, 0x2E]
    requires Resolve(ns, kids, cwd, path) >= 0
    ensures var d, c := Resolve(ns, kids, cwd, path), Resolve(ns, kids, cwd, path + ([0x2F] + x));
            && (c >= 0 ==> c != 0 && ns[c].used && ns[c].parent == d && ns[c].name == x)
            && (c < 0 ==> forall k :: 0 < k < MAX_NODES && ns[k].used && ns[k].parent == d ==> ns[k].name != x)
  {
    var d := Resolve(ns, kids, cwd, path);
    StepAppended(ns, kids, cwd, path, x);
    ListOf(ns, kids, d);
    assert [SLASH] + x == [0x2F] + x;
    if FindFrom(ns, kids[d], x, 0) == -1 {
      FindFromNone(ns, kids[d], x, 0);
      forall k | 0 < k < MAX_NODES && ns[k].used && ns[k].parent == d ensures ns[k].name != x {
        var n := LiveNode(ns, kids, k);
        var j :| 0 <= j < |kids[d]| && kids[d][j] == k;
      }
    }
  }

  /** A path that begins with a slash starts at the root, any other in the current directory. */
  lemma OneLeads(ns: Nodes, kids: Kids, cwd: int, x: seq<byte>)
    requires Index(cwd) && Fitting(x)
    ensures Resolve(ns, kids, cwd, []) == cwd && Resolve(ns, kids, cwd, [0x2F]) == 0
    ensures Resolve(ns, kids, cwd, x) == Resolve(ns, kids, cwd, [0x2E] + ([0x2F] + x))
  {
    ResolveFollows(ns, kids, cwd, x);
    var dot: seq<byte> := [0x2E];
    ResolveFollows(ns, kids, cwd, dot + ([SLASH] + x));
    AllSnoc(dot, x);
    OneAll(x);
    OneAll(dot);
    assert [SLASH] + x == [0x2F] + x;
    assert ([dot] + [x])[1..] == [x];
    assert StepTo(ns, kids, cwd, dot) == cwd;
    assert SkipSlashes([0x2F], 0) == 1;
  }

  lemma OneAll(x: seq<byte>)
    requires Fitting(x)
    ensures All(x) == Components([x])
  {
    assert [] + x == x && SkipSlashes(x, 0) == 0;
    RunsToEnd([], x, 0);
    assert x[0..|x|] == x && [x] + [] == [x];
    assert Parts(x, |x|) == Components([]);
  }

  // ---- Splitting ----

  /** Splitting off the last component finds the directory that the rest leads to, if all on the way are directories. */
  lemma SplitAppended(ns: Nodes, kids: Kids, cwd: int, path: seq<byte>, x: seq<byte>)
    requires Index(cwd) && |path| > 0 && Fitting(x)
    ensures Split(ns, kids, cwd, path + ([SLASH] + x)) ==
            if All(path).Components? && Dirs(ns, kids, StartOf(cwd, path), All(path).names) && !DotName(x)
            then Target(Resolve(ns, kids, cwd, path), x) else NoTarget
  {
    var whole := path + ([SLASH] + x);
    AllSnoc(path, x);
    ResolveFollows(ns, kids, cwd, path);
    assert whole[0] == path[0];
    SkipsInside(path, [SLASH] + x, 0);
    LastParts(path, x);
    SplitFollows(ns, kids, StartOf(cwd, path), whole, SkipSlashes(whole, 0));
    if All(path).Components? {
      var ps := All(path).names;
      assert (ps + [x])[..|ps|] == ps;
      if Dirs(ns, kids, StartOf(cwd, path), ps) { DirsFollow(ns, kids, StartOf(cwd, path), ps); }
    }
  }

  lemma {:induction false} DirsFollow(ns: Nodes, kids: Kids, cur: int, ps: seq<Name>)
    requires Index(cur) && Dirs(ns, kids, cur, ps)
    ensures Follow(ns, kids, cur, ps) >= 0
    decreases |ps|
  {
    if |ps| > 0 { DirsFollow(ns, kids, StepTo(ns, kids, cur, ps[0]), ps[1..]); }
  }

  // ---- In a directory just made ----

  lemma {:induction false} FollowKept(ns: Nodes, kids: Kids, ns': Nodes, kids': Kids, p: nat, name: Name, isDir: bool,
                                      x: nat, cur: int, ps: seq<Name>)
    requires Tree(ns, kids) && Created(ns, kids, ns', kids', p, name, isDir, x) && Child(ns, kids, p, name) == -1
    requires Index(cur) && ns[cur].used && Follow(ns, kids, cur, ps) >= 0
    ensures Follow(ns', kids', cur, ps) == Follow(ns, kids, cur, ps)
    decreases |ps|
  {
    if |ps| > 0 {
      CreatedChild(ns, kids, ns', kids', p, name, isDir, x, cur, ps[0]);
      var to := StepTo(ns, kids, cur, ps[0]);
      StepLive(ns, kids, cur, ps[0]);
      FollowKept(ns, kids, ns', kids', p, name, isDir, x, to, ps[1..]);
    }
  }

  /** A path that leads somewhere leads there still when something has been made. */
  lemma ResolveKept(ns: Nodes, kids: Kids, ns': Nodes, kids': Kids, p: nat, name: Name, isDir: bool, x: nat, cwd: nat,
                    path: seq<byte>)
    requires Tree(ns, kids) && Created(ns, kids, ns', kids', p, name, isDir, x) && Child(ns, kids, p, name) == -1
    requires Index(cwd) && ns[cwd].used && Resolve(ns, kids, cwd, path) >= 0
    ensures Resolve(ns', kids', cwd, path) == Resolve(ns, kids, cwd, path)
  {
    RootOf(ns, kids);
    ResolveFollows(ns, kids, cwd, path);
    ResolveFollows(ns', kids', cwd, path);
    FollowKept(ns, kids, ns', kids', p, name, isDir, x, StartOf(cwd, path), All(path).names);
  }

  /** In what has just been made in a directory, `..` leads back to the directory. */
  lemma MadeThenUp(ns: Nodes, kids: Kids, ns': Nodes, kids': Kids, p: nat, name: Name, isDir: bool, x: nat, cwd: nat,
                   path: seq<byte>)
    requires Tree(ns, kids) && Created(ns, kids, ns', kids', p, name, isDir, x) && Child(ns, kids, p, name) == -1
    requires Tree(ns', kids') && GoodName(name)
    requires Index(cwd) && ns[cwd].used && |path| > 0 && Resolve(ns, kids, cwd, path) == p
    ensures Resolve(ns', kids', cwd, path + ([0x2F] + name)) == x
    ensures Resolve(ns', kids', cwd, path + ([0x2F] + name) + [0x2F, 0x2E, 0x2E]) == p
  {
    ResolveKept(ns, kids, ns', kids', p, name, isDir, x, cwd, path);
    GoodIsFitting(name);
    StepAppended(ns', kids', cwd, path, name);
    CreatedChild(ns, kids, ns', kids', p, name, isDir, x, p, name);
    assert [SLASH] + name == [0x2F] + name;
    DotsLead(ns', kids', cwd, path + ([0x2F] + name));
  }

  lemma GoodIsFitting(name: Name)
    requires GoodName(name)
    ensures Fitting(name) && name != [DOT] && name != [DOT, DOT]
  {
    forall i | 0 <= i < |name| ensures name[i] != 0x2F { assert name[i] in name; }
  }
}
