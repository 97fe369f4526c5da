/** Whole runs of path operations: the volume refines a map from names to bytes. */
module Fat32Runs {
  import opened Options
  import opened MachineBytes
  import opened BlockDevices
  import opened Fat32Layout
  import opened Fat32Volume
  import opened Fat32Slots
  import opened Fat32Tree
  import opened Fat32Files
  import opened Fat32Paths
  import opened Fat32View
  import opened Fat32Write
  import opened Fat32Api
  import opened Fat32Remove
  import opened Fat32Mkdir

  datatype Op = Touch(t: Target) | Write(t: Target, data: seq<byte>) | Remove(t: Target) | Mkdir(t: Target)

  /** A successful operation, without a device fault, as the contracts of the path operations give it. */
  ghost predicate Step(g: Geometry, v: View, w: View, op: Op) {
    match op
    case Touch(t) => Touched(g, v, w, t)
    case Write(t, data) => exists needed :: FileWritten(g, v, w, t, data, needed)
    case Remove(t) => Removed(g, v, w, t)
    case Mkdir(t) => DirectoryMade(g, v, w, t)
  }

  /** What a name reads as after an operation, from what it read as before. */
  function Effect(op: Op, t: Target, before: Option<seq<byte>>): Option<seq<byte>> {
    if t != op.t then before
    else match op
      case Touch(_) => if before.Some? then before else if t.name[0] == DELETED then None else Some([])
      case Write(_, data) => Some(data)
      case Remove(_) => None
      case Mkdir(_) => None
  }

  ghost function EffectOfAll(ops: seq<Op>, t: Target, before: Option<seq<byte>>): Option<seq<byte>> {
    if |ops| == 0 then before else Effect(ops[|ops| - 1], t, EffectOfAll(ops[..|ops| - 1], t, before))
  }

  /** Each operation keeps the volume good and changes what names read as exactly as its effect says. */
  lemma StepRefines(g: Geometry, v: View, w: View, op: Op, t: Target)
    requires Good(g, v) && Step(g, v, w, op)
    ensures Good(g, w) && Reads(w, t) == Effect(op, t, Reads(v, t))
  {
    match op
    case Touch(u) =>
      if w != v {
        OthersKept(g, v, w, u, {u.dir});
        if t != u { assert Reads(w, t) == Reads(v, t); }
      }
    case Write(u, data) =>
    case Remove(u) =>
    case Mkdir(u) =>
  }

  // ---- Runs of calls ----

  /** A call of one of the operations, with its path. */
  datatype Call = CallTouch(path: seq<byte>) | CallWrite(path: seq<byte>, data: seq<byte>)
                | CallRemove(path: seq<byte>) | CallMkdir(path: seq<byte>)

  /** The operation a call comes to once its path leads to t. */
  function OpOf(call: Call, t: Target): Op {
    match call
    case CallTouch(_) => Touch(t)
    case CallWrite(_, data) => Write(t, data)
    case CallRemove(_) => Remove(t)
    case CallMkdir(_) => Mkdir(t)
  }

  predicate Callable(call: Call) { 0 !in call.path && (call.CallWrite? ==> |call.data| < 0x1_0000_0000) }

  /** From v to w the call on t was refused: it could not succeed, and no name reads differently for it. */
  ghost predicate Refused(g: Geometry, v: View, w: View, call: Call, t: Target) {
    match call
    case CallTouch(_) => Untouchable(v, t) && w == v
    case CallWrite(_, _) => WriteRefused(g, v, w, t)
    case CallRemove(_) => Unremovable(v, t) && w == v
    case CallMkdir(_) => Unmakeable(v, t) && Unmade(g, v, w, t)
  }

  ghost function Leads(g: Geometry, v: View, call: Call): Option<Target> {
    Resolve(g.root, v.dirs, g.root, call.path, 0)
  }

  /** From v to w the call was answered, with success or without. */
  ghost predicate Answered(g: Geometry, v: View, w: View, call: Call, ok: bool) {
    match Leads(g, v, call)
    case None => !ok && w == v
    case Some(t) => if ok then Step(g, v, w, OpOf(call, t)) else Refused(g, v, w, call, t)
  }

  /** A write that ran out of clusters, which is where a run has to end. */
  ghost predicate RanOut(g: Geometry, v: View, call: Call) {
    && call.CallWrite? && Leads(g, v, call).Some?
    && exists needed :: TooLarge(g, v, Leads(g, v, call).value, call.data, needed)
  }

  /** The operations that the successful calls among the first |oks| came to. */
  ghost function Done(g: Geometry, views: seq<View>, calls: seq<Call>, oks: seq<bool>): seq<Op>
    requires |oks| <= |calls| && |oks| <= |views|
  {
    if |oks| == 0 then [] else
      var n := |oks| - 1;
      var t := Leads(g, views[n], calls[n]);
      Done(g, views, calls, oks[..n]) + if oks[n] && t.Some? then [OpOf(calls[n], t.value)] else []
  }

  /** A refused call keeps the volume good and changes what no name reads as. */
  lemma RefusedReads(g: Geometry, v: View, w: View, call: Call, t: Target)
    requires Good(g, v) && t.dir in v.dirs && Refused(g, v, w, call, t)
    ensures Good(g, w) && forall t' :: Reads(w, t') == Reads(v, t')
  {
    if w != v {
      OthersKept(g, v, w, t, {t.dir});
      var other := Target(t.dir, t.name[0 := if t.name[0] == 0 then 1 else 0]);
      if call.CallMkdir? {
        OthersKept(g, v, w, other, {t.dir});
        assert Reads(w, t) == Reads(v, t);
      }
      forall t' ensures Reads(w, t') == Reads(v, t') { assert t' != t ==> Reads(w, t') == Reads(v, t'); }
    }
  }

  /** A path leads to a name in a directory of the tree. */
  lemma {:induction false} ResolvedInside(root: nat, spc: nat, chains: Chains, dirs: Dirs, cur: nat, path: seq<byte>,
                                          i: nat)
    requires TreeOk(root, spc, chains, dirs) && cur in dirs && i <= |path|
    ensures Resolve(root, dirs, cur, path, i).Some? ==> Resolve(root, dirs, cur, path, i).value.dir in dirs
    decreases |path| - i
  {
    match NextTurn(path, i)
    case Malformed =>
    case Leaf(_) =>
    case Descend(text, next) =>
      if Lookup(dirs, cur, DotDotName()).Some? { DotIsDirectory(root, spc, chains, dirs, cur); }
      if Name83(text).Some? && Lookup(dirs, cur, Name83(text).value).Some? {
        FoundEntry(root, spc, chains, dirs, cur, Name83(text).value);
      }
      var d := Fat32Paths.Step(root, dirs, cur, text);
      if d.Some? { ResolvedInside(root, spc, chains, dirs, d.value, path, next); }
  }

  /** An answered call keeps the volume good and has the effect of the operation it came to, or none. */
  lemma AnsweredReads(g: Geometry, v: View, w: View, call: Call, ok: bool, t: Target)
    requires Good(g, v) && Answered(g, v, w, call, ok)
    ensures Good(g, w)
    ensures Reads(w, t) == match Leads(g, v, call)
                           case None => Reads(v, t)
                           case Some(u) => if ok then Effect(OpOf(call, u), t, Reads(v, t)) else Reads(v, t)
  {
    match Leads(g, v, call)
    case None =>
    case Some(u) =>
      ResolvedInside(g.root, g.spc, v.chains, v.dirs, g.root, call.path, 0);
      if ok { StepRefines(g, v, w, OpOf(call, u), t); } else { RefusedReads(g, v, w, call, u); }
  }

  /** The state of the driver, as a view. */
  ghost function Now(fs: Fat32, chains: Chains, dirs: Dirs): View
    reads fs
  {
    View(fs.links, fs.clusters, chains, dirs)
  }

  method MakeWrite(fs: Fat32, path: seq<byte>, data: seq<byte>, ghost chains: Chains, ghost dirs: Dirs)
    returns (ok: bool, lost: bool, ghost chains': Chains, ghost dirs': Dirs)
    requires Sound(fs, chains, dirs) && fs.dev.canWrite && Callable(CallWrite(path, data))
    modifies fs`ageCounter, fs`links, fs`agree, fs`lowest, fs`clusters, fs`allocHint, fs.dev, fs.dataCache, fs.fatCache
    ensures fs.Valid() && fs.dev.faults >= old(fs.dev.faults)
    ensures fs.dev.faults == old(fs.dev.faults) ==>
              if lost then !ok && RanOut(fs.g, old(Now(fs, chains, dirs)), CallWrite(path, data))
              else Answered(fs.g, old(Now(fs, chains, dirs)), Now(fs, chains', dirs'), CallWrite(path, data), ok)
    ensures fs.dev.faults == old(fs.dev.faults) ==> fs.Steady(old(fs.agree), old(fs.lowest))
  {
    ghost var needed;
    ok, lost, chains', dirs', needed := WriteFilePath(fs, path, data, chains, dirs);
  }

  method MakeRemove(fs: Fat32, path: seq<byte>, ghost chains: Chains, ghost dirs: Dirs)
    returns (ok: bool, ghost chains': Chains, ghost dirs': Dirs)
    requires Sound(fs, chains, dirs) && fs.dev.canWrite && Callable(CallRemove(path))
    modifies fs`ageCounter, fs`links, fs`agree, fs`lowest, fs`clusters, fs`allocHint, fs.dev, fs.dataCache, fs.fatCache
    ensures fs.Valid() && fs.dev.faults >= old(fs.dev.faults)
    ensures fs.dev.faults == old(fs.dev.faults) ==>
              Answered(fs.g, old(Now(fs, chains, dirs)), Now(fs, chains', dirs'), CallRemove(path), ok)
    ensures fs.dev.faults == old(fs.dev.faults) ==> fs.Steady(old(fs.agree), old(fs.lowest))
  {
    ok, chains', dirs' := RemovePath(fs, path, chains, dirs);
  }

  method MakeMkdir(fs: Fat32, path: seq<byte>, ghost chains: Chains, ghost dirs: Dirs)
    returns (ok: bool, ghost chains': Chains, ghost dirs': Dirs)
    requires Sound(fs, chains, dirs) && fs.dev.canWrite && Callable(CallMkdir(path))
    modifies fs`ageCounter, fs`links, fs`agree, fs`lowest, fs`clusters, fs`allocHint, fs.dev, fs.dataCache, fs.fatCache
    ensures fs.Valid() && fs.dev.faults >= old(fs.dev.faults)
    ensures fs.dev.faults == old(fs.dev.faults) ==>
              Answered(fs.g, old(Now(fs, chains, dirs)), Now(fs, chains', dirs'), CallMkdir(path), ok)
    ensures fs.dev.faults == old(fs.dev.faults) ==> fs.Steady(old(fs.agree), old(fs.lowest))
  {
    ok, chains', dirs' := MkdirPath(fs, path, chains, dirs);
  }

  /** Makes one call. */
  method MakeCall(fs: Fat32, call: Call, ghost chains: Chains, ghost dirs: Dirs)
    returns (ok: bool, lost: bool, ghost chains': Chains, ghost dirs': Dirs)
    requires Sound(fs, chains, dirs) && fs.dev.canWrite && Callable(call)
    modifies fs`ageCounter, fs`links, fs`agree, fs`lowest, fs`clusters, fs`allocHint, fs.dev, fs.dataCache, fs.fatCache
    ensures fs.Valid() && fs.dev.faults >= old(fs.dev.faults)
    ensures fs.dev.faults == old(fs.dev.faults) ==>
              if lost then !ok && RanOut(fs.g, old(Now(fs, chains, dirs)), call)
              else Answered(fs.g, old(Now(fs, chains, dirs)), Now(fs, chains', dirs'), call, ok)
    ensures fs.dev.faults == old(fs.dev.faults) ==> fs.Steady(old(fs.agree), old(fs.lowest))
  {
    lost := false;
    match call {
      case CallTouch(path) => ok, chains', dirs' := TouchFilePath(fs, path, chains, dirs);
      case CallWrite(path, data) => ok, lost, chains', dirs' := MakeWrite(fs, path, data, chains, dirs);
      case CallRemove(path) => ok, chains', dirs' := MakeRemove(fs, path, chains, dirs);
      case CallMkdir(path) => ok, chains', dirs' := MakeMkdir(fs, path, chains, dirs);
    }
  }

  /** The views that a run passed through, each the answer to a call on the one before. */
  ghost predicate Passed(g: Geometry, views: seq<View>, calls: seq<Call>, oks: seq<bool>) {
    && |oks| <= |calls| && |views| == |oks| + 1
    && (forall i {:trigger views[i]} :: 0 <= i < |views| ==> Good(g, views[i]))
    && forall i {:trigger Answered(g, views[i], views[i + 1], calls[i], oks[i])} :: 0 <= i < |oks| ==>
         Answered(g, views[i], views[i + 1], calls[i], oks[i])
  }

  lemma PassedOn(g: Geometry, views: seq<View>, calls: seq<Call>, oks: seq<bool>, w: View, ok: bool)
    requires Passed(g, views, calls, oks) && |oks| < |calls| && Answered(g, views[|oks|], w, calls[|oks|], ok)
    ensures Passed(g, views + [w], calls, oks + [ok])
  {
    var n, views', oks' := |oks|, views + [w], oks + [ok];
    var t := Target(0, DotDotName());
    AnsweredReads(g, views[n], w, calls[n], ok, t);
    forall i | 0 <= i < n + 1 ensures Answered(g, views'[i], views'[i + 1], calls[i], oks'[i]) {
      if i < n { assert Answered(g, views[i], views[i + 1], calls[i], oks[i]); }
    }
  }

  lemma PassedEarlier(g: Geometry, views: seq<View>, calls: seq<Call>, oks: seq<bool>)
    requires Passed(g, views, calls, oks) && |oks| > 0
    ensures Passed(g, views[..|oks|], calls, oks[..|oks| - 1])
  {
    var n := |oks| - 1;
    forall i | 0 <= i < n ensures Answered(g, views[..n + 1][i], views[..n + 1][i + 1], calls[i], oks[..n][i]) {
      assert Answered(g, views[i], views[i + 1], calls[i], oks[i]);
    }
  }

  /** What the last call of a run changed. */
  lemma LastReads(g: Geometry, views: seq<View>, calls: seq<Call>, oks: seq<bool>, t: Target)
    requires Passed(g, views, calls, oks) && |oks| > 0
    ensures var n := |oks| - 1;
            var u := Leads(g, views[n], calls[n]);
            Reads(views[n + 1], t) ==
                if oks[n] && u.Some? then Effect(OpOf(calls[n], u.value), t, Reads(views[n], t)) else Reads(views[n], t)
  {
    var n := |oks| - 1;
    assert Answered(g, views[n], views[n + 1], calls[n], oks[n]);
    AnsweredReads(g, views[n], views[n + 1], calls[n], oks[n], t);
  }

  /** After any run of calls, refused ones included, every name reads as the successful operations on it say. */
  lemma {:induction false} PassedReads(g: Geometry, views: seq<View>, calls: seq<Call>, oks: seq<bool>, t: Target)
    requires Passed(g, views, calls, oks)
    ensures Reads(views[|oks|], t) == EffectOfAll(Done(g, views, calls, oks), t, Reads(views[0], t))
    decreases |oks|
  {
    if |oks| > 0 {
      var n := |oks| - 1;
      var ops, u := Done(g, views, calls, oks[..n]), Leads(g, views[n], calls[n]);
      PassedEarlier(g, views, calls, oks);
      PassedReads(g, views[..n + 1], calls, oks[..n], t);
      DoneEarlier(g, views, calls, oks[..n]);
      LastReads(g, views, calls, oks, t);
      assert views[..n + 1][n] == views[n] && ops + [] == ops;
      if oks[n] && u.Some? { EffectOfOne(ops, OpOf(calls[n], u.value), t, Reads(views[0], t)); }
    }
  }

  lemma EffectOfOne(ops: seq<Op>, op: Op, t: Target, before: Option<seq<byte>>)
    ensures EffectOfAll(ops + [op], t, before) == Effect(op, t, EffectOfAll(ops, t, before))
  {
    assert (ops + [op])[..|ops|] == ops;
  }

  /** What was done depends on the views passed so far only. */
  lemma {:induction false} DoneEarlier(g: Geometry, views: seq<View>, calls: seq<Call>, oks: seq<bool>)
    requires |oks| <= |calls| && |oks| < |views|
    ensures Done(g, views[..|oks| + 1], calls, oks) == Done(g, views, calls, oks)
    decreases |oks|
  {
    if |oks| > 0 {
      var n := |oks| - 1;
      DoneEarlier(g, views, calls, oks[..n]);
      DoneEarlier(g, views[..n + 2], calls, oks[..n]);
      assert views[..n + 2][..n + 1] == views[..n + 1];
    }
  }

  /** Makes the calls one after the other, successful or refused, up to a failed device request or a write that runs
      out of clusters. As far as it gets, the volume stays a sound tree, every name reads as the successful calls on
      it say, the FAT copies go on agreeing, and no cluster below the allocation hint is ever free. */
  method RunCalls(fs: Fat32, calls: seq<Call>, ghost chains: Chains, ghost dirs: Dirs)
    returns (oks: seq<bool>, ghost chains': Chains, ghost dirs': Dirs, ghost views: seq<View>)
    requires Sound(fs, chains, dirs) && fs.dev.canWrite && forall i :: 0 <= i < |calls| ==> Callable(calls[i])
    modifies fs`ageCounter, fs`links, fs`agree, fs`lowest, fs`clusters, fs`allocHint, fs.dev, fs.dataCache, fs.fatCache
    ensures fs.Valid() && fs.dev.faults >= old(fs.dev.faults)
    ensures Passed(fs.g, views, calls, oks) && views[0] == old(Now(fs, chains, dirs))
    ensures forall t :: Reads(views[|oks|], t) == EffectOfAll(Done(fs.g, views, calls, oks), t, Reads(views[0], t))
    ensures if |oks| == |calls|
            then Sound(fs, chains', dirs') && Now(fs, chains', dirs') == views[|oks|] &&
              fs.Steady(old(fs.agree), old(fs.lowest))
            else fs.dev.faults > old(fs.dev.faults) || RanOut(fs.g, views[|oks|], calls[|oks|])
  {
    oks, chains', dirs' := [], chains, dirs;
    views := [Now(fs, chains, dirs)];
    for n := 0 to |calls|
      invariant Sound(fs, chains', dirs') && fs.dev.faults == old(fs.dev.faults)
      invariant |oks| == n && Passed(fs.g, views, calls, oks) && views[0] == old(Now(fs, chains, dirs))
      invariant views[n] == Now(fs, chains', dirs') && fs.Steady(old(fs.agree), old(fs.lowest))
    {
      var ok, lost;
      var faults := fs.dev.faults;
      ok, lost, chains', dirs' := MakeCall(fs, calls[n], chains', dirs');
      if fs.dev.faults > faults || lost { break; }
      PassedOn(fs.g, views, calls, oks, Now(fs, chains', dirs'), ok);
      oks, views := oks + [ok], views + [Now(fs, chains', dirs')];
    }
    forall t ensures Reads(views[|oks|], t) == EffectOfAll(Done(fs.g, views, calls, oks), t, Reads(views[0], t)) {
      PassedReads(fs.g, views, calls, oks, t);
    }
  }

  // ---- Paths ----

  /** Where every directory of the first tree is still one, and names other than t denote what they denoted, a path
      that led somewhere without t leads there still. */
  lemma {:induction false} ResolveKept(root: nat, spc: nat, chains: Chains, dirs: Dirs, dirs': Dirs, t: Target,
                                       cur: nat, path: seq<byte>, i: nat)
    requires TreeOk(root, spc, chains, dirs) && dirs.Keys <= dirs'.Keys && cur in dirs && i <= |path|
    requires forall t': Target :: t' != t && t'.dir in dirs ==>
             Lookup(dirs', t'.dir, t'.name) == Lookup(dirs, t'.dir, t'.name)
    requires Lookup(dirs, t.dir, t.name) == None && t.name[0] != DOT
    ensures Resolve(root, dirs, cur, path, i).Some? ==>
            Resolve(root, dirs', cur, path, i) == Resolve(root, dirs, cur, path, i)
    decreases |path| - i
  {
    match NextTurn(path, i)
    case Malformed =>
    case Leaf(_) =>
    case Descend(text, next) =>
      var d := Step83(root, spc, chains, dirs, dirs', t, cur, text);
      if d.Some? { ResolveKept(root, spc, chains, dirs, dirs', t, d.value, path, next); }
  }

  lemma Step83(root: nat, spc: nat, chains: Chains, dirs: Dirs, dirs': Dirs, t: Target, cur: nat, text: seq<byte>)
    returns (d: Option<nat>)
    requires TreeOk(root, spc, chains, dirs) && dirs.Keys <= dirs'.Keys && cur in dirs
    requires forall t': Target :: t' != t && t'.dir in dirs ==>
             Lookup(dirs', t'.dir, t'.name) == Lookup(dirs, t'.dir, t'.name)
    requires Lookup(dirs, t.dir, t.name) == None && t.name[0] != DOT
    ensures d == Fat32Paths.Step(root, dirs, cur, text)
    ensures d.Some? ==> d.value in dirs && Fat32Paths.Step(root, dirs', cur, text) == d
  {
    d := Fat32Paths.Step(root, dirs, cur, text);
    assert DotDotName()[0] == DOT && Target(cur, DotDotName()) != t;
    assert Lookup(dirs', cur, DotDotName()) == Lookup(dirs, cur, DotDotName()) by {
      var u := Target(cur, DotDotName());
      assert Lookup(dirs', u.dir, u.name) == Lookup(dirs, u.dir, u.name);
    }
    if Lookup(dirs, cur, DotDotName()).Some? {
      FoundEntry(root, spc, chains, dirs, cur, DotDotName());
      DotIsDirectory(root, spc, chains, dirs, cur);
    }
    if Name83(text).Some? && Lookup(dirs, cur, Name83(text).value).Some? {
      var u := Target(cur, Name83(text).value);
      assert Lookup(dirs', u.dir, u.name) == Lookup(dirs, u.dir, u.name);
      FoundEntry(root, spc, chains, dirs, cur, u.name);
    }
  }

  lemma DotIsDirectory(root: nat, spc: nat, chains: Chains, dirs: Dirs, d: nat)
    requires TreeOk(root, spc, chains, dirs) && d in dirs && Lookup(dirs, d, DotDotName()).Some?
    ensures var e := Lookup(dirs, d, DotDotName()).value;
            IsDirectory(e) && (FirstCluster(e) >= 2 ==> FirstCluster(e) in dirs)
  {
    FoundEntry(root, spc, chains, dirs, d, DotDotName());
    var e := Lookup(dirs, d, DotDotName()).value;
    assert NameOf(e)[0] == e[0] == DOT;
  }

  /** Removing t adds no path: what resolves afterwards resolved to the same place before. */
  lemma RemovedPaths(g: Geometry, v: View, w: View, t: Target, path: seq<byte>)
    requires Good(g, v) && Removed(g, v, w, t) && Spelled(t.name)
    ensures Resolve(g.root, w.dirs, g.root, path, 0).Some? ==>
              Resolve(g.root, v.dirs, g.root, path, 0) == Resolve(g.root, w.dirs, g.root, path, 0)
  {
    ResolveKept(g.root, g.spc, w.chains, w.dirs, v.dirs, t, g.root, path, 0);
  }

  /** Making t loses no path: what resolved before resolves to the same place. */
  lemma MadePaths(g: Geometry, v: View, w: View, t: Target, path: seq<byte>)
    requires Good(g, v) && DirectoryMade(g, v, w, t) && Spelled(t.name)
    ensures Resolve(g.root, v.dirs, g.root, path, 0).Some? ==>
              Resolve(g.root, w.dirs, g.root, path, 0) == Resolve(g.root, v.dirs, g.root, path, 0)
  {
    ResolveKept(g.root, g.spc, v.chains, v.dirs, w.dirs, t, g.root, path, 0);
  }
}
