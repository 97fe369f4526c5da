/** Path names: splitting, 8.3 names, and walking the directory tree. */
module Fat32Paths {
  import opened Options
  import opened MachineBytes
  import opened BlockDevices
  import opened Fat32Layout
  import opened Fat32Volume
  import opened Fat32Chains
  import opened Fat32Slots
  import opened Fat32Directory
  import opened Fat32Room
  import opened Fat32Tree

  const SPACE: byte := 0x20

  predicate IsSeparator(b: byte) { b == 0x2F || b == 0x5C }

  function Upcase(b: byte): byte { if 0x61 <= b <= 0x7A then b - 0x20 else b }

  // ---- 8.3 names ----

  function FirstDot(name: seq<byte>): (r: nat)
    ensures r <= |name| && DOT !in name[..r] && (r < |name| ==> name[r] == DOT)
  {
    if |name| == 0 || name[0] == DOT then 0 else 1 + FirstDot(name[1..])
  }

  /** A base of one to eight bytes, then perhaps a dot and an extension of up to three, without separators. */
  predicate Is83(name: seq<byte>) {
    var dot := FirstDot(name);
    && 1 <= dot <= 8
    && (dot < |name| ==> |name| - dot - 1 <= 3 && DOT !in name[dot + 1..])
    && forall i :: 0 <= i < |name| ==> !IsSeparator(name[i])
  }

  /** The name as a directory stores it: base and extension in upper case, padded with spaces. */
  function Packed(name: seq<byte>): Name {
    seq(11, k requires 0 <= k < 11 => PackedByte(name, k))
  }

  function PackedByte(name: seq<byte>, k: nat): byte
    requires k < 11
  {
    var dot := FirstDot(name);
    if k < 8 then if k < dot then Upcase(name[k]) else SPACE
    else if dot + k - 7 < |name| then Upcase(name[dot + k - 7]) else SPACE
  }

  function Name83(name: seq<byte>): Option<Name> { if Is83(name) then Some(Packed(name)) else None }

  /** A name is a base of one to eight bytes, or one with a dot and an extension of up to three. */
  ghost predicate Spelt(name: seq<byte>, base: seq<byte>, ext: seq<byte>) {
    && (name == base + [0x2E] + ext || (name == base && ext == []))
    && 1 <= |base| <= 8 && |ext| <= 3 && Plain(base) && Plain(ext)
  }

  ghost predicate Plain(s: seq<byte>) {
    forall i :: 0 <= i < |s| ==> s[i] != 0x2E && s[i] != 0x2F && s[i] != 0x5C
  }

  ghost predicate Capital(c: byte, x: byte) {
    if 'a' as int <= x <= 'z' as int then c - 'A' as int == x - 'a' as int else c == x
  }

  /** Eleven bytes: the base in capitals and blanks up to eight, the extension in capitals and blanks up to three. */
  ghost predicate Stores(p: Name, base: seq<byte>, ext: seq<byte>)
    requires |base| <= 8 && |ext| <= 3
  {
    && (forall k :: 0 <= k < |base| ==> Capital(p[k], base[k])) && (forall k :: |base| <= k < 8 ==> p[k] == 0x20)
    && (forall k :: 0 <= k < |ext| ==> Capital(p[8 + k], ext[k])) && (forall k :: 8 + |ext| <= k < 11 ==> p[k] == 0x20)
  }

  lemma {:induction false} FirstDotIs(name: seq<byte>, k: nat)
    requires k <= |name| && DOT !in name[..k] && (k < |name| ==> name[k] == DOT)
    ensures FirstDot(name) == k
  {
    if k > 0 {
      assert name[0] == name[..k][0] && name[1..][..k - 1] == name[..k][1..];
      FirstDotIs(name[1..], k - 1);
    }
  }

  /** What is stored for a name. */
  lemma SpeltStores(name: seq<byte>, base: seq<byte>, ext: seq<byte>)
    requires Spelt(name, base, ext)
    ensures Name83(name).Some? && Stores(Name83(name).value, base, ext)
  {
    assert forall i :: 0 <= i < |base| ==> name[i] == base[i];
    assert name[..|base|] == base;
    FirstDotIs(name, |base|);
    if |base| < |name| { assert name[|base| + 1..] == ext; }
    forall k | 0 <= k < |ext| ensures Capital(Packed(name)[8 + k], ext[k]) {
      var j := 8 + k;
      assert name[|base| + j - 7] == ext[k];
      assert Packed(name)[j] == Upcase(ext[k]);
    }
  }

  /** No other name is stored. */
  lemma StoredSpelt(name: seq<byte>)
    requires Name83(name).Some?
    ensures exists base, ext :: Spelt(name, base, ext)
  {
    var d := FirstDot(name);
    var base, ext := name[..d], if d < |name| then name[d + 1..] else [];
    assert d < |name| ==> name == base + [0x2E] + ext;
    assert Spelt(name, base, ext);
  }

  method NameTo83(name: seq<byte>) returns (r: Option<Name>)
    ensures r == Name83(name)
    ensures forall base, ext {:trigger Spelt(name, base, ext)} :: Spelt(name, base, ext) ==>
              r.Some? && Stores(r.value, base, ext)
    ensures r.Some? ==> exists base, ext :: Spelt(name, base, ext)
  {
    forall base, ext | Spelt(name, base, ext) ensures Name83(name).Some? && Stores(Name83(name).value, base, ext) {
      SpeltStores(name, base, ext);
    }
    if Name83(name).Some? { StoredSpelt(name); }
    r := PackName(name);
  }

  method PackName(name: seq<byte>) returns (r: Option<Name>)
    ensures r == Name83(name)
  {
    var out: seq<byte> := seq(11, _ => SPACE);
    var baseLen, extLen, inExt, i := 0, 0, false, 0;
    ghost var dot := FirstDot(name);
    while i < |name|
      invariant 0 <= i <= |name| && |out| == 11 && baseLen <= 8 && extLen <= 3
      invariant inExt == (dot < i) && baseLen == (if inExt then dot else i)
      invariant inExt ==> extLen == i - dot - 1
      invariant !inExt ==> extLen == 0
      invariant forall k :: 0 <= k < i ==> !IsSeparator(name[k]) && (name[k] == DOT ==> k == dot)
      invariant forall k :: 0 <= k < 8 ==> out[k] == if k < baseLen then Upcase(name[k]) else SPACE
      invariant forall k :: 8 <= k < 11 ==> out[k] == if k - 8 < extLen then Upcase(name[dot + k - 7]) else SPACE
    {
      var c := Upcase(name[i]);
      if IsSeparator(c) { return None; }
      if c == DOT {
        if inExt { assert DOT in name[dot + 1..] by { assert name[dot + 1..][i - dot - 1] == DOT; } return None; }
        inExt := true;
      } else if !inExt {
        if baseLen >= 8 { return None; }
        out := out[baseLen := c];
        baseLen := baseLen + 1;
      } else {
        if extLen >= 3 { return None; }
        out := out[8 + extLen := c];
        extLen := extLen + 1;
      }
      i := i + 1;
    }
    if baseLen == 0 { return None; }
    assert out == Packed(name);
    r := Some(out);
  }

  // ---- Path parts ----

  datatype Part = TooLong | End | Part(text: seq<byte>, next: nat)

  function SkipSeparators(path: seq<byte>, i: nat): (r: nat)
    requires i <= |path|
    ensures i <= r <= |path| && (r < |path| ==> !IsSeparator(path[r]))
    decreases |path| - i
  {
    if i < |path| && IsSeparator(path[i]) then SkipSeparators(path, i + 1) else i
  }

  function PartEnd(path: seq<byte>, i: nat): (r: nat)
    requires i <= |path|
    ensures i <= r <= |path| && (i < |path| && !IsSeparator(path[i]) ==> i < r)
    decreases |path| - i
  {
    if i < |path| && !IsSeparator(path[i]) then PartEnd(path, i + 1) else i
  }

  const PART_MAX: nat := 15

  /** The next component from position i on, unless it is longer than the fifteen bytes a buffer holds. */
  function NextPart(path: seq<byte>, i: nat): (r: Part)
    requires i <= |path|
    ensures r.Part? ==> i < r.next <= |path| && 1 <= |r.text| <= PART_MAX
  {
    var start := SkipSeparators(path, i);
    var end := PartEnd(path, start);
    if start == |path| then End else if end - start > PART_MAX then TooLong else Part(path[start..end], end)
  }

  method PathNextPart(path: seq<byte>, i: nat) returns (r: Part)
    requires i <= |path|
    ensures r == NextPart(path, i)
  {
    var p := i;
    while p < |path| && IsSeparator(path[p])
      invariant i <= p <= |path| && SkipSeparators(path, i) == SkipSeparators(path, p)
    {
      p := p + 1;
    }
    if p == |path| { return End; }
    var start := p;
    var out: seq<byte> := [];
    while p < |path| && !IsSeparator(path[p])
      invariant start <= p <= |path| && out == path[start..p] && |out| <= PART_MAX
      invariant PartEnd(path, start) == PartEnd(path, p)
    {
      if |out| + 1 >= 16 { assert PartEnd(path, p) > p; return TooLong; }
      out := out + [path[p]];
      p := p + 1;
    }
    r := Part(out, p);
  }

  // ---- Walking the tree ----

  const DOT_TEXT: seq<byte> := [DOT]

  const DOT_DOT_TEXT: seq<byte> := [DOT, DOT]

  ghost function ParentOf(root: nat, dirs: Dirs, d: nat): nat {
    if d == root then root
    else match Lookup(dirs, d, DotDotName())
      case None => root
      case Some(e) => if FirstCluster(e) < 2 then root else FirstCluster(e)
  }

  /** The directory one component leads to. */
  ghost function Step(root: nat, dirs: Dirs, cur: nat, text: seq<byte>): Option<nat> {
    if text == DOT_TEXT then Some(cur)
    else if text == DOT_DOT_TEXT then Some(ParentOf(root, dirs, cur))
    else match Name83(text)
      case None => None
      case Some(name) =>
        match Lookup(dirs, cur, name)
        case None => None
        case Some(e) => if IsDirectory(e) && FirstCluster(e) >= 2 then Some(FirstCluster(e)) else None
  }

  datatype Target = Target(dir: nat, name: Name)

  /** A component is either the last one, or one to step into, or the path is malformed there. */
  datatype Turn = Malformed | Descend(text: seq<byte>, next: nat) | Leaf(text: seq<byte>)

  function NextTurn(path: seq<byte>, i: nat): (r: Turn)
    requires i <= |path|
    ensures r.Descend? ==> i < r.next <= |path|
  {
    match NextPart(path, i)
    case TooLong => Malformed
    case End => Malformed
    case Part(text, next) =>
      match NextPart(path, next)
      case TooLong => Malformed
      case End => Leaf(text)
      case Part(_, _) => Descend(text, next)
  }

  method ReadTurn(path: seq<byte>, i: nat) returns (r: Turn)
    requires i <= |path|
    ensures r == NextTurn(path, i)
  {
    var part := PathNextPart(path, i);
    if !part.Part? { return Malformed; }
    var peek := PathNextPart(path, part.next);
    match peek {
      case TooLong => return Malformed;
      case End => return Leaf(part.text);
      case Part(_, _) => return Descend(part.text, part.next);
    }
  }

  function LeafName(text: seq<byte>): Option<Name> {
    if text == DOT_TEXT || text == DOT_DOT_TEXT then None else Name83(text)
  }

  method ReadLeaf(text: seq<byte>) returns (r: Option<Name>)
    ensures r == LeafName(text)
  {
    if text == DOT_TEXT || text == DOT_DOT_TEXT { return None; }
    r := NameTo83(text);
  }

  /** The directory and the 8.3 name that the rest of a path, from position i on, denotes. */
  ghost function Resolve(root: nat, dirs: Dirs, cur: nat, path: seq<byte>, i: nat): Option<Target>
    requires i <= |path|
    decreases |path| - i
  {
    match NextTurn(path, i)
    case Malformed => None
    case Leaf(text) => if LeafName(text).None? then None else Some(Target(cur, LeafName(text).value))
    case Descend(text, next) =>
      var d := Step(root, dirs, cur, text);
      if d.None? then None else Resolve(root, dirs, d.value, path, next)
  }

  /** The volume shows these chains and directories. Only proofs that mention `Looking(DiskLayer)` see through it. */
  ghost predicate Shows(g: Geometry, links: seq<nat>, clusters: seq<seq<Sector>>, chains: Chains, dirs: Dirs) {
    && |links| == |clusters| == g.max + 1 && dirs.Keys <= chains.Keys
    && forall layer: Layer {:trigger Looking(layer)} :: Looking(layer) ==> ShownFacts(g, links, clusters, chains, dirs)
  }

  ghost predicate ShownFacts(g: Geometry, links: seq<nat>, clusters: seq<seq<Sector>>, chains: Chains, dirs: Dirs) {
    && ChainsOk(g, links, chains) && dirs.Keys <= chains.Keys
    && (forall h :: h in chains ==> Readable(g, clusters, chains[h]))
    && (forall d :: d in dirs ==> dirs[d] == DirSlots(clusters, chains[d]))
  }

  /** The chain and the slots of one directory. */
  lemma ShownDirectory(g: Geometry, links: seq<nat>, clusters: seq<seq<Sector>>, chains: Chains, dirs: Dirs, d: nat)
    requires Shows(g, links, clusters, chains, dirs) && d in dirs
    ensures IsChain(g, links, chains[d]) && Distinct(chains[d]) && chains[d][0] == d && LinksOk(g, links)
    ensures Readable(g, clusters, chains[d]) && dirs[d] == DirSlots(clusters, chains[d])
  {
    assert Looking(DiskLayer);
  }

  /** A mounted volume whose directories form a sound tree. */
  ghost predicate Sound(fs: Fat32, chains: Chains, dirs: Dirs)
    reads fs, fs.dev, fs.dataCache, fs.fatCache
  {
    && fs.Valid() && Shows(fs.g, fs.links, fs.clusters, chains, dirs)
    && TreeOk(fs.g.root, fs.g.spc, chains, dirs)
  }

  /** What a sound tree says of an entry found in it. */
  lemma FoundEntry(root: nat, spc: nat, chains: Chains, dirs: Dirs, d: nat, name: Name)
    requires TreeOk(root, spc, chains, dirs) && d in dirs && Find(dirs[d], name).Some?
    ensures var e := dirs[d][Find(dirs[d], name).value];
            Live(e) && NameOf(e) == name && EntryOk(spc, chains, dirs, e) && (IsDot(e) ==> IsDirectory(e))
  {
    assert Looking(DiskLayer);
    var q := Pos(d, Find(dirs[d], name).value);
    assert HasSlot(dirs, q);
    if IsDot(SlotOf(dirs, q)) { assert DotOk(dirs, d, SlotOf(dirs, q)); }
  }

  /** Looks a name up in a directory that the volume shows. */
  method LookIn(fs: Fat32, d: nat, name: Name, ghost chains: Chains, ghost dirs: Dirs)
    returns (ok: bool, lba: nat, off: nat, entry: Slot, ghost k: nat, ghost p: Place)
    requires fs.Valid() && Shows(fs.g, fs.links, fs.clusters, chains, dirs) && d in dirs
    modifies fs`ageCounter, fs.dev`faults, fs.dataCache, fs.fatCache
    ensures fs.Valid() && fs.dev.faults >= old(fs.dev.faults)
    ensures ok ==>
              k < |dirs[d]| && entry == dirs[d][k] && Find(dirs[d], name) == Some(k) &&
              At(fs.g, chains[d], k, lba, off, p)
    ensures !ok && fs.dev.faults == old(fs.dev.faults) ==> Lookup(dirs, d, name) == None
  {
    ShownDirectory(fs.g, fs.links, fs.clusters, chains, dirs, d);
    ok, lba, off, entry, k, p := FindEntryInDir(fs, d, name, chains[d]);
  }

  /** Looks a name up in a directory of the tree. */
  method Look(fs: Fat32, d: nat, name: Name, ghost chains: Chains, ghost dirs: Dirs)
    returns (ok: bool, lba: nat, off: nat, entry: Slot, ghost k: nat, ghost p: Place)
    requires Sound(fs, chains, dirs) && d in dirs
    modifies fs`ageCounter, fs.dev`faults, fs.dataCache, fs.fatCache
    ensures Sound(fs, chains, dirs) && fs.dev.faults >= old(fs.dev.faults)
    ensures ok ==> k < |dirs[d]| && entry == dirs[d][k]
    ensures ok ==> Lookup(dirs, d, name) == Some(entry) && Find(dirs[d], name) == Some(k) &&
                   At(fs.g, chains[d], k, lba, off, p)
    ensures ok ==> EntryOk(fs.g.spc, chains, dirs, entry) && (IsDot(entry) ==> IsDirectory(entry))
    ensures !ok && fs.dev.faults == old(fs.dev.faults) ==> Lookup(dirs, d, name) == None
  {
    ok, lba, off, entry, k, p := LookIn(fs, d, name, chains, dirs);
    if ok { FoundEntry(fs.g.root, fs.g.spc, chains, dirs, d, name); }
  }

  method GetParentCluster(fs: Fat32, d: nat, ghost chains: Chains, ghost dirs: Dirs) returns (parent: nat)
    requires Sound(fs, chains, dirs) && d in dirs
    modifies fs`ageCounter, fs.dev`faults, fs.dataCache, fs.fatCache
    ensures Sound(fs, chains, dirs) && fs.dev.faults >= old(fs.dev.faults)
    ensures parent in dirs
    ensures fs.dev.faults == old(fs.dev.faults) ==> parent == ParentOf(fs.g.root, dirs, d)
  {
    if d == fs.g.root { return d; }
    var dotdot := DotDotName();
    assert dotdot[0] == DOT;
    var ok, lba, off, entry;
    ghost var k, p;
    ok, lba, off, entry, k, p := Look(fs, d, dotdot, chains, dirs);
    if !ok { return fs.g.root; }
    assert NameOf(entry)[0] == entry[0];
    parent := FirstCluster(entry);
    if parent < 2 { parent := fs.g.root; }
  }

  /** Follows one component; a fault can only send it to the root. */
  method StepInto(fs: Fat32, cur: nat, text: seq<byte>, ghost chains: Chains, ghost dirs: Dirs)
    returns (ok: bool, next: nat)
    requires Sound(fs, chains, dirs) && cur in dirs
    modifies fs`ageCounter, fs.dev`faults, fs.dataCache, fs.fatCache
    ensures Sound(fs, chains, dirs) && fs.dev.faults >= old(fs.dev.faults)
    ensures ok ==> next in dirs
    ensures fs.dev.faults == old(fs.dev.faults) ==>
              Step(fs.g.root, dirs, cur, text) == if ok then Some(next) else None
  {
    if text == DOT_TEXT { return true, cur; }
    if text == DOT_DOT_TEXT {
      next := GetParentCluster(fs, cur, chains, dirs);
      return true, next;
    }
    var name := NameTo83(text);
    if name.None? { return false, 0; }
    var lba, off, entry;
    ghost var k, p;
    ok, lba, off, entry, k, p := Look(fs, cur, name.value, chains, dirs);
    if !ok || !IsDirectory(entry) || FirstCluster(entry) < 2 { return false, 0; }
    next := FirstCluster(entry);
  }

  /** Resolves a path to the directory that holds its last component. */
  method ResolveParentAndLeaf(fs: Fat32, path: seq<byte>, ghost chains: Chains, ghost dirs: Dirs)
    returns (r: Option<Target>)
    requires Sound(fs, chains, dirs)
    modifies fs`ageCounter, fs.dev`faults, fs.dataCache, fs.fatCache
    ensures Sound(fs, chains, dirs) && fs.dev.faults >= old(fs.dev.faults)
    ensures r.Some? ==> r.value.dir in dirs
    ensures fs.dev.faults == old(fs.dev.faults) ==> r == Resolve(fs.g.root, dirs, fs.g.root, path, 0)
  {
    var cur, i := fs.g.root, 0;
    ghost var goal := Resolve(fs.g.root, dirs, cur, path, 0);
    while true
      invariant Sound(fs, chains, dirs) && fs.dev.faults >= old(fs.dev.faults)
      invariant i <= |path| && cur in dirs
      invariant fs.dev.faults == old(fs.dev.faults) ==> goal == Resolve(fs.g.root, dirs, cur, path, i)
      decreases |path| - i
    {
      var turn := ReadTurn(path, i);
      match turn {
        case Malformed => return None;
        case Leaf(text) =>
          var leaf := ReadLeaf(text);
          if leaf.None? { return None; }
          return Some(Target(cur, leaf.value));
        case Descend(text, next) =>
          var ok;
          ok, cur := StepInto(fs, cur, text, chains, dirs);
          if !ok { return None; }
          i := next;
      }
    }
  }
}
