/** The RAM filesystem: operations on the node table, each by path. */
module RamFs {
  import opened MachineBytes
  import opened RamTree
  import opened RamPaths

  class RamFs {
    const nodes: array<Node>
    var cwd: nat
    ghost var kids: Kids

    ghost predicate Valid()
      reads this, nodes
    {
      nodes.Length == MAX_NODES && cwd < MAX_NODES && Tree(nodes[..], kids) && AllEnd(nodes[..])
    }

    /** The current directory has not been removed. */
    predicate Live()
      reads this, nodes
      requires Valid()
    {
      nodes[cwd].used
    }

    /** An empty filesystem: the root directory alone. */
    constructor ()
      ensures Valid() && Live() && cwd == 0 && fresh(nodes)
      ensures forall c :: 0 < c < MAX_NODES ==> !nodes[c].used
    {
      nodes := new Node[MAX_NODES](i => if i == 0 then Node(true, true, -1, -1, -1, [SLASH], []) else FREE_NODE);
      cwd := 0;
      kids := seq(MAX_NODES, _ => []);
      new;
      assert Climb(nodes[..], 0, 0);
      assert Grounded(nodes[..], -1, 0);
      forall c | 0 <= c < MAX_NODES ensures Ends(nodes[..], c) { assert Grounded(nodes[..], c, 1); }
      assert forall c :: 0 <= c < MAX_NODES && nodes[c].used ==> c == 0;
      assert TreeOk(nodes[..], kids);
    }

    /** Takes the lowest free node, or -1. */
    method AllocNode() returns (idx: int)
      requires nodes.Length == MAX_NODES
      modifies nodes
      ensures idx == -1 || 0 < idx < MAX_NODES
      ensures idx == -1 ==> nodes[..] == old(nodes[..]) && forall c :: 0 < c < MAX_NODES ==> nodes[c].used
      ensures idx > 0 ==> !old(nodes[idx].used) && nodes[..] == old(nodes[..])[idx := FreshNode(old(nodes[idx]))] &&
                          forall c :: 0 < c < idx ==> old(nodes[c].used)
    {
      idx := 1;
      while idx < MAX_NODES
        invariant 1 <= idx <= MAX_NODES && nodes[..] == old(nodes[..]) && forall c :: 0 < c < idx ==> nodes[c].used
      {
        if !nodes[idx].used {
          nodes[idx] := Node(true, false, -1, -1, -1, [], []);
          return;
        }
        idx := idx + 1;
      }
      idx := -1;
    }

    method FindChild(parent: nat, name: Name) returns (n: int)
      requires Valid() && parent < MAX_NODES
      ensures n == Child(nodes[..], kids, parent, name)
    {
      ListOf(nodes[..], kids, parent);
      ghost var cs, i := kids[parent], 0;
      n := nodes[parent].firstChild;
      while n != -1
        invariant i <= |cs| && n == (if i < |cs| then cs[i] else -1)
        invariant Child(nodes[..], kids, parent, name) == FindFrom(nodes[..], cs, name, i)
        decreases |cs| - i
      {
        assert Spot(i);
        if nodes[n].name == name { return; }
        n, i := nodes[n].nextSibling, i + 1;
      }
    }

    /** Makes a node in a directory. It fails when the parent is no live directory, on an empty, too long or dot name,
        when the name is taken, and when no node is free. */
    method AddChild(parent: nat, name: Name, isDir: bool) returns (idx: int)
      requires Valid() && parent < MAX_NODES && SLASH !in name && 0 !in name
      modifies nodes, this`kids
      ensures Valid()
      ensures idx == -1 ==> nodes[..] == old(nodes[..]) && kids == old(kids)
      ensures idx != -1 ==> Index(idx) && Created(old(nodes[..]), old(kids), nodes[..], kids, parent, name, isDir, idx)
      ensures idx != -1 <==> Addable(old(nodes[..]), old(kids), parent, name)
    {
      if !nodes[parent].used || !nodes[parent].isDir { return -1; }
      if |name| == 0 || |name| > NAME_MAX || DotName(name) { return -1; }
      ghost var ns := nodes[..];
      ChildNone(ns, kids, parent, name);
      var found := FindChild(parent, name);
      if found != -1 { return -1; }
      RootOf(ns, kids);
      idx := AllocNode();
      if idx < 0 { return; }
      CreatedTree(ns, kids, ns[idx := Node(true, isDir, parent, -1, ns[parent].firstChild, name,
                                           [])][parent := ns[parent].(firstChild := idx)],
                  parent, name, isDir, idx);
      nodes[idx] := Node(true, isDir, parent, -1, nodes[parent].firstChild, name, []);
      nodes[parent] := nodes[parent].(firstChild := idx);
      CreatedEnds(ns, kids, nodes[..], parent, idx);
      kids := kids[parent := [idx as nat] + kids[parent]];
      assert nodes[..] == ns[idx := Node(true, isDir, parent, -1, ns[parent].firstChild, name,
                                         [])][parent := ns[parent].(firstChild := idx)];
    }

    // ---- Paths ----

    /** Reads one component and skips the slashes after it. */
    static method ReadPart(path: seq<byte>, i: nat) returns (r: Part)
      requires i < |path| && path[i] != SLASH
      ensures r == NextPart(path, i)
    {
      var p := i;
      var part: Name := [];
      while p < |path| && path[p] != SLASH
        invariant i <= p <= |path| && part == path[i..p] && |part| <= NAME_MAX && PartEnd(path, i) == PartEnd(path, p)
      {
        if |part| >= NAME_MAX { assert PartEnd(path, p) > p; return TooLong; }
        part := part + [path[p]];
        p := p + 1;
      }
      p := Skip(path, p);
      r := Part(part, p);
    }

    static method Skip(path: seq<byte>, i: nat) returns (p: nat)
      requires i <= |path|
      ensures p == SkipSlashes(path, i)
    {
      p := i;
      while p < |path| && path[p] == SLASH
        invariant i <= p <= |path| && SkipSlashes(path, i) == SkipSlashes(path, p)
      {
        p := p + 1;
      }
    }

    /** Follows one component. */
    method Step(cur: nat, text: Name) returns (to: int)
      requires Valid() && cur < MAX_NODES
      ensures to == StepTo(nodes[..], kids, cur, text)
    {
      if text == [DOT] { return cur; }
      if text == [DOT, DOT] {
        if nodes[cur].parent != -1 { return nodes[cur].parent; }
        return cur;
      }
      to := FindChild(cur, text);
    }

    /** The node a path denotes, or -1. */
    method ResolvePath(path: seq<byte>) returns (node: int)
      requires Valid()
      ensures node == Resolve(nodes[..], kids, cwd, path)
    {
      if |path| == 0 { return cwd; }
      var cur: nat := if path[0] == SLASH then 0 else cwd;
      var p := Skip(path, 0);
      if p == |path| { return 0; }
      while p < |path|
        invariant p <= |path| && cur < MAX_NODES && (p < |path| ==> path[p] != SLASH)
        invariant Resolve(nodes[..], kids, cwd, path) == WalkFrom(nodes[..], kids, cur, path, p)
      {
        var part := ReadPart(path, p);
        if part.TooLong? { return -1; }
        var to := Step(cur, part.text);
        if to < 0 { return -1; }
        cur, p := to, part.next;
      }
      node := cur;
    }

    /** Splits a path into the directory and the name of its last component. */
    method SplitParentAndName(path: seq<byte>) returns (r: Target)
      requires Valid()
      ensures r == Split(nodes[..], kids, cwd, path)
    {
      if |path| == 0 { return NoTarget; }
      var cur: nat := if path[0] == SLASH then 0 else cwd;
      var p := Skip(path, 0);
      if p == |path| { return NoTarget; }
      while true
        invariant p < |path| && path[p] != SLASH && cur < MAX_NODES
        invariant Split(nodes[..], kids, cwd, path) == SplitFrom(nodes[..], kids, cur, path, p)
        decreases |path| - p
      {
        var part := ReadPart(path, p);
        if part.TooLong? { return NoTarget; }
        if part.next == |path| {
          if DotName(part.text) { return NoTarget; }
          return Target(cur, part.text);
        }
        var to := Step(cur, part.text);
        if to < 0 || (!DotName(part.text) && !nodes[to].isDir) { return NoTarget; }
        cur, p := to, part.next;
      }
    }

    // ---- Making and writing ----

    method Mkdir(path: seq<byte>) returns (rc: int)
      requires Valid() && 0 !in path
      modifies nodes, this`kids
      ensures Valid() && (rc == 0 || rc == -1)
      ensures rc != 0 ==> nodes[..] == old(nodes[..]) && kids == old(kids)
      ensures match Split(old(nodes[..]), old(kids), cwd, path)
              case NoTarget => rc == -1
              case Target(dir, name) =>
                && (rc == 0 <==> Addable(old(nodes[..]), old(kids), dir, name))
                && (rc == 0 ==> Made(old(nodes[..]), old(kids), nodes[..], kids, dir, name, true))
    {
      var t := SplitParentAndName(path);
      if t.NoTarget? { return -1; }
      var idx := AddChild(t.dir, t.name, true);
      rc := if idx >= 0 then 0 else -1;
    }

    /** Makes an empty file, or finds that there is a file of the name. */
    method Touch(path: seq<byte>) returns (rc: int)
      requires Valid() && 0 !in path
      modifies nodes, this`kids
      ensures Valid() && (rc == 0 || rc == -1)
      ensures rc != 0 ==> nodes[..] == old(nodes[..]) && kids == old(kids)
      ensures match Split(old(nodes[..]), old(kids), cwd, path)
              case NoTarget => rc == -1
              case Target(dir, name) =>
                var c := Child(old(nodes[..]), old(kids), dir, name);
                if c != -1
                then (rc == 0 <==> !old(nodes[..])[c].isDir) && nodes[..] == old(nodes[..]) && kids == old(kids)
                else
                  && (rc == 0 <==> Addable(old(nodes[..]), old(kids), dir, name))
                  && (rc == 0 ==> Made(old(nodes[..]), old(kids), nodes[..], kids, dir, name, false))
    {
      var t := SplitParentAndName(path);
      if t.NoTarget? { return -1; }
      var idx := AddChild(t.dir, t.name, false);
      if idx >= 0 { return 0; }
      var existing := FindChild(t.dir, t.name);
      rc := if existing >= 0 && !nodes[existing].isDir then 0 else -1;
    }

    /** Stores contents in a file node, as far as they fit. */
    method Store(node: nat, data: seq<byte>)
      requires Valid() && node < MAX_NODES
      modifies nodes
      ensures Valid() && SameShape(old(nodes[..]), nodes[..])
      ensures nodes[..] == old(nodes[..])[node := old(nodes[node]).(data := Stored(data))]
    {
      ghost var ns := nodes[..];
      var n := |data|;
      if n >= MAX_FILE_SIZE { n := MAX_FILE_SIZE - 1; }
      var content: seq<byte> := [];
      for i := 0 to n
        invariant content == data[..i] && nodes[..] == ns
      {
        content := content + [data[i]];
      }
      assert data[..|data|] == data;
      nodes[node] := nodes[node].(data := content);
      assert nodes[..] == ns[node := ns[node].(data := Stored(data))];
      DataKeepsTree(ns, kids, nodes[..]);
      SameParents(ns, nodes[..]);
    }

    /** Writes a file, making it when the path leads to nothing. Seen from a live current directory it succeeds
        exactly when the path denotes a file or can be made one; the path then denotes a file with these contents, as
        far as they fit, and every other node is as it was but for the links of its new sibling. */
    method WriteFile(path: seq<byte>, data: seq<byte>) returns (rc: int, ghost node: int)
      requires Valid() && 0 !in path
      modifies nodes, this`kids
      ensures Valid() && (rc == 0 || rc == -1)
      ensures rc == 0 ==>
                Index(node) && node == Resolve(nodes[..], kids, cwd, path) &&
                nodes[node].data == Stored(data) && !nodes[node].isDir
      ensures old(Live()) ==> (rc == 0 <==> Writable(old(nodes[..]), old(kids), cwd, path))
      ensures rc == 0 && Resolve(old(nodes[..]), old(kids), cwd, path) >= 0 ==>
                kids == old(kids) && nodes[..] == old(nodes[..])[node := old(nodes[..])[node].(data := Stored(data))]
      ensures rc == 0 && old(Live()) && Resolve(old(nodes[..]), old(kids), cwd, path) == -1 ==>
                NewFile(old(nodes[..]), old(kids), nodes[..], kids, cwd, path, node, data)
    {
      ghost var ns, ks, live := nodes[..], kids, Live();
      var at := ResolvePath(path);
      node := at;
      if at < 0 {
        rc := Touch(path);
        if live { TouchMakes(ns, ks, nodes[..], kids, cwd, path, rc == 0); }
        if rc != 0 { return -1, node; }
        at := ResolvePath(path);
        node := at;
        if at < 0 { return -1, node; }
      }
      if nodes[at].isDir { return -1, node; }
      ghost var mid := nodes[..];
      Store(at, data);
      ShapeResolve(mid, nodes[..], kids, cwd, path);
      rc := 0;
    }

    /** Reads as much of a file as the buffer takes. */
    method ReadFile(path: seq<byte>, capacity: nat) returns (rc: int, out: seq<byte>)
      requires Valid()
      ensures var node := Resolve(nodes[..], kids, cwd, path);
              if node >= 0 && !nodes[node].isDir
              then rc == 0 && out == FirstBytes(nodes[node].data, capacity)
              else rc == -1
    {
      out := [];
      var node := ResolvePath(path);
      if node < 0 || nodes[node].isDir { return -1, out; }
      var n := |nodes[node].data|;
      var size := if n < capacity then n else capacity;
      for i := 0 to size
        invariant out == nodes[node].data[..i]
      {
        out := out + [nodes[node].data[i]];
      }
      rc := 0;
    }

    // ---- Removing and moving ----

    /** Takes a live node out of its parent's child list; i is its place there. */
    method UnlinkNode(idx: nat) returns (rc: int, ghost i: nat)
      requires Valid() && idx < MAX_NODES
      modifies nodes
      ensures rc == 0 <==> idx > 0 && old(nodes[idx].used)
      ensures rc != 0 ==> nodes[..] == old(nodes[..])
      ensures rc == 0 ==> var p := old(nodes[idx].parent);
                          Index(p) && InTable(kids[p]) && i < |kids[p]| && kids[p][i] == idx &&
                            LinkCut(old(nodes[..]), nodes[..], p, kids[p], i)
    {
      i := 0;
      ghost var ns := nodes[..];
      if idx == 0 || !nodes[idx].used { return -1, i; }
      ghost var n := LiveNode(ns, kids, idx);
      var parent := nodes[idx].parent;
      ListOf(ns, kids, parent);
      ghost var cs := kids[parent];
      var cur, prev := nodes[parent].firstChild, -1;
      while cur != -1
        invariant i <= |cs| && cur == (if i < |cs| then cs[i] else -1) && prev == (if i == 0 then -1 else cs[i - 1])
        invariant nodes[..] == ns && forall j :: 0 <= j < i ==> cs[j] != idx
        decreases |cs| - i
      {
        assert Spot(i);
        if cur == idx {
          if prev == -1 {
            nodes[parent] := nodes[parent].(firstChild := nodes[cur].nextSibling);
          } else {
            nodes[prev] := nodes[prev].(nextSibling := nodes[cur].nextSibling);
          }
          UnlinkedCut(ns, parent, cs, i);
          assert nodes[..] == Unlinked(ns, parent, cs, i);
          return 0, i;
        }
        prev, cur, i := cur, nodes[cur].nextSibling, i + 1;
      }
      assert false;
    }

    /** Removes a file or an empty directory, the root excepted. The tree stays one in any case; the current directory
        goes with it exactly when it is the node removed. */
    method Rm(path: seq<byte>) returns (rc: int)
      requires Valid()
      modifies nodes, this`kids
      ensures Valid() && (rc == 0 || rc == -1)
      ensures var x := Resolve(old(nodes[..]), old(kids), cwd, path);
              && (rc == 0 <==> x > 0 && old(nodes[..])[x].used && old(kids)[x] == [])
              && (rc == 0 ==>
                   Gone(old(nodes[..]), old(kids), nodes[..], kids, x) && (Live() <==> old(Live()) && x != cwd))
      ensures rc != 0 ==> nodes[..] == old(nodes[..]) && kids == old(kids)
    {
      ghost var ns := nodes[..];
      var node := ResolvePath(path);
      if node <= 0 { return -1; }
      ListOf(ns, kids, node);
      if nodes[node].isDir && nodes[node].firstChild != -1 { return -1; }
      ghost var i;
      rc, i := UnlinkNode(node);
      if rc != 0 { return -1; }
      ghost var p, ns1 := ns[node].parent, nodes[..];
      nodes[node] := nodes[node].(used := false, firstChild := -1, nextSibling := -1, name := [], data := []);
      RemovedNode(ns, kids, ns1, nodes[..], p, i, node);
      RemovedIs(ns, kids, ns1, p, i, node);
      SameParents(ns, nodes[..]);
      kids := kids[p := Cut(kids[p], i)];
    }

    method Cd(path: seq<byte>) returns (rc: int)
      requires Valid()
      modifies this`cwd
      ensures Valid() && (rc == 0 || rc == -1)
      ensures var node := Resolve(nodes[..], kids, old(cwd), path);
              if node >= 0 && nodes[node].isDir then rc == 0 && cwd == node else rc == -1 && cwd == old(cwd)
    {
      var node := ResolvePath(path);
      if node < 0 || !nodes[node].isDir { return -1; }
      cwd := node;
      return 0;
    }

    /** Whether x lies on the way up from d. */
    method LiesUnder(d: nat, x: nat) returns (under: bool)
      requires Valid() && d < MAX_NODES
      ensures under <==> Under(nodes[..], d, x)
    {
      ghost var ns := nodes[..];
      assert Ends(ns, d);
      ghost var m: nat :| Grounded(ns, d, m);
      UnderIs(ns, d, m, x);
      ghost var n := m;
      var p: int := d;
      while p != -1
        invariant Grounded(ns, p, n) && Meets(ns, d, m, x) == Meets(ns, p, n, x)
        decreases n
      {
        if p == x { return true; }
        p, n := nodes[p].parent, n - 1;
      }
      return false;
    }

    /** Moves a node to a new parent and name. It fails on the root, a path that leads nowhere, a name that is taken,
        and a directory that would come to lie below itself; so it cannot make a cycle. The tree stays one exactly when
        the new parent is in use, which from a live current directory it always is: the code does not ask. */
    method Mv(source: seq<byte>, dest: seq<byte>) returns (rc: int)
      requires Valid() && 0 !in dest
      modifies nodes, this`kids
      ensures rc == 0 || rc == -1
      ensures rc == 0 <==> Movable(old(nodes[..]), old(kids), cwd, source, dest)
      ensures rc != 0 ==> Valid() && nodes[..] == old(nodes[..]) && kids == old(kids)
      ensures rc == 0 ==>
                var x, t := Resolve(old(nodes[..]), old(kids), cwd, source),
                            Split(old(nodes[..]), old(kids), cwd, dest);
                && (if old(nodes[..])[t.dir].used then Valid() &&
                   Relocated(old(nodes[..]), old(kids), nodes[..], kids, x, t.dir, t.name)
                    else Stranded(old(nodes[..]), nodes[..], x, t.dir, t.name) && forall ks :: !TreeOk(nodes[..], ks))
                && (old(nodes[cwd].used) ==> old(nodes[..])[t.dir].used && nodes[cwd].used)
    {
      ghost var ns := nodes[..];
      if nodes[cwd].used {
        PathsLive(ns, kids, cwd, source);
        PathsLive(ns, kids, cwd, dest);
      }
      var src := ResolvePath(source);
      if src <= 0 { return -1; }
      var t := SplitParentAndName(dest);
      if t.NoTarget? || !nodes[t.dir].isDir { return -1; }
      var taken := FindChild(t.dir, t.name);
      if taken != -1 { return -1; }
      SelfUnder(ns, src);
      if nodes[src].isDir {
        var under := LiesUnder(t.dir, src);
        if under { return -1; }
      }
      rc := Relink(src, t.dir, t.name);
    }

    /** Takes a node out of its place and hangs it below a directory that does not lie below it. */
    method Relink(src: nat, dst: nat, name: Name) returns (rc: int)
      requires Valid() && 0 < src < MAX_NODES && dst < MAX_NODES && nodes[dst].isDir && src != dst
      requires GoodName(name) && Child(nodes[..], kids, dst, name) == -1
      requires nodes[src].isDir ==> !Under(nodes[..], dst, src)
      modifies nodes, this`kids
      ensures rc == if old(nodes[src].used) then 0 else -1
      ensures rc != 0 ==> Valid() && nodes[..] == old(nodes[..]) && kids == old(kids)
      ensures rc == 0 && old(nodes[dst].used) ==>
                Valid() && Relocated(old(nodes[..]), old(kids), nodes[..], kids, src, dst, name)
      ensures rc == 0 && !old(nodes[dst].used) ==>
                Stranded(old(nodes[..]), nodes[..], src, dst, name) && forall ks :: !TreeOk(nodes[..], ks)
    {
      ghost var ns := nodes[..];
      ghost var i;
      rc, i := UnlinkNode(src);
      if rc != 0 { return -1; }
      ghost var p, ns1 := ns[src].parent, nodes[..];
      nodes[src] := nodes[src].(parent := dst, nextSibling := nodes[dst].firstChild, name := name);
      nodes[dst] := nodes[dst].(firstChild := src);
      assert nodes[..] == Hung(ns1, src, dst, name);
      if ns[dst].used {
        RelinkedTree(ns, kids, ns1, p, i, src, dst, name);
        RelocatedIs(ns, kids, ns1, p, i, src, dst, name);
        kids := Rehung(kids, p, i, src, dst);
      } else {
        forall ks ensures !TreeOk(nodes[..], ks) { HungBelowDead(ns1, src, dst, name, ks); }
      }
    }

    /** The nodes from the current directory up to the root, the root left out. */
    method CollectStack(ghost m: nat) returns (stack: seq<nat>)
      requires Valid() && (Live() ==> Climb(nodes[..], cwd, m) && m < MAX_NODES)
      ensures forall j :: 0 <= j < |stack| ==> stack[j] < MAX_NODES
      ensures Live() ==> Ascending(nodes[..], stack, cwd, m) && |stack| == m
    {
      stack := [];
      var n: int := cwd;
      while n > 0 && |stack| < MAX_NODES
        invariant 0 <= |stack| <= MAX_NODES && n < MAX_NODES && forall j :: 0 <= j < |stack| ==> stack[j] < MAX_NODES
        invariant Live() ==> |stack| <= m && Climb(nodes[..], n, m - |stack|) && Ascending(nodes[..], stack, cwd, m)
        invariant Live() ==> n == if |stack| == 0 then cwd else nodes[stack[|stack| - 1]].parent
        decreases MAX_NODES - |stack|
      {
        stack, n := stack + [n], nodes[n].parent;
      }
    }

    /** Appends a slash and a name, as far as they fit. */
    static method AppendPart(out: seq<byte>, name: Name, size: nat) returns (r: seq<byte>)
      requires |out| < size
      ensures r == Fit(out + [SLASH] + name, size)
    {
      r := out;
      if |r| + 1 >= size { return; }
      r := r + [SLASH];
      for j := 0 to |name|
        invariant r == Fit(out + [SLASH] + name[..j], size)
      {
        assert out + [SLASH] + name[..j + 1] == out + [SLASH] + name[..j] + [name[j]];
        if |r| + 1 < size { r := r + [name[j]]; }
      }
      assert name[..|name|] == name;
    }

    /** The path of the current directory, as far as it fits a buffer of a size. */
    method GetPwd(size: nat) returns (out: seq<byte>, ghost n: nat)
      requires Valid()
      ensures Live() ==> Climb(nodes[..], cwd, n)
      ensures Live() && size > 0 ==> out == Fit(Printed(nodes[..], cwd, n), size)
    {
      out, n := [], 0;
      ghost var ns, live := nodes[..], Live();
      if live { n := LiveNode(ns, kids, cwd); }
      if size == 0 { return; }
      if cwd == 0 {
        if size >= 2 { out := [SLASH]; }
        return;
      }
      var stack := CollectStack(n);
      var i := |stack|;
      while i > 0
        invariant 0 <= i <= |stack| && |out| < size
        invariant live ==> out == Fit(TextOf(ns, stack, cwd, n, i), size)
      {
        i := i - 1;
        if live {
          FitTwice(TextOf(ns, stack, cwd, n, i + 1), [SLASH] + ns[stack[i]].name, size);
          TextStep(ns, stack, cwd, n, i);
          assert out + ([SLASH] + ns[stack[i]].name) == out + [SLASH] + ns[stack[i]].name;
        }
        out := AppendPart(out, nodes[stack[i]].name, size);
      }
    }
  }

  /** stack lists nodes from c on, each the parent of the one before. */
  ghost predicate Ascending(ns: Nodes, stack: seq<nat>, c: nat, m: nat) {
    && |stack| <= m && (|stack| > 0 ==> stack[0] == c)
    && (forall j {:trigger stack[j]} :: 0 <= j < |stack| ==> Climb(ns, stack[j], m - j))
    && forall j {:trigger Spot(j)} :: 0 <= j < |stack| - 1 && Spot(j) ==> ns[stack[j]].parent == stack[j + 1]
  }

  /** The path text of the node at position i of the stack. */
  ghost function TextOf(ns: Nodes, stack: seq<nat>, c: nat, m: nat, i: nat): seq<byte>
    requires Ascending(ns, stack, c, m) && i <= |stack|
  {
    if i == |stack| then [] else PathText(ns, stack[i], m - i)
  }

  /** What is printed for the current directory into a buffer that takes it resolves to the current directory. */
  lemma PwdResolves(ns: Nodes, kids: Kids, cwd: nat, n: nat, size: nat)
    requires Tree(ns, kids) && Index(cwd) && Climb(ns, cwd, n) && |Printed(ns, cwd, n)| < size
    ensures Resolve(ns, kids, cwd, Fit(Printed(ns, cwd, n), size)) == cwd
  {
    Open(ns, kids);
    PrintedResolves(ns, kids, cwd, cwd, n);
  }

  lemma TextStep(ns: Nodes, stack: seq<nat>, c: nat, m: nat, i: nat)
    requires Ascending(ns, stack, c, m) && i < |stack| == m
    ensures stack[i] < MAX_NODES &&
            TextOf(ns, stack, c, m, i) == TextOf(ns, stack, c, m, i + 1) + ([SLASH] + ns[stack[i]].name)
  {
    assert Spot(i) && Climb(ns, stack[i], m - i);
    if i + 1 == m {
      assert PathText(ns, ns[stack[i]].parent, 0) == [];
    }
    var a := TextOf(ns, stack, c, m, i + 1);
    assert a + [SLASH] + ns[stack[i]].name == a + ([SLASH] + ns[stack[i]].name);
  }

  lemma FitTwice(a: seq<byte>, b: seq<byte>, size: nat)
    requires size > 0 && |b| > 0
    ensures Fit(Fit(a, size) + b, size) == Fit(a + b, size)
  {
  }

  /** x is gone from the tree: from its parent's list, and from use. */
  ghost predicate Gone(ns: Nodes, kids: Kids, ns': Nodes, kids': Kids, x: nat) {
    && Index(x) && !ns'[x].used && ns'[x].isDir == ns[x].isDir
    && (forall d {:trigger ns'[d]} :: 0 <= d < MAX_NODES && d != x ==>
          ns'[d].(firstChild := ns[d].firstChild, nextSibling := ns[d].nextSibling) == ns[d])
    && forall q, c: nat {:trigger c in kids'[q]} :: 0 <= q < MAX_NODES ==> (c in kids'[q] <==> c in kids[q] && c != x)
  }

  lemma RemovedIs(ns: Nodes, kids: Kids, ns1: Nodes, p: nat, i: nat, x: nat)
    requires Tree(ns, kids) && Index(p) && i < |kids[p]| && x == kids[p][i] && Index(x) && InTable(kids[p])
    requires LinkCut(ns, ns1, p, kids[p], i)
    ensures Gone(ns, kids, ns1[x := Cleared(ns1[x])], kids[p := Cut(kids[p], i)], x)
  {
    var kids' := kids[p := Cut(kids[p], i)];
    ListOf(ns, kids, p);
    assert x in kids[p];
    forall q, c: nat | 0 <= q < MAX_NODES ensures c in kids'[q] <==> c in kids[q] && c != x {
      ListOf(ns, kids, q);
      if q == p { CutMembers(kids[p], i, c); }
    }
  }

  lemma SelfUnder(ns: Nodes, d: nat)
    requires AllEnd(ns) && Index(d)
    ensures Under(ns, d, d)
  {
    assert Ends(ns, d);
    var n: nat :| Grounded(ns, d, n);
    assert Meets(ns, d, n, d);
  }

  /** Below a live directory that does not lie below it, a node is part of the tree again. */
  lemma RelinkedTree(ns: Nodes, kids: Kids, ns1: Nodes, p: nat, i: nat, x: nat, dst: nat, name: Name)
    requires Tree(ns, kids) && AllEnd(ns) && Index(p) && i < |kids[p]| && x == kids[p][i] && Index(x) && x != 0
    requires InTable(kids[p]) && LinkCut(ns, ns1, p, kids[p], i)
    requires Index(dst) && x != dst && ns[dst].used && ns[dst].isDir && GoodName(name) &&
             Child(ns, kids, dst, name) == -1
    requires ns[x].isDir ==> !Under(ns, dst, x)
    ensures Tree(Hung(ns1, x, dst, name), Rehung(kids, p, i, x, dst)) && AllEnd(Hung(ns1, x, dst, name))
  {
    var m := LiveNode(ns, kids, dst);
    RootOf(ns, kids);
    ClimbGrounded(ns, dst, m, x);
    NotUnder(ns, kids, dst, m, x);
    ChildNone(ns, kids, dst, name);
    MovedNode(ns, kids, ns1, p, i, x, dst, name, m);
    Reparented(ns, Hung(ns1, x, dst, name), x, dst, m + 1);
  }

  lemma NotUnder(ns: Nodes, kids: Kids, d: nat, n: nat, x: nat)
    requires Tree(ns, kids) && Index(d) && Climb(ns, d, n) && Index(x) && x != 0 && d != x
    requires ns[x].isDir ==> !Under(ns, d, x)
    ensures !Passes(ns, d, n, x)
  {
    RootOf(ns, kids);
    if ns[x].isDir {
      ClimbGrounded(ns, d, n, x);
      UnderIs(ns, d, n + 1, x);
    } else {
      ListOf(ns, kids, x);
      CoveredTree(ns, kids);
      ChildlessNotPassed(ns, kids, -1, d, n, x);
    }
  }

  /** x hangs below dst under a name, and nothing else of any node has changed but links. */
  ghost predicate Stranded(ns: Nodes, ns': Nodes, x: int, dst: int, name: Name) {
    && Index(x) && Index(dst) && ns'[x].parent == dst && ns'[x].name == name && ns'[dst].firstChild == x
    && forall d {:trigger ns'[d]} :: 0 <= d < MAX_NODES ==>
         ns'[d].used == ns[d].used && ns'[d].isDir == ns[d].isDir && ns'[d].data == ns[d].data &&
         (d != x ==> ns'[d].parent == ns[d].parent && ns'[d].name == ns[d].name)
  }

  /** A move from source to dest can be made. */
  ghost predicate Movable(ns: Nodes, kids: Kids, cwd: nat, source: seq<byte>, dest: seq<byte>)
    requires Index(cwd)
  {
    var x, t := Resolve(ns, kids, cwd, source), Split(ns, kids, cwd, dest);
    && x > 0 && ns[x].used && t.Target? && ns[t.dir].isDir && Child(ns, kids, t.dir, t.name) == -1
    && !(ns[x].isDir && Under(ns, t.dir, x))
  }

  ghost function Rehung(kids: Kids, p: nat, i: nat, x: nat, dst: nat): Kids
    requires Index(p) && i < |kids[p]| && Index(dst)
  {
    var kids1 := kids[p := Cut(kids[p], i)];
    kids1[dst := [x] + kids1[dst]]
  }

  /** x has come to be the child of dst under a name, and nothing else of any node has changed but links. */
  ghost predicate Relocated(ns: Nodes, kids: Kids, ns': Nodes, kids': Kids, x: int, dst: int, name: Name) {
    && Index(x) && Index(dst) && ns'[x].parent == dst && ns'[x].name == name
    && (forall d {:trigger ns'[d]} :: 0 <= d < MAX_NODES ==>
          ns'[d].used == ns[d].used && ns'[d].isDir == ns[d].isDir && ns'[d].data == ns[d].data &&
          (d != x ==> ns'[d].parent == ns[d].parent && ns'[d].name == ns[d].name))
    && forall q, c: nat {:trigger c in kids'[q]} :: 0 <= q < MAX_NODES ==>
         (c in kids'[q] <==> if c == x then q == dst else c in kids[q])
  }

  lemma RelocatedIs(ns: Nodes, kids: Kids, ns1: Nodes, p: nat, i: nat, x: nat, dst: nat, name: Name)
    requires Tree(ns, kids) && Index(p) && i < |kids[p]| && x == kids[p][i] && Index(x) && InTable(kids[p])
    requires LinkCut(ns, ns1, p, kids[p], i) && Index(dst) && dst != x
    ensures Relocated(ns, kids, Hung(ns1, x, dst, name), Rehung(kids, p, i, x, dst), x, dst, name)
  {
    ListOf(ns, kids, p);
    assert x in kids[p];
    var kids' := Rehung(kids, p, i, x, dst);
    forall d | 0 <= d < MAX_NODES
      ensures ns1[d].used == ns[d].used && ns1[d].isDir == ns[d].isDir && ns1[d].data == ns[d].data &&
              ns1[d].parent == ns[d].parent && ns1[d].name == ns[d].name
    {
    }
    forall q, c: nat | 0 <= q < MAX_NODES ensures c in kids'[q] <==> if c == x then q == dst else c in kids[q] {
      ListOf(ns, kids, q);
      if q == p { CutMembers(kids[p], i, c); }
    }
  }

  /** What of a text fits a buffer of a size, with its end mark. */
  function Fit(text: seq<byte>, size: nat): seq<byte>
    requires size > 0
  {
    if |text| < size then text else text[..size - 1]
  }

  /** Some free node has become a child of a directory under a name. */
  ghost predicate Made(ns: Nodes, kids: Kids, ns': Nodes, kids': Kids, dir: int, name: Name, isDir: bool) {
    Index(dir) && exists x: nat {:trigger ns'[x]} :: Index(x) && Created(ns, kids, ns', kids', dir, name, isDir, x)
  }

  /** As much of some bytes as a buffer takes. */
  function FirstBytes(data: seq<byte>, capacity: nat): seq<byte> {
    if |data| < capacity then data else data[..capacity]
  }

  /** What a file of at most 8191 bytes keeps of the data. */
  function Stored(data: seq<byte>): seq<byte> { if |data| >= MAX_FILE_SIZE then data[..MAX_FILE_SIZE - 1] else data }

  /** The path denotes a file, or a file can be made there. */
  ghost predicate Writable(ns: Nodes, kids: Kids, cwd: nat, path: seq<byte>)
    requires Index(cwd)
  {
    var node := Resolve(ns, kids, cwd, path);
    if node >= 0 then !ns[node].isDir
    else
      var t := Split(ns, kids, cwd, path);
      t.Target? && Addable(ns, kids, t.dir, t.name)
  }

  /** The path has come to denote a new file with these contents. */
  ghost predicate NewFile(ns: Nodes, kids: Kids, ns': Nodes, kids': Kids, cwd: nat, path: seq<byte>, x: int,
                          data: seq<byte>)
    requires Index(cwd) && Index(x)
  {
    var t := Split(ns, kids, cwd, path);
    t.Target? && Created(ns, kids, ns'[x := ns'[x].(data := [])], kids', t.dir, t.name, false, x) &&
      ns'[x].data == Stored(data)
  }

  /** What touching a path that leads to nothing comes to. */
  lemma TouchMakes(ns: Nodes, kids: Kids, ns': Nodes, kids': Kids, cwd: nat, path: seq<byte>, ok: bool)
    requires Tree(ns, kids) && Index(cwd) && ns[cwd].used && Resolve(ns, kids, cwd, path) == -1
    requires match Split(ns, kids, cwd, path)
             case NoTarget => !ok
             case Target(dir, name) =>
               var c := Child(ns, kids, dir, name);
               c == -1 ==>
                 && (ok <==> Addable(ns, kids, dir, name))
                 && (ok ==> Made(ns, kids, ns', kids', dir, name, false))
    requires !ok ==> ns' == ns && kids' == kids
    ensures ok <==> Writable(ns, kids, cwd, path)
    ensures ok ==> var x := Resolve(ns', kids', cwd, path);
                   var t := Split(ns, kids, cwd, path);
                   x >= 0 && t.Target? && Created(ns, kids, ns', kids', t.dir, t.name, false, x)
  {
    var t := Split(ns, kids, cwd, path);
    if t.Target? {
      SplitResolves(ns, kids, cwd, path);
      if ok {
        var x: nat :| Index(x) && Created(ns, kids, ns', kids', t.dir, t.name, false, x);
        CreatedResolves(ns, kids, ns', kids', t.dir, t.name, false, x, cwd, path);
      }
    }
  }

  /** A child can be made: the parent is a live directory, the name is good and free there, and some node is free. */
  ghost predicate Addable(ns: Nodes, kids: Kids, p: nat, name: Name)
    requires Index(p)
  {
    && ns[p].used && ns[p].isDir && GoodName(name) && Child(ns, kids, p, name) == -1
    && exists x {:trigger ns[x]} :: 0 < x < MAX_NODES && !ns[x].used
  }

  // ---- A move that breaks the tree ----

  const LETTER_D: byte := 0x64
  const LETTER_F: byte := 0x66

  /** Paths of one letter. */
  lemma LetterPaths(ns: Nodes, kids: Kids, cwd: nat, c: byte)
    requires Index(cwd) && c != SLASH && c != DOT
    ensures Resolve(ns, kids, cwd, [SLASH, c]) == Child(ns, kids, 0, [c])
    ensures Split(ns, kids, cwd, [SLASH, c]) == Target(0, [c]) && Split(ns, kids, cwd, [c]) == Target(cwd, [c])
  {
    var path, short := [SLASH, c], [c];
    assert SkipSlashes(path, 0) == 1 && PartEnd(path, 1) == 2 && path[1..2] == [c];
    assert NextPart(path, 1) == Part([c], 2) && StepTo(ns, kids, 0, [c]) == Child(ns, kids, 0, [c]);
    assert WalkFrom(ns, kids, 0, path, 1) == Child(ns, kids, 0, [c]);
    assert SkipSlashes(short, 0) == 0 && PartEnd(short, 0) == 1 && short[0..1] == [c];
    assert NextPart(short, 0) == Part([c], 1);
  }

  /** A live node of this name and kind is in the root directory. */
  ghost predicate InRoot(ns: Nodes, kids: Kids, x: int, name: Name, isDir: bool) {
    && 0 < x < MAX_NODES && ns[x].used && ns[x].parent == 0 && ns[x].name == name && ns[x].isDir == isDir
    && Child(ns, kids, 0, name) == x
  }

  lemma RootChild(ns: Nodes, kids: Kids, x: nat, name: Name)
    requires Tree(ns, kids) && 0 < x < MAX_NODES && ns[x].used && ns[x].parent == 0 && ns[x].name == name
    ensures InRoot(ns, kids, x, name, ns[x].isDir)
  {
    Open(ns, kids);
    ChildIs(ns, kids, x);
  }

  /** The root can be given a name that none of its children bears, while a node is free. */
  lemma RootTakes(ns: Nodes, kids: Kids, name: Name, free: nat)
    requires Tree(ns, kids) && GoodName(name) && 0 < free < MAX_NODES && !ns[free].used
    requires forall c: nat {:trigger ns[c]} :: 0 < c < MAX_NODES && ns[c].used ==> ns[c].name != name
    ensures Addable(ns, kids, 0, name)
  {
    RootOf(ns, kids);
    ListOf(ns, kids, 0);
    ChildNone(ns, kids, 0, name);
    assert !ns[free].used;
  }

  /** What the root holds after a node has been made there. */
  lemma RootMade(ns: Nodes, kids: Kids, ns': Nodes, kids': Kids, name: Name, isDir: bool) returns (x: nat)
    requires Tree(ns', kids') && Made(ns, kids, ns', kids', 0, name, isDir)
    ensures InRoot(ns', kids', x, name, isDir) && !ns[x].used && kids'[x] == kids[x] == []
    ensures forall d {:trigger ns'[d]} :: 0 < d < MAX_NODES && d != x ==> ns'[d] == ns[d]
    ensures forall q {:trigger kids'[q]} :: 0 < q < MAX_NODES ==> kids'[q] == kids[q]
  {
    x :| Index(x) && Created(ns, kids, ns', kids', 0, name, isDir, x);
    assert Created(ns, kids, ns', kids', 0, name, isDir, x);
    RootChild(ns', kids', x, name);
  }

  /** What is read back of data that has been written: its front, as far as a file and the buffer take it. */
  lemma ReadBack(data: seq<byte>, capacity: nat)
    ensures var back := FirstBytes(Stored(data), capacity);
            && back <= data && |back| <= capacity && |back| <= 8191
            && (back == data || |back| == capacity || |back| == 8191)
  {
  }

  /** Writing a file and reading it at the same path gives the data back. */
  method WriteThenRead(fs: RamFs, path: seq<byte>, data: seq<byte>, capacity: nat) returns (rc: int, out: seq<byte>)
    requires fs.Valid() && fs.Live() && 0 !in path
    modifies fs.nodes, fs`kids
    ensures fs.Valid() && (rc == 0 <==> Writable(old(fs.nodes[..]), old(fs.kids), fs.cwd, path))
    ensures rc == 0 && |data| <= 8191 && |data| <= capacity ==> out == data
    ensures rc == 0 ==> out <= data && (out == data || |out| == capacity || |out| == 8191)
  {
    ghost var node;
    rc, node := fs.WriteFile(path, data);
    if rc != 0 { return rc, []; }
    ReadBack(data, capacity);
    rc, out := fs.ReadFile(path, capacity);
  }

  /** A directory and a file in the root; the directory becomes the current one and is removed; then the file is moved
      into it. Every call succeeds, and no child lists make the result a tree. */
  method BreakByMove() returns (fs: RamFs)
    ensures fs.nodes.Length == MAX_NODES && forall ks :: !TreeOk(fs.nodes[..], ks)
  {
    fs := new RamFs();
    var rc := MakeTwo(fs);
    LetterPaths(fs.nodes[..], fs.kids, fs.cwd, LETTER_D);
    rc := fs.Cd([SLASH, LETTER_D]);
    ghost var f, d := Child(fs.nodes[..], fs.kids, 0, [LETTER_F]), fs.cwd;
    rc := fs.Rm([SLASH, LETTER_D]);
    RootChild(fs.nodes[..], fs.kids, f, [LETTER_F]);
    ChildNone(fs.nodes[..], fs.kids, d, [LETTER_F]);
    LetterPaths(fs.nodes[..], fs.kids, d, LETTER_F);
    rc := fs.Mv([SLASH, LETTER_F], [LETTER_F]);
  }

  /** Makes directory `d` and file `f` in the root of an empty filesystem. */
  method MakeTwo(fs: RamFs) returns (rc: int)
    requires fs.Valid() && fs.cwd == 0 && forall c :: 0 < c < MAX_NODES ==> !fs.nodes[c].used
    modifies fs.nodes, fs`kids
    ensures fs.Valid() && fs.cwd == 0 && rc == 0
    ensures exists d, f ::
              InRoot(fs.nodes[..], fs.kids, d, [LETTER_D], true) &&
              InRoot(fs.nodes[..], fs.kids, f, [LETTER_F], false) &&
                           fs.kids[d] == []
  {
    ghost var ns, ks := fs.nodes[..], fs.kids;
    LetterPaths(ns, ks, 0, LETTER_D);
    RootTakes(ns, ks, [LETTER_D], 1);
    rc := fs.Mkdir([SLASH, LETTER_D]);
    ghost var ns1, ks1 := fs.nodes[..], fs.kids;
    ghost var d := RootMade(ns, ks, ns1, ks1, [LETTER_D], true);
    LetterPaths(ns1, ks1, 0, LETTER_F);
    RootTakes(ns1, ks1, [LETTER_F], if d == 1 then 2 else 1);
    rc := fs.Touch([SLASH, LETTER_F]);
    ghost var f := RootMade(ns1, ks1, fs.nodes[..], fs.kids, [LETTER_F], false);
    RootChild(fs.nodes[..], fs.kids, d, [LETTER_D]);
  }
}
