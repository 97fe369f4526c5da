/** The RAM filesystem's node table as a tree: parent, first-child and next-sibling indices, and what edits do to it. */
module RamTree {
  import opened MachineBytes

  type Name = seq<byte>

  const MAX_NODES: nat := 256
  const NAME_MAX: nat := 31
  const MAX_FILE_SIZE: nat := 8192
  const SLASH: byte := 0x2F
  const DOT: byte := 0x2E

  datatype Node = Node(used: bool, isDir: bool, parent: int, firstChild: int, nextSibling: int, name: Name,
                       data: seq<byte>)

  type Nodes = s: seq<Node> | |s| == MAX_NODES witness seq(MAX_NODES, _ => FREE_NODE)

  const FREE_NODE := Node(false, false, -1, -1, -1, [], [])

  /** For each node, its children in list order. */
  type Kids = s: seq<seq<nat>> | |s| == MAX_NODES witness seq(MAX_NODES, _ => [])

  predicate Index(n: int) { 0 <= n < MAX_NODES }

  predicate DotName(name: Name) { name == [DOT] || name == [DOT, DOT] }

  /** A name that a path component can spell and that is no dot name. */
  predicate GoodName(name: Name) { 1 <= |name| <= NAME_MAX && SLASH !in name && 0 !in name && !DotName(name) }

  function Head(cs: seq<nat>): int { if |cs| == 0 then -1 else cs[0] }

  function NextOf(cs: seq<nat>, i: nat): int { if i + 1 < |cs| then cs[i + 1] else -1 }

  ghost predicate Spot(i: int) { true }

  ghost predicate InTable(cs: seq<nat>) { forall j {:trigger cs[j]} :: 0 <= j < |cs| ==> cs[j] < MAX_NODES }

  /** cs is the list that starts at the first-child index of p and follows the sibling indices. */
  ghost predicate Listed(ns: Nodes, p: nat, cs: seq<nat>)
    requires Index(p)
  {
    && ns[p].firstChild == Head(cs) && InTable(cs)
    && forall i {:trigger Spot(i)} :: 0 <= i < |cs| && Spot(i) ==> ns[cs[i]].nextSibling == NextOf(cs, i)
  }

  ghost predicate Pair(i: int, j: int) { true }

  /** No node occurs twice; used only where a proof names the two positions as a `Pair`. */
  ghost predicate Distinct(cs: seq<nat>) {
    forall i, j {:trigger Pair(i, j)} :: 0 <= i < j < |cs| && Pair(i, j) ==> cs[i] != cs[j]
  }

  /** Siblings have different names. */
  ghost predicate NamesDiffer(ns: Nodes, cs: seq<nat>) {
    forall c: nat, d: nat {:trigger Pair(c, d)} ::
        c in cs && d in cs && c != d && Index(c) && Index(d) && Pair(c, d) ==> ns[c].name != ns[d].name
  }

  /** c is n parent steps below the root. */
  ghost predicate Climb(ns: Nodes, c: int, n: nat)
    decreases n
  {
    if n == 0 then c == 0 else c != 0 && Index(c) && ns[c].used && Climb(ns, ns[c].parent, n - 1)
  }

  ghost predicate Rooted(ns: Nodes, c: int) { exists n: nat :: Climb(ns, c, n) }

  /** Every child list is well linked, free of repetition, and holds live nodes with this parent and different good
      names; only live directories have children. */
  ghost predicate ListsOk(ns: Nodes, kids: Kids) {
    forall p {:trigger kids[p]} :: 0 <= p < MAX_NODES ==>
      && Listed(ns, p, kids[p]) && Distinct(kids[p])
      && (forall c :: c in kids[p] ==> Index(c) && c != 0 && ns[c].used && ns[c].parent == p && GoodName(ns[c].name))
      && NamesDiffer(ns, kids[p]) && (kids[p] != [] ==> ns[p].used && ns[p].isDir)
  }

  /** Every live node but the root and `out` is in its parent's list. */
  ghost predicate Covered(ns: Nodes, kids: Kids, out: int) {
    forall c {:trigger ns[c].parent} :: 0 < c < MAX_NODES && ns[c].used && c != out ==>
        Index(ns[c].parent) && c in kids[ns[c].parent]
  }

  /** Like `TreeOk` below, but for node `out`, which may be in no list and need not reach the root. */
  ghost predicate TreeBut(ns: Nodes, kids: Kids, out: int) {
    && ListsOk(ns, kids)
    && ns[0].used && ns[0].isDir && ns[0].parent == -1 && out != 0
    && Covered(ns, kids, out)
    && (forall p, c {:trigger c in kids[p]} :: 0 <= p < MAX_NODES && c in kids[p] ==> c != out)
    && (forall c {:trigger Rooted(ns, c)} :: 0 <= c < MAX_NODES && ns[c].used && c != out ==> Rooted(ns, c))
  }

  /** A rooted tree: node 0 is a live directory without parent, every other live node is in the child list of its
      parent (so once, and in that list alone), and its parent chain reaches node 0. */
  ghost predicate TreeOk(ns: Nodes, kids: Kids) {
    && ListsOk(ns, kids)
    && ns[0].used && ns[0].isDir && ns[0].parent == -1
    && Covered(ns, kids, -1)
    && (forall c {:trigger Rooted(ns, c)} :: 0 <= c < MAX_NODES && ns[c].used ==> Rooted(ns, c))
  }

  // ---- Climbing to the root ----

  lemma {:induction false} ClimbUnique(ns: Nodes, c: int, n: nat, m: nat)
    requires Climb(ns, c, n) && Climb(ns, c, m)
    ensures n == m
    decreases n
  {
    if n > 0 && m > 0 { ClimbUnique(ns, ns[c].parent, n - 1, m - 1); }
  }

  /** The nodes met on the way from c to the root. */
  ghost function Ancestors(ns: Nodes, c: int, n: nat): set<int>
    requires Climb(ns, c, n)
    decreases n
  {
    if n == 0 then {0} else {c} + Ancestors(ns, ns[c].parent, n - 1)
  }

  ghost predicate Within(ns: Nodes, a: int, n: int) { exists m: nat :: m <= n && Climb(ns, a, m) }

  lemma {:induction false} AncestorsClimb(ns: Nodes, c: int, n: nat, a: int)
    requires Climb(ns, c, n) && a in Ancestors(ns, c, n)
    ensures Index(a) && Within(ns, a, n)
    decreases n
  {
    if a == c {
      assert Climb(ns, c, n);
    } else {
      AncestorsClimb(ns, ns[c].parent, n - 1, a);
      var m: nat :| m <= n - 1 && Climb(ns, a, m);
      assert m <= n;
    }
  }

  lemma {:induction false} AncestorsCount(ns: Nodes, c: int, n: nat)
    requires Climb(ns, c, n)
    ensures |Ancestors(ns, c, n)| == n + 1
    decreases n
  {
    if n > 0 {
      AncestorsCount(ns, ns[c].parent, n - 1);
      if c in Ancestors(ns, ns[c].parent, n - 1) {
        AncestorsClimb(ns, ns[c].parent, n - 1, c);
        var m: nat :| m <= n - 1 && Climb(ns, c, m);
        ClimbUnique(ns, c, n, m);
      }
    }
  }

  /** The depth of a node is below the number of nodes. */
  lemma DepthBound(ns: Nodes, c: int, n: nat)
    requires Climb(ns, c, n)
    ensures n < MAX_NODES
  {
    AncestorsCount(ns, c, n);
    forall a | a in Ancestors(ns, c, n) ensures Index(a) { AncestorsClimb(ns, c, n, a); }
    Bounded(Ancestors(ns, c, n), MAX_NODES);
  }

  lemma {:induction false} Bounded(s: set<int>, k: nat)
    requires forall a :: a in s ==> 0 <= a < k
    ensures |s| <= k
  {
    if k > 0 {
      Bounded(s - {k - 1}, k - 1);
      if k - 1 in s { assert s == (s - {k - 1}) + {k - 1}; } else { assert s == s - {k - 1}; }
    } else {
      forall a ensures a !in s {}
      assert s == {};
    }
  }

  // ---- Lists ----

  lemma ListedPush(ns: Nodes, ns': Nodes, p: nat, cs: seq<nat>, c: nat)
    requires Index(p) && Index(c) && Listed(ns, p, cs) && c !in cs
    requires ns'[p].firstChild == c && ns'[c].nextSibling == ns[p].firstChild
    requires forall i {:trigger cs[i]} :: 0 <= i < |cs| ==> ns'[cs[i]].nextSibling == ns[cs[i]].nextSibling
    ensures Listed(ns', p, [c] + cs)
  {
    var cs' := [c] + cs;
    forall i {:trigger Spot(i)} | 0 <= i < |cs'| ensures ns'[cs'[i]].nextSibling == NextOf(cs', i) {
      if i > 0 { assert cs'[i] == cs[i - 1] && Spot(i - 1); }
    }
  }

  ghost function Cut(cs: seq<nat>, i: nat): seq<nat>
    requires i < |cs|
  {
    cs[..i] + cs[i + 1..]
  }

  /** The nodes after the one at position i of the child list of p has been taken out of it. */
  ghost function Unlinked(ns: Nodes, p: nat, cs: seq<nat>, i: nat): Nodes
    requires Index(p) && i < |cs| && InTable(cs)
  {
    if i == 0 then ns[p := ns[p].(firstChild := ns[cs[0]].nextSibling)]
    else ns[cs[i - 1] := ns[cs[i - 1]].(nextSibling := ns[cs[i]].nextSibling)]
  }

  /** Where the element at position j of a cut list was. */
  function Before(j: nat, i: nat): nat { if j < i then j else j + 1 }

  lemma CutAt(cs: seq<nat>, i: nat, j: nat)
    requires i < |cs| && j + 1 < |cs|
    ensures Cut(cs, i)[j] == cs[Before(j, i)]
  {
  }

  lemma CutDistinct(cs: seq<nat>, i: nat)
    requires i < |cs| && Distinct(cs)
    ensures Distinct(Cut(cs, i))
  {
    forall j, k {:trigger Pair(j, k)} | 0 <= j < k < |Cut(cs, i)| ensures Cut(cs, i)[j] != Cut(cs, i)[k] {
      CutAt(cs, i, j);
      CutAt(cs, i, k);
      DistinctAt(cs, Before(j, i), Before(k, i));
    }
  }

  lemma CutMembers(cs: seq<nat>, i: nat, c: nat)
    requires i < |cs| && Distinct(cs)
    ensures c in Cut(cs, i) <==> c in cs && c != cs[i]
  {
    if c in Cut(cs, i) {
      var j :| 0 <= j < |Cut(cs, i)| && Cut(cs, i)[j] == c;
      CutAt(cs, i, j);
      DistinctAt(cs, Before(j, i), i);
    }
    if c in cs && c != cs[i] {
      var j :| 0 <= j < |cs| && cs[j] == c;
      CutAt(cs, i, if j < i then j else j - 1);
    }
  }

  /** Apart from links the nodes are the same. */
  ghost predicate SameBodies(ns: Nodes, ns': Nodes) {
    forall d {:trigger ns'[d]} :: 0 <= d < MAX_NODES ==>
      ns'[d].(firstChild := ns[d].firstChild, nextSibling := ns[d].nextSibling) == ns[d]
  }

  /** The one link that leads to cs[i] has been led past it, and every other link stayed. */
  ghost predicate LinkCut(ns: Nodes, ns': Nodes, p: nat, cs: seq<nat>, i: nat)
    requires Index(p) && i < |cs| && InTable(cs)
  {
    && SameBodies(ns, ns')
    && (forall d {:trigger ns'[d].firstChild} :: 0 <= d < MAX_NODES ==>
          ns'[d].firstChild == if i == 0 && d == p then ns[cs[0]].nextSibling else ns[d].firstChild)
    && (forall d {:trigger ns'[d].nextSibling} :: 0 <= d < MAX_NODES ==>
          ns'[d].nextSibling == if i > 0 && d == cs[i - 1] then ns[cs[i]].nextSibling else ns[d].nextSibling)
  }

  lemma UnlinkedCut(ns: Nodes, p: nat, cs: seq<nat>, i: nat)
    requires Index(p) && i < |cs| && InTable(cs)
    ensures LinkCut(ns, Unlinked(ns, p, cs, i), p, cs, i)
  {
  }

  lemma ListedCut(ns: Nodes, ns': Nodes, p: nat, cs: seq<nat>, i: nat)
    requires Index(p) && i < |cs| && Listed(ns, p, cs) && Distinct(cs) && LinkCut(ns, ns', p, cs, i)
    ensures Listed(ns', p, Cut(cs, i))
  {
    var cs' := Cut(cs, i);
    assert Spot(i) && Spot(0);
    forall j {:trigger Spot(j)} | 0 <= j < |cs'| ensures ns'[cs'[j]].nextSibling == NextOf(cs', j) {
      var k := Before(j, i);
      assert Spot(k);
      CutAt(cs, i, j);
      if j + 1 < |cs'| { CutAt(cs, i, j + 1); }
      if i > 0 && k != i - 1 { DistinctAt(cs, k, i - 1); }
    }
    forall j | 0 <= j < |cs'| ensures cs'[j] < MAX_NODES { CutAt(cs, i, j); }
  }

  lemma DistinctAt(cs: seq<nat>, i: nat, j: nat)
    requires Distinct(cs) && i < |cs| && j < |cs| && i != j
    ensures cs[i] != cs[j]
  {
    assert Pair(i, j) && Pair(j, i);
  }

  // ---- Edits that keep the tree ----

  /** x is on the way from c to the root. */
  ghost predicate Passes(ns: Nodes, c: int, n: nat, x: int)
    requires Climb(ns, c, n)
    decreases n
  {
    c == x || (n > 0 && Passes(ns, ns[c].parent, n - 1, x))
  }

  lemma {:induction false} ChildlessNotPassed(ns: Nodes, kids: Kids, out: int, c: int, n: nat, x: nat)
    requires Covered(ns, kids, out) && Climb(ns, c, n) && Index(x) && kids[x] == [] && c != x && x != 0
    requires out == x || out == -1
    ensures !Passes(ns, c, n, x)
    decreases n
  {
    if n > 0 { ChildlessNotPassed(ns, kids, out, ns[c].parent, n - 1, x); }
  }

  /** Climbing looks only at the nodes passed. */
  lemma {:induction false} ClimbSame(ns: Nodes, ns': Nodes, c: int, n: nat, x: int)
    requires Climb(ns, c, n) && !Passes(ns, c, n, x)
    requires forall d :: 0 <= d < MAX_NODES && d != x && ns[d].used ==> ns'[d].used && ns'[d].parent == ns[d].parent
    ensures Climb(ns', c, n)
    decreases n
  {
    if n > 0 { ClimbSame(ns, ns', ns[c].parent, n - 1, x); }
  }

  /** Hanging x below dst, which does not lie below x, leaves every other node below the root. */
  lemma {:induction false} ClimbMoved(ns: Nodes, ns': Nodes, c: int, n: nat, x: int, dst: int, m: nat)
    requires Climb(ns, c, n) && Climb(ns', dst, m) && Index(x) && x != 0 && ns'[x].used && ns'[x].parent == dst
    requires forall d :: 0 <= d < MAX_NODES && d != x && ns[d].used ==> ns'[d].used && ns'[d].parent == ns[d].parent
    ensures Rooted(ns', c)
    decreases n
  {
    if c == x {
      assert Climb(ns', x, m + 1);
    } else if n == 0 {
      assert Climb(ns', c, 0);
    } else {
      ClimbMoved(ns, ns', ns[c].parent, n - 1, x, dst, m);
      var k: nat :| Climb(ns', ns[c].parent, k);
      assert Climb(ns', c, k + 1);
    }
  }

  /** Taking a node out of its parent's list. */
  lemma UnlinkedTree(ns: Nodes, kids: Kids, ns': Nodes, p: nat, i: nat)
    requires TreeOk(ns, kids) && Index(p) && i < |kids[p]| && LinkCut(ns, ns', p, kids[p], i)
    ensures TreeBut(ns', kids[p := Cut(kids[p], i)], kids[p][i])
  {
    var cs, idx := kids[p], kids[p][i];
    var kids' := kids[p := Cut(cs, i)];
    UnlinkedLists(ns, kids, ns', p, i);
    assert cs[i] in cs;
    forall c: nat ensures c in Cut(cs, i) <==> c in cs && c != cs[i] { CutMembers(cs, i, c); }
    forall c {:trigger Rooted(ns', c)} | 0 <= c < MAX_NODES && ns[c].used ensures Rooted(ns', c) {
      assert Rooted(ns, c);
      var n: nat :| Climb(ns, c, n);
      ClimbAlike(ns, ns', c, n);
    }
  }

  lemma UnlinkedLists(ns: Nodes, kids: Kids, ns': Nodes, p: nat, i: nat)
    requires ListsOk(ns, kids) && Index(p) && i < |kids[p]| && LinkCut(ns, ns', p, kids[p], i)
    ensures ListsOk(ns', kids[p := Cut(kids[p], i)])
  {
    var cs := kids[p];
    var kids' := kids[p := Cut(cs, i)];
    ListedCut(ns, ns', p, cs, i);
    CutDistinct(cs, i);
    forall q {:trigger kids'[q]} | 0 <= q < MAX_NODES
      ensures Listed(ns', q, kids'[q]) && Distinct(kids'[q]) && NamesDiffer(ns', kids'[q])
      ensures forall c :: c in kids'[q] ==> c in kids[q]
    {
      if q == p {
        forall c | c in kids'[q] ensures c in cs { CutMembers(cs, i, c); }
      } else {
        OtherList(ns, kids, ns', p, i, q);
      }
    }
  }

  lemma OtherList(ns: Nodes, kids: Kids, ns': Nodes, p: nat, i: nat, q: nat)
    requires ListsOk(ns, kids) && Index(p) && Index(q) && p != q && i < |kids[p]| && LinkCut(ns, ns', p, kids[p], i)
    ensures Listed(ns', q, kids[q])
  {
    if i > 0 { assert kids[p][i - 1] in kids[p]; }
    forall j {:trigger Spot(j)} | 0 <= j < |kids[q]| ensures ns'[kids[q][j]].nextSibling == NextOf(kids[q], j) {
      assert Spot(j) && kids[q][j] in kids[q];
    }
  }

  lemma {:induction false} ClimbAlike(ns: Nodes, ns': Nodes, c: int, n: nat)
    requires Climb(ns, c, n)
    requires forall d :: 0 <= d < MAX_NODES ==> ns'[d].used == ns[d].used && ns'[d].parent == ns[d].parent
    ensures Climb(ns', c, n)
    decreases n
  {
    if n > 0 { ClimbAlike(ns, ns', ns[c].parent, n - 1); }
  }

  ghost predicate SameBut(ns: Nodes, ns': Nodes, x: int) {
    forall d {:trigger ns'[d]} :: 0 <= d < MAX_NODES && d != x ==> ns'[d] == ns[d]
  }

  lemma ListsSame(ns: Nodes, kids: Kids, ns': Nodes, x: nat)
    requires ListsOk(ns, kids) && Index(x) && SameBut(ns, ns', x) && kids[x] == [] && ns'[x].firstChild == -1
    requires forall p, c {:trigger c in kids[p]} :: 0 <= p < MAX_NODES && c in kids[p] ==> c != x
    ensures ListsOk(ns', kids)
  {
    forall q {:trigger kids[q]} | 0 <= q < MAX_NODES ensures Listed(ns', q, kids[q]) && NamesDiffer(ns', kids[q]) {
      forall j {:trigger Spot(j)} | 0 <= j < |kids[q]| ensures ns'[kids[q][j]].nextSibling == NextOf(kids[q], j) {
        assert Spot(j) && kids[q][j] in kids[q];
      }
    }
  }

  lemma RootedSame(ns: Nodes, kids: Kids, ns': Nodes, out: int, x: nat, c: int)
    requires TreeBut(ns, kids, out) && Index(x) && x != 0 && kids[x] == [] && (out == x || out == -1)
    requires SameBut(ns, ns', x) && Rooted(ns, c) && c != x
    ensures Rooted(ns', c)
  {
    var n: nat :| Climb(ns, c, n);
    ChildlessNotPassed(ns, kids, out, c, n, x);
    ClimbSame(ns, ns', c, n, x);
  }

  /** Clearing a node that is in no list and has no children. */
  lemma RemovedTree(ns: Nodes, kids: Kids, ns': Nodes, x: nat)
    requires TreeBut(ns, kids, x) && Index(x) && kids[x] == [] && SameBut(ns, ns', x)
    requires !ns'[x].used && ns'[x].firstChild == -1
    ensures TreeOk(ns', kids)
  {
    ListsSame(ns, kids, ns', x);
    forall c {:trigger Rooted(ns', c)} | 0 <= c < MAX_NODES && ns'[c].used ensures Rooted(ns', c) {
      assert Rooted(ns, c);
      RootedSame(ns, kids, ns', x, x, c);
    }
  }

  /** Taking a free node into use. */
  lemma AllocatedTree(ns: Nodes, kids: Kids, ns': Nodes, x: nat)
    requires TreeOk(ns, kids) && Index(x) && x != 0 && !ns[x].used && SameBut(ns, ns', x) && ns'[x].firstChild == -1
    ensures TreeBut(ns', kids, x) && kids[x] == []
  {
    assert kids[x] == [];
    forall p, c {:trigger c in kids[p]} | 0 <= p < MAX_NODES && c in kids[p] ensures c != x {}
    ListsSame(ns, kids, ns', x);
    assert TreeBut(ns, kids, -1);
    forall c {:trigger Rooted(ns', c)} | 0 <= c < MAX_NODES && ns'[c].used && c != x ensures Rooted(ns', c) {
      assert Rooted(ns, c);
      RootedSame(ns, kids, ns', -1, x, c);
    }
  }

  /** x has become the first child of dst under a name. */
  ghost predicate Attached(ns: Nodes, ns': Nodes, x: nat, dst: nat, name: Name)
    requires Index(x) && Index(dst)
  {
    && (forall d {:trigger ns'[d]} :: 0 <= d < MAX_NODES && d != x && d != dst ==> ns'[d] == ns[d])
    && ns'[x] == ns[x].(parent := dst, nextSibling := ns[dst].firstChild, name := name)
    && ns'[dst] == ns[dst].(firstChild := x)
  }

  ghost predicate NameFree(ns: Nodes, cs: seq<nat>, name: Name) {
    forall c: nat {:trigger c in cs} :: c in cs && Index(c) ==> ns[c].name != name
  }

  lemma PushDistinct(cs: seq<nat>, x: nat)
    requires Distinct(cs) && x !in cs
    ensures Distinct([x] + cs)
  {
    forall i, j {:trigger Pair(i, j)} | 0 <= i < j < |[x] + cs| ensures ([x] + cs)[i] != ([x] + cs)[j] {
      assert ([x] + cs)[j] == cs[j - 1] && cs[j - 1] in cs;
      if i > 0 { DistinctAt(cs, i - 1, j - 1); }
    }
  }

  /** A list whose members x is none of, and whose owner is not dst, is as it was. */
  lemma AttachedElsewhere(ns: Nodes, ns': Nodes, x: nat, dst: nat, name: Name, q: nat, cs: seq<nat>)
    requires Index(x) && Index(dst) && x != dst && Attached(ns, ns', x, dst, name) && Index(q) && q != dst
    requires Listed(ns, q, cs) && x !in cs && NamesDiffer(ns, cs)
    ensures Listed(ns', q, cs) && NamesDiffer(ns', cs)
  {
    forall j {:trigger Spot(j)} | 0 <= j < |cs| ensures ns'[cs[j]].nextSibling == NextOf(cs, j) {
      assert Spot(j) && cs[j] in cs && cs[j] != x;
    }
  }

  lemma AttachedHere(ns: Nodes, ns': Nodes, x: nat, dst: nat, name: Name, cs: seq<nat>)
    requires Index(x) && Index(dst) && x != dst && Attached(ns, ns', x, dst, name)
    requires Listed(ns, dst, cs) && x !in cs && dst !in cs && NamesDiffer(ns, cs) && NameFree(ns, cs, name)
    ensures Listed(ns', dst, [x] + cs) && NamesDiffer(ns', [x] + cs)
  {
    forall j | 0 <= j < |cs| ensures ns'[cs[j]].nextSibling == ns[cs[j]].nextSibling { assert cs[j] in cs; }
    ListedPush(ns, ns', dst, cs, x);
    forall c: nat, d: nat {:trigger Pair(c, d)} | c in [x] + cs && d in [x] + cs && c != d && Index(c) && Index(d)
      ensures ns'[c].name != ns'[d].name
    {
      assert Pair(c, d) && Pair(d, c);
      assert c == x || c in cs;
      assert d == x || d in cs;
    }
  }

  lemma AttachedLists(ns: Nodes, kids: Kids, ns': Nodes, x: nat, dst: nat, name: Name)
    requires TreeBut(ns, kids, x) && Index(x) && Index(dst) && x != dst && ns[x].used && Attached(ns, ns', x, dst, name)
    requires ns[dst].used && ns[dst].isDir && GoodName(name) && NameFree(ns, kids[dst], name) && dst !in kids[dst]
    ensures ListsOk(ns', kids[dst := [x] + kids[dst]])
  {
    var kids' := kids[dst := [x] + kids[dst]];
    forall q {:trigger kids'[q]} | 0 <= q < MAX_NODES
      ensures Listed(ns', q, kids'[q]) && Distinct(kids'[q]) && NamesDiffer(ns', kids'[q])
    {
      assert x !in kids[q];
      if q == dst {
        AttachedHere(ns, ns', x, dst, name, kids[dst]);
        PushDistinct(kids[dst], x);
      } else {
        AttachedElsewhere(ns, ns', x, dst, name, q, kids[q]);
      }
    }
  }

  lemma NotOwnChild(ns: Nodes, kids: Kids, out: int, d: nat, m: nat)
    requires TreeBut(ns, kids, out) && Index(d) && Climb(ns, d, m)
    ensures d !in kids[d]
  {
    NotOwnParent(ns, d, m);
  }

  lemma NotOwnParent(ns: Nodes, c: nat, n: nat)
    requires Index(c) && Climb(ns, c, n)
    ensures n > 0 ==> ns[c].parent != c
  {
    if n > 0 && Climb(ns, c, n - 1) { ClimbUnique(ns, c, n, n - 1); }
  }

  /** Hanging a node below a directory that does not lie below it, under a name that is free there. */
  lemma AttachedTree(ns: Nodes, kids: Kids, ns': Nodes, x: nat, dst: nat, name: Name, m: nat)
    requires TreeBut(ns, kids, x) && Index(x) && Index(dst) && x != dst && ns[x].used && Attached(ns, ns', x, dst, name)
    requires ns[dst].used && ns[dst].isDir && GoodName(name) && NameFree(ns, kids[dst], name)
    requires Climb(ns, dst, m) && !Passes(ns, dst, m, x)
    ensures TreeOk(ns', kids[dst := [x] + kids[dst]])
  {
    NotOwnChild(ns, kids, x, dst, m);
    AttachedLists(ns, kids, ns', x, dst, name);
    ClimbSame(ns, ns', dst, m, x);
    forall c {:trigger Rooted(ns', c)} | 0 <= c < MAX_NODES && ns'[c].used ensures Rooted(ns', c) {
      if c == x {
        assert Climb(ns', x, m + 1);
      } else {
        assert Rooted(ns, c);
        var n: nat :| Climb(ns, c, n);
        ClimbMoved(ns, ns', c, n, x, dst, m);
      }
    }
  }

  // ---- The tree, for the operations ----

  ghost predicate Opened(x: bool) { true }

  /** `TreeOk`, and every parent index in range, stated so that only proofs that mention `Opened` see through it. */
  ghost predicate Tree(ns: Nodes, kids: Kids) {
    && (forall d {:trigger ns[d]} :: 0 <= d < MAX_NODES ==> -1 <= ns[d].parent < MAX_NODES)
    && forall x {:trigger Opened(x)} :: Opened(x) ==> TreeOk(ns, kids)
  }

  lemma Open(ns: Nodes, kids: Kids)
    requires Tree(ns, kids)
    ensures TreeOk(ns, kids)
  {
    assert Opened(true);
  }

  /** A live node is its parent's child, some way below the root. */
  lemma LiveNode(ns: Nodes, kids: Kids, c: nat) returns (n: nat)
    requires Tree(ns, kids) && Index(c) && ns[c].used
    ensures Climb(ns, c, n) && n < MAX_NODES
    ensures c != 0 ==> Index(ns[c].parent) && c in kids[ns[c].parent] && c !in kids[c]
  {
    Open(ns, kids);
    assert Rooted(ns, c);
    n :| Climb(ns, c, n);
    DepthBound(ns, c, n);
    if c != 0 { NotOwnChild(ns, kids, -1, c, n); }
  }

  /** Only live directories have children. */
  lemma ListOf(ns: Nodes, kids: Kids, p: nat)
    requires Tree(ns, kids) && Index(p)
    ensures Listed(ns, p, kids[p]) && Distinct(kids[p]) && NamesDiffer(ns, kids[p])
    ensures kids[p] != [] ==> ns[p].used && ns[p].isDir
    ensures forall c: nat {:trigger c in kids[p]} :: c in kids[p] ==>
              Index(c) && c != 0 && ns[c].used && ns[c].parent == p
    ensures ns[p].firstChild == -1 <==> kids[p] == []
  {
    Open(ns, kids);
    if kids[p] != [] { assert kids[p][0] in kids[p]; }
  }

  lemma RootOf(ns: Nodes, kids: Kids)
    requires Tree(ns, kids)
    ensures ns[0].used && ns[0].isDir && ns[0].parent == -1
  {
    Open(ns, kids);
  }

  function FreshNode(n: Node): Node { Node(true, false, -1, -1, -1, [], []) }

  /** A node has been made in a directory. */
  ghost predicate Created(ns: Nodes, kids: Kids, ns': Nodes, kids': Kids, p: nat, name: Name, isDir: bool, x: nat) {
    && Index(p) && Index(x) && x != p && x != 0 && !ns[x].used
    && (forall d {:trigger ns'[d]} :: 0 <= d < MAX_NODES && d != x && d != p ==> ns'[d] == ns[d])
    && ns'[x] == Node(true, isDir, p, -1, ns[p].firstChild, name, [])
    && ns'[p] == ns[p].(firstChild := x) && kids' == kids[p := [x] + kids[p]] && kids[x] == []
  }

  /** Making a node in a live directory, under a good name that is free there, keeps the tree. */
  lemma CreatedTree(ns: Nodes, kids: Kids, ns': Nodes, p: nat, name: Name, isDir: bool, x: nat)
    requires Tree(ns, kids) && Index(p) && ns[p].used && ns[p].isDir && Index(x) && x != 0 && !ns[x].used
    requires GoodName(name) && NameFree(ns, kids[p], name)
    requires ns' == ns[x := Node(true, isDir, p, -1, ns[p].firstChild, name, [])][p := ns[p].(firstChild := x)]
    ensures Tree(ns', kids[p := [x] + kids[p]]) && Created(ns, kids, ns', kids[p := [x] + kids[p]], p, name, isDir, x)
  {
    Open(ns, kids);
    var mid: Nodes := ns[x := Node(true, isDir, -1, -1, -1, [], [])];
    AllocatedTree(ns, kids, mid, x);
    var m := LiveNode(ns, kids, p);
    ChildlessNotPassed(ns, kids, -1, p, m, x);
    ClimbSame(ns, mid, p, m, x);
    ChildlessNotPassed(mid, kids, x, p, m, x);
    AttachedTree(mid, kids, ns', x, p, name, m);
  }

  function Cleared(n: Node): Node { n.(used := false, firstChild := -1, nextSibling := -1, name := [], data := []) }

  /** Removing the childless node at position i of the child list of p keeps the tree. */
  lemma RemovedNode(ns: Nodes, kids: Kids, ns1: Nodes, ns': Nodes, p: nat, i: nat, x: nat)
    requires Tree(ns, kids) && Index(p) && i < |kids[p]| && x == kids[p][i] && Index(x) && kids[x] == []
    requires InTable(kids[p]) && LinkCut(ns, ns1, p, kids[p], i) && ns' == ns1[x := Cleared(ns1[x])]
    ensures Tree(ns', kids[p := Cut(kids[p], i)])
  {
    Open(ns, kids);
    assert x in kids[p];
    var kids' := kids[p := Cut(kids[p], i)];
    UnlinkedTree(ns, kids, ns1, p, i);
    assert kids'[x] == [];
    RemovedTree(ns1, kids', ns', x);
    forall d {:trigger ns'[d]} | 0 <= d < MAX_NODES ensures -1 <= ns'[d].parent < MAX_NODES {
      assert ns1[d].parent == ns[d].parent;
    }
  }

  /** The nodes after x, already out of its list, has been hung below dst. */
  function Hung(ns1: Nodes, x: nat, dst: nat, name: Name): Nodes
    requires Index(x) && Index(dst)
  {
    var ns2 := ns1[x := ns1[x].(parent := dst, nextSibling := ns1[dst].firstChild, name := name)];
    ns2[dst := ns2[dst].(firstChild := x)]
  }

  /** Moving a node below a live directory that does not lie below it, under a name that is free there. */
  lemma MovedNode(ns: Nodes, kids: Kids, ns1: Nodes, p: nat, i: nat, x: nat, dst: nat, name: Name, m: nat)
    requires Tree(ns, kids) && Index(p) && i < |kids[p]| && x == kids[p][i] && Index(x)
    requires InTable(kids[p]) && LinkCut(ns, ns1, p, kids[p], i)
    requires Index(dst) && x != dst && ns[dst].used && ns[dst].isDir && GoodName(name) && NameFree(ns, kids[dst], name)
    requires Climb(ns, dst, m) && !Passes(ns, dst, m, x)
    ensures var kids1 := kids[p := Cut(kids[p], i)]; Tree(Hung(ns1, x, dst, name), kids1[dst := [x] + kids1[dst]])
  {
    Open(ns, kids);
    assert x in kids[p];
    var kids1 := kids[p := Cut(kids[p], i)];
    var ns' := Hung(ns1, x, dst, name);
    UnlinkedTree(ns, kids, ns1, p, i);
    assert ns1[x].used == ns[x].used && ns1[dst].used == ns[dst].used && ns1[dst].isDir == ns[dst].isDir;
    forall d | 0 <= d < MAX_NODES ensures ns1[d].used == ns[d].used && ns1[d].parent == ns[d].parent &&
      ns1[d].name == ns[d].name {}
    ClimbAlike(ns, ns1, dst, m);
    PassesAlike(ns, ns1, dst, m, x);
    forall c: nat | c in kids1[dst] && Index(c) ensures ns1[c].name != name {
      if dst == p { CutMembers(kids[p], i, c); }
    }
    assert Attached(ns1, ns', x, dst, name);
    AttachedTree(ns1, kids1, ns', x, dst, name, m);
  }

  lemma {:induction false} PassesAlike(ns: Nodes, ns': Nodes, c: int, n: nat, x: int)
    requires Climb(ns, c, n) && Climb(ns', c, n)
    requires forall d {:trigger ns[d]} {:trigger ns'[d]} :: 0 <= d < MAX_NODES ==> ns'[d].parent == ns[d].parent
    ensures Passes(ns', c, n, x) == Passes(ns, c, n, x)
    decreases n
  {
    if n > 0 { PassesAlike(ns, ns', ns[c].parent, n - 1, x); }
  }

  // ---- Parent chains, of removed nodes too ----

  /** n parent steps lead from c to no node, through nodes in use or not. */
  ghost predicate Grounded(ns: Nodes, c: int, n: nat)
    decreases n
  {
    if n == 0 then c == -1 else Index(c) && Grounded(ns, ns[c].parent, n - 1)
  }

  /** x is on the way from c. */
  ghost predicate Meets(ns: Nodes, c: int, n: nat, x: int)
    requires Grounded(ns, c, n)
    decreases n
  {
    n > 0 && (c == x || Meets(ns, ns[c].parent, n - 1, x))
  }

  ghost predicate Ends(ns: Nodes, c: int) { exists n: nat :: Grounded(ns, c, n) }

  /** Following parents ends, wherever it starts. */
  ghost predicate AllEnd(ns: Nodes) { forall c {:trigger Ends(ns, c)} :: 0 <= c < MAX_NODES ==> Ends(ns, c) }

  /** d is x or lies below it. */
  ghost predicate Under(ns: Nodes, d: int, x: int) { exists n: nat :: Grounded(ns, d, n) && Meets(ns, d, n, x) }

  lemma {:induction false} GroundedUnique(ns: Nodes, c: int, n: nat, m: nat)
    requires Grounded(ns, c, n) && Grounded(ns, c, m)
    ensures n == m
    decreases n
  {
    if n > 0 && m > 0 { GroundedUnique(ns, ns[c].parent, n - 1, m - 1); }
  }

  lemma UnderIs(ns: Nodes, d: int, n: nat, x: int)
    requires Grounded(ns, d, n)
    ensures Under(ns, d, x) <==> Meets(ns, d, n, x)
  {
    if Under(ns, d, x) {
      var m: nat :| Grounded(ns, d, m) && Meets(ns, d, m, x);
      GroundedUnique(ns, d, n, m);
    }
  }

  /** A live node's way to the root, and one step further. */
  lemma {:induction false} ClimbGrounded(ns: Nodes, c: int, n: nat, x: int)
    requires Climb(ns, c, n) && ns[0].parent == -1
    ensures Grounded(ns, c, n + 1) && Meets(ns, c, n + 1, x) == Passes(ns, c, n, x)
    decreases n
  {
    if n > 0 { ClimbGrounded(ns, ns[c].parent, n - 1, x); } else { assert Grounded(ns, -1, 0); }
  }

  lemma {:induction false} GroundedAlike(ns: Nodes, ns': Nodes, c: int, n: nat, x: int)
    requires Grounded(ns, c, n) && !Meets(ns, c, n, x)
    requires forall d {:trigger ns'[d]} :: 0 <= d < MAX_NODES && d != x ==> ns'[d].parent == ns[d].parent
    ensures Grounded(ns', c, n)
    decreases n
  {
    if n > 0 { GroundedAlike(ns, ns', ns[c].parent, n - 1, x); }
  }

  lemma {:induction false} GroundedThrough(ns: Nodes, ns': Nodes, c: int, n: nat, x: int, p: int, m: nat)
    requires Grounded(ns, c, n) && Index(x) && ns'[x].parent == p && Grounded(ns', p, m)
    requires forall d {:trigger ns'[d]} :: 0 <= d < MAX_NODES && d != x ==> ns'[d].parent == ns[d].parent
    ensures Ends(ns', c)
    decreases n
  {
    if c == x {
      assert Grounded(ns', x, m + 1);
    } else if n == 0 {
      assert Grounded(ns', c, 0);
    } else {
      GroundedThrough(ns, ns', ns[c].parent, n - 1, x, p, m);
      var k: nat :| Grounded(ns', ns[c].parent, k);
      assert Grounded(ns', c, k + 1);
    }
  }

  /** Giving x another parent, the way from which does not lead through x. */
  lemma Reparented(ns: Nodes, ns': Nodes, x: int, p: int, m: nat)
    requires AllEnd(ns) && Index(x) && ns'[x].parent == p && Grounded(ns, p, m) && !Meets(ns, p, m, x)
    requires forall d {:trigger ns'[d]} :: 0 <= d < MAX_NODES && d != x ==> ns'[d].parent == ns[d].parent
    ensures AllEnd(ns')
  {
    GroundedAlike(ns, ns', p, m, x);
    forall c | 0 <= c < MAX_NODES ensures Ends(ns', c) {
      assert Ends(ns, c);
      var n: nat :| Grounded(ns, c, n);
      GroundedThrough(ns, ns', c, n, x, p, m);
    }
  }

  lemma SameParents(ns: Nodes, ns': Nodes)
    requires AllEnd(ns) && forall d {:trigger ns'[d]} :: 0 <= d < MAX_NODES ==> ns'[d].parent == ns[d].parent
    ensures AllEnd(ns')
  {
    forall c | 0 <= c < MAX_NODES ensures Ends(ns', c) {
      assert Ends(ns, c);
      var n: nat :| Grounded(ns, c, n);
      NeverMeets(ns, c, n);
      GroundedAlike(ns, ns', c, n, -1);
    }
  }

  lemma {:induction false} NeverMeets(ns: Nodes, c: int, n: nat)
    requires Grounded(ns, c, n)
    ensures !Meets(ns, c, n, -1)
    decreases n
  {
    if n > 0 { NeverMeets(ns, ns[c].parent, n - 1); }
  }

  lemma {:induction false} UnusedNotPassed(ns: Nodes, c: int, n: nat, x: int)
    requires Climb(ns, c, n) && Index(x) && x != 0 && !ns[x].used
    ensures !Passes(ns, c, n, x)
    decreases n
  {
    if n > 0 { UnusedNotPassed(ns, ns[c].parent, n - 1, x); }
  }

  lemma CoveredTree(ns: Nodes, kids: Kids)
    requires Tree(ns, kids)
    ensures Covered(ns, kids, -1)
  {
    Open(ns, kids);
  }

  /** A new child of a live directory. */
  lemma CreatedEnds(ns: Nodes, kids: Kids, ns': Nodes, p: nat, x: nat)
    requires Tree(ns, kids) && AllEnd(ns) && Index(p) && ns[p].used && Index(x) && x != 0 && !ns[x].used &&
             ns'[x].parent == p
    requires forall d {:trigger ns'[d]} :: 0 <= d < MAX_NODES && d != x ==> ns'[d].parent == ns[d].parent
    ensures AllEnd(ns')
  {
    var m := LiveNode(ns, kids, p);
    RootOf(ns, kids);
    UnusedNotPassed(ns, p, m, x);
    ClimbGrounded(ns, p, m, x);
    Reparented(ns, ns', x, p, m + 1);
  }

  /** Whatever is hung below a node that is not in use is lost to the tree: no child lists make the result one. */
  lemma HungBelowDead(ns1: Nodes, x: nat, dst: nat, name: Name, kids': Kids)
    requires Index(x) && Index(dst) && x != dst && x != 0 && ns1[x].used && !ns1[dst].used
    ensures !TreeOk(Hung(ns1, x, dst, name), kids')
  {
    var ns' := Hung(ns1, x, dst, name);
    assert ns'[x].parent == dst && ns'[x].used && !ns'[dst].used;
    if x in kids'[dst] { assert kids'[dst] != []; }
  }

  /** Nothing but file contents differs. */
  ghost predicate SameShape(ns: Nodes, ns': Nodes) {
    forall d {:trigger ns'[d]} {:trigger ns[d]} :: 0 <= d < MAX_NODES ==> ns'[d].(data := ns[d].data) == ns[d]
  }

  /** Changing file contents keeps the tree. */
  lemma DataKeepsTree(ns: Nodes, kids: Kids, ns': Nodes)
    requires Tree(ns, kids) && SameShape(ns, ns')
    ensures Tree(ns', kids)
  {
    Open(ns, kids);
    forall d ensures 0 <= d < MAX_NODES ==>
        ns'[d].used == ns[d].used && ns'[d].parent == ns[d].parent && ns'[d].name == ns[d].name {}
    forall q {:trigger kids[q]} | 0 <= q < MAX_NODES ensures Listed(ns', q, kids[q]) && NamesDiffer(ns', kids[q]) {
      forall j {:trigger Spot(j)} | 0 <= j < |kids[q]| ensures ns'[kids[q][j]].nextSibling == NextOf(kids[q], j) {
        assert Spot(j);
      }
    }
    forall c {:trigger Rooted(ns', c)} | 0 <= c < MAX_NODES && ns'[c].used ensures Rooted(ns', c) {
      assert Rooted(ns, c);
      var n: nat :| Climb(ns, c, n);
      ClimbAlike(ns, ns', c, n);
    }
  }
}
