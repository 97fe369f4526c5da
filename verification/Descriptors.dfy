/** The descriptor table: files and pipe ends, and which pipes are in use. */
module Descriptors {
  import opened Options
  import opened MachineBytes
  import opened PipeRings

  const FD_MAX: nat := 8
  const PIPE_MAX: nat := 4
  const FIRST_FD: nat := 3
  const MAX_BYTES: nat := 4096
  const PATH_MAX: nat := 127

  datatype Fd = Unused | File(path: string, pos: nat) | ReadEnd(pipe: nat) | WriteEnd(pipe: nat)

  /** Which ends of a pipe are open. */
  datatype Ends = Ends(read: bool, write: bool)

  datatype Table = Table(fds: seq<Fd>, ends: seq<Ends>, queues: seq<PipeView>)

  ghost predicate Pair(i: int, j: int) { true }

  ghost predicate Held(fds: seq<Fd>, fd: Fd) { exists i :: 0 <= i < |fds| && fds[i] == fd }

  predicate IsEnd(fd: Fd) { fd.ReadEnd? || fd.WriteEnd? }

  /** Each open end of a pipe is held by exactly one slot, and no slot holds an end that is not open. Stated behind a
      quantifier so that only proofs that mention `Opened` see through it. */
  ghost predicate EndsOk(t: Table) { forall x {:trigger Opened(x)} :: Opened(x) ==> EndsFacts(t.fds, t.ends) }

  ghost predicate EndsFacts(fds: seq<Fd>, ends: seq<Ends>) {
    && |fds| == FD_MAX && |ends| == PIPE_MAX
    && (forall p {:trigger ends[p]} :: 0 <= p < PIPE_MAX ==>
       (ends[p].read <==> Held(fds, ReadEnd(p))) && (ends[p].write <==> Held(fds, WriteEnd(p))))
    && (forall i {:trigger fds[i]} :: 0 <= i < FD_MAX && IsEnd(fds[i]) ==> fds[i].pipe < PIPE_MAX)
    && (forall i, j {:trigger Pair(i, j)} :: 0 <= i < j < FD_MAX && Pair(i, j) && IsEnd(fds[i]) ==> fds[i] != fds[j])
  }

  lemma PipeInTable(t: Table, i: nat)
    requires EndsOk(t) && i < |t.fds| && IsEnd(t.fds[i])
    ensures t.fds[i].pipe < PIPE_MAX
  {
    assert Opened(true);
  }

  function SlotOf(fd: nat): Option<nat> { if FIRST_FD <= fd < FIRST_FD + FD_MAX then Some(fd - FIRST_FD) else None }

  /** An open end of a pipe is held by one slot and no other; a closed one by none. */
  lemma OneHolder(t: Table, p: nat, fd: Fd)
    requires EndsOk(t) && p < PIPE_MAX && |t.fds| == FD_MAX && |t.ends| == PIPE_MAX &&
             (fd == ReadEnd(p) || fd == WriteEnd(p))
    ensures (if fd.ReadEnd? then t.ends[p].read else t.ends[p].write) <==> Held(t.fds, fd)
    ensures forall i, j :: 0 <= i < FD_MAX && 0 <= j < FD_MAX && t.fds[i] == fd && t.fds[j] == fd ==> i == j
  {
    assert Opened(true);
    forall i, j | 0 <= i < FD_MAX && 0 <= j < FD_MAX && t.fds[i] == fd && t.fds[j] == fd ensures i == j {
      assert Pair(i, j) && Pair(j, i);
    }
  }

  // ---- What the calls do to the table ----

  function Shut(ends: seq<Ends>, fd: Fd): seq<Ends> {
    match fd
    case ReadEnd(p) => if p < |ends| then ends[p := ends[p].(read := false)] else ends
    case WriteEnd(p) => if p < |ends| then ends[p := ends[p].(write := false)] else ends
    case _ => ends
  }

  function CloseSlot(t: Table, i: nat): Table
    requires i < |t.fds|
  {
    t.(fds := t.fds[i := Unused], ends := Shut(t.ends, t.fds[i]))
  }

  /** The first slot, from the i-th on, that is unused. */
  function FreeSlot(fds: seq<Fd>, i: nat): (r: nat)
    requires i <= |fds|
    ensures i <= r <= |fds| && (r < |fds| ==> fds[r] == Unused) && forall j :: i <= j < r ==> fds[j] != Unused
    decreases |fds| - i
  {
    if i == |fds| || fds[i] == Unused then i else FreeSlot(fds, i + 1)
  }

  /** The first pipe, from the p-th on, neither end of which is open. */
  function FreePipe(ends: seq<Ends>, p: nat): (r: nat)
    requires p <= |ends|
    ensures p <= r <= |ends| && (r < |ends| ==> ends[r] == Ends(false, false)) && forall j :: p <= j < r ==>
            ends[j] != Ends(false, false)
    decreases |ends| - p
  {
    if p == |ends| || ends[p] == Ends(false, false) then p else FreePipe(ends, p + 1)
  }

  function MakePipe(t: Table, p: nat, r: nat, w: nat): Table
    requires p < |t.ends| && p < |t.queues| && r < |t.fds| && w < |t.fds|
  {
    Table(t.fds[r := ReadEnd(p)][w := WriteEnd(p)], t.ends[p := Ends(true, true)], t.queues[p := PipeView([], [], [])])
  }

  /** All slots below n closed. */
  function CloseBelow(t: Table, n: nat): (r: Table)
    requires n <= |t.fds|
    ensures |r.fds| == |t.fds| && |r.ends| == |t.ends| && r.queues == t.queues
    ensures forall i :: 0 <= i < |t.fds| ==> r.fds[i] == if i < n then Unused else t.fds[i]
  {
    if n == 0 then t else CloseSlot(CloseBelow(t, n - 1), n - 1)
  }

  // ---- Each keeps ends and slots together ----

  /** Held by a slot other than the i-th. */
  ghost predicate HeldElsewhere(fds: seq<Fd>, i: nat, fd: Fd) { exists j :: 0 <= j < |fds| && j != i && fds[j] == fd }

  /** What is held before and after a slot has been given something else. */
  lemma HeldAfter(fds: seq<Fd>, i: nat, now: Fd, fd: Fd)
    requires i < |fds|
    ensures Held(fds[i := now], fd) <==> fd == now || HeldElsewhere(fds, i, fd)
    ensures Held(fds, fd) <==> fd == fds[i] || HeldElsewhere(fds, i, fd)
  {
    var r := fds[i := now];
    assert r[i] == now;
    if HeldElsewhere(fds, i, fd) {
      var j :| 0 <= j < |fds| && j != i && fds[j] == fd;
      assert r[j] == fd;
    }
    if Held(r, fd) {
      var j :| 0 <= j < |r| && r[j] == fd;
      assert j == i || fds[j] == fd;
    }
  }

  lemma OnlyOne(t: Table, i: nat)
    requires EndsOk(t) && i < FD_MAX == |t.fds| && IsEnd(t.fds[i])
    ensures !HeldElsewhere(t.fds, i, t.fds[i])
  {
    assert Opened(true);
    if j :| 0 <= j < FD_MAX && j != i && t.fds[j] == t.fds[i] {
      assert Pair(if i < j then i else j, if i < j then j else i);
    }
  }

  /** With nothing open, all is well. */
  lemma StartsOk(fds: seq<Fd>, ends: seq<Ends>, queues: seq<PipeView>)
    requires |fds| == FD_MAX && |ends| == PIPE_MAX && forall i {:trigger fds[i]} :: 0 <= i < FD_MAX ==> fds[i] == Unused
    requires forall p {:trigger ends[p]} :: 0 <= p < PIPE_MAX ==> ends[p] == Ends(false, false)
    ensures EndsOk(Table(fds, ends, queues))
  {
    forall p | 0 <= p < PIPE_MAX ensures !Held(fds, ReadEnd(p)) && !Held(fds, WriteEnd(p)) &&
      ends[p] == Ends(false, false) {}
  }

  /** Closing a descriptor. */
  lemma ClosedKeeps(t: Table, i: nat)
    requires EndsOk(t) && i < FD_MAX == |t.fds|
    ensures EndsOk(CloseSlot(t, i))
  {
    assert Opened(true);
    var r, fd := CloseSlot(t, i), t.fds[i];
    forall e: Fd | IsEnd(e) ensures Held(r.fds, e) <==> Held(t.fds, e) && e != fd {
      HeldAfter(t.fds, i, Unused, e);
      if e == fd { OnlyOne(t, i); }
    }
    forall p | 0 <= p < PIPE_MAX
      ensures (r.ends[p].read <==> Held(r.fds, ReadEnd(p))) && (r.ends[p].write <==> Held(r.fds, WriteEnd(p)))
    {
      assert t.ends[p].read <==> Held(t.fds, ReadEnd(p));
    }
    forall j, k {:trigger Pair(j, k)} | 0 <= j < k < FD_MAX && IsEnd(r.fds[j]) ensures r.fds[j] != r.fds[k] {
      assert Pair(j, k);
    }
  }

  /** Closing all of them: every pipe is free again. */
  lemma {:induction false} CloseBelowKeeps(t: Table, n: nat)
    requires EndsOk(t) && n <= FD_MAX == |t.fds| && |t.ends| == PIPE_MAX
    ensures EndsOk(CloseBelow(t, n))
    ensures n == FD_MAX ==> forall p {:trigger CloseBelow(t, n).ends[p]} :: 0 <= p < PIPE_MAX ==>
            CloseBelow(t, n).ends[p] == Ends(false, false)
  {
    assert Opened(true);
    if n > 0 {
      CloseBelowKeeps(t, n - 1);
      ClosedKeeps(CloseBelow(t, n - 1), n - 1);
    }
    var r := CloseBelow(t, n);
    if n == FD_MAX {
      forall p | 0 <= p < PIPE_MAX ensures r.ends[p] == Ends(false, false) {
        assert !Held(r.fds, ReadEnd(p)) && !Held(r.fds, WriteEnd(p));
      }
    }
  }

  /** Giving a slot that is unused to a file. */
  lemma OpenedKeeps(t: Table, i: nat, path: string)
    requires EndsOk(t) && i < FD_MAX == |t.fds| && !IsEnd(t.fds[i])
    ensures forall pos: nat :: EndsOk(t.(fds := t.fds[i := File(path, pos)]))
  {
    assert Opened(true);
    forall pos: nat ensures EndsOk(t.(fds := t.fds[i := File(path, pos)])) {
      var r := t.(fds := t.fds[i := File(path, pos)]);
      forall e: Fd | IsEnd(e) ensures Held(r.fds, e) <==> Held(t.fds, e) { HeldAfter(t.fds, i, File(path, pos), e); }
      forall p | 0 <= p < PIPE_MAX
        ensures (r.ends[p].read <==> Held(r.fds, ReadEnd(p))) && (r.ends[p].write <==> Held(r.fds, WriteEnd(p)))
      {
        assert t.ends[p].read <==> Held(t.fds, ReadEnd(p));
      }
      forall j, k {:trigger Pair(j, k)} | 0 <= j < k < FD_MAX && IsEnd(r.fds[j]) ensures r.fds[j] != r.fds[k] {
        assert Pair(j, k);
      }
    }
  }

  /** Making a pipe from a free one and two unused slots. */
  lemma MadeKeeps(t: Table, p: nat, r: nat, w: nat)
    requires EndsOk(t) && p < PIPE_MAX == |t.ends| && FD_MAX == |t.fds| && p < |t.queues| && r < FD_MAX &&
             w < FD_MAX && r != w
    requires t.ends[p] == Ends(false, false) && t.fds[r] == Unused && t.fds[w] == Unused
    ensures EndsOk(MakePipe(t, p, r, w))
  {
    assert Opened(true);
    var m, mid := MakePipe(t, p, r, w), t.fds[r := ReadEnd(p)];
    forall e: Fd | IsEnd(e) ensures Held(m.fds, e) <==> Held(t.fds, e) || e == ReadEnd(p) || e == WriteEnd(p) {
      HeldAfter(t.fds, r, ReadEnd(p), e);
      HeldAfter(mid, w, WriteEnd(p), e);
    }
    forall q | 0 <= q < PIPE_MAX
      ensures (m.ends[q].read <==> Held(m.fds, ReadEnd(q))) && (m.ends[q].write <==> Held(m.fds, WriteEnd(q)))
    {
      assert t.ends[q].read <==> Held(t.fds, ReadEnd(q));
    }
    assert !t.ends[p].read && !t.ends[p].write;
    forall j, k {:trigger Pair(j, k)} | 0 <= j < k < FD_MAX && IsEnd(m.fds[j]) ensures m.fds[j] != m.fds[k] {
      assert Pair(j, k);
      assert t.fds[j] != ReadEnd(p) && t.fds[j] != WriteEnd(p) && t.fds[k] != ReadEnd(p) && t.fds[k] != WriteEnd(p);
    }
  }

  // ---- The table itself ----

  class FdTable {
    const fds: array<Fd>
    const pipes: seq<Pipe>
    var user: Memory          // the user memory that is mapped

    constructor (pipes: seq<Pipe>, user: Memory)
      requires |pipes| == PIPE_MAX &&
               (forall p {:trigger pipes[p]} :: 0 <= p < |pipes| ==>
                 pipes[p].Valid() && !pipes[p].readOpen && !pipes[p].writeOpen)
      requires forall i, j {:trigger pipes[i], pipes[j]} :: 0 <= i < j < |pipes| ==>
               pipes[i] != pipes[j] && pipes[i].data != pipes[j].data
      ensures Valid() && this.pipes == pipes && this.user == user && fresh(fds)
    {
      fds := new Fd[FD_MAX](_ => Unused);
      this.pipes, this.user := pipes, user;
      new;
      StartsOk(fds[..], EndsOf(pipes), QueuesOf(pipes));
    }

    ghost predicate Shaped()
      reads this, fds, pipes, set p | p in pipes :: p.data
    {
      && fds.Length == FD_MAX && |pipes| == PIPE_MAX &&
         (forall p {:trigger pipes[p]} :: 0 <= p < |pipes| ==> pipes[p].Valid())
      && forall i, j {:trigger pipes[i], pipes[j]} :: 0 <= i < j < |pipes| ==>
         pipes[i] != pipes[j] && pipes[i].data != pipes[j].data
    }

    ghost function EndsOf(ps: seq<Pipe>): (r: seq<Ends>)
      reads ps
      ensures |r| == |ps| && forall p {:trigger r[p]} :: 0 <= p < |ps| ==> r[p] == Ends(ps[p].readOpen, ps[p].writeOpen)
    {
      if |ps| == 0 then [] else EndsOf(ps[..|ps| - 1]) + [Ends(ps[|ps| - 1].readOpen, ps[|ps| - 1].writeOpen)]
    }

    ghost function QueuesOf(ps: seq<Pipe>): (r: seq<PipeView>)
      reads ps
      ensures |r| == |ps| && forall p {:trigger r[p]} :: 0 <= p < |ps| ==> r[p] == ps[p].view
    {
      if |ps| == 0 then [] else QueuesOf(ps[..|ps| - 1]) + [ps[|ps| - 1].view]
    }

    ghost function View(): (t: Table)
      requires fds.Length == FD_MAX && |pipes| == PIPE_MAX
      reads this, fds, pipes
      ensures |t.fds| == FD_MAX && |t.ends| == PIPE_MAX && |t.queues| == PIPE_MAX
    {
      Table(fds[..], EndsOf(pipes), QueuesOf(pipes))
    }

    ghost predicate Valid()
      reads this, fds, pipes, set p | p in pipes :: p.data
    {
      Shaped() && EndsOk(View())
    }

    /** Every pipe of the table is a bounded queue. */
    lemma QueuesBounded()
      requires Valid()
      ensures forall p {:trigger View().queues[p]} :: 0 <= p < PIPE_MAX ==> Fifo(View().queues[p])
    {
      forall p {:trigger View().queues[p]} | 0 <= p < PIPE_MAX ensures Fifo(View().queues[p]) { pipes[p].IsFifo(); }
    }

    // ---- Closing ----

    method CloseEnd(i: nat)
      requires Valid() && i < FD_MAX
      modifies fds, pipes
      ensures Valid() && View() == CloseSlot(old(View()), i)
    {
      ClosedKeeps(View(), i);
      var fd := fds[i];
      if IsEnd(fd) && fd.pipe < PIPE_MAX {
        if fd.ReadEnd? { pipes[fd.pipe].readOpen := false; } else { pipes[fd.pipe].writeOpen := false; }
      }
      fds[i] := Unused;
      assert EndsOf(pipes) == CloseSlot(old(View()), i).ends;
    }

    method CloseFd(fd: nat) returns (rc: int)
      requires Valid()
      modifies fds, pipes
      ensures Valid()
      ensures var i := SlotOf(fd);
              if i.None? || old(fds[..])[i.value] == Unused then rc == -1 && View() == old(View())
              else rc == 0 && View() == CloseSlot(old(View()), i.value)
    {
      var i := SlotOf(fd);
      if i.None? || fds[i.value] == Unused { return -1; }
      CloseEnd(i.value);
      rc := 0;
    }

    /** Closes every descriptor: afterwards no slot is in use and every pipe is free. */
    method CleanUp()
      requires Valid()
      modifies fds, pipes
      ensures Valid()
      ensures (forall i :: 0 <= i < FD_MAX ==> fds[i] == Unused) && forall p :: p in pipes ==>
                !p.readOpen && !p.writeOpen
    {
      ghost var t := View();
      for i := 0 to FD_MAX
        invariant Valid() && View() == CloseBelow(t, i)
      {
        if fds[i] == Unused {
          assert CloseSlot(View(), i) == View();
          continue;
        }
        CloseEnd(i);
      }
      CloseBelowKeeps(t, FD_MAX);
      forall p | p in pipes ensures !p.readOpen && !p.writeOpen {
        var k :| 0 <= k < |pipes| && pipes[k] == p;
        assert View().ends[k] == Ends(false, false);
      }
    }

    // ---- Opening files ----

    /** Gives a free slot to a file, when there is one; `found` tells whether the path names a file. */
    method OpenFile(path: string, found: bool) returns (rc: int)
      requires Valid() && |path| <= PATH_MAX
      modifies fds
      ensures Valid()
      ensures var i := FreeSlot(old(fds[..]), 0);
              if path == "" || !found || i == FD_MAX then rc == -1 && View() == old(View())
              else rc == FIRST_FD + i && View() == old(View()).(fds := old(fds[..])[i := File(path, 0)])
    {
      if path == "" || !found { return -1; }
      for i := 0 to FD_MAX
        invariant fds[..] == old(fds[..]) && FreeSlot(fds[..], 0) == FreeSlot(fds[..], i)
      {
        if fds[i] == Unused {
          OpenedKeeps(View(), i, path);
          fds[i] := File(path, 0);
          return FIRST_FD + i;
        }
      }
      rc := -1;
    }

    // ---- Reading and writing ----

    /** Copies bytes out to user memory, up to the first address that is not mapped. */
    method CopyOut(at: nat, bytes: seq<byte>) returns (ok: bool)
      modifies this`user
      ensures ok <==> Reaches(old(user), at, |bytes|)
      ensures ok ==> user == Stored(old(user), at, bytes, |bytes|)
      ensures user.Keys == old(user).Keys
    {
      for i := 0 to |bytes|
        invariant user.Keys == old(user).Keys && user == Stored(old(user), at, bytes, i) && Reaches(old(user), at, i)
      {
        if Addr(at, i) !in user { return false; }
        user := user[Addr(at, i) := bytes[i]];
      }
      ok := true;
    }

    /** Reads from pipe p: the bytes come off the front of the queue, or the queue stays as it was. */
    method ReadPipe(p: nat, at: nat, n: nat) returns (rc: int)
      requires Valid() && p < PIPE_MAX
      modifies this`user, pipes
      ensures Valid() && user.Keys == old(user).Keys
      ensures PipeReadDone(old(View()), View(), old(user), user, p, at, n, rc)
    {
      if n == 0 {
        assert TakeOff(View().queues[p], 0) == View().queues[p];
        return 0;
      }
      var now;
      rc, now := pipes[p].Read(user, at, n);
      user := now;
      assert EndsOf(pipes) == old(View()).ends;
      assert QueuesOf(pipes) == old(View()).queues[p := pipes[p].view];
    }

    /** Reads from the file of slot i: `content` is what the file system reads at its path. */
    method ReadFile(i: nat, at: nat, n: nat, content: Option<seq<byte>>) returns (rc: int)
      requires Valid() && i < FD_MAX && fds[i].File?
      modifies this`user, fds
      ensures Valid() && user.Keys == old(user).Keys
      ensures FileReadDone(old(View()), View(), old(user), user, i, at, n, content, rc)
    {
      if n == 0 { return 0; }
      if content.None? { return -1; }
      var pos := fds[i].pos;
      if pos >= |content.value| { return 0; }
      var take := if n < |content.value| - pos then n else |content.value| - pos;
      var ok := CopyOut(at, content.value[pos..pos + take]);
      if !ok { return -1; }
      OpenedKeeps(View(), i, fds[i].path);
      fds[i] := File(fds[i].path, pos + take);
      rc := take;
    }

    /** Reads from a pipe or a file. */
    method ReadFd(fd: nat, at: nat, count: nat, content: Option<seq<byte>>) returns (rc: int)
      requires Valid() && fd != 0
      modifies this`user, fds, pipes
      ensures Valid() && user.Keys == old(user).Keys
      ensures var t, i, n := old(View()), SlotOf(fd), Least(count, MAX_BYTES);
              if i.None? || t.fds[i.value].Unused? || (t.fds[i.value].WriteEnd? && n > 0)
              then rc == -1 && View() == t && user == old(user)
              else match t.fds[i.value]
                case ReadEnd(p) => p < PIPE_MAX && PipeReadDone(t, View(), old(user), user, p, at, n, rc)
                case File(_, _) => FileReadDone(t, View(), old(user), user, i.value, at, n, content, rc)
                case _ => rc == 0 && View() == t && user == old(user)
    {
      var i := SlotOf(fd);
      if i.None? || fds[i.value] == Unused { return -1; }
      var n := if count > MAX_BYTES then MAX_BYTES else count;
      if fds[i.value].ReadEnd? {
        PipeInTable(View(), i.value);
        rc := ReadPipe(fds[i.value].pipe, at, n);
      } else if fds[i.value].File? {
        rc := ReadFile(i.value, at, n, content);
      } else {
        rc := if n == 0 then 0 else -1;
      }
    }

    /** Writes to pipe p: the bytes join the back of the queue, or the queue stays as it was. Nobody can write once the
        reading end is closed. */
    method WritePipe(p: nat, at: nat, n: nat) returns (rc: int)
      requires Valid() && p < PIPE_MAX
      modifies pipes, set p | p in pipes :: p.data
      ensures Valid()
      ensures PipeWriteDone(old(View()), View(), user, p, at, Least(n, MAX_BYTES), rc)
    {
      assert View().ends[p] == Ends(pipes[p].readOpen, pipes[p].writeOpen);
      if !pipes[p].readOpen { return -1; }
      if n == 0 {
        assert Put(View().queues[p], Loaded(user, at, 0)) == View().queues[p];
        return 0;
      }
      rc := pipes[p].Write(user, at, if n > MAX_BYTES then MAX_BYTES else n);
      assert EndsOf(pipes) == old(View()).ends;
      assert QueuesOf(pipes) == old(View()).queues[p := pipes[p].view];
    }

    /** Writes to a pipe through its writing end. */
    method WriteFd(fd: nat, at: nat, n: nat) returns (rc: int)
      requires Valid() && fd != 1 && fd != 2
      modifies pipes, set p | p in pipes :: p.data
      ensures Valid()
      ensures var t, i := old(View()), SlotOf(fd);
              if i.Some? && t.fds[i.value].WriteEnd?
              then t.fds[i.value].pipe < PIPE_MAX &&
                PipeWriteDone(t, View(), user, t.fds[i.value].pipe, at, Least(n, MAX_BYTES), rc)
              else rc == -1 && View() == t
    {
      var i := SlotOf(fd);
      if i.None? || !fds[i.value].WriteEnd? { return -1; }
      PipeInTable(View(), i.value);
      rc := WritePipe(fds[i.value].pipe, at, n);
    }

    // ---- Making a pipe ----

    /** The first pipe that is free, and the first two slots. */
    method FindPipe() returns (p: nat)
      requires Shaped()
      ensures p == FreePipe(View().ends, 0)
    {
      p := 0;
      while p < PIPE_MAX
        invariant p <= PIPE_MAX && FreePipe(View().ends, 0) == FreePipe(View().ends, p)
      {
        assert View().ends[p] == Ends(pipes[p].readOpen, pipes[p].writeOpen);
        if !pipes[p].readOpen && !pipes[p].writeOpen { return; }
        p := p + 1;
      }
    }

    /** The first two slots that are free. */
    method FindSlots() returns (r: nat, w: nat)
      requires Shaped()
      ensures r == FreeSlot(fds[..], 0) && w == if r < FD_MAX then FreeSlot(fds[..], r + 1) else FD_MAX
    {
      r, w := FD_MAX, FD_MAX;
      for i := 0 to FD_MAX
        invariant r == FD_MAX ==> FreeSlot(fds[..], 0) == FreeSlot(fds[..], i)
        invariant w == FD_MAX && r <= FD_MAX
        invariant r < FD_MAX ==> r < i && r == FreeSlot(fds[..], 0) && FreeSlot(fds[..], r + 1) == FreeSlot(fds[..], i)
      {
        if fds[i] == Unused {
          if r == FD_MAX {
            r := i;
          } else {
            assert FreeSlot(fds[..], i) == i;
            w := i;
            return;
          }
        }
      }
    }

    /** Opens pipe p and gives its ends to two slots. */
    method OpenEnds(p: nat, r: nat, w: nat)
      requires Valid() && p < PIPE_MAX && r < FD_MAX && w < FD_MAX && r != w
      requires View().ends[p] == Ends(false, false) && fds[r] == Unused && fds[w] == Unused
      modifies fds, pipes
      ensures Valid() && View() == MakePipe(old(View()), p, r, w)
    {
      MadeKeeps(View(), p, r, w);
      pipes[p].Open();
      fds[r] := ReadEnd(p);
      fds[w] := WriteEnd(p);
      assert EndsOf(pipes) == MakePipe(old(View()), p, r, w).ends;
      assert QueuesOf(pipes) == MakePipe(old(View()), p, r, w).queues;
    }

    /** Closes both ends again. */
    method DropEnds(r: nat, w: nat)
      requires Valid() && r < FD_MAX && w < FD_MAX
      modifies fds, pipes
      ensures Valid() && View() == CloseSlot(CloseSlot(old(View()), r), w)
    {
      CloseEnd(r);
      CloseEnd(w);
    }

    /** Stores two descriptors at a user address. */
    method TellEnds(at: nat, r: nat, w: nat) returns (ok: bool)
      modifies this`user
      ensures user.Keys == old(user).Keys && (ok <==> Reaches(old(user), at, 8) && Reaches(old(user), at + 8, 8))
      ensures ok ==> user == Told(old(user), at, r, w)
    {
      ok := CopyOut(at, LeBytes(FIRST_FD + r, 8));
      if !ok { return; }
      ghost var mid := user;
      ok := CopyOut(at + 8, LeBytes(FIRST_FD + w, 8));
      assert Reaches(mid, at + 8, 8) <==> Reaches(old(user), at + 8, 8) by {
        assert forall i {:trigger Addr(at + 8, i)} ::
                 Addr(at + 8, i) in mid.Keys <==> Addr(at + 8, i) in old(user).Keys;
      }
    }

    /** Opens a pipe and stores its descriptors, or closes it again. */
    method OpenAndTell(at: nat, p: nat, r: nat, w: nat) returns (rc: int)
      requires Valid() && p < PIPE_MAX && r < w < FD_MAX
      requires View().ends[p] == Ends(false, false) && fds[r] == Unused && fds[w] == Unused
      modifies this`user, fds, pipes
      ensures Valid() && user.Keys == old(user).Keys
      ensures if Reaches(old(user), at, 8) && Reaches(old(user), at + 8, 8)
              then rc == 0 && View() == MakePipe(old(View()), p, r, w) &&
                   user == Told(old(user), at, r, w)
              else rc == -1 && View() == old(View()).(queues := old(View()).queues[p := PipeView([], [], [])])
    {
      DropMade(View(), p, r, w);
      OpenEnds(p, r, w);
      var ok := TellEnds(at, r, w);
      if ok { return 0; }
      DropEnds(r, w);
      rc := -1;
    }

    /** Makes a pipe and stores its two descriptors at a user address. It fails for want of a pipe, of two slots, or of
        memory to store them in; then no descriptor or end has changed. */
    method MakePipeFor(at: nat) returns (rc: int)
      requires Valid()
      modifies this`user, fds, pipes
      ensures Valid() && user.Keys == old(user).Keys
      ensures var t := old(View()); var p, r := FreePipe(t.ends, 0), FreeSlot(t.fds, 0);
              var w := if r < FD_MAX then FreeSlot(t.fds, r + 1) else FD_MAX;
              if at == 0 || p == PIPE_MAX || w == FD_MAX then rc == -1 && View() == t && user == old(user)
              else if Reaches(old(user), at, 8) && Reaches(old(user), at + 8, 8)
              then rc == 0 && View() == MakePipe(t, p, r, w) &&
                   user == Told(old(user), at, r, w)
              else rc == -1 && View() == t.(queues := t.queues[p := PipeView([], [], [])])
    {
      if at == 0 { return -1; }
      var p := FindPipe();
      if p == PIPE_MAX { return -1; }
      var r, w := FindSlots();
      if w == FD_MAX { return -1; }
      rc := OpenAndTell(at, p, r, w);
    }
  }

  /** A write of n bytes to pipe p has joined the queue, as much of it as there was room for, or has failed and left
      it. */
  ghost predicate PipeWriteDone(t: Table, t': Table, user: Memory, p: nat, at: nat, n: nat, rc: int)
    requires p < |t.queues| && p < |t.ends|
  {
    var take := Least(n, Room(t.queues[p]));
    if t.ends[p].read && Reaches(user, at, take)
    then rc == take && t' == t.(queues := t.queues[p := Put(t.queues[p], Loaded(user, at, take))])
    else rc == -1 && t' == t
  }

  /** Closing both ends of a pipe that has just been made gives back the descriptors and ends as they were. */
  lemma DropMade(t: Table, p: nat, r: nat, w: nat)
    requires |t.fds| == FD_MAX && |t.ends| == PIPE_MAX == |t.queues| && p < PIPE_MAX && r < w < FD_MAX
    requires t.ends[p] == Ends(false, false) && t.fds[r] == Unused && t.fds[w] == Unused
    ensures CloseSlot(CloseSlot(MakePipe(t, p, r, w), r), w) == t.(queues := t.queues[p := PipeView([], [], [])])
  {
    var m := MakePipe(t, p, r, w);
    assert CloseSlot(m, r).ends == m.ends[p := Ends(false, true)];
    assert CloseSlot(CloseSlot(m, r), w).ends == t.ends && CloseSlot(CloseSlot(m, r), w).fds == t.fds;
  }

  /** User memory with two descriptors stored as eight-byte numbers. */
  ghost function Told(user: Memory, at: nat, r: nat, w: nat): Memory {
    Stored(Stored(user, at, LeBytes(FIRST_FD + r, 8), 8), at + 8, LeBytes(FIRST_FD + w, 8), 8)
  }

  /** The n lowest bytes of a number, lowest first. */
  function LeBytes(v: nat, n: nat): (r: seq<byte>)
    ensures |r| == n
    decreases n, v
  {
    if n == 0 then [] else [v % 256] + LeBytes(v / 256, n - 1)
  }

  /** A read of n bytes from pipe p has come off the queue, or has failed and left it. */
  ghost predicate PipeReadDone(t: Table, t': Table, user: Memory, user': Memory, p: nat, at: nat, n: nat, rc: int)
    requires p < |t.queues|
  {
    var take := Least(n, |t.queues[p].queue|);
    if Reaches(user, at, take)
    then rc == take && t' == t.(queues := t.queues[p := TakeOff(t.queues[p], take)]) &&
      user' == Stored(user, at, t.queues[p].queue, take)
    else rc == -1 && t' == t
  }

  /** A read of n bytes from the file of slot i has moved its position on, or has failed and left it. */
  ghost predicate FileReadDone(t: Table, t': Table, user: Memory, user': Memory, i: nat, at: nat, n: nat,
                               content: Option<seq<byte>>, rc: int)
    requires i < |t.fds| && t.fds[i].File?
  {
    var f := t.fds[i];
    if n == 0 || (content.Some? && f.pos >= |content.value|) then rc == 0 && t' == t && user' == user
    else if content.None? then rc == -1 && t' == t && user' == user
    else
      var take := Least(n, |content.value| - f.pos);
      if Reaches(user, at, take)
      then rc == take && t' == t.(fds := t.fds[i := File(f.path, f.pos + take)]) &&
        user' == Stored(user, at, content.value[f.pos..f.pos + take], take)
      else rc == -1 && t' == t
  }

}
