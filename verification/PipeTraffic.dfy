/** Whole runs of descriptor calls: what comes out of a pipe is what went in, in order, as user memory shows it. */
module PipeTraffic {
  import opened Options
  import opened MachineBytes
  import opened PipeRings
  import opened Descriptors

  datatype Call = DoRead(fd: nat, at: nat, count: nat, content: Option<seq<byte>>)
                | DoWrite(fd: nat, at: nat, count: nat) | DoClose(fd: nat) | DoPipe(at: nat)

  /** The calls that have nothing to do with the terminal. */
  predicate Callable(call: Call) {
    match call case DoRead(fd, _, _, _) => fd != 0 case DoWrite(fd, _, _) => fd != 1 && fd != 2 case _ => true
  }

  /** What a call did to a pipe: bytes went out or came in, or the pipe was taken for a new one. */
  datatype Event = Out(pipe: nat, bytes: seq<byte>) | In(pipe: nat, bytes: seq<byte>) | Anew(pipe: nat) | Nothing

  /** What a descriptor stands for. */
  function Stands(t: Table, fd: nat): Fd
    requires |t.fds| == FD_MAX
  {
    match SlotOf(fd) case None => Unused case Some(i) => t.fds[i]
  }

  /** The pipe that making one takes, if there is one and there are two slots for it. */
  function PipeFor(t: Table, at: nat): Option<nat>
    requires |t.fds| == FD_MAX && |t.ends| == PIPE_MAX
  {
    var r := FreeSlot(t.fds, 0);
    if at == 0 || FreePipe(t.ends, 0) == PIPE_MAX || r == FD_MAX || FreeSlot(t.fds, r + 1) == FD_MAX then None
    else Some(FreePipe(t.ends, 0))
  }

  /** What a call did, from the descriptors before it, its result, and the bytes that user memory holds after it where
      the call was told to put or to find them. */
  ghost function EventOf(t: Table, call: Call, rc: int, user: Memory): Event
    requires |t.fds| == FD_MAX && |t.ends| == PIPE_MAX
  {
    match call
    case DoRead(fd, at, _, _) =>
      if Stands(t, fd).ReadEnd? && rc >= 0 && Reaches(user, at, rc) then Out(Stands(t, fd).pipe, Loaded(user, at, rc))
      else Nothing
    case DoWrite(fd, at, _) =>
      if Stands(t, fd).WriteEnd? && rc >= 0 && Reaches(user, at, rc) then In(Stands(t, fd).pipe, Loaded(user, at, rc))
      else Nothing
    case DoClose(_) => Nothing
    case DoPipe(at) => match PipeFor(t, at) case None => Nothing case Some(p) => Anew(p)
  }

  /** The queue of a pipe after an event. */
  ghost predicate Moved(q: seq<byte>, q': seq<byte>, p: nat, e: Event) {
    match e
    case Out(p', bytes) => if p' == p then q == bytes + q' else q' == q
    case In(p', bytes) => q' == if p' == p then q + bytes else q
    case Anew(p') => q' == if p' == p then [] else q
    case Nothing => q' == q
  }

  /** Every queue has moved as the event says. */
  ghost predicate AllMoved(t: Table, t': Table, e: Event) {
    && |t.queues| == PIPE_MAX == |t'.queues|
    && forall p {:trigger t'.queues[p]} :: 0 <= p < PIPE_MAX ==> Moved(t.queues[p].queue, t'.queues[p].queue, p, e)
  }

  /** What a read has stored is what was at the front of the queue. */
  lemma ReadMoves(t: Table, t': Table, user: Memory, user': Memory, p: nat, at: nat, n: nat, rc: int)
    requires p < PIPE_MAX == |t.queues| && |t.queues[p].queue| <= PIPE_SIZE &&
             PipeReadDone(t, t', user, user', p, at, n, rc)
    ensures rc >= 0 ==> Reaches(user', at, rc) && AllMoved(t, t', Out(p, Loaded(user', at, rc)))
    ensures rc < 0 ==> AllMoved(t, t', Nothing)
  {
    var q := t.queues[p].queue;
    var take := Least(n, |q|);
    if Reaches(user, at, take) {
      StoredPart(user, at, q, take);
      assert Loaded(user', at, take) == q[..take] && q == q[..take] + q[take..];
    }
  }

  lemma WriteMoves(t: Table, t': Table, user: Memory, p: nat, at: nat, n: nat, rc: int)
    requires p < PIPE_MAX == |t.queues| == |t.ends| && PipeWriteDone(t, t', user, p, at, n, rc)
    ensures rc >= 0 ==> Reaches(user, at, rc) && AllMoved(t, t', In(p, Loaded(user, at, rc)))
    ensures rc < 0 ==> AllMoved(t, t', Nothing)
  {
  }

  /** Storing bytes makes them readable. */
  lemma StoredPart(user: Memory, at: nat, bytes: seq<byte>, k: nat)
    requires k <= |bytes| && k <= PIPE_SIZE
    ensures Reaches(Stored(user, at, bytes, k), at, k) && Loaded(Stored(user, at, bytes, k), at, k) == bytes[..k]
  {
    StoredReads(user, at, bytes, k);
  }

  // ---- Runs ----

  /** The bytes that have gone into pipe p since it was last taken for a new one. */
  function Sent(es: seq<Event>, p: nat): seq<byte> {
    if |es| == 0 then [] else
      var before, e := Sent(es[..|es| - 1], p), es[|es| - 1];
      if e.In? && e.pipe == p then before + e.bytes else if e == Anew(p) then [] else before
  }

  /** The bytes that have come out of it since. */
  function Received(es: seq<Event>, p: nat): seq<byte> {
    if |es| == 0 then [] else
      var before, e := Received(es[..|es| - 1], p), es[|es| - 1];
      if e.Out? && e.pipe == p then before + e.bytes else if e == Anew(p) then [] else before
  }

  /** What was in it then. */
  function Stock(es: seq<Event>, p: nat, q: seq<byte>): seq<byte> {
    if |es| == 0 then q else if es[|es| - 1] == Anew(p) then [] else Stock(es[..|es| - 1], p, q)
  }

  /** What was in the pipe and what went in is what came out and what is still there. */
  ghost predicate Balanced(es: seq<Event>, p: nat, q0: seq<byte>, q: seq<byte>) {
    Stock(es, p, q0) + Sent(es, p) == Received(es, p) + q
  }

  lemma StaysBalanced(es: seq<Event>, e: Event, p: nat, q0: seq<byte>, q: seq<byte>, q': seq<byte>)
    requires Balanced(es, p, q0, q) && Moved(q, q', p, e)
    ensures Balanced(es + [e], p, q0, q')
  {
    var all := es + [e];
    assert all[..|es|] == es && all[|es|] == e;
    if e.In? && e.pipe == p {
      assert Stock(es, p, q0) + (Sent(es, p) + e.bytes) == (Stock(es, p, q0) + Sent(es, p)) + e.bytes;
      assert (Received(es, p) + q) + e.bytes == Received(es, p) + (q + e.bytes);
    }
    if e.Out? && e.pipe == p {
      assert Received(es, p) + (e.bytes + q') == (Received(es, p) + e.bytes) + q';
    }
  }

  method MakeRead(t: FdTable, fd: nat, at: nat, count: nat, content: Option<seq<byte>>) returns (rc: int)
    requires t.Valid() && fd != 0
    modifies t`user, t.fds, t.pipes
    ensures t.Valid() && t.user.Keys == old(t.user).Keys
    ensures AllMoved(old(t.View()), t.View(), EventOf(old(t.View()), DoRead(fd, at, count, content), rc, t.user))
  {
    ghost var before, user := t.View(), t.user;
    t.QueuesBounded();
    rc := t.ReadFd(fd, at, count, content);
    if Stands(before, fd).ReadEnd? {
      ReadMoves(before, t.View(), user, t.user, Stands(before, fd).pipe, at, Least(count, MAX_BYTES), rc);
    }
  }

  method MakeWrite(t: FdTable, fd: nat, at: nat, count: nat) returns (rc: int)
    requires t.Valid() && fd != 1 && fd != 2
    modifies t.pipes, set p | p in t.pipes :: p.data
    ensures t.Valid() && t.user.Keys == old(t.user).Keys
    ensures AllMoved(old(t.View()), t.View(), EventOf(old(t.View()), DoWrite(fd, at, count), rc, t.user))
  {
    ghost var before := t.View();
    rc := t.WriteFd(fd, at, count);
    if Stands(before, fd).WriteEnd? {
      WriteMoves(before, t.View(), t.user, Stands(before, fd).pipe, at, Least(count, MAX_BYTES), rc);
    }
  }

  method NewPipe(t: FdTable, at: nat) returns (rc: int)
    requires t.Valid()
    modifies t`user, t.fds, t.pipes
    ensures t.Valid() && t.user.Keys == old(t.user).Keys
    ensures AllMoved(old(t.View()), t.View(), EventOf(old(t.View()), DoPipe(at), rc, t.user))
  {
    rc := t.MakePipeFor(at);
  }

  /** Makes one call. */
  method MakeCall(t: FdTable, call: Call) returns (rc: int)
    requires t.Valid() && Callable(call)
    modifies t`user, t.fds, t.pipes, set p | p in t.pipes :: p.data
    ensures t.Valid() && t.user.Keys == old(t.user).Keys
    ensures AllMoved(old(t.View()), t.View(), EventOf(old(t.View()), call, rc, t.user))
  {
    match call {
      case DoRead(fd, at, count, content) => rc := MakeRead(t, fd, at, count, content);
      case DoWrite(fd, at, count) => rc := MakeWrite(t, fd, at, count);
      case DoClose(fd) => rc := t.CloseFd(fd);
      case DoPipe(at) => rc := NewPipe(t, at);
    }
  }

  /** Event i is what call i did. */
  ghost predicate Recorded(tables: seq<Table>, users: seq<Memory>, calls: seq<Call>, rcs: seq<int>, es: seq<Event>,
                           i: nat) {
    && i < |calls| && i < |rcs| && i < |es| && i + 1 < |tables| && i + 1 < |users|
    && |tables[i].fds| == FD_MAX && |tables[i].ends| == PIPE_MAX &&
       es[i] == EventOf(tables[i], calls[i], rcs[i], users[i + 1])
  }

  /** Makes calls one after the other: reads, writes and closing through any descriptors, and new pipes. For every pipe,
      over its lifetime, what it held at first and all that writes put in is, in order, all that reads have left in user
      memory and what is still queued. */
  method MakeCalls(t: FdTable, calls: seq<Call>)
    returns (rcs: seq<int>, ghost tables: seq<Table>, ghost users: seq<Memory>, ghost es: seq<Event>)
    requires t.Valid() && forall i :: 0 <= i < |calls| ==> Callable(calls[i])
    modifies t`user, t.fds, t.pipes, set p | p in t.pipes :: p.data
    ensures t.Valid() && |rcs| == |es| == |calls| && |tables| == |users| == |calls| + 1
    ensures tables[0] == old(t.View()) && tables[|calls|] == t.View() && users[0] == old(t.user) &&
            users[|calls|] == t.user
    ensures forall i :: 0 <= i < |calls| ==> Recorded(tables, users, calls, rcs, es, i)
    ensures forall p {:trigger t.View().queues[p]} :: 0 <= p < PIPE_MAX ==>
              Balanced(es, p, old(t.View()).queues[p].queue, t.View().queues[p].queue)
  {
    rcs, es, tables, users := [], [], [t.View()], [t.user];
    for n := 0 to |calls|
      invariant t.Valid() && |rcs| == |es| == n && |tables| == |users| == n + 1
      invariant tables[0] == old(t.View()) && tables[n] == t.View() && users[0] == old(t.user) && users[n] == t.user
      invariant forall i :: 0 <= i < n ==> Recorded(tables, users, calls, rcs, es, i)
      invariant forall p {:trigger t.View().queues[p]} :: 0 <= p < PIPE_MAX ==>
                  Balanced(es, p, old(t.View()).queues[p].queue, t.View().queues[p].queue)
    {
      ghost var before := t.View();
      var rc := MakeCall(t, calls[n]);
      ghost var e := EventOf(before, calls[n], rc, t.user);
      forall p | 0 <= p < PIPE_MAX
        ensures Balanced(es + [e], p, old(t.View()).queues[p].queue, t.View().queues[p].queue)
      {
        StaysBalanced(es, e, p, old(t.View()).queues[p].queue, before.queues[p].queue, t.View().queues[p].queue);
      }
      forall i | 0 <= i < n + 1
        ensures Recorded(tables + [t.View()], users + [t.user], calls, rcs + [rc], es + [e], i)
      {
        assert i < n ==> Recorded(tables, users, calls, rcs, es, i);
      }
      rcs, es, tables, users := rcs + [rc], es + [e], tables + [t.View()], users + [t.user];
    }
  }
}
