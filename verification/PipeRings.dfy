/** Pipes: a ring buffer in an array is a bounded queue of bytes. */
module PipeRings {
  import opened MachineBytes

  const PIPE_SIZE: nat := 4096

  /** The bytes of a ring, oldest first. */
  function Ring(data: seq<byte>, head: nat, count: nat): (q: seq<byte>)
    requires |data| == PIPE_SIZE && count <= PIPE_SIZE
    ensures |q| == count
  {
    seq(count, i requires 0 <= i < count => data[(head + i) % PIPE_SIZE])
  }

  lemma RingSpots(head: nat, i: nat, j: nat)
    requires i < j < i + PIPE_SIZE
    ensures (head + i) % PIPE_SIZE != (head + j) % PIPE_SIZE
  {
  }

  /** A byte put behind the last one joins the queue. */
  lemma RingPut(data: seq<byte>, head: nat, count: nat, b: byte)
    requires |data| == PIPE_SIZE && count < PIPE_SIZE
    ensures Ring(data[(head + count) % PIPE_SIZE := b], head, count + 1) == Ring(data, head, count) + [b]
  {
    var q := Ring(data[(head + count) % PIPE_SIZE := b], head, count + 1);
    forall i | 0 <= i < count ensures q[i] == Ring(data, head, count)[i] { RingSpots(head, i, count); }
  }

  /** Moving the head on takes bytes off the front. */
  lemma RingDrop(data: seq<byte>, head: nat, count: nat, k: nat)
    requires |data| == PIPE_SIZE && k <= count <= PIPE_SIZE
    ensures Ring(data, (head + k) % PIPE_SIZE, count - k) == Ring(data, head, count)[k..]
  {
    var q := Ring(data, (head + k) % PIPE_SIZE, count - k);
    forall i | 0 <= i < count - k ensures q[i] == Ring(data, head, count)[k..][i] { ModTwice(head + k, i); }
  }

  lemma ModTwice(a: nat, b: nat)
    ensures (a % PIPE_SIZE + b) % PIPE_SIZE == (a + b) % PIPE_SIZE
  {
    assert a == a / PIPE_SIZE * PIPE_SIZE + a % PIPE_SIZE;
    ModShift(a % PIPE_SIZE + b, a / PIPE_SIZE);
  }

  lemma ModShift(a: nat, q: nat)
    ensures (a + q * PIPE_SIZE) % PIPE_SIZE == a % PIPE_SIZE
  {
  }

  lemma RingShorter(data: seq<byte>, head: nat, count: nat, more: nat)
    requires |data| == PIPE_SIZE && count + more <= PIPE_SIZE
    ensures Ring(data, head, count + more)[..count] == Ring(data, head, count)
  {
  }

  // ---- User memory ----

  type Memory = map<nat, byte>      // the addresses that are mapped, and their bytes

  /** The i-th address from an address on. */
  function Addr(at: nat, i: nat): nat { W64(at + i) }

  /** Every one of n addresses from an address on is mapped. */
  ghost predicate Reaches(user: Memory, at: nat, n: nat) {
    forall i {:trigger Addr(at, i)} :: 0 <= i < n ==> Addr(at, i) in user
  }

  /** The first k of some bytes stored at an address. */
  ghost function Stored(user: Memory, at: nat, bytes: seq<byte>, k: nat): Memory
    requires k <= |bytes|
    decreases k, at
  {
    if k == 0 then user else Stored(user, at, bytes, k - 1)[Addr(at, k - 1) := bytes[k - 1]]
  }

  lemma {:induction false} StoredReads(user: Memory, at: nat, bytes: seq<byte>, k: nat)
    requires k <= |bytes| && k <= PIPE_SIZE
    ensures forall i {:trigger Addr(at, i)} :: 0 <= i < k ==>
            Addr(at, i) in Stored(user, at, bytes, k) && Stored(user, at, bytes, k)[Addr(at, i)] == bytes[i]
    ensures forall a {:trigger a in Stored(user, at, bytes, k)} :: Elsewhere(a, at, k) ==>
              (a in user <==> a in Stored(user, at, bytes, k)) &&
                (a in user ==> Stored(user, at, bytes, k)[a] == user[a])
  {
    if k > 0 {
      StoredReads(user, at, bytes, k - 1);
      forall i {:trigger Addr(at, i)} | 0 <= i < k - 1 ensures Addr(at, i) != Addr(at, k - 1) {
        WordSpots(at, i, k - 1);
      }
      forall a | Elsewhere(a, at, k) ensures Elsewhere(a, at, k - 1) && a != Addr(at, k - 1) {}
    }
  }

  /** An address that is none of n addresses from an address on. */
  ghost predicate Elsewhere(a: nat, at: nat, n: nat) {
    forall i {:trigger Addr(at, i)} :: 0 <= i < n ==> a != Addr(at, i)
  }

  lemma WordSpots(at: nat, i: nat, j: nat)
    requires i < j < i + WORD
    ensures Addr(at, i) != Addr(at, j)
  {
  }

  /** The bytes at n addresses. */
  ghost function Loaded(user: Memory, at: nat, n: nat): (r: seq<byte>)
    requires Reaches(user, at, n)
    ensures |r| == n
  {
    seq(n, i requires 0 <= i < n => user[Addr(at, i)])
  }

  // ---- The queue over its lifetime ----

  datatype PipeEvent = Wrote(bytes: seq<byte>) | Took(n: nat)

  /** A pipe's queue, and all that has been written to it and taken from it. */
  datatype PipeView = PipeView(queue: seq<byte>, written: seq<byte>, taken: seq<byte>)

  /** How many more bytes the queue can take. */
  function Room(p: PipeView): nat { if |p.queue| < PIPE_SIZE then PIPE_SIZE - |p.queue| else 0 }

  function Put(p: PipeView, bytes: seq<byte>): PipeView { p.(queue := p.queue + bytes, written := p.written + bytes) }

  function TakeOff(p: PipeView, n: nat): PipeView
    requires n <= |p.queue|
  {
    p.(queue := p.queue[n..], taken := p.taken + p.queue[..n])
  }

  function Then(p: PipeView, e: PipeEvent): PipeView {
    match e
    case Wrote(bytes) => if |p.queue| + |bytes| <= PIPE_SIZE then Put(p, bytes) else p
    case Took(n) => if n <= |p.queue| then TakeOff(p, n) else p
  }

  function RunPipe(p: PipeView, es: seq<PipeEvent>): PipeView {
    if |es| == 0 then p else Then(RunPipe(p, es[..|es| - 1]), es[|es| - 1])
  }

  ghost predicate Fifo(p: PipeView) { |p.queue| <= PIPE_SIZE && p.written == p.taken + p.queue }

  /** Over the whole life of a pipe what has been taken is a prefix of what has been written, and the rest is queued. */
  lemma {:induction false} FifoKept(p: PipeView, es: seq<PipeEvent>)
    requires Fifo(p)
    ensures Fifo(RunPipe(p, es)) && RunPipe(p, es).taken <= RunPipe(p, es).written
    decreases |es|
  {
    if |es| > 0 {
      FifoKept(p, es[..|es| - 1]);
      var q := RunPipe(p, es[..|es| - 1]);
      match es[|es| - 1]
      case Wrote(bytes) => assert q.taken + (q.queue + bytes) == (q.taken + q.queue) + bytes;
      case Took(n) => if n <= |q.queue| { assert (q.taken + q.queue[..n]) + q.queue[n..] == q.taken + q.queue; }
    }
  }

  ghost predicate Opened(x: bool) { true }

  /** The buffer of a pipe. */
  class Pipe {
    const data: array<byte>
    var head: nat
    var count: nat
    var readOpen: bool
    var writeOpen: bool
    ghost var view: PipeView     // the queue that the buffer holds, and its history

    constructor ()
      ensures Valid() && view == PipeView([], [], []) && !readOpen && !writeOpen && fresh(data)
    {
      data := new byte[PIPE_SIZE](_ => 0);
      head, count, readOpen, writeOpen := 0, 0, false, false;
      view := PipeView([], [], []);
    }

    /** Stated behind a quantifier so that only the methods of this class see through it. */
    ghost predicate Valid()
      reads this, data
    {
      forall x {:trigger Opened(x)} :: Opened(x) ==> Facts()
    }

    ghost predicate Facts()
      reads this, data
    {
      data.Length == PIPE_SIZE && head < PIPE_SIZE && count <= PIPE_SIZE &&
        view.queue == Ring(data[..], head, count) && Fifo(view)
    }

    /** A pipe made ready for use. */
    method Open()
      requires Valid()
      modifies this`head, this`count, this`readOpen, this`writeOpen, this`view
      ensures Valid() && view == PipeView([], [], []) && readOpen && writeOpen
    {
      assert Opened(true);
      head, count, readOpen, writeOpen := 0, 0, true, true;
      view := PipeView([], [], []);
    }

    /** What every pipe is like: a queue of at most 4096 bytes, which are those written and not taken yet, in order. */
    lemma IsFifo()
      requires Valid()
      ensures Fifo(view) && view.taken <= view.written
    {
      assert Opened(true);
    }

    /** Appends as many of n bytes at a user address as there is room for; a byte that cannot be read leaves the queue
        as it was. */
    method Write(user: Memory, at: nat, n: nat) returns (rc: int)
      requires Valid()
      modifies this`count, this`view, data
      ensures Valid()
      ensures var take := Least(n, Room(old(view)));
              if Reaches(user, at, take) then rc == take && view == Put(old(view), Loaded(user, at, take))
              else rc == -1 && view == old(view)
    {
      assert Opened(true);
      var take := if n < PIPE_SIZE - count then n else PIPE_SIZE - count;
      ghost var bytes := [];
      for i := 0 to take
        invariant Facts() && view == old(view) && count == old(count) && Reaches(user, at, i)
        invariant bytes == Loaded(user, at, i) && Ring(data[..], head, count + i) == view.queue + bytes
      {
        if Addr(at, i) !in user { return -1; }
        RingPut(data[..], head, count + i, user[Addr(at, i)]);
        data[(head + count + i) % PIPE_SIZE] := user[Addr(at, i)];
        bytes := bytes + [user[Addr(at, i)]];
        RingShorter(data[..], head, count, i + 1);
        assert view.queue + bytes == (view.queue + Loaded(user, at, i)) + [user[Addr(at, i)]];
      }
      assert view.taken + (view.queue + bytes) == (view.taken + view.queue) + bytes;
      count, view := count + take, Put(view, bytes);
      rc := take;
    }

    /** Takes as many of n bytes off the front as there are and stores them at a user address; a byte that cannot be
        stored leaves the queue as it was. */
    method Read(user: Memory, at: nat, n: nat) returns (rc: int, user': Memory)
      requires Valid()
      modifies this`head, this`count, this`view
      ensures Valid() && user'.Keys == user.Keys
      ensures var take := Least(n, |old(view).queue|);
              if Reaches(user, at, take)
              then rc == take && view == TakeOff(old(view), take) && user' == Stored(user, at, old(view).queue, take)
              else rc == -1 && view == old(view)
    {
      assert Opened(true);
      if count == 0 {
        assert TakeOff(view, 0) == view;
        return 0, user;
      }
      var take := if n < count then n else count;
      user' := user;
      for i := 0 to take
        invariant user'.Keys == user.Keys && user' == Stored(user, at, view.queue, i) && Reaches(user, at, i)
      {
        if Addr(at, i) !in user' { return -1, user'; }
        user' := user'[Addr(at, i) := data[(head + i) % PIPE_SIZE]];
      }
      RingDrop(data[..], head, count, take);
      assert view.taken + view.queue == (view.taken + view.queue[..take]) + view.queue[take..];
      head, count, view := (head + take) % PIPE_SIZE, count - take, TakeOff(view, take);
      rc := take;
    }
  }

  function Least(a: nat, b: nat): nat { if a < b then a else b }
}
