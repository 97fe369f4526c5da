/** What reading, writing and making pipes do, byte by byte. */
module PipeMeaning {
  import opened Options
  import opened MachineBytes
  import opened PipeRings
  import opened Descriptors

  /** Every address from one on, up to another, is mapped; addresses wrap at 64 bits. */
  ghost predicate Mapped(user: Memory, from: nat, end: nat) {
    forall j {:trigger W64(j)} :: from <= j < end ==> W64(j) in user
  }

  /** The addresses from one on, up to another, hold some bytes. */
  ghost predicate Holds(user: Memory, from: nat, end: nat, bytes: seq<byte>) {
    Mapped(user, from, end) && end - from == |bytes| &&
      forall j {:trigger W64(j)} :: from <= j < end ==> user[W64(j)] == bytes[j - from]
  }

  /** Nothing has changed but at these addresses. */
  ghost predicate KeptOutside(user: Memory, user': Memory, from: nat, end: nat) {
    forall a {:trigger a in user'} :: (forall j {:trigger W64(j)} :: from <= j < end ==> W64(j) != a) ==>
        (a in user' <==> a in user) && (a in user ==> user'[a] == user[a])
  }

  ghost predicate OtherQueues(t: Table, t': Table, p: nat) {
    && t'.fds == t.fds && t'.ends == t.ends && |t'.queues| == |t.queues|
    && forall p' {:trigger t'.queues[p']} :: 0 <= p' < |t.queues| && p' != p ==> t'.queues[p'] == t.queues[p']
  }

  lemma ReachesMapped(user: Memory, at: nat, n: nat)
    ensures Reaches(user, at, n) <==> Mapped(user, at, at + n)
  {
    if Mapped(user, at, at + n) {
      forall i {:trigger Addr(at, i)} | 0 <= i < n ensures Addr(at, i) in user { assert W64(at + i) in user; }
    }
    if Reaches(user, at, n) {
      forall j {:trigger W64(j)} | at <= j < at + n ensures W64(j) in user { assert Addr(at, j - at) in user; }
    }
  }

  lemma LoadedHolds(user: Memory, at: nat, n: nat)
    requires Reaches(user, at, n)
    ensures Holds(user, at, at + n, Loaded(user, at, n))
  {
    ReachesMapped(user, at, n);
    forall j {:trigger W64(j)} | at <= j < at + n ensures user[W64(j)] == Loaded(user, at, n)[j - at] {
      assert Addr(at, j - at) in user;
    }
  }

  lemma StoredHolds(user: Memory, at: nat, bytes: seq<byte>, k: nat)
    requires k <= |bytes| && k <= PIPE_SIZE
    ensures Holds(Stored(user, at, bytes, k), at, at + k, bytes[..k])
    ensures KeptOutside(user, Stored(user, at, bytes, k), at, at + k)
  {
    StoredReads(user, at, bytes, k);
    var user' := Stored(user, at, bytes, k);
    forall j {:trigger W64(j)} | at <= j < at + k ensures W64(j) in user' && user'[W64(j)] == bytes[j - at] {
      assert Addr(at, j - at) == W64(j);
    }
    forall a {:trigger a in user'} | (forall j {:trigger W64(j)} :: at <= j < at + k ==> W64(j) != a)
      ensures (a in user' <==> a in user) && (a in user ==> user'[a] == user[a])
    {
      forall i {:trigger Addr(at, i)} | 0 <= i < k ensures a != Addr(at, i) { assert W64(at + i) != a; }
      assert Elsewhere(a, at, k);
    }
  }

  /** A write of n bytes takes as many as the 4096 bytes of the pipe leave room for. If the reading end is open and user
      memory has them, they join the queue and the call gives their number; if not, it gives -1 and changes nothing. */
  lemma WriteMeans(t: Table, t': Table, user: Memory, p: nat, at: nat, n: nat, rc: int)
    requires p < |t.queues| && p < |t.ends| && |t.queues[p].queue| <= 4096
    requires PipeWriteDone(t, t', user, p, at, n, rc)
    ensures var q := t.queues[p].queue;
            var k := if |q| + n <= 4096 then n else 4096 - |q|;
            if t.ends[p].read && Mapped(user, at, at + k)
            then rc == k && OtherQueues(t, t', p) && q <= t'.queues[p].queue &&
              Holds(user, at, at + k, t'.queues[p].queue[|q|..])
            else rc == -1 && t' == t
  {
    var q := t.queues[p].queue;
    var k := Least(n, Room(t.queues[p]));
    ReachesMapped(user, at, k);
    if t.ends[p].read && Reaches(user, at, k) {
      LoadedHolds(user, at, k);
      assert (q + Loaded(user, at, k))[|q|..] == Loaded(user, at, k);
    }
  }

  /** A read of n bytes takes as many as there are. If user memory has room for them, they are stored there, are gone
      from the front of the queue, and the call gives their number; if not, it gives -1 and the queue stays. */
  lemma ReadMeans(t: Table, t': Table, user: Memory, user': Memory, p: nat, at: nat, n: nat, rc: int)
    requires p < |t.queues| && |t.queues[p].queue| <= 4096 && PipeReadDone(t, t', user, user', p, at, n, rc)
    ensures var q := t.queues[p].queue;
            var k := if n <= |q| then n else |q|;
            if Mapped(user, at, at + k)
            then rc == k && OtherQueues(t, t', p) && q[k..] == t'.queues[p].queue &&
              Holds(user', at, at + k, q[..k]) && KeptOutside(user, user', at, at + k)
            else rc == -1 && t' == t
  {
    var q := t.queues[p].queue;
    var k := Least(n, |q|);
    ReachesMapped(user, at, k);
    StoredHolds(user, at, q, k);
  }

  /** A read of n bytes from a file gives the bytes from its position on, as many as there are, and moves the position
      behind them; at the end it gives 0, and without a file or room for the bytes -1. */
  lemma FileReadMeans(t: Table, t': Table, user: Memory, user': Memory, i: nat, at: nat, n: nat,
                      content: Option<seq<byte>>, rc: int)
    requires i < |t.fds| && t.fds[i].File? && 0 < n <= PIPE_SIZE
    requires FileReadDone(t, t', user, user', i, at, n, content, rc)
    ensures var pos := t.fds[i].pos;
            if content.None? then rc == -1 && t' == t && user' == user
            else if pos >= |content.value| then rc == 0 && t' == t && user' == user
            else
              var k := if pos + n <= |content.value| then n else |content.value| - pos;
              if Mapped(user, at, at + k)
              then rc == k && t' == t.(fds := t.fds[i := File(t.fds[i].path, pos + k)]) &&
                Holds(user', at, at + k, content.value[pos..pos + k]) && KeptOutside(user, user', at, at + k)
              else rc == -1 && t' == t
  {
    var pos := t.fds[i].pos;
    if content.Some? && pos < |content.value| {
      var k := Least(n, |content.value| - pos);
      ReachesMapped(user, at, k);
      var part := content.value[pos..pos + k];
      StoredHolds(user, at, part, k);
      assert part[..k] == part;
    }
  }

  /** Making a pipe stores two numbers of eight bytes, the lowest byte first; they are the descriptors of the slots that
      hold the reading and the writing end of the pipe, which is empty. */
  lemma MadeMeans(t: Table, user: Memory, at: nat, p: nat, r: nat, w: nat)
    requires |t.fds| == FD_MAX && |t.ends| == PIPE_MAX == |t.queues| && p < PIPE_MAX && r < w < FD_MAX
    ensures var t', user' := MakePipe(t, p, r, w), Told(user, at, r, w);
            && t'.fds[r] == ReadEnd(p) && t'.fds[w] == WriteEnd(p) && t'.ends[p] == Ends(true, true)
            && t'.queues[p].queue == [] && KeptOutside(user, user', at, at + 16)
            && SlotOf(3 + r) == Some(r) && SlotOf(3 + w) == Some(w)
            && exists a, b :: Holds(user', at, at + 8, a) && Holds(user', at + 8, at + 16, b) && Number(a) == 3 + r &&
                              Number(b) == 3 + w
  {
    ToldIs(user, at, r, w);
  }

  lemma ToldIs(user: Memory, at: nat, r: nat, w: nat)
    requires r < FD_MAX && w < FD_MAX
    ensures var user' := Told(user, at, r, w);
            KeptOutside(user, user', at, at + 16) &&
            exists a, b :: Holds(user', at, at + 8, a) && Holds(user', at + 8, at + 16, b) && Number(a) == 3 + r &&
                           Number(b) == 3 + w
  {
    var a, b := LeBytes(FIRST_FD + r, 8), LeBytes(FIRST_FD + w, 8);
    TwoStored(user, at, a, b);
    SmallNumber(FIRST_FD + r, 8);
    SmallNumber(FIRST_FD + w, 8);
  }

  /** Bytes stored one behind the other do not overwrite each other. */
  lemma TwoStored(user: Memory, at: nat, a: seq<byte>, b: seq<byte>)
    requires |a| == 8 && |b| == 8
    ensures var user' := Stored(Stored(user, at, a, 8), at + 8, b, 8);
            Holds(user', at, at + 8, a) && Holds(user', at + 8, at + 16, b) && KeptOutside(user, user', at, at + 16)
  {
    var mid := Stored(user, at, a, 8);
    StoredHolds(user, at, a, 8);
    StoredHolds(mid, at + 8, b, 8);
    assert a[..8] == a && b[..8] == b;
    HoldsOn(mid, Stored(mid, at + 8, b, 8), at, a);
  }

  lemma HoldsOn(mid: Memory, user': Memory, at: nat, a: seq<byte>)
    requires Holds(mid, at, at + 8, a) && KeptOutside(mid, user', at + 8, at + 16)
    ensures Holds(user', at, at + 8, a)
  {
    forall j {:trigger W64(j)} | at <= j < at + 8 ensures W64(j) in user' && user'[W64(j)] == a[j - at] {
      forall i {:trigger W64(i)} | at + 8 <= i < at + 16 ensures W64(i) != W64(j) { Apart(j, i); }
    }
  }

  lemma Apart(j: nat, i: nat)
    requires j < i < j + 16
    ensures W64(i) != W64(j)
  {
  }

  lemma {:induction false} SmallNumber(v: nat, n: nat)
    requires v < 256 && n > 0
    ensures Number(LeBytes(v, n)) == v
    decreases n
  {
    if n > 1 {
      SmallNumber(0, n - 1);
      assert LeBytes(v, n)[1..] == LeBytes(0, n - 1);
    } else {
      assert LeBytes(v, 1)[1..] == [];
    }
  }
}
