/** What a connection does with segments, and when the bytes it hands out are the sender's stream. */
module TcpStream {
  import opened MachineBytes

  const BUF_SIZE: nat := 4096

  datatype TcpState = Closed | SynSent | Established | FinWait1 | FinWait2 | CloseWait | LastAck | TimeWait

  datatype Segment = Segment(seqNum: u32, ackNum: u32, syn: bool, ack: bool, fin: bool, rst: bool, data: seq<byte>)

  /** A bare acknowledgement that is sent. */
  datatype Reply = Reply(seqNum: u32, ackNum: u32)

  datatype Conn = Conn(active: bool, state: TcpState, seqNum: u32, ackNum: u32, rx: seq<byte>, rxFin: bool)

  predicate Accepts(c: Conn, s: Segment) { !s.rst && c.state == Established && |s.data| > 0 && s.seqNum == c.ackNum }

  predicate Fits(c: Conn, s: Segment) { |c.rx| + |s.data| <= BUF_SIZE }

  /** The bytes of a segment that go into the buffer. */
  function Taken(c: Conn, s: Segment): seq<byte>
    requires |c.rx| <= BUF_SIZE
  {
    if !Accepts(c, s) then [] else if Fits(c, s) then s.data else s.data[..BUF_SIZE - |c.rx|]
  }

  function AfterData(c: Conn, s: Segment): Conn
    requires |c.rx| <= BUF_SIZE
  {
    if Accepts(c, s) then c.(rx := c.rx + Taken(c, s), ackNum := W32(s.seqNum + |s.data|)) else c
  }

  /** The connection after a segment. */
  function Received(c: Conn, s: Segment): (r: Conn)
    requires |c.rx| <= BUF_SIZE
    ensures |r.rx| <= BUF_SIZE
  {
    if s.rst then c.(state := Closed, active := false)
    else match c.state
      case SynSent =>
        if s.syn && s.ack then c.(ackNum := W32(s.seqNum + 1), seqNum := s.ackNum, state := Established) else c
      case Established =>
        var d := AfterData(c, s);
        if s.fin
        then d.(ackNum := if |s.data| == 0 then W32(s.seqNum + 1) else d.ackNum, rxFin := true, state := CloseWait)
        else d
      case FinWait1 =>
        if !s.ack then c
        else if s.fin then c.(seqNum := s.ackNum, ackNum := W32(s.seqNum + 1), state := Closed, active := false)
        else c.(seqNum := s.ackNum, state := FinWait2)
      case FinWait2 => if s.fin then c.(ackNum := W32(s.seqNum + 1), state := Closed, active := false) else c
      case LastAck => if s.ack then c.(state := Closed, active := false) else c
      case _ => c
  }

  /** The acknowledgements sent for a segment. */
  function Replies(c: Conn, s: Segment): seq<Reply>
    requires |c.rx| <= BUF_SIZE
  {
    var r := Received(c, s);
    if s.rst then []
    else match c.state
      case SynSent => if s.syn && s.ack then [Reply(r.seqNum, r.ackNum)] else []
      case Established =>
        var d := AfterData(c, s);
        (if Accepts(c, s) then [Reply(d.seqNum, d.ackNum)] else []) + if s.fin then [Reply(r.seqNum, r.ackNum)] else []
      case FinWait1 => if s.ack && s.fin then [Reply(r.seqNum, r.ackNum)] else []
      case FinWait2 => if s.fin then [Reply(r.seqNum, r.ackNum)] else []
      case _ => []
  }

  function Min(a: nat, b: nat): nat { if a < b then a else b }

  /** The connection after up to a number of bytes have been handed out, and these bytes. */
  function Drained(c: Conn, limit: nat): Conn { c.(rx := c.rx[Min(|c.rx|, limit)..]) }

  function HandedOut(c: Conn, limit: nat): seq<byte> { c.rx[..Min(|c.rx|, limit)] }

  // ---- Runs ----

  datatype Event = Arrives(s: Segment) | Read(limit: nat) | Close | End

  /** A connection together with all the bytes handed out so far. */
  datatype Peer = Peer(conn: Conn, out: seq<byte>)

  function Closing(c: Conn): Conn {
    match c.state
    case Established => c.(state := FinWait1, seqNum := W32(c.seqNum + 1))
    case CloseWait => c.(state := LastAck, seqNum := W32(c.seqNum + 1))
    case _ => c
  }

  function After(p: Peer, e: Event): (r: Peer)
    requires |p.conn.rx| <= BUF_SIZE
    ensures |r.conn.rx| <= BUF_SIZE
  {
    match e
    case Arrives(s) => if p.conn.active then p.(conn := Received(p.conn, s)) else p
    case Read(limit) => if p.conn.active then Peer(Drained(p.conn, limit), p.out + HandedOut(p.conn, limit)) else p
    case Close => if p.conn.active then p.(conn := Closing(p.conn)) else p
    case End => p.(conn := p.conn.(state := Closed, active := false))
  }

  function Run(p: Peer, es: seq<Event>): (r: Peer)
    requires |p.conn.rx| <= BUF_SIZE
    ensures |r.conn.rx| <= BUF_SIZE
  {
    if |es| == 0 then p else After(Run(p, es[..|es| - 1]), es[|es| - 1])
  }

  // ---- The sender's stream ----

  /** A segment carries a slice of a stream whose first byte has number `first`; a FIN comes at its end. */
  ghost predicate Slice(s: Segment, stream: seq<byte>, first: u32, off: nat) {
    off + |s.data| <= |stream| && s.data == stream[off..off + |s.data|] && s.seqNum == W32(first + off) &&
      (s.fin ==> off + |s.data| == |stream|)
  }

  ghost predicate FromStream(e: Event, stream: seq<byte>, first: u32) {
    e.Arrives? ==> exists off :: Slice(e.s, stream, first, off)
  }

  /** The bytes handed out and those in the buffer are the first n bytes of the stream, and the connection waits for
      the byte after them. */
  ghost predicate InStep(p: Peer, stream: seq<byte>, first: u32, n: nat) {
    n <= |stream| && p.out + p.conn.rx == stream[..n] &&
      (p.conn.state == Established ==> p.conn.ackNum == W32(first + n))
  }

  lemma SameNumber(first: u32, m: nat, n: nat)
    requires m < 0x1_0000_0000 && n < 0x1_0000_0000
    ensures W32(first + m) == W32(first + n) <==> m == n
  {
  }

  /** A segment that is accepted carries the bytes that come next. */
  lemma NextSlice(p: Peer, s: Segment, stream: seq<byte>, first: u32, n: nat)
    requires InStep(p, stream, first, n) && |stream| < 0x1_0000_0000 && FromStream(Arrives(s), stream, first) &&
             Accepts(p.conn, s)
    ensures n + |s.data| <= |stream| && p.out + (p.conn.rx + s.data) == stream[..n + |s.data|]
    ensures W32(s.seqNum + |s.data|) == W32(first + (n + |s.data|))
  {
    var off :| Slice(s, stream, first, off);
    SameNumber(first, off, n);
    assert stream[..n + |s.data|] == stream[..n] + stream[n..n + |s.data|];
    assert p.out + (p.conn.rx + s.data) == (p.out + p.conn.rx) + s.data;
    Advance(first, n, |s.data|);
  }

  /** Whatever arrives, in whatever order, a step that drops no byte it acknowledges keeps the connection in step. */
  lemma StepStays(p: Peer, e: Event, stream: seq<byte>, first: u32, n: nat) returns (n': nat)
    requires |p.conn.rx| <= BUF_SIZE && InStep(p, stream, first, n) && |stream| < 0x1_0000_0000 &&
             FromStream(e, stream, first)
    requires p.conn.state != SynSent
    requires e.Arrives? && Accepts(p.conn, e.s) ==> Fits(p.conn, e.s)
    ensures InStep(After(p, e), stream, first, n') && n <= n' && After(p, e).conn.state != SynSent
    ensures e.Arrives? && p.conn.active && Accepts(p.conn, e.s) ==> n' == n + |e.s.data|
  {
    n' := n;
    match e
    case Arrives(s) =>
      if p.conn.active && Accepts(p.conn, s) {
        NextSlice(p, s, stream, first, n);
        n' := n + |s.data|;
      }
    case Read(limit) =>
      assert p.out + p.conn.rx == (p.out + HandedOut(p.conn, limit)) + Drained(p.conn, limit).rx;
    case Close =>
    case End =>
  }

  lemma Advance(first: u32, n: nat, len: nat)
    ensures W32(W32(first + n) + len) == W32(first + (n + len))
  {
  }

  /** No event of a run makes the connection acknowledge a byte that it drops. */
  ghost predicate NothingDropped(p: Peer, es: seq<Event>)
    requires |p.conn.rx| <= BUF_SIZE
  {
    forall k {:trigger es[k]} :: 0 <= k < |es| && es[k].Arrives? && Accepts(Run(p, es[..k]).conn, es[k].s) ==>
        Fits(Run(p, es[..k]).conn, es[k].s)
  }

  /** Under any loss, duplication and reordering, and any interleaving of reads, what has been handed out followed by
      what is in the buffer is a prefix of the stream, as long as every accepted segment fits the buffer. */
  lemma {:induction false} PrefixOfStream(p: Peer, es: seq<Event>, stream: seq<byte>, first: u32) returns (n: nat)
    requires p == Peer(Conn(true, Established, p.conn.seqNum, first, [], false), []) && |stream| < 0x1_0000_0000
    requires (forall k :: 0 <= k < |es| ==> FromStream(es[k], stream, first)) && NothingDropped(p, es)
    ensures InStep(Run(p, es), stream, first, n) && Run(p, es).conn.state != SynSent
    ensures Run(p, es).out + Run(p, es).conn.rx <= stream
    decreases |es|
  {
    if |es| == 0 {
      n := 0;
    } else {
      var k := |es| - 1;
      var before := es[..k];
      forall j | 0 <= j < k && before[j].Arrives? && Accepts(Run(p, before[..j]).conn, before[j].s)
        ensures Fits(Run(p, before[..j]).conn, before[j].s)
      {
        assert before[..j] == es[..j] && before[j] == es[j];
      }
      n := PrefixOfStream(p, before, stream, first);
      n := StepStays(Run(p, before), es[k], stream, first, n);
    }
  }

  /** The proviso is exact: an accepted segment leaves an established connection in step if and only if it fits. */
  lemma FitsExactly(p: Peer, s: Segment, stream: seq<byte>, first: u32, n: nat)
    requires |p.conn.rx| <= BUF_SIZE && InStep(p, stream, first, n) && |stream| < 0x1_0000_0000 &&
             FromStream(Arrives(s), stream, first)
    requires p.conn.active && Accepts(p.conn, s) && !s.fin
    ensures (exists n' :: InStep(After(p, Arrives(s)), stream, first, n')) <==> Fits(p.conn, s)
  {
    if Fits(p.conn, s) {
      var n' := StepStays(p, Arrives(s), stream, first, n);
    } else {
      var off :| Slice(s, stream, first, off);
      SameNumber(first, off, n);
      Advance(first, n, |s.data|);
      var r := After(p, Arrives(s));
      assert |r.out + r.conn.rx| == n + BUF_SIZE - |p.conn.rx|;
      forall n': nat ensures !InStep(r, stream, first, n') {
        if n' <= |stream| && r.out + r.conn.rx == stream[..n'] { SameNumber(first, n', n + |s.data|); }
      }
    }
  }

  /** Every acknowledgement without a FIN covers exactly the bytes taken, if the segment fits. */
  lemma RepliesAreHonest(p: Peer, s: Segment, stream: seq<byte>, first: u32, n: nat)
    requires |p.conn.rx| <= BUF_SIZE && InStep(p, stream, first, n) && |stream| < 0x1_0000_0000 &&
             FromStream(Arrives(s), stream, first)
    requires p.conn.active && Accepts(p.conn, s) && Fits(p.conn, s) && !s.fin
    ensures var r := After(p, Arrives(s));
            Replies(p.conn, s) == [Reply(r.conn.seqNum, W32(first + |r.out + r.conn.rx|))]
  {
    var n' := StepStays(p, Arrives(s), stream, first, n);
  }

  /** An end of the stream is believed from any segment with a FIN; the whole stream has been taken exactly when that
      segment came in order, or everything before it had been taken already. */
  lemma FinCompletes(p: Peer, s: Segment, stream: seq<byte>, first: u32, n: nat, off: nat)
    requires |p.conn.rx| <= BUF_SIZE && InStep(p, stream, first, n) && |stream| < 0x1_0000_0000 &&
             Slice(s, stream, first, off)
    requires p.conn.active && p.conn.state == Established && s.fin && !s.rst && (Accepts(p.conn, s) ==> Fits(p.conn, s))
    ensures var r := After(p, Arrives(s));
            r.conn.state == CloseWait && (r.out + r.conn.rx == stream <==> off == n || n == |stream|)
  {
    SameNumber(first, off, n);
    var n' := StepStays(p, Arrives(s), stream, first, n);
  }

  /** The proviso is needed: a full buffer acknowledges a byte, drops it, and takes the next one. */
  lemma DroppedByte(p: Peer, stream: seq<byte>, es: seq<Event>)
    requires p == Peer(Conn(true, Established, 0, 0, [], false), []) && |stream| == BUF_SIZE + 2 &&
             stream[BUF_SIZE] != stream[BUF_SIZE + 1]
    requires es == [Arrives(Segment(0, 0, false, true, false, false, stream[..BUF_SIZE])),
                    Arrives(Segment(BUF_SIZE, 0, false, true, false, false, [stream[BUF_SIZE]])),
                    Read(BUF_SIZE),
                    Arrives(Segment(BUF_SIZE + 1, 0, false, true, false, false, [stream[BUF_SIZE + 1]]))]
    ensures forall k :: 0 <= k < 4 ==> FromStream(es[k], stream, 0)
    ensures !(Run(p, es).out + Run(p, es).conn.rx <= stream)
  {
    assert Slice(es[0].s, stream, 0, 0) && Slice(es[1].s, stream, 0, BUF_SIZE) &&
           Slice(es[3].s, stream, 0, BUF_SIZE + 1);
    var p1 := After(p, es[0]);
    var p2 := After(p1, es[1]);
    var p3 := After(p2, es[2]);
    var p4 := After(p3, es[3]);
    assert es[..3][..2] == es[..2] && es[..2][..1] == es[..1] && es[..1][..0] == es[..0] && es[..4] == es;
    assert Run(p, es[..1]) == p1;
    assert Run(p, es[..2]) == p2;
    assert Run(p, es[..3]) == p3;
    assert Run(p, es) == p4;
    assert p4.out + p4.conn.rx == stream[..BUF_SIZE] + [stream[BUF_SIZE + 1]];
    assert (p4.out + p4.conn.rx)[BUF_SIZE] == stream[BUF_SIZE + 1];
  }
}
