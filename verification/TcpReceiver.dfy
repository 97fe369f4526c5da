/** TCP connections: segments parsed, matched to a connection and handled in place. */
module TcpReceiver {
  import opened Options
  import opened MachineBytes
  import opened TcpStream

  const MAX_CONN: nat := 4
  const HEADER: nat := 20

  /** The other end of a connection, and our port. */
  datatype Peering = Peering(ip: seq<byte>, remotePort: nat, localPort: nat)

  class TcpConn {
    var active: bool
    var state: TcpState
    var peering: Peering
    var seqNum: u32              // our next sequence number
    var ackNum: u32              // the next byte expected
    const rxBuf: array<byte>
    var rxLen: nat
    var rxFin: bool

    constructor ()
      ensures Valid() && View() == Conn(false, Closed, 0, 0, [], false) && fresh(rxBuf)
    {
      active, state, seqNum, ackNum, rxLen, rxFin := false, Closed, 0, 0, 0, false;
      peering := Peering([0, 0, 0, 0], 0, 0);
      rxBuf := new byte[BUF_SIZE](_ => 0);
    }

    ghost predicate Valid()
      reads this
    {
      rxBuf.Length == BUF_SIZE && rxLen <= BUF_SIZE
    }

    ghost function View(): (c: Conn)
      requires Valid()
      reads this, rxBuf
      ensures |c.rx| <= BUF_SIZE
    {
      Conn(active, state, seqNum, ackNum, rxBuf[..rxLen], rxFin)
    }

    /** Copies the data of a segment that comes in order into the buffer, as much as fits, and acknowledges it all. */
    method TakeData(s: Segment) returns (sent: seq<Reply>)
      requires Valid() && state == Established && !s.rst
      modifies this`rxLen, this`ackNum, rxBuf
      ensures Valid() && View() == AfterData(old(View()), s)
      ensures sent == if Accepts(old(View()), s) then [Reply(seqNum, ackNum)] else []
    {
      if |s.data| == 0 || s.seqNum != ackNum { return []; }
      var space := BUF_SIZE - rxLen;
      var copy := if |s.data| < space then |s.data| else space;
      ghost var was := rxBuf[..rxLen];
      for i := 0 to copy
        invariant rxLen == old(rxLen) && ackNum == old(ackNum) && rxLen + copy <= BUF_SIZE && copy <= |s.data|
        invariant rxBuf[..rxLen + i] == was + s.data[..i]
      {
        rxBuf[rxLen + i] := s.data[i];
        assert rxBuf[..rxLen + i + 1] == rxBuf[..rxLen + i] + [s.data[i]] &&
               s.data[..i + 1] == s.data[..i] + [s.data[i]];
      }
      assert s.data[..copy] == Taken(old(View()), s);
      rxLen := rxLen + copy;
      ackNum := W32(s.seqNum + |s.data|);
      sent := [Reply(seqNum, ackNum)];
    }

    /** Handles a segment for this connection; gives the acknowledgements it sends. */
    method Handle(s: Segment) returns (sent: seq<Reply>)
      requires Valid()
      modifies this`active, this`state, this`seqNum, this`ackNum, this`rxLen, this`rxFin, rxBuf
      ensures Valid() && View() == Received(old(View()), s) && sent == Replies(old(View()), s)
    {
      sent := [];
      if s.rst {
        state, active := Closed, false;
        return;
      }
      match state {
        case SynSent =>
          if s.syn && s.ack {
            ackNum, seqNum, state := W32(s.seqNum + 1), s.ackNum, Established;
            sent := [Reply(seqNum, ackNum)];
          }
        case Established =>
          sent := TakeData(s);
          if s.fin {
            if |s.data| == 0 { ackNum := W32(s.seqNum + 1); }
            rxFin, state := true, CloseWait;
            sent := sent + [Reply(seqNum, ackNum)];
          }
        case FinWait1 =>
          if s.ack {
            seqNum := s.ackNum;
            if s.fin {
              ackNum := W32(s.seqNum + 1);
              sent := [Reply(seqNum, ackNum)];
              state, active := Closed, false;
            } else {
              state := FinWait2;
            }
          }
        case FinWait2 =>
          if s.fin {
            ackNum := W32(s.seqNum + 1);
            sent := [Reply(seqNum, ackNum)];
            state, active := Closed, false;
          }
        case LastAck =>
          if s.ack { state, active := Closed, false; }
        case _ =>
      }
    }

    /** Hands out up to a number of bytes and moves the rest to the front of the buffer. */
    method Take(limit: nat) returns (bytes: seq<byte>)
      requires Valid()
      modifies this`rxLen, rxBuf
      ensures Valid() && View() == Drained(old(View()), limit) && bytes == HandedOut(old(View()), limit)
    {
      var copy := if rxLen < limit then rxLen else limit;
      bytes := rxBuf[..copy];
      if copy < rxLen {
        var remaining := rxLen - copy;
        for j := 0 to remaining
          invariant forall i {:trigger rxBuf[i]} :: 0 <= i < j ==> rxBuf[i] == old(rxBuf[copy + i])
          invariant forall i {:trigger rxBuf[i]} :: j <= i < BUF_SIZE ==> rxBuf[i] == old(rxBuf[i])
        {
          rxBuf[j] := rxBuf[copy + j];
        }
        rxLen := remaining;
        assert rxBuf[..rxLen] == old(rxBuf[..rxLen])[copy..];
      } else {
        rxLen := 0;
      }
    }

    /** Starts closing from our side. */
    method StartClose()
      requires Valid()
      modifies this`state, this`seqNum
      ensures Valid() && View() == Closing(old(View()))
    {
      if state == Established {
        state, seqNum := FinWait1, W32(seqNum + 1);
      } else if state == CloseWait {
        state, seqNum := LastAck, W32(seqNum + 1);
      }
    }
  }

  // ---- Segments on the wire ----

  function Be16(s: seq<byte>, at: nat): nat
    requires at + 2 <= |s|
  {
    256 * s[at] as int + s[at + 1] as int
  }

  function Be32(s: seq<byte>, at: nat): u32
    requires at + 4 <= |s|
  {
    0x1_0000 * Be16(s, at) + Be16(s, at + 2)
  }

  function Flag(b: byte, bit: nat): bool
    requires bit > 0
  {
    b as int / bit % 2 == 1
  }

  function HeaderLen(p: seq<byte>): nat
    requires |p| >= HEADER
  {
    p[12] as int / 16 * 4
  }

  predicate WellFormed(p: seq<byte>) { |p| >= HEADER && HEADER <= HeaderLen(p) <= |p| }

  function Parsed(p: seq<byte>): Segment
    requires WellFormed(p)
  {
    Segment(Be32(p, 4), Be32(p, 8), Flag(p[13], 2), Flag(p[13], 16), Flag(p[13], 1), Flag(p[13], 4), p[HeaderLen(p)..])
  }

  predicate Matches(active: bool, peering: Peering, p: seq<byte>, src: seq<byte>)
    requires |p| >= HEADER
  {
    active && peering.localPort == Be16(p, 2) && peering.remotePort == Be16(p, 0) && peering.ip == src
  }

  class TcpTable {
    const conns: seq<TcpConn>

    constructor (conns: seq<TcpConn>)
      ensures this.conns == conns
    {
      this.conns := conns;
    }

    ghost predicate Valid()
      reads this, conns, set c | c in conns :: c.rxBuf
    {
      && |conns| == MAX_CONN && (forall c :: c in conns ==> c.Valid())
      && forall i, j {:trigger conns[i], conns[j]} :: 0 <= i < j < |conns| ==>
         conns[i] != conns[j] && conns[i].rxBuf != conns[j].rxBuf
    }

    /** The first connection, from the i-th on, that a payload belongs to. */
    ghost function Match(p: seq<byte>, src: seq<byte>, i: nat): (r: nat)
      requires |p| >= HEADER && i <= |conns|
      reads conns
      ensures i <= r <= |conns|
      decreases |conns| - i
    {
      if i == |conns| || Matches(conns[i].active, conns[i].peering, p, src) then i else Match(p, src, i + 1)
    }

    method FindConn(p: seq<byte>, src: seq<byte>) returns (i: nat)
      requires |p| >= HEADER
      ensures i == Match(p, src, 0)
    {
      i := 0;
      while i < |conns|
        invariant i <= |conns| && Match(p, src, 0) == Match(p, src, i)
      {
        if Matches(conns[i].active, conns[i].peering, p, src) { return; }
        i := i + 1;
      }
    }

    /** Handles a TCP payload: the connection it belongs to takes the segment, and every other stays as it is. */
    method HandleTcp(p: seq<byte>, src: seq<byte>) returns (sent: seq<Reply>)
      requires Valid()
      modifies conns, set c | c in conns :: c.rxBuf
      ensures Valid()
      ensures forall i {:trigger conns[i]} :: 0 <= i < |conns| ==>
                conns[i].peering == old(conns[i].peering) &&
                conns[i].View() ==
                    if WellFormed(p) && i == old(Match(p, src, 0)) then Received(old(conns[i].View()), Parsed(p))
                    else old(conns[i].View())
      ensures sent == if WellFormed(p) && old(Match(p, src, 0)) < |conns|
                      then Replies(old(conns[Match(p, src, 0)].View()), Parsed(p))
                      else []
    {
      if |p| < HEADER { return []; }
      if HeaderLen(p) < HEADER || HeaderLen(p) > |p| { return []; }
      var i := FindConn(p, src);
      if i == |conns| { return []; }
      assert conns[i] in conns;
      sent := conns[i].Handle(Parsed(p));
    }
  }
}
