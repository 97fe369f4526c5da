/** A connection from its first segment to its last: set-up, the numbers both sides use, and when it is over. */
module TcpLife {
  import opened MachineBytes
  import opened TcpStream
  import opened TcpReceiver

  // ---- Set-up ----

  /** Waiting for an answer, only a segment with SYN and ACK opens the connection; then the next byte is the one after
      the SYN, and what is sent says so. The number it acknowledges is believed, whatever it is. */
  lemma HandshakeIs(c: Conn, s: Segment)
    requires |c.rx| <= BUF_SIZE && c.state == SynSent && !s.rst
    ensures var r := Received(c, s);
            && (s.syn && s.ack ==>
                 r == Conn(c.active, Established, s.ackNum, r.ackNum, c.rx, c.rxFin) &&
                 Replies(c, s) == [Reply(s.ackNum, r.ackNum)] &&
                 (if s.seqNum == 0xFFFF_FFFF then r.ackNum == 0 else r.ackNum == s.seqNum + 1))
            && (!(s.syn && s.ack) ==> r == c && Replies(c, s) == [])
  {
  }

  /** A reset ends a connection in every state; no byte that waits to be read is lost, and nothing is sent. */
  lemma ResetEnds(c: Conn, s: Segment)
    requires |c.rx| <= BUF_SIZE && s.rst
    ensures var r := Received(c, s);
            !r.active && r.state == Closed && r.rx == c.rx && r.rxFin == c.rxFin && Replies(c, s) == []
  {
  }

  /** A read hands out the first bytes of the buffer, as many as are asked for and there, and keeps the others. */
  lemma ReadHands(p: Peer, limit: nat)
    requires |p.conn.rx| <= BUF_SIZE && p.conn.active
    ensures var r := After(p, Read(limit));
            && r.out + r.conn.rx == p.out + p.conn.rx && p.out <= r.out && r.conn == p.conn.(rx := r.conn.rx)
            && (|r.out| - |p.out| == limit || (|r.out| - |p.out| < limit && r.conn.rx == []))
  {
    var n := Min(|p.conn.rx|, limit);
    assert p.conn.rx == p.conn.rx[..n] + p.conn.rx[n..];
  }

  /** A segment of the sender of a stream: its SYN, numbered before the first byte, or a slice of the stream. */
  ghost predicate Sent(e: Event, stream: seq<byte>, first: u32) {
    e.Arrives? ==> if e.s.syn then |e.s.data| == 0 && !e.s.fin && W32(e.s.seqNum + 1) == first
                   else FromStream(e, stream, first)
  }

  /** From the set-up on, under any loss, duplication and reordering of the sender's segments, what has been handed out
      followed by what is in the buffer is a prefix of the stream, as long as every accepted segment fits the buffer. */
  lemma {:induction false} PrefixFromSyn(p: Peer, es: seq<Event>, stream: seq<byte>, first: u32) returns (n: nat)
    requires p.conn.state == SynSent && p.out == [] && p.conn.rx == [] && |stream| < 0x1_0000_0000
    requires (forall k :: 0 <= k < |es| ==> Sent(es[k], stream, first)) && NothingDropped(p, es)
    ensures var r := Run(p, es);
            (if r.conn.state == SynSent then n == 0 && r.out + r.conn.rx == [] else InStep(r, stream, first, n))
    ensures Run(p, es).out + Run(p, es).conn.rx <= stream
    decreases |es|
  {
    if |es| == 0 {
      n := 0;
    } else {
      var k := |es| - 1;
      var before := es[..k];
      forall j | 0 <= j < k && before[j].Arrives? && Accepts(Run(p, before[..j]).conn, before[j].s)
        ensures Fits(Run(p, before[..j]).conn, before[j].s)
      {
        assert before[..j] == es[..j] && before[j] == es[j];
      }
      n := PrefixFromSyn(p, before, stream, first);
      n := SentStays(Run(p, before), es[k], stream, first, n);
    }
  }

  lemma SentStays(p: Peer, e: Event, stream: seq<byte>, first: u32, n: nat) returns (n': nat)
    requires |p.conn.rx| <= BUF_SIZE && |stream| < 0x1_0000_0000 && Sent(e, stream, first)
    requires if p.conn.state == SynSent then n == 0 && p.out + p.conn.rx == [] else InStep(p, stream, first, n)
    requires e.Arrives? && Accepts(p.conn, e.s) ==> Fits(p.conn, e.s)
    ensures var r := After(p, e);
            (if r.conn.state == SynSent then n' == 0 && r.out + r.conn.rx == [] else InStep(r, stream, first, n'))
    ensures After(p, e).out + After(p, e).conn.rx <= stream
  {
    n' := n;
    if p.conn.state == SynSent {
      assert p.out == [] && p.conn.rx == [];
    } else if e.Arrives? && e.s.syn {
      assert After(p, e).conn.rx == p.conn.rx;
    } else {
      n' := StepStays(p, e, stream, first, n);
    }
  }

  // ---- The end ----

  /** No reset arrives, and the wait for the other side is not given up. */
  ghost predicate Orderly(es: seq<Event>) { forall k :: 0 <= k < |es| ==> OrderlyEvent(es[k]) }

  predicate OrderlyEvent(e: Event) { !e.End? && (e.Arrives? ==> !e.s.rst) }

  /** Whether a FIN has arrived, whether anything has, and whether this side has closed. */
  ghost predicate Heard(es: seq<Event>) { exists k :: 0 <= k < |es| && IsFin(es[k]) }

  predicate IsFin(e: Event) { e.Arrives? && e.s.fin }

  ghost predicate Anything(es: seq<Event>) { exists k :: 0 <= k < |es| && es[k].Arrives? }

  lemma OneMore(es: seq<Event>)
    requires |es| > 0
    ensures var k := |es| - 1;
            && (Heard(es) <==> Heard(es[..k]) || IsFin(es[k]))
            && (Close in es <==> Close in es[..k] || es[k] == Close)
            && (Anything(es) <==> Anything(es[..k]) || es[k].Arrives?)
            && (Orderly(es) ==> Orderly(es[..k]) && OrderlyEvent(es[k]))
  {
    var k := |es| - 1;
    assert es == es[..k] + [es[k]];
    if Heard(es[..k]) {
      var j :| 0 <= j < k && IsFin(es[..k][j]);
      assert IsFin(es[j]);
    }
    if Anything(es[..k]) {
      var j :| 0 <= j < k && es[..k][j].Arrives?;
      assert es[j].Arrives?;
    }
    if Heard(es) {
      var j :| 0 <= j < |es| && IsFin(es[j]);
      assert j < k ==> IsFin(es[..k][j]);
    }
    if Anything(es) {
      var j :| 0 <= j < |es| && es[j].Arrives?;
      assert j < k ==> es[..k][j].Arrives?;
    }
  }

  /** In an orderly run the state of a connection tells what has happened: whether this side has closed, and while it
      has not, whether the other side has. The connection is over only after both have. */
  lemma {:induction false} StateTells(p: Peer, es: seq<Event>)
    requires |p.conn.rx| <= BUF_SIZE && p.conn.active && p.conn.state == Established && Orderly(es)
    ensures var c := Run(p, es).conn;
            && (c.state == Established <==> Close !in es && !Heard(es))
            && (c.state == CloseWait <==> Close !in es && Heard(es))
            && (c.state == LastAck ==> Heard(es))
            && (!c.active ==> Close in es && Heard(es))
            && (c.active <==> c.state != Closed)
            && c.state in {Established, CloseWait, FinWait1, FinWait2, LastAck, Closed}
    decreases |es|
  {
    if |es| > 0 {
      OneMore(es);
      StateTells(p, es[..|es| - 1]);
    }
  }

  /** Once a connection is given up it is over, whatever comes after: nothing more is handed out or taken in. */
  lemma {:induction false} OverForGood(p: Peer, es: seq<Event>)
    requires |p.conn.rx| <= BUF_SIZE && |es| > 0 && es[0] == End
    ensures var r := Run(p, es);
            !r.conn.active && r.conn.state == Closed && r.out == p.out && r.conn.rx == p.conn.rx
    decreases |es|
  {
    var k := |es| - 1;
    if k > 0 {
      OverForGood(p, es[..k]);
    } else {
      assert es[..0] == [];
    }
  }

  /** Once this side has closed first, and all that arrives acknowledges something, the connection is over exactly when
      a FIN has arrived. */
  lemma {:induction false} FinEnds(p: Peer, es: seq<Event>)
    requires |p.conn.rx| <= BUF_SIZE && p.conn.active && p.conn.state in {FinWait1, FinWait2} && Orderly(es)
    requires forall k :: 0 <= k < |es| && es[k].Arrives? ==> es[k].s.ack
    ensures var c := Run(p, es).conn;
            && (c.active <==> !Heard(es))
            && c.state in (if c.active then {FinWait1, FinWait2} else {Closed})
    ensures p.conn.state == FinWait1 && Run(p, es).conn.active ==>
              (Run(p, es).conn.state == FinWait2 <==> Anything(es))
    decreases |es|
  {
    if |es| > 0 {
      OneMore(es);
      FinEnds(p, es[..|es| - 1]);
    }
  }

  /** Once this side has closed second, the connection is over as soon as anything arrives that acknowledges something;
      it need not be this side's FIN. */
  lemma {:induction false} LastEnds(p: Peer, es: seq<Event>)
    requires |p.conn.rx| <= BUF_SIZE && p.conn.active && p.conn.state == LastAck && Orderly(es)
    requires forall k :: 0 <= k < |es| && es[k].Arrives? ==> es[k].s.ack
    ensures var c := Run(p, es).conn;
            (c.active <==> !Anything(es)) && c.state == (if c.active then LastAck else Closed)
    decreases |es|
  {
    if |es| > 0 {
      OneMore(es);
      LastEnds(p, es[..|es| - 1]);
    }
  }

  /** A FIN takes one number of its own. It is acknowledged exactly when it carries no data, or when an established
      connection ignores its data and happens to wait for the number behind it. */
  lemma FinAcknowledged(c: Conn, s: Segment)
    requires |c.rx| <= BUF_SIZE && s.fin && s.ack && !s.rst && |s.data| < 0x1_0000
    requires c.state == Established || c.state == FinWait1 || c.state == FinWait2
    ensures var sent := Replies(c, s);
            var past := W32(s.seqNum + |s.data| + 1);
            && |sent| > 0 && sent[|sent| - 1].ackNum == Received(c, s).ackNum
            && (Received(c, s).ackNum == past <==>
                |s.data| == 0 || (c.state == Established && c.ackNum == past))
  {
  }

  /** An acknowledgement is sent exactly for a segment that opens the connection, is accepted, or ends the stream while
      this side still listens. */
  lemma AnsweredIff(c: Conn, s: Segment)
    requires |c.rx| <= BUF_SIZE
    ensures Replies(c, s) != [] <==>
            && !s.rst
            && ((c.state == SynSent && s.syn && s.ack) || Accepts(c, s) ||
                (s.fin && (c.state == Established || c.state == FinWait2 || (c.state == FinWait1 && s.ack))))
  {
  }

  /** What this side sends is numbered on from `own` by one for its FIN, once it has closed, if the other side
      acknowledges no more and no less than that. */
  lemma {:induction false} OwnNumber(p: Peer, es: seq<Event>, own: u32)
    requires |p.conn.rx| <= BUF_SIZE && p.conn.active && p.conn.state == Established && p.conn.seqNum == own
    requires Orderly(es) && AcknowledgeOwn(es, own)
    ensures Run(p, es).conn.seqNum == Numbered(own, Close in es)
    decreases |es|
  {
    if |es| > 0 {
      var before, e := es[..|es| - 1], es[|es| - 1];
      OneMore(es);
      OwnBefore(es, own);
      OwnNumber(p, before, own);
      StateTells(p, before);
      OwnStep(Run(p, before), e, own, Close in before);
    }
  }

  function Numbered(own: u32, closed: bool): u32 { if closed then W32(own + 1) else own }

  /** Whatever arrives once this side has closed acknowledges its FIN and nothing more. */
  ghost predicate AcknowledgeOwn(es: seq<Event>, own: u32) {
    forall k :: 0 <= k < |es| && es[k].Arrives? && Close in es[..k] ==> es[k].s.ackNum == W32(own + 1)
  }

  lemma OwnBefore(es: seq<Event>, own: u32)
    requires AcknowledgeOwn(es, own) && |es| > 0
    ensures AcknowledgeOwn(es[..|es| - 1], own)
  {
    var before := es[..|es| - 1];
    forall j | 0 <= j < |before| && before[j].Arrives? && Close in before[..j]
      ensures before[j].s.ackNum == W32(own + 1)
    {
      assert before[..j] == es[..j];
    }
  }

  lemma OwnStep(p: Peer, e: Event, own: u32, closed: bool)
    requires |p.conn.rx| <= BUF_SIZE && OrderlyEvent(e) && p.conn.seqNum == Numbered(own, closed)
    requires p.conn.state in {Established, CloseWait, FinWait1, FinWait2, LastAck, Closed}
    requires (p.conn.state == Established || p.conn.state == CloseWait <==> !closed) &&
             (p.conn.active <==> p.conn.state != Closed)
    requires e.Arrives? && closed ==> e.s.ackNum == W32(own + 1)
    ensures After(p, e).conn.seqNum == Numbered(own, closed || e == Close)
  {
  }

  // ---- On the wire ----

  function Pair(x: nat): seq<byte>
    requires x < 0x1_0000
  {
    [x / 256, x % 256]
  }

  function Four(x: u32): seq<byte> { Pair(x / 0x1_0000) + Pair(x % 0x1_0000) }

  function Bit(b: bool, worth: nat): nat { if b then worth else 0 }

  /** A segment with ports, options, a window and a checksum, as section 3.1 of RFC 9293 lays it out. */
  function Wire(s: Segment, from: nat, to: nat, options: seq<byte>, window: nat, checksum: nat, psh: bool): seq<byte>
    requires from < 0x1_0000 && to < 0x1_0000 && window < 0x1_0000 && checksum < 0x1_0000
    requires |options| <= 40 && |options| % 4 == 0
  {
    Pair(from) + Pair(to) + Four(s.seqNum) + Four(s.ackNum)
    + [(20 + |options|) / 4 * 16,
       Bit(s.fin, 1) + Bit(s.syn, 2) + Bit(s.rst, 4) + Bit(psh, 8) + Bit(s.ack, 16)]
    + Pair(window) + Pair(checksum) + [0, 0] + options + s.data
  }

  /** A segment laid out like that is well formed, is read back as it was, and belongs to the connection with its ports
      and address. */
  lemma WireReads(s: Segment, from: nat, to: nat, options: seq<byte>, window: nat, checksum: nat, psh: bool,
                  peering: Peering, src: seq<byte>)
    requires from < 0x1_0000 && to < 0x1_0000 && window < 0x1_0000 && checksum < 0x1_0000
    requires |options| <= 40 && |options| % 4 == 0
    ensures var p := Wire(s, from, to, options, window, checksum, psh);
            WellFormed(p) && Parsed(p) == s && (Matches(true, peering, p, src) <==> peering == Peering(src, from, to))
  {
    var p := Wire(s, from, to, options, window, checksum, psh);
    assert p[HeaderLen(p)..] == s.data;
    FlagsRead(s, p[13], psh);
  }

  lemma FlagsRead(s: Segment, b: byte, psh: bool)
    requires b as int == Bit(s.fin, 1) + Bit(s.syn, 2) + Bit(s.rst, 4) + Bit(psh, 8) + Bit(s.ack, 16)
    ensures Flag(b, 1) == s.fin && Flag(b, 2) == s.syn && Flag(b, 4) == s.rst && Flag(b, 16) == s.ack
  {
  }
}
