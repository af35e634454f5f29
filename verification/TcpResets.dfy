/** Which segments draw a reset, what a reset does to the connection it answers, and the states before a connection is synchronized. */
module TcpResets {
  import opened Words
  import opened TcpControl
  import opened SendSide
  import opened A = TcpAcks
  import SeqCheckProofs
  import R = TcpRuns

  // ---- Who draws a reset ------------------------------------------------------------------

  /** The segment has no place in the connection (section 3.4 of RFC 793). */
  ghost predicate Offends(t: Tcb, s: Segment) {
    !s.rst &&
    match t.state
    case Closed | Listen => false
    case SynSent => s.ack && !(t.iss < s.ackno <= t.sndNxt)
    case SynRecv => SeqCheck(t, s) && (s.syn || (s.ack && !(t.sndUna <= s.ackno <= t.sndNxt)))
    case _ => SeqCheck(t, s) && s.syn
  }

  ghost function Resets(out: seq<Segment>): seq<Segment> {
    if out == [] then [] else if out[0].rst then [out[0]] + Resets(out[1..]) else Resets(out[1..])
  }

  lemma {:induction false} ResetsConcat(x: seq<Segment>, y: seq<Segment>)
    ensures Resets(x + y) == Resets(x) + Resets(y)
  {
    if x == [] {
      assert x + y == y;
    } else {
      ResetsConcat(x[1..], y);
      assert (x + y)[1..] == x[1..] + y;
    }
  }

  lemma AnswerIsReset(s: Segment)
    ensures Resets(ResetFor(s)) == ResetFor(s) && |ResetFor(s)| == if s.rst then 0 else 1
  {
    assert !s.rst ==> ResetFor(s)[1..] == [];
  }

  lemma OneNoReset(s: Segment)
    requires !s.rst
    ensures Resets([s]) == []
  {
    assert [s][1..] == [];
  }

  lemma DroppedResets(t: Tcb, s: Segment, out: seq<Segment>)
    ensures Resets(Dropped(t, s, out).1) == Resets(out)
  {
    OneNoReset(AckSegment(t));
    ResetsConcat(out, if t.ackNow then AckFor(t, s) else []);
  }

  lemma FieldsResets(t: Tcb, s: Segment, accepts: bool, rx: Received)
    requires SeqCheck(t, s) && (Synchronized(t.state) || t.state == SynRecv)
    ensures Resets(Fields(t, s, accepts, rx).1) == if Offends(t, s) then ResetFor(s) else []
  {
    AnswerIsReset(s);
    var none: seq<Segment> := [];
    assert none + none == none && ResetFor(s) + none == ResetFor(s) && none + ResetFor(s) == ResetFor(s);
  }

  /** In every state exactly the segments that offend draw a reset, one, and it is the answer to them. */
  lemma ResetIff(t: Tcb, s: Segment, accepts: bool, rx: Received)
    requires t.state == SynSent ==> t.sndUna == t.iss
    ensures Resets(Arrive(t, s, accepts, rx).1) == if Offends(t, s) then ResetFor(s) else []
  {
    AnswerIsReset(s);
    if t.state == SynSent {
      forall g | g in {AckSegment(OnSynSent(t, s).0), SynAckSegment(OnSynSent(t, s).0)} ensures Resets([g]) == [] {
        OneNoReset(g);
      }
    } else if t.state != Closed && t.state != Listen {
      if SeqCheck(t, s) {
        FieldsResets(t, s, accepts, rx);
        var (t1, out) := Fields(t, s, accepts, rx);
        DroppedResets(t1, s, out);
      } else {
        DroppedResets(if s.rst then t else t.(ackNow := true), s, []);
      }
    }
  }

  /** A listener makes a child for a SYN alone, answers an acknowledgment by a reset, and takes no notice of the rest. */
  lemma ListenIff(s: Segment, iss: u32)
    ensures var (o, out) := OnListen(s, iss);
            && (o.Some? <==> s.syn && !s.ack && !s.rst)
            && Resets(out) == (if s.ack then ResetFor(s) else [])
            && (o.None? && !s.ack ==> out == [])
  {
    AnswerIsReset(s);
    OneNoReset(SynAckSegment(FRESH.(state := SynRecv, irs := s.seqno, iss := iss, rcvNxt := Wrap32(s.seqno + 1))));
  }

  // ---- What a reset does ------------------------------------------------------------------

  /** A connect to a port nobody listens on: the answer to its SYN closes it. */
  lemma RefusedConnectCloses(t: Tcb, iss: u32, accepts: bool, rx: Received)
    requires t.state == Closed && iss <= LAST_ISS
    ensures var (t1, out) := Connect(t, iss);
            && |out| == 1 && |ResetFor(out[0])| == 1
            && Arrive(t1, ResetFor(out[0])[0], accepts, rx) == (t1.(state := Closed), [])
  {
    var (t1, out) := Connect(t, iss);
    assert out[0].Len() == 1;
    assert ResetFor(out[0])[0].AckNo() == iss + 1 == t1.sndNxt;
  }

  /** The answer by reset to anything a connection sent that acknowledges what it expects next closes it, and is not answered. */
  lemma ResetCloses(t: Tcb, s: Segment, accepts: bool, rx: Received)
    requires (Synchronized(t.state) || t.state == SynRecv) && s.ack && !s.rst && s.ackno == t.rcvNxt
    requires t.rcvNxt + SeqCheckProofs.Room(t) < U32_SIZE
    ensures |ResetFor(s)| == 1 && Arrive(t, ResetFor(s)[0], accepts, rx) == (t.(state := Closed), [])
  {
    var r := ResetFor(s)[0];
    assert r.Len() == 0 && SeqCheck(t, r);
    var none: seq<Segment> := [];
    assert none + none == none;
  }

  /** No reset is ever answered. */
  lemma ResetUnanswered(t: Tcb, s: Segment, accepts: bool, rx: Received)
    requires s.rst
    ensures Arrive(t, s, accepts, rx).1 == []
  {
    var none: seq<Segment> := [];
    assert none + none == none;
  }

  // ---- Before the connection is synchronized ----------------------------------------------

  /** SYN-SENT: where each segment leads, and the answer to a SYN. */
  lemma SynSentState(t: Tcb, s: Segment, accepts: bool, rx: Received)
    requires t.state == SynSent && t.sndUna == t.iss
    ensures var (t1, out) := Arrive(t, s, accepts, rx);
            if s.ack && !(t.iss < s.ackno <= t.sndNxt) then t1 == t
            else if s.rst then t1.state == (if s.ack then Closed else SynSent) && out == []
            else if !s.syn then t1 == t && out == []
            else
              && t1.irs == s.seqno && t1.rcvNxt == Wrap32(s.seqno + 1)
              && (if s.ack then t1.state == Established && out == [AckSegment(t1)] else t1.state == SynRecv && out == [SynAckSegment(t1)])
  {
  }

  /** SYN-RECEIVED: reset and SYN close, an acknowledgment of the SYN that the accept queue takes opens, anything else waits. */
  lemma SynRecvState(t: Tcb, s: Segment, accepts: bool, rx: Received)
    requires t.state == SynRecv
    ensures Arrive(t, s, accepts, rx).0.state ==
            if !SeqCheck(t, s) then SynRecv
            else if s.rst || s.syn then Closed
            else if s.ack && t.sndUna <= s.ackno <= t.sndNxt && accepts then (if s.fin then CloseWait else Established)
            else SynRecv
  {
  }

  /** Two ends that open towards each other at once: the crossing SYNs lead to SYN-RECEIVED, and the SYN+ACK that answers them is old to both. */
  lemma CrossingSyns(ia: u32, ib: u32, accepts: bool, rx: Received, a: Tcb, b: Tcb)
    requires ia <= LAST_ISS && ib <= LAST_ISS
    requires a == Arrive(Connect(FRESH, ia).0, Connect(FRESH, ib).1[0], accepts, rx).0
    requires b == Arrive(Connect(FRESH, ib).0, Connect(FRESH, ia).1[0], accepts, rx).0
    ensures a.state == SynRecv && Arrive(Connect(FRESH, ia).0, Connect(FRESH, ib).1[0], accepts, rx).1 == [SynAckSegment(a)]
    ensures Arrive(b, SynAckSegment(a), accepts, rx) == (b.(ackNow := true), [AckSegment(b)])
    ensures AckSegment(b).ackno == a.sndNxt && AckSegment(b).seqno == a.rcvNxt
  {
    SynSentState(Connect(FRESH, ia).0, Connect(FRESH, ib).1[0], accepts, rx);
    SynSentState(Connect(FRESH, ib).0, Connect(FRESH, ia).1[0], accepts, rx);
    assert SynAckSegment(a).LastSeq() == ia;
    UnacceptableIsAnswered(b, SynAckSegment(a), accepts, rx);
  }

  // ---- Calls ------------------------------------------------------------------------------

  /** A close call takes every block that can be closed on to a later phase, and TIME-WAIT ends. */
  lemma CallsGoOn(h: History)
    requires Accounts(h)
    ensures R.Phase(Step(h, UserClose).tcb.state) > R.Phase(h.tcb.state) <==>
            h.tcb.state == Listen || h.tcb.state == Established || h.tcb.state == CloseWait
    ensures R.Phase(Step(h, Timeout).tcb.state) > R.Phase(h.tcb.state) <==> h.tcb.state == TimeWait
  {
  }

  /** A connect that was interrupted, or came back without a connection, never carries text in any run that follows. */
  lemma FailedConnectIsSilent(h: History, err: bool, es: seq<Event>)
    requires Accounts(h) && h.waiting && (err || h.tcb.state != Established)
    ensures Accounts(Step(h, ConnectReturns(err)))
    ensures var h1 := Run(Step(h, ConnectReturns(err)), es);
            (h1.tcb.state == Closed || h1.tcb.state == Listen) && h1.text == h.text && h1.fins == h.fins
  {
    StepAdvances(h, ConnectReturns(err));
    R.NeverReconnects(Step(h, ConnectReturns(err)), es);
  }
}
