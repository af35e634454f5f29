/** What an arriving segment acknowledges and where it takes the connection, and what every segment sent announces. */
module TcpAcks {
  import opened Words
  import opened TcpControl
  import opened S = SendSide

  function Max(a: int, b: int): int {
    if a < b then b else a
  }

  // ---- Acknowledgments let in -------------------------------------------------------------

  /** An acceptable segment whose ACK field is looked at. */
  ghost predicate Heeded(t: Tcb, s: Segment) {
    SeqCheck(t, s) && s.ack && !s.rst && !s.syn
  }

  /** The acknowledgment number counts: it covers nothing that was not sent, and the state takes acknowledgments. */
  ghost predicate LetIn(t: Tcb, s: Segment, accepts: bool) {
    match t.state
    case SynSent => s.ack && s.syn && !s.rst && t.iss < s.ackno <= t.sndNxt
    case SynRecv => Heeded(t, s) && accepts && t.sndUna <= s.ackno <= t.sndNxt
    case Established | CloseWait | FinWait1 | Closing | LastAck => Heeded(t, s) && s.ackno <= t.sndNxt
    case _ => false
  }

  ghost function UnaAfter(t: Tcb, s: Segment, accepts: bool): int {
    if LetIn(t, s, accepts) then Max(t.sndUna, s.ackno) else t.sndUna
  }

  lemma AckFieldMoves(t: Tcb, s: Segment, accepts: bool)
    requires s.ack
    ensures AckField(t, s, accepts).0.sndUna ==
            if t.state == SynRecv then (if accepts && t.sndUna <= s.ackno <= t.sndNxt then s.ackno else t.sndUna)
            else if AcksInState(t.state) && s.ackno <= t.sndNxt then Max(t.sndUna, s.ackno)
            else t.sndUna
  {
  }

  lemma FieldsMove(t: Tcb, s: Segment, accepts: bool, rx: Received)
    requires SeqCheck(t, s) && t.state != SynSent
    ensures Fields(t, s, accepts, rx).0.sndUna == UnaAfter(t, s, accepts)
  {
    var t0 := if s.syn then t.(state := Closed) else t;
    if s.ack {
      AckFieldMoves(t0, s, accepts);
    }
  }

  /** `snd_una` after any segment: the larger of itself and an acknowledgment number that counts. */
  lemma ArriveMoves(t: Tcb, s: Segment, accepts: bool, rx: Received)
    requires t.state == SynSent ==> t.sndUna == t.iss
    ensures Arrive(t, s, accepts, rx).0.sndUna == UnaAfter(t, s, accepts)
  {
    if t.state != Closed && t.state != Listen && t.state != SynSent && SeqCheck(t, s) {
      FieldsMove(t, s, accepts, rx);
    }
  }

  lemma StepMoves(h: History, e: Event)
    requires Accounts(h) && h.begun
    ensures Step(h, e).tcb.sndUna == if e.Arrives? then UnaAfter(h.tcb, e.s, e.accepts) else h.tcb.sndUna
  {
    match e
    case Arrives(s, accepts, rx) => ArriveMoves(h.tcb, s, accepts, rx);
    case Send(data, segsize) => SendEmits(h.tcb, data, segsize + 41);
    case _ =>
  }

  /** The largest of `top` and the acknowledgment numbers let in over a run. */
  ghost function Largest(h: History, es: seq<Event>, top: int): int
    decreases es
  {
    if es == [] then top
    else
      var e := es[0];
      Largest(Step(h, e), es[1..], if e.Arrives? && LetIn(h.tcb, e.s, e.accepts) then Max(top, e.s.ackno) else top)
  }

  /** From any point of a connection on, `snd_una` is the largest acknowledgment number let in. */
  lemma {:induction false} UnaIsLargest(h: History, es: seq<Event>)
    requires Accounts(h) && h.begun
    ensures Run(h, es).tcb.sndUna == Largest(h, es, h.tcb.sndUna)
    decreases es
  {
    if es != [] {
      StepAdvances(h, es[0]);
      StepMoves(h, es[0]);
      UnaIsLargest(Step(h, es[0]), es[1..]);
    }
  }

  // ---- Closing ----------------------------------------------------------------------------

  /** Section 3.9 of RFC 793 as the code reads it: `acked` says that the segment acknowledges something new, `beyond` that it acknowledges what was not sent. */
  function NextState(st: State, acked: bool, beyond: bool, fin: bool): State {
    match st
    case Established => if fin && !beyond then CloseWait else Established
    case FinWait1 =>
      if beyond then FinWait1
      else if acked then (if fin then TimeWait else FinWait2)
      else if fin then State.Closing
      else FinWait1
    case FinWait2 => if fin then TimeWait else FinWait2
    case Closing => if acked then TimeWait else State.Closing
    case LastAck => if acked then Closed else LastAck
    case other => other
  }

  predicate Synchronized(st: State) {
    st != Closed && st != Listen && st != SynSent && st != SynRecv
  }

  predicate NewAck(t: Tcb, s: Segment) {
    t.sndUna < s.ackno <= t.sndNxt
  }

  /** The ACK field in a synchronized state: where it leads, and whether the segment is read on. */
  lemma AckState(t: Tcb, s: Segment, accepts: bool)
    requires Synchronized(t.state) && s.ack
    ensures var (t1, go, out) := AckField(t, s, accepts);
            && t1.state == NextState(t.state, NewAck(t, s), s.ackno > t.sndNxt, false)
            && (go <==> !AcksInState(t.state) || (s.ackno <= t.sndNxt && !((t.state == State.Closing || t.state == LastAck) && NewAck(t, s))))
  {
  }

  lemma FinState(t: Tcb, s: Segment, rx: Received)
    requires Synchronized(t.state)
    ensures FinField(TextField(t, s, rx), s).state == NextState(t.state, false, false, s.fin)
  {
  }

  lemma FieldsState(t: Tcb, s: Segment, accepts: bool, rx: Received)
    requires Synchronized(t.state) && Heeded(t, s)
    ensures Fields(t, s, accepts, rx).0.state == NextState(t.state, NewAck(t, s), s.ackno > t.sndNxt, s.fin)
  {
    AckState(t, s, accepts);
    var (t1, go, _) := AckField(t, s, accepts);
    if go {
      FinState(t1, s, rx);
    }
  }

  /** The next state of a synchronized connection, for every segment. */
  lemma ArriveState(t: Tcb, s: Segment, accepts: bool, rx: Received)
    requires Synchronized(t.state)
    ensures Arrive(t, s, accepts, rx).0.state ==
            if !SeqCheck(t, s) then t.state
            else if s.rst || s.syn then Closed
            else if !s.ack then t.state
            else NextState(t.state, NewAck(t, s), s.ackno > t.sndNxt, s.fin)
  {
    if Heeded(t, s) {
      FieldsState(t, s, accepts, rx);
    }
  }

  lemma AckThenFin(t: Tcb, ack: Segment, fin: Segment, rx: Received)
    requires t.state == FinWait1 && !ack.fin && fin.fin && Heeded(t, ack) && NewAck(t, ack)
    requires Heeded(Arrive(t, ack, true, rx).0, fin)
    ensures Arrive(Arrive(t, ack, true, rx).0, fin, true, rx).0.state == TimeWait
  {
    ArriveState(t, ack, true, rx);
    ArriveState(Arrive(t, ack, true, rx).0, fin, true, rx);
  }

  lemma FinThenAck(t: Tcb, ack: Segment, fin: Segment, rx: Received)
    requires t.state == FinWait1 && !ack.fin && fin.fin && Heeded(t, fin) && fin.ackno <= t.sndUna <= t.sndNxt
    requires Heeded(Arrive(t, fin, true, rx).0, ack) && NewAck(Arrive(t, fin, true, rx).0, ack)
    ensures Arrive(Arrive(t, fin, true, rx).0, ack, true, rx).0.state == TimeWait
  {
    ArriveState(t, fin, true, rx);
    ArriveState(Arrive(t, fin, true, rx).0, ack, true, rx);
  }

  /** The acknowledgment of our FIN and the FIN of the peer end in TIME-WAIT, apart in either order or in one segment. */
  lemma CloseCompletes(t: Tcb, ack: Segment, fin: Segment, rx: Received, t1: Tcb, t2: Tcb)
    requires t.state == FinWait1 && !ack.fin && fin.fin && t.sndUna <= t.sndNxt
    requires t1 == Arrive(t, ack, true, rx).0 && t2 == Arrive(t, fin, true, rx).0
    ensures Heeded(t, ack) && NewAck(t, ack) && Heeded(t1, fin) ==> Arrive(t1, fin, true, rx).0.state == TimeWait
    ensures Heeded(t, fin) && fin.ackno <= t.sndUna && Heeded(t2, ack) && NewAck(t2, ack) ==> Arrive(t2, ack, true, rx).0.state == TimeWait
    ensures Heeded(t, fin) && NewAck(t, fin) ==> t2.state == TimeWait
  {
    if Heeded(t, ack) && NewAck(t, ack) && Heeded(t1, fin) {
      AckThenFin(t, ack, fin, rx);
    }
    if Heeded(t, fin) && fin.ackno <= t.sndUna && Heeded(t2, ack) && NewAck(t2, ack) {
      FinThenAck(t, ack, fin, rx);
    }
    ArriveState(t, fin, true, rx);
  }

  // ---- What every segment announces -------------------------------------------------------

  /** Apart from resets: the block's own window and next expected number, and its place in the send sequence. */
  ghost predicate Announces(s: Segment, t: Tcb) {
    !s.rst ==>
      && s.wnd == t.rcvWnd % U16_SIZE && (s.ack ==> s.ackno == t.rcvNxt)
      && (s.fin ==> Wrap32(s.seqno + 1) == t.sndNxt)
      && (!s.fin && !s.syn && s.text == [] ==> s.ack && s.seqno == t.sndNxt)
      && (s.syn ==> s.seqno == t.iss)
  }

  ghost predicate AllAnnounce(out: seq<Segment>, t: Tcb) {
    forall s :: s in out ==> Announces(s, t)
  }

  lemma {:induction false} TextAnnounces(next: u32, ackno: u32, wnd: u32, data: seq<byte>, segsize: nat, s: Segment, t: Tcb)
    requires segsize > 0 && s in TextSegments(next, ackno, wnd, data, segsize) && t.rcvNxt == ackno && t.rcvWnd == wnd
    ensures Announces(s, t)
    decreases |data|
  {
    var n := Min(segsize, |data|);
    var rest := TextSegments(Wrap32(next + n), ackno, wnd, data[n..], segsize);
    if s in rest {
      TextAnnounces(Wrap32(next + n), ackno, wnd, data[n..], segsize, s, t);
    } else {
      assert s == Bare(next, ackno, wnd).(ack := true, text := data[..n], psh := n == |data|);
    }
  }

  lemma SendAnnounces(t: Tcb, data: seq<byte>, mtu: nat)
    requires mtu > 40
    ensures var (t1, out, _) := SendCall(t, data, mtu); AllAnnounce(out, t1)
  {
    var (t1, out, n) := SendCall(t, data, mtu);
    forall s | s in out ensures Announces(s, t1) {
      TextAnnounces(t.sndNxt, t.rcvNxt, t.rcvWnd, data[..n], mtu - 40, s, t1);
    }
  }

  lemma FieldsAnnounce(t: Tcb, s: Segment, accepts: bool, rx: Received)
    ensures forall g :: g in Fields(t, s, accepts, rx).1 ==> g.rst
  {
  }

  lemma ArriveAnnounces(t: Tcb, s: Segment, accepts: bool, rx: Received)
    ensures var (t1, out) := Arrive(t, s, accepts, rx); AllAnnounce(out, t1)
  {
    FieldsAnnounce(t, s, accepts, rx);
  }

  /** Every segment a connection sends announces the window and the number its block has then. */
  lemma StepAnnounces(h: History, e: Event)
    ensures var (t1, out) := React(h, e); AllAnnounce(out, t1)
  {
    match e
    case Arrives(s, accepts, rx) => ArriveAnnounces(h.tcb, s, accepts, rx);
    case Send(data, segsize) => SendAnnounces(h.tcb, data, segsize + 41);
    case _ =>
  }

  /** An acceptable FIN is answered at once, by an acknowledgment of the number behind it. */
  lemma FinIsAnswered(t: Tcb, s: Segment, accepts: bool, rx: Received)
    requires Synchronized(t.state) && Heeded(t, s) && s.fin
    requires AcksInState(t.state) ==> s.ackno <= t.sndNxt
    requires t.state == State.Closing || t.state == LastAck ==> !NewAck(t, s)
    ensures var (t1, out) := Arrive(t, s, accepts, rx);
            t1.rcvNxt == Wrap32(s.seqno + 1) && out == [AckSegment(t1)]
  {
    var none: seq<Segment> := [];
    assert none + none == none;
    var t1 := Fields(t, s, accepts, rx).0;
    assert none + [AckSegment(t1)] == [AckSegment(t1)];
  }

  /** A segment outside the window changes nothing but is answered, unless it is a reset. */
  lemma UnacceptableIsAnswered(t: Tcb, s: Segment, accepts: bool, rx: Received)
    requires (Synchronized(t.state) || t.state == SynRecv) && !SeqCheck(t, s)
    ensures Arrive(t, s, accepts, rx) == if s.rst then (t, []) else (t.(ackNow := true), [AckSegment(t)])
  {
    var none: seq<Segment> := [];
    assert none + none == none && none + [AckSegment(t)] == [AckSegment(t)];
  }
}
