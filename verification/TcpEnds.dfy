/**
 The two ends of a connection with their control blocks and their receive sides, over a network that loses,
 duplicates and reorders segments, until the second of them closes: what an end holds for acknowledged has been
 delivered to the other end's buffer or user, and what a FIN does to that.
 */
module TcpEnds {
  import opened Words
  import opened TcpControl
  import R = TcpReceive
  import H = Handshake
  import S = SendSide
  import A = TcpAcks

  // ---- How far a receive side gets --------------------------------------------------------

  /** Every queued chunk ends at or before `hi`. */
  ghost predicate Within(q: seq<R.Chunk>, hi: nat) {
    q == [] || (q[0].End() <= hi && Within(q[1..], hi))
  }

  /** Nothing delivered or queued is numbered `hi` or above, and the window is what is free of the default window. */
  ghost predicate Reach(r: R.Receiver, hi: nat) {
    && R.BufferOk(r) && r.wnd + |r.Pending()| == DEFAULT_WINDOW
    && r.nxt <= hi && Within(r.queue, hi)
  }

  lemma {:induction false} WithinFrom(q: seq<R.Chunk>, hi: nat, more: nat)
    requires Within(q, hi) && hi <= more
    ensures Within(q, more)
  {
    if q != [] {
      WithinFrom(q[1..], hi, more);
    }
  }

  lemma {:induction false} AbsorbWithin(q: seq<R.Chunk>, c: R.Chunk, hi: nat)
    requires Within(q, hi) && c.End() <= hi
    ensures Within(R.Absorb(q, c).0, hi)
  {
    if q != [] {
      if c.End() < q[0].End() {
        var q1 := R.Absorb(q, c).0;
        assert q1 != q ==> q1[1..] == q;
      } else {
        AbsorbWithin(q[1..], c, hi);
      }
    }
  }

  lemma {:induction false} MergeWithin(q: seq<R.Chunk>, c: R.Chunk, hi: nat)
    requires Within(q, hi) && c.End() <= hi
    ensures Within(R.Merge(q, c).0, hi)
  {
    if q == [] {
    } else if c.start < q[0].start {
      AbsorbWithin(q, c, hi);
    } else if |q| == 1 {
      assert R.Merge(q, c).0[1..] == [c];
    } else if c.start < q[1].start {
      var o := R.Trim(c, q[0].End());
      if o.Some? {
        AbsorbWithin(q[1..], o.value, hi);
        assert R.Merge(q, c).0[1..] == R.Absorb(q[1..], o.value).0;
      }
    } else {
      MergeWithin(q[1..], c, hi);
      assert R.Merge(q, c).0[1..] == R.Merge(q[1..], c).0;
    }
  }

  lemma WriteReaches(r: R.Receiver, text: seq<byte>, hi: nat)
    requires Reach(r, hi) && r.nxt + |text| <= hi
    ensures Reach(R.WriteBuf(r, text).0, hi) && r.nxt <= R.WriteBuf(r, text).0.nxt
  {
  }

  /** A step of the receive side from `r`, if it ends, moves `rcv_nxt` only forward and stays below `hi`. */
  ghost predicate Reached(r: R.Receiver, o: R.Outcome, hi: nat) {
    o.Running? ==> Reach(o.r, hi) && r.nxt <= o.r.nxt
  }

  lemma {:induction false} DrainReaches(r: R.Receiver, hi: nat)
    requires Reach(r, hi)
    ensures Reached(r, R.Drain(r), hi)
    decreases |r.queue|
  {
    if r.queue != [] && r.queue[0].start == r.nxt {
      WriteReaches(r, r.queue[0].text, hi);
      var r1 := R.WriteBuf(r, r.queue[0].text).0;
      DrainReaches(r1.(queue := r.queue[1..]), hi);
    }
  }

  lemma ReassReaches(r: R.Receiver, c: R.Chunk, psh: bool, hi: nat)
    requires Reach(r, hi) && c.End() <= hi
    ensures Reached(r, R.SegmentReass(r, c, psh), hi)
  {
    MergeWithin(r.queue, c, hi);
    DrainReaches(r.(queue := R.Merge(r.queue, c).0), hi);
  }

  /** Whatever is queued, text that ends at or before `hi` takes the receive side no further than `hi`. */
  lemma TextReaches(r: R.Receiver, c: R.Chunk, psh: bool, hi: nat)
    requires Reach(r, hi) && c.End() <= hi
    ensures Reached(r, R.RecvText(r, c, psh), hi)
  {
    var t := R.Trim(c, r.nxt);
    if r.wnd > 0 && t.Some? {
      if r.nxt == t.value.start && r.queue == [] {
        WriteReaches(r, t.value.text, hi);
      } else {
        ReassReaches(r, t.value, psh, hi);
      }
    }
  }

  lemma ReadReaches(r: R.Receiver, len: nat, hi: nat)
    requires Reach(r, hi)
    ensures Reach(R.RecvBuf(r, len), hi) && R.RecvBuf(r, len).nxt == r.nxt
  {
  }

  // ---- The two ends -----------------------------------------------------------------------

  datatype End = End(t: Tcb, r: R.Receiver)

  /** Both ends and every segment ever sent to each; `me` is the end the next action is about. */
  datatype Pair = Pair(me: End, peer: End, toMe: set<Segment>, toPeer: set<Segment>)

  function Turn(w: Pair): Pair {
    Pair(w.peer, w.me, w.toPeer, w.toMe)
  }

  datatype Act =
    | Send(data: seq<byte>, segsize: nat)
    | Deliver(s: Segment, accepts: bool)
    | Read(len: nat)
    | Close

  /** An action at one end; `turned` says that it is the other one. */
  datatype Event = Event(turned: bool, act: Act)

  /** The FIN of this end has gone out. */
  predicate Closing(st: State) {
    st == FinWait1 || st == FinWait2
  }

  /** A segment is processed beyond its ACK field. */
  predicate GoesOn(t: Tcb, s: Segment, accepts: bool) {
    SeqCheck(t, s) && (t.state == SynRecv ==> accepts)
  }

  /** The text of a segment reaches `tcp_recv_text`. */
  predicate Texted(t: Tcb, s: Segment, accepts: bool) {
    GoesOn(t, s, accepts) && t.state != CloseWait && (s.psh || s.text != [])
  }

  /** A FIN pushes what is buffered. */
  function Noted(t: Tcb, s: Segment, accepts: bool, r: R.Receiver): R.Receiver {
    if GoesOn(t, s, accepts) && s.fin && (t.state == SynRecv || t.state == Established) then R.NoteFin(r) else r
  }

  function TextOf(s: Segment): R.Chunk {
    R.Chunk(s.seqno, s.text)
  }

  /** The handler of an arriving segment with the receive side it calls. */
  ghost function Receive(x: End, s: Segment, accepts: bool): Option<(End, seq<Segment>)>
    requires R.BufferOk(x.r)
  {
    var o := if Texted(x.t, s, accepts) then R.RecvText(x.r, TextOf(s), s.psh) else R.Running(x.r);
    match o
    case Running(r1) =>
      var (t1, out) := Arrive(x.t, s, accepts, Received(Wrap32(r1.nxt), Wrap32(r1.wnd), R.Answered(x.r, TextOf(s))));
      Some((End(t1, Noted(x.t, s, accepts, r1)), out))
    case _ => None
  }

  /** One action of `me`; `None` is a failed assertion or an overread. The end that did not close first stays open. */
  ghost function Local(w: Pair, act: Act): Option<Pair>
    requires R.BufferOk(w.me.r)
  {
    match act
    case Send(data, segsize) =>
      var (t, out, _) := SendCall(w.me.t, data, segsize + 41);
      Some(w.(me := w.me.(t := t), toPeer := w.toPeer + H.Sent(out)))
    case Deliver(s, accepts) =>
      if s !in w.toMe then Some(w)
      else
        var o := Receive(w.me, s, accepts);
        if o.None? then None else Some(w.(me := o.value.0, toPeer := w.toPeer + H.Sent(o.value.1)))
    case Read(len) =>
      var r := R.RecvBuf(w.me.r, len);
      Some(w.(me := End(w.me.t.(rcvWnd := Wrap32(r.wnd)), r)))
    case Close =>
      if w.me.t.state != Established || Closing(w.peer.t.state) then Some(w)
      else
        var (t, out) := CloseCall(w.me.t);
        Some(w.(me := w.me.(t := t), toPeer := w.toPeer + H.Sent(out)))
  }

  /** What is sent stays inside the 32-bit sequence space. */
  ghost predicate Fits(w: Pair, act: Act) {
    match act
    case Send(data, segsize) => w.me.t.sndNxt + SendCall(w.me.t, data, segsize + 41).2 < U32_SIZE
    case Close => w.me.t.sndNxt + 1 < U32_SIZE
    case _ => true
  }

  // ---- The invariant ----------------------------------------------------------------------

  /** The number after the last byte of text sent. */
  ghost function TextEnd(x: End): int {
    x.t.sndNxt - if Closing(x.t.state) then 1 else 0
  }

  ghost predicate EndOk(x: End) {
    && (x.t.state == Established || x.t.state == CloseWait || Closing(x.t.state)
        || (x.t.state == SynRecv && x.t.sndUna == x.t.iss && x.t.sndNxt == x.t.iss + 1))
    && x.t.rcvWnd == x.r.wnd
    && (x.t.state == CloseWait ==> x.r.push || x.r.Pending() == [])
  }

  /** A segment from `x` to `y`: no reset, a SYN only from before, text below the end of text and the FIN at it. */
  ghost predicate Fine(s: Segment, x: End, y: End) {
    !s.rst &&
    if s.syn then s.text == [] && !s.fin && s.seqno < y.r.nxt
    else
      && s.ack && s.ackno > y.t.iss
      && (s.psh ==> s.text != []) && (s.text != [] ==> !s.fin && s.seqno + |s.text| <= TextEnd(x))
      && (s.fin ==> Closing(x.t.state) && s.seqno == TextEnd(x))
  }

  /** What `y` expects next from `x`: past the FIN once it was let in, and before that what was not delivered yet. */
  ghost predicate Expects(x: End, y: End) {
    if y.t.state == CloseWait then Closing(x.t.state) && y.t.rcvNxt == TextEnd(x) + 1 else y.t.rcvNxt == y.r.nxt
  }

  ghost predicate Answers(toX: set<Segment>, n: int) {
    exists s :: s in toX && s.AckNo() == n
  }

  /** From `x` to `y`: acknowledged, then expected; delivered, then sent; and so for every segment on its way. */
  ghost predicate Flows(x: End, y: End, toX: set<Segment>, toY: set<Segment>) {
    && Expects(x, y) && x.t.sndUna <= y.t.rcvNxt
    && x.t.iss < y.r.nxt <= TextEnd(x) && Reach(y.r, TextEnd(x))
    && (forall s :: s in toY ==> Fine(s, x, y))
    && (forall s :: s in toX ==> s.AckNo() <= y.t.rcvNxt)
    && (y.t.state == CloseWait ==> Answers(toX, TextEnd(x) + 1))
  }

  ghost predicate Inv(w: Pair) {
    && EndOk(w.me) && EndOk(w.peer) && !(Closing(w.me.t.state) && Closing(w.peer.t.state))
    && Flows(w.me, w.peer, w.toMe, w.toPeer) && Flows(w.peer, w.me, w.toPeer, w.toMe)
  }

  /** The segment announces the free space and the number expected next. */
  ghost predicate Offers(x: End, s: Segment) {
    s.ack && s.ackno == x.t.rcvNxt && s.wnd == x.r.wnd
  }

  /** What a step of `x` may send to `y`. */
  ghost predicate Sends(x: End, y: End, out: set<Segment>) {
    forall s :: s in out ==> Fine(s, x, y) && Offers(x, s)
  }

  /** The sender's side of a step of `x`. */
  lemma SenderStep(x: End, x1: End, y: End, toX: set<Segment>, toY: set<Segment>, out: set<Segment>)
    requires Flows(x, y, toX, toY) && Sends(x1, y, out) && x1.t.iss == x.t.iss
    requires TextEnd(x) <= TextEnd(x1) && (Closing(x.t.state) ==> Closing(x1.t.state) && TextEnd(x) == TextEnd(x1))
    requires x1.t.sndUna <= y.t.rcvNxt
    ensures Flows(x1, y, toX, toY + out)
  {
    WithinFrom(y.r.queue, TextEnd(x), TextEnd(x1));
    forall s | s in toY ensures Fine(s, x1, y) {
      assert Fine(s, x, y);
    }
  }

  /** The receiver's side of a step of `x`. */
  lemma ReceiverStep(x: End, x1: End, y: End, toX: set<Segment>, toY: set<Segment>, out: set<Segment>)
    requires Flows(y, x, toY, toX) && Sends(x1, y, out) && x1.t.iss == x.t.iss
    requires x.r.nxt <= x1.r.nxt <= TextEnd(y) && Reach(x1.r, TextEnd(y)) && Expects(y, x1) && x.t.rcvNxt <= x1.t.rcvNxt
    requires x1.t.state == CloseWait ==> Answers(toY + out, TextEnd(y) + 1)
    ensures Flows(y, x1, toY + out, toX)
  {
    forall s | s in toX ensures Fine(s, y, x1) {
      assert Fine(s, y, x);
    }
  }

  // ---- Deliveries -------------------------------------------------------------------------

  /** A segment the block of an end may find. */
  ghost predicate Arrivable(t: Tcb, s: Segment) {
    && !s.rst && (s.syn ==> !SeqCheck(t, s))
    && (!s.syn ==> s.ack && s.ackno <= t.sndNxt && (t.state == SynRecv ==> t.sndUna <= s.ackno))
    && (s.fin ==> !Closing(t.state) && s.text == [] && !s.psh)
  }

  ghost predicate Live(t: Tcb) {
    t.state == Established || t.state == CloseWait || Closing(t.state) || t.state == SynRecv
  }

  /** The state an end is in after a segment. */
  ghost predicate Next(t: Tcb, s: Segment, accepts: bool, st: State) {
    if GoesOn(t, s, accepts) && s.fin then st == CloseWait
    else if t.state == SynRecv then st == if GoesOn(t, s, accepts) then Established else SynRecv
    else if t.state == FinWait1 then Closing(st)
    else st == t.state
  }

  lemma AckArrives(t: Tcb, s: Segment, accepts: bool)
    requires Live(t) && Arrivable(t, s) && SeqCheck(t, s)
    ensures var (t1, go, out) := AckField(t, s, accepts);
            && out == [] && (go <==> GoesOn(t, s, accepts))
            && t1 == t.(state := t1.state, sndUna := t1.sndUna, sndWnd := t1.sndWnd, sndWl1 := t1.sndWl1, sndWl2 := t1.sndWl2)
            && (t1.sndUna == t.sndUna || t1.sndUna == s.AckNo())
            && (if t.state == SynRecv then t1.state == if accepts then Established else SynRecv
                else if t.state == FinWait1 then Closing(t1.state) else t1.state == t.state)
  {
  }

  lemma FieldsArrive(t: Tcb, s: Segment, accepts: bool, rx: Received)
    requires Live(t) && Arrivable(t, s) && SeqCheck(t, s)
    ensures var (t1, out) := Fields(t, s, accepts, rx);
            && out == [] && t1.sndNxt == t.sndNxt && t1.iss == t.iss
            && Next(t, s, accepts, t1.state)
            && t1.rcvNxt == (if GoesOn(t, s, accepts) && s.fin then Wrap32(s.seqno + 1) else if Texted(t, s, accepts) then rx.nxt else t.rcvNxt)
            && t1.rcvWnd == (if Texted(t, s, accepts) then rx.wnd else t.rcvWnd)
            && ((GoesOn(t, s, accepts) && s.fin) || (Texted(t, s, accepts) && rx.ackNow) ==> t1.ackNow)
  {
    var none: seq<Segment> := [];
    assert none + none == none;
    AckArrives(t, s, accepts);
  }

  /** What an arriving segment does to the block of an end. */
  ghost predicate Arrived(t: Tcb, s: Segment, accepts: bool, rx: Received, t1: Tcb, out: seq<Segment>) {
    && t1.sndNxt == t.sndNxt && t1.iss == t.iss
    && t1.sndUna == A.UnaAfter(t, s, accepts)
    && Next(t, s, accepts, t1.state)
    && t1.rcvNxt == (if GoesOn(t, s, accepts) && s.fin then Wrap32(s.seqno + 1) else if Texted(t, s, accepts) then rx.nxt else t.rcvNxt)
    && t1.rcvWnd == (if Texted(t, s, accepts) then rx.wnd else t.rcvWnd)
    && (out == [AckSegment(t1)] || (out == [] && !(GoesOn(t, s, accepts) && s.fin) && !(Texted(t, s, accepts) && rx.ackNow)))
  }

  lemma Arrives(t: Tcb, s: Segment, accepts: bool, rx: Received)
    requires Live(t) && Arrivable(t, s)
    ensures var (t1, out) := Arrive(t, s, accepts, rx); Arrived(t, s, accepts, rx, t1, out)
  {
    var none: seq<Segment> := [];
    assert none + none == none;
    A.ArriveMoves(t, s, accepts, rx);
    if SeqCheck(t, s) {
      FieldsArrive(t, s, accepts, rx);
      AckArrives(t, s, accepts);
      var t1 := Fields(t, s, accepts, rx).0;
      assert none + [AckSegment(t1)] == [AckSegment(t1)];
    } else {
      var t0 := t.(ackNow := true);
      assert none + [AckSegment(t0)] == [AckSegment(t0)];
    }
  }

  /** A segment on its way to `x` is one its block may find. */
  lemma FineArrives(x: End, y: End, s: Segment, toX: set<Segment>, toY: set<Segment>)
    requires EndOk(x) && EndOk(y) && !(Closing(x.t.state) && Closing(y.t.state)) && s in toX
    requires Flows(x, y, toX, toY) && Flows(y, x, toY, toX)
    ensures Live(x.t) && Arrivable(x.t, s) && s.AckNo() <= y.t.rcvNxt <= x.t.sndNxt
  {
    assert Fine(s, y, x);
    if s.syn {
      assert s.Len() == 1;
    }
  }

  /** The receive side of `x` after a segment from `y`. */
  lemma TextStep(x: End, y: End, s: Segment, accepts: bool)
    requires TextEnd(y) >= 0 && Reach(x.r, TextEnd(y)) && Fine(s, y, x)
    requires SeqCheck(x.t, s) ==> !s.syn
    ensures Reached(x.r, if Texted(x.t, s, accepts) then R.RecvText(x.r, TextOf(s), s.psh) else R.Running(x.r), TextEnd(y))
  {
    if Texted(x.t, s, accepts) {
      TextReaches(x.r, TextOf(s), s.psh, TextEnd(y));
    }
  }

  /** What holds of an end after a segment it took from `y`, with its answer. */
  ghost predicate After(x: End, y: End, s: Segment, accepts: bool, x1: End, out: seq<Segment>) {
    && EndOk(x1) && x1.t.iss == x.t.iss && x1.t.sndNxt == x.t.sndNxt
    && (Closing(x.t.state) <==> Closing(x1.t.state))
    && x1.t.sndUna == A.UnaAfter(x.t, s, accepts) <= y.t.rcvNxt
    && x.r.nxt <= x1.r.nxt <= TextEnd(y) && Reach(x1.r, TextEnd(y)) && Expects(y, x1) && x.t.rcvNxt <= x1.t.rcvNxt
    && (x1.t.state == CloseWait <==> x.t.state == CloseWait || (s.fin && GoesOn(x.t, s, accepts)))
    && (x1.t.state == CloseWait ==> x1.r == Noted(x.t, s, accepts, x.r))
    && (Texted(x.t, s, accepts) && R.Answered(x.r, TextOf(s)) ==> out == [AckSegment(x1.t)])
    && (out == [AckSegment(x1.t)] || (out == [] && (x1.t.state == CloseWait ==> x.t.state == CloseWait)))
  }

  lemma FinAfter(x: End, y: End, s: Segment, accepts: bool, rx: Received, t1: Tcb, out: seq<Segment>)
    requires EndOk(x) && Live(x.t) && Arrivable(x.t, s) && Fine(s, y, x) && s.AckNo() <= y.t.rcvNxt && x.t.sndUna <= y.t.rcvNxt
    requires Expects(y, x) && x.r.nxt <= TextEnd(y) && Reach(x.r, TextEnd(y))
    requires Arrived(x.t, s, accepts, rx, t1, out) && s.fin && GoesOn(x.t, s, accepts)
    ensures After(x, y, s, accepts, End(t1, Noted(x.t, s, accepts, x.r)), out)
  {
  }

  lemma TextAfter(x: End, y: End, s: Segment, accepts: bool, r1: R.Receiver, t1: Tcb, out: seq<Segment>)
    requires EndOk(x) && Live(x.t) && Arrivable(x.t, s) && Fine(s, y, x) && s.AckNo() <= y.t.rcvNxt && x.t.sndUna <= y.t.rcvNxt
    requires Expects(y, x) && x.r.nxt <= r1.nxt <= TextEnd(y) && Reach(r1, TextEnd(y)) && (!Texted(x.t, s, accepts) ==> r1 == x.r)
    requires Arrived(x.t, s, accepts, Received(Wrap32(r1.nxt), Wrap32(r1.wnd), R.Answered(x.r, TextOf(s))), t1, out)
    requires !(s.fin && GoesOn(x.t, s, accepts))
    ensures After(x, y, s, accepts, End(t1, Noted(x.t, s, accepts, r1)), out)
  {
  }

  lemma EndAfter(x: End, y: End, s: Segment, accepts: bool, r1: R.Receiver)
    requires EndOk(x) && Live(x.t) && Arrivable(x.t, s) && Fine(s, y, x) && s.AckNo() <= y.t.rcvNxt && x.t.sndUna <= y.t.rcvNxt
    requires Expects(y, x) && x.r.nxt <= r1.nxt <= TextEnd(y) && Reach(r1, TextEnd(y)) && (!Texted(x.t, s, accepts) ==> r1 == x.r)
    ensures var (t1, out) := Arrive(x.t, s, accepts, Received(Wrap32(r1.nxt), Wrap32(r1.wnd), R.Answered(x.r, TextOf(s))));
            After(x, y, s, accepts, End(t1, Noted(x.t, s, accepts, r1)), out)
  {
    var rx := Received(Wrap32(r1.nxt), Wrap32(r1.wnd), R.Answered(x.r, TextOf(s)));
    var (t1, out) := Arrive(x.t, s, accepts, rx);
    Arrives(x.t, s, accepts, rx);
    if s.fin && GoesOn(x.t, s, accepts) {
      FinAfter(x, y, s, accepts, rx, t1, out);
    } else {
      TextAfter(x, y, s, accepts, r1, t1, out);
    }
  }

  lemma ReceiveStep(x: End, y: End, s: Segment, accepts: bool, toX: set<Segment>, toY: set<Segment>)
    requires EndOk(x) && EndOk(y) && !(Closing(x.t.state) && Closing(y.t.state)) && s in toX
    requires Flows(x, y, toX, toY) && Flows(y, x, toY, toX)
    ensures var o := Receive(x, s, accepts);
            o.Some? ==> After(x, y, s, accepts, o.value.0, o.value.1)
  {
    FineArrives(x, y, s, toX, toY);
    TextStep(x, y, s, accepts);
    var o := if Texted(x.t, s, accepts) then R.RecvText(x.r, TextOf(s), s.psh) else R.Running(x.r);
    if o.Running? {
      EndAfter(x, y, s, accepts, o.r);
    }
  }

  lemma AckSends(x: End, y: End, out: seq<Segment>)
    requires y.t.iss < x.t.rcvNxt && x.t.rcvWnd == x.r.wnd <= DEFAULT_WINDOW && (out == [] || out == [AckSegment(x.t)])
    ensures Sends(x, y, H.Sent(out))
    ensures out != [] ==> AckSegment(x.t) in H.Sent(out) && AckSegment(x.t).AckNo() == x.t.rcvNxt
  {
    H.SentOne(AckSegment(x.t));
  }

  // ---- Steps ------------------------------------------------------------------------------

  /** A FIN is let in. */
  ghost predicate FinIn(w: Pair, act: Act) {
    act.Deliver? && act.s in w.toMe && act.s.fin && GoesOn(w.me.t, act.s, act.accepts)
  }

  /** What an action leaves alone, and when an end comes to wait for its user to close. */
  ghost predicate Moved(w: Pair, act: Act, w1: Pair) {
    && w1.peer == w.peer && w1.toMe == w.toMe && w.toPeer <= w1.toPeer
    && (w.peer.t.state == CloseWait ==> TextEnd(w1.me) == TextEnd(w.me))
    && (w1.me.t.state == CloseWait <==> w.me.t.state == CloseWait || FinIn(w, act))
    && (w1.me.t.state == CloseWait ==> w1.me.r.nxt == w.me.r.nxt)
    && (forall s :: s in w1.toPeer ==> s in w.toPeer || Offers(w1.me, s))
  }

  lemma DeliverKeeps(w: Pair, s: Segment, accepts: bool)
    requires Inv(w)
    ensures var o := Local(w, Deliver(s, accepts));
            o.Some? ==> Inv(o.value) && Moved(w, Deliver(s, accepts), o.value)
  {
    if s in w.toMe {
      ReceiveStep(w.me, w.peer, s, accepts, w.toMe, w.toPeer);
      var o := Receive(w.me, s, accepts);
      if o.Some? {
        var (x1, out) := o.value;
        AckSends(x1, w.peer, out);
        SenderStep(w.me, x1, w.peer, w.toMe, w.toPeer, H.Sent(out));
        ReceiverStep(w.me, x1, w.peer, w.toMe, w.toPeer, H.Sent(out));
      }
    }
  }

  /** The segments of a send end at the new `snd_nxt` at most. */
  lemma {:induction false} TextEnds(next: u32, ackno: u32, wnd: u32, data: seq<byte>, segsize: nat, g: Segment)
    requires segsize > 0 && next + |data| < U32_SIZE && g in TextSegments(next, ackno, wnd, data, segsize)
    ensures !g.rst && !g.fin && !g.syn && g.ack && g.ackno == ackno && g.wnd == wnd % U16_SIZE
    ensures g.text != [] && g.seqno + |g.text| <= next + |data|
    decreases |data|
  {
    var n := Min(segsize, |data|);
    var rest := TextSegments(next + n, ackno, wnd, data[n..], segsize);
    if g in rest {
      TextEnds(next + n, ackno, wnd, data[n..], segsize, g);
    } else {
      assert g == Bare(next, ackno, wnd).(ack := true, text := data[..n], psh := n == |data|);
    }
  }

  lemma TextSends(x: End, y: End, next: u32, ackno: u32, wnd: u32, data: seq<byte>, segsize: nat)
    requires segsize > 0 && next + |data| < U32_SIZE && next + |data| == TextEnd(x) && y.t.iss < ackno == x.t.rcvNxt
    requires wnd == x.r.wnd <= DEFAULT_WINDOW
    ensures Sends(x, y, H.Sent(TextSegments(next, ackno, wnd, data, segsize)))
  {
    forall g | g in TextSegments(next, ackno, wnd, data, segsize) ensures Fine(g, x, y) && Offers(x, g) {
      TextEnds(next, ackno, wnd, data, segsize, g);
    }
  }

  lemma SendStep(x: End, y: End, data: seq<byte>, mtu: nat)
    requires EndOk(x) && mtu > 40 && x.t.sndNxt + SendCall(x.t, data, mtu).2 < U32_SIZE && y.t.iss < x.t.rcvNxt && x.r.wnd <= DEFAULT_WINDOW
    ensures var (t, out, n) := SendCall(x.t, data, mtu);
            && t == x.t.(sndNxt := t.sndNxt, sndWnd := t.sndWnd) && x.t.sndNxt <= t.sndNxt
            && (t.sndNxt == x.t.sndNxt || x.t.state == Established || x.t.state == CloseWait)
            && Sends(x.(t := t), y, H.Sent(out))
  {
    var (t, out, n) := SendCall(x.t, data, mtu);
    if n > 0 {
      TextSends(x.(t := t), y, x.t.sndNxt, x.t.rcvNxt, x.t.rcvWnd, data[..n], mtu - 40);
    }
  }

  /** A step of `me` that leaves its receive side alone. */
  lemma QuietReceiver(w: Pair, x1: End, out: set<Segment>)
    requires Inv(w) && Sends(x1, w.peer, out) && x1.r == w.me.r && x1.t.iss == w.me.t.iss && x1.t.rcvNxt == w.me.t.rcvNxt
    requires x1.t.state == CloseWait <==> w.me.t.state == CloseWait
    ensures Flows(w.peer, x1, w.toPeer + out, w.toMe)
  {
    if x1.t.state == CloseWait {
      var s :| s in w.toPeer && s.AckNo() == TextEnd(w.peer) + 1;
      assert s in w.toPeer + out;
    }
    ReceiverStep(w.me, x1, w.peer, w.toMe, w.toPeer, out);
  }

  lemma SendKeeps(w: Pair, data: seq<byte>, segsize: nat)
    requires Inv(w) && Fits(w, Send(data, segsize))
    ensures var w1 := Local(w, Send(data, segsize)).value; Inv(w1) && Moved(w, Send(data, segsize), w1)
  {
    SendStep(w.me, w.peer, data, segsize + 41);
    var (t, out, _) := SendCall(w.me.t, data, segsize + 41);
    var x1 := w.me.(t := t);
    SenderStep(w.me, x1, w.peer, w.toMe, w.toPeer, H.Sent(out));
    QuietReceiver(w, x1, H.Sent(out));
  }

  lemma CloseKeeps(w: Pair)
    requires Inv(w) && Fits(w, Close)
    ensures var w1 := Local(w, Close).value; Inv(w1) && Moved(w, Close, w1)
  {
    if w.me.t.state == Established && !Closing(w.peer.t.state) {
      var (t, out) := CloseCall(w.me.t);
      var x1 := w.me.(t := t);
      H.SentOne(FinSegment(w.me.t));
      assert TextEnd(x1) == TextEnd(w.me) && Fine(FinSegment(w.me.t), x1, w.peer);
      SenderStep(w.me, x1, w.peer, w.toMe, w.toPeer, H.Sent(out));
      QuietReceiver(w, x1, H.Sent(out));
    }
  }

  lemma ReadKeeps(w: Pair, len: nat)
    requires Inv(w)
    ensures var w1 := Local(w, Read(len)).value; Inv(w1) && Moved(w, Read(len), w1)
  {
    ReadReaches(w.me.r, len, TextEnd(w.peer));
    var r := R.RecvBuf(w.me.r, len);
    var x1 := End(w.me.t.(rcvWnd := Wrap32(r.wnd)), r);
    assert w.toPeer + {} == w.toPeer;
    SenderStep(w.me, x1, w.peer, w.toMe, w.toPeer, {});
    ReceiverStep(w.me, x1, w.peer, w.toMe, w.toPeer, {});
  }

  lemma LocalKeeps(w: Pair, act: Act)
    requires Inv(w) && Fits(w, act)
    ensures Local(w, act).Some? ==> Inv(Local(w, act).value) && Moved(w, act, Local(w, act).value)
  {
    match act
    case Send(data, segsize) => SendKeeps(w, data, segsize);
    case Deliver(s, accepts) => DeliverKeeps(w, s, accepts);
    case Read(len) => ReadKeeps(w, len);
    case Close => CloseKeeps(w);
  }

  // ---- Runs -------------------------------------------------------------------------------

  lemma TurnKeeps(w: Pair)
    ensures Inv(Turn(w)) <==> Inv(w)
  {
  }

  /** The pair as the end of the event sees it. */
  function View(w: Pair, e: Event): Pair {
    if e.turned then Turn(w) else w
  }

  ghost function Step(w: Pair, e: Event): Option<Pair>
    requires Inv(w)
  {
    match Local(View(w, e), e.act)
    case None => None
    case Some(w1) => Some(View(w1, e))
  }

  lemma StepKeeps(w: Pair, e: Event)
    requires Inv(w) && Fits(View(w, e), e.act)
    ensures Step(w, e).Some? ==> Inv(Step(w, e).value) && Moved(View(w, e), e.act, View(Step(w, e).value, e))
  {
    TurnKeeps(w);
    LocalKeeps(View(w, e), e.act);
    if Step(w, e).Some? {
      TurnKeeps(Step(w, e).value);
    }
  }

  /** The step is taken: nothing fails and what is sent fits the sequence space. */
  ghost predicate Goes(w: Pair, e: Event)
    requires Inv(w)
  {
    Fits(View(w, e), e.act) && Step(w, e).Some?
  }

  /** A run goes on while its steps are taken. */
  ghost function Run(w: Pair, es: seq<Event>): (w1: Pair)
    requires Inv(w)
    ensures Inv(w1)
    decreases |es|
  {
    if es == [] || !Goes(w, es[0]) then w
    else StepKeeps(w, es[0]); Run(Step(w, es[0]).value, es[1..])
  }

  /** The ends as a handshake leaves them once the opener is up, each with a receive side that has delivered nothing. */
  ghost function Joined(w: H.System): Pair
    requires w.child.Some?
  {
    Pair(End(w.opener, R.Fresh(w.opener.rcvNxt)), End(w.child.value, R.Fresh(w.child.value.rcvNxt)), w.toOpener, w.toChild)
  }

  lemma JoinedIsOk(w: H.System, ia: u32, ib: u32)
    requires H.Inv(w, ia, ib) && w.opener.state == Established
    ensures Inv(Joined(w))
  {
    var j := Joined(w);
    forall s | s in w.toChild ensures Fine(s, j.me, j.peer) && s.AckNo() <= j.me.t.rcvNxt {
      assert s == H.Syn(ia) || s == H.OpenerAck(ia, ib);
    }
    forall s | s in w.toOpener ensures Fine(s, j.peer, j.me) && s.AckNo() <= j.peer.t.rcvNxt {
      assert s == H.SynAck(ia, ib) || s == H.ChildAck(ia, ib);
    }
  }

  /**
   From any handshake that brought the opener up, whether the child is or not, over every run of sends, reads,
   deliveries and closes until the second end closes: what an end holds for acknowledged is what the other end
   expects next at most, which until a FIN was let in is what it delivered, and nothing is delivered that was not sent.
   */
  lemma AckedIsDelivered(actions: seq<H.Action>, ia: u32, ib: u32, es: seq<Event>, s: Segment)
    requires ia <= LAST_ISS && ib <= LAST_ISS && H.Run(H.START, actions, ia, ib).opener.state == Established
    ensures H.Run(H.START, actions, ia, ib).child.Some? && Inv(Joined(H.Run(H.START, actions, ia, ib)))
    ensures var w := Run(Joined(H.Run(H.START, actions, ia, ib)), es);
            && w.me.t.sndUna <= w.peer.t.rcvNxt && w.peer.r.nxt <= TextEnd(w.me)
            && w.peer.t.sndUna <= w.me.t.rcvNxt && w.me.r.nxt <= TextEnd(w.peer)
            && (w.peer.t.state != CloseWait ==> w.peer.t.rcvNxt == w.peer.r.nxt)
            && (w.me.t.state != CloseWait ==> w.me.t.rcvNxt == w.me.r.nxt)
            && (s in w.toMe ==> s.AckNo() <= w.peer.t.rcvNxt)
            && (s in w.toPeer ==> s.AckNo() <= w.me.t.rcvNxt)
  {
    H.RunKeeps(H.START, actions, ia, ib);
    JoinedIsOk(H.Run(H.START, actions, ia, ib), ia, ib);
  }

  // ---- Acknowledgments arrive -------------------------------------------------------------

  /** The newest acknowledgment of the other end, delivered in the window: all it expects next is acknowledged. */
  lemma AckIsTaken(w: Pair, s: Segment, accepts: bool)
    requires Inv(w) && s in w.toMe && s == AckSegment(w.peer.t)
    requires w.me.t.state != FinWait2 && GoesOn(w.me.t, s, accepts)
    ensures var o := Local(w, Deliver(s, accepts)); o.Some? && o.value.me.t.sndUna == w.peer.t.rcvNxt
  {
    FineArrives(w.me, w.peer, s, w.toMe, w.toPeer);
    ReceiveStep(w.me, w.peer, s, accepts, w.toMe, w.toPeer);
    assert Receive(w.me, s, accepts).Some?;
  }

  /** Text that is delivered is acknowledged at once, up to the last byte delivered. */
  lemma TextIsAnswered(w: Pair, s: Segment, accepts: bool)
    requires Inv(w) && s in w.toMe && Local(w, Deliver(s, accepts)).Some?
    ensures var w1 := Local(w, Deliver(s, accepts)).value;
            w1.me.r.nxt > w.me.r.nxt ==> AckSegment(w1.me.t) in w1.toPeer && AckSegment(w1.me.t).ackno == w1.me.r.nxt
  {
    ReceiveStep(w.me, w.peer, s, accepts, w.toMe, w.toPeer);
    var (x1, out) := Receive(w.me, s, accepts).value;
    H.SentOne(AckSegment(x1.t));
  }

  /** After a FIN no read sleeps: while text is buffered it is pushed, and with none left the read is refused. */
  lemma NoReadSleepsAfterFin(actions: seq<H.Action>, ia: u32, ib: u32, es: seq<Event>, len: nat)
    requires ia <= LAST_ISS && ib <= LAST_ISS && H.Run(H.START, actions, ia, ib).opener.state == Established
    ensures H.Run(H.START, actions, ia, ib).child.Some? && Inv(Joined(H.Run(H.START, actions, ia, ib)))
    ensures var w := Run(Joined(H.Run(H.START, actions, ia, ib)), es);
            && (w.me.t.state == CloseWait && w.me.r.Pending() != [] ==> !R.Blocks(w.me.r, len))
            && (w.peer.t.state == CloseWait && w.peer.r.Pending() != [] ==> !R.Blocks(w.peer.r, len))
  {
    H.RunKeeps(H.START, actions, ia, ib);
    JoinedIsOk(H.Run(H.START, actions, ia, ib), ia, ib);
  }

  /** Over every run each segment, when it is sent, announces what is free of the window and what is expected next. */
  ghost predicate AlwaysOffers(w: Pair, es: seq<Event>)
    requires Inv(w)
    decreases |es|
  {
    es == [] || !Goes(w, es[0]) ||
    (var v, v1 := View(w, es[0]), View(Step(w, es[0]).value, es[0]);
     && (forall s :: s in v1.toPeer && s !in v.toPeer ==> s.ack && s.ackno == v1.me.t.rcvNxt && s.wnd == DEFAULT_WINDOW - |v1.me.r.Pending()|)
     && (StepKeeps(w, es[0]); AlwaysOffers(Step(w, es[0]).value, es[1..])))
  }

  lemma {:induction false} WindowsAreFreeSpace(w: Pair, es: seq<Event>)
    requires Inv(w)
    ensures AlwaysOffers(w, es)
    decreases |es|
  {
    if es != [] && Goes(w, es[0]) {
      StepKeeps(w, es[0]);
      TurnKeeps(Step(w, es[0]).value);
      WindowsAreFreeSpace(Step(w, es[0]).value, es[1..]);
    }
  }

  // ---- What a FIN does --------------------------------------------------------------------

  /** A FIN that is let in sets `rcv_nxt` behind itself: all it acknowledges was delivered if and only if all in front of it was. */
  lemma FinAcknowledgesIff(x: End, s: Segment, accepts: bool, rx: Received)
    requires EndOk(x) && Arrivable(x.t, s) && s.fin && GoesOn(x.t, s, accepts) && s.seqno + 1 < U32_SIZE
    ensures var (t1, out) := Arrive(x.t, s, accepts, rx);
            && t1.state == CloseWait && out == [AckSegment(t1)]
            && (AckSegment(t1).ackno <= x.r.nxt + 1 <==> s.seqno <= x.r.nxt)
  {
    Arrives(x.t, s, accepts, rx);
  }

  /** Every acknowledgment on its way to `x` claims no text that `y` has not delivered; the FIN itself is no text. */
  ghost predicate Claims(x: End, y: End, toX: set<Segment>) {
    forall s :: s in toX ==> Min(s.AckNo(), TextEnd(x)) <= y.r.nxt
  }

  ghost predicate Honest(w: Pair) {
    Claims(w.me, w.peer, w.toMe) && Claims(w.peer, w.me, w.toPeer)
  }

  lemma ClaimsAre(x: End, y: End, toX: set<Segment>, toY: set<Segment>)
    requires Flows(x, y, toX, toY)
    ensures Claims(x, y, toX) <==> (y.t.state == CloseWait ==> y.r.nxt == TextEnd(x))
  {
    if y.t.state == CloseWait {
      var s :| s in toX && s.AckNo() == TextEnd(x) + 1;
      assert Claims(x, y, toX) ==> Min(s.AckNo(), TextEnd(x)) <= y.r.nxt;
    }
  }

  /** A FIN is let in before the text in front of it was delivered. */
  ghost predicate EarlyFin(w: Pair, act: Act) {
    FinIn(w, act) && w.me.t.state != CloseWait && w.me.r.nxt != act.s.seqno
  }

  /** An action makes an end claim text it has not delivered exactly when it is an early FIN. */
  lemma LocalHonest(w: Pair, act: Act)
    requires Inv(w) && Honest(w) && Fits(w, act) && Local(w, act).Some?
    ensures Honest(Local(w, act).value) <==> !EarlyFin(w, act)
  {
    var w1 := Local(w, act).value;
    LocalKeeps(w, act);
    ClaimsAre(w.me, w.peer, w.toMe, w.toPeer);
    ClaimsAre(w.peer, w.me, w.toPeer, w.toMe);
    ClaimsAre(w1.me, w1.peer, w1.toMe, w1.toPeer);
    ClaimsAre(w1.peer, w1.me, w1.toPeer, w1.toMe);
    if FinIn(w, act) {
      assert Fine(act.s, w.peer, w.me);
    }
  }

  lemma TurnHonest(w: Pair)
    ensures Honest(Turn(w)) <==> Honest(w)
  {
  }

  lemma StepHonest(w: Pair, e: Event)
    requires Inv(w) && Honest(w) && Goes(w, e)
    ensures Honest(Step(w, e).value) <==> !EarlyFin(View(w, e), e.act)
  {
    TurnKeeps(w);
    TurnHonest(w);
    LocalHonest(View(w, e), e.act);
    TurnHonest(Local(View(w, e), e.act).value);
  }

  /** At every point of the run no acknowledgment claims text that was not delivered. */
  ghost predicate HonestRun(w: Pair, es: seq<Event>)
    requires Inv(w)
    decreases |es|
  {
    Honest(w) && (es == [] || !Goes(w, es[0]) || (StepKeeps(w, es[0]); HonestRun(Step(w, es[0]).value, es[1..])))
  }

  /** Every FIN of the run that is let in finds the text in front of it delivered. */
  ghost predicate FinsInOrder(w: Pair, es: seq<Event>)
    requires Inv(w)
    decreases |es|
  {
    es == [] || !Goes(w, es[0]) ||
    (!EarlyFin(View(w, es[0]), es[0].act) && (StepKeeps(w, es[0]); FinsInOrder(Step(w, es[0]).value, es[1..])))
  }

  lemma {:induction false} HonestIff(w: Pair, es: seq<Event>)
    requires Inv(w) && Honest(w)
    ensures HonestRun(w, es) <==> FinsInOrder(w, es)
    decreases |es|
  {
    if es != [] && Goes(w, es[0]) {
      StepKeeps(w, es[0]);
      StepHonest(w, es[0]);
      if Honest(Step(w, es[0]).value) {
        HonestIff(Step(w, es[0]).value, es[1..]);
      }
    }
  }

  /**
   From any handshake that brought the opener up, a run never acknowledges text that was not delivered if and only if
   every FIN that is let in arrives after the text in front of it.
   */
  lemma AcksAreHonestIff(actions: seq<H.Action>, ia: u32, ib: u32, es: seq<Event>)
    requires ia <= LAST_ISS && ib <= LAST_ISS && H.Run(H.START, actions, ia, ib).opener.state == Established
    ensures H.Run(H.START, actions, ia, ib).child.Some? && Inv(Joined(H.Run(H.START, actions, ia, ib)))
    ensures var w := Joined(H.Run(H.START, actions, ia, ib)); HonestRun(w, es) <==> FinsInOrder(w, es)
  {
    var w := H.Run(H.START, actions, ia, ib);
    H.RunKeeps(H.START, actions, ia, ib);
    JoinedIsOk(w, ia, ib);
    var j := Joined(w);
    ClaimsAre(j.me, j.peer, j.toMe, j.toPeer);
    ClaimsAre(j.peer, j.me, j.toPeer, j.toMe);
    HonestIff(j, es);
  }

  /** After a FIN was let in, nothing more is delivered in any run: text that had not arrived is lost. */
  lemma {:induction false} NothingAfterFin(w: Pair, es: seq<Event>)
    requires Inv(w) && w.peer.t.state == CloseWait
    ensures var w1 := Run(w, es);
            && w1.peer.t.state == CloseWait && w1.peer.r.nxt == w.peer.r.nxt && TextEnd(w1.me) == TextEnd(w.me)
            && w.toPeer <= w1.toPeer
    decreases |es|
  {
    if es != [] && Goes(w, es[0]) {
      StepKeeps(w, es[0]);
      NothingAfterFin(Step(w, es[0]).value, es[1..]);
    }
  }

  /** The first byte of the opener, and the FIN behind it. */
  function FirstByte(ia: u32, ib: u32, b: byte): Segment {
    Bare(Wrap32(ia + 1), Wrap32(ib + 1), DEFAULT_WINDOW).(ack := true, text := [b], psh := true)
  }

  function FinBehind(ia: u32, ib: u32): Segment {
    Bare(Wrap32(ia + 2), Wrap32(ib + 1), DEFAULT_WINDOW).(ack := true, fin := true)
  }

  lemma RunStep(w: Pair, e: Event, es: seq<Event>)
    requires Inv(w) && Goes(w, e)
    ensures Inv(Step(w, e).value) && Run(w, [e] + es) == Run(Step(w, e).value, es)
  {
    StepKeeps(w, e);
    assert ([e] + es)[1..] == es;
  }

  lemma SendByte(x: End, b: byte, ia: u32, ib: u32)
    requires H.OpenerOk(x.t, ia, ib) && x.t.state == Established && ia + 2 < U32_SIZE && ib <= LAST_ISS
    ensures SendCall(x.t, [b], 41) == (x.t.(sndNxt := ia + 2, sndWnd := DEFAULT_WINDOW - 1), [FirstByte(ia, ib, b)], 1)
  {
    var none: seq<byte> := [];
    assert [b][..1] == [b] && [b][1..] == none;
    assert TextSegments(ia + 2, ib + 1, DEFAULT_WINDOW, none, 1) == [];
    assert TextSegments(ia + 1, ib + 1, DEFAULT_WINDOW, [b], 1) == [FirstByte(ia, ib, b)];
  }

  /** One byte is sent and then the FIN; the FIN arrives first. */
  function Overtaking(ia: u32, ib: u32, b: byte): (Event, Event, Event) {
    (Event(false, Send([b], 0)), Event(false, Close), Event(true, Deliver(FinBehind(ia, ib), true)))
  }

  /** `w1` is the pair after `e`. */
  ghost predicate Leads(w: Pair, e: Event, w1: Pair) {
    Inv(w) && Goes(w, e) && Step(w, e) == Some(w1) && Inv(w1)
  }

  lemma ByteGoes(w: Pair, ia: u32, ib: u32, b: byte) returns (w1: Pair)
    requires Inv(w) && H.OpenerOk(w.me.t, ia, ib) && w.me.t.state == Established && ia + 2 < U32_SIZE && ib <= LAST_ISS
    ensures Leads(w, Event(false, Send([b], 0)), w1) && FirstByte(ia, ib, b) in w1.toPeer && w1.peer == w.peer
    ensures w1.me.t == w.me.t.(sndNxt := ia + 2, sndWnd := DEFAULT_WINDOW - 1)
  {
    SendByte(w.me, b, ia, ib);
    H.SentOne(FirstByte(ia, ib, b));
    StepKeeps(w, Event(false, Send([b], 0)));
    w1 := w.(me := w.me.(t := w.me.t.(sndNxt := ia + 2, sndWnd := DEFAULT_WINDOW - 1)), toPeer := w.toPeer + {FirstByte(ia, ib, b)});
  }

  lemma FinGoes(w: Pair, fin: Segment) returns (w1: Pair)
    requires Inv(w) && w.me.t.state == Established && !Closing(w.peer.t.state) && w.me.t.sndNxt + 1 < U32_SIZE && fin == FinSegment(w.me.t)
    ensures Leads(w, Event(false, Close), w1) && w1.toPeer == w.toPeer + {fin} && w1.peer == w.peer && TextEnd(w1.me) == w.me.t.sndNxt
  {
    H.SentOne(fin);
    StepKeeps(w, Event(false, Close));
    w1 := w.(me := w.me.(t := CloseCall(w.me.t).0), toPeer := w.toPeer + {fin});
  }

  /** A FIN in the window is let in, whatever was delivered. */
  lemma FinArrives(w: Pair, fin: Segment) returns (w1: Pair)
    requires Inv(w) && fin in w.toPeer && fin.fin && SeqCheck(w.peer.t, fin)
    ensures Leads(w, Event(true, Deliver(fin, true)), w1) && w1.peer.t.state == CloseWait
    ensures w1.peer.r.nxt == w.peer.r.nxt && w1.me == w.me && w1.toPeer == w.toPeer
  {
    assert Fine(fin, w.me, w.peer);
    FineArrives(w.peer, w.me, fin, w.toPeer, w.toMe);
    var o := Receive(w.peer, fin, true);
    assert o.Some?;
    StepKeeps(w, Event(true, Deliver(fin, true)));
    w1 := w.(peer := o.value.0, toMe := w.toMe + H.Sent(o.value.1));
  }

  lemma RunThree(w0: Pair, w1: Pair, w2: Pair, w3: Pair, e1: Event, e2: Event, e3: Event, es: seq<Event>)
    requires Leads(w0, e1, w1) && Leads(w1, e2, w2) && Leads(w2, e3, w3)
    ensures Run(w0, [e1] + ([e2] + ([e3] + es))) == Run(w3, es)
  {
    RunStep(w0, e1, [e2] + ([e3] + es));
    RunStep(w1, e2, [e3] + es);
    RunStep(w2, e3, es);
  }

  lemma BothGo(w: Pair, ia: u32, ib: u32, b: byte) returns (w1: Pair, w2: Pair)
    requires Inv(w) && H.OpenerOk(w.me.t, ia, ib) && w.me.t.state == Established
    requires H.ChildOk(w.peer.t, ia, ib) && ia + 2 + DEFAULT_WINDOW < U32_SIZE && ib <= LAST_ISS
    ensures Leads(w, Event(false, Send([b], 0)), w1) && Leads(w1, Event(false, Close), w2) && w2.peer == w.peer
    ensures FirstByte(ia, ib, b) in w2.toPeer && FinBehind(ia, ib) in w2.toPeer && TextEnd(w2.me) == ia + 2
    ensures SeqCheck(w.peer.t, FinBehind(ia, ib))
  {
    w1 := ByteGoes(w, ia, ib, b);
    w2 := FinGoes(w1, FinBehind(ia, ib));
    assert FinBehind(ia, ib).LastSeq() == ia + 2;
  }

  lemma Overtaken(w: Pair, ia: u32, ib: u32, b: byte, es: seq<Event>) returns (w1: Pair)
    requires Inv(w) && H.OpenerOk(w.me.t, ia, ib) && w.me.t.state == Established
    requires H.ChildOk(w.peer.t, ia, ib) && ia + 2 + DEFAULT_WINDOW < U32_SIZE && ib <= LAST_ISS
    ensures Inv(w1) && Run(w, [Overtaking(ia, ib, b).0] + ([Overtaking(ia, ib, b).1] + ([Overtaking(ia, ib, b).2] + es))) == Run(w1, es)
    ensures w1.peer.t.state == CloseWait && w1.peer.r.nxt == w.peer.r.nxt && TextEnd(w1.me) == ia + 2
    ensures FirstByte(ia, ib, b) in w1.toPeer
  {
    var fin := FinBehind(ia, ib);
    var a, c := BothGo(w, ia, ib, b);
    w1 := FinArrives(c, fin);
    RunThree(w, a, c, w1, Event(false, Send([b], 0)), Event(false, Close), Event(true, Deliver(fin, true)), es);
  }

  /** Once a FIN was let in before the text in front of it was delivered. */
  lemma Unclaimed(w: Pair, ia: u32, ib: u32, b: byte)
    requires Inv(w) && w.peer.t.state == CloseWait && w.peer.r.nxt == ia + 1 && TextEnd(w.me) == ia + 2 && ia + 2 < U32_SIZE
    ensures w.peer.t.rcvNxt == ia + 3 && !Honest(w) && !SeqCheck(w.peer.t, FirstByte(ia, ib, b))
  {
    ClaimsAre(w.me, w.peer, w.toMe, w.toPeer);
    assert FirstByte(ia, ib, b).LastSeq() == ia + 1;
  }

  /**
   After any handshake: the opener sends one byte and closes, and the FIN arrives first. Whatever happens then, the
   acknowledgment number claims the byte, the byte is not delivered, and each time it arrives it is out of the window.
   */
  lemma FinOvertakesText(actions: seq<H.Action>, ia: u32, ib: u32, b: byte, es: seq<Event>)
    requires ia + 2 + DEFAULT_WINDOW < U32_SIZE && ib <= LAST_ISS
    requires H.Run(H.START, actions, ia, ib).opener.state == Established
    ensures H.Run(H.START, actions, ia, ib).child.Some? && Inv(Joined(H.Run(H.START, actions, ia, ib)))
    ensures var (e1, e2, e3) := Overtaking(ia, ib, b);
            var w := Run(Joined(H.Run(H.START, actions, ia, ib)), [e1] + ([e2] + ([e3] + es)));
            && w.peer.r.nxt == ia + 1 && w.peer.t.rcvNxt == ia + 3 && !Honest(w)
            && FirstByte(ia, ib, b) in w.toPeer && !SeqCheck(w.peer.t, FirstByte(ia, ib, b))
  {
    H.RunKeeps(H.START, actions, ia, ib);
    var j := H.Run(H.START, actions, ia, ib);
    JoinedIsOk(j, ia, ib);
    var w3 := Overtaken(Joined(j), ia, ib, b, es);
    NothingAfterFin(w3, es);
    Unclaimed(Run(w3, es), ia, ib, b);
  }
}
