/** The connection states and the peer's window over whole runs (section 3.2 and 3.9 of RFC 793). */
module TcpRuns {
  import opened Words
  import opened TcpControl
  import S = SendSide

  // ---- The connection diagram -------------------------------------------------------------

  /** The arrows of the connection diagram of RFC 793. */
  predicate Arrow(a: State, b: State) {
    match a
    case Closed => b == SynSent || b == SynRecv || b == Listen
    case Listen => b == Closed
    case SynSent => b == SynRecv || b == Established || b == Closed
    case SynRecv => b == Established || b == Closed
    case Established => b == FinWait1 || b == CloseWait || b == Closed
    case FinWait1 => b == FinWait2 || b == Closing || b == Closed
    case FinWait2 => b == TimeWait || b == Closed
    case Closing => b == TimeWait || b == Closed
    case CloseWait => b == LastAck || b == Closed
    case LastAck => b == Closed
    case TimeWait => b == Closed
  }

  /** One segment with both ACK and FIN may take two arrows at once. */
  predicate Walk(a: State, b: State) {
    a == b || Arrow(a, b) || (a == SynRecv && b == CloseWait) || (a == FinWait1 && b == TimeWait)
  }

  lemma WalkIsArrows(a: State, b: State)
    ensures Walk(a, b) ==> a == b || Arrow(a, b) || exists m :: Arrow(a, m) && Arrow(m, b)
  {
    if a == SynRecv && b == CloseWait {
      assert Arrow(a, Established) && Arrow(Established, b);
    } else if a == FinWait1 && b == TimeWait {
      assert Arrow(a, FinWait2) && Arrow(FinWait2, b);
    }
  }

  lemma AckWalks(t: Tcb, s: Segment, accepts: bool)
    ensures var (t1, go, _) := AckField(t, s, accepts);
            && (t1.state == t.state || Arrow(t.state, t1.state))
            && (go && t1.state != t.state ==> t1.state == Established || t1.state == FinWait2)
            && (go ==> t1.state != SynRecv)
  {
  }

  lemma FieldsWalk(t: Tcb, s: Segment, accepts: bool, rx: Received)
    requires t.state != Listen && t.state != SynSent && t.state != Closed
    ensures Walk(t.state, Fields(t, s, accepts, rx).0.state)
  {
    AckWalks(if s.syn then t.(state := Closed) else t, s, accepts);
  }

  lemma ArriveWalks(t: Tcb, s: Segment, accepts: bool, rx: Received)
    ensures Walk(t.state, Arrive(t, s, accepts, rx).0.state)
  {
    if t.state != Closed && t.state != Listen && t.state != SynSent {
      FieldsWalk(t, s, accepts, rx);
    }
  }

  /** Every call, arrival and timeout walks along the diagram. */
  lemma StepWalks(h: S.History, e: S.Event)
    requires S.Accounts(h)
    ensures Walk(h.tcb.state, S.Step(h, e).tcb.state)
  {
    if e.Arrives? {
      ArriveWalks(h.tcb, e.s, e.accepts, e.rx);
    }
  }

  /** How far a connection is. */
  function Phase(st: State): nat {
    match st
    case Listen => 0
    case SynSent => 1
    case SynRecv => 2
    case Established => 3
    case CloseWait => 4
    case FinWait1 => 4
    case FinWait2 => 5
    case Closing => 5
    case LastAck => 5
    case TimeWait => 6
    case Closed => 7
  }

  /** A listen call that is let through on a closed block: what a socket whose connect failed may still do. */
  ghost predicate Relistens(h: S.History, e: S.Event) {
    e.ListenUp? && e.fits && h.tcb.state == Closed
  }

  /** A step takes a block that was opened back to an earlier phase exactly when it is a listen call on a closed block. */
  lemma GoesBackIff(h: S.History, e: S.Event)
    requires S.Accounts(h) && h.begun
    ensures Phase(S.Step(h, e).tcb.state) < Phase(h.tcb.state) <==> Relistens(h, e)
  {
    if h.tcb.state == Closed || h.tcb.state == Listen {
      Done(h, e);
    } else {
      StepWalks(h, e);
      WalkAdvances(h.tcb.state, S.Step(h, e).tcb.state);
    }
  }

  lemma WalkAdvances(a: State, b: State)
    requires Walk(a, b) && a != Closed
    ensures Phase(a) <= Phase(b)
  {
  }

  lemma Done(h: S.History, e: S.Event)
    requires S.Accounts(h) && h.begun && (h.tcb.state == Closed || h.tcb.state == Listen)
    ensures var st := S.Step(h, e).tcb.state;
            if Relistens(h, e) then st == Listen else st == Closed || st == h.tcb.state
  {
  }

  ghost predicate NoRelisten(h: S.History, es: seq<S.Event>)
    requires S.Accounts(h)
    decreases es
  {
    es == [] || (!Relistens(h, es[0]) && (S.StepAdvances(h, es[0]); NoRelisten(S.Step(h, es[0]), es[1..])))
  }

  /** Over every run without such a call an opened block never goes back to an earlier phase. */
  lemma {:induction false} NeverGoesBack(h: S.History, es: seq<S.Event>)
    requires S.Accounts(h) && h.begun && NoRelisten(h, es)
    ensures Phase(h.tcb.state) <= Phase(S.Run(h, es).tcb.state)
    decreases es
  {
    if es != [] {
      GoesBackIff(h, es[0]);
      S.StepAdvances(h, es[0]);
      NeverGoesBack(S.Step(h, es[0]), es[1..]);
    }
  }

  /** Over every run, listen calls included, a connection that has ended never carries text again. */
  lemma {:induction false} NeverReconnects(h: S.History, es: seq<S.Event>)
    requires S.Accounts(h) && h.begun && (h.tcb.state == Closed || h.tcb.state == Listen)
    ensures var h1 := S.Run(h, es);
            && (h1.tcb.state == Closed || h1.tcb.state == Listen)
            && h1.text == h.text && h1.fins == h.fins && h1.tcb.sndNxt == h.tcb.sndNxt
    decreases es
  {
    if es != [] {
      Done(h, es[0]);
      S.StepAdvances(h, es[0]);
      EndedIsSilent(h, es[0]);
      NeverReconnects(S.Step(h, es[0]), es[1..]);
    }
  }

  lemma EndedIsSilent(h: S.History, e: S.Event)
    requires S.Accounts(h) && h.begun && (h.tcb.state == Closed || h.tcb.state == Listen)
    ensures var h1 := S.Step(h, e); h1.text == h.text && h1.fins == h.fins && h1.tcb.sndNxt == h.tcb.sndNxt && h1.begun
  {
  }

  /** A connect that is reset and returns, then a listen call: the block is a listener again. */
  lemma FailedConnectListens(iss: u32)
    requires iss == 100
    ensures var refused := Bare(0, 101, 0).(rst := true, ack := true);
            var h := S.Run(S.NEW, [S.Open(iss), S.Arrives(refused, true, Received(0, 0, false)), S.ConnectReturns(false)]);
            h.begun && h.tcb.state == Closed && S.Step(h, S.ListenUp(true)).tcb.state == Listen
  {
    var refused := Bare(0, 101, 0).(rst := true, ack := true);
    var e1, e2, e3 := S.Open(iss), S.Arrives(refused, true, Received(0, 0, false)), S.ConnectReturns(false);
    var h1 := S.Step(S.NEW, e1);
    var h2 := S.Step(h1, e2);
    var h3 := S.Step(h2, e3);
    S.StepAdvances(S.NEW, e1);
    S.StepAdvances(h1, e2);
    S.StepAdvances(h2, e3);
    assert h2.tcb.state == Closed && h3.tcb.state == Closed;
    assert [e1, e2, e3][1..] == [e2, e3] && [e2, e3][1..] == [e3] && [e3][1..] == [];
    assert S.Run(h3, []) == h3;
    assert S.Run(h2, [e3]) == h3;
    assert S.Run(h1, [e2, e3]) == h3;
  }

  // ---- The peer's window ------------------------------------------------------------------

  /** The pair that orders window updates: sequence number first, then acknowledgment number. */
  predicate NotOlder(t: Tcb, t1: Tcb) {
    t.sndWl1 < t1.sndWl1 || (t.sndWl1 == t1.sndWl1 && t.sndWl2 <= t1.sndWl2)
  }

  /** The window is the old one, or that of the segment, recorded with the numbers it came with. */
  predicate TookWindow(t: Tcb, s: Segment, t1: Tcb) {
    || (t1.sndWnd == t.sndWnd && t1.sndWl1 == t.sndWl1 && t1.sndWl2 == t.sndWl2)
    || (t1.sndWnd == s.wnd && t1.sndWl1 == s.seqno && t1.sndWl2 == s.AckNo() && t.sndUna <= s.AckNo() <= t.sndNxt)
  }

  predicate Opening(st: State) {
    st == SynSent || st == SynRecv
  }

  lemma AckTakesWindow(t: Tcb, s: Segment, accepts: bool)
    requires !Opening(t.state)
    ensures var t1 := AckField(t, s, accepts).0; NotOlder(t, t1) && TookWindow(t, s, t1)
  {
  }

  lemma FieldsTakeWindow(t: Tcb, s: Segment, accepts: bool, rx: Received)
    requires !Opening(t.state)
    ensures var t1 := Fields(t, s, accepts, rx).0; NotOlder(t, t1) && TookWindow(t, s, t1)
  {
    var t0 := if s.syn then t.(state := Closed) else t;
    AckTakesWindow(t0, s, accepts);
    FinKeepsWindow(AckField(t0, s, accepts).0, s, rx);
  }

  lemma FinKeepsWindow(t: Tcb, s: Segment, rx: Received)
    ensures var t1 := FinField(TextField(t, s, rx), s); t1.sndWnd == t.sndWnd && t1.sndWl1 == t.sndWl1 && t1.sndWl2 == t.sndWl2
  {
  }

  lemma ArriveTakesWindow(t: Tcb, s: Segment, accepts: bool, rx: Received)
    requires !Opening(t.state)
    ensures var t1 := Arrive(t, s, accepts, rx).0;
            NotOlder(t, t1) && TookWindow(t, s, t1) && !Opening(t1.state)
  {
    ArriveWalks(t, s, accepts, rx);
    FieldsTakeWindow(t, s, accepts, rx);
  }

  lemma AckBringsWindow(t: Tcb, s: Segment, accepts: bool)
    requires t.state == Established || t.state == CloseWait || t.state == FinWait1
    requires s.ack && t.sndUna <= s.AckNo() <= t.sndNxt
    ensures var t1 := AckField(t, s, accepts).0;
            var now := t.(sndWl1 := s.seqno, sndWl2 := s.AckNo());
            && t1.sndWnd == (if NotOlder(t, now) then s.wnd else t.sndWnd)
            && (t1.sndWl1 == s.seqno && t1.sndWl2 == s.AckNo() <==> NotOlder(t, now))
  {
  }

  /** An acceptable segment whose acknowledgment is current brings its window in, if and only if it is not older than the last that did. */
  lemma NewWindowArrives(t: Tcb, s: Segment, accepts: bool, rx: Received)
    requires t.state == Established || t.state == CloseWait || t.state == FinWait1
    requires SeqCheck(t, s) && s.ack && !s.rst && !s.syn && t.sndUna <= s.AckNo() <= t.sndNxt
    ensures var t1 := Arrive(t, s, accepts, rx).0;
            var now := t.(sndWl1 := s.seqno, sndWl2 := s.AckNo());
            && t1.sndWnd == (if NotOlder(t, now) then s.wnd else t.sndWnd)
            && (t1.sndWl1 == s.seqno && t1.sndWl2 == s.AckNo() <==> NotOlder(t, now))
  {
    AckBringsWindow(t, s, accepts);
    FinKeepsWindow(AckField(t, s, accepts).0, s, rx);
  }

  /** Over every run of a synchronized connection a window is never replaced by an older one. */
  lemma {:induction false} WindowNeverOlder(h: S.History, es: seq<S.Event>)
    requires S.Accounts(h) && h.begun && !Opening(h.tcb.state)
    ensures NotOlder(h.tcb, S.Run(h, es).tcb)
    decreases es
  {
    if es != [] {
      S.StepAdvances(h, es[0]);
      WindowStep(h, es[0]);
      WindowNeverOlder(S.Step(h, es[0]), es[1..]);
    }
  }

  lemma WindowStep(h: S.History, e: S.Event)
    requires h.begun && !Opening(h.tcb.state)
    ensures NotOlder(h.tcb, S.Step(h, e).tcb) && !Opening(S.Step(h, e).tcb.state)
  {
    if e.Arrives? {
      ArriveTakesWindow(h.tcb, e.s, e.accepts, e.rx);
    }
  }
}
