/** When the states that wait for the acknowledgment of a FIN are left (tcp/tcp_state.c, section 3.9 of RFC 793). */
module TcpClosing {
  import opened Words
  import opened TcpControl
  import opened SendSide
  import SeqCheckProofs

  predicate WaitsForFin(st: State) {
    st == FinWait1 || st == Closing || st == LastAck
  }

  /** The step is an acknowledgment that moves the block out of a state waiting for the acknowledgment of its FIN. */
  ghost predicate AckLeaves(h: History, e: Event) {
    && e.Arrives? && WaitsForFin(h.tcb.state)
    && Step(h, e).tcb.state != h.tcb.state && Step(h, e).tcb.sndUna != h.tcb.sndUna
  }

  /** RFC 793 over a run: those states are left only once everything sent, the FIN included, is acknowledged. */
  ghost predicate LeavesOnFin(h: History, es: seq<Event>)
    decreases es
  {
    es == [] ||
    ((AckLeaves(h, es[0]) ==> Step(h, es[0]).tcb.sndUna == Step(h, es[0]).tcb.sndNxt) && LeavesOnFin(Step(h, es[0]), es[1..]))
  }

  /** The FIN has gone out, and at most the FIN is outstanding. */
  ghost predicate FinIsLast(h: History) {
    Accounts(h) && h.begun && h.fins == 1 && NoWrap(h) && h.tcb.sndNxt <= h.tcb.sndUna + 1
  }

  lemma LastAdvances(h: History, h1: History)
    requires FinIsLast(h) && Advances(h, h1) && h1.begun && h1.tcb.iss == h.tcb.iss
    ensures FinIsLast(h1) && (h1.tcb.sndUna != h.tcb.sndUna ==> h1.tcb.sndUna == h1.tcb.sndNxt)
  {
  }

  lemma FinStaysLast(h: History, e: Event)
    requires FinIsLast(h)
    ensures FinIsLast(Step(h, e))
    ensures AckLeaves(h, e) ==> Step(h, e).tcb.sndUna == Step(h, e).tcb.sndNxt
  {
    StepAdvances(h, e);
    IssIsFixed(h, e);
    LastAdvances(h, Step(h, e));
  }

  lemma {:induction false} FinLastLeaves(h: History, es: seq<Event>)
    requires FinIsLast(h)
    ensures LeavesOnFin(h, es)
    decreases es
  {
    if es != [] {
      FinStaysLast(h, es[0]);
      FinLastLeaves(Step(h, es[0]), es[1..]);
    }
  }

  /** The acknowledgment of one byte that was outstanding when the user closed. */
  function EarlyAck(t: Tcb): Segment {
    Bare(t.rcvNxt, Wrap32(t.sndUna + 1), t.rcvWnd).(ack := true)
  }

  /** What an early acknowledgment does to a block in FIN-WAIT-1 or LAST-ACK. */
  lemma EarlyAckArrives(t: Tcb, rx: Received)
    requires (t.state == FinWait1 || t.state == LastAck) && t.sndUna + 1 < t.sndNxt
    requires t.rcvNxt + SeqCheckProofs.Room(t) < U32_SIZE
    ensures var (t1, out) := Arrive(t, EarlyAck(t), true, rx);
            && t1.sndUna == t.sndUna + 1 && t1.sndNxt == t.sndNxt && Quiet(out)
            && t1.state == if t.state == FinWait1 then FinWait2 else Closed
  {
    var s := EarlyAck(t);
    assert s.Len() == 0 && s.AckNo() == t.sndUna + 1 && SeqCheck(t, s);
    SynchronizedKeeps(t, s, true, rx);
  }

  lemma EarlyAckLeaves(h: History, rx: Received)
    requires (h.tcb.state == FinWait1 || h.tcb.state == LastAck) && h.tcb.sndUna + 1 < h.tcb.sndNxt
    requires h.tcb.rcvNxt + SeqCheckProofs.Room(h.tcb) < U32_SIZE
    ensures var e := Arrives(EarlyAck(h.tcb), true, rx);
            AckLeaves(h, e) && Step(h, e).tcb.sndUna != Step(h, e).tcb.sndNxt
  {
    EarlyAckArrives(h.tcb, rx);
  }

  lemma CloseStep(h: History)
    requires Accounts(h) && (h.tcb.state == Established || h.tcb.state == CloseWait) && NoWrap(Step(h, UserClose))
    ensures var t := h.tcb.(state := if h.tcb.state == Established then FinWait1 else LastAck, sndNxt := h.tcb.sndNxt + 1);
            h.tcb.sndNxt + 1 < U32_SIZE && Step(h, UserClose) == h.(tcb := t, fins := 1)
    ensures Accounts(Step(h, UserClose)) && h.begun && h.tcb.sndUna <= h.tcb.sndNxt
  {
    StepAdvances(h, UserClose);
    OneSegment(FinSegment(h.tcb));
  }

  lemma CleanClose(h: History, es: seq<Event>)
    requires Accounts(h) && (h.tcb.state == Established || h.tcb.state == CloseWait)
    requires NoWrap(Step(h, UserClose)) && h.tcb.sndUna == h.tcb.sndNxt
    ensures LeavesOnFin(Step(h, UserClose), es)
  {
    CloseStep(h);
    FinLastLeaves(Step(h, UserClose), es);
  }

  lemma DirtyClose(h: History)
    requires Accounts(h) && (h.tcb.state == Established || h.tcb.state == CloseWait)
    requires NoWrap(Step(h, UserClose)) && h.tcb.rcvNxt + SeqCheckProofs.Room(h.tcb) < U32_SIZE
    requires h.tcb.sndUna != h.tcb.sndNxt
    ensures exists es :: !LeavesOnFin(Step(h, UserClose), es)
  {
    CloseStep(h);
    var h1, rx := Step(h, UserClose), Received(0, 0, false);
    EarlyAckLeaves(h1, rx);
    assert !LeavesOnFin(h1, [Arrives(EarlyAck(h1.tcb), true, rx)]);
  }

  /**
   The code leaves those states on any progress. For a connection closed by the user, over every run that
   follows, they are left only when the FIN is acknowledged if and only if nothing was outstanding at the close.
   */
  lemma FinAckedIff(h: History)
    requires Accounts(h) && (h.tcb.state == Established || h.tcb.state == CloseWait)
    requires NoWrap(Step(h, UserClose)) && h.tcb.rcvNxt + SeqCheckProofs.Room(h.tcb) < U32_SIZE
    ensures (forall es :: LeavesOnFin(Step(h, UserClose), es)) <==> h.tcb.sndUna == h.tcb.sndNxt
  {
    if h.tcb.sndUna == h.tcb.sndNxt {
      forall es ensures LeavesOnFin(Step(h, UserClose), es) {
        CleanClose(h, es);
      }
    } else {
      DirtyClose(h);
    }
  }

  // ---- A run that leaves too early --------------------------------------------------------

  lemma ChildMade(syn: Segment)
    requires syn == Bare(500, 0, 4096).(syn := true)
    ensures Accounts(NEW) && Accounts(Step(NEW, Accept(syn, 100)))
    ensures Step(NEW, Accept(syn, 100)) == History(FRESH.(state := SynRecv, irs := 500, iss := 100, rcvNxt := 501, sndNxt := 101, sndUna := 100), true, false, 0, 0)
  {
    StepAdvances(NEW, Accept(syn, 100));
    OneSegment(ListenChild(syn, 100).1[0]);
    assert ListenChild(syn, 100).1 == [ListenChild(syn, 100).1[0]];
  }

  lemma ChildUp(t: Tcb, ack: Segment, rx: Received)
    requires t == FRESH.(state := SynRecv, irs := 500, iss := 100, rcvNxt := 501, sndNxt := 101, sndUna := 100)
    requires ack == Bare(501, 101, 4096).(ack := true)
    ensures Arrive(t, ack, true, rx) == (t.(state := Established, sndUna := 101, sndWnd := 4096, sndWl1 := 501, sndWl2 := 101), [])
  {
    assert ack.Len() == 0 && SeqCheck(t, ack);
    var none: seq<Segment> := [];
    assert none + none == none;
  }

  lemma OneByteOut(h: History)
    requires Accounts(h) && h.tcb.state == Established && h.tcb.sndWnd == 4096 && h.tcb.sndNxt == 101
    ensures Step(h, Send([1], 0)) == h.(tcb := h.tcb.(sndNxt := 102, sndWnd := 4095), text := h.text + 1)
  {
    SendEmits(h.tcb, [1], 41);
  }

  lemma ByteOutstanding(syn: Segment, ack: Segment, rx: Received)
    requires syn == Bare(500, 0, 4096).(syn := true) && ack == Bare(501, 101, 4096).(ack := true)
    ensures Accounts(NEW)
    ensures var h := Run(NEW, [Accept(syn, 100), Arrives(ack, true, rx), Send([1], 0)]);
            && h.tcb.state == Established && h.tcb.sndUna == 101 && h.tcb.sndNxt == 102
            && h.tcb.iss == 100 && h.text == 1 && h.fins == 0 && h.tcb.rcvNxt == 501 && h.tcb.rcvWnd == 4096
  {
    var e1, e2, e3 := Accept(syn, 100), Arrives(ack, true, rx), Send([1], 0);
    ChildMade(syn);
    var h1 := Step(NEW, e1);
    ChildUp(h1.tcb, ack, rx);
    StepAdvances(h1, e2);
    OneByteOut(Step(h1, e2));
    RunOfThree(NEW, e1, e2, e3, h1, Step(h1, e2));
  }

  lemma LeavesTooEarly(h: History, rx: Received)
    requires Accounts(h) && h.tcb.state == Established && h.tcb.sndUna == 101 && h.tcb.sndNxt == 102
    requires h.tcb.iss == 100 && h.text == 1 && h.fins == 0 && h.tcb.rcvNxt == 501 && h.tcb.rcvWnd == 4096
    ensures var closed := Step(h, UserClose);
            var after := Step(closed, Arrives(EarlyAck(closed.tcb), true, rx));
            && EarlyAck(closed.tcb).ackno == 102 && after.tcb.state == FinWait2
            && after.tcb.sndUna + 1 == after.tcb.sndNxt && after.fins == 1
  {
    OneSegment(FinSegment(h.tcb));
    CloseStep(h);
    EarlyAckArrives(Step(h, UserClose).tcb, rx);
  }

  /** Accept, one byte sent, close, and an acknowledgment of the byte only: FIN-WAIT-2 with the FIN unacknowledged. */
  lemma FinWait2TooEarly(syn: Segment, ack: Segment, rx: Received)
    requires syn == Bare(500, 0, 4096).(syn := true) && ack == Bare(501, 101, 4096).(ack := true)
    ensures Accounts(NEW)
    ensures var closed := Step(Run(NEW, [Accept(syn, 100), Arrives(ack, true, rx), Send([1], 0)]), UserClose);
            var after := Step(closed, Arrives(EarlyAck(closed.tcb), true, rx));
            && EarlyAck(closed.tcb).ackno == 102 && after.tcb.state == FinWait2
            && after.tcb.sndUna + 1 == after.tcb.sndNxt && after.fins == 1
  {
    ByteOutstanding(syn, ack, rx);
    LeavesTooEarly(Run(NEW, [Accept(syn, 100), Arrives(ack, true, rx), Send([1], 0)]), rx);
  }

  lemma RunOfThree(h: History, e1: Event, e2: Event, e3: Event, h1: History, h2: History)
    requires Accounts(h) && h1 == Step(h, e1) && Accounts(h1) && h2 == Step(h1, e2) && Accounts(h2)
    ensures Run(h, [e1, e2, e3]) == Step(h2, e3)
  {
    var h3 := Step(h2, e3);
    StepAdvances(h2, e3);
    assert [e1, e2, e3][1..] == [e2, e3] && [e2, e3][1..] == [e3] && [e3][1..] == [];
    assert Run(h3, []) == h3;
    assert Run(h2, [e3]) == h3;
    assert Run(h1, [e2, e3]) == h3;
  }
}
