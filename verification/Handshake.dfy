/**
 The three-way handshake between an active opener and a listener, over a network that loses,
 duplicates and reorders segments (section 3.4 of RFC 793).
 */
module Handshake {
  import opened Words
  import opened TcpControl

  /** The network keeps every segment ever sent: delivering one again is duplication, never delivering it is loss. */
  datatype System = System(opener: Tcb, child: Option<Tcb>, toChild: set<Segment>, toOpener: set<Segment>)

  /** `accepts` is the answer of the accept queue, `rx` what the receive side makes of text. */
  datatype Action =
    | Open
    | ToListener(s: Segment, accepts: bool, rx: Received)
    | ToOpener(s: Segment, accepts: bool, rx: Received)

  const START := System(FRESH, None, {}, {})

  function Sent(out: seq<Segment>): set<Segment> {
    set s | s in out
  }

  /** One handler runs; `ia` and `ib` are the initial sequence numbers the two ends draw. */
  function Step(w: System, a: Action, ia: u32, ib: u32): System {
    match a
    case Open =>
      var (t, out) := Connect(w.opener, ia);
      w.(opener := t, toChild := w.toChild + Sent(out))
    case ToListener(s, accepts, rx) =>
      if s !in w.toChild then w
      else if w.child.Some? then
        var (t, out) := Arrive(w.child.value, s, accepts, rx);
        w.(child := Some(t), toOpener := w.toOpener + Sent(out))
      else
        var (c, out) := OnListen(s, ib);
        w.(child := c, toOpener := w.toOpener + Sent(out))
    case ToOpener(s, accepts, rx) =>
      if s !in w.toOpener then w
      else
        var (t, out) := Arrive(w.opener, s, accepts, rx);
        w.(opener := t, toChild := w.toChild + Sent(out))
  }

  ghost function Run(w: System, actions: seq<Action>, ia: u32, ib: u32): System
    decreases actions
  {
    if actions == [] then w else Run(Step(w, actions[0], ia, ib), actions[1..], ia, ib)
  }

  // ---- The four segments of a handshake ---------------------------------------------------

  function Syn(ia: u32): Segment { Bare(ia, 0, DEFAULT_WINDOW).(syn := true) }
  function SynAck(ia: u32, ib: u32): Segment { Bare(ib, Wrap32(ia + 1), DEFAULT_WINDOW).(syn := true, ack := true) }
  function OpenerAck(ia: u32, ib: u32): Segment { Bare(Wrap32(ia + 1), Wrap32(ib + 1), DEFAULT_WINDOW).(ack := true) }
  function ChildAck(ia: u32, ib: u32): Segment { OpenerAck(ib, ia) }

  ghost predicate OpenerOk(t: Tcb, ia: u32, ib: u32) {
    && t.rcvWnd == DEFAULT_WINDOW
    && match t.state
       case Closed => true
       case SynSent => t.iss == t.sndUna == ia && t.sndNxt == ia + 1
       case Established => t.iss == ia && t.irs == ib && t.sndUna == t.sndNxt == ia + 1 && t.rcvNxt == ib + 1 && t.sndWnd == DEFAULT_WINDOW
       case _ => false
  }

  ghost predicate ChildOk(t: Tcb, ia: u32, ib: u32) {
    && t.rcvWnd == DEFAULT_WINDOW
    && t.iss == ib && t.irs == ia && t.sndNxt == ib + 1 && t.rcvNxt == ia + 1
    && ((t.state == SynRecv && t.sndUna == ib) || (t.state == Established && t.sndUna == ib + 1))
  }

  ghost predicate Inv(w: System, ia: u32, ib: u32) {
    && OpenerOk(w.opener, ia, ib) && (w.child.Some? ==> ChildOk(w.child.value, ia, ib))
    && w.toChild <= {Syn(ia), OpenerAck(ia, ib)} && w.toOpener <= {SynAck(ia, ib), ChildAck(ia, ib)}
    && (w.opener.state == Closed ==> w.toChild == {})
    && (OpenerAck(ia, ib) in w.toChild ==> w.opener.state == Established)
    && (w.toOpener != {} || w.opener.state == Established ==> w.child.Some?)
    && (w.child.Some? ==> w.opener.state != Closed)
    && (w.child.Some? && w.child.value.state == Established ==> w.opener.state == Established)
  }

  lemma SentOne(s: Segment)
    ensures Sent([s]) == {s} && Sent([]) == {}
  {
  }

  lemma OpenKeeps(w: System, ia: u32, ib: u32)
    requires Inv(w, ia, ib) && ia <= LAST_ISS && ib <= LAST_ISS
    ensures Inv(Step(w, Open, ia, ib), ia, ib)
  {
    SentOne(Syn(ia));
  }

  /** A repeated SYN is below the window, whatever its right edge. */
  lemma ChildSeesSyn(t: Tcb, accepts: bool, rx: Received, ia: u32, ib: u32)
    requires ChildOk(t, ia, ib) && ia <= LAST_ISS && ib <= LAST_ISS
    ensures !SeqCheck(t, Syn(ia))
    ensures Arrive(t, Syn(ia), accepts, rx) == (t.(ackNow := true), [ChildAck(ia, ib)])
  {
    assert Syn(ia).LastSeq() == ia && [] + [ChildAck(ia, ib)] == [ChildAck(ia, ib)];
  }

  lemma ChildSeesAck(t: Tcb, accepts: bool, rx: Received, ia: u32, ib: u32)
    requires ChildOk(t, ia, ib) && ia <= LAST_ISS && ib <= LAST_ISS
    ensures var (t1, out) := Arrive(t, OpenerAck(ia, ib), accepts, rx);
            ChildOk(t1, ia, ib) && (out == [] || out == [ChildAck(ia, ib)])
  {
    var s := OpenerAck(ia, ib);
    assert s.Len() == 0 && s.AckNo() == ib + 1;
    if SeqCheck(t, s) {
      var (t1, go, out1) := AckField(t, s, accepts);
      assert ChildOk(t1, ia, ib) && out1 == [];
    }
  }

  lemma OpenerSeesSynAck(t: Tcb, accepts: bool, rx: Received, ia: u32, ib: u32)
    requires OpenerOk(t, ia, ib) && ia <= LAST_ISS && ib <= LAST_ISS && t.state != Closed
    ensures var (t1, out) := Arrive(t, SynAck(ia, ib), accepts, rx);
            OpenerOk(t1, ia, ib) && t1.state == Established && out == [OpenerAck(ia, ib)]
  {
    assert SynAck(ia, ib).LastSeq() == ib && SynAck(ia, ib).AckNo() == ia + 1;
  }

  lemma OpenerSeesAck(t: Tcb, accepts: bool, rx: Received, ia: u32, ib: u32)
    requires OpenerOk(t, ia, ib) && ia <= LAST_ISS && ib <= LAST_ISS && t.state != Closed
    ensures var (t1, out) := Arrive(t, ChildAck(ia, ib), accepts, rx);
            && OpenerOk(t1, ia, ib) && t1.state == t.state
            && (out == [] || (out == [OpenerAck(ia, ib)] && t.state == Established))
  {
    var s := ChildAck(ia, ib);
    assert s.Len() == 0 && s.AckNo() == ia + 1;
    if t.state == Established && SeqCheck(t, s) {
      var (t1, go, out1) := AckField(t, s, accepts);
      assert OpenerOk(t1, ia, ib) && t1.state == Established && out1 == [];
    }
  }

  lemma ToListenerKeeps(w: System, s: Segment, accepts: bool, rx: Received, ia: u32, ib: u32)
    requires Inv(w, ia, ib) && ia <= LAST_ISS && ib <= LAST_ISS
    ensures Inv(Step(w, ToListener(s, accepts, rx), ia, ib), ia, ib)
  {
    SentOne(ChildAck(ia, ib));
    SentOne(SynAck(ia, ib));
    if s in w.toChild && w.child.Some? {
      ChildSeesSyn(w.child.value, accepts, rx, ia, ib);
      ChildSeesAck(w.child.value, accepts, rx, ia, ib);
    }
  }

  lemma ToOpenerKeeps(w: System, s: Segment, accepts: bool, rx: Received, ia: u32, ib: u32)
    requires Inv(w, ia, ib) && ia <= LAST_ISS && ib <= LAST_ISS
    ensures Inv(Step(w, ToOpener(s, accepts, rx), ia, ib), ia, ib)
  {
    SentOne(OpenerAck(ia, ib));
    if s in w.toOpener {
      OpenerSeesSynAck(w.opener, accepts, rx, ia, ib);
      OpenerSeesAck(w.opener, accepts, rx, ia, ib);
    }
  }

  lemma {:induction false} RunKeeps(w: System, actions: seq<Action>, ia: u32, ib: u32)
    requires Inv(w, ia, ib) && ia <= LAST_ISS && ib <= LAST_ISS
    ensures Inv(Run(w, actions, ia, ib), ia, ib)
    decreases actions
  {
    if actions != [] {
      match actions[0] {
        case Open => OpenKeeps(w, ia, ib);
        case ToListener(s, accepts, rx) => ToListenerKeeps(w, s, accepts, rx, ia, ib);
        case ToOpener(s, accepts, rx) => ToOpenerKeeps(w, s, accepts, rx, ia, ib);
      }
      RunKeeps(Step(w, actions[0], ia, ib), actions[1..], ia, ib);
    }
  }

  // ---- Results ----------------------------------------------------------------------------

  ghost predicate Up(w: System) {
    w.opener.state == Established && w.child.Some? && w.child.value.state == Established
  }

  /** In every run no end ever sends a reset, and two established ends agree on both sequence spaces. */
  lemma HandshakeIsSafe(actions: seq<Action>, ia: u32, ib: u32)
    requires ia <= LAST_ISS && ib <= LAST_ISS
    ensures var w := Run(START, actions, ia, ib);
            && (forall s :: s in w.toChild || s in w.toOpener ==> !s.rst)
            && (w.child.Some? && w.child.value.state == Established ==> Up(w))
            && (Up(w) ==>
                  && w.opener.rcvNxt == w.child.value.sndNxt && w.child.value.rcvNxt == w.opener.sndNxt
                  && w.opener.sndUna == w.opener.iss + 1 == ia + 1
                  && w.child.value.sndUna == w.child.value.iss + 1 == ib + 1)
  {
    RunKeeps(START, actions, ia, ib);
  }

  /** The allocator never draws the one number the handlers cannot take. */
  lemma IssStaysInRange(last: u32)
    requires FIRST_ISS <= last <= LAST_ISS
    ensures FIRST_ISS <= NextIss(last) <= LAST_ISS
    ensures NextIss(last) == last + 1 <==> last < LAST_ISS
  {
  }

  /** With the last 32-bit number, and only with it, the opener resets the answer to its own SYN. */
  lemma ResetIffLastNumber(ia: u32, ib: u32, accepts: bool, rx: Received)
    ensures var (c, out) := OnListen(Syn(ia), ib);
            var t := Connect(FRESH, ia).0;
            && out == [SynAck(ia, ib)]
            && ((exists s :: s in Arrive(t, SynAck(ia, ib), accepts, rx).1 && s.rst) <==> ia == 0xffff_ffff)
  {
    var t := Connect(FRESH, ia).0;
    var out := Arrive(t, SynAck(ia, ib), accepts, rx).1;
    if ia <= LAST_ISS && ib <= LAST_ISS {
      OpenerSeesSynAck(t, accepts, rx, ia, ib);
    }
    assert |out| == 1 && out[0] in out;
  }

  /** The window of the child wraps, so no acknowledgment of the opener passes its sequence check. */
  lemma {:induction false} WrappedWindowBlocks(w: System, actions: seq<Action>, ia: u32, ib: u32)
    requires Inv(w, ia, ib) && ia <= LAST_ISS && ib <= LAST_ISS && ia + 1 + DEFAULT_WINDOW >= U32_SIZE
    requires w.child.Some? ==> w.child.value.state == SynRecv
    ensures !Up(Run(w, actions, ia, ib))
    decreases actions
  {
    if actions != [] {
      var w1 := Step(w, actions[0], ia, ib);
      RunKeeps(w, [actions[0]], ia, ib);
      assert [actions[0]][1..] == [] && Run(w1, [], ia, ib) == w1;
      if actions[0].ToListener? && w.child.Some? && actions[0].s in w.toChild {
        ChildSeesSyn(w.child.value, actions[0].accepts, actions[0].rx, ia, ib);
        assert !SeqCheck(w.child.value, OpenerAck(ia, ib));
      }
      WrappedWindowBlocks(w1, actions[1..], ia, ib);
    }
  }

  /** Delivering one segment of each kind brings both ends up. */
  lemma CleanRunCompletes(ia: u32, ib: u32)
    requires ib <= LAST_ISS && ia + 1 + DEFAULT_WINDOW < U32_SIZE
    ensures exists actions :: Up(Run(START, actions, ia, ib))
  {
    var rx := Received(0, 0, false);
    var a0, a1, a2, a3 := Open, ToListener(Syn(ia), true, rx), ToOpener(SynAck(ia, ib), true, rx), ToListener(OpenerAck(ia, ib), true, rx);
    var actions := [a0, a1, a2, a3];
    var w1 := Step(START, a0, ia, ib);
    SentOne(Syn(ia));
    SentOne(SynAck(ia, ib));
    SentOne(OpenerAck(ia, ib));
    var w2 := Step(w1, a1, ia, ib);
    assert w2.toOpener == {SynAck(ia, ib)};
    OpenerSeesSynAck(w2.opener, true, rx, ia, ib);
    var w3 := Step(w2, a2, ia, ib);
    assert SeqCheck(w3.child.value, OpenerAck(ia, ib));
    var w4 := Step(w3, a3, ia, ib);
    assert Up(w4);
    assert actions[1..] == [a1, a2, a3] && actions[1..][1..] == [a2, a3] && [a2, a3][1..] == [a3] && [a3][1..] == [];
    assert Run(w3, [a3], ia, ib) == w4 && Run(w2, [a2, a3], ia, ib) == w4;
    assert Run(w1, [a1, a2, a3], ia, ib) == w4;
    assert Run(START, actions, ia, ib) == w4;
  }

  /** The handshake can complete if and only if the opener's first window does not wrap. */
  lemma CompletesIff(ia: u32, ib: u32)
    requires ia <= LAST_ISS && ib <= LAST_ISS
    ensures (exists actions :: Up(Run(START, actions, ia, ib))) <==> ia + 1 + DEFAULT_WINDOW < U32_SIZE
  {
    if ia + 1 + DEFAULT_WINDOW < U32_SIZE {
      CleanRunCompletes(ia, ib);
    } else {
      forall actions ensures !Up(Run(START, actions, ia, ib)) {
        WrappedWindowBlocks(START, actions, ia, ib);
      }
    }
  }
}
