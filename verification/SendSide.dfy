/** Send-side sequence accounting, and what the segments of one send carry. */
module SendSide {
  import opened Words
  import opened TcpControl

  ghost function TextBytes(out: seq<Segment>): nat {
    if out == [] then 0 else |out[0].text| + TextBytes(out[1..])
  }

  ghost function Fins(out: seq<Segment>): nat {
    if out == [] then 0 else (if out[0].fin then 1 else 0) + Fins(out[1..])
  }

  // ---- One send ---------------------------------------------------------------------------

  /** The segments follow one another from `next` on, carry `data`, and only the last is pushed. */
  ghost predicate Carries(out: seq<Segment>, next: u32, ackno: u32, data: seq<byte>, segsize: nat) {
    if out == [] then data == []
    else
      var s := out[0];
      && s.seqno == next && s.ack && s.ackno == ackno && !s.syn && !s.rst && !s.fin
      && 0 < |s.text| <= segsize && s.text <= data
      && (s.psh <==> |out| == 1)
      && Carries(out[1..], Wrap32(next + |s.text|), ackno, data[|s.text|..], segsize)
  }

  lemma {:induction false} TextSegmentsCarry(next: u32, ackno: u32, wnd: u32, data: seq<byte>, segsize: nat)
    requires segsize > 0
    ensures var out := TextSegments(next, ackno, wnd, data, segsize);
            && Carries(out, next, ackno, data, segsize)
            && TextBytes(out) == |data| && Fins(out) == 0
            && (out == [] <==> data == [])
    decreases |data|
  {
    if data != [] {
      var n := Min(segsize, |data|);
      TextSegmentsCarry(Wrap32(next + n), ackno, wnd, data[n..], segsize);
      assert TextSegments(next, ackno, wnd, data, segsize)[1..] == TextSegments(Wrap32(next + n), ackno, wnd, data[n..], segsize);
    }
  }

  /** A send emits the first bytes that fit the window, in order, and moves `snd_nxt` and `snd_wnd` by that many. */
  lemma SendCarries(t: Tcb, data: seq<byte>, mtu: nat)
    requires mtu > 40 && (t.state == Established || t.state == CloseWait) && data != [] && t.sndWnd > 0
    ensures var (t1, out, n) := SendCall(t, data, mtu);
            && n == Min(|data|, t.sndWnd) > 0
            && Carries(out, t.sndNxt, t.rcvNxt, data[..n], mtu - 40)
            && t1 == t.(sndNxt := Wrap32(t.sndNxt + n), sndWnd := t.sndWnd - n)
  {
    TextSegmentsCarry(t.sndNxt, t.rcvNxt, t.rcvWnd, data[..Min(|data|, t.sndWnd)], mtu - 40);
  }

  /**
   A send is refused, with -1 and no change, if and only if the state does not send, there is nothing to send or the
   window is closed; else it sends something.
   */
  lemma SendRefusedIff(t: Tcb, data: seq<byte>, mtu: nat)
    requires mtu > 40
    ensures var (t1, out, n) := SendCall(t, data, mtu);
            && (n == -1 <==> (t.state != Established && t.state != CloseWait) || data == [] || t.sndWnd == 0)
            && (if n == -1 then t1 == t && out == [] else n == TextBytes(out) > 0)
  {
    if (t.state == Established || t.state == CloseWait) && data != [] && t.sndWnd > 0 {
      TextSegmentsCarry(t.sndNxt, t.rcvNxt, t.rcvWnd, data[..Min(|data|, t.sndWnd)], mtu - 40);
    }
  }

  // ---- Runs -------------------------------------------------------------------------------

  datatype Event =
    | Open(iss: u32)
    | Accept(syn: Segment, iss: u32)
    | Send(data: seq<byte>, segsize: nat)
    | UserClose
    | Arrives(s: Segment, accepts: bool, rx: Received)
    | Timeout
    | ConnectReturns(err: bool)
    | ListenUp(fits: bool)

  /**
   A control block with the text bytes and FINs it has emitted. `begun` says that it has been connected or made
   for an accepted connection, which happens once: `inet_connect` refuses a socket whose remote port is set
   (socket/inet.c:156-157), and a child is made with it set. `waiting` says that a connect has not returned.
   */
  datatype History = History(tcb: Tcb, begun: bool, waiting: bool, text: nat, fins: nat)

  const NEW := History(FRESH, false, false, 0, 0)

  ghost function React(h: History, e: Event): (Tcb, seq<Segment>) {
    match e
    case Open(iss) => if h.begun then (h.tcb, []) else Connect(h.tcb, iss)
    case Accept(syn, iss) => if h.begun || h.tcb.state == Listen then (h.tcb, []) else ListenChild(syn, iss)
    case ConnectReturns(err) => (if h.waiting then ConnectReturn(h.tcb, err) else h.tcb, [])
    case ListenUp(fits) => (TcpControl.ListenCall(h.tcb, fits), [])
    case Send(data, segsize) => var (t, out, _) := SendCall(h.tcb, data, segsize + 41); (t, out)
    case UserClose => CloseCall(h.tcb)
    case Arrives(s, accepts, rx) => Arrive(h.tcb, s, accepts, rx)
    case Timeout => (Expire(h.tcb), [])
  }

  ghost function Step(h: History, e: Event): History {
    var (t, out) := React(h, e);
    var opens := !h.begun && h.tcb.state != Listen && (e.Open? || e.Accept?);
    History(t, h.begun || opens, (h.waiting && !e.ConnectReturns?) || (opens && e.Open?), h.text + TextBytes(out), h.fins + Fins(out))
  }

  predicate FinSent(st: State) {
    st == FinWait1 || st == FinWait2 || st == Closing || st == TimeWait || st == LastAck
  }

  /** The sequence space used so far fits 32 bits. */
  ghost predicate NoWrap(h: History) {
    h.tcb.iss + 1 + h.text + h.fins < U32_SIZE
  }

  ghost predicate Accounts(h: History) {
    && h.fins <= 1 && (h.waiting ==> h.begun)
    && (!h.begun ==> (h.tcb == FRESH || h.tcb == FRESH.(state := Listen)) && h.text == h.fins == 0)
    && (h.begun ==> h.tcb.sndNxt == Wrap32(h.tcb.iss + 1 + h.text + h.fins))
    && (FinSent(h.tcb.state) ==> h.fins == 1) && (h.fins == 1 ==> FinSent(h.tcb.state) || h.tcb.state == Closed || h.tcb.state == Listen)
    && (h.tcb.state == SynSent ==> h.tcb.sndUna == h.tcb.iss)
    && (h.begun && NoWrap(h) ==> h.tcb.iss <= h.tcb.sndUna <= h.tcb.sndNxt)
  }

  /** Neither text nor FIN among the segments. */
  ghost predicate Quiet(out: seq<Segment>) {
    TextBytes(out) == 0 && Fins(out) == 0
  }

  lemma {:induction false} QuietConcat(a: seq<Segment>, b: seq<Segment>)
    requires Quiet(a) && Quiet(b)
    ensures Quiet(a + b)
  {
    if a == [] {
      assert a + b == b;
    } else {
      QuietConcat(a[1..], b);
      assert (a + b)[1..] == a[1..] + b;
    }
  }

  /** What an arriving segment may do to the send side. */
  ghost predicate Kept(t: Tcb, t1: Tcb) {
    && t1.sndNxt == t.sndNxt && t1.iss == t.iss
    && (t1.sndUna == t.sndUna || t.sndUna <= t1.sndUna <= t.sndNxt)
    && (FinSent(t1.state) ==> FinSent(t.state))
    && (FinSent(t.state) ==> FinSent(t1.state) || t1.state == Closed)
    && (t1.state == Listen ==> t.state == Listen) && (t1.state == SynSent ==> t.state == SynSent)
  }

  lemma AckFieldKeeps(t: Tcb, s: Segment, accepts: bool)
    ensures Kept(t, AckField(t, s, accepts).0) && Quiet(AckField(t, s, accepts).2)
  {
  }

  lemma ReplyIsQuiet(t: Tcb, s: Segment, out: seq<Segment>)
    requires Quiet(out)
    ensures Quiet(Dropped(t, s, out).1)
  {
    QuietConcat(out, if t.ackNow then AckFor(t, s) else []);
  }

  lemma TextAndFinKeep(t: Tcb, s: Segment, rx: Received)
    ensures Kept(t, FinField(TextField(t, s, rx), s))
    ensures t.state == Closed ==> FinField(TextField(t, s, rx), s).state == Closed
  {
  }

  lemma KeptTwice(t: Tcb, t1: Tcb, t2: Tcb)
    requires Kept(t, t1) && Kept(t1, t2) && (t1.state == Closed ==> t2.state == Closed)
    ensures Kept(t, t2)
  {
  }

  lemma FieldsKeep(t: Tcb, s: Segment, accepts: bool, rx: Received)
    ensures Kept(t, Fields(t, s, accepts, rx).0) && Quiet(Fields(t, s, accepts, rx).1)
  {
    var t0 := if s.syn then t.(state := Closed) else t;
    var out0 := if s.syn then ResetFor(s) else [];
    var (t1, go, out1) := AckField(t0, s, accepts);
    AckFieldKeeps(t0, s, accepts);
    QuietConcat(out0, out1);
    TextAndFinKeep(t1, s, rx);
    KeptTwice(t0, t1, FinField(TextField(t1, s, rx), s));
  }

  lemma SynchronizedKeeps(t: Tcb, s: Segment, accepts: bool, rx: Received)
    requires t.state != SynSent
    ensures Kept(t, Arrive(t, s, accepts, rx).0) && Quiet(Arrive(t, s, accepts, rx).1)
  {
    if !SeqCheck(t, s) {
      ReplyIsQuiet(if s.rst then t else t.(ackNow := true), s, []);
    } else {
      var (t1, out) := Fields(t, s, accepts, rx);
      FieldsKeep(t, s, accepts, rx);
      ReplyIsQuiet(t1, s, out);
    }
  }

  lemma SynSentKeeps(t: Tcb, s: Segment)
    requires t.state == SynSent && t.sndUna == t.iss
    ensures Kept(t, OnSynSent(t, s).0) && Quiet(OnSynSent(t, s).1)
    ensures OnSynSent(t, s).0.state == SynSent ==> OnSynSent(t, s).0.sndUna == t.iss
  {
  }

  /** The account is kept, `snd_una` moves only forward, and nothing new is emitted after a FIN. */
  ghost predicate Advances(h: History, h1: History) {
    && Accounts(h1)
    && (h.begun && NoWrap(h1) ==> h.tcb.sndUna <= h1.tcb.sndUna)
    && (h.fins == 1 ==> h1.text == h.text && h1.fins == h.fins)
  }

  lemma OneSegment(s: Segment)
    ensures TextBytes([s]) == |s.text| && Fins([s]) == if s.fin then 1 else 0
  {
    assert [s][1..] == [];
  }

  lemma OpeningAdvances(h: History, e: Event)
    requires Accounts(h) && (e.Open? || e.Accept?)
    ensures Advances(h, Step(h, e))
  {
    var (t, out) := React(h, e);
    if !h.begun && h.tcb.state != Listen {
      OneSegment(out[0]);
      assert out == [out[0]];
    }
  }

  /** Emitting `text` bytes and `fins` FINs before any FIN went out. */
  lemma EmitAdvances(h: History, t: Tcb, text: nat, fins: nat)
    requires Accounts(h) && h.begun && h.fins == 0 && fins <= 1
    requires t == h.tcb.(state := t.state, sndNxt := Wrap32(h.tcb.sndNxt + (text + fins)), sndWnd := t.sndWnd)
    requires t.state != Listen && t.state != SynSent && (FinSent(t.state) <==> fins == 1)
    ensures Advances(h, h.(tcb := t, text := h.text + text, fins := h.fins + fins))
  {
    WrapAdd(h.tcb.iss + 1 + h.text + h.fins, text + fins);
  }

  lemma SendEmits(t: Tcb, data: seq<byte>, mtu: nat)
    requires mtu > 40
    ensures var (t1, out, n) := SendCall(t, data, mtu);
            if n > 0 then
              && (t.state == Established || t.state == CloseWait)
              && t1 == t.(sndNxt := Wrap32(t.sndNxt + n), sndWnd := t.sndWnd - n)
              && TextBytes(out) == n && Fins(out) == 0
            else t1 == t && out == []
  {
    var n := Min(|data|, t.sndWnd);
    if n > 0 {
      TextSegmentsCarry(t.sndNxt, t.rcvNxt, t.rcvWnd, data[..n], mtu - 40);
    }
  }

  /** A step in terms of what it emits. */
  lemma StepEmits(h: History, e: Event, t: Tcb, out: seq<Segment>, text: nat, fins: nat)
    requires !e.Open? && !e.Accept? && !e.ConnectReturns? && React(h, e) == (t, out) && TextBytes(out) == text && Fins(out) == fins
    ensures Step(h, e) == h.(tcb := t, text := h.text + text, fins := h.fins + fins)
  {
  }

  lemma TextAdvances(h: History, t: Tcb, n: nat)
    requires Accounts(h) && (h.tcb.state == Established || h.tcb.state == CloseWait)
    requires t == h.tcb.(sndNxt := Wrap32(h.tcb.sndNxt + n), sndWnd := t.sndWnd)
    ensures Advances(h, h.(tcb := t, text := h.text + n))
  {
    EmitAdvances(h, t, n, 0);
  }

  lemma SendStep(h: History, e: Event) returns (t: Tcb, n: nat)
    requires e.Send?
    ensures Step(h, e) == h.(tcb := t, text := h.text + n)
    ensures n == 0 ==> t == h.tcb
    ensures n > 0 ==> h.tcb.state == Established || h.tcb.state == CloseWait
    ensures n > 0 ==> t == h.tcb.(sndNxt := Wrap32(h.tcb.sndNxt + n), sndWnd := t.sndWnd)
  {
    var r := SendCall(h.tcb, e.data, e.segsize + 41);
    SendEmits(h.tcb, e.data, e.segsize + 41);
    t, n := r.0, if r.2 > 0 then r.2 else 0;
    StepEmits(h, e, t, r.1, n, 0);
  }

  lemma SendAdvances(h: History, e: Event)
    requires Accounts(h) && e.Send?
    ensures Advances(h, Step(h, e))
  {
    var t, n := SendStep(h, e);
    if n > 0 {
      TextAdvances(h, t, n);
    } else {
      IdleAdvances(h);
    }
  }

  lemma IdleAdvances(h: History)
    requires Accounts(h)
    ensures Advances(h, h)
  {
  }

  lemma CloseAdvances(h: History)
    requires Accounts(h)
    ensures Advances(h, Step(h, UserClose))
  {
    if h.tcb.state == Established || h.tcb.state == CloseWait {
      OneSegment(FinSegment(h.tcb));
      EmitAdvances(h, CloseCall(h.tcb).0, 0, 1);
    }
  }

  lemma KeptAdvances(h: History, t: Tcb)
    requires Accounts(h) && h.begun && Kept(h.tcb, t) && (t.state == SynSent ==> t.sndUna == t.iss)
    requires h.tcb.state == Closed || h.tcb.state == Listen ==> t.state == h.tcb.state
    ensures Advances(h, h.(tcb := t))
  {
  }

  lemma ArriveAdvances(h: History, s: Segment, accepts: bool, rx: Received)
    requires Accounts(h)
    ensures Advances(h, Step(h, Arrives(s, accepts, rx)))
  {
    var t := Arrive(h.tcb, s, accepts, rx).0;
    if h.tcb.state == SynSent {
      SynSentKeeps(h.tcb, s);
      KeptAdvances(h, t);
    } else if h.tcb.state != Closed && h.tcb.state != Listen {
      SynchronizedKeeps(h.tcb, s, accepts, rx);
      KeptAdvances(h, t);
    }
  }

  /** Calls that emit nothing: the connection is given up, or the block becomes a listener. */
  lemma SilentAdvances(h: History, e: Event)
    requires Accounts(h) && (e.Timeout? || e.ConnectReturns? || e.ListenUp?)
    ensures Advances(h, Step(h, e))
  {
  }

  lemma StepAdvances(h: History, e: Event)
    requires Accounts(h)
    ensures Advances(h, Step(h, e))
  {
    match e
    case Open(_) => OpeningAdvances(h, e);
    case Accept(_, _) => OpeningAdvances(h, e);
    case Send(_, _) => SendAdvances(h, e);
    case UserClose => CloseAdvances(h);
    case Arrives(s, accepts, rx) => ArriveAdvances(h, s, accepts, rx);
    case Timeout => SilentAdvances(h, e);
    case ConnectReturns(_) => SilentAdvances(h, e);
    case ListenUp(_) => SilentAdvances(h, e);
  }

  ghost function Run(h: History, es: seq<Event>): (h1: History)
    requires Accounts(h)
    ensures Accounts(h1)
    decreases es
  {
    if es == [] then h else StepAdvances(h, es[0]); Run(Step(h, es[0]), es[1..])
  }

  /** From any point of a run on: while nothing wraps `snd_una` never moves back, and no text follows the FIN. */
  lemma {:induction false} RunAdvances(h: History, es: seq<Event>)
    requires Accounts(h)
    ensures h.begun ==> Run(h, es).tcb.iss == h.tcb.iss && Run(h, es).begun
    ensures h.text <= Run(h, es).text && h.fins <= Run(h, es).fins
    ensures h.begun && NoWrap(Run(h, es)) ==> h.tcb.sndUna <= Run(h, es).tcb.sndUna
    ensures h.fins == 1 ==> Run(h, es).text == h.text
    decreases es
  {
    if es != [] {
      StepAdvances(h, es[0]);
      if h.begun {
        IssIsFixed(h, es[0]);
      }
      RunAdvances(Step(h, es[0]), es[1..]);
    }
  }

  lemma IssIsFixed(h: History, e: Event)
    requires Accounts(h) && h.begun
    ensures Step(h, e).tcb.iss == h.tcb.iss
  {
    if e.Arrives? {
      if h.tcb.state == SynSent {
        SynSentKeeps(h.tcb, e.s);
      } else {
        SynchronizedKeeps(h.tcb, e.s, e.accepts, e.rx);
      }
    }
  }

  /**
   Over every run of a new control block: `snd_nxt` is the initial number plus the SYN, the text and the
   FIN sent, at most one FIN is sent, and as long as nothing wraps `snd_una` stays between the initial
   number and `snd_nxt`.
   */
  lemma SendAccounting(es: seq<Event>)
    ensures var h := Run(NEW, es);
            && h.fins <= 1
            && (h.begun ==> h.tcb.sndNxt == Wrap32(h.tcb.iss + 1 + h.text + h.fins))
            && (h.begun && NoWrap(h) ==> h.tcb.iss <= h.tcb.sndUna <= h.tcb.sndNxt)
  {
    assert Accounts(NEW);
  }
}
