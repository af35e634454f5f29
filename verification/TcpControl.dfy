/** The TCP control block and its handlers (tcp/tcp_state.c, tcp/tcp_out.c, tcp/tcp_in.c, tcp/tcp_sock.c, tcp/tcp_text.c). */
module TcpControl {
  import opened Words

  datatype State =
    | Closed | Listen | SynRecv | SynSent | Established | CloseWait
    | LastAck | FinWait1 | FinWait2 | Closing | TimeWait

  /** The header fields of a segment in host order, and its text. */
  datatype Segment = Segment(seqno: u32, ackno: u32, wnd: u16, syn: bool, ack: bool, rst: bool, fin: bool, psh: bool, text: seq<byte>) {
    /** The sequence space a segment takes. */
    function Len(): nat { |text| + (if syn then 1 else 0) + (if fin then 1 else 0) }
    function LastSeq(): u32 { if Len() > 0 then Wrap32(seqno + Len() - 1) else seqno }
    /** The acknowledgment number as `tcp_segment_init` reads it. */
    function AckNo(): u32 { if ack then ackno else 0 }
  }

  datatype Tcb = Tcb(state: State, iss: u32, sndUna: u32, sndNxt: u32, sndWnd: u32, sndWl1: u32, sndWl2: u32,
                     irs: u32, rcvNxt: u32, rcvWnd: u32, ackNow: bool)

  /** What `tcp_recv_text` makes of the text of a segment. */
  datatype Received = Received(nxt: u32, wnd: u32, ackNow: bool)

  /** A socket from `tcp_alloc_sock`. */
  const FRESH := Tcb(Closed, 0, 0, 0, 0, 0, 0, 0, 0, DEFAULT_WINDOW, false)

  const FIRST_ISS: u32 := 12345678
  const LAST_ISS: u32 := 0xffff_fffe

  /** `alloc_new_iss`. */
  function NextIss(last: u32): u32 {
    if Wrap32(last + 1) >= 0xffff_ffff then FIRST_ISS else Wrap32(last + 1)
  }

  // ---- Segments sent ----------------------------------------------------------------------

  function Bare(seqno: u32, ackno: u32, wnd: u32): Segment {
    Segment(seqno, ackno, wnd % U16_SIZE, false, false, false, false, false, [])
  }

  function SynSegment(t: Tcb): Segment { Bare(t.iss, 0, t.rcvWnd).(syn := true) }
  function SynAckSegment(t: Tcb): Segment { Bare(t.iss, t.rcvNxt, t.rcvWnd).(syn := true, ack := true) }
  function AckSegment(t: Tcb): Segment { Bare(t.sndNxt, t.rcvNxt, t.rcvWnd).(ack := true) }
  function FinSegment(t: Tcb): Segment { Bare(t.sndNxt, t.rcvNxt, t.rcvWnd).(fin := true, ack := true) }

  /** `tcp_send_reset` answers everything but a reset. */
  function ResetFor(s: Segment): seq<Segment> {
    if s.rst then []
    else if s.ack then [Bare(s.ackno, 0, 0).(rst := true)]
    else [Bare(0, Wrap32(s.seqno + s.Len()), 0).(rst := true, ack := true)]
  }

  function AckFor(t: Tcb, s: Segment): seq<Segment> {
    if s.rst then [] else [AckSegment(t)]
  }

  // ---- User calls -------------------------------------------------------------------------

  /** `tcp_connect` up to the wait. */
  function Connect(t: Tcb, iss: u32): (Tcb, seq<Segment>) {
    if t.state != Closed then (t, [])
    else
      var t1 := t.(state := SynSent, iss := iss, sndUna := iss, sndNxt := Wrap32(iss + 1));
      (t1, [SynSegment(t1)])
  }

  /** `tcp_connect` after the wait: anything but an established connection is given up. */
  function ConnectReturn(t: Tcb, err: bool): Tcb {
    if err || t.state != Established then t.(state := Closed) else t
  }

  /** `tcp_listen`; `fits` says that the socket has a port and the backlog is within bounds. */
  function ListenCall(t: Tcb, fits: bool): Tcb {
    if fits && (t.state == Closed || t.state == Listen) then t.(state := Listen) else t
  }

  /** `tcp_close`. */
  function CloseCall(t: Tcb): (Tcb, seq<Segment>) {
    match t.state
    case Listen => (t.(state := Closed), [])
    case Established => (t.(state := FinWait1, sndNxt := Wrap32(t.sndNxt + 1)), [FinSegment(t)])
    case CloseWait => (t.(state := LastAck, sndNxt := Wrap32(t.sndNxt + 1)), [FinSegment(t)])
    case _ => (t, [])
  }

  /** The segments of `tcp_send_text`, `segsize` bytes each but the last, which is pushed. */
  function TextSegments(next: u32, ackno: u32, wnd: u32, data: seq<byte>, segsize: nat): seq<Segment>
    requires segsize > 0
    decreases |data|
  {
    if data == [] then []
    else
      var n := Min(segsize, |data|);
      [Bare(next, ackno, wnd).(ack := true, text := data[..n], psh := n == |data|)] +
      TextSegments(Wrap32(next + n), ackno, wnd, data[n..], segsize)
  }

  /** `tcp_send_buf`: the result is the count of bytes sent, or -1. */
  function SendCall(t: Tcb, data: seq<byte>, mtu: nat): (Tcb, seq<Segment>, int)
    requires mtu > 40
  {
    var n := Min(|data|, t.sndWnd);
    if (t.state != Established && t.state != CloseWait) || n <= 0 then (t, [], -1)
    else
      (t.(sndNxt := Wrap32(t.sndNxt + n), sndWnd := t.sndWnd - n), TextSegments(t.sndNxt, t.rcvNxt, t.rcvWnd, data[..n], mtu - 40), n)
  }

  // ---- Segment arrival --------------------------------------------------------------------

  /** The child a listener makes for a SYN, and its answer. */
  function ListenChild(s: Segment, iss: u32): (Tcb, seq<Segment>) {
    var t := FRESH.(state := SynRecv, irs := s.seqno, iss := iss, rcvNxt := Wrap32(s.seqno + 1));
    (t.(sndNxt := Wrap32(iss + 1), sndUna := iss), [SynAckSegment(t)])
  }

  /** `tcp_listen` on an arriving segment. */
  function OnListen(s: Segment, iss: u32): (Option<Tcb>, seq<Segment>) {
    if s.rst then (None, [])
    else if s.ack then (None, ResetFor(s))
    else if !s.syn then (None, [])
    else var (t, out) := ListenChild(s, iss); (Some(t), out)
  }

  /** `seq_check`, in 32-bit arithmetic. */
  predicate SeqCheck(t: Tcb, s: Segment) {
    s.seqno < Wrap32(t.rcvNxt + (if t.rcvWnd == 0 then 1 else t.rcvWnd)) && t.rcvNxt <= s.LastSeq()
  }

  function SetWindow(t: Tcb, s: Segment): Tcb {
    t.(sndWnd := s.wnd, sndWl1 := s.seqno, sndWl2 := s.AckNo())
  }

  function UpdateWindow(t: Tcb, s: Segment): Tcb {
    if t.sndUna <= s.AckNo() <= t.sndNxt && (t.sndWl1 < s.seqno || (t.sndWl1 == s.seqno && t.sndWl2 <= s.AckNo()))
    then SetWindow(t, s) else t
  }

  function OnSynSent(t: Tcb, s: Segment): (Tcb, seq<Segment>) {
    if s.ack && (s.AckNo() <= t.iss || s.AckNo() > t.sndNxt) then (t, ResetFor(s))
    else if s.rst then (if s.ack then t.(state := Closed) else t, [])
    else if s.syn then
      var t1 := t.(irs := s.seqno, rcvNxt := Wrap32(s.seqno + 1), sndUna := if s.ack then s.AckNo() else t.sndUna);
      if t1.sndUna > t1.iss then
        var t2 := SetWindow(t1, s).(state := Established);
        (t2, AckFor(t2, s))
      else
        var t2 := t1.(state := SynRecv);
        (t2, [SynAckSegment(t2)])
    else (t, [])
  }

  /** Leaving a handler through `drop`: an acknowledgment follows once one was asked for. */
  function Dropped(t: Tcb, s: Segment, out: seq<Segment>): (Tcb, seq<Segment>) {
    (t, out + if t.ackNow then AckFor(t, s) else [])
  }

  /** The ACK field in SYN-RECEIVED; `accepts` says whether the accept queue takes the connection. */
  function SynRecvAck(t: Tcb, s: Segment, accepts: bool): (Tcb, bool, seq<Segment>) {
    if t.sndUna <= s.AckNo() <= t.sndNxt then
      if accepts then (SetWindow(t.(sndUna := s.AckNo()), s).(state := Established), true, [])
      else (t, false, [])
    else (t, false, ResetFor(s))
  }

  /** The ACK field in the states that follow; the flag says whether processing goes on. */
  function StateAck(t: Tcb, s: Segment): (Tcb, bool) {
    if t.sndUna < s.AckNo() <= t.sndNxt then
      var t1 := t.(sndUna := s.AckNo());
      match t.state
      case FinWait1 => (UpdateWindow(t1.(state := FinWait2), s), true)
      case Closing => (t1.(state := TimeWait), false)
      case LastAck => (t1.(state := Closed), false)
      case _ => (UpdateWindow(t1, s), true)
    else if s.AckNo() > t.sndNxt then (t, false)
    else (UpdateWindow(t, s), true)
  }

  predicate AcksInState(st: State) {
    st == Established || st == CloseWait || st == LastAck || st == FinWait1 || st == Closing
  }

  function AckField(t: Tcb, s: Segment, accepts: bool): (Tcb, bool, seq<Segment>) {
    if t.state == SynRecv then SynRecvAck(t, s, accepts)
    else if AcksInState(t.state) then
      var (t1, go) := StateAck(t, s); (t1, go, [])
    else (t, true, [])
  }

  function TextField(t: Tcb, s: Segment, rx: Received): Tcb {
    if (t.state == Established || t.state == FinWait1 || t.state == FinWait2) && (s.psh || s.text != [])
    then t.(rcvNxt := rx.nxt, rcvWnd := rx.wnd, ackNow := t.ackNow || rx.ackNow) else t
  }

  function FinField(t: Tcb, s: Segment): Tcb {
    if !s.fin then t
    else
      var st := match t.state
                case SynRecv => CloseWait
                case Established => CloseWait
                case FinWait1 => Closing
                case FinWait2 => TimeWait
                case other => other;
      t.(state := st, rcvNxt := Wrap32(s.seqno + 1), ackNow := true)
  }

  /** The RST, SYN, ACK, text and FIN fields of a segment inside the window, up to `drop`. */
  function Fields(t: Tcb, s: Segment, accepts: bool, rx: Received): (Tcb, seq<Segment>) {
    if s.rst then (t.(state := Closed), [])
    else
      var t0 := if s.syn then t.(state := Closed) else t;
      var out0 := if s.syn then ResetFor(s) else [];
      if !s.ack then (t0, out0)
      else
        var (t1, go, out1) := AckField(t0, s, accepts);
        (if go then FinField(TextField(t1, s, rx), s) else t1, out0 + out1)
  }

  /** `tcp_process` on an existing socket other than a listener. */
  function Arrive(t: Tcb, s: Segment, accepts: bool, rx: Received): (Tcb, seq<Segment>) {
    if t.state == Closed || t.state == Listen then (t, [])
    else if t.state == SynSent then OnSynSent(t, s)
    else if !SeqCheck(t, s) then Dropped(if s.rst then t else t.(ackNow := true), s, [])
    else var (t1, out) := Fields(t, s, accepts, rx); Dropped(t1, s, out)
  }

  /** `tcp_timewait_timer` for a block whose time is up. */
  function Expire(t: Tcb): Tcb {
    if t.state == TimeWait then t.(state := Closed) else t
  }
}
