/** Which segments the sequence check lets through (tcp/tcp_state.c, sections 3.3 and 3.9 of RFC 793). */
module SeqCheckProofs {
  import opened Words
  import opened TcpControl
  import TcpReceive

  function Room(t: Tcb): int {
    if t.rcvWnd == 0 then 1 else t.rcvWnd
  }

  /** Neither the window nor the segment passes the end of the sequence space. */
  predicate Unwrapped(t: Tcb, s: Segment) {
    t.rcvNxt + Room(t) < U32_SIZE && s.seqno + s.Len() < U32_SIZE
  }

  /** The acceptance table of RFC 793. */
  predicate RfcAcceptable(t: Tcb, s: Segment) {
    var last := s.seqno + s.Len() - 1;
    if s.Len() == 0 then
      if t.rcvWnd == 0 then s.seqno == t.rcvNxt else t.rcvNxt <= s.seqno < t.rcvNxt + t.rcvWnd
    else
      t.rcvWnd > 0 && (t.rcvNxt <= s.seqno < t.rcvNxt + t.rcvWnd || t.rcvNxt <= last < t.rcvNxt + t.rcvWnd)
  }

  /** A segment that occupies the next number while the window is shut, or that covers the whole window from both sides. */
  predicate Stretches(t: Tcb, s: Segment) {
    && s.Len() > 0 && s.seqno <= t.rcvNxt
    && if t.rcvWnd == 0 then t.rcvNxt < s.seqno + s.Len()
       else s.seqno < t.rcvNxt && t.rcvNxt + t.rcvWnd < s.seqno + s.Len()
  }

  /** While nothing wraps, the check is the table of RFC 793 and the two kinds of segment it leaves out. */
  lemma SeqCheckVersusRfc(t: Tcb, s: Segment)
    requires Unwrapped(t, s)
    ensures SeqCheck(t, s) <==> RfcAcceptable(t, s) || Stretches(t, s)
    ensures !(RfcAcceptable(t, s) && Stretches(t, s))
  {
    assert s.Len() > 0 ==> s.LastSeq() == s.seqno + s.Len() - 1;
  }

  /** While nothing wraps, a text segment passes the check exactly when the receive side calls it acceptable. */
  lemma SeqCheckIsAcceptable(t: Tcb, s: Segment, r: TcpReceive.Receiver)
    requires Unwrapped(t, s) && !s.syn && !s.fin && r.nxt == t.rcvNxt && r.wnd == t.rcvWnd
    ensures SeqCheck(t, s) <==> TcpReceive.Acceptable(r, TcpReceive.Chunk(s.seqno, s.text))
  {
    assert s.Len() == |s.text|;
    assert s.Len() > 0 ==> s.LastSeq() == s.seqno + s.Len() - 1;
  }

  /** The segment expected next is let through if and only if neither the window nor the segment wraps. */
  lemma NextSegmentPassesIff(t: Tcb, s: Segment)
    requires s.seqno == t.rcvNxt && s.Len() < U32_SIZE
    ensures SeqCheck(t, s) <==>
            t.rcvNxt + Room(t) < U32_SIZE && (s.Len() == 0 || t.rcvNxt + s.Len() - 1 < U32_SIZE)
  {
    var end, last := t.rcvNxt + Room(t), t.rcvNxt + s.Len() - 1;
    assert end >= U32_SIZE ==> Wrap32(end) == end - U32_SIZE;
    assert last >= U32_SIZE ==> Wrap32(last) == last - U32_SIZE;
  }
}
