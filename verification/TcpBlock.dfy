/** The control block as the object its handlers update step by step. */
module TcpBlock {
  import opened Words
  import opened TcpControl
  import S = SendSide
  import T = TcpRuns

  lemma AppendOne<T>(a: seq<T>, x: T, b: seq<T>)
    ensures a + ([x] + b) == (a + [x]) + b
  {
  }

  lemma SplitSlice<T>(s: seq<T>, i: nat, n: nat, end: nat)
    requires i + n <= end <= |s|
    ensures s[i..end][..n] == s[i..i + n] && s[i..end][n..] == s[i + n..end]
  {
  }

  /** Emitting the next segment of a send. */
  lemma EmitOne(next: u32, ackno: u32, wnd: u32, data: seq<byte>, mss: nat, out: seq<Segment>, n: nat)
    requires mss > 0 && data != [] && n == Min(mss, |data|)
    ensures var seg := Bare(next, ackno, wnd).(ack := true, text := data[..n], psh := n == |data|);
            out + TextSegments(next, ackno, wnd, data, mss) ==
            (out + [seg]) + TextSegments(Wrap32(next + n), ackno, wnd, data[n..], mss)
  {
    var seg := Bare(next, ackno, wnd).(ack := true, text := data[..n], psh := n == |data|);
    AppendOne(out, seg, TextSegments(Wrap32(next + n), ackno, wnd, data[n..], mss));
  }

  class Block {
    var state: State
    var iss: u32
    var sndUna: u32
    var sndNxt: u32
    var sndWnd: u32
    var sndWl1: u32
    var sndWl2: u32
    var irs: u32
    var rcvNxt: u32
    var rcvWnd: u32
    var ackNow: bool

    ghost function View(): Tcb
      reads this
    {
      Tcb(state, iss, sndUna, sndNxt, sndWnd, sndWl1, sndWl2, irs, rcvNxt, rcvWnd, ackNow)
    }

    /** Until its SYN is answered nothing of a block is acknowledged. */
    ghost predicate Valid()
      reads this
    {
      state == SynSent ==> sndUna == iss
    }

    constructor ()
      ensures Valid() && View() == FRESH
    {
      state, iss, sndUna, sndNxt, sndWnd, sndWl1, sndWl2 := Closed, 0, 0, 0, 0, 0, 0;
      irs, rcvNxt, rcvWnd, ackNow := 0, 0, DEFAULT_WINDOW, false;
    }

    /** `tcp_close`: one FIN that takes one number, in the two states that can still send, and nothing else. */
    method Close() returns (out: seq<Segment>)
      requires Valid()
      modifies this`state, this`sndNxt
      ensures Valid() && (View(), out) == CloseCall(old(View()))
      ensures T.Walk(old(state), state) && S.TextBytes(out) == 0
      ensures S.Fins(out) == if old(state) == Established || old(state) == CloseWait then 1 else 0
      ensures sndNxt == Wrap32(old(sndNxt) + S.Fins(out)) && sndUna == old(sndUna)
      ensures out != [] ==> out[0].fin && out[0].seqno == old(sndNxt) && S.FinSent(state)
    {
      out := [];
      if state == Listen {
        state := Closed;
      } else if state == Established || state == CloseWait {
        state := if state == Established then FinWait1 else LastAck;
        out := [Segment(sndNxt, rcvNxt, rcvWnd % U16_SIZE, false, true, false, true, false, [])];
        S.OneSegment(out[0]);
        sndNxt := Wrap32(sndNxt + 1);
      }
    }

    /** `tcp_send_buf`, with the result of `tcp_send_text`: the bytes that fit the window, in order, and nothing else moves. */
    method Send(data: seq<byte>, mtu: nat) returns (out: seq<Segment>, slen: int)
      requires Valid() && mtu > 40
      modifies this`sndNxt, this`sndWnd
      ensures Valid() && (View(), out, slen) == SendCall(old(View()), data, mtu)
      ensures slen > 0 <==> (state == Established || state == CloseWait) && data != [] && old(sndWnd) > 0
      ensures slen > 0 ==> slen == Min(|data|, old(sndWnd)) && S.Carries(out, old(sndNxt), rcvNxt, data[..slen], mtu - 40)
      ensures slen <= 0 ==> slen == -1 && out == [] && sndNxt == old(sndNxt) && sndWnd == old(sndWnd)
    {
      out, slen := [], -1;
      if state != Established && state != CloseWait {
        return;
      }
      var len := Min(|data|, sndWnd);
      if len > 0 {
        S.SendCarries(View(), data, mtu);
        out := SendText(data, mtu - 40, len);
        slen := len;
      }
    }

    /** The loop of `tcp_send_text`, with `tcp_init_text` in its body. */
    method SendText(data: seq<byte>, mss: nat, len: nat) returns (out: seq<Segment>)
      requires mss > 0 && len <= |data| && len <= sndWnd
      modifies this`sndNxt, this`sndWnd
      ensures sndNxt == Wrap32(old(sndNxt) + len) && sndWnd == old(sndWnd) - len
      ensures out == TextSegments(old(sndNxt), rcvNxt, rcvWnd, data[..len], mss)
    {
      out := [];
      var slen := 0;
      var segsize := mss;
      ghost var rest, all := data[..len], TextSegments(sndNxt, rcvNxt, rcvWnd, data[..len], mss);
      while slen < len
        invariant 0 <= slen <= len && 0 < segsize <= mss && (segsize == mss || slen == len)
        invariant sndNxt == Wrap32(old(sndNxt) + slen) && sndWnd == old(sndWnd) - slen
        invariant rest == data[slen..len] && all == out + TextSegments(sndNxt, rcvNxt, rcvWnd, rest, mss)
      {
        segsize := Min(segsize, len - slen);
        EmitOne(sndNxt, rcvNxt, rcvWnd, rest, mss, out, segsize);
        WrapAdd(old(sndNxt) + slen, segsize);
        SplitSlice(data, slen, segsize, len);
        var seg := Segment(sndNxt, rcvNxt, rcvWnd % U16_SIZE, false, true, false, false, false, data[slen..slen + segsize]);
        sndNxt := Wrap32(sndNxt + segsize);
        sndWnd := sndWnd - segsize;
        slen := slen + segsize;
        if slen >= len {
          seg := seg.(psh := true);
        }
        rest := rest[segsize..];
        out := out + [seg];
      }
    }

    /** SYN-SENT: no text, no FIN, `snd_nxt` stays, and `snd_una` moves only to an acknowledgment of the SYN. */
    method InSynSent(s: Segment) returns (out: seq<Segment>)
      requires state == SynSent
      modifies this
      ensures (View(), out) == OnSynSent(old(View()), s)
      ensures sndNxt == old(sndNxt) && iss == old(iss) && S.Quiet(out)
      ensures sndUna != old(sndUna) ==> s.syn && s.ack && iss < sndUna <= sndNxt && state == Established
    {
      out := [];
      if s.ack && (s.AckNo() <= iss || s.AckNo() > sndNxt) {
        return ResetFor(s);
      }
      if s.rst {
        if s.ack {
          state := Closed;
        }
        return;
      }
      if s.syn {
        irs := s.seqno;
        rcvNxt := Wrap32(s.seqno + 1);
        if s.ack {
          sndUna := s.AckNo();
        }
        if sndUna > iss {
          state := Established;
          sndWnd, sndWl1, sndWl2 := s.wnd, s.seqno, s.AckNo();
          out := [Segment(sndNxt, rcvNxt, rcvWnd % U16_SIZE, false, true, false, false, false, [])];
        } else {
          state := SynRecv;
          out := [Segment(iss, rcvNxt, rcvWnd % U16_SIZE, true, true, false, false, false, [])];
        }
      }
    }

    /** The ACK field touches the send side and the state only; `go` is false when the handler jumps to `drop`. */
    method CheckAck(s: Segment, accepts: bool) returns (go: bool, out: seq<Segment>)
      modifies this`state, this`sndUna, this`sndWnd, this`sndWl1, this`sndWl2
      ensures (View(), go, out) == AckField(old(View()), s, accepts)
      ensures sndUna == old(sndUna) || (old(sndUna) < sndUna <= sndNxt && sndUna == s.AckNo())
      ensures state == old(state) || T.Arrow(old(state), state)
      ensures out != [] ==> !go && out == ResetFor(s) && state == SynRecv
    {
      go, out := true, [];
      if state == SynRecv {
        if sndUna <= s.AckNo() && s.AckNo() <= sndNxt {
          if !accepts {
            return false, [];
          }
          sndUna := s.AckNo();
          sndWnd, sndWl1, sndWl2 := s.wnd, s.seqno, s.AckNo();
          state := Established;
        } else {
          return false, ResetFor(s);
        }
      } else if AcksInState(state) {
        if sndUna < s.AckNo() && s.AckNo() <= sndNxt {
          sndUna := s.AckNo();
          if state == FinWait1 {
            state := FinWait2;
          } else if state == Closing {
            state := TimeWait;
            return false, [];
          } else if state == LastAck {
            state := Closed;
            return false, [];
          }
        } else if s.AckNo() > sndNxt {
          return false, [];
        }
        if sndUna <= s.AckNo() && s.AckNo() <= sndNxt && (sndWl1 < s.seqno || (sndWl1 == s.seqno && sndWl2 <= s.AckNo())) {
          sndWnd, sndWl1, sndWl2 := s.wnd, s.seqno, s.AckNo();
        }
      }
    }

    /** The text and the FIN of a segment touch the receive side and the state only. */
    method CheckTextAndFin(s: Segment, rx: Received)
      modifies this`state, this`rcvNxt, this`rcvWnd, this`ackNow
      ensures View() == FinField(TextField(old(View()), s, rx), s)
      ensures state == old(state) || (s.fin && (T.Arrow(old(state), state) || old(state) == SynRecv))
      ensures s.fin ==> ackNow && rcvNxt == Wrap32(s.seqno + 1)
    {
      if (state == Established || state == FinWait1 || state == FinWait2) && (s.psh || s.text != []) {
        rcvNxt, rcvWnd, ackNow := rx.nxt, rx.wnd, ackNow || rx.ackNow;
      }
      if s.fin {
        if state == SynRecv || state == Established {
          state := CloseWait;
        } else if state == FinWait1 {
          state := Closing;
        } else if state == FinWait2 {
          state := TimeWait;
        }
        rcvNxt := Wrap32(s.seqno + 1);
        ackNow := true;
      }
    }

    /** Steps two to eight of `tcp_process`: `snd_nxt` and the initial numbers stay, `snd_una` moves only to a number in flight. */
    method CheckFields(s: Segment, accepts: bool, rx: Received) returns (out: seq<Segment>)
      modifies this`state, this`sndUna, this`sndWnd, this`sndWl1, this`sndWl2, this`rcvNxt, this`rcvWnd, this`ackNow
      ensures (View(), out) == Fields(old(View()), s, accepts, rx)
      ensures sndUna == old(sndUna) || (s.ack && old(sndUna) < sndUna <= sndNxt && sndUna == s.AckNo())
      ensures s.rst ==> state == Closed && out == []
    {
      out := [];
      if s.rst {
        state := Closed;
        return;
      }
      if s.syn {
        out := ResetFor(s);
        state := Closed;
      }
      if s.ack {
        var go, more := CheckAck(s, accepts);
        out := out + more;
        if go {
          CheckTextAndFin(s, rx);
        }
      }
    }

    /**
     `tcp_process` for a socket that is not a listener: the state walks along the connection diagram, `snd_nxt` stays,
     `snd_una` moves only forward and not past it, and neither text nor FIN goes out.
     */
    method Process(s: Segment, accepts: bool, rx: Received) returns (out: seq<Segment>)
      requires Valid() && state != Listen
      modifies this
      ensures Valid() && (View(), out) == Arrive(old(View()), s, accepts, rx)
      ensures T.Walk(old(state), state)
      ensures sndNxt == old(sndNxt) && iss == old(iss)
      ensures sndUna == old(sndUna) || old(sndUna) <= sndUna <= sndNxt
      ensures S.TextBytes(out) == 0 && S.Fins(out) == 0
    {
      ArriveKeeps(View(), s, accepts, rx);
      out := [];
      if state == Closed {
        return;
      }
      if state == SynSent {
        out := InSynSent(s);
        return;
      }
      if !SeqCheck(Tcb(state, iss, sndUna, sndNxt, sndWnd, sndWl1, sndWl2, irs, rcvNxt, rcvWnd, ackNow), s) {
        if !s.rst {
          ackNow := true;
        }
      } else {
        out := CheckFields(s, accepts, rx);
      }
      var reply := [];
      if ackNow && !s.rst {
        reply := [Segment(sndNxt, rcvNxt, rcvWnd % U16_SIZE, false, true, false, false, false, [])];
      }
      out := out + reply;
    }
  }

  lemma ArriveKeeps(t: Tcb, s: Segment, accepts: bool, rx: Received)
    requires t.state != Listen && (t.state == SynSent ==> t.sndUna == t.iss)
    ensures var (t1, out) := Arrive(t, s, accepts, rx);
            && T.Walk(t.state, t1.state) && S.Kept(t, t1) && S.Quiet(out) && (t1.state == SynSent ==> t1.sndUna == t1.iss)
  {
    T.ArriveWalks(t, s, accepts, rx);
    if t.state == SynSent {
      S.SynSentKeeps(t, s);
    } else {
      S.SynchronizedKeeps(t, s, accepts, rx);
    }
  }
}
