/** The receive half of a TCP socket as the object the handlers update in place. */
module TcpReceiver {
  import opened Words
  import opened TcpReceive
  import CircularBuffer
  import C = TcpControl

  /** A result for the queue from `i` on, put back behind the entries before `i`. */
  function Behind(q: seq<Chunk>, i: nat, m: (seq<Chunk>, Placed)): (seq<Chunk>, Placed)
    requires i <= |q|
  {
    (q[..i] + m.0, m.1)
  }

  lemma BehindNone(q: seq<Chunk>, m: (seq<Chunk>, Placed))
    ensures Behind(q, 0, m) == m
  {
    assert q[..0] + m.0 == m.0;
  }

  lemma BehindStep(q: seq<Chunk>, i: nat, m: (seq<Chunk>, Placed))
    requires 0 < i <= |q|
    ensures Behind(q, i - 1, ([q[i - 1]] + m.0, m.1)) == Behind(q, i, m)
  {
    assert q[..i - 1] + ([q[i - 1]] + m.0) == q[..i] + m.0;
  }

  /** Where the search stops: entry `i - 1` starts at or before the chunk, and entry `i` after it. */
  lemma MergeStops(q: seq<Chunk>, i: nat, c: Chunk)
    requires 0 < i <= |q|
    requires q[i - 1].start <= c.start && (i < |q| ==> c.start < q[i].start)
    ensures i < |q| && Trim(c, q[i - 1].End()).None? ==> Behind(q, i - 1, Merge(q[i - 1..], c)) == (q, Refused)
    ensures var o := if i < |q| then Trim(c, q[i - 1].End()) else Some(c);
            o.Some? ==> Behind(q, i - 1, Merge(q[i - 1..], c)) == Behind(q, i, Absorb(q[i..], o.value))
  {
    var t := q[i - 1..];
    assert t[0] == q[i - 1] && t[1..] == q[i..];
    assert t == [q[i - 1]] + q[i..] && q == q[..i - 1] + t;
    var o := if i < |q| then Trim(c, q[i - 1].End()) else Some(c);
    if o.Some? {
      assert t == [t[0]] + t[1..] && (i == |q| ==> t + [c] == [t[0]] + [c]);
      BehindStep(q, i, Absorb(q[i..], o.value));
    }
  }

  /** Passing entry `i` when it does not start after the chunk. */
  lemma MergePasses(q: seq<Chunk>, i: nat, c: Chunk)
    requires 0 < i < |q| && q[i - 1].start <= c.start && q[i].start <= c.start
    ensures Behind(q, i - 1, Merge(q[i - 1..], c)) == Behind(q, i, Merge(q[i..], c))
  {
    assert q[i - 1..][1..] == q[i..];
    BehindStep(q, i, Merge(q[i..], c));
  }

  /** The search and absorb loops of the reassembly. */
  method MergeQueue(q: seq<Chunk>, c0: Chunk) returns (q1: seq<Chunk>, how: Placed)
    ensures (q1, how) == Merge(q, c0)
  {
    var c := c0;
    var i := 0;
    assert q[0..] == q;
    while i < |q|
      invariant 0 <= i <= |q| && c == c0
      invariant i == 0 ==> q[i..] == q
      invariant i > 0 ==> q[i - 1].start <= c.start
      invariant i > 0 ==> Merge(q, c) == Behind(q, i - 1, Merge(q[i - 1..], c))
    {
      if c.start < q[i].start {
        break;
      }
      if i == 0 {
        BehindNone(q, Merge(q, c));
      } else {
        MergePasses(q, i, c);
      }
      i := i + 1;
    }
    if i == 0 {
      BehindNone(q, Absorb(q, c));
    } else {
      MergeStops(q, i, c);
    }
    if 0 < i < |q| {
      match Trim(c, q[i - 1].End())
      case None => return q, Refused;
      case Some(c1) => c := c1;
    }
    q1, how := AbsorbQueue(q, i, c);
  }

  method AbsorbQueue(q: seq<Chunk>, i: nat, c0: Chunk) returns (q1: seq<Chunk>, how: Placed)
    requires i <= |q|
    ensures (q1, how) == Behind(q, i, Absorb(q[i..], c0))
  {
    q1 := q;
    var c := c0;
    ghost var j := i;
    while i < |q1|
      invariant i <= j <= |q| && q1 == q[..i] + q[j..]
      invariant Absorb(q[i..], c0) == Absorb(q[j..], c0)
      decreases |q1|
    {
      var t := q1[i];
      assert t == q[j..][0];
      if c.End() < t.End() {
        if c.End() > t.start {
          if t.start < c.start {
            return q1, BadCut;
          }
          c := c.(text := c.text[..t.start - c.start]);
          if c.text == [] {
            return q1, Refused;
          }
        }
        break;
      }
      assert q[j..][1..] == q[j + 1..];
      q1 := q1[..i] + q1[i + 1..];
      j := j + 1;
    }
    assert q1[i..] == q[j..] && q1[..i] == q[..i];
    assert Absorb(q[j..], c0) == ([c] + q[j..], Inserted) by {
      assert q[j..] == [] ==> [c] + q[j..] == [c];
    }
    q1 := q1[..i] + [c] + q1[i..];
    how := Inserted;
    assert q1 == q[..i] + ([c] + q[j..]);
  }

  class TcpSock {
    var rcvNxt: nat
    var rcvWnd: nat
    var rcvBuf: CircularBuffer.CBuf?
    var rcvReass: seq<Chunk>
    var push: bool
    ghost var taken: seq<byte>

    ghost function Repr(): set<object>
      reads this
    {
      if rcvBuf == null then {this} else {this, rcvBuf, rcvBuf.buf}
    }

    ghost predicate Valid()
      reads Repr()
    {
      rcvBuf != null ==> rcvBuf.Valid()
    }

    /** The state the handlers maintain. */
    ghost function View(): Receiver
      requires Valid()
      reads Repr()
    {
      var buf := if rcvBuf == null then NoBuffer else Buffer(rcvBuf.size, rcvBuf.Contents());
      Receiver(rcvNxt, rcvWnd, buf, rcvReass, push, taken)
    }

    constructor (base: nat)
      ensures Valid() && View() == Fresh(base)
    {
      rcvNxt, rcvWnd, rcvBuf, rcvReass, push, taken := base, DEFAULT_WINDOW, null, [], false, [];
    }

    method WriteBuf(text: seq<byte>) returns (rlen: int)
      requires Valid() && BufferOk(View())
      modifies Repr()
      ensures Valid() && fresh(Repr() - old(Repr()))
      ensures (View(), rlen) == TcpReceive.WriteBuf(old(View()), text)
    {
      if rcvBuf == null {
        rcvBuf := new CircularBuffer.CBuf(rcvWnd);
      }
      rlen := rcvBuf.Write(text);
      if rlen > 0 {
        rcvWnd := rcvWnd - rlen;
        rcvNxt := rcvNxt + rlen;
      }
    }

    /** The drain loop; `ok` is false when its assertion fails. */
    method DrainReass() returns (ok: bool, len: int)
      requires Valid() && BufferOk(View())
      modifies Repr()
      ensures Valid() && fresh(Repr() - old(Repr()))
      ensures match Drain(old(View()))
              case Running(r) => ok && View() == r && len == r.nxt - old(rcvNxt)
              case _ => !ok
    {
      len := 0;
      while rcvReass != []
        invariant Valid() && fresh(Repr() - old(Repr())) && BufferOk(View())
        invariant Drain(View()) == Drain(old(View()))
        invariant len == rcvNxt - old(rcvNxt)
        decreases |rcvReass|
      {
        var trh := rcvReass[0];
        if trh.start > rcvNxt {
          break;
        }
        if trh.start != rcvNxt {
          return false, len;
        }
        var rlen := WriteBuf(trh.text);
        if rlen <= 0 {
          return true, len;
        }
        len := len + rlen;
        rcvReass := rcvReass[1..];
      }
      ok := true;
    }

    method SegmentReass(c: Chunk, psh: bool) returns (ok: bool)
      requires Valid() && BufferOk(View())
      modifies Repr()
      ensures Valid() && fresh(Repr() - old(Repr()))
      ensures match TcpReceive.SegmentReass(old(View()), c, psh)
              case Running(r) => ok && View() == r
              case _ => !ok
    {
      var q, how := MergeQueue(rcvReass, c);
      rcvReass := q;
      ok := how != BadCut;
      if how == Inserted {
        var len;
        ok, len := DrainReass();
        if ok && len > 0 && psh {
          push := true;
        }
      }
    }

    /** `ack` says that an acknowledgment is asked for, now or later. */
    method RecvText(c: Chunk, psh: bool) returns (ok: bool, ack: bool)
      requires Valid() && BufferOk(View())
      modifies Repr()
      ensures Valid() && fresh(Repr() - old(Repr()))
      ensures match TcpReceive.RecvText(old(View()), c, psh)
              case Running(r) => ok && View() == r
              case _ => !ok
      ensures ack <==> Answered(old(View()), c)
    {
      ok, ack := true, false;
      if rcvWnd == 0 {
        return;
      }
      match Trim(c, rcvNxt)
      case None =>
      case Some(c1) =>
        if rcvNxt == c1.start && rcvReass == [] {
          var rlen := WriteBuf(c1.text);
          if rlen > 0 && psh {
            push := true;
          }
        } else {
          ok := SegmentReass(c1, psh);
        }
        ack := true;
    }

    /** The FIN of the peer in SYN-RECEIVED or ESTABLISHED. */
    method RecvFin()
      requires Valid()
      modifies this`push
      ensures Valid() && View() == NoteFin(old(View()))
    {
      push := true;
    }

    /** One pass of the read loop. */
    method Fill(len: nat) returns (text: seq<byte>)
      requires Valid() && BufferOk(View())
      modifies Repr()
      ensures Valid() && Repr() == old(Repr())
      ensures View() == Take(old(View()), len)
      ensures taken == old(taken) + text && |text| <= len && (|text| < len ==> View().Pending() == [])
    {
      text := [];
      if rcvBuf != null {
        var curlen;
        curlen, text := rcvBuf.Read(len);
        rcvWnd := rcvWnd + curlen;
      }
      taken := taken + text;
    }

    /** The read loop; `blocked` is set where the source would sleep for more text. */
    method RecvBuf(len: nat) returns (text: seq<byte>, blocked: bool)
      requires Valid() && BufferOk(View())
      modifies Repr()
      ensures Valid() && Repr() == old(Repr())
      ensures View() == TcpReceive.RecvBuf(old(View()), len)
      ensures taken == old(taken) + text && |text| <= len
      ensures blocked <==> Blocks(old(View()), len)
      ensures |text| == Min(len, |old(View().Pending())|)
    {
      text, blocked := [], false;
      while |text| < len
        invariant Valid() && Repr() == old(Repr())
        invariant |text| <= len && taken == old(taken) + text
        invariant text == [] ==> View() == old(View())
        invariant text != [] ==> |text| == len <= |old(View().Pending())| && View() == TcpReceive.RecvBuf(old(View()), len)
      {
        var cur := Fill(len - |text|);
        text := text + cur;
        var more := rcvBuf != null && rcvBuf.Used() > 0;
        assert more <==> View().Pending() != [];
        if !(push || more || |text| >= len) {
          return text, true;
        }
        if push && !more {
          push := false;
          break;
        }
      }
    }

    /** `tcp_recv_buf`: a state that cannot be read from is refused, and so is CLOSE-WAIT with nothing left; `None` is the result -1. */
    method Read(st: C.State, len: nat) returns (ret: Option<seq<byte>>, blocked: bool)
      requires Valid() && BufferOk(View())
      modifies Repr()
      ensures Valid() && Repr() == old(Repr())
      ensures ret.None? <==> !(st == C.Established || st == C.FinWait1 || st == C.FinWait2 || (st == C.CloseWait && old(View().Pending()) != []))
      ensures ret.None? ==> View() == old(View()) && !blocked
      ensures ret.Some? ==> View() == TcpReceive.RecvBuf(old(View()), len) && taken == old(taken) + ret.value
      ensures ret.Some? ==> |ret.value| == Min(len, |old(View().Pending())|) && (blocked <==> Blocks(old(View()), len))
    {
      ret, blocked := None, false;
      match st {
        case Listen => return;
        case SynSent => return;
        case SynRecv => return;
        case LastAck => return;
        case Closing => return;
        case TimeWait => return;
        case Closed => return;
        case CloseWait =>
          if rcvBuf == null || rcvBuf.Used() == 0 {
            return;
          }
        case _ =>
      }
      var text;
      text, blocked := RecvBuf(len);
      ret := Some(text);
    }

    method Close()
      requires Valid()
      modifies Repr()
      ensures Valid() && View() == TcpReceive.Close(old(View()))
    {
      rcvBuf := null;
      rcvReass := [];
    }
  }
}
