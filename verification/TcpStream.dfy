/**
 One direction of a connection from end to end: what the send calls of one side put into segments, in
 whatever order and however often the network delivers them, is what the user of the other side reads.
 */
module TcpStream {
  import opened Words
  import opened TcpControl
  import S = SendSide
  import R = TcpReceive
  import P = TcpReceiveProofs

  // ---- Segments cut from data -------------------------------------------------------------

  /** The text of a segment is the part of `data` at its number, when the data is numbered from `at` on. */
  ghost predicate Slice(g: Segment, data: seq<byte>, at: nat) {
    at <= g.seqno && g.seqno - at + |g.text| <= |data| && g.text == data[g.seqno - at..g.seqno - at + |g.text|]
  }

  /** Each segment with text is a part of `data`. */
  ghost predicate Slices(out: seq<Segment>, data: seq<byte>, at: nat) {
    out == [] || ((out[0].text != [] ==> Slice(out[0], data, at)) && Slices(out[1..], data, at))
  }

  lemma {:induction false} SlicesConcat(a: seq<Segment>, b: seq<Segment>, data: seq<byte>, at: nat)
    requires Slices(a, data, at) && Slices(b, data, at)
    ensures Slices(a + b, data, at)
  {
    if a == [] {
      assert a + b == b;
    } else {
      SlicesConcat(a[1..], b, data, at);
      assert (a + b)[1..] == a[1..] + b;
    }
  }

  lemma {:induction false} SlicesBefore(out: seq<Segment>, data: seq<byte>, post: seq<byte>, at: nat)
    requires Slices(out, data, at)
    ensures Slices(out, data + post, at)
  {
    if out != [] {
      SlicesBefore(out[1..], data, post, at);
      if out[0].text != [] {
        var i := out[0].seqno - at;
        assert (data + post)[i..i + |out[0].text|] == data[i..i + |out[0].text|];
      }
    }
  }

  lemma {:induction false} SlicesBehind(out: seq<Segment>, pre: seq<byte>, data: seq<byte>, at: nat)
    requires Slices(out, data, at + |pre|)
    ensures Slices(out, pre + data, at)
  {
    if out != [] {
      SlicesBehind(out[1..], pre, data, at);
      if out[0].text != [] {
        var i := out[0].seqno - at;
        assert (pre + data)[i..i + |out[0].text|] == data[i - |pre|..i - |pre| + |out[0].text|];
      }
    }
  }

  lemma {:induction false} QuietSlices(out: seq<Segment>, data: seq<byte>, at: nat)
    requires S.TextBytes(out) == 0
    ensures Slices(out, data, at)
  {
    if out != [] {
      QuietSlices(out[1..], data, at);
    }
  }

  lemma SlicesCons(g: Segment, rest: seq<Segment>, data: seq<byte>, n: nat, at: nat)
    requires 0 < n <= |data| && g.seqno == at && g.text == data[..n] && Slices(rest, data[n..], at + n)
    ensures Slices([g] + rest, data, at)
  {
    SlicesBehind(rest, data[..n], data[n..], at);
    assert data[..n] + data[n..] == data;
    assert ([g] + rest)[1..] == rest;
  }

  /** The first segment of a send and the segments after it. */
  lemma FirstSegment(next: u32, ackno: u32, wnd: u32, data: seq<byte>, segsize: nat) returns (g: Segment, n: nat)
    requires segsize > 0 && next + |data| < U32_SIZE && data != []
    ensures 0 < n <= |data| && g.seqno == next && g.text == data[..n]
    ensures TextSegments(next, ackno, wnd, data, segsize) == [g] + TextSegments(next + n, ackno, wnd, data[n..], segsize)
  {
    n := Min(segsize, |data|);
    g := Bare(next, ackno, wnd).(ack := true, text := data[..n], psh := n == |data|);
  }

  /** The segments of one send are parts of its data. */
  lemma {:induction false} TextSlices(next: u32, ackno: u32, wnd: u32, data: seq<byte>, segsize: nat)
    requires segsize > 0 && next + |data| < U32_SIZE
    ensures Slices(TextSegments(next, ackno, wnd, data, segsize), data, next)
    decreases |data|
  {
    if data != [] {
      var g, n := FirstSegment(next, ackno, wnd, data, segsize);
      var rest := TextSegments(next + n, ackno, wnd, data[n..], segsize);
      TextSlices(next + n, ackno, wnd, data[n..], segsize);
      SlicesCons(g, rest, data, n, next);
    }
  }

  // ---- What a run of the sender emits -----------------------------------------------------

  /** What one step emits, and the bytes it takes from the user. */
  datatype Item = Item(out: seq<Segment>, took: seq<byte>)

  /** The bytes a step takes from the user: of a send call, as many as it reports sent. */
  ghost function Accepted(h: S.History, e: S.Event): seq<byte> {
    if !e.Send? then []
    else
      var n := SendCall(h.tcb, e.data, e.segsize + 41).2;
      if n > 0 then e.data[..n] else []
  }

  /** All segments emitted in a run. */
  ghost function Emitted(items: seq<Item>): seq<Segment> {
    if items == [] then [] else items[0].out + Emitted(items[1..])
  }

  /** The data of a run, in the order of the send calls. */
  ghost function Data(items: seq<Item>): seq<byte> {
    if items == [] then [] else items[0].took + Data(items[1..])
  }

  /** Each step emits parts of the bytes it takes, which are numbered on from those before. */
  ghost predicate Numbered(items: seq<Item>, at: nat) {
    items == [] || (Slices(items[0].out, items[0].took, at) && Numbered(items[1..], at + |items[0].took|))
  }

  /** The number of the next byte of data. */
  ghost function At(h: S.History): nat {
    h.tcb.iss + 1 + h.text
  }

  /** Only a send call emits text. */
  lemma OthersAreQuiet(h: S.History, e: S.Event)
    requires S.Accounts(h) && !e.Send?
    ensures S.TextBytes(S.React(h, e).1) == 0
  {
    match e
    case Open(iss) => OneQuiet(Connect(h.tcb, iss).1);
    case Accept(syn, iss) => OneQuiet(ListenChild(syn, iss).1);
    case UserClose => OneQuiet(CloseCall(h.tcb).1);
    case Arrives(g, accepts, rx) =>
      if h.tcb.state == SynSent {
        S.SynSentKeeps(h.tcb, g);
      } else {
        S.SynchronizedKeeps(h.tcb, g, accepts, rx);
      }
    case _ =>
  }

  lemma OneQuiet(out: seq<Segment>)
    requires |out| <= 1 && (out != [] ==> out[0].text == [])
    ensures S.TextBytes(out) == 0
  {
    if out != [] {
      S.OneSegment(out[0]);
      assert out == [out[0]];
    }
  }

  lemma SendStepTakes(h: S.History, e: S.Event)
    requires e.Send?
    ensures S.Step(h, e).text == h.text + |Accepted(h, e)|
    ensures |Accepted(h, e)| > 0 ==> h.tcb.state == Established || h.tcb.state == CloseWait
  {
    S.SendEmits(h.tcb, e.data, e.segsize + 41);
  }

  lemma StepMoves(h: S.History, e: S.Event)
    requires S.Accounts(h) && h.begun
    ensures S.Accounts(S.Step(h, e)) && S.Step(h, e).begun && At(S.Step(h, e)) == At(h) + |Accepted(h, e)|
  {
    S.StepAdvances(h, e);
    S.IssIsFixed(h, e);
    if e.Send? {
      SendStepTakes(h, e);
    } else {
      OthersAreQuiet(h, e);
    }
  }

  lemma SentSlices(t: Tcb, data: seq<byte>, mtu: nat, n: nat)
    requires mtu > 40 && n == SendCall(t, data, mtu).2 && 0 < n <= |data| && t.sndNxt + n < U32_SIZE
    ensures Slices(SendCall(t, data, mtu).1, data[..n], t.sndNxt)
  {
    TextSlices(t.sndNxt, t.rcvNxt, t.rcvWnd, data[..n], mtu - 40);
  }

  /** Where a send call that takes something starts. */
  lemma SendFits(h: S.History, e: S.Event)
    requires S.Accounts(h) && h.begun && e.Send? && S.NoWrap(S.Step(h, e)) && |Accepted(h, e)| > 0
    ensures h.tcb.sndNxt == At(h) && At(h) + |Accepted(h, e)| < U32_SIZE
  {
    StepMoves(h, e);
    SendStepTakes(h, e);
    Unfinished(h);
  }

  lemma Unfinished(h: S.History)
    requires S.Accounts(h) && h.begun && (h.tcb.state == Established || h.tcb.state == CloseWait)
    ensures h.fins == 0 && h.tcb.sndNxt == Wrap32(At(h))
  {
  }

  /** A step emits parts of the bytes it takes. */
  lemma StepSlices(h: S.History, e: S.Event)
    requires S.Accounts(h) && h.begun && S.NoWrap(S.Step(h, e))
    ensures Slices(S.React(h, e).1, Accepted(h, e), At(h))
  {
    if !e.Send? {
      OthersAreQuiet(h, e);
      QuietSlices(S.React(h, e).1, [], At(h));
    } else if |Accepted(h, e)| > 0 {
      SendFits(h, e);
      SentSlices(h.tcb, e.data, e.segsize + 41, SendCall(h.tcb, e.data, e.segsize + 41).2);
    }
  }

  /** The run read as a list: `items` is what the steps of a run from `h` give. */
  ghost predicate Gives(h: S.History, es: seq<S.Event>, items: seq<Item>)
    decreases es
  {
    if es == [] then items == []
    else items != [] && items[0] == Item(S.React(h, es[0]).1, Accepted(h, es[0])) && Gives(S.Step(h, es[0]), es[1..], items[1..])
  }

  lemma StepUnwraps(h: S.History, e: S.Event)
    requires S.Accounts(h) && h.begun && At(h) + |Accepted(h, e)| + 1 < U32_SIZE
    ensures S.NoWrap(S.Step(h, e))
  {
    StepMoves(h, e);
  }

  /** The first step of a run, without the handlers. */
  lemma FirstStep(h: S.History, es: seq<S.Event>, items: seq<Item>) returns (h1: S.History)
    requires S.Accounts(h) && h.begun && es != [] && Gives(h, es, items) && At(h) + |Data(items)| + 1 < U32_SIZE
    ensures items != [] && S.Accounts(h1) && h1.begun && At(h1) == At(h) + |items[0].took|
    ensures Gives(h1, es[1..], items[1..])
    ensures Slices(items[0].out, items[0].took, At(h))
  {
    h1 := S.Step(h, es[0]);
    StepMoves(h, es[0]);
    StepUnwraps(h, es[0]);
    StepSlices(h, es[0]);
  }

  /** Over every run of the sender whose data fits the sequence space, each step emits parts of the bytes it takes, numbered in order. */
  lemma {:induction false} RunIsNumbered(h: S.History, es: seq<S.Event>, items: seq<Item>)
    requires S.Accounts(h) && h.begun && Gives(h, es, items) && At(h) + |Data(items)| + 1 < U32_SIZE
    ensures Numbered(items, At(h))
    decreases |es|
  {
    if es != [] {
      var h1 := FirstStep(h, es, items);
      RunIsNumbered(h1, es[1..], items[1..]);
    }
  }

  /** All text of a run is cut from the data it accepted. */
  lemma {:induction false} EmittedSlices(items: seq<Item>, at: nat)
    requires Numbered(items, at)
    ensures Slices(Emitted(items), Data(items), at)
  {
    if items != [] {
      var took, rest := items[0].took, items[1..];
      EmittedSlices(rest, at + |took|);
      SlicesBefore(items[0].out, took, Data(rest), at);
      SlicesBehind(Emitted(rest), took, Data(rest), at);
      SlicesConcat(items[0].out, Emitted(rest), Data(items), at);
    }
  }

  // ---- The network and the receiver -------------------------------------------------------

  /** The receiver's run: reads, and deliveries of emitted text, in any order and any number of times. */
  ghost predicate Delivers(rs: seq<P.Event>, out: seq<Segment>) {
    rs == [] ||
    (!rs[0].UserClose? && (rs[0].Text? ==> exists g :: g in out && Delivered(g, rs[0].c)) && Delivers(rs[1..], out))
  }

  ghost predicate Delivered(g: Segment, c: R.Chunk) {
    g.text != [] && c == R.Chunk(g.seqno, g.text)
  }

  lemma {:induction false} SliceAt(out: seq<Segment>, g: Segment, data: seq<byte>, at: nat)
    requires Slices(out, data, at) && g in out && g.text != []
    ensures Slice(g, data, at)
  {
    if out[0] != g {
      SliceAt(out[1..], g, data, at);
    }
  }

  /** The stream that has `data` from `base` on. */
  ghost function StreamOf(base: nat, data: seq<byte>): nat -> byte {
    p => if base <= p < base + |data| then data[p - base] else 0
  }

  lemma SliceAgrees(g: Segment, data: seq<byte>, at: nat)
    requires Slice(g, data, at)
    ensures P.Agrees(R.Chunk(g.seqno, g.text), StreamOf(at, data))
  {
  }

  lemma {:induction false} DeliveredIsStream(rs: seq<P.Event>, out: seq<Segment>, data: seq<byte>, base: nat, p: nat)
    requires Slices(out, data, base) && Delivers(rs, out)
    ensures P.FromStream(rs, StreamOf(base, data)) && (P.Offered(rs, p) ==> p < base + |data|)
  {
    if rs != [] {
      if rs[0].Text? {
        var g :| g in out && Delivered(g, rs[0].c);
        SliceAt(out, g, data, base);
        SliceAgrees(g, data, base);
      }
      DeliveredIsStream(rs[1..], out, data, base, p);
    }
  }

  /** Everything delivered to the user was sent: the received text is no longer than the data. */
  lemma NotBeyond(base: nat, rs: seq<P.Event>, data: seq<byte>, out: seq<Segment>)
    requires Delivers(rs, out) && Slices(out, data, base)
    requires P.Run(R.Fresh(base), rs).Running?
    ensures P.Run(R.Fresh(base), rs).r.nxt <= base + |data|
  {
    var nxt := P.Run(R.Fresh(base), rs).r.nxt;
    if nxt > base + |data| {
      DeliveredIsStream(rs, out, data, base, nxt - 1);
      P.OnlyOffered(R.Fresh(base), rs, nxt - 1);
      assert false;
    }
  }

  lemma PrefixOf(base: nat, x: seq<byte>, data: seq<byte>)
    requires |x| <= |data| && P.Agrees(R.Chunk(base, x), StreamOf(base, data))
    ensures x == data[..|x|]
  {
    forall k | 0 <= k < |x| ensures x[k] == data[k] {
      assert x[k] == StreamOf(base, data)(base + k);
    }
  }

  /**
   Unless the run failed the user's text is a prefix of the data. A handled run does not fail, and brings all of it
   once it arrived in the window.
   */
  ghost predicate Received(base: nat, data: seq<byte>, rs: seq<P.Event>) {
    var o := P.Run(R.Fresh(base), rs);
    && (o.Running? ==> o.r.taken + o.r.Pending() <= data)
    && (P.HandledRun(R.Fresh(base), rs) ==>
          && o.Running?
          && ((forall p :: base <= p < base + |data| ==> P.Carried(R.Fresh(base), rs, p)) ==> o.r.taken + o.r.Pending() == data))
  }

  /** What is read from deliveries of segments cut from the data is a prefix of the data. */
  lemma ReceivedIsPrefix(base: nat, data: seq<byte>, out: seq<Segment>, rs: seq<P.Event>)
    requires Slices(out, data, base) && Delivers(rs, out)
    ensures Received(base, data, rs)
  {
    DeliveredIsStream(rs, out, data, base, 0);
    P.ReceiveStream(base, rs, StreamOf(base, data), base + |data|);
    var o := P.Run(R.Fresh(base), rs);
    if o.Running? {
      NotBeyond(base, rs, data, out);
      PrefixOf(base, o.r.taken + o.r.Pending(), data);
    }
  }

  lemma NumberedIsReceived(items: seq<Item>, base: nat, rs: seq<P.Event>)
    requires Numbered(items, base) && Delivers(rs, Emitted(items))
    ensures Received(base, Data(items), rs)
  {
    EmittedSlices(items, base);
    ReceivedIsPrefix(base, Data(items), Emitted(items), rs);
  }

  lemma StartsAt(h: S.History)
    requires S.Accounts(h) && h.begun && h.fins == 0 && At(h) < U32_SIZE
    ensures h.tcb.sndNxt == At(h)
  {
  }

  /**
   From a sender without FIN on, over every run of sends, arrivals and calls on its side whose data fits the sequence
   space, and every run of reads and deliveries on the other side that has not failed: the text read and the text
   buffered are a prefix of the data the send calls accepted. If the deliveries are handled the run does not fail, and
   they are all of the data once every byte has arrived inside the window.
   */
  lemma SentIsReceived(h: S.History, es: seq<S.Event>, items: seq<Item>, base: nat, rs: seq<P.Event>)
    requires S.Accounts(h) && h.begun && h.fins == 0 && Gives(h, es, items)
    requires base == h.tcb.iss + 1 + h.text && base + |Data(items)| + 1 < U32_SIZE
    requires Delivers(rs, Emitted(items))
    ensures base == h.tcb.sndNxt
    ensures Received(base, Data(items), rs)
  {
    StartsAt(h);
    RunIsNumbered(h, es, items);
    NumberedIsReceived(items, base, rs);
  }
}
