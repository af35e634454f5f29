/** What the receive side of a TCP connection guarantees, step by step and over whole runs. */
module TcpReceiveProofs {
  import opened Words
  import opened TcpReceive

  /** The byte numbered `p` sits in the reassembly queue. */
  ghost predicate Queued(q: seq<Chunk>, p: nat) {
    q != [] && (q[0].Covers(p) || Queued(q[1..], p))
  }

  /** The byte numbered `p` was delivered or is queued. */
  ghost predicate Held(r: Receiver, p: nat) {
    p < r.nxt || Queued(r.queue, p)
  }

  /** The chunk was cut from the stream `s`, where `s(p)` is the byte numbered `p`. */
  ghost predicate Agrees(c: Chunk, s: nat -> byte) {
    forall k :: 0 <= k < |c.text| ==> c.text[k] == s(c.start + k)
  }

  ghost predicate AllAgree(q: seq<Chunk>, s: nat -> byte) {
    q == [] || (Agrees(q[0], s) && AllAgree(q[1..], s))
  }

  /** What the user has, followed by what is buffered, is the stream from `base` up to `nxt`. */
  ghost predicate InOrder(r: Receiver, base: nat, s: nat -> byte) {
    Agrees(Chunk(base, r.taken + r.Pending()), s) && r.nxt == base + |r.taken| + |r.Pending()|
  }

  ghost predicate Faithful(r: Receiver, base: nat, s: nat -> byte) {
    InOrder(r, base, s) && AllAgree(r.queue, s)
  }

  // ---- Reassembly -------------------------------------------------------------------------

  predicate StartsInLast(q: seq<Chunk>, p: nat) {
    q != [] && q[|q| - 1].Covers(p)
  }

  /** Absorbing keeps the queue in order and adds exactly the bytes of the chunk. */
  lemma {:induction false} AbsorbAdds(q: seq<Chunk>, c: Chunk, hi: nat, s: nat -> byte, p: nat)
    requires Ordered(q, c.start) && Below(q, hi) && c.text != [] && c.start < hi
    ensures var (q1, how) := Absorb(q, c);
            && Ordered(q1, c.start) && Below(q1, hi)
            && how != BadCut && (how == Refused ==> q1 == q && q != [] && q[0].start == c.start)
            && (Queued(q1, p) <==> Queued(q, p) || c.Covers(p))
            && (AllAgree(q, s) && Agrees(c, s) ==> AllAgree(q1, s))
  {
    if q == [] {
    } else if c.End() < q[0].End() {
      var q1 := Absorb(q, c).0;
      assert q1 != q ==> q1[1..] == q;
    } else {
      OrderedFrom(q[1..], q[0].End(), c.start);
      AbsorbAdds(q[1..], c, hi, s, p);
    }
  }

  /** Unless the chunk starts inside the last entry, merging adds exactly its bytes and keeps the queue in order. */
  lemma {:induction false} MergeAdds(q: seq<Chunk>, lo: nat, c: Chunk, hi: nat, s: nat -> byte, p: nat)
    requires Ordered(q, lo) && Below(q, hi) && c.text != [] && lo <= c.start < hi && !StartsInLast(q, c.start)
    ensures var (q1, how) := Merge(q, c);
            && Ordered(q1, lo) && Below(q1, hi)
            && how != BadCut && (how == Refused ==> q1 == q)
            && (Queued(q1, p) <==> Queued(q, p) || c.Covers(p))
            && (AllAgree(q, s) && Agrees(c, s) ==> AllAgree(q1, s))
  {
    if q == [] {
    } else if c.start < q[0].start {
      AbsorbAdds(q, c, hi, s, p);
    } else if |q| == 1 {
      assert Merge(q, c).0[1..] == [c];
    } else if c.start < q[1].start {
      var o := Trim(c, q[0].End());
      if o.Some? {
        AbsorbAdds(q[1..], o.value, hi, s, p);
        assert Merge(q, c).0[1..] == Absorb(q[1..], o.value).0;
      }
    } else {
      MergeAdds(q[1..], q[0].End(), c, hi, s, p);
      assert Merge(q, c).0[1..] == Merge(q[1..], c).0;
    }
  }

  // ---- Delivery ---------------------------------------------------------------------------

  /** The state with `n` more bytes of the front chunk delivered is still the stream in order. */
  lemma WriteKeepsOrder(r: Receiver, text: seq<byte>, base: nat, s: nat -> byte)
    requires BufferOk(r) && Agrees(Chunk(r.nxt, text), s) && InOrder(r, base, s)
    ensures InOrder(WriteBuf(r, text).0, base, s)
  {
    var (r1, n) := WriteBuf(r, text);
    assert r1.taken + r1.Pending() == (r.taken + r.Pending()) + text[..n];
  }

  /** Draining never trips the assertion, loses only bytes past the right edge and leaves nothing deliverable behind. */
  lemma {:induction false} DrainDelivers(r: Receiver, base: nat, s: nat -> byte, p: nat)
    requires BufferOk(r) && Ordered(r.queue, r.nxt) && Below(r.queue, r.Edge())
    ensures var o := Drain(r);
            && o.Running? && WellFormed(o.r)
            && o.r.Edge() == r.Edge() && o.r.taken == r.taken && o.r.nxt >= r.nxt
            && (Held(o.r, p) ==> Held(r, p))
            && (Held(r, p) && p < r.Edge() ==> Held(o.r, p))
            && (Faithful(r, base, s) ==> Faithful(o.r, base, s))
    decreases |r.queue|
  {
    if r.queue != [] && r.queue[0].start == r.nxt {
      var c := r.queue[0];
      var (r1, n) := WriteBuf(r, c.text);
      if Faithful(r, base, s) {
        WriteKeepsOrder(r, c.text, base, s);
      }
      DrainDelivers(r1.(queue := r.queue[1..]), base, s, p);
    }
  }

  // ---- One text segment -------------------------------------------------------------------

  predicate InsideEarlier(q: seq<Chunk>, p: nat) {
    |q| > 1 && (q[0].Covers(p) || InsideEarlier(q[1..], p))
  }

  /**
   The segments the code handles: after trimming to the window, text must not start inside the
   last queued entry, and an empty (push only) segment must not reach the queue.
   */
  predicate Safe(r: Receiver, c: Chunk) {
    r.wnd == 0 ||
    match Trim(c, r.nxt)
    case None => true
    case Some(c1) =>
      if c1.text == [] then (r.queue == [] && c1.start == r.nxt) || InsideEarlier(r.queue, c1.start)
      else !StartsInLast(r.queue, c1.start)
  }

  /** What a step that offers the chunk `c` promises about the byte numbered `p` and the stream `s`. */
  ghost predicate Took(r: Receiver, c: Chunk, o: Outcome, base: nat, s: nat -> byte, p: nat) {
    && o.Running? && WellFormed(o.r)
    && o.r.Edge() == r.Edge() && o.r.taken == r.taken && o.r.nxt >= r.nxt
    && (Held(o.r, p) ==> Held(r, p) || c.Covers(p))
    && ((Held(r, p) || c.Covers(p)) && p < r.Edge() ==> Held(o.r, p))
    && (Faithful(r, base, s) && Agrees(c, s) ==> Faithful(o.r, base, s))
  }

  lemma PushTakes(r: Receiver, c: Chunk, o: Outcome, psh: bool, base: nat, s: nat -> byte, p: nat)
    requires Took(r, c, o, base, s, p)
    ensures Took(r, c, NotePush(r, o, psh), base, s, p)
  {
    var r1 := o.r.(push := true);
    assert InOrder(o.r, base, s) ==> InOrder(r1, base, s);
  }

  lemma ReassTakes(r: Receiver, c: Chunk, psh: bool, base: nat, s: nat -> byte, p: nat)
    requires WellFormed(r) && c.text != [] && r.nxt <= c.start < r.Edge() && !StartsInLast(r.queue, c.start)
    ensures Took(r, c, SegmentReass(r, c, psh), base, s, p)
  {
    OrderedFrom(r.queue, r.nxt + 1, r.nxt);
    MergeAdds(r.queue, r.nxt, c, r.Edge(), s, p);
    var (q, how) := Merge(r.queue, c);
    if how == Inserted {
      DrainDelivers(r.(queue := q), base, s, p);
      PushTakes(r, c, Drain(r.(queue := q)), psh, base, s, p);
    }
  }

  lemma InOrderTakes(r: Receiver, c: Chunk, psh: bool, base: nat, s: nat -> byte, p: nat)
    requires WellFormed(r) && r.nxt == c.start && r.queue == []
    ensures Took(r, c, NotePush(r, Running(WriteBuf(r, c.text).0), psh), base, s, p)
  {
    if Faithful(r, base, s) && Agrees(c, s) {
      WriteKeepsOrder(r, c.text, base, s);
    }
  }

  /** A safe segment: its bytes inside the window are delivered or queued, and nothing else changes. */
  lemma SafeTextStep(r: Receiver, c: Chunk, psh: bool, base: nat, s: nat -> byte, p: nat)
    requires WellFormed(r) && Acceptable(r, c) && Safe(r, c)
    ensures Took(r, c, RecvText(r, c, psh), base, s, p)
  {
    var t := Trim(c, r.nxt);
    if r.wnd > 0 && t.Some? {
      var c1 := t.value;
      assert Agrees(c, s) ==> Agrees(c1, s);
      if r.nxt == c1.start && r.queue == [] {
        InOrderTakes(r, c1, psh, base, s, p);
      } else if c1.text == [] {
        EmptyInside(r.queue, c1, r.nxt + 1);
      } else {
        ReassTakes(r, c1, psh, base, s, p);
      }
    }
  }

  /** An empty segment inside an entry that has a successor is dropped. */
  lemma {:induction false} EmptyInside(q: seq<Chunk>, c: Chunk, lo: nat)
    requires Ordered(q, lo) && c.text == [] && InsideEarlier(q, c.start)
    ensures q[0].start <= c.start && Merge(q, c) == (q, Refused)
  {
    if !q[0].Covers(c.start) {
      EmptyInside(q[1..], c, q[0].End());
      assert [q[0]] + q[1..] == q;
    }
  }

  ghost predicate HasEmpty(q: seq<Chunk>) {
    q != [] && (q[0].text == [] || HasEmpty(q[1..]))
  }

  lemma {:induction false} EmptyIsNotOrdered(q: seq<Chunk>, lo: nat)
    requires HasEmpty(q)
    ensures !Ordered(q, lo)
  {
    if q[0].text != [] {
      EmptyIsNotOrdered(q[1..], q[0].End());
    }
  }

  /** Any other empty segment becomes an entry of its own. */
  lemma {:induction false} EmptyIsInserted(q: seq<Chunk>, c: Chunk, lo: nat)
    requires Ordered(q, lo) && c.text == [] && !InsideEarlier(q, c.start)
    ensures var (q1, how) := Merge(q, c);
            how == Inserted && HasEmpty(q1) && (q1[0] == c || (q != [] && q1[0] == q[0]))
  {
    if q == [] || c.start < q[0].start {
    } else if |q| == 1 {
      assert Merge(q, c).0[1..] == [c];
    } else if c.start < q[1].start {
      assert Merge(q, c).0[1..] == Absorb(q[1..], c).0;
    } else {
      EmptyIsInserted(q[1..], c, q[0].End());
      assert Merge(q, c).0[1..] == Merge(q[1..], c).0;
    }
  }

  /** Text that starts inside the last entry is appended as it is, and overlaps it. */
  lemma {:induction false} OverlapIsAppended(q: seq<Chunk>, c: Chunk, lo: nat)
    requires Ordered(q, lo) && StartsInLast(q, c.start)
    ensures Merge(q, c) == (q + [c], Inserted)
    ensures !Ordered(q + [c], lo)
  {
    assert (q + [c])[1..] == q[1..] + [c];
    if |q| > 1 {
      LastIsAbove(q[1..], q[0].End());
      OverlapIsAppended(q[1..], c, q[0].End());
      assert [q[0]] + (q[1..] + [c]) == q + [c];
    } else {
      assert q[1..] + [c] == [c];
    }
  }

  lemma {:induction false} LastIsAbove(q: seq<Chunk>, lo: nat)
    requires Ordered(q, lo) && q != []
    ensures lo <= q[0].start <= q[|q| - 1].start
  {
    if |q| > 1 {
      LastIsAbove(q[1..], q[0].End());
    }
  }

  /**
   The exact condition: from a well-formed state the assertion of the drain loop holds for every
   segment, and the state stays well-formed if and only if the segment is safe.
   */
  lemma TextStepIff(r: Receiver, c: Chunk, psh: bool)
    requires WellFormed(r) && Acceptable(r, c)
    ensures RecvText(r, c, psh).Running?
    ensures WellFormed(RecvText(r, c, psh).r) <==> Safe(r, c)
  {
    if Safe(r, c) {
      SafeTextStep(r, c, psh, 0, p => 0, 0);
    } else {
      var c1 := Trim(c, r.nxt).value;
      if c1.text == [] {
        EmptyIsInserted(r.queue, c1, r.nxt + 1);
        EmptyIsNotOrdered(Merge(r.queue, c1).0, r.nxt + 1);
      } else {
        OverlapIsAppended(r.queue, c1, r.nxt + 1);
      }
    }
  }

  // ---- Whole runs -------------------------------------------------------------------------

  datatype Event = Text(c: Chunk, psh: bool) | Read(len: nat) | UserClose

  ghost function Step(r: Receiver, e: Event): Outcome
    requires BufferOk(r)
  {
    match e
    case Text(c, psh) => if Acceptable(r, c) then RecvText(r, c, psh) else Running(r)
    case Read(len) => Running(RecvBuf(r, len))
    case UserClose => Running(Close(r))
  }

  /** The window is the free space, and its right edge has moved by what the user took since `r`. */
  ghost predicate WindowMoved(r: Receiver, o: Outcome) {
    o.Running? ==> BufferOk(o.r) && o.r.Edge() - |o.r.taken| == r.Edge() - |r.taken| && |r.taken| <= |o.r.taken|
  }

  lemma {:induction false} DrainKeepsWindow(r: Receiver)
    requires BufferOk(r)
    ensures WindowMoved(r, Drain(r))
    decreases |r.queue|
  {
    if r.queue != [] && r.queue[0].start == r.nxt {
      DrainKeepsWindow(WriteBuf(r, r.queue[0].text).0.(queue := r.queue[1..]));
    }
  }

  lemma ReassKeepsWindow(r: Receiver, c: Chunk, psh: bool)
    requires BufferOk(r)
    ensures WindowMoved(r, SegmentReass(r, c, psh))
  {
    DrainKeepsWindow(r.(queue := Merge(r.queue, c).0));
  }

  lemma TextKeepsWindow(r: Receiver, c: Chunk, psh: bool)
    requires BufferOk(r)
    ensures WindowMoved(r, RecvText(r, c, psh))
  {
    var t := Trim(c, r.nxt);
    if r.wnd > 0 && t.Some? && !(r.nxt == t.value.start && r.queue == []) {
      ReassKeepsWindow(r, t.value, psh);
    }
  }

  /** Every step keeps the window equal to the free space, whatever the segment and whatever is queued. */
  lemma StepMovesWindow(r: Receiver, e: Event)
    requires BufferOk(r)
    ensures WindowMoved(r, Step(r, e))
  {
    if e.Text? {
      TextKeepsWindow(r, e.c, e.psh);
    }
  }

  ghost function Run(r: Receiver, es: seq<Event>): (o: Outcome)
    requires BufferOk(r)
    ensures o.Running? ==> BufferOk(o.r)
    decreases es
  {
    if es == [] then Running(r)
    else
      StepMovesWindow(r, es[0]);
      match Step(r, es[0])
      case Running(r1) => Run(r1, es[1..])
      case failed => failed
  }

  /** In every run, of whatever segments, the window is the free space, and its right edge moves by exactly what the user reads. */
  lemma {:induction false} WindowRun(r: Receiver, es: seq<Event>)
    requires BufferOk(r)
    ensures WindowMoved(r, Run(r, es))
    decreases es
  {
    if es != [] && Step(r, es[0]).Running? {
      StepMovesWindow(r, es[0]);
      WindowRun(Step(r, es[0]).r, es[1..]);
    }
  }

  /** The event is a user call, or a segment that the code drops or handles. */
  ghost predicate Handled(r: Receiver, e: Event) {
    e.Text? && Acceptable(r, e.c) ==> Safe(r, e.c)
  }

  lemma StepKeeps(r: Receiver, e: Event)
    requires WellFormed(r) && Handled(r, e)
    ensures Step(r, e).Running? && WellFormed(Step(r, e).r)
  {
    if e.Text? && Acceptable(r, e.c) {
      SafeTextStep(r, e.c, e.psh, 0, p => 0, 0);
    } else if e.Read? {
      BelowFrom(r.queue, r.Edge(), RecvBuf(r, e.len).Edge());
    }
  }

  lemma {:induction false} BelowFrom(q: seq<Chunk>, hi: nat, more: nat)
    requires Below(q, hi) && hi <= more
    ensures Below(q, more)
  {
    if q != [] {
      BelowFrom(q[1..], hi, more);
    }
  }

  ghost predicate HandledRun(r: Receiver, es: seq<Event>)
    requires WellFormed(r)
    decreases es
  {
    es == [] || (Handled(r, es[0]) && (StepKeeps(r, es[0]); HandledRun(Step(r, es[0]).r, es[1..])))
  }

  /** A run of handled events ends in a well-formed state; none of the assertions fails. */
  lemma {:induction false} HandledRuns(r: Receiver, es: seq<Event>)
    requires WellFormed(r) && HandledRun(r, es)
    ensures Run(r, es).Running? && WellFormed(Run(r, es).r)
    decreases es
  {
    if es != [] {
      StepKeeps(r, es[0]);
      HandledRuns(Step(r, es[0]).r, es[1..]);
    }
  }

  /** A byte that was inside the window when a segment carried it. */
  ghost predicate Carried(r: Receiver, es: seq<Event>, p: nat)
    requires WellFormed(r) && HandledRun(r, es)
    decreases es
  {
    es != [] && (StepKeeps(r, es[0]);
    || (es[0].Text? && Acceptable(r, es[0].c) && es[0].c.Covers(p) && p < r.Edge())
    || Carried(Step(r, es[0]).r, es[1..], p))
  }

  /** Some segment of the run carries the byte, accepted or not. */
  ghost predicate Offered(es: seq<Event>, p: nat) {
    es != [] && ((es[0].Text? && es[0].c.Covers(p)) || Offered(es[1..], p))
  }

  /** Every segment of the run was cut from the stream `s`, and the user does not close. */
  ghost predicate FromStream(es: seq<Event>, s: nat -> byte) {
    es == [] || (!es[0].UserClose? && (es[0].Text? ==> Agrees(es[0].c, s)) && FromStream(es[1..], s))
  }

  lemma ReadKeepsStream(r: Receiver, len: nat, base: nat, s: nat -> byte)
    requires BufferOk(r) && Faithful(r, base, s)
    ensures Faithful(RecvBuf(r, len), base, s)
  {
    var r1 := RecvBuf(r, len);
    assert r1.taken + r1.Pending() == r.taken + r.Pending();
  }

  // ---- Any queue: what is held comes from the stream ----

  lemma {:induction false} AbsorbAgrees(q: seq<Chunk>, c: Chunk, s: nat -> byte)
    requires AllAgree(q, s) && Agrees(c, s)
    ensures AllAgree(Absorb(q, c).0, s)
  {
    if q != [] {
      if c.End() < q[0].End() {
        var q1 := Absorb(q, c).0;
        assert q1 != q ==> q1[1..] == q;
      } else {
        AbsorbAgrees(q[1..], c, s);
      }
    }
  }

  lemma TrimAgrees(c: Chunk, nseq: nat, s: nat -> byte)
    requires Agrees(c, s) && Trim(c, nseq).Some?
    ensures Agrees(Trim(c, nseq).value, s)
  {
  }

  lemma {:induction false} MergeAgrees(q: seq<Chunk>, c: Chunk, s: nat -> byte)
    requires AllAgree(q, s) && Agrees(c, s)
    ensures AllAgree(Merge(q, c).0, s)
  {
    if q == [] {
    } else if c.start < q[0].start {
      AbsorbAgrees(q, c, s);
    } else if |q| == 1 {
      assert Merge(q, c).0[1..] == [c];
    } else if c.start < q[1].start {
      var o := Trim(c, q[0].End());
      if o.Some? {
        TrimAgrees(c, q[0].End(), s);
        AbsorbAgrees(q[1..], o.value, s);
        assert Merge(q, c).0[1..] == Absorb(q[1..], o.value).0;
      }
    } else {
      MergeAgrees(q[1..], c, s);
      assert Merge(q, c).0[1..] == Merge(q[1..], c).0;
    }
  }

  lemma {:induction false} DrainAgrees(r: Receiver, base: nat, s: nat -> byte)
    requires BufferOk(r) && Faithful(r, base, s)
    ensures Drain(r).Running? ==> Faithful(Drain(r).r, base, s)
    decreases |r.queue|
  {
    if r.queue != [] && r.queue[0].start == r.nxt {
      WriteKeepsOrder(r, r.queue[0].text, base, s);
      DrainAgrees(WriteBuf(r, r.queue[0].text).0.(queue := r.queue[1..]), base, s);
    }
  }

  lemma PushAgrees(r: Receiver, push: bool, base: nat, s: nat -> byte)
    requires Faithful(r, base, s)
    ensures Faithful(r.(push := push), base, s)
  {
    assert r.(push := push).Pending() == r.Pending();
  }

  lemma ReassAgrees(r: Receiver, c: Chunk, psh: bool, base: nat, s: nat -> byte)
    requires BufferOk(r) && Faithful(r, base, s) && Agrees(c, s)
    ensures SegmentReass(r, c, psh).Running? ==> Faithful(SegmentReass(r, c, psh).r, base, s)
  {
    MergeAgrees(r.queue, c, s);
    var r1 := r.(queue := Merge(r.queue, c).0);
    assert r1.Pending() == r.Pending();
    DrainAgrees(r1, base, s);
    if Drain(r1).Running? {
      PushAgrees(Drain(r1).r, true, base, s);
    }
  }

  /** Whatever is queued, a segment cut from the stream leaves the user's text, the buffer and the queue equal to the stream. */
  lemma TextAgrees(r: Receiver, c: Chunk, psh: bool, base: nat, s: nat -> byte)
    requires BufferOk(r) && Faithful(r, base, s) && Agrees(c, s)
    ensures RecvText(r, c, psh).Running? ==> Faithful(RecvText(r, c, psh).r, base, s)
  {
    var t := Trim(c, r.nxt);
    if r.wnd > 0 && t.Some? {
      TrimAgrees(c, r.nxt, s);
      if r.nxt == t.value.start && r.queue == [] {
        WriteKeepsOrder(r, t.value.text, base, s);
        PushAgrees(WriteBuf(r, t.value.text).0, true, base, s);
      } else {
        ReassAgrees(r, t.value, psh, base, s);
      }
    }
  }

  /** Over every run that has not failed the user reads the stream in order, and each queued chunk is the stream at its own number. */
  lemma {:induction false} StreamRun(r: Receiver, es: seq<Event>, base: nat, s: nat -> byte)
    requires BufferOk(r) && FromStream(es, s) && Faithful(r, base, s)
    ensures Run(r, es).Running? ==> Faithful(Run(r, es).r, base, s)
    decreases es
  {
    if es != [] && Step(r, es[0]).Running? {
      StepMovesWindow(r, es[0]);
      if es[0].Text? {
        TextAgrees(r, es[0].c, es[0].psh, base, s);
      } else {
        ReadKeepsStream(r, es[0].len, base, s);
      }
      StreamRun(Step(r, es[0]).r, es[1..], base, s);
    }
  }

  lemma {:induction false} AbsorbHolds(q: seq<Chunk>, c: Chunk, p: nat)
    requires Queued(Absorb(q, c).0, p)
    ensures Queued(q, p) || c.Covers(p)
  {
    if q != [] {
      if c.End() < q[0].End() {
        var q1 := Absorb(q, c).0;
        assert q1 != q ==> q1[1..] == q;
      } else {
        AbsorbHolds(q[1..], c, p);
      }
    }
  }

  lemma {:induction false} MergeHolds(q: seq<Chunk>, c: Chunk, p: nat)
    requires Queued(Merge(q, c).0, p)
    ensures Queued(q, p) || c.Covers(p)
  {
    if q == [] {
    } else if c.start < q[0].start {
      AbsorbHolds(q, c, p);
    } else if |q| == 1 {
      assert Merge(q, c).0[1..] == [c] && [c][1..] == [];
      assert !Queued([], p);
    } else if c.start < q[1].start {
      var o := Trim(c, q[0].End());
      if o.Some? {
        assert Merge(q, c).0[1..] == Absorb(q[1..], o.value).0;
        if !q[0].Covers(p) {
          AbsorbHolds(q[1..], o.value, p);
        }
      }
    } else {
      assert Merge(q, c).0[1..] == Merge(q[1..], c).0;
      if !q[0].Covers(p) {
        MergeHolds(q[1..], c, p);
      }
    }
  }

  lemma {:induction false} DrainHolds(r: Receiver, p: nat)
    requires BufferOk(r) && Drain(r).Running? && Held(Drain(r).r, p)
    ensures Held(r, p)
    decreases |r.queue|
  {
    if r.queue != [] && r.queue[0].start == r.nxt {
      var (r1, n) := WriteBuf(r, r.queue[0].text);
      if n > 0 {
        DrainHolds(r1.(queue := r.queue[1..]), p);
      }
    }
  }

  lemma ReassHolds(r: Receiver, c: Chunk, psh: bool, p: nat)
    requires BufferOk(r) && SegmentReass(r, c, psh).Running? && Held(SegmentReass(r, c, psh).r, p)
    ensures Held(r, p) || c.Covers(p)
  {
    var (q, how) := Merge(r.queue, c);
    if how == Inserted {
      DrainHolds(r.(queue := q), p);
    }
    if p >= r.nxt {
      MergeHolds(r.queue, c, p);
    }
  }

  lemma TextHolds(r: Receiver, c: Chunk, psh: bool, p: nat)
    requires BufferOk(r) && RecvText(r, c, psh).Running? && Held(RecvText(r, c, psh).r, p)
    ensures Held(r, p) || c.Covers(p)
  {
    var t := Trim(c, r.nxt);
    if r.wnd > 0 && t.Some? && !(r.nxt == t.value.start && r.queue == []) {
      ReassHolds(r, t.value, psh, p);
    }
  }

  /** No byte is made up: what is held after a run that has not failed was held before it or offered in it. */
  lemma {:induction false} OnlyOffered(r: Receiver, es: seq<Event>, p: nat)
    requires BufferOk(r) && Run(r, es).Running? && Held(Run(r, es).r, p)
    ensures Held(r, p) || Offered(es, p)
    decreases es
  {
    if es != [] {
      StepMovesWindow(r, es[0]);
      OnlyOffered(Step(r, es[0]).r, es[1..], p);
      if es[0].Text? && Acceptable(r, es[0].c) && Held(Step(r, es[0]).r, p) {
        TextHolds(r, es[0].c, es[0].psh, p);
      }
    }
  }

  /** A close forgets what was queued: a byte above `rcv_nxt` is held later only if a segment carries it again. */
  lemma CloseForgets(r: Receiver, es: seq<Event>, p: nat)
    requires BufferOk(r) && p >= r.nxt && BufferOk(Close(r))
    requires Run(Close(r), es).Running? && Held(Run(Close(r), es).r, p)
    ensures Offered(es, p)
  {
    OnlyOffered(Close(r), es, p);
  }

  /** No byte is lost: what was in the window when it was held or carried is held at the end of the run. */
  lemma {:induction false} HeldRun(r: Receiver, es: seq<Event>, p: nat, s: nat -> byte)
    requires WellFormed(r) && HandledRun(r, es) && FromStream(es, s)
    requires (Held(r, p) && p < r.Edge()) || Carried(r, es, p)
    ensures Run(r, es).Running? && Held(Run(r, es).r, p)
    decreases es
  {
    if es != [] {
      StepKeeps(r, es[0]);
      if es[0].Text? && Acceptable(r, es[0].c) {
        SafeTextStep(r, es[0].c, es[0].psh, 0, s, p);
      }
      HeldRun(Step(r, es[0]).r, es[1..], p, s);
    }
  }

  lemma {:induction false} NothingBelowFront(q: seq<Chunk>, lo: nat, p: nat)
    requires Ordered(q, lo) && p < lo
    ensures !Queued(q, p)
  {
    if q != [] {
      NothingBelowFront(q[1..], q[0].End(), p);
    }
  }

  /** Over a handled run, once every byte below `n` has arrived inside the window all of them are delivered. */
  lemma AllDelivered(base: nat, es: seq<Event>, s: nat -> byte, n: nat)
    requires HandledRun(Fresh(base), es) && FromStream(es, s)
    requires forall p :: base <= p < n ==> Carried(Fresh(base), es, p)
    ensures Run(Fresh(base), es).Running? && Run(Fresh(base), es).r.nxt >= n
  {
    HandledRuns(Fresh(base), es);
    var r := Run(Fresh(base), es).r;
    if r.nxt < n {
      WindowRun(Fresh(base), es);
      if r.nxt < base {
        StreamRun(Fresh(base), es, base, s);
      }
      HeldRun(Fresh(base), es, r.nxt, s);
      NothingBelowFront(r.queue, r.nxt + 1, r.nxt);
      assert false;
    }
  }

  /**
   The receive stream, end to end: after any run of a fresh connection that has not failed, whatever was repeated or
   overlapped, the user has exactly the stream from `base`. A handled run does not fail, and delivers every byte below
   `n` once all of them have arrived inside the window.
   */
  lemma ReceiveStream(base: nat, es: seq<Event>, s: nat -> byte, n: nat)
    requires FromStream(es, s)
    ensures var o := Run(Fresh(base), es);
            o.Running? ==>
              && Agrees(Chunk(base, o.r.taken + o.r.Pending()), s)
              && o.r.nxt == base + |o.r.taken| + |o.r.Pending()|
              && o.r.Edge() == base + DEFAULT_WINDOW + |o.r.taken|
              && AllAgree(o.r.queue, s)
    ensures HandledRun(Fresh(base), es) ==>
              && Run(Fresh(base), es).Running?
              && ((forall p :: base <= p < n ==> Carried(Fresh(base), es, p)) ==> Run(Fresh(base), es).r.nxt >= n)
  {
    StreamRun(Fresh(base), es, base, s);
    WindowRun(Fresh(base), es);
    if HandledRun(Fresh(base), es) {
      HandledRuns(Fresh(base), es);
      if forall p :: base <= p < n ==> Carried(Fresh(base), es, p) {
        AllDelivered(base, es, s, n);
      }
    }
  }

  // ---- Where the code fails ---------------------------------------------------------------

  lemma ThreeSteps(r: Receiver, e1: Event, e2: Event, e3: Event, r1: Receiver, r2: Receiver)
    requires BufferOk(r) && Step(r, e1) == Running(r1) && BufferOk(r1) && Step(r1, e2) == Running(r2) && BufferOk(r2)
    ensures Run(r, [e1, e2, e3]) == Step(r2, e3)
  {
    assert [e1, e2, e3][1..] == [e2, e3] && [e2, e3][1..] == [e3] && [e3][1..] == [];
    var o := Step(r2, e3);
    StepMovesWindow(r2, e3);
    assert o.Running? ==> Run(o.r, []) == o;
    assert Run(r2, [e3]) == o;
  }

  /** A segment, its repeat, and the text in front of it: the repeat is queued twice, and the assertion of the drain loop fails. */
  lemma RepeatedLastSegmentFails()
    ensures Run(Fresh(1), [Text(Chunk(3, [7, 8]), false), Text(Chunk(3, [7, 8]), false), Text(Chunk(1, [5, 6]), false)]) == AssertFailed
  {
    var late, gap := Chunk(3, [7, 8]), Chunk(1, [5, 6]);
    var r1, r2 := Fresh(1).(queue := [late]), Fresh(1).(queue := [late, late]);
    assert Step(Fresh(1), Text(late, false)) == Running(r1);
    assert Merge([late], late).0 == [late, late];
    ThreeSteps(Fresh(1), Text(late, false), Text(late, false), Text(gap, false), r1, r2);
    var d0 := Fresh(1).(queue := [gap, late, late]);
    assert [gap] + [late, late] == [gap, late, late];
    assert Merge(r2.queue, gap) == (d0.queue, Inserted);
    var d1 := WriteBuf(d0, gap.text).0.(queue := [late, late]);
    assert d0.queue[1..] == d1.queue && d1.nxt == 3;
    var d2 := WriteBuf(d1, late.text).0.(queue := [late]);
    assert d1.queue[1..] == d2.queue && d2.nxt == 5;
    assert Drain(d0) == Drain(d1) == Drain(d2);
  }

  /** An overlap with the last entry, then text that ends inside it: trimming moves the text past the entry it is then cut against. */
  lemma OverlapIsOverread()
    ensures Run(Fresh(1), [Text(Chunk(3, [1, 2, 3]), false), Text(Chunk(4, [2, 3, 4, 5, 6, 7]), false), Text(Chunk(3, [1, 2, 3, 4, 5]), false)]) == Overread
  {
    var a, b, c := Chunk(3, [1, 2, 3]), Chunk(4, [2, 3, 4, 5, 6, 7]), Chunk(3, [1, 2, 3, 4, 5]);
    var r1, r2 := Fresh(1).(queue := [a]), Fresh(1).(queue := [a, b]);
    assert Step(Fresh(1), Text(a, false)) == Running(r1);
    assert Merge([a], b).0 == [a, b];
    ThreeSteps(Fresh(1), Text(a, false), Text(b, false), Text(c, false), r1, r2);
    assert [a, b][1..] == [b] && Trim(c, a.End()) == Some(Chunk(6, [4, 5]));
  }
}
