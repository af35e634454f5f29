/** When a read of the user returns: the push flag over whole runs (tcp/tcp_text.c, tcp/tcp_reass.c, tcp/tcp_sock.c). */
module TcpPush {
  import opened Words
  import opened TcpReceive
  import opened P = TcpReceiveProofs

  /** A pushed segment brought the user text. */
  ghost predicate Pushes(r: Receiver, e: Event)
    requires BufferOk(r)
  {
    e.Text? && e.psh && Step(r, e).Running? && Step(r, e).r.nxt > r.nxt
  }

  /** A read took all there was. */
  ghost predicate Empties(r: Receiver, e: Event)
    requires BufferOk(r)
  {
    e.Read? && e.len > 0 && e.len >= |r.Pending()|
  }

  lemma {:induction false} DrainKeepsPush(r: Receiver)
    requires BufferOk(r)
    ensures Drain(r).Running? ==> Drain(r).r.push == r.push
    decreases |r.queue|
  {
    if r.queue != [] && r.queue[0].start == r.nxt {
      var (r1, n) := WriteBuf(r, r.queue[0].text);
      if n > 0 {
        DrainKeepsPush(r1.(queue := r.queue[1..]));
      }
    }
  }

  lemma ReassPushes(r: Receiver, c: Chunk, psh: bool)
    requires BufferOk(r)
    ensures var o := SegmentReass(r, c, psh); o.Running? ==> (o.r.push <==> r.push || (psh && o.r.nxt > r.nxt))
  {
    DrainKeepsPush(r.(queue := Merge(r.queue, c).0));
  }

  lemma TextPushes(r: Receiver, c: Chunk, psh: bool)
    requires BufferOk(r)
    ensures var o := RecvText(r, c, psh); o.Running? ==> (o.r.push <==> r.push || (psh && o.r.nxt > r.nxt))
  {
    var t := Trim(c, r.nxt);
    if r.wnd > 0 && t.Some? && !(r.nxt == t.value.start && r.queue == []) {
      ReassPushes(r, t.value, psh);
    }
  }

  /** What one event does to the flag. */
  lemma StepPushes(r: Receiver, e: Event)
    requires BufferOk(r) && Step(r, e).Running?
    ensures Step(r, e).r.push <==> Pushes(r, e) || (r.push && !Empties(r, e))
  {
    if e.Text? {
      TextPushes(r, e.c, e.psh);
    }
  }

  /** No read of the run takes all there is. */
  ghost predicate NeverEmpties(r: Receiver, es: seq<Event>)
    requires BufferOk(r)
    decreases es
  {
    es == [] || !Step(r, es[0]).Running? ||
    (!Empties(r, es[0]) && (StepMovesWindow(r, es[0]); NeverEmpties(Step(r, es[0]).r, es[1..])))
  }

  /** Some pushed segment of the run brought text, and no read after it took all there was. */
  ghost predicate PushedSince(r: Receiver, es: seq<Event>)
    requires BufferOk(r)
    decreases es
  {
    es != [] && Step(r, es[0]).Running? &&
    (StepMovesWindow(r, es[0]);
     var r1 := Step(r, es[0]).r;
     (Pushes(r, es[0]) && NeverEmpties(r1, es[1..])) || PushedSince(r1, es[1..]))
  }

  lemma {:induction false} PushRun(r: Receiver, es: seq<Event>)
    requires BufferOk(r) && Run(r, es).Running?
    ensures Run(r, es).r.push <==> PushedSince(r, es) || (r.push && NeverEmpties(r, es))
    decreases es
  {
    if es != [] {
      StepMovesWindow(r, es[0]);
      StepPushes(r, es[0]);
      PushRun(Step(r, es[0]).r, es[1..]);
    }
  }

  /**
   Over every run of a fresh connection that has not failed: a read for more than is buffered sleeps if and only if no
   pushed segment brought text since the last read that took all there was.
   */
  lemma ReadBlocksIff(base: nat, es: seq<Event>, len: nat)
    requires Run(Fresh(base), es).Running?
    ensures var r := Run(Fresh(base), es).r;
            Blocks(r, len) <==> len > |r.Pending()| && !PushedSince(Fresh(base), es)
  {
    PushRun(Fresh(base), es);
  }

  /** A pushed segment that brought text lets the next read return, and only a read that takes all clears it. */
  lemma PushedReadReturns(r: Receiver, e: Event, es: seq<Event>, len: nat)
    requires BufferOk(r) && Pushes(r, e) && BufferOk(Step(r, e).r)
    requires NeverEmpties(Step(r, e).r, es) && Run(Step(r, e).r, es).Running?
    ensures !Blocks(Run(Step(r, e).r, es).r, len)
  {
    StepPushes(r, e);
    PushRun(Step(r, e).r, es);
  }
}
