/**
 The receive side of a TCP connection as a function of its state: acceptance of a text
 segment, reassembly of out-of-order text and delivery to the user
 (tcp/tcp_text.c, tcp/tcp_reass.c, tcp/tcp_sock.c, tcp/tcp_state.c).

 Sequence numbers are natural numbers: the source compares them as plain unsigned
 integers, so it is only meaningful while none of them wraps.
 */
module TcpReceive {
  import opened Words

  /** A run of text: the byte `text[k]` has sequence number `start + k`. */
  datatype Chunk = Chunk(start: nat, text: seq<byte>) {
    function End(): nat { start + |text| }
    predicate Covers(p: nat) { start <= p < End() }
  }

  datatype Buffer = NoBuffer | Buffer(size: nat, data: seq<byte>)

  /** `taken` is the text already returned to the user. */
  datatype Receiver = Receiver(nxt: nat, wnd: nat, buf: Buffer, queue: seq<Chunk>, push: bool, taken: seq<byte>) {
    /** The right edge of the advertised window. */
    function Edge(): nat { nxt + wnd }
    function Pending(): seq<byte> { if buf.Buffer? then buf.data else [] }
  }

  /** `Overread`: an entry was cut to a negative length, which the source takes for a huge one. */
  datatype Outcome = Running(r: Receiver) | AssertFailed | Overread

  /** What became of a chunk on its way into the queue; `Refused` is the jump to `out`. */
  datatype Placed = Inserted | Refused | BadCut

  /** A freshly synchronized connection whose first text byte is numbered `base`. */
  function Fresh(base: nat): Receiver {
    Receiver(base, DEFAULT_WINDOW, NoBuffer, [], false, [])
  }

  ghost predicate BufferOk(r: Receiver) {
    r.buf.Buffer? ==> |r.buf.data| <= r.buf.size && r.wnd == r.buf.size - |r.buf.data|
  }

  /** Non-empty chunks in order and disjoint, none below `lo`. */
  ghost predicate Ordered(q: seq<Chunk>, lo: nat) {
    q == [] || (q[0].text != [] && lo <= q[0].start && Ordered(q[1..], q[0].End()))
  }

  lemma OrderedFrom(q: seq<Chunk>, lo: nat, less: nat)
    requires Ordered(q, lo) && less <= lo
    ensures Ordered(q, less)
  {
  }

  /** Every chunk starts below `hi`. */
  ghost predicate Below(q: seq<Chunk>, hi: nat) {
    q == [] || (q[0].start < hi && Below(q[1..], hi))
  }

  /** What holds between text steps: the window is the free space, and nothing queued is deliverable. */
  ghost predicate WellFormed(r: Receiver) {
    BufferOk(r) && Ordered(r.queue, r.nxt + 1) && Below(r.queue, r.Edge())
  }

  // ---- The code -------------------------------------------------------------------------

  /** `seq_check` for a segment that carries only text. */
  predicate Acceptable(r: Receiver, c: Chunk) {
    && c.start < r.nxt + (if r.wnd == 0 then 1 else r.wnd)
    && r.nxt <= (if c.text == [] then c.start else c.End() - 1)
  }

  /** `ADJACENT_SEGMENT_HEAD`: drop the text below `nseq`; `None` is the jump to `out`. */
  function Trim(c: Chunk, nseq: nat): Option<Chunk> {
    if nseq <= c.start then Some(c)
    else if |c.text| <= nseq - c.start then None
    else Some(Chunk(nseq, c.text[nseq - c.start..]))
  }

  function WriteBuf(r: Receiver, text: seq<byte>): (Receiver, nat)
    requires BufferOk(r)
  {
    var b := if r.buf.NoBuffer? then Buffer(r.wnd, []) else r.buf;
    var n := Min(b.size - |b.data|, |text|);
    (r.(buf := b.(data := b.data + text[..n]), nxt := r.nxt + n, wnd := r.wnd - n), n)
  }

  /** Putting a chunk in front of the entries behind it: entries it covers go, and its tail is cut at the next one. */
  function Absorb(q: seq<Chunk>, c: Chunk): (seq<Chunk>, Placed) {
    if q == [] then ([c], Inserted)
    else if c.End() < q[0].End() then
      if c.End() <= q[0].start then ([c] + q, Inserted)
      else if c.start == q[0].start then (q, Refused)
      else if c.start > q[0].start then (q, BadCut)
      else ([c.(text := c.text[..q[0].start - c.start])] + q, Inserted)
    else Absorb(q[1..], c)
  }

  /** Finding the place of a chunk: it is trimmed against its predecessor only when a later entry exists. */
  function Merge(q: seq<Chunk>, c: Chunk): (seq<Chunk>, Placed) {
    if q == [] then ([c], Inserted)
    else if c.start < q[0].start then Absorb(q, c)
    else if |q| == 1 then (q + [c], Inserted)
    else if c.start < q[1].start then
      match Trim(c, q[0].End())
      case None => (q, Refused)
      case Some(c1) => var (q1, how) := Absorb(q[1..], c1); ([q[0]] + q1, how)
    else
      var (q1, how) := Merge(q[1..], c); ([q[0]] + q1, how)
  }

  /** Moving the deliverable front of the queue into the buffer. */
  function Drain(r: Receiver): Outcome
    requires BufferOk(r)
    decreases |r.queue|
  {
    if r.queue == [] || r.queue[0].start > r.nxt then Running(r)
    else if r.queue[0].start < r.nxt then AssertFailed
    else
      var (r1, n) := WriteBuf(r, r.queue[0].text);
      if n == 0 then Running(r1) else Drain(r1.(queue := r.queue[1..]))
  }

  function NotePush(before: Receiver, o: Outcome, psh: bool): Outcome {
    if o.Running? && psh && o.r.nxt > before.nxt then Running(o.r.(push := true)) else o
  }

  function SegmentReass(r: Receiver, c: Chunk, psh: bool): Outcome
    requires BufferOk(r)
  {
    var (q, how) := Merge(r.queue, c);
    match how
    case Inserted => NotePush(r, Drain(r.(queue := q)), psh)
    case Refused => Running(r.(queue := q))
    case BadCut => Overread
  }

  function RecvText(r: Receiver, c: Chunk, psh: bool): Outcome
    requires BufferOk(r)
  {
    if r.wnd == 0 then Running(r)
    else
      match Trim(c, r.nxt)
      case None => Running(r)
      case Some(c1) =>
        if r.nxt == c1.start && r.queue == [] then
          NotePush(r, Running(WriteBuf(r, c1.text).0), psh)
        else
          SegmentReass(r, c1, psh)
  }

  /** Whether `tcp_recv_text` asks for an acknowledgment: the window is open and the segment does not end below `rcv_nxt`. */
  predicate Answered(r: Receiver, c: Chunk) {
    r.wnd != 0 && Trim(c, r.nxt).Some?
  }

  /** A FIN in ESTABLISHED pushes what is buffered. */
  function NoteFin(r: Receiver): Receiver {
    r.(push := true)
  }

  /** A read sleeps for more text: it wants more than is buffered, and nothing was pushed. */
  predicate Blocks(r: Receiver, len: nat) {
    len > |r.Pending()| && !r.push
  }

  /** Filling the user's buffer: the window opens by what the user takes. */
  function Take(r: Receiver, len: nat): Receiver
    requires BufferOk(r)
  {
    if r.buf.NoBuffer? then r
    else
      var n := Min(|r.buf.data|, len);
      r.(buf := r.buf.(data := r.buf.data[n..]), wnd := r.wnd + n, taken := r.taken + r.buf.data[..n])
  }

  /** One user read of at most `len` bytes, up to the point where it returns or blocks. */
  function RecvBuf(r: Receiver, len: nat): Receiver
    requires BufferOk(r)
  {
    var r1 := Take(r, len);
    if len > 0 && r.push && r1.Pending() == [] then r1.(push := false) else r1
  }

  /** `tcp_close` frees the buffer and the queue; unread text is lost to the user. */
  function Close(r: Receiver): Receiver {
    r.(buf := NoBuffer, queue := [])
  }
}
