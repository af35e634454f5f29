/** Every interleaving of the packet ring delivers the packets put, in order and byte for byte. */
module PacketRingProofs {
  import opened Words
  import opened PacketRing

  // ---- Producer ---------------------------------------------------------------------------

  lemma PutKeepsInv(s: Ring, pkt: Packet)
    requires Inv(s)
    ensures Inv(StartPut(s, pkt))
  {
  }

  /** A producer step that only touches its own state, a byte of the ring and its index. */
  lemma ProducerMoves(s: Ring, t: Ring)
    requires Inv(s) && t == s.(data := t.data, prod := t.prod, writeIndex := t.writeIndex)
    requires |t.data| == |s.data| && BoundsOk(t) && ProducerOk(t) && ContentOk(t)
    ensures Inv(t)
  {
  }

  lemma HeaderPlaces(s: Ring)
    requires Inv(s) && s.prod.PutHeader?
    ensures ProducerOk(ProducerStep(s))
  {
    if s.prod.k == 4 {
      PlaceAdvance(Front(s), s.used, s.prod.w, 4, |s.data|);
    }
  }

  /** The ring from `at` on holds `front` and then the first `k` bytes of `frame`; the next byte is written through index `w`. */
  lemma CopyByte(data: seq<byte>, at: nat, front: seq<byte>, frame: seq<byte>, k: nat, w: nat, j: nat)
    requires k < |frame| && j <= k && at <= |data| && |front| + |frame| <= |data|
    requires Bytes(data, at, |front| + k) == front + frame[..k]
    requires Norm(w, |data|) == Place(at, |front| + k - j, |data|)
    ensures Place(w, j, |data|) < |data|
    ensures Bytes(data[Place(w, j, |data|) := frame[k]], at, |front| + (k + 1)) == front + frame[..k + 1]
  {
    BytesGrow(data, at, |front| + k, w, j, frame[k]);
    assert front + frame[..k] + [frame[k]] == front + frame[..k + 1];
  }

  lemma CopyContent(s: Ring, t: Ring, frame: seq<byte>, k: nat, w: nat, j: nat)
    requires BoundsOk(s) && CountsOk(s) && ProducerOk(s) && ContentOk(s)
    requires k < |frame| && j <= k && s.used + |frame| <= |s.data| && Copied(s.prod) == frame[..k]
    requires Norm(w, |s.data|) == Place(Front(s), s.used + k - j, |s.data|)
    requires t == s.(data := t.data, prod := t.prod) && Place(w, j, |s.data|) < |s.data|
    requires t.data == s.data[Place(w, j, |s.data|) := frame[k]]
    requires ProducerOk(t) && Copied(t.prod) == frame[..k + 1]
    ensures ContentOk(t)
  {
    CopyByte(s.data, Front(s), Frames(s.unread), frame, k, w, j);
  }

  lemma HeaderContent(s: Ring)
    requires Inv(s) && s.prod.PutHeader? && ProducerOk(ProducerStep(s))
    ensures ContentOk(ProducerStep(s))
  {
    if s.prod.k < 4 {
      CopyContent(s, ProducerStep(s), Frame(s.prod.pkt), s.prod.k, s.prod.w, s.prod.k);
    }
  }

  lemma PayloadPlaces(s: Ring)
    requires Inv(s) && s.prod.PutPayload?
    ensures ProducerOk(ProducerStep(s))
  {
    PlaceAdvance(Front(s), s.used + 4, s.prod.w, |s.prod.pkt|, |s.data|);
  }

  lemma PayloadContent(s: Ring)
    requires Inv(s) && s.prod.PutPayload? && ProducerOk(ProducerStep(s))
    ensures ContentOk(ProducerStep(s))
  {
    var frame, k := Frame(s.prod.pkt), s.prod.k;
    if k < |s.prod.pkt| {
      CopyContent(s, ProducerStep(s), frame, 4 + k, s.prod.w, k);
    } else {
      assert frame[..4 + k] == frame;
    }
  }

  lemma PublishKeepsInv(s: Ring)
    requires Inv(s) && s.prod.Published?
    ensures Inv(ProducerStep(s))
  {
    FramesAppend(s.unread, s.prod.pkt);
    assert s.got + s.unread + [s.prod.pkt] == s.got + (s.unread + [s.prod.pkt]);
    assert Frames(s.unread + [s.prod.pkt]) + [] == Frames(s.unread) + Frame(s.prod.pkt);
  }

  lemma ProduceKeepsInv(s: Ring)
    requires Inv(s)
    ensures Inv(ProducerStep(s))
  {
    match s.prod
    case Resting =>
    case PutHeader(_, _, _) =>
      HeaderPlaces(s);
      HeaderContent(s);
      ProducerMoves(s, ProducerStep(s));
    case PutPayload(_, _, _) =>
      PayloadPlaces(s);
      PayloadContent(s);
      ProducerMoves(s, ProducerStep(s));
    case Published(_) =>
      PublishKeepsInv(s);
  }

  // ---- Consumer ---------------------------------------------------------------------------

  lemma GetKeepsInv(s: Ring, buflen: nat)
    requires Inv(s)
    ensures Inv(StartGet(s, buflen))
  {
  }

  /** A consumer step that touches only its own state. */
  lemma ConsumerMoves(s: Ring, t: Ring)
    requires Inv(s) && !s.cons.Released? && !t.cons.Released?
    requires t == s.(cons := t.cons) && ConsumerOk(t)
    ensures Inv(t)
  {
  }

  /** The byte `j` of the front frame is where the consumer looks for it. */
  lemma FrontByte(s: Ring, j: nat)
    requires Inv(s) && !s.cons.Released? && s.unread != [] && j < |Frame(s.unread[0])|
    ensures |Frame(s.unread[0])| <= s.used
    ensures Place(s.readIndex, j, |s.data|) < |s.data|
    ensures s.data[Place(s.readIndex, j, |s.data|)] == Frame(s.unread[0])[j]
  {
    var all := Frames(s.unread) + Copied(s.prod);
    assert all[j] == Frame(s.unread[0])[j];
    BytesAt(s.data, s.readIndex, |all|, j);
  }

  /** The length word the consumer reads is the length of the oldest unread packet, which is there in full. */
  lemma HeaderIsLength(s: Ring)
    requires Inv(s) && s.cons.GetHeader? && |s.cons.bytes| == 4
    ensures Decode32(s.cons.bytes) == |s.unread[0]|
    ensures s.used >= |s.unread[0]| + 4
  {
    Decode32OfEncode32(|s.unread[0]|);
    assert s.cons.bytes == Encode32(|s.unread[0]|);
  }

  lemma GetHeaderKeeps(s: Ring)
    requires Inv(s) && s.cons.GetHeader?
    ensures ConsumerOk(ConsumerStep(s))
  {
    var bytes := s.cons.bytes;
    if |bytes| < 4 {
      FrontByte(s, |bytes|);
      assert Frame(s.unread[0])[..|bytes|] + [Frame(s.unread[0])[|bytes|]] == Frame(s.unread[0])[..|bytes| + 1];
    } else {
      HeaderIsLength(s);
      PlaceAdvance(s.readIndex, 0, s.readIndex, 4, |s.data|);
    }
  }

  lemma GetPayloadKeeps(s: Ring)
    requires Inv(s) && s.cons.GetPayload? && |s.cons.bytes| < s.cons.len
    ensures ConsumerOk(ConsumerStep(s))
  {
    var j, pkt := |s.cons.bytes|, s.unread[0];
    FrontByte(s, 4 + j);
    PlaceCompose(s.readIndex, 4, s.cons.r, j, |s.data|);
    assert pkt[..j] + [pkt[j]] == pkt[..j + 1];
  }

  lemma ReleaseCounts(s: Ring)
    requires Inv(s) && s.cons.GetPayload? && |s.cons.bytes| == s.cons.len
    ensures CountsOk(ConsumerStep(s)) && s.used >= 4 + s.cons.len
  {
    var pkt := s.unread[0];
    assert s.cons.bytes == pkt;
    assert s.got + [pkt] + s.unread[1..] == s.got + s.unread;
  }

  /** Releasing the front frame moves every place of the producer along. */
  lemma ReleasePlace(at: nat, n: nat, m: nat, r: nat, w: nat, cap: nat)
    requires at <= cap && r <= cap && w <= cap && m <= n <= cap
    requires Norm(r, cap) == Place(at, m, cap) && Norm(w, cap) == Place(at, n, cap)
    ensures Norm(w, cap) == Place(r, n - m, cap)
  {
    PlaceCompose(at, m, r, n - m, cap);
  }

  lemma ReleaseProducer(s: Ring)
    requires Inv(s) && s.cons.GetPayload? && |s.cons.bytes| == s.cons.len && s.used >= 4 + s.cons.len
    ensures BoundsOk(ConsumerStep(s)) && ProducerOk(ConsumerStep(s))
  {
    var cap, m := |s.data|, 4 + s.cons.len;
    var r := Advance(s.cons.r, s.cons.len, cap);
    PlaceAdvance(s.readIndex, 4, s.cons.r, s.cons.len, cap);
    match s.prod
    case Resting | PutHeader(_, _, _) =>
      ReleasePlace(s.readIndex, s.used, m, r, s.writeIndex, cap);
    case PutPayload(_, w, _) =>
      ReleasePlace(s.readIndex, s.used, m, r, s.writeIndex, cap);
      ReleasePlace(s.readIndex, s.used + 4, m, r, w, cap);
    case Published(pkt) =>
      ReleasePlace(s.readIndex, s.used + |Frame(pkt)|, m, r, s.writeIndex, cap);
  }

  lemma DropFront<T>(a: seq<T>, b: seq<T>, c: seq<T>)
    ensures ((a + b) + c)[|a|..] == b + c
  {
  }

  lemma DropFrame(data: seq<byte>, at: nat, n: nat, frame: seq<byte>, rest: seq<byte>, copied: seq<byte>, r: nat)
    requires at <= |data| && r <= |data| && |frame| <= n <= |data|
    requires Bytes(data, at, n) == frame + rest + copied && Norm(r, |data|) == Place(at, |frame|, |data|)
    ensures Bytes(data, r, n - |frame|) == rest + copied
  {
    BytesDrop(data, at, n, r, |frame|);
    DropFront(frame, rest, copied);
  }

  lemma ReleaseContent(s: Ring, t: Ring)
    requires BoundsOk(s) && CountsOk(s) && ProducerOk(s) && ContentOk(s) && !s.cons.Released? && s.unread != []
    requires t == s.(used := t.used, cons := t.cons, got := t.got, unread := s.unread[1..]) && t.cons.Released?
    requires BoundsOk(t) && CountsOk(t) && ProducerOk(t)
    requires Norm(t.cons.r, |s.data|) == Place(s.readIndex, |Frame(s.unread[0])|, |s.data|)
    ensures ContentOk(t)
  {
    DropFrame(s.data, s.readIndex, s.used + |Copied(s.prod)|, Frame(s.unread[0]), Frames(t.unread), Copied(s.prod), t.cons.r);
  }

  lemma ReleaseKeepsInv(s: Ring)
    requires Inv(s) && s.cons.GetPayload? && |s.cons.bytes| == s.cons.len
    ensures Inv(ConsumerStep(s))
  {
    ReleaseCounts(s);
    ReleaseProducer(s);
    PlaceAdvance(s.readIndex, 4, s.cons.r, s.cons.len, |s.data|);
    ReleaseContent(s, ConsumerStep(s));
  }

  lemma ConsumeKeepsInv(s: Ring)
    requires Inv(s)
    ensures Inv(ConsumerStep(s))
  {
    match s.cons
    case Waiting =>
    case GetHeader(_, _, _) =>
      GetHeaderKeeps(s);
      ConsumerMoves(s, ConsumerStep(s));
    case GetPayload(_, len, bytes) =>
      if |bytes| < len {
        GetPayloadKeeps(s);
        ConsumerMoves(s, ConsumerStep(s));
      } else {
        ReleaseKeepsInv(s);
      }
    case Released(r) =>
  }

  // ---- Runs -------------------------------------------------------------------------------

  lemma StepKeepsInv(s: Ring, a: Action)
    requires Inv(s)
    ensures Inv(Step(s, a))
  {
    match a
    case Put(pkt) => PutKeepsInv(s, pkt);
    case Produce => ProduceKeepsInv(s);
    case Get(buflen) => GetKeepsInv(s, buflen);
    case Consume => ConsumeKeepsInv(s);
  }

  ghost function Run(s: Ring, actions: seq<Action>): (t: Ring)
    requires Inv(s)
    ensures Inv(t)
    decreases actions
  {
    if actions == [] then s else StepKeepsInv(s, actions[0]); Run(Step(s, actions[0]), actions[1..])
  }

  ghost function FrameBytes(ps: seq<Packet>): nat {
    if ps == [] then 0 else 4 + |ps[0]| + FrameBytes(ps[1..])
  }

  lemma {:induction false} FramesLength(ps: seq<Packet>)
    requires AllSized(ps)
    ensures |Frames(ps)| == FrameBytes(ps)
  {
    if ps != [] {
      FramesLength(ps[1..]);
    }
  }

  /** For every interleaving: the packets got are the first packets put, and `used` counts the rest. */
  lemma RingIsFifo(s: Ring, actions: seq<Action>)
    requires Init(s)
    ensures Inv(s)
    ensures var t := Run(s, actions);
            && t.got <= t.put
            && t.used == FrameBytes(t.put[|t.got|..]) <= |t.data|
  {
    var t := Run(s, actions);
    assert t.put[|t.got|..] == t.unread;
    FramesLength(t.unread);
  }

  // ---- The copies in progress -------------------------------------------------------------

  /** The indices of `n` bytes from `at` on, going around the ring. */
  ghost function Region(at: nat, n: nat, cap: nat): set<nat> {
    set i: nat | i < n :: Place(at, i, cap)
  }

  /** Every index the producer's copy in progress writes, whatever the order it copies in. */
  ghost function Writing(s: Ring): set<nat> {
    match s.prod
    case PutHeader(_, w, _) => Region(w, 4, |s.data|)
    case PutPayload(pkt, w, _) => Region(w, |pkt|, |s.data|)
    case _ => {}
  }

  /** Every index the consumer's copy in progress reads. */
  ghost function Reading(s: Ring): set<nat> {
    match s.cons
    case GetHeader(_, r, _) => Region(r, 4, |s.data|)
    case GetPayload(r, len, _) => Region(r, len, |s.data|)
    case _ => {}
  }

  /** The frame being written and the frame being read share no byte of the ring. */
  lemma FramesApart(s: Ring, i: nat, j: nat)
    requires Inv(s) && (s.prod.PutHeader? || s.prod.PutPayload?) && (s.cons.GetHeader? || s.cons.GetPayload?)
    requires i < 4 + |s.prod.pkt| && j < 4 + |s.unread[0]|
    ensures Place(s.readIndex, s.used + i, |s.data|) != Place(s.readIndex, j, |s.data|)
  {
    FrontByte(s, j);
    PlacesDiffer(s.readIndex, j, s.used + i, |s.data|);
  }

  lemma InRegion(at: nat, m: nat, w: nat, n: nat, cap: nat, x: nat) returns (i: nat)
    requires x in Region(w, n, cap) && Norm(w, cap) == Place(at, m, cap)
    ensures m <= i < m + n && x == Place(at, i, cap)
  {
    var k: nat :| k < n && x == Place(w, k, cap);
    PlaceCompose(at, m, w, k, cap);
    i := m + k;
  }

  lemma WritesItsFrame(s: Ring, x: nat) returns (i: nat)
    requires Inv(s) && !s.cons.Released? && x in Writing(s)
    ensures i < 4 + |s.prod.pkt| && x == Place(s.readIndex, s.used + i, |s.data|)
  {
    var k;
    if s.prod.PutHeader? {
      k := InRegion(s.readIndex, s.used, s.prod.w, 4, |s.data|, x);
    } else {
      k := InRegion(s.readIndex, s.used + 4, s.prod.w, |s.prod.pkt|, |s.data|, x);
    }
    i := k - s.used;
  }

  lemma ReadsItsFrame(s: Ring, x: nat) returns (j: nat)
    requires Inv(s) && x in Reading(s)
    ensures j < 4 + |s.unread[0]| && x == Place(s.readIndex, j, |s.data|)
  {
    if s.cons.GetHeader? {
      j := InRegion(s.readIndex, 0, s.cons.r, 4, |s.data|, x);
    } else {
      j := InRegion(s.readIndex, 4, s.cons.r, s.cons.len, |s.data|, x);
    }
  }

  /** Under every interleaving, the bytes being written and the bytes being read are apart, whatever the order inside a copy. */
  lemma NoRace(s: Ring, actions: seq<Action>)
    requires Init(s)
    ensures Inv(s)
    ensures var t := Run(s, actions); Writing(t) !! Reading(t)
  {
    var t := Run(s, actions);
    forall x | x in Writing(t) && x in Reading(t) ensures false {
      var i := WritesItsFrame(t, x);
      var j := ReadsItsFrame(t, x);
      FramesApart(t, i, j);
    }
  }
}
