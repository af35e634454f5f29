/** What a put and a get of the packet ring achieve under every interleaving: nothing that fits is refused, and nothing started is lost. */
module RingProgress {
  import opened Words
  import opened PacketRing
  import opened PacketRingProofs

  // ---- Starting ---------------------------------------------------------------------------

  /** A put starts if and only if its frame fits beside the unread frames. */
  lemma PutStartsIff(s: Ring, pkt: Packet)
    requires Inv(s) && s.prod.Resting?
    ensures StartPut(s, pkt).prod == if FrameBytes(s.unread) + 4 + |pkt| <= |s.data| then PutHeader(pkt, s.writeIndex, 0) else Resting
  {
    FramesLength(s.unread);
  }

  /** A get starts if and only if a packet is unread. */
  lemma GetStartsIff(s: Ring, buflen: nat)
    requires Inv(s) && s.cons.Waiting?
    ensures StartGet(s, buflen).cons == if s.unread != [] then GetHeader(buflen, s.readIndex, []) else Waiting
  {
    FramesLength(s.unread);
  }

  // ---- The producer -----------------------------------------------------------------------

  ghost function Produces(actions: seq<Action>): nat {
    if actions == [] then 0 else (if actions[0].Produce? then 1 else 0) + Produces(actions[1..])
  }

  /** The shared accesses left to a put. */
  ghost function PutLeft(p: Producer): int {
    match p
    case Resting => 0
    case PutHeader(pkt, _, k) => (4 - k) + 1 + |pkt| + 2
    case PutPayload(pkt, _, k) => |pkt| - k + 2
    case Published(_) => 1
  }

  lemma {:induction false} NothingPut(s: Ring, actions: seq<Action>)
    requires Inv(s) && Produces(actions) == 0
    ensures Run(s, actions).put == s.put
    decreases actions
  {
    if actions != [] {
      StepKeepsInv(s, actions[0]);
      NothingPut(Step(s, actions[0]), actions[1..]);
    }
  }

  lemma ProducerGoesOn(s: Ring, a: Action)
    requires Inv(s) && !s.prod.Resting?
    ensures var t := Step(s, a);
            && PutLeft(s.prod) > 0 && PutLeft(t.prod) == PutLeft(s.prod) - (if a.Produce? then 1 else 0)
            && if PutLeft(t.prod) == 0 then t.put == s.put + [s.prod.pkt] else !t.prod.Resting? && t.prod.pkt == s.prod.pkt && t.put == s.put
  {
  }

  /** A put that started takes effect once its producer has made its accesses, whatever the consumer does in between. */
  lemma {:induction false} PutCompletes(s: Ring, actions: seq<Action>)
    requires Inv(s) && !s.prod.Resting? && Produces(actions) == PutLeft(s.prod)
    ensures Run(s, actions).put == s.put + [s.prod.pkt]
    decreases actions
  {
    ProducerGoesOn(s, Produce);
    var t := Step(s, actions[0]);
    ProducerGoesOn(s, actions[0]);
    StepKeepsInv(s, actions[0]);
    if PutLeft(t.prod) == 0 {
      NothingPut(t, actions[1..]);
    } else {
      PutCompletes(t, actions[1..]);
    }
  }

  // ---- The consumer -----------------------------------------------------------------------

  ghost function Consumes(actions: seq<Action>): nat {
    if actions == [] then 0 else (if actions[0].Consume? then 1 else 0) + Consumes(actions[1..])
  }

  /** What the get in progress will return: the oldest unread packet, unless it is longer than the buffer. */
  ghost function Expected(s: Ring): seq<Packet>
    requires Inv(s)
  {
    match s.cons
    case GetHeader(buflen, _, _) => if |s.unread[0]| <= buflen then [s.unread[0]] else []
    case GetPayload(_, _, _) => [s.unread[0]]
    case _ => []
  }

  /** The shared accesses left to a get. */
  ghost function GetLeft(s: Ring): int
    requires Inv(s)
  {
    match s.cons
    case Waiting => 0
    case GetHeader(buflen, _, bytes) => (4 - |bytes|) + 1 + if |s.unread[0]| <= buflen then |s.unread[0]| + 2 else 0
    case GetPayload(_, len, bytes) => len - |bytes| + 2
    case Released(_) => 1
  }

  lemma {:induction false} NothingGot(s: Ring, actions: seq<Action>)
    requires Inv(s) && Consumes(actions) == 0
    ensures Run(s, actions).got == s.got
    decreases actions
  {
    if actions != [] {
      StepKeepsInv(s, actions[0]);
      NothingGot(Step(s, actions[0]), actions[1..]);
    }
  }

  lemma ConsumerGoesOn(s: Ring)
    requires Inv(s) && !s.cons.Waiting?
    ensures var t := ConsumerStep(s);
            Inv(t) && GetLeft(s) > 0 && GetLeft(t) == GetLeft(s) - 1 && s.got + Expected(s) == t.got + Expected(t)
  {
    ConsumeKeepsInv(s);
    if s.cons.GetHeader? && |s.cons.bytes| == 4 {
      HeaderIsLength(s);
    } else if s.cons.GetPayload? && |s.cons.bytes| == s.cons.len {
      assert s.cons.bytes == s.unread[0];
    }
    var none: seq<Packet> := [];
    assert s.got + none == s.got && ConsumerStep(s).got + none == ConsumerStep(s).got;
  }

  /** The producer adds behind the unread packets and leaves the consumer alone. */
  lemma ProducerLeaves(s: Ring)
    requires Inv(s)
    ensures var t := ProducerStep(s);
            t.cons == s.cons && t.got == s.got && (s.unread != [] ==> t.unread != [] && t.unread[0] == s.unread[0])
  {
  }

  /** Actions other than the consumer's leave the get in progress alone. */
  lemma ConsumerIsLeft(s: Ring, a: Action)
    requires Inv(s) && !s.cons.Waiting? && !a.Consume?
    ensures var t := Step(s, a);
            Inv(t) && GetLeft(t) == GetLeft(s) && Expected(t) == Expected(s) && t.got == s.got && t.cons == s.cons
  {
    StepKeepsInv(s, a);
    ProducerLeaves(s);
    SameGet(s, Step(s, a));
  }

  lemma SameGet(s: Ring, t: Ring)
    requires Inv(s) && Inv(t) && t.cons == s.cons && (s.unread != [] ==> t.unread != [] && t.unread[0] == s.unread[0])
    ensures GetLeft(t) == GetLeft(s) && Expected(t) == Expected(s)
  {
  }

  /** A get that started returns the oldest unread packet if and only if it is no longer than the buffer, whatever the producer does in between. */
  lemma {:induction false} GetCompletes(s: Ring, actions: seq<Action>)
    requires Inv(s) && !s.cons.Waiting? && Consumes(actions) == GetLeft(s)
    ensures Run(s, actions).got == s.got + Expected(s)
    decreases actions
  {
    ConsumerGoesOn(s);
    var t := Step(s, actions[0]);
    StepKeepsInv(s, actions[0]);
    if actions[0].Consume? {
      if t.cons.Waiting? {
        NothingGot(t, actions[1..]);
        assert t.got + [] == t.got;
      } else {
        GetCompletes(t, actions[1..]);
      }
    } else {
      ConsumerIsLeft(s, actions[0]);
      GetCompletes(t, actions[1..]);
    }
  }
}
