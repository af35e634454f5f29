/** Which ARP requests are answered, and how long an address that was heard is remembered. */
module ArpReplies {
  import opened Words
  import opened ArpCache
  import opened ArpProofs

  // ---- Replies ----------------------------------------------------------------------------

  /** The hardware addresses replied to, in order. */
  ghost function Replies(out: seq<Out>): seq<HwAddr> {
    if out == [] then []
    else if out[0].Reply? then [out[0].hw] + Replies(out[1..])
    else Replies(out[1..])
  }

  lemma {:induction false} RepliesConcat(x: seq<Out>, y: seq<Out>)
    ensures Replies(x + y) == Replies(x) + Replies(y)
  {
    if x == [] {
      assert x + y == y;
    } else {
      RepliesConcat(x[1..], y);
      assert (x + y)[1..] == x[1..] + y;
    }
  }

  lemma {:induction false} TransmitsReplyNone(dev: nat, ip: u32, hw: HwAddr, pkts: seq<Packet>)
    ensures Replies(Transmits(dev, ip, hw, pkts)) == []
  {
    if pkts != [] {
      TransmitsReplyNone(dev, ip, hw, pkts[1..]);
      assert Transmits(dev, ip, hw, pkts)[1..] == Transmits(dev, ip, hw, pkts[1..]);
    }
  }

  lemma {:induction false} DropsReplyNone(ip: u32, pkts: seq<Packet>)
    ensures Replies(Drops(ip, pkts)) == []
  {
    if pkts != [] {
      DropsReplyNone(ip, pkts[1..]);
      assert Drops(ip, pkts)[1..] == Drops(ip, pkts[1..]);
    }
  }

  lemma {:induction false} TimerRepliesNone(slots: seq<Entry>, delta: int)
    ensures Replies(Timer(slots, delta).1) == []
  {
    if slots != [] {
      var out := TickEntry(slots[0], delta).1;
      DropsReplyNone(slots[0].ip, slots[0].pending);
      TimerRepliesNone(slots[1..], delta);
      RepliesConcat(out, Timer(slots[1..], delta).1);
      assert out == [Request(slots[0].dev, slots[0].ip)] ==> out[1..] == [];
    }
  }

  predicate Multicast(ip: u32) {
    ip % 256 / 16 == 14
  }

  /** The reply RFC 826 asks for: to the sender of a request for this host's own address. */
  ghost function Owed(e: Event): seq<HwAddr> {
    if e.Arrive? && e.request && e.tip == e.devIp && !Multicast(e.tip) then [e.sha] else []
  }

  lemma OneReply(out: seq<Out>, tail: seq<Out>, o: Out)
    requires Replies(out) == [] && (tail == [] || tail == [o])
    ensures Replies(out + tail) == if tail == [] then [] else if o.Reply? then [o.hw] else []
  {
    RepliesConcat(out, tail);
    assert tail != [] ==> tail[1..] == [];
  }

  lemma ArriveReplies(c: Cache, e: Event)
    requires Shape(c) && e.Arrive?
    ensures Replies(React(c, e).1) == Owed(e)
  {
    var i := Lookup(c.slots, e.pro, e.sip);
    var reply: seq<Out> := if e.request then [Reply(e.sha)] else [];
    if i < |c.slots| {
      TransmitsReplyNone(c.slots[i].dev, e.sip, e.sha, c.slots[i].pending);
      OneReply(if c.slots[i].state == Waiting then Transmits(c.slots[i].dev, e.sip, e.sha, c.slots[i].pending) else [], reply, Reply(e.sha));
    }
    OneReply([], reply, Reply(e.sha));
    assert [] + reply == reply;
  }

  lemma ReactReplies(c: Cache, e: Event)
    requires Shape(c)
    ensures Replies(React(c, e).1) == Owed(e)
  {
    match e
    case Send(_, dst, pkt) =>
      var out := SendDev(c, e.dev, dst, pkt).1;
      assert out != [] ==> out[1..] == [];
    case Arrive(_, _, _, _, _, _, _) => ArriveReplies(c, e);
    case Tick(delta) => TimerRepliesNone(c.slots, delta);
  }

  lemma {:induction false} TimerKeepsSize(slots: seq<Entry>, delta: int)
    ensures |Timer(slots, delta).0| == |slots|
  {
    if slots != [] {
      TimerKeepsSize(slots[1..], delta);
    }
  }

  lemma ReactKeepsShape(c: Cache, e: Event)
    requires Shape(c)
    ensures Shape(React(c, e).0)
  {
    if e.Tick? {
      TimerKeepsSize(c.slots, e.delta);
    }
  }

  /** Everything that leaves the cache over a run. */
  ghost function Outputs(c: Cache, es: seq<Event>): seq<Out>
    requires Shape(c)
    decreases es
  {
    if es == [] then []
    else
      ReactKeepsShape(c, es[0]);
      React(c, es[0]).1 + Outputs(React(c, es[0]).0, es[1..])
  }

  ghost function AllOwed(es: seq<Event>): seq<HwAddr> {
    if es == [] then [] else Owed(es[0]) + AllOwed(es[1..])
  }

  /** Over every run, from any cache, the replies are those owed, one for each request for this host and in their order. */
  lemma {:induction false} RepliesAreOwed(c: Cache, es: seq<Event>)
    requires Shape(c)
    ensures Replies(Outputs(c, es)) == AllOwed(es)
    decreases es
  {
    if es != [] {
      ReactKeepsShape(c, es[0]);
      ReactReplies(c, es[0]);
      RepliesConcat(React(c, es[0]).1, Outputs(React(c, es[0]).0, es[1..]));
      RepliesAreOwed(React(c, es[0]).0, es[1..]);
    }
  }

  // ---- How long an address is remembered --------------------------------------------------

  /** The message tells this host the hardware address of `a`. */
  ghost predicate Tells(e: Event, a: u32) {
    e.Arrive? && e.pro == ETH_P_IP && e.sip == a && e.tip == e.devIp && !Multicast(e.tip)
  }

  ghost predicate NobodyTells(es: seq<Event>, a: u32) {
    es == [] || (!Tells(es[0], a) && NobodyTells(es[1..], a))
  }

  ghost function Elapsed(es: seq<Event>): nat {
    if es == [] then 0 else (if es[0].Tick? then es[0].delta else 0) + Elapsed(es[1..])
  }

  ghost function After(c: Cache, es: seq<Event>): (c1: Cache)
    requires Shape(c)
    ensures Shape(c1)
    decreases es
  {
    if es == [] then c else ReactKeepsShape(c, es[0]); After(React(c, es[0]).0, es[1..])
  }

  ghost predicate Resolved(o: Option<Entry>) {
    o.Some? && o.value.state == EntryState.Resolved
  }

  /** Resolved with this address while time is left, and not resolved after. */
  ghost predicate Lives(o: Option<Entry>, hw: HwAddr, left: int) {
    if left > 0 then Known(o, hw, left) else !Resolved(o)
  }

  lemma QuietStep(c: Cache, e: Event, a: u32, hw: HwAddr, left: int)
    requires CacheOk(c) && !Tells(e, a) && Lives(Find(c.slots, ETH_P_IP, a), hw, left)
    ensures CacheOk(React(c, e).0)
    ensures Lives(Find(React(c, e).0.slots, ETH_P_IP, a), hw, if e.Tick? then left - e.delta else left)
  {
    FoundAt(c.slots, a);
    match e
    case Send(dev, dst, pkt) =>
      SendSeen(c, dev, dst, pkt, a);
    case Arrive(dev, devIp, request, pro, sip, sha, tip) =>
      ReceiveSeen(c, dev, devIp, request, pro, sip, sha, tip, a);
    case Tick(delta) =>
      TimerSeen(c.slots, delta, a, ETH_P_IP, a);
  }

  lemma {:induction false} LivesOn(c: Cache, es: seq<Event>, a: u32, hw: HwAddr, left: int)
    requires CacheOk(c) && NobodyTells(es, a) && Lives(Find(c.slots, ETH_P_IP, a), hw, left)
    ensures Lives(Find(After(c, es).slots, ETH_P_IP, a), hw, left - Elapsed(es))
    decreases es
  {
    if es != [] {
      var e := es[0];
      QuietStep(c, e, a, hw, left);
      LivesOn(React(c, e).0, es[1..], a, hw, if e.Tick? then left - e.delta else left);
    }
  }

  /**
   After a message that told the hardware address of `a` and was taken into the cache, over every run in which nobody
   tells it again: the cache knows that address exactly until the timeout has elapsed.
   */
  lemma RememberedIff(c: Cache, e: Event, es: seq<Event>, a: u32)
    requires CacheOk(c) && Tells(e, a) && NobodyTells(es, a)
    requires Find(c.slots, ETH_P_IP, a).Some? || (e.request && HasFree(c.slots))
    ensures Shape(React(c, e).0)
    ensures var o := Find(After(React(c, e).0, es).slots, ETH_P_IP, a);
            (Resolved(o) <==> Elapsed(es) < TIMEOUT) && (Resolved(o) ==> o.value.hw == e.sha)
  {
    ReceiveSeen(c, e.dev, e.devIp, e.request, e.pro, e.sip, e.sha, e.tip, a);
    LivesOn(React(c, e).0, es, a, e.sha, TIMEOUT);
  }
}
