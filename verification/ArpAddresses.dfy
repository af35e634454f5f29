/** Which hardware address the packets for an address leave with. */
module ArpAddresses {
  import opened Words
  import opened ArpCache
  import opened ArpProofs

  /** The hardware address last heard for `a` in an ARP packet meant for this host. */
  ghost function Heard(last: Option<HwAddr>, e: Event, a: u32): Option<HwAddr> {
    if e.Arrive? && e.pro == ETH_P_IP && e.sip == a && e.tip == e.devIp && e.tip % 256 / 16 != 14 then Some(e.sha) else last
  }

  ghost predicate Resolves(o: Option<Entry>, heard: Option<HwAddr>) {
    o.Some? && o.value.state == Resolved ==> heard == Some(o.value.hw)
  }

  /** Every packet transmitted to `a` carries that hardware address. */
  ghost predicate Addressed(out: seq<Out>, a: u32, heard: Option<HwAddr>) {
    out == [] || ((out[0].Transmit? && out[0].ip == a ==> heard == Some(out[0].hw)) && Addressed(out[1..], a, heard))
  }

  lemma {:induction false} NothingSent(out: seq<Out>, a: u32, heard: Option<HwAddr>)
    requires Transmitted(out, a) == []
    ensures Addressed(out, a, heard)
  {
    if out != [] {
      NothingSent(out[1..], a, heard);
    }
  }

  lemma ConsAddressed(o: Out, out: seq<Out>, tail: seq<Out>, a: u32, heard: Option<HwAddr>)
    requires Addressed(out + tail, a, heard) && (o.Transmit? && o.ip == a ==> heard == Some(o.hw))
    ensures Addressed(([o] + out) + tail, a, heard)
  {
    var all := ([o] + out) + tail;
    assert all[0] == o && all[1..] == out + tail;
  }

  lemma {:induction false} QueueAddressed(dev: nat, ip: u32, hw: HwAddr, pkts: seq<Packet>, tail: seq<Out>, a: u32, heard: Option<HwAddr>)
    requires ip == a ==> heard == Some(hw)
    requires Addressed(tail, a, heard)
    ensures Addressed(Transmits(dev, ip, hw, pkts) + tail, a, heard)
  {
    if pkts == [] {
      assert [] + tail == tail;
    } else {
      QueueAddressed(dev, ip, hw, pkts[1..], tail, a, heard);
      ConsAddressed(Transmit(dev, ip, pkts[0], hw), Transmits(dev, ip, hw, pkts[1..]), tail, a, heard);
    }
  }

  lemma SendUsesHeard(c: Cache, e: Event, a: u32, last: Option<HwAddr>)
    requires e.Send? && CacheOk(c) && Resolves(Find(c.slots, ETH_P_IP, a), last)
    ensures CacheOk(React(c, e).0) && Resolves(Find(React(c, e).0.slots, ETH_P_IP, a), last)
    ensures Addressed(React(c, e).1, a, last)
  {
    SendSeen(c, e.dev, e.dst, e.pkt, a);
  }

  lemma ArriveUsesHeard(c: Cache, e: Event, a: u32, last: Option<HwAddr>)
    requires e.Arrive? && CacheOk(c) && Resolves(Find(c.slots, ETH_P_IP, a), last)
    ensures CacheOk(React(c, e).0) && Resolves(Find(React(c, e).0.slots, ETH_P_IP, a), Heard(last, e, a))
    ensures Addressed(React(c, e).1, a, Heard(last, e, a))
  {
    ReceiveSeen(c, e.dev, e.devIp, e.request, e.pro, e.sip, e.sha, e.tip, a);
    ArriveSends(c, e, a, last);
  }

  lemma ArriveSends(c: Cache, e: Event, a: u32, last: Option<HwAddr>)
    requires e.Arrive? && CacheOk(c)
    ensures Addressed(React(c, e).1, a, Heard(last, e, a))
  {
    var i := Lookup(c.slots, e.pro, e.sip);
    var reply: seq<Out> := if e.request then [Reply(e.sha)] else [];
    if e.tip % 256 / 16 != 14 && e.tip == e.devIp && i < |c.slots| && c.slots[i].state == Waiting {
      AtIsFound(c.slots, i);
      QueueAddressed(c.slots[i].dev, e.sip, e.sha, c.slots[i].pending, reply, a, Heard(last, e, a));
    } else {
      assert [] + reply == reply;
    }
  }

  lemma TickUsesHeard(c: Cache, e: Event, a: u32, last: Option<HwAddr>)
    requires e.Tick? && CacheOk(c) && Resolves(Find(c.slots, ETH_P_IP, a), last)
    ensures CacheOk(React(c, e).0) && Resolves(Find(React(c, e).0.slots, ETH_P_IP, a), last)
    ensures Addressed(React(c, e).1, a, last)
  {
    TimerSeen(c.slots, e.delta, a, ETH_P_IP, a);
    NothingSent(React(c, e).1, a, last);
  }

  /** At every step of a run, what leaves for `a` carries the address heard last. */
  ghost predicate AlwaysAddressed(c: Cache, es: seq<Event>, a: u32, last: Option<HwAddr>)
    requires Shape(c)
    decreases es
  {
    es == [] ||
    (var (c1, out) := React(c, es[0]);
     Addressed(out, a, Heard(last, es[0], a)) && Shape(c1) && AlwaysAddressed(c1, es[1..], a, Heard(last, es[0], a)))
  }

  lemma {:induction false} RunUsesHeard(c: Cache, es: seq<Event>, a: u32, last: Option<HwAddr>)
    requires CacheOk(c) && Resolves(Find(c.slots, ETH_P_IP, a), last)
    ensures AlwaysAddressed(c, es, a, last)
    decreases es
  {
    if es != [] {
      match es[0] {
        case Send(_, _, _) => SendUsesHeard(c, es[0], a, last);
        case Arrive(_, _, _, _, _, _, _) => ArriveUsesHeard(c, es[0], a, last);
        case Tick(_) => TickUsesHeard(c, es[0], a, last);
      }
      RunUsesHeard(React(c, es[0]).0, es[1..], a, Heard(last, es[0], a));
    }
  }

  /** Over every run from an empty cache each packet leaves with the hardware address its destination announced last. */
  lemma PacketsGoWhereHeard(es: seq<Event>, a: u32)
    ensures AlwaysAddressed(COLD, es, a, None)
  {
    AllFree(COLD.slots, ETH_P_IP, a);
    RunUsesHeard(COLD, es, a, None);
  }
}
