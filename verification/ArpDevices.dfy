/** Which device the packets and the requests for an address leave on. */
module ArpDevices {
  import opened Words
  import opened ArpCache
  import opened ArpProofs
  import opened ArpReplies

  /** Every packet and every request for `a` leaves on device `d`. */
  ghost predicate LeavesOn(out: seq<Out>, a: u32, d: nat) {
    out == [] || (((out[0].Transmit? || out[0].Request?) && out[0].ip == a ==> out[0].dev == d) && LeavesOn(out[1..], a, d))
  }

  ghost predicate WaitsOn(o: Option<Entry>, d: nat) {
    o.Some? && o.value.state == Waiting ==> o.value.dev == d
  }

  /** Every packet of the run for `a` is given for device `d`. */
  ghost predicate GivenOn(es: seq<Event>, a: u32, d: nat) {
    es == [] || ((es[0].Send? && es[0].dst == a ==> es[0].dev == d) && GivenOn(es[1..], a, d))
  }

  lemma {:induction false} LeavesConcat(x: seq<Out>, y: seq<Out>, a: u32, d: nat)
    requires LeavesOn(x, a, d) && LeavesOn(y, a, d)
    ensures LeavesOn(x + y, a, d)
  {
    if x == [] {
      assert x + y == y;
    } else {
      LeavesConcat(x[1..], y, a, d);
      assert (x + y)[1..] == x[1..] + y;
    }
  }

  lemma {:induction false} TransmitsLeave(dev: nat, ip: u32, hw: HwAddr, pkts: seq<Packet>, a: u32, d: nat)
    requires ip == a ==> dev == d
    ensures LeavesOn(Transmits(dev, ip, hw, pkts), a, d)
  {
    if pkts != [] {
      TransmitsLeave(dev, ip, hw, pkts[1..], a, d);
      assert Transmits(dev, ip, hw, pkts)[1..] == Transmits(dev, ip, hw, pkts[1..]);
    }
  }

  lemma {:induction false} DropsLeaveNothing(ip: u32, pkts: seq<Packet>, a: u32, d: nat)
    ensures LeavesOn(Drops(ip, pkts), a, d)
  {
    if pkts != [] {
      DropsLeaveNothing(ip, pkts[1..], a, d);
      assert Drops(ip, pkts)[1..] == Drops(ip, pkts[1..]);
    }
  }

  lemma SendLeaves(c: Cache, e: Event, a: u32, d: nat)
    requires e.Send? && CacheOk(c) && WaitsOn(Find(c.slots, ETH_P_IP, a), d) && (e.dst == a ==> e.dev == d)
    ensures CacheOk(React(c, e).0) && WaitsOn(Find(React(c, e).0.slots, ETH_P_IP, a), d) && LeavesOn(React(c, e).1, a, d)
  {
    SendSeen(c, e.dev, e.dst, e.pkt, a);
    var out := React(c, e).1;
    assert out != [] ==> out[1..] == [];
  }

  lemma ArriveLeaves(c: Cache, e: Event, a: u32, d: nat)
    requires e.Arrive? && CacheOk(c) && WaitsOn(Find(c.slots, ETH_P_IP, a), d)
    ensures CacheOk(React(c, e).0) && WaitsOn(Find(React(c, e).0.slots, ETH_P_IP, a), d) && LeavesOn(React(c, e).1, a, d)
  {
    ReceiveSeen(c, e.dev, e.devIp, e.request, e.pro, e.sip, e.sha, e.tip, a);
    var i := Lookup(c.slots, e.pro, e.sip);
    var reply: seq<Out> := if e.request then [Reply(e.sha)] else [];
    assert LeavesOn(reply, a, d) by { assert e.request ==> reply[1..] == []; }
    if i < |c.slots| && c.slots[i].state == Waiting {
      AtIsFound(c.slots, i);
      TransmitsLeave(c.slots[i].dev, e.sip, e.sha, c.slots[i].pending, a, d);
      LeavesConcat(Transmits(c.slots[i].dev, e.sip, e.sha, c.slots[i].pending), reply, a, d);
    }
    assert [] + reply == reply;
  }

  lemma {:induction false} TimerLeaves(slots: seq<Entry>, delta: int, a: u32, d: nat)
    requires SlotsOk(slots) && WaitsOn(Find(slots, ETH_P_IP, a), d)
    ensures LeavesOn(Timer(slots, delta).1, a, d)
  {
    if slots != [] {
      var out := TickEntry(slots[0], delta).1;
      FindHead(slots, ETH_P_IP, a);
      DropsLeaveNothing(slots[0].ip, slots[0].pending, a, d);
      assert LeavesOn(out, a, d) by { assert out == [Request(slots[0].dev, slots[0].ip)] ==> out[1..] == []; }
      TimerLeaves(slots[1..], delta, a, d);
      LeavesConcat(out, Timer(slots[1..], delta).1, a, d);
    }
  }

  lemma TickLeaves(c: Cache, e: Event, a: u32, d: nat)
    requires e.Tick? && CacheOk(c) && WaitsOn(Find(c.slots, ETH_P_IP, a), d)
    ensures CacheOk(React(c, e).0) && WaitsOn(Find(React(c, e).0.slots, ETH_P_IP, a), d) && LeavesOn(React(c, e).1, a, d)
  {
    TimerSeen(c.slots, e.delta, a, ETH_P_IP, a);
    TimerLeaves(c.slots, e.delta, a, d);
  }

  lemma {:induction false} RunLeaves(c: Cache, es: seq<Event>, a: u32, d: nat)
    requires CacheOk(c) && WaitsOn(Find(c.slots, ETH_P_IP, a), d) && GivenOn(es, a, d)
    ensures LeavesOn(Outputs(c, es), a, d)
    decreases es
  {
    if es != [] {
      match es[0] {
        case Send(_, _, _) => SendLeaves(c, es[0], a, d);
        case Arrive(_, _, _, _, _, _, _) => ArriveLeaves(c, es[0], a, d);
        case Tick(_) => TickLeaves(c, es[0], a, d);
      }
      RunLeaves(React(c, es[0]).0, es[1..], a, d);
      LeavesConcat(React(c, es[0]).1, Outputs(React(c, es[0]).0, es[1..]), a, d);
    }
  }

  /**
   Over every run from an empty cache in which the packets for `a` are given for one device, they and all requests
   for `a`, repeated ones included, leave on it.
   */
  lemma PacketsKeepDevice(es: seq<Event>, a: u32, d: nat)
    requires GivenOn(es, a, d)
    ensures LeavesOn(Outputs(COLD, es), a, d)
  {
    AllFree(COLD.slots, ETH_P_IP, a);
    RunLeaves(COLD, es, a, d);
  }
}
