/** What the ARP cache guarantees for each address over whole runs. */
module ArpProofs {
  import opened Words
  import opened ArpCache

  // ---- One live entry per address ---------------------------------------------------------

  ghost function Find(slots: seq<Entry>, pro: u16, ip: u32): Option<Entry> {
    var i := Lookup(slots, pro, ip);
    if i < |slots| then Some(slots[i]) else None
  }

  /** Packets wait only on entries that wait for a reply, which are entries for IP. */
  ghost predicate EntryOk(e: Entry) {
    (e.state != Waiting ==> e.pending == []) && (e.state == Waiting ==> e.pro == ETH_P_IP)
  }

  /** At most one live entry per protocol and address. */
  ghost predicate SlotsOk(slots: seq<Entry>) {
    slots == [] ||
    (var e := slots[0];
     && EntryOk(e)
     && (e.state != Free ==> Find(slots[1..], e.pro, e.ip).None?)
     && SlotsOk(slots[1..]))
  }

  lemma FindHead(slots: seq<Entry>, pro: u16, ip: u32)
    requires slots != []
    ensures Find(slots, pro, ip) == if slots[0].Holds(pro, ip) then Some(slots[0]) else Find(slots[1..], pro, ip)
  {
  }

  lemma {:induction false} AtIsFound(slots: seq<Entry>, i: nat)
    requires SlotsOk(slots) && i < |slots| && slots[i].state != Free
    ensures Find(slots, slots[i].pro, slots[i].ip) == Some(slots[i]) && EntryOk(slots[i])
  {
    FindHead(slots, slots[i].pro, slots[i].ip);
    if i > 0 {
      AtIsFound(slots[1..], i - 1);
    }
  }

  /** Putting an entry into its own slot, or into a free one when its address is new, changes the answer for that address only. */
  lemma {:induction false} PutEntry(slots: seq<Entry>, i: nat, e: Entry, pro: u16, ip: u32)
    requires SlotsOk(slots) && i < |slots| && e.state != Free && EntryOk(e)
    requires slots[i].Holds(e.pro, e.ip) || (slots[i].state == Free && Find(slots, e.pro, e.ip).None?)
    ensures SlotsOk(slots[i := e])
    ensures Find(slots[i := e], pro, ip) == if e.Holds(pro, ip) then Some(e) else Find(slots, pro, ip)
  {
    var s1 := slots[i := e];
    FindHead(slots, pro, ip);
    FindHead(s1, pro, ip);
    FindHead(slots, e.pro, e.ip);
    if i == 0 {
      assert s1[1..] == slots[1..];
    } else {
      assert s1[1..] == slots[1..][i - 1 := e];
      if slots[i].state != Free {
        AtIsFound(slots[1..], i - 1);
      }
      PutEntry(slots[1..], i - 1, e, pro, ip);
      PutEntry(slots[1..], i - 1, e, slots[0].pro, slots[0].ip);
    }
  }

  // ---- What leaves the cache for one address ----------------------------------------------

  ghost function Transmitted(out: seq<Out>, a: u32): seq<Packet> {
    if out == [] then []
    else if out[0].Transmit? && out[0].ip == a then [out[0].pkt] + Transmitted(out[1..], a)
    else Transmitted(out[1..], a)
  }

  ghost function Dropped(out: seq<Out>, a: u32): seq<Packet> {
    if out == [] then []
    else if out[0].Drop? && out[0].ip == a then [out[0].pkt] + Dropped(out[1..], a)
    else Dropped(out[1..], a)
  }

  ghost function Requests(out: seq<Out>, a: u32): nat {
    if out == [] then 0 else (if out[0].Request? && out[0].ip == a then 1 else 0) + Requests(out[1..], a)
  }

  lemma {:induction false} OutConcat(x: seq<Out>, y: seq<Out>, a: u32)
    ensures Transmitted(x + y, a) == Transmitted(x, a) + Transmitted(y, a)
    ensures Dropped(x + y, a) == Dropped(x, a) + Dropped(y, a)
    ensures Requests(x + y, a) == Requests(x, a) + Requests(y, a)
  {
    if x == [] {
      assert x + y == y;
    } else {
      assert (x + y)[1..] == x[1..] + y;
      OutConcat(x[1..], y, a);
      ConsConcat(x[0], Transmitted(x[1..], a), Transmitted(y, a));
      ConsConcat(x[0], Dropped(x[1..], a), Dropped(y, a));
    }
  }

  lemma ConsConcat(o: Out, p: seq<Packet>, q: seq<Packet>)
    ensures o.Transmit? || o.Drop? ==> [o.pkt] + (p + q) == [o.pkt] + p + q
  {
  }

  lemma HeadOut(o: Out, out: seq<Out>, a: u32)
    ensures Transmitted([o] + out, a) == (if o.Transmit? && o.ip == a then [o.pkt] else []) + Transmitted(out, a)
    ensures Dropped([o] + out, a) == (if o.Drop? && o.ip == a then [o.pkt] else []) + Dropped(out, a)
    ensures Requests([o] + out, a) == (if o.Request? && o.ip == a then 1 else 0) + Requests(out, a)
  {
    assert ([o] + out)[1..] == out;
  }

  lemma {:induction false} TransmitsOut(dev: nat, ip: u32, hw: HwAddr, pkts: seq<Packet>, a: u32)
    ensures var out := Transmits(dev, ip, hw, pkts);
            Transmitted(out, a) == (if ip == a then pkts else []) && Dropped(out, a) == [] && Requests(out, a) == 0
  {
    if pkts != [] {
      TransmitsOut(dev, ip, hw, pkts[1..], a);
      HeadOut(Transmit(dev, ip, pkts[0], hw), Transmits(dev, ip, hw, pkts[1..]), a);
      assert pkts == [pkts[0]] + pkts[1..];
    }
  }

  lemma {:induction false} DropsOut(ip: u32, pkts: seq<Packet>, a: u32)
    ensures var out := Drops(ip, pkts);
            Dropped(out, a) == (if ip == a then pkts else []) && Transmitted(out, a) == [] && Requests(out, a) == 0
  {
    if pkts != [] {
      DropsOut(ip, pkts[1..], a);
      HeadOut(Drop(ip, pkts[0]), Drops(ip, pkts[1..]), a);
      assert pkts == [pkts[0]] + pkts[1..];
    }
  }

  // ---- The steps, seen from one address ---------------------------------------------------

  /** What a step does to the entry of address `a` and to the packets for it. */
  datatype Effect = Effect(entry: Option<Entry>, sent: seq<Packet>, gone: seq<Packet>, requests: nat)

  ghost function Seen(r: (Cache, seq<Out>), a: u32): Effect {
    Effect(Find(r.0.slots, ETH_P_IP, a), Transmitted(r.1, a), Dropped(r.1, a), Requests(r.1, a))
  }

  ghost predicate CacheOk(c: Cache) {
    Shape(c) && SlotsOk(c.slots)
  }

  /** The search finds a free slot if there is one. */
  lemma {:induction false} SearchFinds(slots: seq<Entry>, next: nat, tries: nat, k: nat)
    requires |slots| == CACHE_SIZE && next < CACHE_SIZE && k < tries && slots[(next + k) % CACHE_SIZE].state == Free
    ensures slots[Search(slots, next, tries)].state == Free
    decreases tries
  {
    if slots[next].state != Free {
      assert k > 0;
      assert ((next + 1) % CACHE_SIZE + (k - 1)) % CACHE_SIZE == (next + k) % CACHE_SIZE;
      SearchFinds(slots, (next + 1) % CACHE_SIZE, tries - 1, k - 1);
    }
  }

  ghost predicate HasFree(slots: seq<Entry>) {
    exists i :: 0 <= i < |slots| && slots[i].state == Free
  }

  /** The search ends at a free slot if and only if there is one. */
  lemma SearchIff(slots: seq<Entry>, next: nat)
    requires |slots| == CACHE_SIZE && next < CACHE_SIZE
    ensures slots[Search(slots, next, CACHE_SIZE)].state == Free <==> HasFree(slots)
  {
    if HasFree(slots) {
      var i :| 0 <= i < |slots| && slots[i].state == Free;
      var k := if i >= next then i - next else i + CACHE_SIZE - next;
      assert (next + k) % CACHE_SIZE == i;
      SearchFinds(slots, next, CACHE_SIZE, k);
    }
  }

  lemma OneOut(o: Out, a: u32)
    ensures Transmitted([o], a) == (if o.Transmit? && o.ip == a then [o.pkt] else [])
    ensures Dropped([o], a) == (if o.Drop? && o.ip == a then [o.pkt] else [])
    ensures Requests([o], a) == if o.Request? && o.ip == a then 1 else 0
  {
    assert [o][1..] == [];
  }

  /** An entry that waits for a reply with `retry` requests left and these packets. */
  ghost predicate Asks(o: Option<Entry>, retry: int, pkts: seq<Packet>) {
    o.Some? && o.value.state == Waiting && o.value.retry == retry && o.value.ttl == WAIT_TIME && o.value.pending == pkts
  }

  lemma SendSeen(c: Cache, dev: nat, dst: u32, pkt: Packet, a: u32)
    requires CacheOk(c)
    ensures var r := SendDev(c, dev, dst, pkt);
            var o := Find(c.slots, ETH_P_IP, a);
            var now := Seen(r, a);
            && CacheOk(r.0)
            && if dst != a then now == Effect(o, [], [], 0)
               else match o
                    case None =>
                      if HasFree(c.slots) then now == Effect(now.entry, [], [], 1) && Asks(now.entry, RETRIES, [pkt]) && now.entry.value.dev == dev
                      else now == Effect(None, [], [pkt], 0)
                    case Some(e) => now == if e.state == Waiting then Effect(Some(e.(pending := e.pending + [pkt])), [], [], 0) else Effect(o, [pkt], [], 0)
  {
    var i := Lookup(c.slots, ETH_P_IP, dst);
    var r := SendDev(c, dev, dst, pkt);
    if i == |c.slots| {
      var j := Search(c.slots, c.next, CACHE_SIZE);
      SearchIff(c.slots, c.next);
      if c.slots[j].state == Free {
        PutEntry(c.slots, j, r.0.slots[j], ETH_P_IP, a);
        OneOut(Request(dev, dst), a);
      } else {
        OneOut(Drop(dst, pkt), a);
      }
    } else if c.slots[i].state == Waiting {
      PutEntry(c.slots, i, r.0.slots[i], ETH_P_IP, a);
    } else {
      OneOut(Transmit(dev, dst, pkt, c.slots[i].hw), a);
    }
  }

  /** The entry holds the hardware address for `left` more seconds. */
  ghost predicate Known(o: Option<Entry>, hw: HwAddr, left: int) {
    o.Some? && o.value.state == Resolved && o.value.hw == hw && o.value.ttl == left
  }

  lemma ReceiveSeen(c: Cache, dev: nat, devIp: u32, request: bool, pro: u16, sip: u32, sha: HwAddr, tip: u32, a: u32)
    requires CacheOk(c)
    ensures var r := Receive(c, dev, devIp, request, pro, sip, sha, tip);
            var o := Find(c.slots, ETH_P_IP, a);
            var now := Seen(r, a);
            && CacheOk(r.0) && now.gone == [] && now.requests == 0
            && if tip % 256 / 16 == 14 || tip != devIp || pro != ETH_P_IP || sip != a then now == Effect(o, [], [], 0)
               else match o
                    case None =>
                      && now.sent == [] && (now.entry.Some? <==> request && HasFree(c.slots))
                      && (now.entry.Some? ==> Known(now.entry, sha, TIMEOUT))
                    case Some(e) => now.sent == e.pending && Known(now.entry, sha, TIMEOUT)
  {
    var i := Lookup(c.slots, pro, sip);
    var r := Receive(c, dev, devIp, request, pro, sip, sha, tip);
    var reply: seq<Out> := if request then [Reply(sha)] else [];
    OneOut(Reply(sha), a);
    if tip % 256 / 16 == 14 || tip != devIp {
    } else if i < |c.slots| {
      AtIsFound(c.slots, i);
      PutEntry(c.slots, i, r.0.slots[i], ETH_P_IP, a);
      var e := c.slots[i];
      TransmitsOut(e.dev, sip, sha, e.pending, a);
      OutConcat(if e.state == Waiting then Transmits(e.dev, sip, sha, e.pending) else [], reply, a);
    } else if request {
      var j := Search(c.slots, c.next, CACHE_SIZE);
      SearchIff(c.slots, c.next);
      if c.slots[j].state == Free {
        PutEntry(c.slots, j, r.0.slots[j], ETH_P_IP, a);
      }
    }
  }

  /** Whether a tick of `delta` ends the entry. */
  ghost predicate Expires(e: Entry, delta: int) {
    e.ttl <= delta && (e.state == Resolved || e.retry <= 0)
  }

  lemma TickSeen(e: Entry, delta: int, a: u32)
    requires EntryOk(e)
    ensures var (e1, out) := TickEntry(e, delta);
            && EntryOk(e1) && e1.pro == e.pro && e1.ip == e.ip && Transmitted(out, a) == []
            && (e1.state == Free <==> e.state == Free || Expires(e, delta))
            && Dropped(out, a) == (if e.state == Waiting && Expires(e, delta) && e.ip == a then e.pending else [])
            && (!e.Holds(ETH_P_IP, a) ==> Requests(out, a) == 0)
  {
    DropsOut(e.ip, e.pending, a);
    OneOut(Request(e.dev, e.ip), a);
  }

  lemma {:induction false} TimerSeen(slots: seq<Entry>, delta: int, a: u32, pro: u16, ip: u32)
    requires SlotsOk(slots)
    ensures var (s1, out) := Timer(slots, delta);
            && |s1| == |slots| && SlotsOk(s1)
            && Transmitted(out, a) == []
            && match Find(slots, ETH_P_IP, a)
               case None => Dropped(out, a) == [] && Requests(out, a) == 0
               case Some(e) => Dropped(out, a) == (if Expires(e, delta) then e.pending else []) && Requests(out, a) == Requests(TickEntry(e, delta).1, a)
    ensures Find(Timer(slots, delta).0, pro, ip) ==
            match Find(slots, pro, ip)
            case None => None
            case Some(e) => if Expires(e, delta) then None else Some(TickEntry(e, delta).0)
  {
    if slots != [] {
      var (e1, out1) := TickEntry(slots[0], delta);
      var (rest, more) := Timer(slots[1..], delta);
      assert ([e1] + rest)[1..] == rest;
      TickSeen(slots[0], delta, a);
      TimerSeen(slots[1..], delta, a, pro, ip);
      TimerSeen(slots[1..], delta, a, slots[0].pro, slots[0].ip);
      FindHead(slots, ETH_P_IP, a);
      FindHead(slots, pro, ip);
      FindHead([e1] + rest, pro, ip);
      OutConcat(out1, more, a);
    }
  }

  // ---- Runs -------------------------------------------------------------------------------

  datatype Event =
    | Send(dev: nat, dst: u32, pkt: Packet)
    | Arrive(dev: nat, devIp: u32, request: bool, pro: u16, sip: u32, sha: HwAddr, tip: u32)
    | Tick(delta: nat)

  /** The cache, and for one address the packets given to it, sent to the device and dropped, in order, and the requests made. */
  datatype History = History(c: Cache, given: seq<Packet>, sent: seq<Packet>, gone: seq<Packet>, requests: nat)

  ghost function React(c: Cache, e: Event): (Cache, seq<Out>)
    requires Shape(c)
  {
    match e
    case Send(dev, dst, pkt) => SendDev(c, dev, dst, pkt)
    case Arrive(dev, devIp, request, pro, sip, sha, tip) => Receive(c, dev, devIp, request, pro, sip, sha, tip)
    case Tick(delta) => var (slots, out) := Timer(c.slots, delta); (c.(slots := slots), out)
  }

  ghost function Step(h: History, e: Event, a: u32): History
    requires Shape(h.c)
  {
    var r := React(h.c, e);
    var now := Seen(r, a);
    History(r.0, if e.Send? && e.dst == a then h.given + [e.pkt] else h.given,
            h.sent + now.sent, h.gone + now.gone, h.requests + now.requests)
  }

  ghost function Pending(c: Cache, a: u32): seq<Packet> {
    match Find(c.slots, ETH_P_IP, a)
    case None => []
    case Some(e) => e.pending
  }

  /** The first sequence is what is left of the second when some packets are taken out. */
  ghost predicate Subsequence(x: seq<Packet>, y: seq<Packet>) {
    x == [] ||
    (y != [] && (Subsequence(x, y[..|y| - 1]) || (x[|x| - 1] == y[|y| - 1] && Subsequence(x[..|x| - 1], y[..|y| - 1]))))
  }

  lemma {:induction false} PrefixOfSubsequence(x: seq<Packet>, z: seq<Packet>, y: seq<Packet>)
    requires Subsequence(x + z, y)
    ensures Subsequence(x, y)
    decreases |y|
  {
    if x != [] {
      var y1 := y[..|y| - 1];
      if Subsequence(x + z, y1) {
        PrefixOfSubsequence(x, z, y1);
      } else if z != [] {
        assert (x + z)[..|x + z| - 1] == x + z[..|z| - 1];
        PrefixOfSubsequence(x, z[..|z| - 1], y1);
      } else {
        assert x + z == x;
      }
    }
  }

  lemma SubsequenceExtends(x: seq<Packet>, y: seq<Packet>, p: Packet)
    requires Subsequence(x, y)
    ensures Subsequence(x, y + [p]) && Subsequence(x + [p], y + [p])
  {
    assert (x + [p])[..|x|] == x && (y + [p])[..|y|] == y;
  }

  /** Every packet given is sent, dropped or pending, once each, and neither those sent nor those dropped change their order. */
  ghost predicate Balanced(given: seq<Packet>, sent: seq<Packet>, gone: seq<Packet>, pending: seq<Packet>) {
    && multiset(given) == multiset(sent) + multiset(gone) + multiset(pending)
    && Subsequence(sent + pending, given)
    && Subsequence(gone + pending, given)
  }

  ghost predicate Conserved(h: History, a: u32) {
    CacheOk(h.c) && Balanced(h.given, h.sent, h.gone, Pending(h.c, a))
  }

  lemma BalancedQueue(given: seq<Packet>, sent: seq<Packet>, gone: seq<Packet>, pending: seq<Packet>, x: Packet)
    requires Balanced(given, sent, gone, pending)
    ensures Balanced(given + [x], sent, gone, pending + [x])
  {
    SubsequenceExtends(sent + pending, given, x);
    SubsequenceExtends(gone + pending, given, x);
    assert sent + (pending + [x]) == sent + pending + [x];
    assert gone + (pending + [x]) == gone + pending + [x];
  }

  lemma BalancedSend(given: seq<Packet>, sent: seq<Packet>, gone: seq<Packet>, x: Packet)
    requires Balanced(given, sent, gone, [])
    ensures Balanced(given + [x], sent + [x], gone, [])
  {
    SubsequenceExtends(sent + [], given, x);
    SubsequenceExtends(gone + [], given, x);
    assert sent + [] + [x] == sent + [x] + [];
  }

  lemma BalancedRefuse(given: seq<Packet>, sent: seq<Packet>, gone: seq<Packet>, x: Packet)
    requires Balanced(given, sent, gone, [])
    ensures Balanced(given + [x], sent, gone + [x], [])
  {
    SubsequenceExtends(sent + [], given, x);
    SubsequenceExtends(gone + [], given, x);
    assert gone + [] + [x] == gone + [x] + [];
  }

  lemma BalancedFlush(given: seq<Packet>, sent: seq<Packet>, gone: seq<Packet>, pending: seq<Packet>)
    requires Balanced(given, sent, gone, pending)
    ensures Balanced(given, sent + pending, gone, [])
  {
    PrefixOfSubsequence(gone, pending, given);
    assert sent + pending + [] == sent + pending && gone + [] == gone;
  }

  lemma BalancedDrop(given: seq<Packet>, sent: seq<Packet>, gone: seq<Packet>, pending: seq<Packet>)
    requires Balanced(given, sent, gone, pending)
    ensures Balanced(given, sent, gone + pending, [])
  {
    PrefixOfSubsequence(sent, pending, given);
    assert sent + [] == sent && gone + pending + [] == gone + pending;
  }

  /** The effects a step may have on an address. */
  ghost predicate Moves(h: History, e: Event, h1: History, a: u32) {
    var p, p1 := Pending(h.c, a), Pending(h1.c, a);
    CacheOk(h1.c) &&
    if e.Send? && e.dst == a then
      h1.given == h.given + [e.pkt] &&
      (|| (p1 == p + [e.pkt] && h1.sent == h.sent && h1.gone == h.gone)
       || (p1 == p == [] && h1.sent == h.sent + [e.pkt] && h1.gone == h.gone)
       || (p1 == p == [] && h1.sent == h.sent && h1.gone == h.gone + [e.pkt]))
    else
      h1.given == h.given &&
      (|| (p1 == p && h1.sent == h.sent && h1.gone == h.gone)
       || (p1 == [] && h1.sent == h.sent + p && h1.gone == h.gone)
       || (p1 == [] && h1.sent == h.sent && h1.gone == h.gone + p))
  }

  lemma {:induction false} FoundIsOk(slots: seq<Entry>, a: u32)
    requires SlotsOk(slots)
    ensures Find(slots, ETH_P_IP, a).Some? ==> EntryOk(Find(slots, ETH_P_IP, a).value)
  {
    if slots != [] {
      FindHead(slots, ETH_P_IP, a);
      FoundIsOk(slots[1..], a);
    }
  }

  lemma StepMoves(h: History, e: Event, a: u32)
    requires CacheOk(h.c)
    ensures Moves(h, e, Step(h, e, a), a)
  {
    FoundIsOk(h.c.slots, a);
    match e
    case Send(dev, dst, pkt) =>
      SendSeen(h.c, dev, dst, pkt, a);
    case Arrive(dev, devIp, request, pro, sip, sha, tip) =>
      ReceiveSeen(h.c, dev, devIp, request, pro, sip, sha, tip, a);
      FoundIsOk(React(h.c, e).0.slots, a);
    case Tick(delta) =>
      TimerSeen(h.c.slots, delta, a, ETH_P_IP, a);
  }

  lemma MovesConserve(h: History, e: Event, h1: History, a: u32)
    requires Conserved(h, a) && Moves(h, e, h1, a)
    ensures Conserved(h1, a)
  {
    var p, p1 := Pending(h.c, a), Pending(h1.c, a);
    if e.Send? && e.dst == a {
      if p1 == p + [e.pkt] && h1.sent == h.sent {
        BalancedQueue(h.given, h.sent, h.gone, p, e.pkt);
      } else if h1.gone == h.gone {
        BalancedSend(h.given, h.sent, h.gone, e.pkt);
      } else {
        BalancedRefuse(h.given, h.sent, h.gone, e.pkt);
      }
    } else if p1 == p && h1.sent == h.sent && h1.gone == h.gone {
    } else if h1.gone == h.gone && h1.sent == h.sent + p {
      BalancedFlush(h.given, h.sent, h.gone, p);
    } else {
      BalancedDrop(h.given, h.sent, h.gone, p);
    }
  }

  ghost function Run(h: History, es: seq<Event>, a: u32): (h1: History)
    requires Conserved(h, a)
    ensures Conserved(h1, a)
    decreases es
  {
    if es == [] then h
    else
      StepMoves(h, es[0], a);
      MovesConserve(h, es[0], Step(h, es[0], a), a);
      Run(Step(h, es[0], a), es[1..], a)
  }

  const COLD := Cache(seq(CACHE_SIZE, _ => EMPTY), 0)

  lemma {:induction false} AllFree(slots: seq<Entry>, pro: u16, ip: u32)
    requires forall i :: 0 <= i < |slots| ==> slots[i] == EMPTY
    ensures SlotsOk(slots) && Find(slots, pro, ip).None?
  {
    if slots != [] {
      AllFree(slots[1..], pro, ip);
    }
  }

  /**
   Over every run from an empty cache and for every address: each packet given is sent, dropped or pending
   exactly once, packets reach the device in the order given and are dropped in the order given, and there is
   one live entry per address at most.
   */
  lemma PacketsAreConserved(es: seq<Event>, a: u32)
    ensures Conserved(History(COLD, [], [], [], 0), a)
    ensures var h := Run(History(COLD, [], [], [], 0), es, a);
            && SlotsOk(h.c.slots)
            && multiset(h.given) == multiset(h.sent) + multiset(h.gone) + multiset(Pending(h.c, a))
            && Subsequence(h.sent + Pending(h.c, a), h.given)
            && Subsequence(h.gone + Pending(h.c, a), h.given)
  {
    AllFree(COLD.slots, ETH_P_IP, a);
  }

  // ---- Unanswered requests ----------------------------------------------------------------

  /** A one-second tick, a send, or a message that does not answer for the address. */
  ghost predicate Silent(e: Event, a: u32) {
    match e
    case Send(_, _, _) => true
    case Arrive(_, devIp, _, pro, sip, _, tip) => pro != ETH_P_IP || sip != a || tip != devIp
    case Tick(delta) => delta == 1
  }

  ghost predicate NoAnswer(es: seq<Event>, a: u32) {
    es == [] || (Silent(es[0], a) && NoAnswer(es[1..], a))
  }

  ghost function Ticks(es: seq<Event>): nat {
    if es == [] then 0 else (if es[0].Tick? then 1 else 0) + Ticks(es[1..])
  }

  ghost function SentTo(es: seq<Event>, a: u32): seq<Packet> {
    if es == [] then []
    else if es[0].Send? && es[0].dst == a then [es[0].pkt] + SentTo(es[1..], a)
    else SentTo(es[1..], a)
  }

  /** One silent event: a tick makes a request, a send for the address queues. */
  lemma SilentStep(h: History, e: Event, a: u32, retry: nat, pkts: seq<Packet>)
    requires CacheOk(h.c) && Silent(e, a) && (e.Tick? ==> retry > 0)
    requires Asks(Find(h.c.slots, ETH_P_IP, a), retry, pkts)
    ensures var h1 := Step(h, e, a);
            var n := if e.Tick? then 1 else 0;
            && Asks(Find(h1.c.slots, ETH_P_IP, a), retry - n, Queue(e, a, pkts))
            && h1.requests == h.requests + n && h1.sent == h.sent && h1.gone == h.gone
  {
    FoundAt(h.c.slots, a);
    match e
    case Send(dev, dst, pkt) =>
      SendSeen(h.c, dev, dst, pkt, a);
    case Arrive(dev, devIp, request, pro, sip, sha, tip) =>
      ReceiveSeen(h.c, dev, devIp, request, pro, sip, sha, tip, a);
    case Tick(delta) =>
      TimerSeen(h.c.slots, delta, a, ETH_P_IP, a);
      OneOut(Request(Find(h.c.slots, ETH_P_IP, a).value.dev, a), a);
  }

  /** Each tick without an answer makes one request, as long as there are any left. */
  lemma {:induction false} Unanswered(h: History, es: seq<Event>, a: u32, retry: nat, pkts: seq<Packet>)
    requires Conserved(h, a) && NoAnswer(es, a) && Ticks(es) <= retry
    requires Asks(Find(h.c.slots, ETH_P_IP, a), retry, pkts)
    ensures var h1 := Run(h, es, a);
            && Asks(Find(h1.c.slots, ETH_P_IP, a), retry - Ticks(es), pkts + SentTo(es, a))
            && h1.requests == h.requests + Ticks(es) && h1.sent == h.sent && h1.gone == h.gone
    decreases es
  {
    if es == [] {
      assert pkts + SentTo(es, a) == pkts;
    } else {
      var e := es[0];
      StepMoves(h, e, a);
      MovesConserve(h, e, Step(h, e, a), a);
      SilentStep(h, e, a, retry, pkts);
      SentToHead(es, a, pkts);
      Unanswered(Step(h, e, a), es[1..], a, if e.Tick? then retry - 1 else retry, Queue(e, a, pkts));
    }
  }

  ghost function Queue(e: Event, a: u32, pkts: seq<Packet>): seq<Packet> {
    if e.Send? && e.dst == a then pkts + [e.pkt] else pkts
  }

  lemma SentToHead(es: seq<Event>, a: u32, pkts: seq<Packet>)
    requires es != []
    ensures Queue(es[0], a, pkts) + SentTo(es[1..], a) == pkts + SentTo(es, a)
  {
  }

  lemma FoundAt(slots: seq<Entry>, a: u32)
    ensures Find(slots, ETH_P_IP, a).Some? ==> Find(slots, ETH_P_IP, a).value.Holds(ETH_P_IP, a)
  {
  }

  /** After the first request an unanswered entry makes exactly four more, and the fifth tick frees it and drops its packets. */
  lemma FifthTickFrees(h: History, es: seq<Event>, a: u32, pkts: seq<Packet>)
    requires Conserved(h, a) && Asks(Find(h.c.slots, ETH_P_IP, a), RETRIES, pkts) && NoAnswer(es, a) && Ticks(es) == RETRIES
    ensures var h1 := Run(h, es, a);
            var h2 := Step(h1, Tick(1), a);
            && h1.requests == h2.requests == h.requests + 4
            && Find(h1.c.slots, ETH_P_IP, a).Some? && Find(h2.c.slots, ETH_P_IP, a).None?
            && h2.sent == h.sent && h2.gone == h.gone + (pkts + SentTo(es, a))
  {
    Unanswered(h, es, a, RETRIES, pkts);
    LastTick(Run(h, es, a), a, pkts + SentTo(es, a));
  }

  lemma LastTick(h: History, a: u32, pkts: seq<Packet>)
    requires CacheOk(h.c) && Asks(Find(h.c.slots, ETH_P_IP, a), 0, pkts)
    ensures var h1 := Step(h, Tick(1), a);
            && Find(h1.c.slots, ETH_P_IP, a).None?
            && h1.requests == h.requests && h1.sent == h.sent && h1.gone == h.gone + pkts
  {
    FoundAt(h.c.slots, a);
    TimerSeen(h.c.slots, 1, a, ETH_P_IP, a);
    DropsOut(a, pkts, a);
  }
}
