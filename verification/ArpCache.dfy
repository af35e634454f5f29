/** The ARP cache with its queues of pending packets (arp/arp_cache.c, arp/arp.c, ip/ip_out.c; RFC 826). */
module ArpCache {
  import opened Words

  /** Packets matter only by identity here. */
  type Packet = nat
  type HwAddr = seq<byte>

  const CACHE_SIZE := 20
  const TIMEOUT := 600
  const WAIT_TIME := 1
  const RETRIES := 4
  const ETH_P_IP: u16 := 0x0800

  datatype EntryState = Free | Waiting | Resolved

  datatype Entry = Entry(state: EntryState, pro: u16, ip: u32, dev: nat, hw: HwAddr, retry: int, ttl: int, pending: seq<Packet>) {
    predicate Holds(p: u16, a: u32) { state != Free && pro == p && ip == a }
  }

  const EMPTY := Entry(Free, 0, 0, 0, [], 0, 0, [])

  /** What leaves the cache: packets for an address and requests for it on a device, packets given up, and replies. */
  datatype Out = Transmit(dev: nat, ip: u32, pkt: Packet, hw: HwAddr) | Request(dev: nat, ip: u32) | Drop(ip: u32, pkt: Packet) | Reply(hw: HwAddr)

  datatype Cache = Cache(slots: seq<Entry>, next: nat)

  ghost predicate Shape(c: Cache) {
    |c.slots| == CACHE_SIZE && c.next < CACHE_SIZE
  }

  /** `arp_lookup`: the index of the first live entry for the address, or the size. */
  function Lookup(slots: seq<Entry>, pro: u16, ip: u32): (i: nat)
    ensures i <= |slots|
    ensures i < |slots| ==> slots[i].Holds(pro, ip)
    ensures forall j :: 0 <= j < i ==> !slots[j].Holds(pro, ip)
  {
    if slots == [] || slots[0].Holds(pro, ip) then 0 else 1 + Lookup(slots[1..], pro, ip)
  }

  /** The round-robin search of `arp_alloc`: where the cursor stands after at most `tries` occupied slots. */
  function Search(slots: seq<Entry>, next: nat, tries: nat): (i: nat)
    requires |slots| == CACHE_SIZE && next < CACHE_SIZE
    ensures i < CACHE_SIZE
    decreases tries
  {
    if tries == 0 || slots[next].state == Free then next else Search(slots, (next + 1) % CACHE_SIZE, tries - 1)
  }

  /** The entry `arp_alloc` hands out. */
  function Fresh(e: Entry): Entry {
    e.(dev := 0, retry := RETRIES, ttl := WAIT_TIME, state := Waiting, pro := ETH_P_IP, pending := [])
  }

  function Transmits(dev: nat, ip: u32, hw: HwAddr, pkts: seq<Packet>): seq<Out> {
    if pkts == [] then [] else [Transmit(dev, ip, pkts[0], hw)] + Transmits(dev, ip, hw, pkts[1..])
  }

  function Drops(ip: u32, pkts: seq<Packet>): seq<Out> {
    if pkts == [] then [] else [Drop(ip, pkts[0])] + Drops(ip, pkts[1..])
  }

  /** `ip_send_dev` for a packet whose next hop is not this host. */
  function SendDev(c: Cache, dev: nat, dst: u32, pkt: Packet): (Cache, seq<Out>)
    requires Shape(c)
  {
    var i := Lookup(c.slots, ETH_P_IP, dst);
    if i == |c.slots| then
      var j := Search(c.slots, c.next, CACHE_SIZE);
      if c.slots[j].state != Free then (c.(next := j), [Drop(dst, pkt)])
      else
        var e := Fresh(c.slots[j]).(ip := dst, dev := dev, pending := [pkt]);
        (Cache(c.slots[j := e], (j + 1) % CACHE_SIZE), [Request(dev, dst)])
    else if c.slots[i].state == Waiting then
      (c.(slots := c.slots[i := c.slots[i].(pending := c.slots[i].pending + [pkt])]), [])
    else
      (c, [Transmit(dev, dst, pkt, c.slots[i].hw)])
  }

  /** `arp_recv` on a request or a reply from `sip`. */
  function Receive(c: Cache, dev: nat, devIp: u32, request: bool, pro: u16, sip: u32, sha: HwAddr, tip: u32): (Cache, seq<Out>)
    requires Shape(c)
  {
    if tip % 256 / 16 == 14 || tip != devIp then (c, [])
    else
      var i := Lookup(c.slots, pro, sip);
      var reply := if request then [Reply(sha)] else [];
      if i < |c.slots| then
        var e := c.slots[i];
        var waiting := e.state == Waiting;
        (c.(slots := c.slots[i := e.(hw := sha, state := Resolved, ttl := TIMEOUT, pending := if waiting then [] else e.pending)]),
         (if waiting then Transmits(e.dev, sip, sha, e.pending) else []) + reply)
      else if request then
        var j := Search(c.slots, c.next, CACHE_SIZE);
        if c.slots[j].state != Free then (c.(next := j), reply)
        else
          var e := Fresh(c.slots[j]).(dev := dev, pro := pro, ttl := TIMEOUT, ip := sip, state := Resolved, hw := sha);
          (Cache(c.slots[j := e], (j + 1) % CACHE_SIZE), reply)
      else (c, reply)
  }

  /** One entry under `arp_timer`. */
  function TickEntry(e: Entry, delta: int): (Entry, seq<Out>) {
    if e.state == Free then (e, [])
    else
      var e1 := e.(ttl := e.ttl - delta);
      if e1.ttl > 0 then (e1, [])
      else if e.state == Resolved then (e1.(state := Free), [])
      else if e.retry - 1 < 0 then (e1.(retry := e.retry - 1, state := Free, pending := []), Drops(e.ip, e.pending))
      else (e1.(retry := e.retry - 1, ttl := WAIT_TIME), [Request(e.dev, e.ip)])
  }

  function Timer(slots: seq<Entry>, delta: int): (seq<Entry>, seq<Out>) {
    if slots == [] then ([], [])
    else
      var (e, out) := TickEntry(slots[0], delta);
      var (rest, more) := Timer(slots[1..], delta);
      ([e] + rest, out + more)
  }
}
