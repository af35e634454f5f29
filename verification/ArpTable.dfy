/** The ARP cache as the slot array the handlers update in place. */
module ArpTable {
  import opened Words
  import opened ArpCache

  lemma {:induction false} LookupFrom(slots: seq<Entry>, pro: u16, ip: u32, i: nat)
    requires i <= |slots| && forall j :: 0 <= j < i ==> !slots[j].Holds(pro, ip)
    ensures Lookup(slots, pro, ip) == i + Lookup(slots[i..], pro, ip)
  {
    if i > 0 {
      LookupFrom(slots[1..], pro, ip, i - 1);
      assert slots[1..][i - 1..] == slots[i..];
    } else {
      assert slots[0..] == slots;
    }
  }

  lemma PutTwice(s: seq<Entry>, i: nat, a: Entry, b: Entry)
    requires i < |s|
    ensures s[i := a][i := b] == s[i := b]
  {
  }

  lemma TimerStep(was: seq<Entry>, i: nat, delta: int, done: seq<Entry>, out: seq<Out>)
    requires i < |was|
    ensures done + Timer(was[i..], delta).0 == (done + [TickEntry(was[i], delta).0]) + Timer(was[i + 1..], delta).0
    ensures out + Timer(was[i..], delta).1 == (out + TickEntry(was[i], delta).1) + Timer(was[i + 1..], delta).1
  {
    assert was[i..][0] == was[i] && was[i..][1..] == was[i + 1..];
  }

  class Table {
    const slots: array<Entry>
    var next: nat

    ghost predicate Valid()
      reads this
    {
      slots.Length == CACHE_SIZE && next < CACHE_SIZE
    }

    ghost function View(): Cache
      reads this, slots
    {
      Cache(slots[..], next)
    }

    constructor ()
      ensures Valid() && fresh(slots) && View() == Cache(seq(CACHE_SIZE, _ => EMPTY), 0)
    {
      slots := new Entry[CACHE_SIZE](_ => EMPTY);
      next := 0;
    }

    /** Writes one slot. */
    method Put(i: nat, e: Entry)
      requires i < slots.Length
      modifies slots
      ensures slots[..] == old(slots[..])[i := e]
    {
      slots[i] := e;
    }

    method FindEntry(pro: u16, ip: u32) returns (i: nat)
      requires Valid()
      ensures i == Lookup(slots[..], pro, ip)
    {
      i := 0;
      while i < CACHE_SIZE
        invariant i <= CACHE_SIZE && forall j :: 0 <= j < i ==> !slots[j].Holds(pro, ip)
      {
        if slots[i].state != Free && slots[i].pro == pro && slots[i].ip == ip {
          break;
        }
        i := i + 1;
      }
      LookupFrom(slots[..], pro, ip, i);
      assert i < CACHE_SIZE ==> slots[..][i..][0] == slots[i];
    }

    /** `arp_alloc`; the cursor stays where the search ended when there is no free slot. */
    method Alloc() returns (o: Option<nat>)
      requires Valid()
      modifies this, slots
      ensures Valid()
      ensures var j := Search(old(slots[..]), old(next), CACHE_SIZE);
              if old(slots[..])[j].state != Free then o == None && View() == old(View()).(next := j)
              else o == Some(j) && View() == Cache(old(slots[..])[j := Fresh(old(slots[..])[j])], (j + 1) % CACHE_SIZE)
    {
      var i := 0;
      while i < CACHE_SIZE
        invariant 0 <= i <= CACHE_SIZE && Valid() && slots[..] == old(slots[..])
        invariant Search(slots[..], old(next), CACHE_SIZE) == Search(slots[..], next, CACHE_SIZE - i)
      {
        if slots[next].state == Free {
          break;
        }
        next := (next + 1) % CACHE_SIZE;
        i := i + 1;
      }
      if slots[next].state != Free {
        return None;
      }
      o := Some(next);
      slots[next] := slots[next].(dev := 0, retry := RETRIES, ttl := WAIT_TIME, state := Waiting, pro := ETH_P_IP, pending := []);
      next := (next + 1) % CACHE_SIZE;
    }

    method SendTo(dev: nat, dst: u32, pkt: Packet) returns (out: seq<Out>)
      requires Valid()
      modifies this, slots
      ensures Valid() && (View(), out) == SendDev(old(View()), dev, dst, pkt)
    {
      var i := FindEntry(ETH_P_IP, dst);
      if i == CACHE_SIZE {
        out := SendFirst(dev, dst, pkt);
      } else if slots[i].state == Waiting {
        Put(i, slots[i].(pending := slots[i].pending + [pkt]));
        out := [];
      } else {
        out := [Transmit(dev, dst, pkt, slots[i].hw)];
      }
    }

    /** The branch of `ip_send_dev` for an address the cache does not hold. */
    method SendFirst(dev: nat, dst: u32, pkt: Packet) returns (out: seq<Out>)
      requires Valid() && Lookup(slots[..], ETH_P_IP, dst) == CACHE_SIZE
      modifies this, slots
      ensures Valid() && (View(), out) == SendDev(old(View()), dev, dst, pkt)
    {
      var o := Alloc();
      if o == None {
        return [Drop(dst, pkt)];
      }
      var j := o.value;
      PutTwice(old(slots[..]), j, slots[j], slots[j].(ip := dst, dev := dev, pending := [pkt]));
      assert slots[j].pending + [pkt] == [pkt];
      Put(j, slots[j].(ip := dst, dev := dev, pending := slots[j].pending + [pkt]));
      out := [Request(dev, dst)];
    }

    /** `arp_queue_send`: pending packets leave in order. */
    method QueueSend(i: nat, ip: u32) returns (out: seq<Out>)
      requires Valid() && i < CACHE_SIZE
      modifies slots
      ensures slots[..] == old(slots[..])[i := old(slots[i]).(pending := [])]
      ensures out == Transmits(old(slots[i]).dev, ip, old(slots[i]).hw, old(slots[i]).pending)
    {
      out := [];
      while slots[i].pending != []
        invariant slots[..] == old(slots[..])[i := old(slots[i]).(pending := slots[i].pending)]
        invariant Transmits(old(slots[i]).dev, ip, old(slots[i]).hw, old(slots[i]).pending) ==
                  out + Transmits(old(slots[i]).dev, ip, old(slots[i]).hw, slots[i].pending)
        decreases |slots[i].pending|
      {
        out := out + [Transmit(slots[i].dev, ip, slots[i].pending[0], slots[i].hw)];
        slots[i] := slots[i].(pending := slots[i].pending[1..]);
      }
    }

    /** `arp_queue_drop`. */
    method QueueDrop(i: nat) returns (out: seq<Out>)
      requires Valid() && i < CACHE_SIZE
      modifies slots
      ensures slots[..] == old(slots[..])[i := old(slots[i]).(pending := [])]
      ensures out == Drops(old(slots[i]).ip, old(slots[i]).pending)
    {
      out := [];
      while slots[i].pending != []
        invariant slots[..] == old(slots[..])[i := old(slots[i]).(pending := slots[i].pending)]
        invariant Drops(old(slots[i]).ip, old(slots[i]).pending) == out + Drops(old(slots[i]).ip, slots[i].pending)
        decreases |slots[i].pending|
      {
        out := out + [Drop(slots[i].ip, slots[i].pending[0])];
        slots[i] := slots[i].(pending := slots[i].pending[1..]);
      }
    }

    /** An ARP packet from an address the cache holds: new hardware address, queue flushed, lifetime renewed. */
    method Refresh(i: nat, sip: u32, sha: HwAddr) returns (out: seq<Out>)
      requires Valid() && i < CACHE_SIZE
      modifies slots
      ensures var e := old(slots[i]);
              && slots[..] == old(slots[..])[i := e.(hw := sha, state := Resolved, ttl := TIMEOUT,
                                                     pending := if e.state == Waiting then [] else e.pending)]
              && out == if e.state == Waiting then Transmits(e.dev, sip, sha, e.pending) else []
    {
      ghost var was := slots[..];
      Put(i, slots[i].(hw := sha));
      out := [];
      if slots[i].state == Waiting {
        PutTwice(was, i, slots[i], slots[i].(pending := []));
        out := QueueSend(i, sip);
      }
      PutTwice(was, i, slots[i], slots[i].(state := Resolved, ttl := TIMEOUT));
      Put(i, slots[i].(state := Resolved, ttl := TIMEOUT));
    }

    /** `arp_insert`. */
    method InsertEntry(dev: nat, pro: u16, sip: u32, sha: HwAddr)
      requires Valid()
      modifies this, slots
      ensures Valid()
      ensures var j := Search(old(slots[..]), old(next), CACHE_SIZE);
              if old(slots[..])[j].state != Free then View() == old(View()).(next := j)
              else View() == Cache(
                old(slots[..])[j := Fresh(old(slots[..])[j]).(dev := dev, pro := pro, ttl := TIMEOUT, ip := sip, state := Resolved, hw := sha)],
                (j + 1) % CACHE_SIZE)
    {
      var o := Alloc();
      if o.Some? {
        var j := o.value;
        var e := slots[j].(dev := dev, pro := pro, ttl := TIMEOUT, ip := sip, state := Resolved, hw := sha);
        PutTwice(old(slots[..]), j, slots[j], e);
        Put(j, e);
      }
    }

    method Recv(dev: nat, devIp: u32, request: bool, pro: u16, sip: u32, sha: HwAddr, tip: u32) returns (out: seq<Out>)
      requires Valid()
      modifies this, slots
      ensures Valid() && (View(), out) == Receive(old(View()), dev, devIp, request, pro, sip, sha, tip)
    {
      out := [];
      if tip % 256 / 16 == 14 || tip != devIp {
        return;
      }
      var i := FindEntry(pro, sip);
      if i < CACHE_SIZE {
        out := Refresh(i, sip, sha);
      } else if request {
        InsertEntry(dev, pro, sip, sha);
      }
      assert out + [] == out;
      if request {
        assert [] + [Reply(sha)] == [Reply(sha)];
        out := out + [Reply(sha)];
      }
    }

    method TickSlot(i: nat, delta: int) returns (out: seq<Out>)
      requires Valid() && i < CACHE_SIZE
      modifies slots
      ensures slots[..] == old(slots[..])[i := TickEntry(old(slots[i]), delta).0]
      ensures out == TickEntry(old(slots[i]), delta).1
    {
      out := [];
      if slots[i].state == Free {
        return;
      }
      slots[i] := slots[i].(ttl := slots[i].ttl - delta);
      if slots[i].ttl <= 0 {
        if slots[i].state == Waiting {
          slots[i] := slots[i].(retry := slots[i].retry - 1);
        }
        if slots[i].state == Resolved || slots[i].retry < 0 {
          if slots[i].state == Waiting {
            out := QueueDrop(i);
          }
          slots[i] := slots[i].(state := Free);
        } else {
          slots[i] := slots[i].(ttl := WAIT_TIME);
          out := [Request(slots[i].dev, slots[i].ip)];
        }
      }
    }

    method Tick(delta: int) returns (out: seq<Out>)
      requires Valid()
      modifies slots
      ensures Valid() && (slots[..], out) == Timer(old(slots[..]), delta)
    {
      out := [];
      var i := 0;
      ghost var was := slots[..];
      assert was[0..] == was && slots[..0] == [];
      while i < CACHE_SIZE
        invariant 0 <= i <= CACHE_SIZE && slots[i..] == was[i..]
        invariant Timer(was, delta).0 == slots[..i] + Timer(was[i..], delta).0
        invariant Timer(was, delta).1 == out + Timer(was[i..], delta).1
      {
        ghost var done := slots[..i];
        assert slots[i] == slots[i..][0] == was[i];
        TimerStep(was, i, delta, done, out);
        var more := TickSlot(i, delta);
        assert slots[..i + 1] == done + [TickEntry(was[i], delta).0];
        assert slots[i + 1..] == was[i..][1..] == was[i + 1..];
        out := out + more;
        i := i + 1;
      }
      assert slots[..i] + [] == slots[..] && out + [] == out;
    }
  }
}
