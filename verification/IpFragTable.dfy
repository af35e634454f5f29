/** The sending loop and the list of datagrams as the code updates them in place. */
module IpFragTable {
  import opened Words
  import opened IpFragment

  /** `ip_send_frag`: the packets handed to the device, in order. */
  method SendFrag(mtu: nat, p: Packet) returns (out: seq<Packet>)
    requires p.Hlen() + 8 <= mtu && |p.data| <= MAX_LEN
    ensures out == Fragments(p, MaxPayload(mtu, p.Hlen()), 0)
  {
    var dlen := |p.data|;
    var mlen := (mtu - p.Hlen()) / 8 * 8;
    var off := 0;
    out := [];
    while dlen > mlen
      invariant 0 <= off && 0 <= dlen && off + dlen == |p.data|
      invariant Fragments(p, mlen, 0) == out + Fragments(p, mlen, off)
    {
      out := out + [Fragment(p, mlen, off, true)];
      dlen := dlen - mlen;
      off := off + mlen;
    }
    if dlen > 0 {
      out := out + [Fragment(p, dlen, off, false)];
    }
  }

  /** The backward scan of `insert_frag`. */
  method ScanBack(pkts: seq<Packet>, off: nat) returns (s: Spot)
    ensures s == FindSpot(pkts, off)
  {
    var i := |pkts|;
    assert pkts[..i] == pkts;
    while i > 0
      invariant 0 <= i <= |pkts|
      invariant FindSpot(pkts, off) == FindSpot(pkts[..i], off)
    {
      if off == pkts[i - 1].off {
        return Duplicate;
      }
      if off > pkts[i - 1].off {
        return Behind(i);
      }
      assert pkts[..i][..i - 1] == pkts[..i - 1];
      i := i - 1;
    }
    s := Behind(0);
  }

  /** What a tick leaves of one record. */
  function Aged(r: Record, delta: int): seq<Record> {
    if Full(r) then [r] else if r.ttl - delta <= 0 then [] else [r.(ttl := r.ttl - delta)]
  }

  lemma TimerStep(t: seq<Record>, i: nat, delta: int)
    requires i < |t|
    ensures t[..i] + Timer(t[i..], delta) == (t[..i] + Aged(t[i], delta)) + Timer(t[i + 1..], delta)
  {
    assert t[i..][0] == t[i] && t[i..][1..] == t[i + 1..];
    assert Timer(t[i..], delta) == Aged(t[i], delta) + Timer(t[i + 1..], delta);
  }

  /** Putting the remains of the record at `i` back in its place. */
  lemma Spliced(t: seq<Record>, i: nat, x: seq<Record>, t1: seq<Record>)
    requires i < |t| && t1 == t[..i] + x + t[i + 1..]
    ensures i + |x| <= |t1| && t1[..i + |x|] == t[..i] + x && t1[i + |x|..] == t[i + 1..]
  {
  }

  class FragTable {
    var frags: seq<Record>

    constructor ()
      ensures frags == []
    {
      frags := [];
    }

    method LookupFrag(key: Key) returns (i: nat)
      ensures i == Lookup(frags, key)
    {
      i := 0;
      while i < |frags|
        invariant i <= |frags|
        invariant Lookup(frags, key) == i + Lookup(frags[i..], key)
      {
        if frags[i].key == key {
          return;
        }
        i := i + 1;
      }
    }

    method InsertFrag(i: nat, p: Packet) returns (ok: bool)
      requires i < |frags|
      modifies this
      ensures frags == old(frags)[i := Insert(old(frags)[i], p).0]
      ensures ok == Insert(old(frags)[i], p).1
    {
      var r := frags[i];
      assert frags == frags[i := r];
      if r.complete {
        return false;
      }
      if !p.more {
        if r.last {
          return false;
        }
        assert r.pkts[..|r.pkts|] + [p] + r.pkts[|r.pkts|..] == r.pkts + [p];
        r := r.(last := true, size := p.off + |p.data|, pkts := r.pkts + [p]);
      } else {
        var s := ScanBack(r.pkts, p.off);
        if s == Duplicate || (r.hlen != 0 && r.hlen != p.Hlen()) {
          return false;
        }
        frags := frags[i := r.(hlen := p.Hlen())];
        r := frags[i];
        if s.i > 0 && r.pkts[s.i - 1].off + (r.pkts[s.i - 1].Hlen() + |r.pkts[s.i - 1].data|) - p.Hlen() > p.off {
          return false;
        }
        if p.off == 0 {
          r := r.(first := true);
        }
        r := r.(pkts := r.pkts[..s.i] + [p] + r.pkts[s.i..]);
      }
      r := r.(rsize := r.rsize + |p.data|);
      if Full(r) {
        r := r.(complete := true);
      }
      frags := frags[i := r];
      ok := true;
    }

    method Reassemble(p: Packet) returns (o: Option<Packet>)
      modifies this
      ensures (frags, o) == Reass(old(frags), p)
    {
      var i := LookupFrag(p.key);
      if i == |frags| {
        frags := [NewRecord(p.key)] + frags;
        i := 0;
      }
      var ok := InsertFrag(i, p);
      o := None;
      if ok && frags[i].complete {
        o := Rebuild(frags[i]);
        frags := frags[..i] + frags[i + 1..];
      }
    }

    method Tick(delta: int)
      modifies this
      ensures frags == Timer(old(frags), delta)
    {
      var i: nat := 0;
      assert frags[..0] == [] && frags[0..] == frags;
      while i < |frags|
        invariant i <= |frags|
        invariant Timer(old(frags), delta) == frags[..i] + Timer(frags[i..], delta)
        decreases |frags| - i
      {
        i := Age(i, delta);
      }
      assert frags[i..] == [] && frags[..i] + [] == frags;
    }

    /** The body of the timer loop: the record at `i` ages or goes, and the index of the next one is returned. */
    method Age(i: nat, delta: int) returns (next: nat)
      requires i < |frags|
      modifies this
      ensures next <= |frags| && |frags| - next == |old(frags)| - i - 1
      ensures frags[..next] + Timer(frags[next..], delta) == old(frags)[..i] + Timer(old(frags)[i..], delta)
    {
      TimerStep(frags, i, delta);
      Spliced(frags, i, Aged(frags[i], delta), frags[..i] + Aged(frags[i], delta) + frags[i + 1..]);
      next := i + 1;
      if Full(frags[i]) {
        assert frags[..i] + [frags[i]] + frags[i + 1..] == frags;
      } else {
        var r := frags[i].(ttl := frags[i].ttl - delta);
        if r.ttl <= 0 {
          assert frags[..i] + [] + frags[i + 1..] == frags[..i] + frags[i + 1..];
          frags := frags[..i] + frags[i + 1..];
          next := i;
        } else {
          assert frags[i := r] == frags[..i] + [r] + frags[i + 1..];
          frags := frags[i := r];
        }
      }
    }
  }
}
