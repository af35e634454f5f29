/** IP fragmentation and reassembly (ip/ip_frag.c, include/ip.h; section 3.2 of RFC 791). */
module IpFragment {
  import opened Words

  /** What identifies a datagram. */
  datatype Key = Key(id: u16, pro: byte, src: u32, dst: u32)

  /** A packet in host order: `ip_len` is `|header| + |data|`, and `off` and `more` are what `ip_fragoff` says. */
  datatype Packet = Packet(key: Key, header: seq<byte>, off: nat, more: bool, data: seq<byte>) {
    function Hlen(): nat { |header| }
    function End(): nat { off + |data| }
  }

  /** The `ip_fragoff` field: the more-fragments bit above an offset in units of 8 bytes. */
  function FragField(more: bool, off: nat): nat {
    (if more then 0x2000 else 0) + off / 8
  }

  function FieldOff(field: nat): nat { field % 0x2000 * 8 }

  predicate FieldMore(field: nat) { field / 0x2000 % 2 == 1 }

  const FRAG_TIME := 30
  const MAX_LEN := 65535

  // ---- Splitting --------------------------------------------------------------------------

  /** `ip_frag`: `dlen` bytes of the payload from `off` on under a copy of the header. */
  function Fragment(p: Packet, dlen: nat, off: nat, more: bool): Packet
    requires off + dlen <= |p.data| <= MAX_LEN
  {
    var field := FragField(more, off);
    Packet(p.key, p.header, FieldOff(field), FieldMore(field), p.data[off..off + dlen])
  }

  /** The fragments `ip_send_frag` emits from offset `off` on. */
  function Fragments(p: Packet, mlen: nat, off: nat): seq<Packet>
    requires mlen > 0 && off <= |p.data| <= MAX_LEN
    decreases |p.data| - off
  {
    if |p.data| - off > mlen then
      [Fragment(p, mlen, off, true)] + Fragments(p, mlen, off + mlen)
    else if |p.data| - off > 0 then
      [Fragment(p, |p.data| - off, off, false)]
    else []
  }

  /** The payload of a full fragment: a multiple of 8 that fits the MTU. */
  function MaxPayload(mtu: nat, hlen: nat): nat
    requires mtu >= hlen
  {
    (mtu - hlen) / 8 * 8
  }

  // ---- Collecting -------------------------------------------------------------------------

  /** `struct fragment`; `hlen` is 0 until a fragment other than the last arrives. */
  datatype Record = Record(key: Key, hlen: nat, size: nat, rsize: nat, ttl: int,
                           first: bool, last: bool, complete: bool, pkts: seq<Packet>)

  function NewRecord(key: Key): Record {
    Record(key, 0, 0, 0, FRAG_TIME, false, false, false, [])
  }

  predicate Full(r: Record) {
    r.first && r.last && r.rsize == r.size
  }

  datatype Spot = Duplicate | Behind(i: nat)

  /** Scanning back from the tail for the first fragment with a smaller offset. */
  function FindSpot(pkts: seq<Packet>, off: nat): (s: Spot)
    ensures s.Behind? ==> s.i <= |pkts|
  {
    if pkts == [] then Behind(0)
    else
      var n := |pkts| - 1;
      if off == pkts[n].off then Duplicate
      else if off > pkts[n].off then Behind(n + 1)
      else FindSpot(pkts[..n], off)
  }

  function Add(r: Record, i: nat, p: Packet): Record
    requires i <= |r.pkts|
  {
    var r1 := r.(pkts := r.pkts[..i] + [p] + r.pkts[i..], rsize := r.rsize + |p.data|);
    if Full(r1) then r1.(complete := true) else r1
  }

  /** `insert_frag`; the flag is false when the fragment is dropped. */
  function Insert(r: Record, p: Packet): (Record, bool) {
    if r.complete then (r, false)
    else if !p.more then
      if r.last then (r, false)
      else (Add(r.(last := true, size := p.End()), |r.pkts|, p), true)
    else
      match FindSpot(r.pkts, p.off)
      case Duplicate => (r, false)
      case Behind(i) =>
        if r.hlen != 0 && r.hlen != p.Hlen() then (r, false)
        else
          var r1 := r.(hlen := p.Hlen());
          if i > 0 && r.pkts[i - 1].off + |r.pkts[i - 1].header| + |r.pkts[i - 1].data| - p.Hlen() > p.off then (r1, false)
          else (Add(if p.off == 0 then r1.(first := true) else r1, i, p), true)
  }

  /** The payload bytes of a fragment as seen with header length `hlen`. */
  function PayloadAt(p: Packet, hlen: nat): seq<byte> {
    if hlen <= |p.header + p.data| then (p.header + p.data)[hlen..] else []
  }

  function Gather(pkts: seq<Packet>, hlen: nat): seq<byte> {
    if pkts == [] then [] else PayloadAt(pkts[0], hlen) + Gather(pkts[1..], hlen)
  }

  /** `reass_frag`; the header is that of the first fragment. */
  function Rebuild(r: Record): Option<Packet> {
    if r.hlen + r.size > MAX_LEN || r.pkts == [] then None
    else Some(r.pkts[0].(off := 0, more := false, data := Gather(r.pkts, r.hlen)))
  }

  // ---- The list of datagrams --------------------------------------------------------------

  /** `lookup_frag`: the index of the first record for the key, or the length. */
  function Lookup(t: seq<Record>, key: Key): (i: nat)
    ensures i <= |t|
    ensures i < |t| ==> t[i].key == key
    ensures forall j :: 0 <= j < i ==> t[j].key != key
  {
    if t == [] || t[0].key == key then 0 else 1 + Lookup(t[1..], key)
  }

  /** `ip_reass`. */
  function Reass(t: seq<Record>, p: Packet): (seq<Record>, Option<Packet>) {
    var i := Lookup(t, p.key);
    var t1 := if i == |t| then [NewRecord(p.key)] + t else t;
    var j := if i == |t| then 0 else i;
    var (r, ok) := Insert(t1[j], p);
    if ok && r.complete then (t1[..j] + t1[j + 1..], Rebuild(r)) else (t1[j := r], None)
  }

  /** `ip_timer`: datagrams whose time is up are forgotten. */
  function Timer(t: seq<Record>, delta: int): seq<Record> {
    if t == [] then []
    else
      var rest := Timer(t[1..], delta);
      if Full(t[0]) then [t[0]] + rest
      else if t[0].ttl - delta <= 0 then rest
      else [t[0].(ttl := t[0].ttl - delta)] + rest
  }
}
