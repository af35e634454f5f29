/**
 The lock-free packet ring in shared memory (net/fast_pipe.c) as a state machine: one producer and
 one consumer take turns in any order, and every shared access, down to a single copied byte, is a
 step of its own.
 */
module PacketRing {
  import opened Words

  type Packet = seq<byte>

  // ---- The byte format --------------------------------------------------------------------

  /** The low `k` bytes of a number, lowest first. */
  function LowBytes(n: nat, k: nat): (b: seq<byte>)
    ensures |b| == k
  {
    if k == 0 then [] else [n % 256] + LowBytes(n / 256, k - 1)
  }

  function FromLowBytes(b: seq<byte>): nat {
    if b == [] then 0 else (b[0] as int) + 256 * FromLowBytes(b[1..])
  }

  /** A `uint32_t` as a little-endian host stores it. */
  function Encode32(n: u32): (b: seq<byte>)
    ensures |b| == 4
  {
    LowBytes(n, 4)
  }

  function Decode32(b: seq<byte>): nat
    requires |b| == 4
  {
    FromLowBytes(b)
  }

  lemma {:induction false} LowBytesRoundTrip(n: nat, k: nat, bound: nat)
    requires n < bound && bound == Power256(k)
    ensures FromLowBytes(LowBytes(n, k)) == n
  {
    if k > 0 {
      LowBytesRoundTrip(n / 256, k - 1, Power256(k - 1));
      assert LowBytes(n, k)[1..] == LowBytes(n / 256, k - 1);
    }
  }

  function Power256(k: nat): nat {
    if k == 0 then 1 else 256 * Power256(k - 1)
  }

  lemma Decode32OfEncode32(n: u32)
    ensures Decode32(Encode32(n)) == n
  {
    assert Power256(2) == 65536;
    assert Power256(4) == U32_SIZE;
    LowBytesRoundTrip(n, 4, U32_SIZE);
  }

  ghost predicate Sized(p: Packet) {
    |p| + 4 < U32_SIZE
  }

  /** The length word, then the packet. */
  function Frame(p: Packet): seq<byte>
    requires |p| < U32_SIZE
  {
    Encode32(|p|) + p
  }

  ghost predicate AllSized(ps: seq<Packet>) {
    ps == [] || (Sized(ps[0]) && AllSized(ps[1..]))
  }

  ghost function Frames(ps: seq<Packet>): seq<byte>
    requires AllSized(ps)
  {
    if ps == [] then [] else Frame(ps[0]) + Frames(ps[1..])
  }

  lemma {:induction false} FramesAppend(ps: seq<Packet>, p: Packet)
    requires AllSized(ps) && Sized(p)
    ensures AllSized(ps + [p]) && Frames(ps + [p]) == Frames(ps) + Frame(p)
  {
    if ps == [] {
      assert (ps + [p])[1..] == [];
    } else {
      FramesAppend(ps[1..], p);
      assert (ps + [p])[1..] == ps[1..] + [p];
    }
  }

  // ---- Index arithmetic -------------------------------------------------------------------

  /** The two ends of the array are the same place. */
  function Norm(x: nat, cap: nat): nat {
    if x == cap then 0 else x
  }

  /** The place `i` bytes after index `at`, going around the ring. */
  function Place(at: nat, i: nat, cap: nat): (r: nat)
    ensures at <= cap && cap > 0 ==> r < cap
  {
    if i == 0 then Norm(at, cap) else Norm(Place(at, i - 1, cap) + 1, cap)
  }

  /** The index `cb_push_data` and `cb_shift_data` return; it may be the capacity itself. */
  function Advance(at: nat, n: nat, cap: nat): nat {
    if at + n > cap then at + n - cap else at + n
  }

  lemma {:induction false} PlaceIs(at: nat, i: nat, cap: nat)
    requires at <= cap && i <= cap && cap > 0
    ensures Place(at, i, cap) == Norm(Advance(at, i, cap), cap)
  {
    if i > 0 {
      PlaceIs(at, i - 1, cap);
    }
  }

  /** A place reached in two moves is reached in one. */
  lemma {:induction false} PlaceCompose(at: nat, n: nat, w: nat, k: nat, cap: nat)
    requires Norm(w, cap) == Place(at, n, cap)
    ensures Place(w, k, cap) == Place(at, n + k, cap)
  {
    if k > 0 {
      PlaceCompose(at, n, w, k - 1, cap);
    }
  }

  lemma PlaceAdvance(at: nat, n: nat, w: nat, k: nat, cap: nat)
    requires w <= cap && k <= cap && cap > 0 && Norm(w, cap) == Place(at, n, cap)
    ensures Advance(w, k, cap) <= cap && Norm(Advance(w, k, cap), cap) == Place(at, n + k, cap)
  {
    PlaceCompose(at, n, w, k, cap);
    PlaceIs(w, k, cap);
  }

  lemma PlacesDiffer(at: nat, i: nat, j: nat, cap: nat)
    requires at <= cap && i < j < cap
    ensures Place(at, i, cap) != Place(at, j, cap)
  {
    PlaceIs(at, i, cap);
    PlaceIs(at, j, cap);
  }

  /** The `n` bytes of the ring from index `at` on. */
  ghost function Bytes(data: seq<byte>, at: nat, n: nat): (b: seq<byte>)
    requires at <= |data| && n <= |data|
    ensures |b| == n
  {
    if n == 0 then [] else Bytes(data, at, n - 1) + [data[Place(at, n - 1, |data|)]]
  }

  lemma {:induction false} BytesAt(data: seq<byte>, at: nat, n: nat, i: nat)
    requires at <= |data| && i < n <= |data|
    ensures Bytes(data, at, n)[i] == data[Place(at, i, |data|)]
  {
    if i < n - 1 {
      BytesAt(data, at, n - 1, i);
    }
  }

  lemma {:induction false} BytesFrame(data: seq<byte>, at: nat, n: nat, j: nat, b: byte)
    requires at <= |data| && n <= j < |data|
    ensures Bytes(data[Place(at, j, |data|) := b], at, n) == Bytes(data, at, n)
  {
    if n > 0 {
      PlacesDiffer(at, n - 1, j, |data|);
      BytesFrame(data, at, n - 1, j, b);
    }
  }

  /** Writing the byte after the occupied part, reached through index `w`, extends it by that byte. */
  lemma BytesGrow(data: seq<byte>, at: nat, n: nat, w: nat, k: nat, b: byte)
    requires at <= |data| && k <= n < |data| && Norm(w, |data|) == Place(at, n - k, |data|)
    ensures Place(w, k, |data|) < |data|
    ensures Bytes(data[Place(w, k, |data|) := b], at, n + 1) == Bytes(data, at, n) + [b]
  {
    PlaceCompose(at, n - k, w, k, |data|);
    BytesFrame(data, at, n, n, b);
  }

  /** Forgetting the front. */
  lemma {:induction false} BytesDrop(data: seq<byte>, at: nat, n: nat, w: nat, m: nat)
    requires at <= |data| && w <= |data| && m <= n <= |data| && Norm(w, |data|) == Place(at, m, |data|)
    ensures Bytes(data, w, n - m) == Bytes(data, at, n)[m..]
  {
    if m < n {
      BytesDrop(data, at, n - 1, w, m);
      PlaceCompose(at, m, w, n - 1 - m, |data|);
    }
  }

  // ---- The state machine ------------------------------------------------------------------

  datatype Producer =
    | Resting
    | PutHeader(pkt: Packet, w: nat, k: nat)    // k bytes of the length word copied from index w on
    | PutPayload(pkt: Packet, w: nat, k: nat)   // k bytes of the packet copied from index w on
    | Published(pkt: Packet)                    // write_index stored, used not yet raised

  datatype Consumer =
    | Waiting
    | GetHeader(buflen: nat, r: nat, bytes: seq<byte>)
    | GetPayload(r: nat, len: nat, bytes: seq<byte>)
    | Released(r: nat)                          // used lowered, read_index not yet stored

  /** `put` and `got` record the packets whose put and get have taken effect, `unread` those in between. */
  datatype Ring = Ring(data: seq<byte>, used: int, writeIndex: nat, readIndex: nat, prod: Producer, cons: Consumer,
                       put: seq<Packet>, got: seq<Packet>, unread: seq<Packet>)

  datatype Action = Put(pkt: Packet) | Produce | Get(buflen: nat) | Consume

  predicate Init(s: Ring) {
    && |s.data| < 0x8000_0000
    && s.used == s.writeIndex == s.readIndex == 0
    && s.prod == Resting && s.cons == Waiting
    && s.put == s.got == s.unread == []
  }

  /** The bytes of the current packet that are already in the ring. */
  ghost function Copied(p: Producer): seq<byte>
    requires !p.Resting? ==> Sized(p.pkt)
    requires p.PutHeader? ==> p.k <= 4
    requires p.PutPayload? ==> p.k <= |p.pkt|
  {
    match p
    case Resting => []
    case PutHeader(pkt, w, k) => Frame(pkt)[..k]
    case PutPayload(pkt, w, k) => Frame(pkt)[..4 + k]
    case Published(pkt) => Frame(pkt)
  }

  /** Where the oldest unread byte is: the consumer releases space before it stores its index. */
  ghost function Front(s: Ring): nat {
    if s.cons.Released? then s.cons.r else s.readIndex
  }

  ghost predicate ProducerOk(s: Ring)
    requires 0 <= s.used <= |s.data| && Front(s) <= |s.data|
  {
    var cap := |s.data|;
    var at := Front(s);
    && (s.prod.Resting? || (Sized(s.prod.pkt) && s.used + |Frame(s.prod.pkt)| <= cap))
    && match s.prod
       case Resting => Norm(s.writeIndex, cap) == Place(at, s.used, cap)
       case PutHeader(pkt, w, k) => w == s.writeIndex && k <= 4 && Norm(w, cap) == Place(at, s.used, cap)
       case PutPayload(pkt, w, k) =>
         && w <= cap && k <= |pkt| && Norm(w, cap) == Place(at, s.used + 4, cap)
         && Norm(s.writeIndex, cap) == Place(at, s.used, cap)
       case Published(pkt) => Norm(s.writeIndex, cap) == Place(at, s.used + |Frame(pkt)|, cap)
  }

  ghost predicate ConsumerOk(s: Ring) {
    var cap := |s.data|;
    match s.cons
    case Waiting => true
    case GetHeader(_, r, bytes) =>
      r == s.readIndex && s.unread != [] && Sized(s.unread[0]) && |bytes| <= 4 && bytes == Frame(s.unread[0])[..|bytes|]
    case GetPayload(r, len, bytes) =>
      && s.unread != [] && len == |s.unread[0]| && |bytes| <= len && bytes == s.unread[0][..|bytes|]
      && r <= cap && Norm(r, cap) == Place(s.readIndex, 4, cap)
    case Released(r) => r <= cap
  }

  ghost predicate BoundsOk(s: Ring) {
    && |s.data| < 0x8000_0000
    && 0 <= s.used <= |s.data| && s.writeIndex <= |s.data| && s.readIndex <= |s.data| && Front(s) <= |s.data|
  }

  ghost predicate CountsOk(s: Ring) {
    s.put == s.got + s.unread && AllSized(s.unread) && s.used == |Frames(s.unread)|
  }

  /** From the front on, the ring holds the unread frames and then what the producer has copied. */
  ghost predicate ContentOk(s: Ring)
    requires BoundsOk(s) && CountsOk(s) && ProducerOk(s)
  {
    && s.used + |Copied(s.prod)| <= |s.data|
    && Bytes(s.data, Front(s), s.used + |Copied(s.prod)|) == Frames(s.unread) + Copied(s.prod)
  }

  ghost predicate Inv(s: Ring) {
    BoundsOk(s) && CountsOk(s) && ProducerOk(s) && ConsumerOk(s) && ContentOk(s)
  }

  /** `cb_put_packet` up to its space check. */
  function StartPut(s: Ring, pkt: Packet): Ring {
    if s.prod != Resting || |s.data| - s.used < 4 + |pkt| then s
    else s.(prod := PutHeader(pkt, s.writeIndex, 0))
  }

  /** One shared access of `cb_put_packet` after its space check. */
  function ProducerStep(s: Ring): Ring
    requires Inv(s)
  {
    var cap := |s.data|;
    match s.prod
    case Resting => s
    case PutHeader(pkt, w, k) =>
      if k < 4 then
        s.(data := s.data[Place(w, k, cap) := Encode32(|pkt|)[k]], prod := PutHeader(pkt, w, k + 1))
      else s.(prod := PutPayload(pkt, Advance(w, 4, cap), 0))
    case PutPayload(pkt, w, k) =>
      if k < |pkt| then
        s.(data := s.data[Place(w, k, cap) := pkt[k]], prod := PutPayload(pkt, w, k + 1))
      else s.(writeIndex := Advance(w, |pkt|, cap), prod := Published(pkt))
    case Published(pkt) =>
      s.(used := s.used + 4 + |pkt|, prod := Resting, put := s.put + [pkt], unread := s.unread + [pkt])
  }

  /** `cb_get_packet` up to its first check. */
  function StartGet(s: Ring, buflen: nat): Ring {
    if s.cons != Waiting || s.used < 4 then s
    else s.(cons := GetHeader(buflen, s.readIndex, []))
  }

  /** One shared access of `cb_get_packet` after its first check. */
  function ConsumerStep(s: Ring): Ring
    requires Inv(s)
  {
    var cap := |s.data|;
    match s.cons
    case Waiting => s
    case GetHeader(buflen, r, bytes) =>
      if |bytes| < 4 then s.(cons := GetHeader(buflen, r, bytes + [s.data[Place(r, |bytes|, cap)]]))
      else
        var len := Decode32(bytes);
        if s.used < len + 4 || len > buflen then s.(cons := Waiting)
        else s.(cons := GetPayload(Advance(r, 4, cap), len, []))
    case GetPayload(r, len, bytes) =>
      if |bytes| < len then
        s.(cons := GetPayload(r, len, bytes + [s.data[Place(r, |bytes|, cap)]]))
      else
        s.(used := s.used - (len + 4), cons := Released(Advance(r, len, cap)), got := s.got + [bytes], unread := s.unread[1..])
    case Released(r) => s.(readIndex := r, cons := Waiting)
  }

  function Step(s: Ring, a: Action): Ring
    requires Inv(s)
  {
    match a
    case Put(pkt) => StartPut(s, pkt)
    case Produce => ProducerStep(s)
    case Get(buflen) => StartGet(s, buflen)
    case Consume => ConsumerStep(s)
  }
}
