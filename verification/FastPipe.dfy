/** The packet ring as the code updates it, called by one thread at a time (net/fast_pipe.c). */
module FastPipe {
  import opened Words
  import opened PacketRing

  /** Writing `b` byte by byte from index `at` on. */
  ghost function Written(data: seq<byte>, at: nat, b: seq<byte>): (d: seq<byte>)
    requires at <= |data| && |b| <= |data|
    ensures |d| == |data|
  {
    if b == [] then data
    else Written(data, at, b[..|b| - 1])[Place(at, |b| - 1, |data|) := b[|b| - 1]]
  }

  /** Writing after the occupied part appends to it. */
  lemma {:induction false} WrittenAppends(data: seq<byte>, at: nat, n: nat, w: nat, b: seq<byte>)
    requires at <= |data| && w <= |data| && n + |b| <= |data| && Norm(w, |data|) == Place(at, n, |data|)
    ensures Bytes(Written(data, w, b), at, n + |b|) == Bytes(data, at, n) + b
  {
    if b != [] {
      var k := |b| - 1;
      WrittenAppends(data, at, n, w, b[..k]);
      BytesGrow(Written(data, w, b[..k]), at, n + k, w, k, b[k]);
      assert Bytes(data, at, n) + b[..k] + [b[k]] == Bytes(data, at, n) + b;
    }
  }

  /** At most two runs of bytes change: up to the end of the array, and then from its start. */
  lemma {:induction false} WrittenAt(data: seq<byte>, at: nat, b: seq<byte>, p: nat)
    requires at <= |data| && |b| <= |data| && p < |data|
    ensures Written(data, at, b)[p] ==
            if at <= p < at + |b| then b[p - at]
            else if p < at && p + |data| < at + |b| then b[p + |data| - at]
            else data[p]
  {
    if b != [] {
      WrittenAt(data, at, b[..|b| - 1], p);
      PlaceIs(at, |b| - 1, |data|);
    }
  }

  /** At most two runs of bytes are read. */
  lemma BytesIs(data: seq<byte>, at: nat, n: nat)
    requires at <= |data| && n <= |data|
    ensures var cap := |data|;
            Bytes(data, at, n) == if at + n <= cap then data[at..at + n] else data[at..] + data[..at + n - cap]
  {
    forall i | 0 <= i < n
      ensures Bytes(data, at, n)[i] == if at + i < |data| then data[at + i] else data[at + i - |data|]
    {
      BytesAt(data, at, n, i);
      PlaceIs(at, i, |data|);
    }
  }

  /** Where the indices stand after a length word and a packet. */
  lemma PutPlaces(cap: nat, at: nat, used: nat, w: nat, len: nat)
    requires at <= cap && w <= cap && used + 4 + len <= cap && Norm(w, cap) == Place(at, used, cap)
    ensures var w1 := Advance(w, 4, cap);
            var w2 := Advance(w1, len, cap);
            && w1 <= cap && Norm(w1, cap) == Place(at, used + 4, cap)
            && w2 <= cap && Norm(w2, cap) == Place(at, used + 4 + len, cap)
  {
    PlaceAdvance(at, used, w, 4, cap);
    PlaceAdvance(at, used + 4, Advance(w, 4, cap), len, cap);
  }

  /** Writing one run of bytes and then another after the occupied part appends both. */
  lemma WrittenTwice(data: seq<byte>, at: nat, used: nat, w: nat, head: seq<byte>, w1: nat, body: seq<byte>)
    requires at <= |data| && w <= |data| && w1 <= |data| && used + |head| + |body| <= |data|
    requires Norm(w, |data|) == Place(at, used, |data|) && Norm(w1, |data|) == Place(at, used + |head|, |data|)
    ensures Bytes(Written(Written(data, w, head), w1, body), at, used + |head| + |body|) == Bytes(data, at, used) + head + body
  {
    WrittenAppends(data, at, used, w, head);
    WrittenAppends(Written(data, w, head), at, used + |head|, w1, body);
  }

  /** Writing a length word and then a packet after the occupied part appends a frame. */
  lemma PutFrame(data: seq<byte>, at: nat, used: nat, w: nat, pkt: Packet)
    requires at <= |data| && w <= |data| && used + 4 + |pkt| <= |data| < 0x8000_0000 && Norm(w, |data|) == Place(at, used, |data|)
    ensures var cap, n := |data|, used + (4 + |pkt|);
            var w1 := Advance(w, 4, cap);
            var w2 := Advance(w1, |pkt|, cap);
            && w1 <= cap && w2 <= cap && Norm(w2, cap) == Place(at, n, cap)
            && Bytes(Written(Written(data, w, Encode32(|pkt|)), w1, pkt), at, n) == Bytes(data, at, used) + Frame(pkt)
  {
    var header := Encode32(|pkt|);
    PutPlaces(|data|, at, used, w, |pkt|);
    WrittenTwice(data, at, used, w, header, Advance(w, 4, |data|), pkt);
    assert Bytes(data, at, used) + header + pkt == Bytes(data, at, used) + Frame(pkt);
  }

  lemma {:induction false} BytesPrefix(data: seq<byte>, at: nat, m: nat, n: nat)
    requires at <= |data| && m <= n <= |data|
    ensures Bytes(data, at, m) == Bytes(data, at, n)[..m]
  {
    if m < n {
      BytesPrefix(data, at, m, n - 1);
    }
  }

  /** Reading a length word and then that many bytes yields the packet in front and leaves the frames behind it. */
  lemma GetFrame(data: seq<byte>, at: nat, used: nat, pkt: Packet, rest: seq<byte>, w: nat)
    requires at <= |data| < 0x8000_0000 && used <= |data| && Sized(pkt) && Bytes(data, at, used) == Frame(pkt) + rest
    requires Norm(w, |data|) == Place(at, used, |data|)
    ensures var cap, n := |data|, 4 + |pkt|;
            var r1 := Advance(at, 4, cap);
            var r2 := Advance(r1, |pkt|, cap);
            && n <= used && Decode32(Bytes(data, at, 4)) == |pkt|
            && r1 <= cap && Bytes(data, r1, |pkt|) == pkt
            && r2 <= cap && Norm(w, cap) == Place(r2, used - n, cap) && Bytes(data, r2, used - n) == rest
  {
    var n, cap := 4 + |pkt|, |data|;
    assert |Frame(pkt) + rest| == used;
    BytesPrefix(data, at, 4, used);
    assert Bytes(data, at, 4) == Encode32(|pkt|);
    Decode32OfEncode32(|pkt|);
    PlaceAdvance(at, 0, at, 4, cap);
    var r1 := Advance(at, 4, cap);
    BytesPrefix(data, at, n, used);
    BytesDrop(data, at, n, r1, 4);
    assert (Frame(pkt) + rest)[..n][4..] == pkt;
    PlaceAdvance(at, 4, r1, |pkt|, cap);
    PlaceCompose(at, n, Advance(r1, |pkt|, cap), used - n, cap);
    BytesDrop(data, at, used, Advance(r1, |pkt|, cap), n);
    assert (Frame(pkt) + rest)[n..] == rest;
  }

  class Pipe {
    const capacity: nat
    const data: array<byte>
    var writeIndex: nat
    var used: int
    var readIndex: nat
    ghost var unread: seq<Packet>

    ghost predicate Valid()
      reads this, data
    {
      && data.Length == capacity < 0x8000_0000
      && 0 <= used <= capacity && writeIndex <= capacity && readIndex <= capacity
      && AllSized(unread) && used == |Frames(unread)|
      && Norm(writeIndex, capacity) == Place(readIndex, used, capacity)
      && Bytes(data[..], readIndex, used) == Frames(unread)
    }

    constructor (capacity: nat)
      requires capacity < 0x8000_0000
      ensures Valid() && unread == []
    {
      this.capacity := capacity;
      data := new byte[capacity](_ => 0);
      writeIndex, used, readIndex, unread := 0, 0, 0, [];
    }

    method PushData(at: nat, b: seq<byte>) returns (next: nat)
      requires data.Length == capacity && at <= capacity && |b| <= capacity
      modifies data
      ensures next == Advance(at, |b|, capacity)
      ensures data[..] == Written(old(data[..]), at, b)
    {
      var copylen := |b|;
      if at + copylen > capacity {
        copylen := capacity - at;
        forall i | 0 <= i < copylen {
          data[at + i] := b[i];
        }
        forall i | 0 <= i < |b| - copylen {
          data[i] := b[copylen + i];
        }
        next := |b| - copylen;
      } else {
        forall i | 0 <= i < |b| {
          data[at + i] := b[i];
        }
        next := at + |b|;
      }
      forall p | 0 <= p < capacity ensures data[p] == Written(old(data[..]), at, b)[p] {
        WrittenAt(old(data[..]), at, b, p);
      }
    }

    method ShiftData(at: nat, n: nat) returns (b: seq<byte>, next: nat)
      requires data.Length == capacity && at <= capacity && n <= capacity
      ensures b == Bytes(data[..], at, n) && next == Advance(at, n, capacity)
    {
      BytesIs(data[..], at, n);
      var tail := capacity - at;
      if tail >= n {
        b := data[at..at + n];
        next := at + n;
      } else {
        b := data[at..] + data[..n - tail];
        next := n - tail;
      }
    }

    /** The packet is put if and only if it fits. */
    method PutPacket(pkt: Packet) returns (ok: bool)
      requires Valid()
      modifies this, data
      ensures Valid()
      ensures ok <==> old(used) + 4 + |pkt| <= capacity
      ensures unread == if ok then old(unread) + [pkt] else old(unread)
    {
      if capacity - used < 4 + |pkt| {
        return false;
      }
      PutFrame(data[..], readIndex, used, writeIndex, pkt);
      FramesAppend(unread, pkt);
      var w := PushData(writeIndex, Encode32(|pkt|));
      w := PushData(w, pkt);
      writeIndex := w;
      used := used + (4 + |pkt|);
      unread := unread + [pkt];
      ok := true;
    }

    /** The oldest packet is returned if there is one and it fits the caller's buffer. */
    method GetPacket(buflen: nat) returns (r: Option<Packet>)
      requires Valid()
      modifies this
      ensures Valid()
      ensures r == if old(unread) != [] && |old(unread)[0]| <= buflen then Some(old(unread)[0]) else None
      ensures unread == if r.Some? then old(unread)[1..] else old(unread)
    {
      if used < 4 {
        return None;
      }
      GetFrame(data[..], readIndex, used, unread[0], Frames(unread[1..]), writeIndex);
      var header, at := ShiftData(readIndex, 4);
      var len := Decode32(header);
      if used < len + 4 || len > buflen {
        return None;
      }
      var pkt;
      pkt, at := ShiftData(at, len);
      used := used - (len + 4);
      readIndex := at;
      unread := unread[1..];
      r := Some(pkt);
    }
  }
}
