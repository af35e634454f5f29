/** Splitting and reassembly undo each other for every arrival order. */
module IpFragmentProofs {
  import opened Words
  import opened IpFragment

  // ---- Splitting --------------------------------------------------------------------------

  /** The fragments carry the payload of `p` from offset `from` on, piece after piece, and only the last says so. */
  ghost predicate Partition(fs: seq<Packet>, p: Packet, from: nat) {
    && fs != []
    && var f := fs[0];
       && f.key == p.key && f.header == p.header && f.off == from
       && f.data != [] && f.End() <= |p.data| && f.data == p.data[from..f.End()]
       && if |fs| == 1 then !f.more && f.End() == |p.data|
          else f.more && Partition(fs[1..], p, f.End())
  }

  ghost predicate AllFit(fs: seq<Packet>, mtu: nat) {
    fs == [] || (|fs[0].header| + |fs[0].data| <= mtu && (fs[0].more ==> |fs[0].data| % 8 == 0) && AllFit(fs[1..], mtu))
  }

  lemma FieldRoundTrip(p: Packet, dlen: nat, off: nat, more: bool)
    requires off + dlen <= |p.data| <= MAX_LEN && off % 8 == 0
    ensures Fragment(p, dlen, off, more).off == off
    ensures Fragment(p, dlen, off, more).more == more
  {
  }

  /** Splitting yields fragments that fit the MTU, with payloads that are multiples of 8 except for the last, and partition the packet. */
  lemma {:induction false} SplitIsPartition(p: Packet, mtu: nat, off: nat)
    requires |p.header| + 8 <= mtu && |p.data| <= MAX_LEN && off < |p.data| && off % 8 == 0
    ensures var fs := Fragments(p, MaxPayload(mtu, p.Hlen()), off);
            Partition(fs, p, off) && AllFit(fs, mtu) && (|fs| == 1 <==> |p.data| - off <= MaxPayload(mtu, p.Hlen()))
    decreases |p.data| - off
  {
    var mlen := MaxPayload(mtu, p.Hlen());
    var fs := Fragments(p, mlen, off);
    if |p.data| - off > mlen {
      FieldRoundTrip(p, mlen, off, true);
      SplitIsPartition(p, mtu, off + mlen);
      assert fs[1..] == Fragments(p, mlen, off + mlen);
    } else {
      FieldRoundTrip(p, |p.data| - off, off, false);
    }
  }

  // ---- A record holds a subset of the fragments -------------------------------------------

  /** The fragments marked as present, in order. */
  ghost function Select(fs: seq<Packet>, m: seq<bool>): seq<Packet>
    requires |fs| == |m|
  {
    if fs == [] then [] else (if m[0] then [fs[0]] else []) + Select(fs[1..], m[1..])
  }

  ghost function Total(fs: seq<Packet>, m: seq<bool>): nat
    requires |fs| == |m|
  {
    if fs == [] then 0 else (if m[0] then |fs[0].data| else 0) + Total(fs[1..], m[1..])
  }

  ghost predicate AllOf(m: seq<bool>) {
    m == [] || (m[0] && AllOf(m[1..]))
  }

  ghost predicate OffsetsAbove(pkts: seq<Packet>, off: nat) {
    pkts == [] || (off < pkts[0].off && OffsetsAbove(pkts[1..], off))
  }

  lemma {:induction false} AboveAt(pkts: seq<Packet>, off: nat, i: nat)
    requires OffsetsAbove(pkts, off) && i < |pkts|
    ensures off < pkts[i].off
  {
    if i > 0 {
      AboveAt(pkts[1..], off, i - 1);
    }
  }

  lemma {:induction false} SelectAbove(fs: seq<Packet>, m: seq<bool>, p: Packet, from: nat, off: nat)
    requires Partition(fs, p, from) && |fs| == |m| && off < from
    ensures OffsetsAbove(Select(fs, m), off)
  {
    if |fs| > 1 {
      SelectAbove(fs[1..], m[1..], p, fs[0].End(), off);
    }
    if m[0] {
      assert Select(fs, m)[1..] == Select(fs[1..], m[1..]);
    } else {
      assert Select(fs, m) == Select(fs[1..], m[1..]);
    }
  }

  /** Fragments behind the wanted offset do not change where the scan stops. */
  lemma {:induction false} SpotIgnoresLater(a: seq<Packet>, b: seq<Packet>, off: nat)
    requires OffsetsAbove(b, off)
    ensures FindSpot(a + b, off) == FindSpot(a, off)
    decreases |b|
  {
    if b == [] {
      assert a + b == a;
    } else {
      var n := |b| - 1;
      AboveAt(b, off, n);
      AbovePrefix(b, off, n);
      assert (a + b)[..|a| + n] == a + b[..n];
      SpotIgnoresLater(a, b[..n], off);
    }
  }

  lemma {:induction false} AbovePrefix(b: seq<Packet>, off: nat, n: nat)
    requires OffsetsAbove(b, off) && n <= |b|
    ensures OffsetsAbove(b[..n], off)
  {
    if n > 0 {
      AbovePrefix(b[1..], off, n - 1);
      assert b[..n][1..] == b[1..][..n - 1];
    }
  }

  /** A fragment in front of the wanted offset shifts the spot by one. */
  lemma {:induction false} SpotPastEarlier(h: Packet, q: seq<Packet>, off: nat)
    requires h.off < off
    ensures FindSpot([h] + q, off) == match FindSpot(q, off) case Duplicate => Duplicate case Behind(i) => Behind(i + 1)
    decreases |q|
  {
    var hq := [h] + q;
    if q != [] {
      assert hq[..|q|] == [h] + q[..|q| - 1];
      SpotPastEarlier(h, q[..|q| - 1], off);
    }
  }

  /** The scan of `q` finds `f` if it is there, and otherwise the spot that turns `q` into `q1`. */
  ghost predicate Spotted(q: seq<Packet>, f: Packet, present: bool, q1: seq<Packet>) {
    match FindSpot(q, f.off)
    case Duplicate => present
    case Behind(i) =>
      && !present && q[..i] + [f] + q[i..] == q1
      && (i > 0 ==> q[i - 1].End() <= f.off && q[i - 1].header == f.header)
  }

  lemma SpottedAtFront(f: Packet, rest: seq<Packet>, present: bool)
    requires OffsetsAbove(rest, f.off)
    ensures Spotted((if present then [f] else []) + rest, f, present, [f] + rest)
  {
    SpotIgnoresLater(if present then [f] else [], rest, f.off);
  }

  lemma SpottedBehind(h: Packet, q: seq<Packet>, f: Packet, present: bool, q1: seq<Packet>)
    requires Spotted(q, f, present, q1) && h.off < f.off && h.End() <= f.off && h.header == f.header
    ensures Spotted([h] + q, f, present, [h] + q1)
  {
    SpotPastEarlier(h, q, f.off);
    match FindSpot(q, f.off)
    case Duplicate =>
    case Behind(i) =>
      assert ([h] + q)[..i + 1] == [h] + q[..i] && ([h] + q)[i + 1..] == q[i..];
      assert [h] + q[..i] + [f] + q[i..] == [h] + (q[..i] + [f] + q[i..]);
  }

  lemma {:induction false} SpottedInSelect(fs: seq<Packet>, m: seq<bool>, k: nat, p: Packet, from: nat)
    requires Partition(fs, p, from) && k < |fs| == |m|
    ensures fs[k].off >= from && fs[k].header == p.header
    ensures Spotted(Select(fs, m), fs[k], m[k], Select(fs, m[k := true]))
    decreases |fs|
  {
    var rest := Select(fs[1..], m[1..]);
    if k == 0 {
      if |fs| > 1 {
        SelectAbove(fs[1..], m[1..], p, fs[0].End(), fs[0].off);
      }
      assert m[0 := true][1..] == m[1..];
      SpottedAtFront(fs[0], rest, m[0]);
    } else {
      SpottedInSelect(fs[1..], m[1..], k - 1, p, fs[0].End());
      assert m[k := true][1..] == m[1..][k - 1 := true];
      var rest1 := Select(fs[1..], m[1..][k - 1 := true]);
      if m[0] {
        SpottedBehind(fs[0], rest, fs[k], m[k], rest1);
      } else {
        assert [] + rest == rest && [] + rest1 == rest1;
      }
    }
  }

  // ---- What is collected ------------------------------------------------------------------

  lemma {:induction false} TotalIffAll(fs: seq<Packet>, m: seq<bool>, p: Packet, from: nat)
    requires Partition(fs, p, from) && |fs| == |m|
    ensures Total(fs, m) <= |p.data| - from
    ensures Total(fs, m) == |p.data| - from <==> AllOf(m)
  {
    if |fs| > 1 {
      TotalIffAll(fs[1..], m[1..], p, fs[0].End());
    }
  }

  lemma {:induction false} TotalAdds(fs: seq<Packet>, m: seq<bool>, k: nat)
    requires k < |fs| == |m| && !m[k]
    ensures Total(fs, m[k := true]) == Total(fs, m) + |fs[k].data|
  {
    if k > 0 {
      TotalAdds(fs[1..], m[1..], k - 1);
      assert m[k := true][1..] == m[1..][k - 1 := true];
    } else {
      assert m[k := true][1..] == m[1..];
    }
  }

  lemma {:induction false} AllOfAt(m: seq<bool>, k: nat)
    requires AllOf(m) && k < |m|
    ensures m[k]
  {
    if k > 0 {
      AllOfAt(m[1..], k - 1);
    }
  }

  lemma {:induction false} SelectAll(fs: seq<Packet>, m: seq<bool>)
    requires |fs| == |m| && AllOf(m)
    ensures Select(fs, m) == fs
  {
    if fs != [] {
      SelectAll(fs[1..], m[1..]);
    }
  }

  lemma {:induction false} SelectLast(fs: seq<Packet>, m: seq<bool>)
    requires |fs| == |m| > 0 && !m[|m| - 1]
    ensures Select(fs, m[|m| - 1 := true]) == Select(fs, m) + [fs[|fs| - 1]]
  {
    if |fs| > 1 {
      SelectLast(fs[1..], m[1..]);
      assert m[|m| - 1 := true][1..] == m[1..][|m| - 2 := true];
    } else {
      assert Select(fs, m) == [] && Select(fs, m[0 := true]) == [fs[0]];
    }
  }

  /** Only the last fragment of a partition says that it is the last. */
  lemma {:induction false} PieceAt(fs: seq<Packet>, p: Packet, from: nat, k: nat)
    requires Partition(fs, p, from) && k < |fs|
    ensures fs[k].key == p.key && fs[k].header == p.header
    ensures fs[k].more <==> k < |fs| - 1
    ensures k == |fs| - 1 ==> fs[k].End() == |p.data|
    ensures fs[k].off == from <==> k == 0
    ensures fs[k].off >= from
  {
    if k > 0 {
      PieceAt(fs[1..], p, fs[0].End(), k - 1);
    }
  }

  lemma {:induction false} GatherAll(fs: seq<Packet>, p: Packet, from: nat)
    requires Partition(fs, p, from)
    ensures Gather(fs, |p.header|) == p.data[from..]
  {
    assert (fs[0].header + fs[0].data)[|p.header|..] == fs[0].data;
    if |fs| > 1 {
      GatherAll(fs[1..], p, fs[0].End());
      assert p.data[from..] == p.data[from..fs[0].End()] + p.data[fs[0].End()..];
    } else {
      assert Gather(fs[1..], |p.header|) == [];
    }
  }

  /** A datagram the sender fragments, and its fragments. */
  ghost predicate Datagram(p: Packet, fs: seq<Packet>) {
    && p.header != [] && |p.header| + |p.data| <= MAX_LEN && p.off == 0 && !p.more
    && Partition(fs, p, 0) && |fs| > 1
  }

  /** The record holds the fragments marked in `m`, and is complete exactly when that is all of them. */
  ghost predicate Collects(r: Record, p: Packet, fs: seq<Packet>, m: seq<bool>) {
    && |fs| == |m| > 1
    && r.key == p.key && r.pkts == Select(fs, m) && r.rsize == Total(fs, m)
    && r.first == m[0] && r.last == m[|m| - 1] && (r.last ==> r.size == |p.data|)
    && (r.hlen == 0 || r.hlen == |p.header|) && (m[0] ==> r.hlen == |p.header|)
    && r.complete == AllOf(m)
  }

  /** Being full is having every fragment. */
  lemma FullIffAll(r: Record, p: Packet, fs: seq<Packet>, m: seq<bool>)
    requires Datagram(p, fs) && Collects(r, p, fs, m)
    ensures Full(r) <==> AllOf(m)
  {
    AllNeedsFlags(fs, m, p);
  }

  lemma AddCollects(r: Record, i: nat, p: Packet, fs: seq<Packet>, m: seq<bool>, k: nat, m1: seq<bool>)
    requires Datagram(p, fs) && k < |fs| == |m| && !m[k] && m1 == m[k := true] && i <= |r.pkts|
    requires r.pkts[..i] + [fs[k]] + r.pkts[i..] == Select(fs, m1)
    requires r.key == p.key && r.rsize == Total(fs, m) && !r.complete
    requires r.first == m1[0] && r.last == m1[|m1| - 1] && (r.last ==> r.size == |p.data|)
    requires (r.hlen == 0 || r.hlen == |p.header|) && (m1[0] ==> r.hlen == |p.header|)
    ensures Collects(Add(r, i, fs[k]), p, fs, m1)
  {
    TotalAdds(fs, m, k);
    AllNeedsFlags(fs, m1, p);
  }

  lemma AllNeedsFlags(fs: seq<Packet>, m: seq<bool>, p: Packet)
    requires Datagram(p, fs) && |fs| == |m|
    ensures m[0] && m[|m| - 1] && Total(fs, m) == |p.data| <==> AllOf(m)
  {
    TotalIffAll(fs, m, p, 0);
    if AllOf(m) {
      AllOfAt(m, |m| - 1);
    }
  }

  lemma AppendAt<T>(s: seq<T>, x: T)
    ensures s[..|s|] + [x] + s[|s|..] == s + [x]
  {
  }

  lemma InsertLast(r: Record, p: Packet, fs: seq<Packet>, m: seq<bool>)
    requires Datagram(p, fs) && Collects(r, p, fs, m) && !AllOf(m) && !m[|m| - 1]
    ensures var (r1, ok) := Insert(r, fs[|fs| - 1]); ok && Collects(r1, p, fs, m[|m| - 1 := true])
  {
    var k := |fs| - 1;
    PieceAt(fs, p, 0, k);
    SelectLast(fs, m);
    AppendAt(r.pkts, fs[k]);
    AddCollects(r.(last := true, size := fs[k].End()), |r.pkts|, p, fs, m, k, m[k := true]);
  }

  lemma InsertMiddle(r: Record, p: Packet, fs: seq<Packet>, m: seq<bool>, k: nat)
    requires Datagram(p, fs) && Collects(r, p, fs, m) && !AllOf(m) && k < |fs| - 1 && !m[k]
    ensures var (r1, ok) := Insert(r, fs[k]); ok && Collects(r1, p, fs, m[k := true])
  {
    PieceAt(fs, p, 0, k);
    SpottedInSelect(fs, m, k, p, 0);
    var i := FindSpot(r.pkts, fs[k].off).i;
    var r0 := r.(hlen := |p.header|, first := r.first || k == 0);
    AddCollects(r0, i, p, fs, m, k, m[k := true]);
  }

  /** A fragment that is present is dropped; any other is added. */
  lemma InsertCollects(r: Record, p: Packet, fs: seq<Packet>, m: seq<bool>, k: nat)
    requires Datagram(p, fs) && Collects(r, p, fs, m) && !AllOf(m) && k < |fs|
    ensures var (r1, ok) := Insert(r, fs[k]);
            if m[k] then !ok && r1 == r else ok && Collects(r1, p, fs, m[k := true])
  {
    if m[k] {
      PieceAt(fs, p, 0, k);
      SpottedInSelect(fs, m, k, p, 0);
    } else if k == |fs| - 1 {
      InsertLast(r, p, fs, m);
    } else {
      InsertMiddle(r, p, fs, m, k);
    }
  }

  /** A complete record rebuilds the datagram. */
  lemma RebuildIsOriginal(r: Record, p: Packet, fs: seq<Packet>, m: seq<bool>)
    requires Datagram(p, fs) && Collects(r, p, fs, m) && AllOf(m)
    ensures Rebuild(r) == Some(p)
  {
    AllOfAt(m, |m| - 1);
    SelectAll(fs, m);
    GatherAll(fs, p, 0);
  }
}
