/** Fragments that overlap: which of them `insert_frag` drops and which it keeps (ip/ip_frag.c). */
module IpOverlap {
  import opened Words
  import opened IpFragment

  /** Where a fragment ends, its header taken for `h` bytes long. */
  function Reach(p: Packet, h: nat): int {
    p.off + |p.header| + |p.data| - h
  }

  ghost predicate Increasing(pkts: seq<Packet>) {
    forall i, j :: 0 <= i < j < |pkts| ==> pkts[i].off < pkts[j].off
  }

  /** No fragment reaches into a later one. */
  ghost predicate Apart(pkts: seq<Packet>, h: nat) {
    forall i, j :: 0 <= i < j < |pkts| ==> Reach(pkts[i], h) <= pkts[j].off
  }

  /** The fragment starts inside one that is there. */
  ghost predicate StartsInside(pkts: seq<Packet>, p: Packet, h: nat) {
    exists q :: q in pkts && q.off < p.off < Reach(q, h)
  }

  ghost predicate SameOffset(pkts: seq<Packet>, off: nat) {
    exists q :: q in pkts && q.off == off
  }

  /** The fragment ends before everything that starts behind it. */
  ghost predicate EndsBefore(pkts: seq<Packet>, p: Packet) {
    forall q :: q in pkts && q.off > p.off ==> p.End() <= q.off
  }

  /** The backward scan finds the only place that keeps the offsets in order. */
  lemma {:induction false} SpotSplits(pkts: seq<Packet>, off: nat)
    requires Increasing(pkts)
    ensures match FindSpot(pkts, off)
            case Duplicate => SameOffset(pkts, off)
            case Behind(i) => (forall j :: 0 <= j < i ==> pkts[j].off < off) && (forall j :: i <= j < |pkts| ==> off < pkts[j].off)
  {
    if pkts != [] {
      var n := |pkts| - 1;
      if off == pkts[n].off {
        assert pkts[n] in pkts;
      } else if off < pkts[n].off {
        SpotSplits(pkts[..n], off);
      }
    }
  }

  /** A fragment other than the last is dropped if and only if its offset is taken, its header length differs, or it starts inside an earlier one. */
  lemma InsertDropsIff(r: Record, p: Packet)
    requires !r.complete && p.more && Increasing(r.pkts) && Apart(r.pkts, p.Hlen())
    ensures !Insert(r, p).1 <==>
            SameOffset(r.pkts, p.off) || (r.hlen != 0 && r.hlen != p.Hlen()) || StartsInside(r.pkts, p, p.Hlen())
  {
    SpotSplits(r.pkts, p.off);
    match FindSpot(r.pkts, p.off)
    case Duplicate =>
    case Behind(i) =>
      NotSame(r.pkts, p.off, i);
      InsideIsPrevious(r.pkts, p, i);
  }

  lemma NotSame(pkts: seq<Packet>, off: nat, i: nat)
    requires i <= |pkts| && (forall j :: 0 <= j < i ==> pkts[j].off < off) && (forall j :: i <= j < |pkts| ==> off < pkts[j].off)
    ensures !SameOffset(pkts, off)
  {
  }

  /** Only the fragment in front can be started inside of. */
  lemma InsideIsPrevious(pkts: seq<Packet>, p: Packet, i: nat)
    requires i <= |pkts| && Apart(pkts, p.Hlen()) && Increasing(pkts)
    requires (forall j :: 0 <= j < i ==> pkts[j].off < p.off) && (forall j :: i <= j < |pkts| ==> p.off < pkts[j].off)
    ensures StartsInside(pkts, p, p.Hlen()) <==> i > 0 && Reach(pkts[i - 1], p.Hlen()) > p.off
  {
    if i > 0 && Reach(pkts[i - 1], p.Hlen()) > p.off {
      assert pkts[i - 1] in pkts;
    }
    if StartsInside(pkts, p, p.Hlen()) {
      var q :| q in pkts && q.off < p.off < Reach(q, p.Hlen());
      var j :| 0 <= j < |pkts| && pkts[j] == q;
      if j < i - 1 {
        assert Reach(pkts[j], p.Hlen()) <= pkts[i - 1].off;
      }
    }
  }

  /** Everything before place `i` ends before the fragment, and everything from there on starts behind it. */
  ghost predicate Fits(pkts: seq<Packet>, p: Packet, i: nat) {
    && i <= |pkts|
    && (forall j :: 0 <= j < i ==> pkts[j].off < p.off && Reach(pkts[j], p.Hlen()) <= p.off)
    && (forall j :: i <= j < |pkts| ==> p.off < pkts[j].off)
  }

  function PutIn(pkts: seq<Packet>, p: Packet, i: nat): seq<Packet>
    requires i <= |pkts|
  {
    pkts[..i] + [p] + pkts[i..]
  }

  lemma PutAt(pkts: seq<Packet>, p: Packet, i: nat, j: nat)
    requires i <= |pkts| && j <= |pkts|
    ensures PutIn(pkts, p, i)[j] == if j < i then pkts[j] else if j == i then p else pkts[j - 1]
  {
  }

  lemma PutIncreases(pkts: seq<Packet>, p: Packet, i: nat)
    requires Increasing(pkts) && Fits(pkts, p, i)
    ensures Increasing(PutIn(pkts, p, i))
  {
    var s := PutIn(pkts, p, i);
    forall j, k | 0 <= j < k < |s| ensures s[j].off < s[k].off {
      PutAt(pkts, p, i, j);
      PutAt(pkts, p, i, k);
    }
  }

  lemma PutApart(pkts: seq<Packet>, p: Packet, i: nat)
    requires Fits(pkts, p, i) && Apart(pkts, p.Hlen()) && EndsBefore(pkts, p)
    ensures Apart(PutIn(pkts, p, i), p.Hlen())
  {
    var s := PutIn(pkts, p, i);
    forall j, k | 0 <= j < k < |s| ensures Reach(s[j], p.Hlen()) <= s[k].off {
      PutAt(pkts, p, i, j);
      PutAt(pkts, p, i, k);
      assert k > i ==> pkts[k - 1] in pkts;
    }
  }

  lemma ApartEnds(pkts: seq<Packet>, p: Packet, i: nat)
    requires Fits(pkts, p, i) && Apart(PutIn(pkts, p, i), p.Hlen())
    ensures EndsBefore(pkts, p)
  {
    forall q | q in pkts && q.off > p.off ensures p.End() <= q.off {
      var j :| 0 <= j < |pkts| && pkts[j] == q;
      PutAt(pkts, p, i, i);
      PutAt(pkts, p, i, j + 1);
      assert Reach(PutIn(pkts, p, i)[i], p.Hlen()) <= PutIn(pkts, p, i)[j + 1].off;
    }
  }

  /** A fragment that is kept goes to a place where it fits behind what is before it. */
  lemma KeptFits(r: Record, p: Packet) returns (i: nat)
    requires !r.complete && p.more && Increasing(r.pkts) && Apart(r.pkts, p.Hlen()) && Insert(r, p).1
    ensures Fits(r.pkts, p, i) && Insert(r, p).0.pkts == PutIn(r.pkts, p, i)
  {
    SpotSplits(r.pkts, p.off);
    i := FindSpot(r.pkts, p.off).i;
    forall j | 0 <= j < i ensures Reach(r.pkts[j], p.Hlen()) <= p.off {
      if j < i - 1 {
        assert Reach(r.pkts[j], p.Hlen()) <= r.pkts[i - 1].off;
      }
    }
  }

  /** A fragment that is kept leaves the list free of overlap if and only if it ends before what starts behind it: the code does not look there. */
  lemma KeptApartIff(r: Record, p: Packet)
    requires !r.complete && p.more && Increasing(r.pkts) && Apart(r.pkts, p.Hlen()) && Insert(r, p).1
    ensures Increasing(Insert(r, p).0.pkts) && (Apart(Insert(r, p).0.pkts, p.Hlen()) <==> EndsBefore(r.pkts, p))
  {
    var i := KeptFits(r, p);
    PutIncreases(r.pkts, p, i);
    if EndsBefore(r.pkts, p) {
      PutApart(r.pkts, p, i);
    }
    if Apart(PutIn(r.pkts, p, i), p.Hlen()) {
      ApartEnds(r.pkts, p, i);
    }
  }

  /** Sixteen bytes at offset 0 after eight bytes at offset 8: both are kept, and they overlap. */
  lemma OverlapIsKept(key: Key, a: Packet, b: Packet, header: seq<byte>, x: seq<byte>, y: seq<byte>)
    requires |header| == 20 && |x| == 8 && |y| == 16
    requires a == Packet(key, header, 8, true, x) && b == Packet(key, header, 0, true, y)
    ensures var (r1, ok1) := Insert(NewRecord(key), a);
            var (r2, ok2) := Insert(r1, b);
            ok1 && ok2 && Apart(r1.pkts, 20) && !Apart(r2.pkts, 20)
  {
    var (r1, ok1) := Insert(NewRecord(key), a);
    assert r1.pkts == [a];
    assert FindSpot([a][..0], 0) == Behind(0);
    var r2 := Insert(r1, b).0;
    assert r2.pkts == [b, a];
    assert Reach(r2.pkts[0], 20) == 16 > r2.pkts[1].off;
  }
}
