/** The list of datagrams under reassembly, over whole runs of arrivals and timer ticks. */
module IpReassemblyRuns {
  import opened Words
  import opened IpFragment
  import opened IpFragmentProofs

  // ---- The list is a table with one open record per datagram ------------------------------

  ghost function Find(t: seq<Record>, key: Key): Option<Record> {
    var i := Lookup(t, key);
    if i < |t| then Some(t[i]) else None
  }

  /** Between calls a record has something to collect and something missing. */
  ghost predicate Open(r: Record) {
    r.pkts != [] && !r.complete && !Full(r) && r.ttl > 0
  }

  ghost predicate TableOk(t: seq<Record>) {
    t == [] || (Open(t[0]) && Find(t[1..], t[0].key).None? && TableOk(t[1..]))
  }

  /** What one arrival does to the record of its datagram. */
  function ReassOne(o: Option<Record>, p: Packet): (Option<Record>, Option<Packet>) {
    var (r, ok) := Insert(if o.Some? then o.value else NewRecord(p.key), p);
    if ok && r.complete then (None, Rebuild(r)) else (Some(r), None)
  }

  lemma InsertStaysOpen(r: Record, p: Packet)
    requires Open(r) || r == NewRecord(p.key)
    ensures var (r1, ok) := Insert(r, p);
            r1.key == r.key && ((ok && r1.complete && Open(r)) || Open(r1))
  {
  }

  lemma FindHead(t: seq<Record>, key: Key)
    requires t != []
    ensures Find(t, key) == if t[0].key == key then Some(t[0]) else Find(t[1..], key)
  {
  }

  lemma {:induction false} UpdateAt(t: seq<Record>, i: nat, r: Record, key: Key)
    requires TableOk(t) && i < |t| && t[i].key == r.key && Open(r)
    ensures TableOk(t[i := r])
    ensures Find(t[i := r], key) == if key == r.key then Some(r) else Find(t, key)
  {
    var t1 := t[i := r];
    FindHead(t, key);
    FindHead(t1, key);
    if i == 0 {
      assert t1[1..] == t[1..];
    } else {
      assert t1[1..] == t[1..][i - 1 := r];
      UpdateAt(t[1..], i - 1, r, key);
      UpdateAt(t[1..], i - 1, r, t[0].key);
      AtIsFound(t[1..], i - 1);
    }
  }

  lemma {:induction false} AtIsFound(t: seq<Record>, i: nat)
    requires TableOk(t) && i < |t|
    ensures Find(t, t[i].key) == Some(t[i]) && Open(t[i])
  {
    FindHead(t, t[i].key);
    if i > 0 {
      AtIsFound(t[1..], i - 1);
    }
  }

  lemma {:induction false} RemoveAt(t: seq<Record>, i: nat, key: Key)
    requires TableOk(t) && i < |t|
    ensures TableOk(t[..i] + t[i + 1..])
    ensures Find(t[..i] + t[i + 1..], key) == if key == t[i].key then None else Find(t, key)
  {
    var t1 := t[..i] + t[i + 1..];
    FindHead(t, key);
    if i == 0 {
      assert t1 == t[1..];
    } else {
      assert t1[1..] == t[1..][..i - 1] + t[1..][i..];
      FindHead(t1, key);
      RemoveAt(t[1..], i - 1, key);
      RemoveAt(t[1..], i - 1, t[0].key);
      AtIsFound(t[1..], i - 1);
    }
  }

  /** An arrival touches only the record of its own datagram, and the table stays as it should. */
  lemma ReassIsLocal(t: seq<Record>, p: Packet, key: Key)
    requires TableOk(t)
    ensures TableOk(Reass(t, p).0)
    ensures Reass(t, p).1 == ReassOne(Find(t, p.key), p).1
    ensures Find(Reass(t, p).0, key) == if key == p.key then ReassOne(Find(t, p.key), p).0 else Find(t, key)
  {
    var i := Lookup(t, p.key);
    if i < |t| {
      AtIsFound(t, i);
      InsertStaysOpen(t[i], p);
      var (r, ok) := Insert(t[i], p);
      if ok && r.complete {
        RemoveAt(t, i, key);
      } else {
        UpdateAt(t, i, r, key);
      }
    } else {
      InsertStaysOpen(NewRecord(p.key), p);
      var (r, ok) := Insert(NewRecord(p.key), p);
      assert ([NewRecord(p.key)] + t)[0 := r] == [r] + t && ([r] + t)[1..] == t;
      FindHead([r] + t, key);
    }
  }

  /** A tick forgets a datagram exactly when its time is up. */
  lemma {:induction false} TimerIsLocal(t: seq<Record>, delta: nat, key: Key)
    requires TableOk(t)
    ensures TableOk(Timer(t, delta))
    ensures Find(Timer(t, delta), key) ==
            match Find(t, key)
            case None => None
            case Some(r) => if r.ttl <= delta then None else Some(r.(ttl := r.ttl - delta))
  {
    if t != [] {
      var t1, rest := Timer(t, delta), Timer(t[1..], delta);
      FindHead(t, key);
      TimerIsLocal(t[1..], delta, key);
      TimerIsLocal(t[1..], delta, t[0].key);
      if t[0].ttl - delta > 0 {
        assert t1[1..] == rest;
        FindHead(t1, key);
      }
    }
  }

  // ---- Runs -------------------------------------------------------------------------------

  datatype Event = Arrive(p: Packet) | Tick(delta: nat)

  ghost function Step(t: seq<Record>, e: Event): (seq<Record>, Option<Packet>) {
    match e
    case Arrive(p) => Reass(t, p)
    case Tick(delta) => (Timer(t, delta), None)
  }

  ghost function TableAfter(t: seq<Record>, es: seq<Event>): seq<Record>
    decreases es
  {
    if es == [] then t else TableAfter(Step(t, es[0]).0, es[1..])
  }

  /** Whatever arrives and however time passes, the list holds open records only, one per datagram. */
  lemma {:induction false} TableStaysOk(t: seq<Record>, es: seq<Event>)
    requires TableOk(t)
    ensures TableOk(TableAfter(t, es))
    decreases es
  {
    if es != [] {
      match es[0] {
        case Arrive(p) => ReassIsLocal(t, p, p.key);
        case Tick(delta) => TimerIsLocal(t, delta, Key(0, 0, 0, 0));
      }
      TableStaysOk(Step(t, es[0]).0, es[1..]);
    }
  }

  /** The packets handed up, each with the datagram it was handed up for. */
  ghost function Outputs(t: seq<Record>, es: seq<Event>): seq<(Key, Packet)>
    decreases es
  {
    if es == [] then []
    else
      var (t1, o) := Step(t, es[0]);
      (if es[0].Arrive? && o.Some? then [(es[0].p.key, o.value)] else []) + Outputs(t1, es[1..])
  }

  /** Whatever arrives under the key of `p` is one of its fragments; other keys are not restricted. */
  ghost predicate OnlyPieces(es: seq<Event>, p: Packet, fs: seq<Packet>) {
    es == [] || ((es[0].Arrive? && es[0].p.key == p.key ==> es[0].p in fs) && OnlyPieces(es[1..], p, fs))
  }

  ghost function Arrives(es: seq<Event>, f: Packet): bool {
    es != [] && (es[0] == Arrive(f) || Arrives(es[1..], f))
  }

  ghost function Elapsed(es: seq<Event>): nat {
    if es == [] then 0 else (if es[0].Tick? then es[0].delta else 0) + Elapsed(es[1..])
  }

  /** The table holds, for the datagram `p`, exactly the fragments marked in `m`. */
  ghost predicate Tracks(t: seq<Record>, p: Packet, fs: seq<Packet>, m: seq<bool>) {
    && TableOk(t) && |m| == |fs| && !AllOf(m)
    && match Find(t, p.key)
       case None => m == seq(|fs|, _ => false)
       case Some(r) => Collects(r, p, fs, m)
  }

  lemma {:induction false} NoneSelected(fs: seq<Packet>, m: seq<bool>)
    requires |m| == |fs| && forall i :: 0 <= i < |m| ==> !m[i]
    ensures Select(fs, m) == [] && Total(fs, m) == 0 && (m != [] ==> !AllOf(m))
  {
    if fs != [] {
      NoneSelected(fs[1..], m[1..]);
    }
  }

  /** The datagram is handed up exactly when its last missing fragment arrives. */
  lemma ArrivalStep(t: seq<Record>, p: Packet, fs: seq<Packet>, m: seq<bool>, k: nat)
    requires Datagram(p, fs) && Tracks(t, p, fs, m) && k < |fs|
    ensures var (t1, o) := Reass(t, fs[k]);
            var m1 := m[k := true];
            if AllOf(m1) then o == Some(p) && Tracks(t1, p, fs, seq(|fs|, _ => false))
            else o == None && Tracks(t1, p, fs, m1)
  {
    var none := seq(|fs|, _ => false);
    NoneSelected(fs, none);
    PieceAt(fs, p, 0, k);
    ReassIsLocal(t, fs[k], p.key);
    var o := Find(t, p.key);
    var r := if o.Some? then o.value else NewRecord(p.key);
    InsertCollects(r, p, fs, m, k);
    if m[k] {
      assert m[k := true] == m;
    } else if AllOf(m[k := true]) {
      RebuildIsOriginal(Insert(r, fs[k]).0, p, fs, m[k := true]);
    }
  }

  /** Every packet handed up for the datagram is the datagram, whatever else arrives in between. */
  lemma {:induction false} OnlyOriginals(t: seq<Record>, p: Packet, fs: seq<Packet>, m: seq<bool>, es: seq<Event>)
    requires Datagram(p, fs) && Tracks(t, p, fs, m) && OnlyPieces(es, p, fs)
    ensures forall x :: x in Outputs(t, es) && x.0 == p.key ==> x.1 == p
    decreases es
  {
    if es != [] {
      var (t1, o) := Step(t, es[0]);
      var none := seq(|fs|, _ => false);
      NoneSelected(fs, none);
      if es[0].Tick? {
        TimerIsLocal(t, es[0].delta, p.key);
        OnlyOriginals(t1, p, fs, if Find(t1, p.key).None? then none else m, es[1..]);
      } else if es[0].p.key == p.key {
        var k :| 0 <= k < |fs| && fs[k] == es[0].p;
        ArrivalStep(t, p, fs, m, k);
        OnlyOriginals(t1, p, fs, if AllOf(m[k := true]) then none else m[k := true], es[1..]);
      } else {
        ReassIsLocal(t, es[0].p, p.key);
        OnlyOriginals(t1, p, fs, m, es[1..]);
      }
    }
  }

  /** If every missing fragment arrives in time, in any order, the datagram is handed up. */
  lemma {:induction false} AllArriveDelivers(t: seq<Record>, p: Packet, fs: seq<Packet>, m: seq<bool>, es: seq<Event>)
    requires Datagram(p, fs) && Tracks(t, p, fs, m) && OnlyPieces(es, p, fs)
    requires forall k :: 0 <= k < |fs| ==> m[k] || Arrives(es, fs[k])
    requires Elapsed(es) < FRAG_TIME && (Find(t, p.key).Some? ==> Elapsed(es) < Find(t, p.key).value.ttl)
    ensures (p.key, p) in Outputs(t, es)
    decreases es
  {
    if es == [] {
      EveryMarkIsAll(m);
      assert false;
    }
    var (t1, o) := Step(t, es[0]);
    if es[0].Tick? {
      TimerIsLocal(t, es[0].delta, p.key);
      AllArriveDelivers(t1, p, fs, m, es[1..]);
    } else if es[0].p.key == p.key {
      var k :| 0 <= k < |fs| && fs[k] == es[0].p;
      ArrivalStep(t, p, fs, m, k);
      if !AllOf(m[k := true]) {
        ReassIsLocal(t, es[0].p, p.key);
        TtlKept(Find(t, p.key), es[0].p);
        forall j | 0 <= j < |fs| ensures m[k := true][j] || Arrives(es[1..], fs[j]) {
          PiecesDiffer(fs, p, 0, j, k);
        }
        AllArriveDelivers(t1, p, fs, m[k := true], es[1..]);
      }
    } else {
      ReassIsLocal(t, es[0].p, p.key);
      forall j | 0 <= j < |fs| ensures m[j] || Arrives(es[1..], fs[j]) {
        PieceAt(fs, p, 0, j);
      }
      AllArriveDelivers(t1, p, fs, m, es[1..]);
    }
  }

  lemma {:induction false} PiecesDiffer(fs: seq<Packet>, p: Packet, from: nat, j: nat, k: nat)
    requires Partition(fs, p, from) && j < |fs| && k < |fs|
    ensures j != k ==> fs[j].off != fs[k].off
  {
    if j > 0 && k > 0 {
      PiecesDiffer(fs[1..], p, fs[0].End(), j - 1, k - 1);
    } else {
      PieceAt(fs, p, from, j);
      PieceAt(fs, p, from, k);
    }
  }

  lemma TtlKept(o: Option<Record>, p: Packet)
    ensures var o1 := ReassOne(o, p).0;
            o1.Some? ==> o1.value.ttl == if o.Some? then o.value.ttl else FRAG_TIME
  {
  }

  lemma {:induction false} EveryMarkIsAll(m: seq<bool>)
    requires forall k :: 0 <= k < |m| ==> m[k]
    ensures AllOf(m)
  {
    if m != [] {
      EveryMarkIsAll(m[1..]);
    }
  }

  /**
   Fragmentation undone: whatever the order, the duplicates and the traffic of other datagrams, only
   the packet itself is handed up for its key, and it is handed up if its fragments arrive in time.
   */
  lemma SplitThenReassemble(p: Packet, mtu: nat, es: seq<Event>)
    requires p.header != [] && |p.header| + 8 <= mtu < |p.header| + |p.data| <= MAX_LEN && p.off == 0 && !p.more
    requires OnlyPieces(es, p, Fragments(p, MaxPayload(mtu, p.Hlen()), 0))
    ensures var fs := Fragments(p, MaxPayload(mtu, p.Hlen()), 0);
            && AllFit(fs, mtu)
            && (forall x :: x in Outputs([], es) && x.0 == p.key ==> x.1 == p)
            && (Elapsed(es) < FRAG_TIME && (forall f :: f in fs ==> Arrives(es, f)) ==> (p.key, p) in Outputs([], es))
  {
    var fs := Fragments(p, MaxPayload(mtu, p.Hlen()), 0);
    SplitIsPartition(p, mtu, 0);
    var none := seq(|fs|, _ => false);
    NoneSelected(fs, none);
    OnlyOriginals([], p, fs, none, es);
    if Elapsed(es) < FRAG_TIME && forall f :: f in fs ==> Arrives(es, f) {
      AllArriveDelivers([], p, fs, none, es);
    }
  }
}
