/** The established and listen hash tables and socket lookup (tcp/tcp_sock.c, include/tcp_hash.h). */
module SockHash {
  import opened Words

  const EHASH_SIZE := 64
  const LHASH_SIZE := 32

  datatype Kind = Closed | Listening | Connection

  /** A socket with its addresses and its ports in network order. */
  datatype Sock = Sock(id: nat, kind: Kind, saddr: u32, daddr: u32, sport: u16, dport: u16) {
    /** Both ends agree with a segment from `src` to `dst`. */
    predicate Mirrors(src: u32, dst: u32, srcPort: u16, dstPort: u16) {
      saddr == dst && daddr == src && sport == dstPort && dport == srcPort
    }

    predicate Accepts(addr: u32, nport: u16) {
      (saddr == 0 || saddr == addr) && sport == nport
    }
  }

  function Xor(a: nat, b: nat): nat
    decreases a + b
  {
    if a + b == 0 then 0 else (a + b) % 2 + 2 * Xor(a / 2, b / 2)
  }

  /** `tcp_ehashfn`. */
  function EHash(src: u32, dst: u32, srcPort: u16, dstPort: u16): (h: nat)
    ensures h < EHASH_SIZE
  {
    var hash := Xor(Xor(src, srcPort), Xor(dst, dstPort));
    var hash16 := Xor(hash, hash / 0x1_0000);
    Xor(hash16, hash16 / 0x100) % EHASH_SIZE
  }

  function EHashOf(s: Sock): nat {
    EHash(s.saddr, s.daddr, s.sport, s.dport)
  }

  function LHash(nport: u16): nat {
    Swap16(nport) % LHASH_SIZE
  }

  lemma {:induction false} XorCommutes(a: nat, b: nat)
    ensures Xor(a, b) == Xor(b, a)
    decreases a + b
  {
    if a + b != 0 {
      XorCommutes(a / 2, b / 2);
    }
  }

  /** The hash does not see which end is which. */
  lemma HashIsSymmetric(src: u32, dst: u32, srcPort: u16, dstPort: u16)
    ensures EHash(src, dst, srcPort, dstPort) == EHash(dst, src, dstPort, srcPort)
  {
    XorCommutes(Xor(src, srcPort), Xor(dst, dstPort));
  }

  // ----- lists of sockets, most recently hashed first -----

  /** First connection of a list that mirrors the segment. */
  function FirstPeer(ns: seq<Sock>, src: u32, dst: u32, srcPort: u16, dstPort: u16): Option<Sock> {
    if ns == [] then None
    else if ns[0].kind == Connection && ns[0].Mirrors(src, dst, srcPort, dstPort) then Some(ns[0])
    else FirstPeer(ns[1..], src, dst, srcPort, dstPort)
  }

  /** First listener of a list that accepts the address and port. */
  function FirstListener(ns: seq<Sock>, addr: u32, nport: u16): Option<Sock> {
    if ns == [] then None
    else if ns[0].kind == Listening && ns[0].Accepts(addr, nport) then Some(ns[0])
    else FirstListener(ns[1..], addr, nport)
  }

  /** A lookup over all hashed sockets: the connection of the segment, else a listener. */
  function FlatLookup(all: seq<Sock>, src: u32, dst: u32, srcPort: u16, dstPort: u16): Option<Sock> {
    var peer := FirstPeer(all, src, dst, srcPort, dstPort);
    if peer.Some? then peer else FirstListener(all, dst, dstPort)
  }

  /** The connections that hash to `h`, in their order. */
  function EBucket(all: seq<Sock>, h: nat): seq<Sock> {
    if all == [] then []
    else if all[0].kind == Connection && EHashOf(all[0]) == h then [all[0]] + EBucket(all[1..], h)
    else EBucket(all[1..], h)
  }

  function LBucket(all: seq<Sock>, h: nat): seq<Sock> {
    if all == [] then []
    else if all[0].kind == Listening && LHash(all[0].sport) == h then [all[0]] + LBucket(all[1..], h)
    else LBucket(all[1..], h)
  }

  /** `tcp_hash`. */
  function Hash(all: seq<Sock>, s: Sock): (seq<Sock>, bool) {
    if s.kind == Closed then (all, false)
    else if s.kind == Connection && FirstPeer(all, s.daddr, s.saddr, s.dport, s.sport).Some? then (all, false)
    else ([s] + all, true)
  }

  // ----- buckets against the flat list -----

  lemma {:induction false} PeerInBucket(all: seq<Sock>, src: u32, dst: u32, srcPort: u16, dstPort: u16)
    ensures FirstPeer(EBucket(all, EHash(src, dst, srcPort, dstPort)), src, dst, srcPort, dstPort)
         == FirstPeer(all, src, dst, srcPort, dstPort)
  {
    if all != [] {
      HashIsSymmetric(src, dst, srcPort, dstPort);
      PeerInBucket(all[1..], src, dst, srcPort, dstPort);
    }
  }

  lemma {:induction false} ListenerInBucket(all: seq<Sock>, addr: u32, nport: u16)
    ensures FirstListener(LBucket(all, LHash(nport)), addr, nport) == FirstListener(all, addr, nport)
  {
    if all != [] {
      ListenerInBucket(all[1..], addr, nport);
    }
  }

  lemma {:induction false} UnlinkInEBucket(all: seq<Sock>, s: Sock, h: nat)
    ensures EBucket(Unlink(all, s), h) == if s.kind == Connection && EHashOf(s) == h then Unlink(EBucket(all, h), s) else EBucket(all, h)
  {
    if all != [] {
      UnlinkInEBucket(all[1..], s, h);
    }
  }

  lemma {:induction false} UnlinkInLBucket(all: seq<Sock>, s: Sock, h: nat)
    ensures LBucket(Unlink(all, s), h) == if s.kind == Listening && LHash(s.sport) == h then Unlink(LBucket(all, h), s) else LBucket(all, h)
  {
    if all != [] {
      UnlinkInLBucket(all[1..], s, h);
    }
  }

  lemma {:induction false} BucketKinds(all: seq<Sock>, h: nat)
    ensures forall s :: s in EBucket(all, h) ==> s.kind == Connection
    ensures forall s :: s in LBucket(all, h) ==> s.kind == Listening
  {
    if all != [] {
      BucketKinds(all[1..], h);
    }
  }

  // ----- uniqueness over runs -----

  /** No two connections share both ends. */
  predicate Unique(all: seq<Sock>) {
    all == [] ||
    (Unique(all[1..]) &&
     (all[0].kind == Connection ==> FirstPeer(all[1..], all[0].daddr, all[0].saddr, all[0].dport, all[0].sport).None?))
  }

  datatype Event = HashSock(s: Sock) | UnhashSock(s: Sock)

  function Step(all: seq<Sock>, e: Event): seq<Sock> {
    match e
    case HashSock(s) => Hash(all, s).0
    case UnhashSock(s) => Unlink(all, s)
  }

  function Run(all: seq<Sock>, es: seq<Event>): seq<Sock>
    decreases |es|
  {
    if es == [] then all else Run(Step(all, es[0]), es[1..])
  }

  lemma {:induction false} UnlinkKeepsNone(all: seq<Sock>, s: Sock, src: u32, dst: u32, srcPort: u16, dstPort: u16)
    requires FirstPeer(all, src, dst, srcPort, dstPort).None?
    ensures FirstPeer(Unlink(all, s), src, dst, srcPort, dstPort).None?
  {
    if all != [] {
      UnlinkKeepsNone(all[1..], s, src, dst, srcPort, dstPort);
    }
  }

  lemma {:induction false} UnlinkKeepsUnique(all: seq<Sock>, s: Sock)
    requires Unique(all)
    ensures Unique(Unlink(all, s))
  {
    if all != [] && all[0] != s {
      UnlinkKeepsUnique(all[1..], s);
      if all[0].kind == Connection {
        UnlinkKeepsNone(all[1..], s, all[0].daddr, all[0].saddr, all[0].dport, all[0].sport);
      }
    }
  }

  lemma {:induction false} RunKeepsUnique(all: seq<Sock>, es: seq<Event>)
    requires Unique(all)
    ensures Unique(Run(all, es))
    decreases |es|
  {
    if es != [] {
      match es[0] {
        case HashSock(s) => assert ([s] + all)[1..] == all;
        case UnhashSock(s) => UnlinkKeepsUnique(all, s);
      }
      RunKeepsUnique(Step(all, es[0]), es[1..]);
    }
  }

  /** In a list without shared ends the walk finds the one connection there is. */
  lemma {:induction false} PeerIsUnique(all: seq<Sock>, s: Sock, src: u32, dst: u32, srcPort: u16, dstPort: u16)
    requires Unique(all) && s in all && s.kind == Connection && s.Mirrors(src, dst, srcPort, dstPort)
    ensures FirstPeer(all, src, dst, srcPort, dstPort) == Some(s)
  {
    if all[0] != s {
      PeerIsUnique(all[1..], s, src, dst, srcPort, dstPort);
    }
  }

  lemma {:induction false} FoundPeer(all: seq<Sock>, src: u32, dst: u32, srcPort: u16, dstPort: u16)
    ensures match FirstPeer(all, src, dst, srcPort, dstPort)
            case None => forall s :: s in all && s.kind == Connection ==> !s.Mirrors(src, dst, srcPort, dstPort)
            case Some(s) => s in all && s.kind == Connection && s.Mirrors(src, dst, srcPort, dstPort)
  {
    if all != [] {
      FoundPeer(all[1..], src, dst, srcPort, dstPort);
    }
  }

  /** Both connections have the same two ends. */
  predicate SameEnds(a: Sock, b: Sock) {
    a.saddr == b.saddr && a.daddr == b.daddr && a.sport == b.sport && a.dport == b.dport
  }

  /** A socket is refused if and only if it is closed or a connection whose ends another hashed connection has; otherwise it is added and nothing else changes. */
  lemma HashRefusesIff(all: seq<Sock>, s: Sock)
    ensures var (all1, ok) := Hash(all, s);
            && (!ok <==> s.kind == Closed || (s.kind == Connection && exists c :: c in all && c.kind == Connection && SameEnds(c, s)))
            && multiset(all1) == (if ok then multiset(all) + multiset{s} else multiset(all))
  {
    FoundPeer(all, s.daddr, s.saddr, s.dport, s.sport);
  }

  /** The walk over listeners finds the most recently hashed one that accepts, if there is one. */
  lemma {:induction false} FoundListener(all: seq<Sock>, addr: u32, nport: u16)
    ensures match FirstListener(all, addr, nport)
            case None => forall s :: s in all && s.kind == Listening ==> !s.Accepts(addr, nport)
            case Some(s) =>
              && s.kind == Listening && s.Accepts(addr, nport)
              && exists i :: 0 <= i < |all| && all[i] == s &&
                             forall j :: 0 <= j < i && all[j].kind == Listening ==> !all[j].Accepts(addr, nport)
  {
    if all != [] && !(all[0].kind == Listening && all[0].Accepts(addr, nport)) {
      FoundListener(all[1..], addr, nport);
      var found := FirstListener(all[1..], addr, nport);
      if found.Some? {
        var i :| 0 <= i < |all[1..]| && all[1..][i] == found.value &&
                 forall j :: 0 <= j < i && all[1..][j].kind == Listening ==> !all[1..][j].Accepts(addr, nport);
        assert all[i + 1] == found.value;
        forall j | 0 <= j < i + 1 && all[j].kind == Listening ensures !all[j].Accepts(addr, nport) {
          if j > 0 {
            assert all[j] == all[1..][j - 1];
          }
        }
      }
    } else if all != [] {
      assert all[0] == FirstListener(all, addr, nport).value;
    }
  }

  /** The lookup as the code does it, one bucket of each table. */
  function BucketLookup(all: seq<Sock>, src: u32, dst: u32, srcPort: u16, dstPort: u16): Option<Sock> {
    var peer := FirstPeer(EBucket(all, EHash(src, dst, srcPort, dstPort)), src, dst, srcPort, dstPort);
    if peer.Some? then peer else FirstListener(LBucket(all, LHash(dstPort)), dst, dstPort)
  }

  /**
   * After every run of hashing and unhashing, the lookup in two buckets is a scan of everything hashed. For any
   * socket `s`: a hashed connection with the segment's ends is the one returned; nothing is returned only if `s`
   * does not fit; and what is returned is hashed and fits.
   */
  lemma LookupOverRuns(es: seq<Event>, s: Sock, src: u32, dst: u32, srcPort: u16, dstPort: u16)
    ensures var all := Run([], es);
            var got := BucketLookup(all, src, dst, srcPort, dstPort);
            && got == FlatLookup(all, src, dst, srcPort, dstPort)
            && (s in all && s.kind == Connection && s.Mirrors(src, dst, srcPort, dstPort) ==> got == Some(s))
            && (s in all && s.kind == Listening && s.Accepts(dst, dstPort) ==> got.Some?)
            && (got.Some? ==> got.value in all && Fits(got.value, src, dst, srcPort, dstPort))
  {
    var all := Run([], es);
    RunKeepsUnique([], es);
    PeerInBucket(all, src, dst, srcPort, dstPort);
    ListenerInBucket(all, dst, dstPort);
    FoundPeer(all, src, dst, srcPort, dstPort);
    FoundListener(all, dst, dstPort);
    if s in all && s.kind == Connection && s.Mirrors(src, dst, srcPort, dstPort) {
      PeerIsUnique(all, s, src, dst, srcPort, dstPort);
    }
  }

  predicate Fits(s: Sock, src: u32, dst: u32, srcPort: u16, dstPort: u16) {
    (s.kind == Connection && s.Mirrors(src, dst, srcPort, dstPort)) || (s.kind == Listening && s.Accepts(dst, dstPort))
  }

  // ----- the tables -----

  lemma {:induction false} PeerFrom(ns: seq<Sock>, i: nat, src: u32, dst: u32, srcPort: u16, dstPort: u16)
    requires i <= |ns| && forall j :: 0 <= j < i ==> !ns[j].Mirrors(src, dst, srcPort, dstPort)
    ensures FirstPeer(ns, src, dst, srcPort, dstPort) == FirstPeer(ns[i..], src, dst, srcPort, dstPort)
  {
    if i > 0 {
      PeerFrom(ns[1..], i - 1, src, dst, srcPort, dstPort);
      assert ns[1..][i - 1..] == ns[i..];
    } else {
      assert ns[0..] == ns;
    }
  }

  lemma {:induction false} ListenerFrom(ns: seq<Sock>, i: nat, addr: u32, nport: u16)
    requires i <= |ns| && forall j :: 0 <= j < i ==> !ns[j].Accepts(addr, nport)
    ensures FirstListener(ns, addr, nport) == FirstListener(ns[i..], addr, nport)
  {
    if i > 0 {
      ListenerFrom(ns[1..], i - 1, addr, nport);
      assert ns[1..][i - 1..] == ns[i..];
    } else {
      assert ns[0..] == ns;
    }
  }

  class SockTable {
    const etable: array<seq<Sock>>
    const ltable: array<seq<Sock>>
    /** Everything hashed, most recent first. */
    ghost var all: seq<Sock>

    ghost predicate Valid()
      reads this, etable, ltable
    {
      && etable.Length == EHASH_SIZE && ltable.Length == LHASH_SIZE && etable != ltable
      && (forall h :: 0 <= h < EHASH_SIZE ==> etable[h] == EBucket(all, h))
      && (forall h :: 0 <= h < LHASH_SIZE ==> ltable[h] == LBucket(all, h))
    }

    constructor ()
      ensures Valid() && fresh(etable) && fresh(ltable) && all == []
    {
      etable := new seq<Sock>[EHASH_SIZE](_ => []);
      ltable := new seq<Sock>[LHASH_SIZE](_ => []);
      all := [];
    }

    /** `tcp_lookup_sock_establish`; the walk relies on the bucket holding connections only. */
    method LookupEstablish(src: u32, dst: u32, srcPort: u16, dstPort: u16) returns (sk: Option<Sock>)
      requires Valid()
      ensures sk == FirstPeer(all, src, dst, srcPort, dstPort)
    {
      var ns := etable[EHash(src, dst, srcPort, dstPort)];
      BucketKinds(all, EHash(src, dst, srcPort, dstPort));
      PeerInBucket(all, src, dst, srcPort, dstPort);
      var i := 0;
      while i < |ns|
        invariant 0 <= i <= |ns| && forall j :: 0 <= j < i ==> !ns[j].Mirrors(src, dst, srcPort, dstPort)
      {
        if ns[i].Mirrors(src, dst, srcPort, dstPort) {
          PeerFrom(ns, i, src, dst, srcPort, dstPort);
          return Some(ns[i]);
        }
        i := i + 1;
      }
      PeerFrom(ns, i, src, dst, srcPort, dstPort);
      return None;
    }

    /** `tcp_lookup_sock_listen`. */
    method LookupListen(addr: u32, nport: u16) returns (sk: Option<Sock>)
      requires Valid()
      ensures sk == FirstListener(all, addr, nport)
    {
      var ns := ltable[LHash(nport)];
      BucketKinds(all, LHash(nport));
      ListenerInBucket(all, addr, nport);
      var i := 0;
      while i < |ns|
        invariant 0 <= i <= |ns| && forall j :: 0 <= j < i ==> !ns[j].Accepts(addr, nport)
      {
        if ns[i].Accepts(addr, nport) {
          ListenerFrom(ns, i, addr, nport);
          return Some(ns[i]);
        }
        i := i + 1;
      }
      ListenerFrom(ns, i, addr, nport);
      return None;
    }

    /** `tcp_lookup_sock`. */
    method LookupSock(src: u32, dst: u32, srcPort: u16, dstPort: u16) returns (sk: Option<Sock>)
      requires Valid()
      ensures sk == FlatLookup(all, src, dst, srcPort, dstPort)
    {
      sk := LookupEstablish(src, dst, srcPort, dstPort);
      if sk.None? {
        sk := LookupListen(dst, dstPort);
      }
    }

    /** `tcp_hash` on a socket that hangs in neither table; the conflict walk is the same walk with the ends turned round. */
    method HashIn(s: Sock) returns (ok: bool)
      requires Valid() && s !in all
      modifies this, etable, ltable
      ensures Valid() && (all, ok) == Hash(old(all), s)
    {
      if s.kind == Closed {
        return false;
      }
      if s.kind == Listening {
        var h := LHash(s.sport);
        ltable[h] := [s] + ltable[h];
      } else {
        var h := EHashOf(s);
        HashIsSymmetric(s.saddr, s.daddr, s.sport, s.dport);
        var conflict := LookupEstablish(s.daddr, s.saddr, s.dport, s.sport);
        if conflict.Some? {
          return false;
        }
        etable[h] := [s] + etable[h];
      }
      assert ([s] + all)[1..] == all;
      all := [s] + all;
      ok := true;
    }

    /** `tcp_unhash`: a socket in no table stays so. */
    method UnhashOut(s: Sock)
      requires Valid()
      modifies this, etable, ltable
      ensures Valid() && all == Unlink(old(all), s)
    {
      forall h: nat ensures EBucket(Unlink(all, s), h) == if s.kind == Connection && EHashOf(s) == h then Unlink(EBucket(all, h), s) else EBucket(all, h) {
        UnlinkInEBucket(all, s, h);
      }
      forall h: nat ensures LBucket(Unlink(all, s), h) == if s.kind == Listening && LHash(s.sport) == h then Unlink(LBucket(all, h), s) else LBucket(all, h) {
        UnlinkInLBucket(all, s, h);
      }
      if s.kind == Listening {
        var h := LHash(s.sport);
        ltable[h] := Unlink(ltable[h], s);
      } else if s.kind == Connection {
        var h := EHashOf(s);
        etable[h] := Unlink(etable[h], s);
      }
      all := Unlink(all, s);
    }
  }
}
