/**
 * Listeners and the port table together. `tcp_hash` skips the conflict check for listeners because the
 * bind table is said to have done it. Two kinds of closed socket have a port they do not own and may still
 * listen on it: one whose connect failed has given its port back but keeps `sk_sport`, and one made for an
 * accepted connection has the port of its listener without a bind (tcp/tcp_sock.c, tcp/tcp_state.c).
 */
module Listeners {
  import opened Words
  import opened SockHash
  import P = Ports

  /** The ports with every socket's `sk_sport`, and the hashed listeners. */
  datatype World = World(s: P.Sockets, all: seq<Sock>)

  const INIT := World(P.Sockets(P.INIT, map[]), [])

  datatype Call =
    | Bind(k: nat, nport: u16)
    | FailConnect(k: nat)
    | AcceptReset(k: nat, parent: nat)
    | Listen(k: nat, addr: u32)
    | Close(k: nat)

  function OfId(all: seq<Sock>, k: nat): Option<Sock> {
    if all == [] then None else if all[0].id == k then Some(all[0]) else OfId(all[1..], k)
  }

  function Listener(k: nat, addr: u32, nport: u16): Sock {
    Sock(k, Listening, addr, 0, nport, 0)
  }

  /**
   * `inet_bind`, a connection of `tcp_connect` that fails or is reset, a connection accepted from the listener
   * `parent` and then reset, `tcp_listen` and `tcp_close`; a call the state refuses changes nothing.
   */
  function Do(w: World, c: Call): World {
    match c
    case Bind(k, nport) => w.(s := P.Step(w.s, P.Request(k, nport)))
    case FailConnect(k) => if OfId(w.all, k).Some? then w else w.(s := P.Step(w.s, P.Release(k)))
    case AcceptReset(k, parent) =>
      var l := OfId(w.all, parent);
      if k in w.s.sport || l.None? then w else w.(s := w.s.(sport := w.s.sport[k := l.value.sport]))
    case Listen(k, addr) =>
      if k !in w.s.sport || OfId(w.all, k).Some? then w
      else w.(all := Hash(w.all, Listener(k, addr, w.s.sport[k])).0)
    case Close(k) =>
      var me := OfId(w.all, k);
      if me.None? then w else World(P.Step(w.s, P.Release(k)), Unlink(w.all, me.value))
  }

  function DoAll(w: World, cs: seq<Call>): World
    decreases |cs|
  {
    if cs == [] then w else DoAll(Do(w, cs[0]), cs[1..])
  }

  /** The socket is in the port table under its own port. */
  predicate Owns(s: P.Sockets, k: nat) {
    k in s.sport && s.sport[k] in s.t.bound && s.t.bound[s.sport[k]] == k
  }

  /** Each listen call comes from a socket that still owns its port. */
  predicate ListensOwned(w: World, cs: seq<Call>)
    decreases |cs|
  {
    cs == [] || ((cs[0].Listen? && cs[0].k in w.s.sport ==> Owns(w.s, cs[0].k)) && ListensOwned(Do(w, cs[0]), cs[1..]))
  }

  /** At most one hashed listener for each port. */
  predicate OnePerPort(all: seq<Sock>) {
    all == [] || (OnePerPort(all[1..]) && OnPort(all[1..], all[0].sport).None?)
  }

  function OnPort(all: seq<Sock>, nport: u16): Option<Sock> {
    if all == [] then None else if all[0].sport == nport then Some(all[0]) else OnPort(all[1..], nport)
  }

  predicate DistinctIds(all: seq<Sock>) {
    all == [] || (DistinctIds(all[1..]) && OfId(all[1..], all[0].id).None?)
  }

  ghost predicate AllOwn(s: P.Sockets, all: seq<Sock>) {
    forall l :: l in all ==> l.kind == Listening && Owns(s, l.id) && l.sport == s.sport[l.id]
  }

  ghost predicate Owned(w: World) {
    P.Inv(w.s) && DistinctIds(w.all) && AllOwn(w.s, w.all)
  }

  lemma {:induction false} OfIdIn(all: seq<Sock>, k: nat)
    ensures match OfId(all, k)
            case None => forall l :: l in all ==> l.id != k
            case Some(l) => l in all && l.id == k
  {
    if all != [] {
      OfIdIn(all[1..], k);
    }
  }

  lemma {:induction false} OnPortIn(all: seq<Sock>, nport: u16)
    ensures match OnPort(all, nport)
            case None => forall l :: l in all ==> l.sport != nport
            case Some(l) => l in all && l.sport == nport
  {
    if all != [] {
      OnPortIn(all[1..], nport);
    }
  }

  /** Owned ports make listeners differ in their ports. */
  lemma {:induction false} OwnedIsOnePerPort(w: World)
    requires Owned(w)
    ensures OnePerPort(w.all)
    decreases |w.all|
  {
    if w.all != [] {
      OwnedIsOnePerPort(w.(all := w.all[1..]));
      OnPortIn(w.all[1..], w.all[0].sport);
      OfIdIn(w.all[1..], w.all[0].id);
    }
  }

  lemma {:induction false} UnlinkId(all: seq<Sock>, s: Sock)
    requires DistinctIds(all) && s in all
    ensures DistinctIds(Unlink(all, s))
    ensures forall l :: l in Unlink(all, s) ==> l in all && l.id != s.id
  {
    OfIdIn(all[1..], all[0].id);
    if all[0] != s {
      UnlinkId(all[1..], s);
      OfIdIn(Unlink(all[1..], s), all[0].id);
    }
  }

  lemma RequestKeepsOwners(s: P.Sockets, all: seq<Sock>, k: nat, nport: u16)
    requires P.Inv(s) && AllOwn(s, all)
    ensures P.Inv(P.Step(s, P.Request(k, nport))) && AllOwn(P.Step(s, P.Request(k, nport)), all)
  {
    if k !in s.sport {
      P.BindKeepsInv(s, k, nport);
      if nport == 0 && s.t.bfree > 0 {
        var i := P.AutoBind(s.t, k);
      }
    }
  }

  lemma ReleaseKeepsOwners(s: P.Sockets, all: seq<Sock>, k: nat)
    requires P.Inv(s) && AllOwn(s, all) && forall l :: l in all ==> l.id != k
    ensures P.Inv(P.Step(s, P.Release(k))) && AllOwn(P.Step(s, P.Release(k)), all)
  {
    P.UnbindKeepsInv(s, k);
  }

  lemma DoKeepsOwned(w: World, c: Call)
    requires Owned(w)
    requires c.Listen? && c.k in w.s.sport ==> Owns(w.s, c.k)
    ensures Owned(Do(w, c))
  {
    OfIdIn(w.all, c.k);
    match c {
      case Bind(k, nport) => RequestKeepsOwners(w.s, w.all, k, nport);
      case FailConnect(k) =>
        if OfId(w.all, k).None? {
          ReleaseKeepsOwners(w.s, w.all, k);
        }
      case AcceptReset(k, parent) =>
      case Listen(k, addr) =>
        if k in w.s.sport {
          assert ([Listener(k, addr, w.s.sport[k])] + w.all)[1..] == w.all;
        }
      case Close(k) =>
        var me := OfId(w.all, k);
        if me.Some? {
          UnlinkId(w.all, me.value);
          ReleaseKeepsOwners(w.s, Unlink(w.all, me.value), k);
        }
    }
  }

  lemma {:induction false} DoAllKeepsOwned(w: World, cs: seq<Call>)
    requires Owned(w) && ListensOwned(w, cs)
    ensures Owned(DoAll(w, cs))
    decreases |cs|
  {
    if cs != [] {
      DoKeepsOwned(w, cs[0]);
      DoAllKeepsOwned(Do(w, cs[0]), cs[1..]);
    }
  }

  /** While only owners of their port listen, no two hashed listeners share a port, in any run. */
  lemma ListenersDiffer(cs: seq<Call>)
    requires ListensOwned(INIT, cs)
    ensures OnePerPort(DoAll(INIT, cs).all)
  {
    DoAllKeepsOwned(INIT, cs);
    OwnedIsOnePerPort(DoAll(INIT, cs));
  }

  // ----- every run -----

  /** What every run keeps: a hashed listener is known by its own port, whether it still owns it or not. */
  ghost predicate Linked(w: World) {
    && P.Inv(w.s) && DistinctIds(w.all)
    && forall l :: l in w.all ==> l.kind == Listening && l.id in w.s.sport && l.sport == w.s.sport[l.id]
  }

  lemma RequestKeepsPorts(s: P.Sockets, k: nat, nport: u16)
    requires P.Inv(s)
    ensures P.Inv(P.Step(s, P.Request(k, nport)))
    ensures forall l :: l in s.sport ==> l in P.Step(s, P.Request(k, nport)).sport && P.Step(s, P.Request(k, nport)).sport[l] == s.sport[l]
  {
    if k !in s.sport {
      P.BindKeepsInv(s, k, nport);
    }
  }

  lemma DoKeepsLinked(w: World, c: Call)
    requires Linked(w)
    ensures Linked(Do(w, c))
  {
    OfIdIn(w.all, c.k);
    match c {
      case Bind(k, nport) => RequestKeepsPorts(w.s, k, nport);
      case FailConnect(k) => P.UnbindKeepsInv(w.s, k);
      case AcceptReset(k, parent) =>
      case Listen(k, addr) =>
        if k in w.s.sport {
          assert ([Listener(k, addr, w.s.sport[k])] + w.all)[1..] == w.all;
        }
      case Close(k) =>
        P.UnbindKeepsInv(w.s, k);
        if OfId(w.all, k).Some? {
          UnlinkId(w.all, OfId(w.all, k).value);
        }
    }
  }

  /** Closing a listener takes it off its port, which is free for the next bind if the listener owned it and stays with its owner if not. */
  lemma CloseReleases(w: World, k: nat, other: nat)
    requires Linked(w) && OfId(w.all, k).Some? && other !in w.s.sport
    ensures var p := OfId(w.all, k).value.sport;
            var w1 := Do(w, Close(k));
            && OfId(w1.all, k).None?
            && (!Owns(w.s, k) ==> w1.s.t.bound == w.s.t.bound)
            && (Owns(w.s, k) ==> p !in w1.s.t.bound && (p != 0 ==> Owns(Do(w1, Bind(other, p)).s, other)))
  {
    OfIdIn(w.all, k);
    UnlinkId(w.all, OfId(w.all, k).value);
    OfIdIn(Do(w, Close(k)).all, k);
  }

  /** The port belongs to another socket, and that one listens. */
  predicate OwnerListens(w: World, k: nat) {
    k in w.s.sport &&
    var p := w.s.sport[k];
    p in w.s.t.bound && w.s.t.bound[p] != k && OfId(w.all, w.s.t.bound[p]).Some?
  }

  /** A socket that does not own the port listens on it. */
  predicate SquatterListens(w: World, k: nat) {
    k in w.s.sport && exists l :: l in w.all && l.sport == w.s.sport[k] && !Owns(w.s, l.id)
  }

  predicate Shares(w: World, k: nat) {
    OwnerListens(w, k) || SquatterListens(w, k)
  }

  /** The two ways are all the ways a listener can already be on the port. */
  lemma SharesIff(w: World, k: nat)
    requires Linked(w) && k in w.s.sport && OfId(w.all, k).None?
    ensures Shares(w, k) <==> OnPort(w.all, w.s.sport[k]).Some?
  {
    var p := w.s.sport[k];
    OnPortIn(w.all, p);
    OfIdIn(w.all, k);
    if p in w.s.t.bound {
      OfIdIn(w.all, w.s.t.bound[p]);
    }
    if OnPort(w.all, p).Some? && Owns(w.s, OnPort(w.all, p).value.id) {
      assert w.s.t.bound[p] == OnPort(w.all, p).value.id;
    }
  }

  /** A listen call lets two listeners share its port exactly when another socket that owns the port, or one that does not, already listens on it. */
  lemma ListenSharesIff(w: World, k: nat, addr: u32)
    requires Linked(w) && OnePerPort(w.all) && k in w.s.sport && OfId(w.all, k).None?
    ensures !OnePerPort(Do(w, Listen(k, addr)).all) <==> Shares(w, k)
  {
    SharesIff(w, k);
    assert ([Listener(k, addr, w.s.sport[k])] + w.all)[1..] == w.all;
  }

  lemma {:induction false} UnlinkKeepsOnePerPort(all: seq<Sock>, s: Sock)
    requires OnePerPort(all)
    ensures OnePerPort(Unlink(all, s))
    ensures forall l :: l in Unlink(all, s) ==> l in all
  {
    if all != [] && all[0] != s {
      UnlinkKeepsOnePerPort(all[1..], s);
      OnPortIn(all[1..], all[0].sport);
      OnPortIn(Unlink(all[1..], s), all[0].sport);
    }
  }

  /** At every point of the run there is at most one listener for each port. */
  predicate Throughout(w: World, cs: seq<Call>)
    decreases |cs|
  {
    OnePerPort(w.all) && (cs == [] || Throughout(Do(w, cs[0]), cs[1..]))
  }

  /** No listen call of the run that is let through finds its port listened on. */
  predicate NoneShares(w: World, cs: seq<Call>)
    decreases |cs|
  {
    cs == [] ||
    ((cs[0].Listen? && OfId(w.all, cs[0].k).None? ==> !Shares(w, cs[0].k)) && NoneShares(Do(w, cs[0]), cs[1..]))
  }

  lemma OthersKeepOnePerPort(w: World, c: Call)
    requires OnePerPort(w.all) && (c.Listen? ==> c.k !in w.s.sport || OfId(w.all, c.k).Some?)
    ensures OnePerPort(Do(w, c).all)
  {
    if c.Close? && OfId(w.all, c.k).Some? {
      UnlinkKeepsOnePerPort(w.all, OfId(w.all, c.k).value);
    }
  }

  lemma {:induction false} ThroughoutIff(w: World, cs: seq<Call>)
    requires Linked(w) && OnePerPort(w.all)
    ensures Throughout(w, cs) <==> NoneShares(w, cs)
    decreases |cs|
  {
    if cs != [] {
      var c := cs[0];
      DoKeepsLinked(w, c);
      if c.Listen? && c.k in w.s.sport && OfId(w.all, c.k).None? {
        ListenSharesIff(w, c.k, c.addr);
      } else {
        OthersKeepOnePerPort(w, c);
      }
      if OnePerPort(Do(w, c).all) {
        ThroughoutIff(Do(w, c), cs[1..]);
      }
    }
  }

  /** In every run listeners differ in their ports all along if and only if no listen call finds its port listened on. */
  lemma ListenersDifferIff(cs: seq<Call>)
    ensures Throughout(INIT, cs) <==> NoneShares(INIT, cs)
  {
    ThroughoutIff(INIT, cs);
  }

  // ----- the failing runs -----

  lemma DoFirst(w: World, c: Call, rest: seq<Call>)
    ensures DoAll(w, [c] + rest) == DoAll(Do(w, c), rest)
  {
    assert ([c] + rest)[1..] == rest;
  }

  lemma DoTwo(w: World, c1: Call, c2: Call)
    ensures DoAll(w, [c1, c2]) == Do(Do(w, c1), c2)
  {
    var w2 := Do(Do(w, c1), c2);
    DoFirst(w, c1, [c2]);
    DoFirst(Do(w, c1), c2, []);
    assert [c1] + [c2] == [c1, c2] && [c2] + [] == [c2];
    assert DoAll(w2, []) == w2;
  }

  lemma DoFour(w: World, c1: Call, c2: Call, c3: Call, c4: Call)
    ensures DoAll(w, [c1, c2, c3, c4]) == Do(Do(Do(Do(w, c1), c2), c3), c4)
  {
    DoFirst(w, c1, [c2, c3, c4]);
    DoFirst(Do(w, c1), c2, [c3, c4]);
    DoTwo(Do(Do(w, c1), c2), c3, c4);
    assert [c1] + [c2, c3, c4] == [c1, c2, c3, c4] && [c2] + [c3, c4] == [c2, c3, c4];
  }

  /** The table after a socket bound a port and lost it to another. */
  lemma PortPasses(p: u16)
    requires p != 0
    ensures var s := P.Step(P.Step(INIT.s, P.Request(1, p)), P.Release(1));
            && s.t.bound == map[] && s.sport == map[1 := p]
            && P.Step(s, P.Request(2, p)).t.bound == map[p := 2]
            && P.Step(s, P.Request(2, p)).sport == map[1 := p, 2 := p]
  {
    var s := P.Step(P.Step(INIT.s, P.Request(1, p)), P.Release(1));
    assert s.t.bound == map[];
  }

  /** Two listeners on one port: the most recent one gets the segments. */
  lemma TwoOnPort(all: seq<Sock>, j: nat, k: nat, p: u16, dst: u32)
    requires all == [Listener(j, 0, p), Listener(k, 0, p)]
    ensures !OnePerPort(all) && FirstListener(all, dst, p) == Some(Listener(j, 0, p))
  {
    assert all[1..] == [Listener(k, 0, p)];
  }

  lemma OneOnPort(all: seq<Sock>, j: nat, k: nat, p: u16)
    requires all == [Listener(j, 0, p)] && j != k
    ensures OnePerPort(all) && OfId(all, k).None? && OfId(all, j) == Some(Listener(j, 0, p))
  {
    assert all[1..] == [];
  }

  /** A failed connect, the port bound by another socket that listens, and a listen by the first: segments reach the socket that no longer owns the port. */
  lemma SharedPortExample(p: u16, dst: u32)
    requires p != 0
    ensures var w := DoAll(INIT, [Bind(1, p), FailConnect(1), Bind(2, p), Listen(2, 0), Listen(1, 0)]);
            && !OnePerPort(w.all)
            && Owns(w.s, 2) && !Owns(w.s, 1)
            && FirstListener(w.all, dst, p) == Some(Listener(1, 0, p))
  {
    PortPasses(p);
    var w1 := Do(INIT, Bind(1, p));
    var w3 := Do(Do(w1, FailConnect(1)), Bind(2, p));
    var w4 := Do(w3, Listen(2, 0));
    assert w4.all == [Listener(2, 0, p)];
    OneOnPort(w4.all, 2, 1, p);
    var w5 := Do(w4, Listen(1, 0));
    assert w5.all == [Listener(1, 0, p), Listener(2, 0, p)];
    TwoOnPort(w5.all, 1, 2, p, dst);
    DoFirst(INIT, Bind(1, p), [FailConnect(1), Bind(2, p), Listen(2, 0), Listen(1, 0)]);
    DoFour(w1, FailConnect(1), Bind(2, p), Listen(2, 0), Listen(1, 0));
    assert [Bind(1, p)] + [FailConnect(1), Bind(2, p), Listen(2, 0), Listen(1, 0)]
        == [Bind(1, p), FailConnect(1), Bind(2, p), Listen(2, 0), Listen(1, 0)];
  }

  /** The loser of the port listens first: then the owner's own listen call makes the port shared. */
  lemma SquatterExample(p: u16)
    requires p != 0
    ensures var w := DoAll(INIT, [Bind(1, p), FailConnect(1), Listen(1, 0), Bind(2, p)]);
            && OnePerPort(w.all) && Owns(w.s, 2) && !OwnerListens(w, 2) && SquatterListens(w, 2)
            && !OnePerPort(Do(w, Listen(2, 0)).all)
  {
    PortPasses(p);
    var w3 := Do(Do(Do(INIT, Bind(1, p)), FailConnect(1)), Listen(1, 0));
    assert w3.all == [Listener(1, 0, p)];
    OneOnPort(w3.all, 1, 2, p);
    var w := Do(w3, Bind(2, p));
    assert w.all[0] in w.all;
    assert Do(w, Listen(2, 0)).all == [Listener(2, 0, p), Listener(1, 0, p)];
    TwoOnPort(Do(w, Listen(2, 0)).all, 2, 1, p, 0);
    DoFour(INIT, Bind(1, p), FailConnect(1), Listen(1, 0), Bind(2, p));
  }

  /** No connect fails: an accepted connection that is reset leaves a closed socket with its listener's port, and a listen call puts it beside its parent. */
  lemma AcceptedChildExample(p: u16, dst: u32)
    requires p != 0
    ensures var w := DoAll(INIT, [Bind(1, p), Listen(1, 0), AcceptReset(2, 1), Listen(2, 0)]);
            && !OnePerPort(w.all)
            && Owns(w.s, 1) && !Owns(w.s, 2)
            && FirstListener(w.all, dst, p) == Some(Listener(2, 0, p))
  {
    var w2 := Do(Do(INIT, Bind(1, p)), Listen(1, 0));
    assert w2.all == [Listener(1, 0, p)];
    OneOnPort(w2.all, 1, 2, p);
    var w3 := Do(w2, AcceptReset(2, 1));
    assert w3.all == w2.all && w3.s.sport == map[1 := p, 2 := p] && w3.s.t.bound == map[p := 1];
    var w4 := Do(w3, Listen(2, 0));
    assert w4.all == [Listener(2, 0, p), Listener(1, 0, p)];
    TwoOnPort(w4.all, 2, 1, p, dst);
    DoFour(INIT, Bind(1, p), Listen(1, 0), AcceptReset(2, 1), Listen(2, 0));
  }
}
