/**
 * TCP port binding as the map it stands for: which socket owns each bound port, how many automatic
 * ports are counted as free, and where the automatic search resumes (tcp/tcp_sock.c).
 * Ports are kept in network order, the search runs in host order.
 */
module Ports {
  import opened Words

  const PORT_MIN: u16 := 0x8000
  const PORT_MAX: u16 := 0xf000
  const SPAN := 0x7001

  datatype Table = Table(bound: map<u16, nat>, bfree: int, defport: u16)

  const INIT := Table(map[], SPAN, PORT_MIN)

  function NextPort(p: u16): u16 {
    if p + 1 > PORT_MAX then PORT_MIN else p + 1
  }

  predicate InRange(p: u16) {
    PORT_MIN <= p <= PORT_MAX
  }

  /** The search loop of `tcp_get_port`, cut off after `tries` used ports. */
  function Scan(bound: map<u16, nat>, p: u16, tries: nat): u16
    decreases tries
  {
    if tries == 0 || Swap16(p) !in bound then p else Scan(bound, NextPort(p), tries - 1)
  }

  /** `tcp_set_sport`: port 0 asks for any free automatic port. */
  function Bind(t: Table, sock: nat, nport: u16): (Table, Option<u16>) {
    if nport != 0 then
      if nport in t.bound then (t, None)
      else (t.(bound := t.bound[nport := sock], bfree := t.bfree - 1), Some(nport))
    else if t.bfree <= 0 then (t, None)
    else
      var p := Scan(t.bound, t.defport, SPAN);
      (Table(t.bound[Swap16(p) := sock], t.bfree - 1, NextPort(p)), Some(Swap16(p)))
  }

  /** `tcp_unbhash`: nothing happens unless the socket itself hangs in the table. */
  function Unbind(t: Table, sock: nat, nport: u16): Table {
    if nport in t.bound && t.bound[nport] == sock then t.(bound := t.bound - {nport}, bfree := t.bfree + 1) else t
  }

  // ----- the automatic search -----

  lemma SwapTwice(x: u16)
    ensures Swap16(Swap16(x)) == x
  {
    assert x == x / 256 * 256 + x % 256;
  }

  /** The port `k` places after `p` on the circle of automatic ports. */
  function PortAt(p: u16, k: nat): u16
    requires InRange(p) && k < SPAN
  {
    if p + k <= PORT_MAX then p + k else p + k - SPAN
  }

  /** If `n` automatic ports are all in a set, the set has at least `n` elements. */
  lemma {:induction false} AllBound(keys: set<u16>, n: nat)
    requires n <= SPAN
    requires forall p: u16 :: PORT_MIN <= p < PORT_MIN + n ==> Swap16(p) in keys
    ensures |keys| >= n
  {
    if n > 0 {
      var last: u16 := PORT_MIN + n - 1;
      var rest := keys - {Swap16(last)};
      forall p: u16 | PORT_MIN <= p < PORT_MIN + (n - 1) ensures Swap16(p) in rest {
        SwapTwice(p);
        SwapTwice(last);
      }
      AllBound(rest, n - 1);
    }
  }

  /** Fewer bound ports than automatic ports leave an automatic port free. */
  lemma FreePort(bound: map<u16, nat>, d: u16) returns (k: nat)
    requires InRange(d) && |bound| < SPAN
    ensures k < SPAN && Swap16(PortAt(d, k)) !in bound
  {
    if p: u16 :| InRange(p) && Swap16(p) !in bound {
      k := if p >= d then p - d else p - d + SPAN;
      assert PortAt(d, k) == p;
    } else {
      AllBound(bound.Keys, SPAN);
      assert false;
    }
  }

  /** Only used ports lie before the place `k` on the circle from `d`. */
  ghost predicate UsedBefore(bound: map<u16, nat>, d: u16, k: nat)
    requires InRange(d) && k < SPAN
  {
    forall j :: 0 <= j < k ==> Swap16(PortAt(d, j)) in bound
  }

  /** With a free port `k` places ahead the search ends at the first free port, no later than that. */
  lemma {:induction false} ScanFinds(bound: map<u16, nat>, d: u16, tries: nat, k: nat) returns (i: nat)
    requires InRange(d) && k < tries <= SPAN && Swap16(PortAt(d, k)) !in bound
    ensures i <= k && Scan(bound, d, tries) == PortAt(d, i) && Swap16(PortAt(d, i)) !in bound && UsedBefore(bound, d, i)
    decreases tries
  {
    if Swap16(d) !in bound {
      i := 0;
    } else {
      var i1 := ScanFinds(bound, NextPort(d), tries - 1, k - 1);
      i := i1 + 1;
      forall j | 0 <= j < i ensures Swap16(PortAt(d, j)) in bound {
        if j > 0 {
          assert PortAt(d, j) == PortAt(NextPort(d), j - 1);
        }
      }
    }
  }

  // ----- runs of bind and release -----

  /** What a user does to sockets: `inet_bind`, or the automatic bind when the port is 0, and release of the port. */
  datatype Event = Request(sock: nat, nport: u16) | Release(sock: nat)

  /** The table with each socket's `sk_sport`, which release leaves set. */
  datatype Sockets = Sockets(t: Table, sport: map<nat, u16>)

  function Step(s: Sockets, e: Event): Sockets {
    match e
    case Request(k, nport) =>
      if k in s.sport then s
      else
        var (t, got) := Bind(s.t, k, nport);
        if got.None? then Sockets(t, s.sport) else Sockets(t, s.sport[k := got.value])
    case Release(k) =>
      if k in s.sport then s.(t := Unbind(s.t, k, s.sport[k])) else s
  }

  function Run(s: Sockets, es: seq<Event>): Sockets
    decreases |es|
  {
    if es == [] then s else Run(Step(s, es[0]), es[1..])
  }

  /** The count of free ports balances, and each bound port is the port of its own socket. */
  ghost predicate Inv(s: Sockets) {
    && s.t.bfree + |s.t.bound| == SPAN
    && InRange(s.t.defport)
    && 0 !in s.t.bound
    && forall p :: p in s.t.bound ==> s.t.bound[p] in s.sport && s.sport[s.t.bound[p]] == p
  }

  /** A count above zero lets every automatic request succeed with the first free automatic port. */
  lemma AutoBind(t: Table, sock: nat) returns (i: nat)
    requires t.bfree + |t.bound| == SPAN && InRange(t.defport)
    requires t.bfree > 0
    ensures i < SPAN && UsedBefore(t.bound, t.defport, i)
    ensures var p := PortAt(t.defport, i);
            && InRange(p) && Swap16(p) != 0 && Swap16(p) !in t.bound
            && Bind(t, sock, 0) == (Table(t.bound[Swap16(p) := sock], t.bfree - 1, NextPort(p)), Some(Swap16(p)))
  {
    var k := FreePort(t.bound, t.defport);
    i := ScanFinds(t.bound, t.defport, SPAN, k);
    SwapTwice(PortAt(t.defport, i));
  }

  /** A request fails exactly when its port is taken, or no port is named and as many ports are bound as there are automatic ones. */
  lemma BindFailsIff(t: Table, sock: nat, nport: u16)
    requires t.bfree + |t.bound| == SPAN && InRange(t.defport)
    ensures Bind(t, sock, nport).1.None? <==> if nport != 0 then nport in t.bound else |t.bound| >= SPAN
    ensures Bind(t, sock, nport).1.None? ==> Bind(t, sock, nport).0 == t
  {
    if nport == 0 && t.bfree > 0 {
      var i := AutoBind(t, sock);
    }
  }

  lemma BindKeepsInv(s: Sockets, k: nat, nport: u16)
    requires Inv(s) && k !in s.sport
    ensures Inv(Step(s, Request(k, nport)))
  {
    if nport == 0 && s.t.bfree > 0 {
      var i := AutoBind(s.t, k);
    }
  }

  lemma UnbindKeepsInv(s: Sockets, k: nat)
    requires Inv(s)
    ensures Inv(Step(s, Release(k)))
  {
    if k in s.sport && s.sport[k] in s.t.bound && s.t.bound[s.sport[k]] == k {
      RemoveCounts(s.t.bound, s.sport[k]);
    }
  }

  lemma RemoveCounts(m: map<u16, nat>, p: u16)
    requires p in m
    ensures |m - {p}| == |m| - 1
  {
    assert m == (m - {p})[p := m[p]];
  }

  lemma {:induction false} RunKeepsInv(s: Sockets, es: seq<Event>)
    requires Inv(s)
    ensures Inv(Run(s, es))
    decreases |es|
  {
    if es != [] {
      match es[0] {
        case Request(k, nport) => if k !in s.sport { BindKeepsInv(s, k, nport); }
        case Release(k) => UnbindKeepsInv(s, k);
      }
      RunKeepsInv(Step(s, es[0]), es[1..]);
    }
  }

  /**
   * After every run of binds and releases the free count and the bound ports add up to the automatic range,
   * two bound ports belong to two sockets, and the next automatic request gets an unused automatic port
   * if and only if fewer ports are bound than the range holds.
   */
  lemma PortsOverRuns(es: seq<Event>, k: nat)
    ensures var s := Run(Sockets(INIT, map[]), es);
            && s.t.bfree + |s.t.bound| == SPAN
            && (forall p, q :: p in s.t.bound && q in s.t.bound && p != q ==> s.t.bound[p] != s.t.bound[q])
            && (Bind(s.t, k, 0).1.Some? <==> |s.t.bound| < SPAN)
            && (Bind(s.t, k, 0).1.Some? ==>
                  && Bind(s.t, k, 0).1.value !in s.t.bound
                  && InRange(Swap16(Bind(s.t, k, 0).1.value)))
  {
    RunKeepsInv(Sockets(INIT, map[]), es);
    var s := Run(Sockets(INIT, map[]), es);
    BindFailsIff(s.t, k, 0);
    if s.t.bfree > 0 {
      var i := AutoBind(s.t, k);
      SwapTwice(PortAt(s.t.defport, i));
    }
  }

  /** Releasing a port just bound restores the bindings and the count. */
  lemma ReleaseUndoesBind(t: Table, sock: nat, nport: u16)
    requires t.bfree + |t.bound| == SPAN && InRange(t.defport)
    ensures var (t1, got) := Bind(t, sock, nport);
            got.Some? ==> Unbind(t1, sock, got.value) == t.(defport := t1.defport)
  {
    if nport != 0 {
      if nport !in t.bound {
        assert t.bound[nport := sock] - {nport} == t.bound;
      }
    } else if t.bfree > 0 {
      var i := AutoBind(t, sock);
      var p := Swap16(PortAt(t.defport, i));
      assert t.bound[p := sock] - {p} == t.bound;
    }
  }
}
