/** The routing table (ip/route.c). */
module Routes {
  import opened Words
  import opened Masks

  datatype Route = Route(net: Address, mask: Address, gw: Address, metric: int, flags: nat, dev: nat)

  // ---- The list ---------------------------------------------------------------------------

  predicate Matches(r: Route, ip: Address) {
    And(r.mask, ip) == And(r.mask, r.net)
  }

  /** `rt_add`: in front of the first route whose mask is not larger. */
  function Add(rs: seq<Route>, r: Route): seq<Route> {
    if rs == [] || r.mask >= rs[0].mask then [r] + rs else [rs[0]] + Add(rs[1..], r)
  }

  /** `rt_delete`: the first route for exactly this network. */
  function Delete(rs: seq<Route>, net: Address, mask: Address): seq<Route> {
    if rs == [] then []
    else if rs[0].mask == mask && rs[0].net == net then rs[1..]
    else [rs[0]] + Delete(rs[1..], net, mask)
  }

  /** `rt_lookup`: the first route that matches. */
  function Lookup(rs: seq<Route>, ip: Address): Option<Route> {
    if rs == [] then None else if Matches(rs[0], ip) then Some(rs[0]) else Lookup(rs[1..], ip)
  }

  /** Where the insertion loop stops. */
  lemma AddAt(routes: seq<Route>, i: nat, r: Route)
    requires i <= |routes| && (i < |routes| ==> r.mask >= routes[i].mask)
    ensures routes[..i] + Add(routes[i..], r) == routes[..i] + [r] + routes[i..]
  {
    assert Add(routes[i..], r) == [r] + routes[i..];
  }

  class RouteTable {
    var routes: seq<Route>

    constructor ()
      ensures routes == []
    {
      routes := [];
    }

    method AddRoute(r: Route)
      modifies this
      ensures routes == Add(old(routes), r)
    {
      var i := 0;
      while i < |routes|
        invariant 0 <= i <= |routes|
        invariant routes == old(routes)
        invariant Add(routes, r) == routes[..i] + Add(routes[i..], r)
      {
        SliceStep(routes, i, Add(routes[i + 1..], r));
        if r.mask >= routes[i].mask {
          break;
        }
        i := i + 1;
      }
      AddAt(routes, i, r);
      routes := routes[..i] + [r] + routes[i..];
    }

    method DeleteRoute(net: Address, mask: Address)
      modifies this
      ensures routes == Delete(old(routes), net, mask)
    {
      var i := 0;
      while i < |routes|
        invariant 0 <= i <= |routes|
        invariant routes == old(routes)
        invariant Delete(routes, net, mask) == routes[..i] + Delete(routes[i..], net, mask)
      {
        SliceStep(routes, i, Delete(routes[i + 1..], net, mask));
        if routes[i].mask == mask && routes[i].net == net {
          routes := routes[..i] + routes[i + 1..];
          return;
        }
        i := i + 1;
      }
      assert routes[..i] + Delete(routes[i..], net, mask) == routes;
    }

    method LookupRoute(ip: Address) returns (o: Option<Route>)
      ensures o == Lookup(routes, ip)
    {
      var i := 0;
      while i < |routes|
        invariant 0 <= i <= |routes|
        invariant Lookup(routes, ip) == Lookup(routes[i..], ip)
      {
        if And(routes[i].mask, ip) == And(routes[i].mask, routes[i].net) {
          return Some(routes[i]);
        }
        assert routes[i..][1..] == routes[i + 1..];
        i := i + 1;
      }
      o := None;
    }
  }

  // ---- Longest prefix match ---------------------------------------------------------------

  ghost predicate Contiguous(mask: Address) {
    exists p: nat :: p <= 32 && MaskOf(p) == mask
  }

  ghost function PrefixLength(mask: Address): nat
    requires Contiguous(mask)
  {
    var p: nat :| p <= 32 && MaskOf(p) == mask;
    p
  }

  lemma PrefixOrder(a: Address, b: Address)
    requires Contiguous(a) && Contiguous(b)
    ensures a >= b <==> PrefixLength(a) >= PrefixLength(b)
  {
    MaskOrder(PrefixLength(a), PrefixLength(b));
  }

  /** The first bits of the address, as many as the prefix has, are those of the network. */
  ghost predicate InNetwork(r: Route, ip: Address) {
    Contiguous(r.mask) && Prefix(ip, PrefixLength(r.mask)) == Prefix(r.net, PrefixLength(r.mask))
  }

  lemma MatchesIffInNetwork(r: Route, ip: Address)
    requires Contiguous(r.mask)
    ensures Matches(r, ip) <==> InNetwork(r, ip)
  {
    AgreeIffPrefix(PrefixLength(r.mask), ip, r.net);
  }

  /** The reference: of the routes whose network the address is in, the longest prefix, and of these the one added last; `log` has the newest route first. */
  ghost function Best(log: seq<Route>, ip: Address): (o: Option<Route>)
    requires AllContiguous(log)
    ensures o.Some? ==> Contiguous(o.value.mask)
  {
    if log == [] then None
    else
      var o := Best(log[1..], ip);
      if InNetwork(log[0], ip) && (o.None? || PrefixLength(log[0].mask) >= PrefixLength(o.value.mask)) then Some(log[0]) else o
  }

  /** The reference in full: none exactly when the address is in no network, else a route whose network it is in, longest of all and newest of its length. */
  ghost predicate IsBest(log: seq<Route>, ip: Address, o: Option<Route>)
    requires AllContiguous(log)
  {
    match o
    case None => forall r :: r in log ==> !InNetwork(r, ip)
    case Some(b) =>
      exists i :: 0 <= i < |log| && log[i] == b && InNetwork(b, ip) &&
        (forall j :: 0 <= j < |log| && InNetwork(log[j], ip) ==> Longer(log, i, j))
  }

  /** The route at `i` goes before the one at `j`: a longer prefix, or the same and no older. */
  ghost predicate Longer(log: seq<Route>, i: nat, j: nat)
    requires AllContiguous(log) && i < |log| && j < |log|
  {
    ContiguousAt(log, i);
    ContiguousAt(log, j);
    var p, q := PrefixLength(log[i].mask), PrefixLength(log[j].mask);
    p > q || (p == q && i <= j)
  }

  lemma {:induction false} ContiguousAt(rs: seq<Route>, i: nat)
    requires AllContiguous(rs) && i < |rs|
    ensures Contiguous(rs[i].mask)
  {
    if i > 0 {
      ContiguousAt(rs[1..], i - 1);
    }
  }

  lemma {:induction false} BestIsLongest(log: seq<Route>, ip: Address)
    requires AllContiguous(log)
    ensures IsBest(log, ip, Best(log, ip))
  {
    if log != [] {
      var rest := log[1..];
      BestIsLongest(rest, ip);
      var o := Best(rest, ip);
      if o.None? {
        assert forall j :: 0 < j < |log| ==> log[j] == rest[j - 1] && log[j] in rest;
      } else {
        var i :| 0 <= i < |rest| && rest[i] == o.value && InNetwork(o.value, ip) &&
                 (forall j :: 0 <= j < |rest| && InNetwork(rest[j], ip) ==> Longer(rest, i, j));
        var k := if InNetwork(log[0], ip) && PrefixLength(log[0].mask) >= PrefixLength(o.value.mask) then 0 else i + 1;
        assert log[i + 1] == rest[i];
        forall j | 0 <= j < |log| && InNetwork(log[j], ip) ensures Longer(log, k, j) {
          if j > 0 {
            assert log[j] == rest[j - 1] && Longer(rest, i, j - 1);
          }
        }
        assert log[k] == Best(log, ip).value;
      }
    }
  }

  ghost predicate AllContiguous(rs: seq<Route>) {
    rs == [] || (Contiguous(rs[0].mask) && AllContiguous(rs[1..]))
  }

  /** Masks in descending order, none above `top`. */
  ghost predicate Descending(rs: seq<Route>, top: Address) {
    rs == [] || (rs[0].mask <= top && Descending(rs[1..], rs[0].mask))
  }

  /** The table that adding the routes of a log, oldest first, produces. */
  ghost function TableOf(log: seq<Route>): seq<Route> {
    if log == [] then [] else Add(TableOf(log[1..]), log[0])
  }

  lemma {:induction false} AddDescending(rs: seq<Route>, r: Route, top: Address)
    requires Descending(rs, top) && r.mask <= top
    ensures Descending(Add(rs, r), top)
  {
    if rs == [] || r.mask >= rs[0].mask {
      assert Add(rs, r)[1..] == rs;
    } else {
      AddDescending(rs[1..], r, rs[0].mask);
      assert Add(rs, r)[1..] == Add(rs[1..], r);
    }
  }

  lemma {:induction false} TableDescending(log: seq<Route>)
    ensures Descending(TableOf(log), 0xffff_ffff)
  {
    if log != [] {
      TableDescending(log[1..]);
      AddDescending(TableOf(log[1..]), log[0], 0xffff_ffff);
    }
  }

  /** Deleting undoes the last addition for the same network, and passes any other. */
  lemma {:induction false} DeleteAfterAdd(rs: seq<Route>, r: Route, net: Address, mask: Address, top: Address)
    requires Descending(rs, top)
    ensures Delete(Add(rs, r), net, mask) == if r.net == net && r.mask == mask then rs else Add(Delete(rs, net, mask), r)
  {
    var a := Add(rs, r);
    if rs == [] || r.mask >= rs[0].mask {
      assert a[1..] == rs;
      if !(r.net == net && r.mask == mask) {
        DeletedHead(rs, net, mask, top, r);
      }
    } else {
      assert a[1..] == Add(rs[1..], r);
      DeleteAfterAdd(rs[1..], r, net, mask, rs[0].mask);
      if rs[0].mask == mask && rs[0].net == net {
        assert Delete(rs, net, mask) == rs[1..];
      } else {
        assert Delete(rs, net, mask)[1..] == Delete(rs[1..], net, mask);
      }
    }
  }

  lemma DeletedHead(rs: seq<Route>, net: Address, mask: Address, top: Address, r: Route)
    requires Descending(rs, top) && (rs == [] || r.mask >= rs[0].mask)
    ensures Add(Delete(rs, net, mask), r) == [r] + Delete(rs, net, mask)
  {
  }

  lemma {:induction false} DeleteCommutes(log: seq<Route>, net: Address, mask: Address)
    ensures Delete(TableOf(log), net, mask) == TableOf(Delete(log, net, mask))
  {
    if log != [] {
      DeleteCommutes(log[1..], net, mask);
      TableDescending(log[1..]);
      DeleteAfterAdd(TableOf(log[1..]), log[0], net, mask, 0xffff_ffff);
      if !(log[0].mask == mask && log[0].net == net) {
        assert Delete(log, net, mask)[1..] == Delete(log[1..], net, mask);
      }
    }
  }

  lemma {:induction false} LookupAtMost(rs: seq<Route>, ip: Address, top: Address)
    requires Descending(rs, top)
    ensures Lookup(rs, ip).Some? ==> Lookup(rs, ip).value.mask <= top
  {
    if rs != [] {
      LookupAtMost(rs[1..], ip, rs[0].mask);
    }
  }

  lemma {:induction false} LookupAfterAdd(rs: seq<Route>, r: Route, ip: Address, top: Address)
    requires Descending(rs, top)
    ensures var o := Lookup(rs, ip);
            Lookup(Add(rs, r), ip) == if Matches(r, ip) && (o.None? || r.mask >= o.value.mask) then Some(r) else o
  {
    if rs == [] || r.mask >= rs[0].mask {
      assert Add(rs, r)[1..] == rs;
      if rs != [] {
        LookupAtMost(rs[1..], ip, rs[0].mask);
      }
    } else {
      assert Add(rs, r)[1..] == Add(rs[1..], r);
      LookupAfterAdd(rs[1..], r, ip, rs[0].mask);
    }
  }

  lemma {:induction false} LookupIsBest(log: seq<Route>, ip: Address)
    requires AllContiguous(log)
    ensures Lookup(TableOf(log), ip) == Best(log, ip)
  {
    if log != [] {
      LookupIsBest(log[1..], ip);
      TableDescending(log[1..]);
      LookupAfterAdd(TableOf(log[1..]), log[0], ip, 0xffff_ffff);
      MatchesIffInNetwork(log[0], ip);
      var o := Best(log[1..], ip);
      if o.Some? {
        PrefixOrder(log[0].mask, o.value.mask);
      }
    }
  }

  // ---- Runs -------------------------------------------------------------------------------

  datatype Op = AddOp(r: Route) | DeleteOp(net: Address, mask: Address)

  ghost function Apply(rs: seq<Route>, ops: seq<Op>): seq<Route>
    decreases ops
  {
    if ops == [] then rs
    else Apply(if ops[0].AddOp? then Add(rs, ops[0].r) else Delete(rs, ops[0].net, ops[0].mask), ops[1..])
  }

  /** The routes that survive, newest first: a deletion removes the last addition for the same network. */
  ghost function Survivors(log: seq<Route>, ops: seq<Op>): seq<Route>
    decreases ops
  {
    if ops == [] then log
    else Survivors(if ops[0].AddOp? then [ops[0].r] + log else Delete(log, ops[0].net, ops[0].mask), ops[1..])
  }

  lemma {:induction false} ApplyKeepsTable(log: seq<Route>, ops: seq<Op>)
    ensures Apply(TableOf(log), ops) == TableOf(Survivors(log, ops))
    decreases ops
  {
    if ops != [] {
      if ops[0].AddOp? {
        assert ([ops[0].r] + log)[1..] == log;
        ApplyKeepsTable([ops[0].r] + log, ops[1..]);
      } else {
        DeleteCommutes(log, ops[0].net, ops[0].mask);
        ApplyKeepsTable(Delete(log, ops[0].net, ops[0].mask), ops[1..]);
      }
    }
  }

  /** After any additions and deletions the lookup is longest prefix match among the surviving routes. */
  lemma LongestPrefixMatch(ops: seq<Op>, ip: Address)
    requires AllContiguous(Survivors([], ops))
    ensures IsBest(Survivors([], ops), ip, Lookup(Apply([], ops), ip))
  {
    ApplyKeepsTable([], ops);
    LookupIsBest(Survivors([], ops), ip);
    BestIsLongest(Survivors([], ops), ip);
  }
}
