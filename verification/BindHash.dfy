/** The bind hash table of 256 buckets, proved against the port map (tcp/tcp_sock.c, include/tcp_hash.h). */
module BindHash {
  import opened Words
  import opened Ports

  const BHASH_SIZE := 256

  /** A socket hanging in the bind table. */
  datatype Node = Node(sock: nat, port: u16)

  function Bucket(nport: u16): nat {
    Swap16(nport) % BHASH_SIZE
  }

  /** The owner of a port as a walk down the bucket finds it. */
  function Owner(ns: seq<Node>, p: u16): Option<nat> {
    if ns == [] then None else if ns[0].port == p then Some(ns[0].sock) else Owner(ns[1..], p)
  }

  predicate DistinctPorts(ns: seq<Node>) {
    ns == [] || (Owner(ns[1..], ns[0].port).None? && DistinctPorts(ns[1..]))
  }

  function OwnerIn(bound: map<u16, nat>, p: u16): Option<nat> {
    if p in bound then Some(bound[p]) else None
  }

  /** A bucket holds exactly the bound ports that hash to it, each once. */
  ghost predicate BucketOk(ns: seq<Node>, h: nat, bound: map<u16, nat>) {
    && DistinctPorts(ns)
    && forall p: u16 :: Owner(ns, p) == if Bucket(p) == h then OwnerIn(bound, p) else None
  }

  lemma {:induction false} OwnerFrom(ns: seq<Node>, p: u16, i: nat)
    requires i <= |ns| && forall j :: 0 <= j < i ==> ns[j].port != p
    ensures Owner(ns, p) == Owner(ns[i..], p)
  {
    if i > 0 {
      OwnerFrom(ns[1..], p, i - 1);
      assert ns[1..][i - 1..] == ns[i..];
    } else {
      assert ns[0..] == ns;
    }
  }

  lemma {:induction false} OwnerIsLinked(ns: seq<Node>, n: Node)
    requires DistinctPorts(ns)
    ensures n in ns <==> Owner(ns, n.port) == Some(n.sock)
  {
    if ns != [] {
      OwnerIsLinked(ns[1..], n);
      assert n in ns <==> n == ns[0] || n in ns[1..];
    }
  }

  lemma {:induction false} UnlinkRemoves(ns: seq<Node>, n: Node, p: u16)
    requires DistinctPorts(ns) && Owner(ns, n.port) == Some(n.sock)
    ensures Owner(Unlink(ns, n), p) == if p == n.port then None else Owner(ns, p)
  {
    if ns[0] != n {
      UnlinkRemoves(ns[1..], n, p);
    }
  }

  lemma {:induction false} UnlinkStaysDistinct(ns: seq<Node>, n: Node)
    requires DistinctPorts(ns) && Owner(ns, n.port) == Some(n.sock)
    ensures DistinctPorts(Unlink(ns, n))
  {
    if ns[0] != n {
      UnlinkStaysDistinct(ns[1..], n);
      UnlinkRemoves(ns[1..], n, ns[0].port);
    }
  }

  lemma LinkKeepsBucket(ns: seq<Node>, h: nat, bound: map<u16, nat>, n: Node)
    requires BucketOk(ns, h, bound) && n.port !in bound && Bucket(n.port) == h
    ensures BucketOk([n] + ns, h, bound[n.port := n.sock])
  {
    assert ([n] + ns)[1..] == ns;
  }

  lemma UnlinkKeepsBucket(ns: seq<Node>, h: nat, bound: map<u16, nat>, n: Node)
    requires BucketOk(ns, h, bound) && n.port in bound && bound[n.port] == n.sock && Bucket(n.port) == h
    ensures BucketOk(Unlink(ns, n), h, bound - {n.port})
  {
    UnlinkStaysDistinct(ns, n);
    forall p: u16 ensures Owner(Unlink(ns, n), p) == if Bucket(p) == h then OwnerIn(bound - {n.port}, p) else None {
      UnlinkRemoves(ns, n, p);
    }
  }

  class BindTable {
    const buckets: array<seq<Node>>
    var bfree: int
    var defport: u16
    ghost var bound: map<u16, nat>

    ghost predicate Valid()
      reads this`bound, buckets
    {
      && buckets.Length == BHASH_SIZE
      && forall h :: 0 <= h < BHASH_SIZE ==> BucketOk(buckets[h], h, bound)
    }

    ghost function View(): Table
      reads this
    {
      Table(bound, bfree, defport)
    }

    constructor ()
      ensures Valid() && fresh(buckets) && View() == INIT
    {
      buckets := new seq<Node>[BHASH_SIZE](_ => []);
      bfree := PORT_MAX - PORT_MIN + 1;
      defport := PORT_MIN;
      bound := map[];
    }

    /** `tcp_port_used`. */
    method PortUsed(nport: u16) returns (used: bool)
      requires Valid()
      ensures used == (nport in bound)
    {
      var ns := buckets[Bucket(nport)];
      var i := 0;
      while i < |ns|
        invariant 0 <= i <= |ns| && forall j :: 0 <= j < i ==> ns[j].port != nport
      {
        if ns[i].port == nport {
          OwnerFrom(ns, nport, i);
          return true;
        }
        i := i + 1;
      }
      OwnerFrom(ns, nport, i);
      return false;
    }

    /** `tcp_get_port`: the search has no bound of its own and ends because a port is free. */
    method GetPort() returns (nport: u16)
      requires Valid() && bfree + |bound| == SPAN && InRange(defport)
      modifies this`defport
      ensures bfree <= 0 ==> nport == 0 && defport == old(defport)
      ensures bfree > 0 ==> var p := Scan(bound, old(defport), SPAN); nport == Swap16(p) && defport == NextPort(p)
    {
      if bfree <= 0 {
        return 0;
      }
      ghost var k := FreePort(bound, defport);
      ghost var first := ScanFinds(bound, defport, SPAN, k);
      ghost var tried := 0;
      var used := PortUsed(Swap16(defport));
      while used
        invariant InRange(defport) && tried <= first
        invariant defport == PortAt(old(defport), tried) && used == (Swap16(defport) in bound)
        decreases first - tried
      {
        defport := if defport + 1 > PORT_MAX then PORT_MIN else defport + 1;
        tried := tried + 1;
        used := PortUsed(Swap16(defport));
      }
      nport := Swap16(defport);
      defport := if defport + 1 > PORT_MAX then PORT_MIN else defport + 1;
    }

    /** `tcp_set_sport`. */
    method SetSport(sock: nat, nport: u16) returns (got: Option<u16>)
      requires Valid() && bfree + |bound| == SPAN && InRange(defport)
      modifies this, buckets
      ensures Valid() && bfree + |bound| == SPAN && InRange(defport)
      ensures (View(), got) == Bind(old(View()), sock, nport)
    {
      var port := nport;
      if nport != 0 {
        var used := PortUsed(nport);
        if used {
          return None;
        }
      } else {
        if bfree > 0 {
          ghost var i := AutoBind(View(), sock);
        }
        port := GetPort();
        if port == 0 {
          return None;
        }
      }
      Link(sock, port);
      got := Some(port);
    }

    /** `tcp_bhash`, with the free count taken down. */
    method Link(sock: nat, port: u16)
      requires Valid() && port !in bound
      modifies this`bfree, this`bound, buckets
      ensures Valid() && bound == old(bound)[port := sock] && bfree == old(bfree) - 1
    {
      var h := Bucket(port);
      LinkKeepsBucket(buckets[h], h, bound, Node(sock, port));
      bfree := bfree - 1;
      buckets[h] := [Node(sock, port)] + buckets[h];
      bound := bound[port := sock];
    }

    /** `tcp_unbhash` on the node of a socket. */
    method Unbhash(sock: nat, port: u16)
      requires Valid()
      modifies this`bfree, this`bound, buckets
      ensures Valid() && View() == Unbind(old(View()), sock, port)
    {
      var h := Bucket(port);
      OwnerIsLinked(buckets[h], Node(sock, port));
      if Node(sock, port) in buckets[h] {
        UnlinkKeepsBucket(buckets[h], h, bound, Node(sock, port));
        bfree := bfree + 1;
        buckets[h] := Unlink(buckets[h], Node(sock, port));
        bound := bound - {port};
      }
    }
  }
}
