/** The Internet checksum (lib/checksum.c; RFC 1071) and the adjustment for echo replies (ip/icmp.c; RFC 1624). */
module Checksum {
  import opened Words

  // ---- The sum ----------------------------------------------------------------------------

  /** The 16-bit words of a buffer as a little-endian host loads them; an odd last byte is a word of its own. */
  function Sum(data: seq<byte>): nat {
    if |data| >= 2 then (data[0] as int) + 256 * (data[1] as int) + Sum(data[2..])
    else if |data| == 1 then data[0]
    else 0
  }

  method SumLoop(data: seq<byte>, origsum: u32) returns (total: u32)
    ensures total == Wrap32(origsum + Sum(data))
  {
    total := origsum;
    var i := 0;
    var size := |data|;
    while size > 1
      invariant 0 <= i && 0 <= size && i + size == |data|
      invariant Wrap32(origsum + Sum(data)) == Wrap32(total + Sum(data[i..]))
    {
      var word := (data[i] as int) + 256 * (data[i + 1] as int);
      assert data[i..][2..] == data[i + 2..];
      WrapAdd(total + word, Sum(data[i + 2..]));
      total := Wrap32(total + word);
      i := i + 2;
      size := size - 2;
    }
    if size != 0 {
      total := Wrap32(total + data[i]);
    }
  }

  /** Adding the high half to the low half. */
  function Fold(s: nat): nat {
    s % U16_SIZE + s / U16_SIZE
  }

  // ---- Ones' complement arithmetic --------------------------------------------------------

  /** The ones' complement sum of words that add up to `n`: every carry out of 16 bits comes back as 1. */
  function Ones(n: nat): (r: nat)
    ensures r <= 0xffff && (r == 0 <==> n == 0)
  {
    if n <= 0xffff then n else Ones(n - 0xffff)
  }

  lemma {:induction false} OnesMod(n: nat)
    ensures Ones(n) % 0xffff == n % 0xffff
    ensures Ones(n) == 0xffff <==> n > 0 && n % 0xffff == 0
  {
    if n > 0xffff {
      OnesMod(n - 0xffff);
    }
  }

  lemma OnesIsUnique(n: nat, r: nat)
    requires r <= 0xffff && (r == 0 <==> n == 0) && r % 0xffff == n % 0xffff
    ensures r == Ones(n)
  {
    OnesMod(n);
  }

  lemma DropMultiple(k: nat, x: nat)
    ensures (0xffff * k + x) % 0xffff == x % 0xffff
  {
  }

  lemma FoldKeeps(s: nat)
    ensures Fold(s) % 0xffff == s % 0xffff && (Fold(s) == 0 <==> s == 0)
  {
    DropMultiple(s / U16_SIZE, Fold(s));
    assert s == 0xffff * (s / U16_SIZE) + Fold(s);
  }

  /** Two folds of a 32-bit sum give its ones' complement sum. */
  lemma TwoFolds(s: u32)
    ensures Fold(Fold(s)) == Ones(s)
  {
    FoldKeeps(s);
    FoldKeeps(Fold(s));
    OnesIsUnique(s, Fold(Fold(s)));
  }

  /** The complement of the ones' complement sum, which the code keeps in 32 bits. */
  function Checksum(data: seq<byte>, origsum: u32): u16 {
    0xffff - Ones(Wrap32(origsum + Sum(data)))
  }

  /** `checksum`: sum, fold twice, complement. */
  method ComputeChecksum(data: seq<byte>, origsum: u32) returns (c: u16)
    ensures c == Checksum(data, origsum)
  {
    var total := SumLoop(data, origsum);
    TwoFolds(total);
    var folded := total % U16_SIZE + total / U16_SIZE;
    folded := folded % U16_SIZE + folded / U16_SIZE;
    c := 0xffff - folded;
  }

  // ---- Setting and checking ---------------------------------------------------------------

  function Word(data: seq<byte>, k: nat): (w: u16)
    requires 2 * k + 1 < |data|
  {
    (data[2 * k] as int) + 256 * (data[2 * k + 1] as int)
  }

  function SetWord(data: seq<byte>, k: nat, w: u16): (d: seq<byte>)
    requires 2 * k + 1 < |data|
    ensures |d| == |data|
  {
    data[2 * k := w % 256][2 * k + 1 := w / 256]
  }

  lemma {:induction false} SumAfterSet(data: seq<byte>, k: nat, w: u16)
    requires 2 * k + 1 < |data|
    ensures Sum(data) >= Word(data, k)
    ensures Sum(SetWord(data, k, w)) == Sum(data) - Word(data, k) + w
  {
    var d := SetWord(data, k, w);
    if k == 0 {
      assert d[2..] == data[2..];
    } else {
      SumAfterSet(data[2..], k - 1, w);
      assert d[2..] == SetWord(data[2..], k - 1, w);
    }
  }

  /** The buffer with the checksum of the rest in word `k`; UDP sends 0xffff in place of 0. */
  function WithChecksum(data: seq<byte>, k: nat, origsum: u32, udp: bool): seq<byte>
    requires 2 * k + 1 < |data|
  {
    var blank := SetWord(data, k, 0);
    var c := Checksum(blank, origsum);
    SetWord(blank, k, if udp && c == 0 then 0xffff else c)
  }

  /** `ip_set_checksum`, `tcp_set_checksum` and `udp_set_checksum`, which differ in the starting sum and in `udp`. */
  method SetChecksum(a: array<byte>, k: nat, origsum: u32, udp: bool)
    requires 2 * k + 1 < a.Length
    modifies a
    ensures a[..] == WithChecksum(old(a[..]), k, origsum, udp)
  {
    a[2 * k], a[2 * k + 1] := 0, 0;
    assert a[..] == SetWord(old(a[..]), k, 0);
    var c := ComputeChecksum(a[..], origsum);
    if udp && c == 0 {
      c := 0xffff;
    }
    a[2 * k], a[2 * k + 1] := c % 256, c / 256;
  }

  /**
   Checking what was set: the buffer verifies, for IP and TCP always and for UDP unless the 32-bit sum of
   the rest is its largest value, where the substituted 0xffff wraps it.
   */
  lemma SetThenCheck(data: seq<byte>, k: nat, origsum: u32, udp: bool)
    requires 2 * k + 1 < |data|
    ensures Checksum(WithChecksum(data, k, origsum, udp), origsum) == 0 <==>
            !(udp && Wrap32(origsum + Sum(SetWord(data, k, 0))) == 0xffff_ffff)
  {
    var blank := SetWord(data, k, 0);
    var d := WithChecksum(data, k, origsum, udp);
    var c := Word(d, k);
    SumAfterSet(blank, k, c);
    assert d == SetWord(blank, k, c) && Sum(d) == Sum(blank) + c;
    WrapAdd(origsum + Sum(blank), c);
    SetSum(Wrap32(origsum + Sum(blank)), c, udp);
  }

  /** A sum is a multiple of 0xffff and its ones' complement sum. */
  lemma {:induction false} OnesSplit(n: nat) returns (q: nat)
    ensures n == 0xffff * q + Ones(n)
  {
    if n <= 0xffff {
      q := 0;
    } else {
      var q1 := OnesSplit(n - 0xffff);
      q := q1 + 1;
    }
  }

  /** The sum of a buffer with its checksum, from the sum of the rest. */
  lemma SetSum(s: u32, c: u16, udp: bool)
    requires c == if udp && Ones(s) == 0xffff then 0xffff else 0xffff - Ones(s)
    ensures Ones(Wrap32(s + c)) == 0xffff <==> !(udp && s == 0xffff_ffff)
  {
    var q := OnesSplit(s);
    if udp && Ones(s) == 0xffff {
      SubstitutedSum(s, q);
    } else {
      ComplementedSum(s, q, Ones(s));
      if s == 0xffff_ffff {
        assert Ones(s) == 0xffff by { OnesAt(s, 0x1_0000, 0xffff); }
      }
    }
  }

  /** The complement of the ones' complement sum fills the sum up to a multiple of 0xffff that fits 32 bits. */
  lemma ComplementedSum(s: u32, q: nat, r: nat)
    requires s == 0xffff * q + r && r <= 0xffff && (r == 0 <==> s == 0)
    ensures s + (0xffff - r) < U32_SIZE && Ones(s + (0xffff - r)) == 0xffff
  {
    OnesAt(s + (0xffff - r), q, 0xffff);
  }

  /** Adding 0xffff to a multiple of 0xffff keeps it one, unless the sum wraps. */
  lemma SubstitutedSum(s: u32, q: nat)
    requires s == 0xffff * q + 0xffff
    ensures Ones(Wrap32(s + 0xffff)) == 0xffff <==> s != 0xffff_ffff
  {
    if s == 0xffff_ffff {
      OnesAt(Wrap32(s + 0xffff), 0, 0xfffe);
    } else {
      assert q < 0x1_0000;
      OnesAt(s + 0xffff, q + 1, 0xffff);
    }
  }

  lemma SumStep(data: seq<byte>, k: nat)
    requires 2 * k + 1 < |data|
    ensures Sum(data[2 * k..]) == Word(data, k) + Sum(data[2 * k + 2..])
  {
    assert data[2 * k..][2..] == data[2 * k + 2..];
  }

  /**
   A UDP datagram of 8 bytes from 10.0.0.1 to 10.222.255.254: the sum is 0xffffffff and the checksum 0, 0xffff
   goes out for it, and the receiver's sum wraps to 0xfffe.
   */
  lemma UdpSumWraps(src: u32, dst: u32, proto: u16, data: seq<byte>, sum: u32)
    requires src == 0x0100_000a && dst == 0xfeff_de0a && proto == 17 && sum == PseudoSum(src, dst, proto, 8)
    requires data == [0xea, 0, 1, 0, 0, 8, 0, 0]
    ensures sum + Sum(SetWord(data, 3, 0)) == 0xffff_ffff
    ensures WithChecksum(data, 3, sum, true) == [0xea, 0, 1, 0, 0, 8, 0xff, 0xff]
    ensures Checksum(WithChecksum(data, 3, sum, true), sum) == 1
  {
    UdpHeaderSum(data);
    assert SetWord(data, 3, 0) == data && Swap16(proto) == 0x1100 && Swap16(8) == 0x800;
    SumAfterSet(data, 3, 0xffff);
    LastSum(sum + Sum(data));
  }

  lemma UdpHeaderSum(data: seq<byte>)
    requires data == [0xea, 0, 1, 0, 0, 8, 0, 0]
    ensures Sum(data) == 0x8eb
  {
    SumStep(data, 0);
    SumStep(data, 1);
    SumStep(data, 2);
    SumStep(data, 3);
    assert data[0..] == data && data[8..] == [];
  }

  lemma LastSum(total: u32)
    requires total == 0xffff_ffff
    ensures Ones(total) == 0xffff && Ones(Wrap32(total + 0xffff)) == 0xfffe
  {
    OnesAt(total, 0x1_0000, 0xffff);
    OnesAt(Wrap32(total + 0xffff), 0, 0xfffe);
  }

  lemma OnesAt(n: nat, q: nat, r: nat)
    requires n == 0xffff * q + r && 0 < r <= 0xffff
    ensures Ones(n) == r
  {
    DropMultiple(q, r);
    OnesIsUnique(n, r);
  }

  /** The pseudo header of TCP and UDP as the code adds it up, in 32 bits. */
  function PseudoSum(src: u32, dst: u32, proto: u16, len: u16): nat {
    Swap16(proto) + Swap16(len) + src + dst
  }

  /**
   `tcp_udp_chksum` is the checksum of RFC 1071 if and only if the 32-bit sum of pseudo header
   and data does not overflow; each lost carry is worth 1.
   */
  lemma PseudoChecksumIffNoOverflow(src: u32, dst: u32, proto: u16, len: u16, data: seq<byte>)
    requires |data| <= 0xffff
    ensures var total := PseudoSum(src, dst, proto, len) + Sum(data);
            Checksum(data, Wrap32(PseudoSum(src, dst, proto, len))) == 0xffff - Ones(total) <==> total < U32_SIZE
  {
    var pseudo := PseudoSum(src, dst, proto, len);
    SumIsBounded(data);
    WrapAdd(pseudo, Sum(data));
    LostCarries(pseudo + Sum(data));
  }

  /** A SYN between two ports 8080: sequence number 1, header length 20, window 4096, and 0 in the checksum field. */
  predicate SynHeader(data: seq<byte>) {
    && |data| == 20
    && Word(data, 0) == Word(data, 1) == 0x901f && Word(data, 2) == 0 && Word(data, 3) == 0x100
    && Word(data, 4) == Word(data, 5) == 0 && Word(data, 6) == 0x250 && Word(data, 7) == 0x10
    && Word(data, 8) == Word(data, 9) == 0
  }

  /** A TCP header without text between two hosts 192.168.1.200: the addresses alone overflow the 32-bit sum, and the checksum is one too large. */
  lemma PseudoSumOverflows(host: u32, proto: u16, data: seq<byte>)
    requires host == 0xc801_a8c0 && proto == 6 && SynHeader(data)
    ensures var pseudo := PseudoSum(host, host, proto, |data|);
            Checksum(data, Wrap32(pseudo)) == 0xffff - Ones(pseudo + Sum(data)) + 1
  {
    TcpHeaderSum(data);
    assert Swap16(proto) == 0x600 && Swap16(20) == 0x1400;
    OneCarryLost(PseudoSum(host, host, proto, |data|), Sum(data));
  }

  lemma OneCarryLost(pseudo: nat, sum: nat)
    requires pseudo == 0x1_9003_6b80 && sum == 0x1_239e
    ensures Ones(Wrap32(Wrap32(pseudo) + sum)) + 1 == Ones(pseudo + sum)
  {
    OnesAt(pseudo + sum, 0x1_9006, 0x1f24);
    OnesAt(pseudo + sum - U32_SIZE, 0x9005, 0x1f23);
  }

  lemma SumOfFive(data: seq<byte>, k: nat)
    requires 2 * k + 10 <= |data|
    ensures Sum(data[2 * k..]) ==
            Word(data, k) + Word(data, k + 1) + Word(data, k + 2) + Word(data, k + 3) + Word(data, k + 4) + Sum(data[2 * k + 10..])
  {
    SumStep(data, k);
    SumStep(data, k + 1);
    SumStep(data, k + 2);
    SumStep(data, k + 3);
    SumStep(data, k + 4);
  }

  lemma TcpHeaderSum(data: seq<byte>)
    requires SynHeader(data)
    ensures Sum(data) == 0x1_239e
  {
    SumOfFive(data, 0);
    SumOfFive(data, 5);
    assert data[0..] == data && data[20..] == [];
  }

  lemma {:induction false} SumIsBounded(data: seq<byte>)
    ensures Sum(data) <= 0x8000 * (|data| + 1)
  {
    if |data| >= 2 {
      SumIsBounded(data[2..]);
    }
  }

  lemma LostCarries(total: nat)
    requires total < 4 * U32_SIZE
    ensures Ones(Wrap32(total)) == Ones(total) <==> total < U32_SIZE
  {
    var w, c := Wrap32(total), total / U32_SIZE;
    OnesMod(w);
    OnesMod(total);
    DropMultiple(0x1_0001 * c, w + c);
    assert total == 0xffff * (0x1_0001 * c) + (w + c);
    if c > 0 {
      ResidueMoves(w, c);
    }
  }

  lemma ResidueMoves(w: nat, c: nat)
    requires 0 < c < 0xffff
    ensures (w + c) % 0xffff != w % 0xffff
  {
  }

  /** Changing one word of a buffer that verifies goes unnoticed exactly when it swaps 0 and 0xffff and the rest is not all zero. */
  lemma ChangedWordDetected(data: seq<byte>, k: nat, w: u16, origsum: u32)
    requires 2 * k + 1 < |data| && Checksum(data, origsum) == 0
    requires origsum + Sum(data) < U32_SIZE && origsum + Sum(SetWord(data, k, w)) < U32_SIZE
    ensures Checksum(SetWord(data, k, w), origsum) == 0 <==>
            w == Word(data, k)
            || (w == 0xffff && Word(data, k) == 0)
            || (w == 0 && Word(data, k) == 0xffff && origsum + Sum(SetWord(data, k, 0)) > 0)
  {
    SumAfterSet(data, k, w);
    SumAfterSet(data, k, 0);
    ChangedSumDetected(data, SetWord(data, k, w), SetWord(data, k, 0), Word(data, k), w, origsum);
  }

  lemma ChangedSumDetected(data: seq<byte>, d: seq<byte>, blank: seq<byte>, v: u16, w: u16, origsum: u32)
    requires Sum(data) == Sum(blank) + v && Sum(d) == Sum(blank) + w && Checksum(data, origsum) == 0
    requires origsum + Sum(data) < U32_SIZE && origsum + Sum(d) < U32_SIZE
    ensures Checksum(d, origsum) == 0 <==>
            w == v || (w == 0xffff && v == 0) || (w == 0 && v == 0xffff && origsum + Sum(blank) > 0)
  {
    VerifiesIff(data, origsum);
    VerifiesIff(d, origsum);
    ChangedSum(origsum + Sum(data), v, w);
  }

  lemma VerifiesIff(data: seq<byte>, origsum: u32)
    requires origsum + Sum(data) < U32_SIZE
    ensures Checksum(data, origsum) == 0 <==> Multiple(origsum + Sum(data))
  {
    OnesMod(origsum + Sum(data));
  }

  /** A positive multiple of 0xffff. */
  ghost predicate Multiple(n: int) {
    n > 0 && n % 0xffff == 0
  }

  lemma ChangedSum(s: nat, v: u16, w: u16)
    requires Multiple(s) && v <= s
    ensures Multiple(s - v + w) <==>
            w == v || (w == 0xffff && v == 0) || (w == 0 && v == 0xffff && s - v > 0)
  {
    var q := s / 0xffff;
    assert s == 0xffff * q;
    if w > v {
      DropMultiple(q, w - v);
    } else if w < v {
      DropMultiple(q - 1, 0xffff + w - v);
    }
  }

  // ---- Echo replies -----------------------------------------------------------------------

  const ECHO_REQUEST := 8

  function Adjusted(c: u16): u16 {
    if c >= 0xffff - ECHO_REQUEST then (c + ECHO_REQUEST + 1) % U16_SIZE else c + ECHO_REQUEST
  }

  /** The reply: type 0 and the adjusted checksum. */
  function EchoReply(m: seq<byte>): seq<byte>
    requires |m| >= 8
  {
    SetWord(m[0 := 0], 1, Adjusted(Word(m, 1)))
  }

  method AnswerEcho(m: array<byte>) returns (answered: bool)
    requires m.Length >= 8
    modifies m
    ensures answered <==> old(m[1]) == 0
    ensures m[..] == if answered then EchoReply(old(m[..])) else old(m[..])
  {
    if m[1] != 0 {
      return false;
    }
    m[0] := 0;
    var c := (m[2] as int) + 256 * (m[3] as int);
    if c >= 0xffff - ECHO_REQUEST {
      c := (c + ECHO_REQUEST + 1) % U16_SIZE;
    } else {
      c := c + ECHO_REQUEST;
    }
    m[2], m[3] := c % 256, c / 256;
    answered := true;
  }

  lemma {:induction false} SumIsZero(data: seq<byte>)
    ensures Sum(data) == 0 <==> forall i :: 0 <= i < |data| ==> data[i] == 0
  {
    if |data| >= 2 {
      SumIsZero(data[2..]);
      assert forall i :: 2 <= i < |data| ==> data[i] == data[2..][i - 2];
    }
  }

  /** The reply to a request that verifies, verifies if and only if identifier, sequence number and data are not all zero. */
  lemma EchoReplyVerifiesIff(m: seq<byte>)
    requires 8 <= |m| <= 0xffff && m[0] == ECHO_REQUEST && m[1] == 0 && Checksum(m, 0) == 0
    ensures Checksum(EchoReply(m), 0) == 0 <==> exists i :: 4 <= i < |m| && m[i] != 0
  {
    var rest := Sum(m[4..]);
    EchoSums(m);
    SumIsBounded(m);
    VerifiesIff(m, 0);
    VerifiesIff(EchoReply(m), 0);
    SumIsZero(m[4..]);
    assert rest == 0 <==> forall i :: 4 <= i < |m| ==> m[i] == 0 by {
      assert forall i :: 4 <= i < |m| ==> m[i] == m[4..][i - 4];
    }
    AdjustedSum(Word(m, 1), rest);
  }

  /** A request that is zero from the identifier on: it verifies, and the reply does not. */
  lemma ZeroEchoFails(m: seq<byte>)
    requires m == [8, 0, 0xf7, 0xff, 0, 0, 0, 0]
    ensures Checksum(m, 0) == 0 && Checksum(EchoReply(m), 0) == 0xffff
    ensures EchoReply(m) == [0, 0, 0, 0, 0, 0, 0, 0]
  {
    EchoSums(m);
    assert Word(m, 1) == 0xfff7;
    assert m[4..] == [0, 0, 0, 0];
    SumIsZero(m[4..]);
    OnesAt(Sum(m), 0, 0xffff);
  }

  lemma EchoSums(m: seq<byte>)
    requires |m| >= 8 && m[1] == 0
    ensures Sum(m) == m[0] + Word(m, 1) + Sum(m[4..])
    ensures Sum(EchoReply(m)) == Adjusted(Word(m, 1)) + Sum(m[4..])
  {
    var r := EchoReply(m);
    assert m[2..][2..] == m[4..] && r[2..][2..] == m[4..];
    assert Sum(m[2..]) == Word(m, 1) + Sum(m[4..]);
    assert Sum(r[2..]) == Adjusted(Word(m, 1)) + Sum(m[4..]);
  }

  lemma AdjustedSum(c: u16, rest: nat)
    requires Multiple(ECHO_REQUEST + c + rest)
    ensures Multiple(Adjusted(c) + rest) <==> rest > 0
  {
    var s, t := ECHO_REQUEST + c + rest, Adjusted(c) + rest;
    assert t == s || t + 0xffff == s;
  }
}
