/**
 The checksum against RFC 1071: words in network order, an odd last byte padded with zero behind it, and the
 pseudo header of TCP and UDP in front (section 3.1 of RFC 793).
 */
module NetworkOrder {
  import opened Words
  import opened C = Checksum

  /** The sum of the 16-bit words as the network reads them. */
  ghost function NetworkSum(data: seq<byte>): nat {
    if data == [] then 0
    else if |data| == 1 then NetworkWord(data[0], 0)
    else NetworkWord(data[0], data[1]) + NetworkSum(data[2..])
  }

  function NetworkWord(high: byte, low: byte): nat {
    256 * high + low
  }

  /** The Internet checksum of RFC 1071. */
  ghost function Rfc1071(data: seq<byte>): u16 {
    0xffff - Ones(NetworkSum(data))
  }

  lemma SumOfPair(x: byte, y: byte)
    ensures Sum([x, y]) == x + 256 * y
  {
    assert [x, y][2..] == [];
  }

  lemma {:induction false} SumConcat(a: seq<byte>, b: seq<byte>)
    requires |a| % 2 == 0
    ensures Sum(a + b) == Sum(a) + Sum(b)
  {
    if a == [] {
      assert a + b == b;
    } else {
      SumConcat(a[2..], b);
      assert (a + b)[2..] == a[2..] + b;
    }
  }

  /** A zero byte behind an odd buffer changes nothing. */
  lemma {:induction false} OddIsPadded(data: seq<byte>)
    requires |data| % 2 == 1
    ensures Sum(data) == Sum(data + [0])
  {
    if |data| == 1 {
      assert data + [0] == [data[0], 0];
      SumOfPair(data[0], 0);
    } else {
      OddIsPadded(data[2..]);
      assert (data + [0])[2..] == data[2..] + [0];
    }
  }

  /** Exchanging the bytes of every word multiplies the sum by 256, modulo 0xffff. */
  lemma {:induction false} SwappedSum(data: seq<byte>) returns (k: nat)
    ensures 256 * Sum(data) == NetworkSum(data) + 0xffff * k
    ensures Sum(data) == 0 <==> NetworkSum(data) == 0
  {
    if |data| >= 2 {
      var k1 := SwappedSum(data[2..]);
      k := data[1] + k1;
    } else {
      k := 0;
    }
  }

  lemma SwappedResidue(n: nat, m: nat, k: nat, r: u16)
    requires 256 * n == m + 0xffff * k && r % 0xffff == n % 0xffff
    ensures Swap16(r) % 0xffff == m % 0xffff
  {
    var q := n / 0xffff;
    var p := r / 0xffff;
    var lo, hi := r % 256, r / 256;
    assert 256 * r == Swap16(r) + 0xffff * hi;
    assert n == 0xffff * q + n % 0xffff && r == 0xffff * p + n % 0xffff;
    assert m + 0xffff * (k + 256 * p) == Swap16(r) + 0xffff * (hi + 256 * q);
    DropMultiple(k + 256 * p, m);
    DropMultiple(hi + 256 * q, Swap16(r));
  }

  /** The ones' complement sum of swapped words is the swapped sum. */
  lemma SwappedOnes(n: nat, m: nat, k: nat)
    requires 256 * n == m + 0xffff * k && (n == 0 <==> m == 0)
    ensures Ones(m) == Swap16(Ones(n))
  {
    OnesMod(n);
    SwappedResidue(n, m, k, Ones(n));
    OnesIsUnique(m, Swap16(Ones(n)));
  }

  lemma SwapComplement(x: u16)
    ensures Swap16(0xffff - x) == 0xffff - Swap16(x)
  {
    assert (0xffff - x) % 256 == 255 - x % 256 && (0xffff - x) / 256 == 255 - x / 256;
  }

  /** The complement of a host's sum, byte for byte. */
  lemma StoredIsRfc1071(data: seq<byte>, c: u16)
    ensures Swap16(c) == Rfc1071(data) <==> c == 0xffff - Ones(Sum(data))
  {
    var k := SwappedSum(data);
    SwappedOnes(Sum(data), NetworkSum(data), k);
    SwapComplement(Ones(Sum(data)));
    SwapIsInjective(c, 0xffff - Ones(Sum(data)));
  }

  lemma SwapIsInjective(x: u16, y: u16)
    ensures Swap16(x) == Swap16(y) <==> x == y
  {
  }

  lemma PlainChecksum(data: seq<byte>, origsum: u32, n: nat)
    requires origsum == 0 && n == Sum(data) < U32_SIZE
    ensures C.Checksum(data, origsum) == 0xffff - Ones(n)
  {
    assert Wrap32(origsum + Sum(data)) == n;
  }

  /** The checksum a little-endian host computes and stores is, byte for byte, that of RFC 1071, as long as its sum fits 32 bits. */
  lemma ChecksumIsRfc1071(data: seq<byte>, origsum: u32)
    requires origsum == 0 && Sum(data) < U32_SIZE
    ensures Swap16(C.Checksum(data, origsum)) == Rfc1071(data)
  {
    PlainChecksum(data, origsum, Sum(data));
    StoredIsRfc1071(data, C.Checksum(data, origsum));
  }

  // ---- The pseudo header ------------------------------------------------------------------

  /** Source, destination, protocol and length as they stand in the pseudo header; the addresses are in network order already. */
  function PseudoHeader(src: u32, dst: u32, proto: u16, len: u16): (h: seq<byte>)
    ensures |h| == 12
  {
    AddressBytes(src) + AddressBytes(dst) + [proto / 256, proto % 256, len / 256, len % 256]
  }

  function AddressBytes(a: u32): (b: seq<byte>)
    ensures |b| == 4
  {
    [a % 256, a / 256 % 256, a / 256 / 256 % 256, a / 256 / 256 / 256]
  }

  lemma Halves(a: u32) returns (low: nat, high: nat)
    ensures a == low + 0x1_0000 * high
    ensures low == a % 256 + 256 * (a / 256 % 256) && high == a / 256 / 256 % 256 + 256 * (a / 256 / 256 / 256)
  {
    var q := a / 256;
    low, high := a % 256 + 256 * (q % 256), q / 256;
  }

  lemma AddressSum(a: u32) returns (k: nat)
    ensures a == Sum(AddressBytes(a)) + 0xffff * k && (a == 0 <==> Sum(AddressBytes(a)) == 0)
  {
    var b := AddressBytes(a);
    assert b == [b[0], b[1]] + [b[2], b[3]];
    SumConcat([b[0], b[1]], [b[2], b[3]]);
    SumOfPair(b[0], b[1]);
    SumOfPair(b[2], b[3]);
    var low, high := Halves(a);
    k := high;
  }

  lemma HeaderSum(src: u32, dst: u32, proto: u16, len: u16)
    ensures Sum(PseudoHeader(src, dst, proto, len)) ==
            Sum(AddressBytes(src)) + Sum(AddressBytes(dst)) + Swap16(proto) + Swap16(len)
  {
    var last: seq<byte> := [proto / 256, proto % 256, len / 256, len % 256];
    SumConcat(AddressBytes(src) + AddressBytes(dst), last);
    SumConcat(AddressBytes(src), AddressBytes(dst));
    assert last[2..] == [last[2], last[3]];
    SumOfPair(last[2], last[3]);
  }

  lemma OnesMoves(n: nat, m: nat, k: nat)
    requires n == m + 0xffff * k && (n == 0 <==> m == 0)
    ensures Ones(n) == Ones(m)
  {
    OnesMod(m);
    DropMultiple(k, m);
    OnesIsUnique(n, Ones(m));
  }

  lemma PseudoTotal(src: u32, dst: u32, proto: u16, len: u16, data: seq<byte>) returns (k: nat)
    ensures var all := Sum(PseudoHeader(src, dst, proto, len) + data);
            var total := PseudoSum(src, dst, proto, len) + Sum(data);
            total == all + 0xffff * k && (total == 0 <==> all == 0)
  {
    var i := AddressSum(src);
    var j := AddressSum(dst);
    HeaderSum(src, dst, proto, len);
    SumConcat(PseudoHeader(src, dst, proto, len), data);
    k := i + j;
  }

  /** Adding the addresses as 32-bit words gives the same ones' complement sum as adding the words of the pseudo header. */
  lemma PseudoOnes(src: u32, dst: u32, proto: u16, len: u16, data: seq<byte>)
    ensures Ones(PseudoSum(src, dst, proto, len) + Sum(data)) == Ones(Sum(PseudoHeader(src, dst, proto, len) + data))
  {
    var k := PseudoTotal(src, dst, proto, len, data);
    OnesMoves(PseudoSum(src, dst, proto, len) + Sum(data), Sum(PseudoHeader(src, dst, proto, len) + data), k);
  }

  /** `tcp_udp_chksum` is, byte for byte, the RFC 1071 checksum of pseudo header and data if and only if its 32-bit sum does not overflow. */
  lemma PseudoChecksumIsRfc1071(src: u32, dst: u32, proto: u16, len: u16, data: seq<byte>)
    requires |data| <= 0xffff
    ensures Swap16(C.Checksum(data, Wrap32(PseudoSum(src, dst, proto, len)))) == Rfc1071(PseudoHeader(src, dst, proto, len) + data) <==>
            PseudoSum(src, dst, proto, len) + Sum(data) < U32_SIZE
  {
    PseudoChecksumIffNoOverflow(src, dst, proto, len, data);
    PseudoOnes(src, dst, proto, len, data);
    StoredIsRfc1071(PseudoHeader(src, dst, proto, len) + data, C.Checksum(data, Wrap32(PseudoSum(src, dst, proto, len))));
  }
}
