/** Addresses, masks and the bits a mask keeps (lib/lib.c, ip/route.c). */
module Masks {
  import opened Words

  /** An IPv4 address or mask in network byte order, read as an integer on a little-endian host. */
  type Address = u32

  /** Bitwise `and` of two unsigned numbers. */
  function And(x: nat, y: nat): nat {
    if x == 0 || y == 0 then 0 else (if x % 2 == 1 && y % 2 == 1 then 1 else 0) + 2 * And(x / 2, y / 2)
  }

  function Pow2(n: nat): nat {
    if n == 0 then 1 else 2 * Pow2(n - 1)
  }

  /** The low `n` bytes of a number in reverse order. */
  function SwapBytes(x: nat, n: nat): nat {
    if n == 0 then 0 else x % 256 * Pow2(8 * (n - 1)) + SwapBytes(x / 256, n - 1)
  }

  /** `_htonl` on a little-endian host. */
  function Swap32(x: u32): nat {
    SwapBytes(x, 4)
  }

  /** An octet whose `n` highest bits are set; all of them from 8 on, none below 1. */
  function OctetMask(n: int): (o: byte)
    ensures n <= 0 ==> o == 0
    ensures n >= 8 ==> o == 255
  {
    if n <= 0 then 0 else if n >= 8 then 255 else [128, 192, 224, 240, 248, 252, 254][n - 1]
  }

  /** The mask of a prefix of `p` bits: in dotted order its first `p` bits are set. */
  function MaskOf(p: nat): Address
    requires p <= 32
  {
    var (a: int, b: int, c: int, d: int) := (OctetMask(p), OctetMask(p - 8), OctetMask(p - 16), OctetMask(p - 24));
    a + 256 * b + 0x1_0000 * c + 0x100_0000 * d
  }

  lemma {:induction false} Pow2Octet(n: nat)
    ensures Pow2(n + 8) == 256 * Pow2(n)
  {
    assert Pow2(n + 3) == 8 * Pow2(n) by { assert Pow2(n + 2) == 4 * Pow2(n); }
    assert Pow2(n + 6) == 8 * Pow2(n + 3) by { assert Pow2(n + 5) == 4 * Pow2(n + 3); }
    assert Pow2(n + 8) == 4 * Pow2(n + 6);
  }

  lemma OctetMaskIs(n: nat)
    requires n <= 8
    ensures OctetMask(n) == 256 - Pow2(8 - n)
  {
    assert Pow2(2) == 4 && Pow2(4) == 16 && Pow2(6) == 64 && Pow2(8) == 256;
    assert Pow2(1) == 2 && Pow2(3) == 8 && Pow2(5) == 32 && Pow2(7) == 128;
  }

  lemma LowByte(q: nat, r: byte)
    ensures (256 * q + r) / 256 == q && (256 * q + r) % 256 == r
  {
  }

  lemma SwapStep(q: nat, r: byte, n: nat)
    ensures SwapBytes(256 * q + r, n + 1) == r * Pow2(8 * n) + SwapBytes(q, n)
  {
    LowByte(q, r);
  }

  lemma OctetPowers()
    ensures Pow2(0) == 1 && Pow2(8) == 256 && Pow2(16) == 0x1_0000 && Pow2(24) == 0x100_0000
  {
    Pow2Octet(0);
    Pow2Octet(8);
    Pow2Octet(16);
  }

  lemma SwapTwo(a: byte, b: byte)
    ensures SwapBytes(256 * a + b, 2) == 256 * b + a
  {
    OctetPowers();
    SwapStep(a, b, 1);
    SwapStep(0, a, 0);
  }

  lemma SwapThree(ab: nat, c: byte, rest: nat)
    requires SwapBytes(ab, 2) == rest
    ensures SwapBytes(256 * ab + c, 3) == 0x1_0000 * c + rest
  {
    OctetPowers();
    SwapStep(ab, c, 2);
  }

  lemma SwapFour(abc: nat, d: byte, rest: nat)
    requires SwapBytes(abc, 3) == rest
    ensures SwapBytes(256 * abc + d, 4) == 0x100_0000 * d + rest
  {
    OctetPowers();
    SwapStep(abc, d, 3);
  }

  lemma SwapOctets(a: byte, b: byte, c: byte, d: byte, x: int)
    requires x == 256 * (256 * (256 * a + b) + c) + d
    ensures 0 <= x < U32_SIZE && Swap32(x) == 0x100_0000 * d + 0x1_0000 * c + 256 * b + a
  {
    SwapTwo(a, b);
    SwapThree(256 * a + b, c, 256 * b + a);
    SwapFour(256 * (256 * a + b) + c, d, 0x1_0000 * c + (256 * b + a));
  }

  /** The complement of the low bits, in the octet where the prefix ends. */
  lemma HostMask(p: nat, n: nat, scale: nat)
    requires n <= 8 && 8 - n <= 32 - p && scale == Pow2(32 - p - (8 - n))
    requires n == 0 || n < 8 || p == 32
    ensures Pow2(32 - p) == (256 - OctetMask(n)) * scale
  {
    OctetMaskIs(n);
    Pow2Sum(8 - n, 32 - p - (8 - n));
  }

  lemma {:induction false} Pow2Sum(m: nat, n: nat)
    ensures Pow2(m + n) == Pow2(m) * Pow2(n)
  {
    if m > 0 {
      Pow2Sum(m - 1, n);
    }
  }

  /** A mask whose last bits are in the octet worth `scale`. */
  lemma MaskValue(p: nat, n: nat, scale: nat)
    requires p <= 32 && n <= 8 && 8 - n <= 32 - p && scale == Pow2(32 - p - (8 - n)) && (n == 0 || n < 8 || p == 32)
    requires 256 * scale <= U32_SIZE && scale > 0
    ensures 0 < Pow2(32 - p) <= U32_SIZE && U32_SIZE - Pow2(32 - p) == U32_SIZE - 256 * scale + OctetMask(n) * scale
  {
    HostMask(p, n, scale);
    OctetMaskIs(n);
    assert (256 - OctetMask(n)) * scale == 256 * scale - OctetMask(n) * scale;
    assert OctetMask(n) <= 255;
  }

  lemma FirstOctetMask(p: nat)
    requires 1 <= p < 8
    ensures 0 < Pow2(32 - p) <= U32_SIZE && Swap32(Wrap32(U32_SIZE - Pow2(32 - p))) == MaskOf(p)
  {
    OctetPowers();
    MaskValue(p, p, 0x100_0000);
    SwapOctets(OctetMask(p), 0, 0, 0, U32_SIZE - Pow2(32 - p));
  }

  lemma SecondOctetMask(p: nat)
    requires 8 <= p < 16
    ensures 0 < Pow2(32 - p) <= U32_SIZE && Swap32(Wrap32(U32_SIZE - Pow2(32 - p))) == MaskOf(p)
  {
    OctetPowers();
    MaskValue(p, p - 8, 0x1_0000);
    SwapOctets(255, OctetMask(p - 8), 0, 0, U32_SIZE - Pow2(32 - p));
  }

  lemma ThirdOctetMask(p: nat)
    requires 16 <= p < 24
    ensures 0 < Pow2(32 - p) <= U32_SIZE && Swap32(Wrap32(U32_SIZE - Pow2(32 - p))) == MaskOf(p)
  {
    OctetPowers();
    MaskValue(p, p - 16, 256);
    SwapOctets(255, 255, OctetMask(p - 16), 0, U32_SIZE - Pow2(32 - p));
  }

  lemma FourthOctetMask(p: nat)
    requires 24 <= p <= 32
    ensures 0 < Pow2(32 - p) <= U32_SIZE && Swap32(Wrap32(U32_SIZE - Pow2(32 - p))) == MaskOf(p)
  {
    OctetPowers();
    MaskValue(p, p - 24, 1);
    SwapOctets(255, 255, 255, OctetMask(p - 24), U32_SIZE - Pow2(32 - p));
  }

  /** What `parse_ip_mask` computes for a prefix length: the complement of the low bits, byte-swapped. For 0 its shift by 32 is undefined. */
  lemma ParsedMask(p: nat)
    requires 1 <= p <= 32
    ensures 0 < Pow2(32 - p) <= U32_SIZE && Swap32(Wrap32(U32_SIZE - Pow2(32 - p))) == MaskOf(p)
  {
    if p < 8 {
      FirstOctetMask(p);
    } else if p < 16 {
      SecondOctetMask(p);
    } else if p < 24 {
      ThirdOctetMask(p);
    } else {
      FourthOctetMask(p);
    }
  }

  /** Read as little-endian integers, a longer prefix is still the larger mask. */
  lemma MaskOrder(p: nat, q: nat)
    requires p <= 32 && q <= 32
    ensures MaskOf(p) >= MaskOf(q) <==> p >= q
  {
  }

  // ---- Bits -------------------------------------------------------------------------------

  /** `x` with `k` zero bits behind it. */
  ghost function Shift(x: nat, k: nat): nat {
    if k == 0 then x else 2 * Shift(x, k - 1)
  }

  /** `x` without its last `k` bits. */
  ghost function Drop(x: nat, k: nat): nat {
    if k == 0 then x else Drop(x / 2, k - 1)
  }

  ghost function AllOnes(k: nat): nat {
    if k == 0 then 0 else 2 * AllOnes(k - 1) + 1
  }

  lemma AndHalves(x: nat, y: nat)
    ensures And(x, y) == (if x % 2 == 1 && y % 2 == 1 then 1 else 0) + 2 * And(x / 2, y / 2)
  {
  }

  lemma {:induction false} AndAtMost(x: nat, y: nat)
    ensures And(x, y) <= y
  {
    if x != 0 && y != 0 {
      AndAtMost(x / 2, y / 2);
    }
  }

  /** Low zeros of one operand clear those bits of the other. */
  lemma {:induction false} AndShifted(m: nat, y: nat, k: nat)
    ensures And(Shift(m, k), y) == Shift(And(m, Drop(y, k)), k)
  {
    if k > 0 {
      AndHalves(Shift(m, k), y);
      AndShifted(m, y / 2, k - 1);
    }
  }

  /** All ones keep an operand that is no longer. */
  lemma {:induction false} AndOnes(y: nat, k: nat)
    requires y < Shift(1, k)
    ensures And(AllOnes(k), y) == y
  {
    if k > 0 {
      AndHalves(AllOnes(k), y);
      AndOnes(y / 2, k - 1);
    }
  }

  /** `and` works on the upper and the lower bits apart. */
  lemma {:induction false} AndSplit(m: nat, n: nat, p: nat, q: nat, x: nat, y: nat, k: nat)
    requires m == Shift(p, k) + x && n == Shift(q, k) + y && x < Shift(1, k) && y < Shift(1, k)
    ensures And(m, n) == Shift(And(p, q), k) + And(x, y)
  {
    if k > 0 {
      AndHalves(m, n);
      AndHalves(x, y);
      AndSplit(m / 2, n / 2, p, q, x / 2, y / 2, k - 1);
    }
  }

  lemma {:induction false} ShiftSplits(h: nat, l: nat, g: nat, m: nat, k: nat)
    requires l < Shift(1, k) && m < Shift(1, k)
    ensures Shift(h, k) + l == Shift(g, k) + m <==> h == g && l == m
  {
    if k > 0 {
      ShiftSplits(h, l / 2, g, m / 2, k - 1);
      assert (Shift(h, k) + l) / 2 == Shift(h, k - 1) + l / 2 && (Shift(g, k) + m) / 2 == Shift(g, k - 1) + m / 2;
      assert (Shift(h, k) + l) % 2 == l % 2 && (Shift(g, k) + m) % 2 == m % 2;
    }
  }

  lemma {:induction false} DropBelow(l: nat, j: nat, k: nat)
    requires l < Shift(1, j + k)
    ensures Drop(l, k) < Shift(1, j)
  {
    if k > 0 {
      DropBelow(l / 2, j, k - 1);
    }
  }

  /** Dropping bits of the lower part only. */
  lemma {:induction false} DropLow(h: nat, l: nat, j: nat, k: nat)
    requires l < Shift(1, j + k)
    ensures Drop(Shift(h, j + k) + l, k) == Shift(h, j) + Drop(l, k)
  {
    if k > 0 {
      assert (Shift(h, j + k) + l) / 2 == Shift(h, j + k - 1) + l / 2;
      DropLow(h, l / 2, j, k - 1);
    }
  }

  /** Dropping all of the lower part and more. */
  lemma {:induction false} DropHigh(h: nat, l: nat, j: nat, k: nat)
    requires l < Shift(1, j)
    ensures Drop(Shift(h, j) + l, j + k) == Drop(h, k)
  {
    if j > 0 {
      assert (Shift(h, j) + l) / 2 == Shift(h, j - 1) + l / 2;
      DropHigh(h, l / 2, j - 1, k);
    }
  }

  lemma ShiftOctet(x: nat)
    ensures Shift(x, 8) == 256 * x
  {
    assert Shift(x, 1) == 2 * x;
    assert Shift(x, 2) == 4 * x;
    assert Shift(x, 4) == 4 * Shift(x, 2);
    assert Shift(x, 6) == 4 * Shift(x, 4);
    assert Shift(x, 8) == 4 * Shift(x, 6);
  }

  lemma {:induction false} ShiftIsTimes(x: nat, k: nat)
    ensures Shift(x, k) == x * Pow2(k)
  {
    if k > 0 {
      ShiftIsTimes(x, k - 1);
    }
  }

  lemma TimesOrder(a: nat, b: nat, d: nat)
    requires a <= b
    ensures a * d <= b * d
  {
    assert b * d == a * d + (b - a) * d;
  }

  lemma LessByTimes(a: nat, b: nat, d: nat)
    requires a * d < b * d
    ensures a < b
  {
    if b <= a {
      TimesOrder(b, a, d);
    }
  }

  lemma Quotient(x: nat, d: nat, q: nat, r: nat)
    requires x == q * d + r && r < d
    ensures x / d == q
  {
    var p := x / d;
    assert x == p * d + x % d;
    assert (q + 1) * d == q * d + d && (p + 1) * d == p * d + d;
    LessByTimes(p, q + 1, d);
    LessByTimes(q, p + 1, d);
  }

  lemma {:induction false} DropLeaves(x: nat, k: nat) returns (r: nat)
    ensures x == Shift(Drop(x, k), k) + r && r < Shift(1, k)
  {
    if k == 0 {
      r := 0;
    } else {
      var r1 := DropLeaves(x / 2, k - 1);
      r := 2 * r1 + x % 2;
    }
  }

  /** Dropping bits is dividing. */
  lemma DropIsDiv(x: nat, k: nat)
    ensures Pow2(k) > 0 && Drop(x, k) == x / Pow2(k)
  {
    var r := DropLeaves(x, k);
    ShiftIsTimes(Drop(x, k), k);
    ShiftIsTimes(1, k);
    Quotient(x, Pow2(k), Drop(x, k), r);
  }

  // ---- What a mask keeps ------------------------------------------------------------------

  lemma OctetMaskBits(n: nat, k: nat)
    requires n <= 8 && k == 8 - n
    ensures OctetMask(n) == Shift(AllOnes(n), k)
  {
    if n == 0 {
      assert Shift(0, 8) == 0;
    } else if n == 1 {
      assert Shift(1, 7) == 128;
    } else if n == 2 {
      assert AllOnes(2) == 3 && Shift(3, 6) == 192;
    } else if n == 3 {
      assert AllOnes(3) == 7 && Shift(7, 5) == 224;
    } else if n == 4 {
      assert AllOnes(4) == 15 && Shift(15, 4) == 240;
    } else if n == 5 {
      assert AllOnes(5) == 31 && Shift(31, 3) == 248;
    } else if n == 6 {
      assert AllOnes(6) == 63 && Shift(63, 2) == 252;
    } else if n == 7 {
      assert AllOnes(7) == 127 && Shift(127, 1) == 254;
    } else {
      assert AllOnes(8) == 255;
    }
  }

  /** Two octets agree under a mask of `n` bits exactly when their first `n` bits do. */
  lemma OctetsAgree(n: nat, x: byte, y: byte, k: nat)
    requires n <= 8 && k == 8 - n
    ensures And(OctetMask(n), x) == And(OctetMask(n), y) <==> Drop(x, k) == Drop(y, k)
  {
    OctetMaskBits(n, k);
    ShiftOctet(1);
    MaskedOctet(n, x, k);
    MaskedOctet(n, y, k);
    ShiftPositive(k);
    ShiftSplits(Drop(x, k), 0, Drop(y, k), 0, k);
  }

  lemma {:induction false} ShiftPositive(k: nat)
    ensures Shift(1, k) > 0
  {
    if k > 0 {
      ShiftPositive(k - 1);
    }
  }

  lemma MaskedOctet(n: nat, x: byte, k: nat)
    requires n <= 8 && k == 8 - n && OctetMask(n) == Shift(AllOnes(n), k)
    ensures And(OctetMask(n), x) == Shift(Drop(x, k), k)
  {
    ShiftOctet(1);
    AndShifted(AllOnes(n), x, k);
    DropBelow(x, n, k);
    AndOnes(Drop(x, k), n);
  }

  /** The octets of an address in dotted order. */
  datatype Octets = Octets(a: byte, b: byte, c: byte, d: byte) {
    /** As the host reads them from memory. */
    function Host(): nat { a + 256 * (b + 256 * (c + 256 * d)) }
    /** As they are written. */
    function Dotted(): nat { d + 256 * (c + 256 * (b + 256 * a)) }
  }

  function OctetsOf(x: Address): (o: Octets)
    ensures o.Host() == x
  {
    Octets(x % 256, x / 256 % 256, x / 256 / 256 % 256, x / 256 / 256 / 256)
  }

  lemma SwapIsDotted(x: Address)
    ensures Swap32(x) == OctetsOf(x).Dotted()
  {
    var o := OctetsOf(x);
    SwapOctets(o.d, o.c, o.b, o.a, x);
  }

  /** The masked lowest octet in front of the masked rest. */
  lemma AndLevel(m: nat, x: nat, ml: byte, mh: nat, xl: byte, xh: nat, low: nat, high: nat)
    requires m == ml + 256 * mh && x == xl + 256 * xh && low == And(ml, xl) && high == And(mh, xh)
    ensures And(m, x) == low + 256 * high
  {
    ShiftOctet(1);
    ShiftOctet(mh);
    ShiftOctet(xh);
    ShiftOctet(high);
    AndSplit(m, x, mh, xh, ml, xl, 8);
  }

  /** An address masked octet by octet. */
  lemma AndHost(m: Octets, x: Octets, r: Octets)
    requires r.a == And(m.a, x.a) && r.b == And(m.b, x.b) && r.c == And(m.c, x.c) && r.d == And(m.d, x.d)
    ensures And(m.Host(), x.Host()) == r.Host()
  {
    var mc, xc := m.c + 256 * m.d, x.c + 256 * x.d;
    var mb, xb := m.b + 256 * mc, x.b + 256 * xc;
    AndLevel(mc, xc, m.c, m.d, x.c, x.d, r.c, r.d);
    AndLevel(mb, xb, m.b, mc, x.b, xc, r.b, r.c + 256 * r.d);
    AndLevel(m.Host(), x.Host(), m.a, mb, x.a, xb, r.a, r.b + 256 * (r.c + 256 * r.d));
  }

  lemma MaskedOctets(m: Octets, x: Octets) returns (r: Octets)
    ensures r.a == And(m.a, x.a) && r.b == And(m.b, x.b) && r.c == And(m.c, x.c) && r.d == And(m.d, x.d)
  {
    AndAtMost(m.a, x.a);
    AndAtMost(m.b, x.b);
    AndAtMost(m.c, x.c);
    AndAtMost(m.d, x.d);
    r := Octets(And(m.a, x.a), And(m.b, x.b), And(m.c, x.c), And(m.d, x.d));
  }

  lemma LowOctet(a: byte, h: nat, b: byte, g: nat)
    ensures a + 256 * h == b + 256 * g <==> a == b && h == g
  {
  }

  lemma HostIsInjective(x: Octets, y: Octets)
    ensures x.Host() == y.Host() <==> x == y
  {
    LowOctet(x.a, x.b + 256 * (x.c + 256 * x.d), y.a, y.b + 256 * (y.c + 256 * y.d));
    LowOctet(x.b, x.c + 256 * x.d, y.b, y.c + 256 * y.d);
    LowOctet(x.c, x.d, y.c, y.d);
  }

  lemma AgreeHosts(m: Octets, x: Octets, y: Octets)
    ensures And(m.Host(), x.Host()) == And(m.Host(), y.Host()) <==>
            And(m.a, x.a) == And(m.a, y.a) && And(m.b, x.b) == And(m.b, y.b) && And(m.c, x.c) == And(m.c, y.c) && And(m.d, x.d) == And(m.d, y.d)
  {
    var r := MaskedOctets(m, x);
    var t := MaskedOctets(m, y);
    AndHost(m, x, r);
    AndHost(m, y, t);
    HostIsInjective(r, t);
  }

  lemma MaskOctets(p: nat)
    requires p <= 32
    ensures MaskOf(p) == Octets(OctetMask(p), OctetMask(p - 8), OctetMask(p - 16), OctetMask(p - 24)).Host()
  {
  }

  /** How many bits of an octet a mask octet of `n` bits clears. */
  ghost function Cut(n: int): nat {
    if n <= 0 then 8 else if n >= 8 then 0 else 8 - n
  }

  lemma AgreeOctet(n: int, x: byte, y: byte)
    ensures And(OctetMask(n), x) == And(OctetMask(n), y) <==> Drop(x, Cut(n)) == Drop(y, Cut(n))
  {
    var k := Cut(n);
    OctetsAgree(8 - k, x, y, k);
    assert OctetMask(n) == OctetMask(8 - k);
  }

  /** The octets agree on what the mask keeps. */
  ghost predicate Kept(p: nat, x: Octets, y: Octets) {
    && Drop(x.a, Cut(p)) == Drop(y.a, Cut(p)) && Drop(x.b, Cut(p - 8)) == Drop(y.b, Cut(p - 8))
    && Drop(x.c, Cut(p - 16)) == Drop(y.c, Cut(p - 16)) && Drop(x.d, Cut(p - 24)) == Drop(y.d, Cut(p - 24))
  }

  /** Agreement octet by octet. */
  lemma AgreeOctets(p: nat, x: Octets, y: Octets)
    requires p <= 32
    ensures And(MaskOf(p), x.Host()) == And(MaskOf(p), y.Host()) <==> Kept(p, x, y)
  {
    MaskOctets(p);
    AgreeHosts(Octets(OctetMask(p), OctetMask(p - 8), OctetMask(p - 16), OctetMask(p - 24)), x, y);
    AgreeOctet(p, x.a, y.a);
    AgreeOctet(p - 8, x.b, y.b);
    AgreeOctet(p - 16, x.c, y.c);
    AgreeOctet(p - 24, x.d, y.d);
  }

  /** The bits above the last `k` are the upper part and the first bits of the lowest octet. */
  lemma PrefixEnds(h: nat, x: byte, g: nat, y: byte, k: nat)
    requires k <= 8
    ensures Drop(x + 256 * h, k) == Drop(y + 256 * g, k) <==> h == g && Drop(x, k) == Drop(y, k)
  {
    var n := 8 - k;
    ShiftOctet(1);
    ShiftOctet(h);
    ShiftOctet(g);
    DropLow(h, x, n, k);
    DropLow(g, y, n, k);
    DropBelow(x, n, k);
    DropBelow(y, n, k);
    ShiftSplits(h, Drop(x, k), g, Drop(y, k), n);
  }

  lemma DropOctet(h: nat, l: byte, k: nat)
    ensures Drop(l + 256 * h, 8 + k) == Drop(h, k)
  {
    ShiftOctet(1);
    ShiftOctet(h);
    DropHigh(h, l, 8, k);
  }

  lemma DropAll(x: byte, k: nat)
    requires k == 8
    ensures Drop(x, k) == 0
  {
    ShiftOctet(1);
    DropBelow(x, 0, k);
  }

  /** What the mask keeps, by the octet its prefix ends in. */
  lemma KeptIs(p: nat, x: Octets, y: Octets)
    requires p <= 32
    ensures p <= 8 ==> (Kept(p, x, y) <==> Drop(x.a, 8 - p) == Drop(y.a, 8 - p))
    ensures 8 < p <= 16 ==> (Kept(p, x, y) <==> x.a == y.a && Drop(x.b, 16 - p) == Drop(y.b, 16 - p))
    ensures 16 < p <= 24 ==> (Kept(p, x, y) <==> x.a == y.a && x.b == y.b && Drop(x.c, 24 - p) == Drop(y.c, 24 - p))
    ensures p > 24 ==> (Kept(p, x, y) <==> x.a == y.a && x.b == y.b && x.c == y.c && Drop(x.d, 32 - p) == Drop(y.d, 32 - p))
  {
    DropAll(x.a, 8);
    DropAll(y.a, 8);
    DropAll(x.b, 8);
    DropAll(y.b, 8);
    DropAll(x.c, 8);
    DropAll(y.c, 8);
    DropAll(x.d, 8);
    DropAll(y.d, 8);
  }

  /** Dropping the lowest octet. */
  lemma WithoutLast(x: nat, h: nat, l: byte, k: nat)
    requires x == l + 256 * h
    ensures Drop(x, 8 + k) == Drop(h, k)
  {
    DropOctet(h, l, k);
  }

  lemma EndsInFirst(x: Octets, d: nat, k: nat)
    requires d == x.Dotted()
    ensures Drop(d, 24 + k) == Drop(x.a, k)
  {
    var ab := x.b + 256 * x.a;
    var abc := x.c + 256 * ab;
    WithoutLast(d, abc, x.d, 16 + k);
    WithoutLast(abc, ab, x.c, 8 + k);
    WithoutLast(ab, x.a, x.b, k);
  }

  lemma EndsInSecond(x: Octets, y: Octets, d: nat, e: nat, k: nat)
    requires d == x.Dotted() && e == y.Dotted() && k <= 8
    ensures Drop(d, 16 + k) == Drop(e, 16 + k) <==> x.a == y.a && Drop(x.b, k) == Drop(y.b, k)
  {
    var ab, uv := x.b + 256 * x.a, y.b + 256 * y.a;
    var abc, uvw := x.c + 256 * ab, y.c + 256 * uv;
    WithoutLast(d, abc, x.d, 8 + k);
    WithoutLast(e, uvw, y.d, 8 + k);
    WithoutLast(abc, ab, x.c, k);
    WithoutLast(uvw, uv, y.c, k);
    PrefixEnds(x.a, x.b, y.a, y.b, k);
  }

  lemma EndsInThird(x: Octets, y: Octets, d: nat, e: nat, k: nat)
    requires d == x.Dotted() && e == y.Dotted() && k <= 8
    ensures Drop(d, 8 + k) == Drop(e, 8 + k) <==> x.a == y.a && x.b == y.b && Drop(x.c, k) == Drop(y.c, k)
  {
    var ab, uv := x.b + 256 * x.a, y.b + 256 * y.a;
    WithoutLast(d, x.c + 256 * ab, x.d, k);
    WithoutLast(e, y.c + 256 * uv, y.d, k);
    PrefixEnds(ab, x.c, uv, y.c, k);
    LowOctet(x.b, x.a, y.b, y.a);
  }

  lemma EndsInFourth(x: Octets, y: Octets, d: nat, e: nat, k: nat)
    requires d == x.Dotted() && e == y.Dotted() && k <= 8
    ensures Drop(d, k) == Drop(e, k) <==> x.a == y.a && x.b == y.b && x.c == y.c && Drop(x.d, k) == Drop(y.d, k)
  {
    var ab, uv := x.b + 256 * x.a, y.b + 256 * y.a;
    PrefixEnds(x.c + 256 * ab, x.d, y.c + 256 * uv, y.d, k);
    LowOctet(x.c, ab, y.c, uv);
    LowOctet(x.b, x.a, y.b, y.a);
  }

  lemma KeptIffDropped(p: nat, x: Octets, y: Octets, d: nat, e: nat)
    requires p <= 32 && d == x.Dotted() && e == y.Dotted()
    ensures Kept(p, x, y) <==> Drop(d, 32 - p) == Drop(e, 32 - p)
  {
    KeptIs(p, x, y);
    if p <= 8 {
      EndsInFirst(x, d, 8 - p);
      EndsInFirst(y, e, 8 - p);
    } else if p <= 16 {
      EndsInSecond(x, y, d, e, 16 - p);
    } else if p <= 24 {
      EndsInThird(x, y, d, e, 24 - p);
    } else {
      EndsInFourth(x, y, d, e, 32 - p);
    }
  }

  lemma {:induction false} Pow2Positive(n: nat)
    ensures Pow2(n) > 0
  {
    if n > 0 {
      Pow2Positive(n - 1);
    }
  }

  /** The first `p` bits of an address in dotted order. */
  function Prefix(x: Address, p: nat): int
    requires p <= 32
  {
    Pow2Positive(32 - p);
    Swap32(x) / Pow2(32 - p)
  }

  /** Addresses agree under the mask of `p` bits if and only if their first `p` bits in dotted order are the same. */
  lemma AgreeIffPrefix(p: nat, x: Address, y: Address)
    requires p <= 32
    ensures And(MaskOf(p), x) == And(MaskOf(p), y) <==> Prefix(x, p) == Prefix(y, p)
  {
    var dx, dy := Swap32(x), Swap32(y);
    SwapIsDotted(x);
    SwapIsDotted(y);
    AgreeOctets(p, OctetsOf(x), OctetsOf(y));
    KeptIffDropped(p, OctetsOf(x), OctetsOf(y), dx, dy);
    DropIsDiv(dx, 32 - p);
    DropIsDiv(dy, 32 - p);
  }
}
