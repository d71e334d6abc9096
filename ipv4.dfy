/**
 * IPv4 addresses and CIDR blocks, as the Go standard library (net.ParseCIDR,
 * IPNet.Contains) and the go-cidr helpers (AddressRange, Inc, NextSubnet)
 * treat them. An address is its 32-bit value read as an unsigned integer;
 * masking an address to a prefix is stated arithmetically, as the largest
 * multiple of the block size not above it, which is what AND-ing with the
 * prefix mask computes.
 */
module Ipv4 {

  /** The number of IPv4 addresses, 2^32. */
  const AddressCount: nat := 0x1_0000_0000

  /** An IPv4 address as an unsigned 32-bit number. */
  type Addr = a: nat | a < AddressCount

  /** A prefix length of an IPv4 block. */
  type Prefix = p: nat | p <= 32

  /** A CIDR block: its base address and its prefix length. */
  datatype Block = Block(base: Addr, prefix: Prefix)

  /** The address a.b.c.d written as a dotted quad. */
  function Ip(a: nat, b: nat, c: nat, d: nat): (r: Addr)
    requires a < 256 && b < 256 && c < 256 && d < 256
  {
    a * 0x100_0000 + b * 0x1_0000 + c * 0x100 + d
  }

  function Pow2(n: nat): (r: nat)
    ensures r >= 1
  {
    if n == 0 then 1 else 2 * Pow2(n - 1)
  }

  lemma {:induction false} Pow2Add(a: nat, b: nat)
    ensures Pow2(a + b) == Pow2(a) * Pow2(b)
  {
    if a > 0 {
      Pow2Add(a - 1, b);
      assert Pow2(a + b) == 2 * Pow2(a - 1 + b);
    }
  }

  /** The number of addresses in a block of prefix length p, 2^(32-p). */
  function BlockSize(p: Prefix): (s: nat)
    ensures 1 <= s <= AddressCount
  {
    BlockSizeDividesSpace(p);
    MulMono(1, Pow2(p), Pow2(32 - p));
    Pow2(32 - p)
  }

  /** 2^32 is Pow2(p) blocks of prefix length p. */
  lemma BlockSizeDividesSpace(p: Prefix)
    ensures Pow2(32 - p) * Pow2(p) == AddressCount
  {
    Pow2Add(32 - p, p);
    Pow2ThirtyTwo();
  }

  lemma Pow2ThirtyTwo()
    ensures Pow2(32) == AddressCount
  {
    assert Pow2(2) == 4;
    Pow2Add(2, 2);
    Pow2Add(4, 4);
    Pow2Add(8, 8);
    Pow2Add(16, 16);
  }

  /** A base address is aligned when it is a multiple of the block size. */
  predicate Aligned(b: Block)
  {
    b.base % BlockSize(b.prefix) == 0
  }

  /** Address a with its host bits cleared: net.IP.Mask with the mask of prefix p. */
  function MaskTo(a: Addr, p: Prefix): (m: Addr)
    ensures m <= a < m + BlockSize(p)
  {
    var s := BlockSize(p);
    FloorMultiple(a, s);
    s * (a / s)
  }

  /** A masked address is a multiple of the block size. */
  lemma MaskIsAligned(a: Addr, p: Prefix)
    ensures MaskTo(a, p) % BlockSize(p) == 0
  {
    FloorMultiple(a, BlockSize(p));
  }

  /** IPNet.Contains: the address and the block's base agree once both are masked to the block's prefix. */
  predicate Contains(b: Block, a: Addr)
  {
    MaskTo(a, b.prefix) == MaskTo(b.base, b.prefix)
  }

  /** net.ParseCIDR of "a/p": the block of prefix p that holds a, with the host bits of a cleared. */
  function Parse(a: Addr, p: Prefix): (b: Block)
    ensures b.prefix == p && Aligned(b) && Contains(b, a)
    ensures b.base <= a < b.base + BlockSize(p)
  {
    MaskIsAligned(a, p);
    MaskOfAligned(MaskTo(a, p), p);
    Block(MaskTo(a, p), p)
  }

  /** Parsing the text of an aligned block gives the block back. */
  lemma ParseOfAligned(b: Block)
    ensures Aligned(b) ==> Parse(b.base, b.prefix) == b
  {
    if Aligned(b) {
      MaskOfAligned(b.base, b.prefix);
    }
  }

  /**
   * cidr.AddressRange: the block's IP as given, and the last address of the
   * block of that prefix holding it (the IP with all host bits set).
   */
  function AddressRange(b: Block): (r: (Addr, Addr))
    ensures r.0 == b.base && r.0 <= r.1
    ensures r.1 + 1 == MaskTo(b.base, b.prefix) + BlockSize(b.prefix)
    ensures Aligned(b) ==> r.1 - r.0 + 1 == BlockSize(b.prefix)
  {
    var masked := MaskTo(b.base, b.prefix);
    MaskIsAligned(b.base, b.prefix);
    AlignedUpperBound(masked, b.prefix);
    if Aligned(b) then
      MaskOfAligned(b.base, b.prefix);
      (b.base, masked + BlockSize(b.prefix) - 1)
    else
      (b.base, masked + BlockSize(b.prefix) - 1)
  }

  /** cidr.Inc: the next address, wrapping from 255.255.255.255 to 0.0.0.0. */
  function Inc(a: Addr): (r: Addr)
    ensures a < AddressCount - 1 ==> r == a + 1
    ensures a == AddressCount - 1 ==> r == 0
  {
    (a + 1) % AddressCount
  }

  /**
   * cidr.NextSubnet for a block and its own prefix length: the block that
   * follows it, and whether the step wrapped past 255.255.255.255 (in which
   * case the block returned is 0.0.0.0 with that prefix).
   */
  function NextSubnet(b: Block): (r: (Block, bool))
    ensures r.0.prefix == b.prefix && Aligned(r.0)
    ensures Aligned(b) ==> (r.1 <==> b.base + BlockSize(b.prefix) == AddressCount)
    ensures Aligned(b) && !r.1 ==> r.0.base == b.base + BlockSize(b.prefix)
    ensures r.1 ==> r.0.base == 0
  {
    var last := AddressRange(b).1;
    var next := Inc(last);
    var masked := MaskTo(b.base, b.prefix);
    MaskIsAligned(b.base, b.prefix);
    MaskIsAligned(next, b.prefix);
    NextBlockAligned(masked, b.prefix);
    MaskOfAligned(next, b.prefix);
    ParseOfAligned(b);
    (Block(MaskTo(next, b.prefix), b.prefix), next == 0)
  }

  // ----- arithmetic about multiples of a block size -----

  lemma MulMono(a: int, b: int, c: nat)
    requires a <= b
    ensures c * a <= c * b
  {
    assert c * b - c * a == c * (b - a);
  }

  lemma DivMod(a: nat, s: nat)
    requires s > 0
    ensures a == s * (a / s) + a % s && 0 <= a % s < s && 0 <= a / s
  {
  }

  /** s * (a / s) is the largest multiple of s not above a. */
  lemma FloorMultiple(a: nat, s: nat)
    requires s > 0
    ensures var m := s * (a / s); 0 <= m <= a < m + s && m % s == 0
  {
    DivMod(a, s);
    MultipleMod(a / s, s);
  }

  lemma MultipleMod(k: nat, s: nat)
    requires s > 0
    ensures (s * k) % s == 0
  {
    var q := (s * k) / s;
    var r := (s * k) % s;
    DivMod(s * k, s);
    assert s * (k - q) == r;
    if k - q >= 1 {
      MulMono(1, k - q, s);
    } else if k - q <= -1 {
      MulMono(k - q, -1, s);
    }
  }

  /** The step skips no aligned block: every aligned block of the same prefix above b is at or above the next one, which does not wrap. */
  lemma NextSubnetSkipsNothing(b: Block, c: Block)
    requires Aligned(b) && Aligned(c) && c.prefix == b.prefix && b.base < c.base
    ensures !NextSubnet(b).1 && NextSubnet(b).0.base <= c.base
  {
    MultiplesApart(b.base, c.base, BlockSize(b.prefix));
  }

  /** Two different multiples of s are at least s apart. */
  lemma MultiplesApart(x: nat, y: nat, s: nat)
    requires s > 0 && x % s == 0 && y % s == 0 && x < y
    ensures x + s <= y
  {
    var qx, qy := x / s, y / s;
    DivMod(x, s);
    DivMod(y, s);
    if qx >= qy {
      MulMono(qy, qx, s);
    }
    MulMono(qx + 1, qy, s);
    assert s * (qx + 1) == s * qx + s;
  }

  /** The address after an aligned block, wrapped to 0 at the top, is aligned too. */
  lemma NextBlockAligned(first: Addr, p: Prefix)
    requires first % BlockSize(p) == 0
    ensures first + BlockSize(p) <= AddressCount
    ensures Inc(first + BlockSize(p) - 1) % BlockSize(p) == 0
  {
    AlignedUpperBound(first, p);
    NextMultiple(first, BlockSize(p));
  }

  lemma NextMultiple(first: nat, s: nat)
    requires s > 0 && first % s == 0 && first + s <= AddressCount
    ensures Inc(first + s - 1) % s == 0
  {
    if first + s < AddressCount {
      AddAligned(first, s);
    }
  }

  lemma AddAligned(x: nat, s: nat)
    requires s > 0 && x % s == 0
    ensures (x + s) % s == 0
  {
    var q := x / s;
    DivMod(x, s);
    assert x == s * q;
    assert x + s == s * (q + 1);
    MultipleMod(q + 1, s);
  }

  /** An aligned block ends at or below the top of the address space. */
  lemma AlignedUpperBound(x: Addr, p: Prefix)
    requires x % BlockSize(p) == 0
    ensures x + BlockSize(p) <= AddressCount
  {
    var s := BlockSize(p);
    MultipleMod(Pow2(p), s);
    BlockSizeDividesSpace(p);
    MultiplesApart(x, AddressCount, s);
  }

  /** Masking an aligned address leaves it unchanged. */
  lemma MaskOfAligned(a: Addr, p: Prefix)
    requires a % BlockSize(p) == 0
    ensures MaskTo(a, p) == a
  {
    var m := MaskTo(a, p);
    MaskIsAligned(a, p);
    if m < a {
      MultiplesApart(m, a, BlockSize(p));
    }
  }

  /** An address aligned to a block size is aligned to every smaller block size. */
  lemma NestedAligned(a: Addr, p1: Prefix, p2: Prefix)
    requires p1 <= p2 && a % BlockSize(p1) == 0
    ensures a % BlockSize(p2) == 0
  {
    var s2, k := BlockSize(p2), Pow2(p2 - p1);
    Pow2Add(32 - p2, p2 - p1);
    assert 32 - p1 == (32 - p2) + (p2 - p1);
    NestedMultiple(a, s2, k);
  }

  /** A multiple of s * k is a multiple of s. */
  lemma NestedMultiple(a: nat, s: nat, k: nat)
    requires s > 0 && k > 0 && a % (s * k) == 0
    ensures a % s == 0
  {
    MulMono(1, k, s);
    var q := a / (s * k);
    DivMod(a, s * k);
    MulAssoc(s, k, q);
    MultipleMod(k * q, s);
  }

  lemma MulAssoc(x: int, y: int, z: int)
    ensures (x * y) * z == x * (y * z)
  {
  }

  /** For an aligned block, the addresses it contains are exactly those from its first to its last address. */
  lemma AddressRangeSpansBlock(b: Block, a: Addr)
    requires Aligned(b)
    ensures Contains(b, a) <==> AddressRange(b).0 <= a <= AddressRange(b).1
  {
    ContainsIff(b, a);
  }

  /** For an aligned block, containment is membership of the address interval it spans. */
  lemma ContainsIff(b: Block, a: Addr)
    requires Aligned(b)
    ensures Contains(b, a) <==> b.base <= a < b.base + BlockSize(b.prefix)
  {
    var s, m := BlockSize(b.prefix), MaskTo(a, b.prefix);
    MaskIsAligned(a, b.prefix);
    MaskOfAligned(b.base, b.prefix);
    if b.base <= a < b.base + s {
      if m < b.base {
        MultiplesApart(m, b.base, s);
      } else if b.base < m {
        MultiplesApart(b.base, m, s);
      }
    }
  }
}
