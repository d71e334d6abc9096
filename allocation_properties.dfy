/**
 * Properties of the allocation engine and of the snapshot it searches
 * against: what isPrivateNet accepts, what the chosen subnet avoids, which
 * candidates the loop tests and when it gives up, and how the result
 * depends on the snapshot.
 */
module AllocationProperties {
  import opened Wrappers
  import opened Ipv4
  import opened Docker
  import opened Allocation
  import opened Snapshot

  /** The block sizes of the prefix lengths used below. */
  lemma BlockSizes()
    ensures BlockSize(8) == 0x100_0000 && BlockSize(12) == 0x10_0000 && BlockSize(16) == 0x1_0000
    ensures BlockSize(24) == 0x100 && BlockSize(25) == 0x80
  {
    assert Pow2(2) == 4;
    Pow2Add(2, 2);
    Pow2Add(4, 3);
    Pow2Add(4, 4);
    Pow2Add(8, 8);
    Pow2Add(16, 4);
    Pow2Add(16, 8);
  }

  /** isPrivateNet accepts exactly 10.0.0.0-10.255.255.255, 172.16.0.0-172.31.255.255 and 192.168.0.0-192.168.255.255. */
  lemma IsPrivateNetRanges(ip: Addr)
    ensures IsPrivateNet(ip) <==>
      || Ip(10, 0, 0, 0) <= ip <= Ip(10, 255, 255, 255)
      || Ip(172, 16, 0, 0) <= ip <= Ip(172, 31, 255, 255)
      || Ip(192, 168, 0, 0) <= ip <= Ip(192, 168, 255, 255)
  {
    BlockSizes();
    ContainsIff(Private24BitBlock, ip);
    ContainsIff(Private20BitBlock, ip);
    ContainsIff(Private16BitBlock, ip);
  }

  /**
   * The subnet CreateNetwork settles on has a base address that no Docker
   * network's private subnet and no blacklist entry contains, that the scope
   * contains, and that is private.
   */
  lemma ChosenSubnetAvoidsSnapshot(conf: NetworkConf, networks: seq<NetworkResource>, r: Block)
    requires 0 <= conf.subnet <= 32
    requires Search(conf, PrivateNets(networks) + conf.blacklist) == Some(r)
    ensures forall n :: n in PrivateNets(networks) ==> !Contains(n, r.base)
    ensures forall n :: n in conf.blacklist ==> !Contains(n, r.base)
    ensures Contains(conf.scope, r.base) && IsPrivateNet(r.base)
    ensures r.prefix == conf.subnet && Aligned(r)
  {
    var existing := PrivateNets(networks) + conf.blacklist;
    assert !IsItTaken(r, existing);
    forall n | n in existing ensures !Contains(n, r.base) {
      var i :| 0 <= i < |existing| && existing[i] == n;
    }
  }

  /** The search depends on the snapshot only through the blocks in it: order and repetition do not matter. */
  lemma {:induction false} SearchFromDependsOnBlocks(conf: NetworkConf, e1: seq<Block>, e2: seq<Block>, c: Block)
    requires c.prefix == conf.subnet && Aligned(c)
    requires forall b :: b in e1 <==> b in e2
    ensures SearchFrom(conf, e1, c) == SearchFrom(conf, e2, c)
    decreases AddressCount - c.base
  {
    assert IsItTaken(c, e1) == IsItTaken(c, e2) by {
      if IsItTaken(c, e1) {
        var i :| 0 <= i < |e1| && Contains(e1[i], c.base);
        assert e1[i] in e2;
      }
      if IsItTaken(c, e2) {
        var i :| 0 <= i < |e2| && Contains(e2[i], c.base);
        assert e2[i] in e1;
      }
    }
    var (next, max) := NextSubnet(c);
    if !max {
      SearchFromDependsOnBlocks(conf, e1, e2, next);
    }
  }

  /**
   * For one configuration, the result depends only on which blocks are in
   * use: the order of Docker's network list, and where the blacklist repeats
   * a Docker network, change nothing.
   */
  lemma SearchDependsOnBlocks(conf: NetworkConf, e1: seq<Block>, e2: seq<Block>)
    requires 0 <= conf.subnet <= 32
    requires forall b :: b in e1 <==> b in e2
    ensures Search(conf, e1) == Search(conf, e2)
  {
    SearchFromDependsOnBlocks(conf, e1, e2, FirstNetwork(conf));
  }

  /** Two listings of the same Docker networks, in any order, lead to the same subnet. */
  lemma ListingOrderIrrelevant(conf: NetworkConf, n1: seq<NetworkResource>, n2: seq<NetworkResource>)
    requires 0 <= conf.subnet <= 32
    requires forall n :: n in n1 <==> n in n2
    ensures Search(conf, PrivateNets(n1) + conf.blacklist) == Search(conf, PrivateNets(n2) + conf.blacklist)
  {
    forall b ensures b in PrivateNets(n1) <==> b in PrivateNets(n2) {
      PrivateNetsMembers(n1, b);
      PrivateNetsMembers(n2, b);
      if b in PrivateNets(n1) {
        var i :| 0 <= i < |n1| && Addressable(n1[i]) && PrivateSubnet(n1[i].ipam.config) == Some(b);
        assert n1[i] in n2;
      }
      if b in PrivateNets(n2) {
        var i :| 0 <= i < |n2| && Addressable(n2[i]) && PrivateSubnet(n2[i].ipam.config) == Some(b);
        assert n2[i] in n1;
      }
    }
    SearchDependsOnBlocks(conf, PrivateNets(n1) + conf.blacklist, PrivateNets(n2) + conf.blacklist);
  }

  /**
   * Once a subnet is in use it is not handed out again: with the chosen
   * block added to the snapshot, the next search finds a strictly higher
   * block or none.
   */
  lemma ChosenSubnetNotChosenAgain(conf: NetworkConf, existing: seq<Block>, r: Block)
    requires 0 <= conf.subnet <= 32
    requires Search(conf, existing) == Some(r)
    ensures Search(conf, existing + [r]).Some? ==> Search(conf, existing + [r]).value.base > r.base
  {
    var more := existing + [r];
    if Search(conf, more).Some? {
      var r2 := Search(conf, more).value;
      assert r2.base != r.base by {
        MaskOfAligned(r.base, r.prefix);
        assert more[|existing|] == r;
      }
      TakenStaysTaken(r2, existing, [r]);
      assert IsCandidate(conf, r2) && Acceptable(conf, existing, r2);
      SearchIsLeast(conf, existing);
    }
  }

  /** A block taken by a snapshot is still taken when more blocks are appended to it. */
  lemma TakenStaysTaken(b: Block, existing: seq<Block>, extra: seq<Block>)
    ensures IsItTaken(b, existing) ==> IsItTaken(b, existing + extra)
  {
    if IsItTaken(b, existing) {
      var i :| 0 <= i < |existing| && Contains(existing[i], b.base);
      assert (existing + extra)[i] == existing[i];
    }
  }

  /** When an aligned block shares an address with an aligned block at least as large, the larger one contains the smaller one's base. */
  lemma NestedBlocks(small: Block, large: Block, a: Addr)
    requires Aligned(small) && Aligned(large) && large.prefix <= small.prefix
    requires Contains(small, a) && Contains(large, a)
    ensures Contains(large, small.base)
  {
    var s, l := BlockSize(small.prefix), BlockSize(large.prefix);
    ContainsIff(small, a);
    ContainsIff(large, a);
    NestedAligned(large.base, large.prefix, small.prefix);
    if small.base < large.base {
      MultiplesApart(small.base, large.base, s);
    }
    Pow2Add(32 - small.prefix, small.prefix - large.prefix);
    assert 32 - large.prefix == (32 - small.prefix) + (small.prefix - large.prefix);
    MulMono(1, Pow2(small.prefix - large.prefix), s);
    ContainsIff(large, small.base);
  }

  /**
   * The chosen subnet shares no address with any block of the snapshot that
   * is at least as large as it: for those, base containment rules out
   * overlap.
   */
  lemma ChosenSubnetDisjointFromLargerBlocks(conf: NetworkConf, existing: seq<Block>, r: Block, n: Block, a: Addr)
    requires 0 <= conf.subnet <= 32
    requires Search(conf, existing) == Some(r)
    requires n in existing && Aligned(n) && n.prefix <= r.prefix
    ensures !(Contains(r, a) && Contains(n, a))
  {
    if Contains(r, a) && Contains(n, a) {
      NestedBlocks(r, n, a);
    }
  }

  /**
   * isItTaken tests the candidate's base address only, so a smaller block
   * inside the candidate does not stop it: with 10.0.0.128/25 in use, the
   * search in 10.0.0.0/8 for /24 blocks picks 10.0.0.0/24, which holds
   * 10.0.0.128.
   */
  lemma BaseContainmentAllowsOverlap()
    ensures var conf := NetworkConf(Block(Ip(10, 0, 0, 0), 8), 24, []);
      var used := Block(Ip(10, 0, 0, 128), 25);
      && Search(conf, [used]) == Some(Block(Ip(10, 0, 0, 0), 24))
      && Contains(used, Ip(10, 0, 0, 128))
      && Contains(Block(Ip(10, 0, 0, 0), 24), Ip(10, 0, 0, 128))
  {
    BlockSizes();
    var conf := NetworkConf(Block(Ip(10, 0, 0, 0), 8), 24, []);
    var used := Block(Ip(10, 0, 0, 128), 25);
    var first := Block(Ip(10, 0, 0, 0), 24);
    assert FirstNetwork(conf) == first;
    assert !Contains(used, first.base);
    assert !IsItTaken(first, [used]);
    assert Contains(conf.scope, first.base);
    assert Contains(Private24BitBlock, first.base);
    assert Acceptable(conf, [used], first);
  }

  // ----- the candidates the loop tests -----

  /** The blocks the loop tests from c on, in order, up to the one it takes or the one after which it wraps. */
  ghost function TestedFrom(conf: NetworkConf, existing: seq<Block>, c: Block): seq<Block>
    requires c.prefix == conf.subnet && Aligned(c)
    decreases AddressCount - c.base
  {
    if Acceptable(conf, existing, c) then [c]
    else
      var (next, max) := NextSubnet(c);
      if max then [c] else [c] + TestedFrom(conf, existing, next)
  }

  /**
   * The loop tests blocks one block size apart, starting at c; every block
   * but the last fails the tests; the last is the result, or, when the
   * search fails, it is the block holding 255.255.255.255: leaving the
   * scope does not end the search, only the wrap does.
   */
  lemma {:induction false} TestedFromShape(conf: NetworkConf, existing: seq<Block>, c: Block)
    requires c.prefix == conf.subnet && Aligned(c)
    ensures var t := TestedFrom(conf, existing, c);
      && 1 <= |t| && t[0] == c
      && (forall i :: 0 <= i < |t| ==> t[i].prefix == conf.subnet && Aligned(t[i]))
      && (forall i :: 0 <= i < |t| - 1 ==> t[i + 1].base == t[i].base + BlockSize(conf.subnet))
      && (forall i :: 0 <= i < |t| - 1 ==> !Acceptable(conf, existing, t[i]))
    decreases AddressCount - c.base
  {
    var t := TestedFrom(conf, existing, c);
    if !Acceptable(conf, existing, c) {
      var (next, max) := NextSubnet(c);
      if !max {
        TestedFromShape(conf, existing, next);
        var rest := TestedFrom(conf, existing, next);
        assert t == [c] + rest;
        assert forall i :: 1 <= i < |t| ==> t[i] == rest[i - 1];
      }
    }
  }

  /** The last block tested is the result, or, when there is none, the block holding 255.255.255.255. */
  lemma {:induction false} TestedFromEnd(conf: NetworkConf, existing: seq<Block>, c: Block)
    requires c.prefix == conf.subnet && Aligned(c)
    ensures var t := TestedFrom(conf, existing, c);
      && 1 <= |t|
      && (SearchFrom(conf, existing, c).Some? ==> SearchFrom(conf, existing, c).value == t[|t| - 1])
      && (SearchFrom(conf, existing, c).None? ==>
            !Acceptable(conf, existing, t[|t| - 1]) && Contains(t[|t| - 1], AddressCount - 1))
    decreases AddressCount - c.base
  {
    if !Acceptable(conf, existing, c) {
      var (next, max) := NextSubnet(c);
      if max {
        ContainsIff(c, AddressCount - 1);
      } else {
        TestedFromEnd(conf, existing, next);
        assert TestedFrom(conf, existing, c) == [c] + TestedFrom(conf, existing, next);
      }
    }
  }

  /** Blocks that follow each other one step apart are i steps from the first. */
  lemma {:induction false} EvenSteps(t: seq<Block>, s: nat, i: nat)
    requires i < |t|
    requires forall j :: 0 <= j < |t| - 1 ==> t[j + 1].base == t[j].base + s
    ensures t[i].base == t[0].base + i * s
  {
    if i > 0 {
      EvenSteps(t, s, i - 1);
      assert (i - 1) * s + s == i * s;
    }
  }

  /** The loop tests at most one candidate per block of the configured size in the address space, 2^subnet in all. */
  lemma TestedCount(conf: NetworkConf, existing: seq<Block>)
    requires 0 <= conf.subnet <= 32
    ensures |TestedFrom(conf, existing, FirstNetwork(conf))| <= Pow2(conf.subnet)
  {
    var first := FirstNetwork(conf);
    var t := TestedFrom(conf, existing, first);
    var s := BlockSize(conf.subnet);
    TestedFromShape(conf, existing, first);
    var n := |t| - 1;
    EvenSteps(t, s, n);
    AlignedUpperBound(t[n].base, conf.subnet);
    BlockSizeDividesSpace(conf.subnet);
    FewerThanFit(n, s, Pow2(conf.subnet));
  }

  lemma FewerThanFit(n: nat, s: nat, k: nat)
    requires s >= 1 && n * s + s <= s * k
    ensures n + 1 <= k
  {
    if n + 1 > k {
      MulMono(k, n, s);
    }
  }
}
