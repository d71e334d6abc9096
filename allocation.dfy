/**
 * The allocation engine of service/network.go: the three tests a candidate
 * subnet must pass (isItTaken, the scope's Contains, isPrivateNet), the
 * first candidate (firstNetwork) and the search loop of CreateNetwork that
 * steps through candidates with cidr.NextSubnet.
 */
module Allocation {
  import opened Wrappers
  import opened Ipv4
  import opened Docker

  /** 10.0.0.0/8, the 24-bit private block of section 3 of RFC 1918. */
  const Private24BitBlock: Block := Block(167772160, 8)
  /** 172.16.0.0/12, the 20-bit private block of section 3 of RFC 1918. */
  const Private20BitBlock: Block := Block(2886729728, 12)
  /** 192.168.0.0/16, the 16-bit private block of section 3 of RFC 1918. */
  const Private16BitBlock: Block := Block(3232235520, 16)

  /**
   * networkConf: one network kind's configuration after readConf: the
   * normalised scope, the prefix length of the subnets to hand out (an
   * unchecked int, as in the source) and the normalised blacklist.
   */
  datatype NetworkConf = NetworkConf(scope: Block, subnet: int, blacklist: seq<Block>)

  /** isPrivateNet: the address lies in one of the three private blocks. */
  predicate IsPrivateNet(ip: Addr)
  {
    Contains(Private24BitBlock, ip) || Contains(Private20BitBlock, ip) || Contains(Private16BitBlock, ip)
  }

  /** isItTaken: some block of nets contains the base address of network (the first match ends the scan). */
  function IsItTaken(network: Block, nets: seq<Block>): (taken: bool)
    ensures taken <==> exists i :: 0 <= i < |nets| && Contains(nets[i], network.base)
  {
    if |nets| == 0 then false
    else if Contains(nets[0], network.base) then true
    else
      var rest := IsItTaken(network, nets[1..]);
      assert forall i :: 0 <= i < |nets| - 1 ==> nets[1..][i] == nets[i + 1];
      rest
  }

  /**
   * firstNetwork: the scope's base address re-read with the configured
   * prefix length. The source parses "scope/subnet", which fails (and the
   * request panics) unless 0 <= subnet <= 32.
   */
  function FirstNetwork(conf: NetworkConf): (first: Block)
    requires 0 <= conf.subnet <= 32
    ensures first.prefix == conf.subnet && Aligned(first)
    ensures first.base <= conf.scope.base < first.base + BlockSize(conf.subnet)
    ensures Aligned(conf.scope) && conf.scope.prefix <= conf.subnet ==> first.base == conf.scope.base
  {
    AlignedScopeBase(conf.scope, conf.subnet);
    Parse(conf.scope.base, conf.subnet)
  }

  lemma AlignedScopeBase(scope: Block, p: Prefix)
    ensures Aligned(scope) && scope.prefix <= p ==> MaskTo(scope.base, p) == scope.base
  {
    if Aligned(scope) && scope.prefix <= p {
      NestedAligned(scope.base, scope.prefix, p);
      MaskOfAligned(scope.base, p);
    }
  }

  /** The three tests of the loop: not taken, inside the configured scope, private. */
  predicate Acceptable(conf: NetworkConf, existing: seq<Block>, candidate: Block)
  {
    && !IsItTaken(candidate, existing)
    && Contains(conf.scope, candidate.base)
    && IsPrivateNet(candidate.base)
  }

  /** A block the search can reach: of the configured size, aligned, and not below the first candidate. */
  predicate IsCandidate(conf: NetworkConf, b: Block)
    requires 0 <= conf.subnet <= 32
  {
    b.prefix == conf.subnet && Aligned(b) && FirstNetwork(conf).base <= b.base
  }

  /**
   * The search from candidate on, as the loop runs it: the candidate is
   * returned when it passes the three tests; otherwise the search moves one
   * block up, and gives up (None) once NextSubnet wraps past the top of the
   * address space, without testing the wrapped block.
   */
  function SearchFrom(conf: NetworkConf, existing: seq<Block>, candidate: Block): (r: Option<Block>)
    requires candidate.prefix == conf.subnet && Aligned(candidate)
    ensures r.Some? ==> r.value.prefix == conf.subnet && Aligned(r.value)
    ensures r.Some? ==> candidate.base <= r.value.base && Acceptable(conf, existing, r.value)
    decreases AddressCount - candidate.base
  {
    if Acceptable(conf, existing, candidate) then Some(candidate)
    else
      var (next, max) := NextSubnet(candidate);
      if max then None else SearchFrom(conf, existing, next)
  }

  /** The subnet CreateNetwork settles on for a configuration and a snapshot of existing blocks, or None when it reports ErrNoMoreNetworks. */
  function Search(conf: NetworkConf, existing: seq<Block>): (r: Option<Block>)
    requires 0 <= conf.subnet <= 32
    ensures r.Some? ==> IsCandidate(conf, r.value) && Acceptable(conf, existing, r.value)
  {
    SearchFrom(conf, existing, FirstNetwork(conf))
  }

  /** r is the lowest candidate that passes the three tests. */
  ghost predicate IsLeastAcceptable(conf: NetworkConf, existing: seq<Block>, r: Block)
    requires 0 <= conf.subnet <= 32
  {
    && IsCandidate(conf, r)
    && Acceptable(conf, existing, r)
    && forall b :: IsCandidate(conf, b) && b.base < r.base ==> !Acceptable(conf, existing, b)
  }

  /** No candidate passes the three tests. */
  ghost predicate NoneAcceptable(conf: NetworkConf, existing: seq<Block>)
    requires 0 <= conf.subnet <= 32
  {
    forall b :: IsCandidate(conf, b) ==> !Acceptable(conf, existing, b)
  }

  /** A result of the search from c is the lowest aligned block at or above c that passes the tests. */
  lemma {:induction false} SearchFromIsLeast(conf: NetworkConf, existing: seq<Block>, c: Block)
    requires c.prefix == conf.subnet && Aligned(c)
    ensures SearchFrom(conf, existing, c).Some? ==>
      forall b: Block :: b.prefix == conf.subnet && Aligned(b) && c.base <= b.base < SearchFrom(conf, existing, c).value.base
        ==> !Acceptable(conf, existing, b)
    decreases AddressCount - c.base
  {
    if !Acceptable(conf, existing, c) {
      var (next, max) := NextSubnet(c);
      if !max {
        SearchFromIsLeast(conf, existing, next);
      }
      forall b: Block | b.prefix == conf.subnet && Aligned(b) && c.base < b.base
        ensures !max && next.base <= b.base
      {
        NextSubnetSkipsNothing(c, b);
      }
    }
  }

  /** The search from c gives up only when no aligned block at or above c passes the tests. */
  lemma {:induction false} SearchFromExhausts(conf: NetworkConf, existing: seq<Block>, c: Block)
    requires c.prefix == conf.subnet && Aligned(c)
    ensures SearchFrom(conf, existing, c).None? ==>
      forall b: Block :: b.prefix == conf.subnet && Aligned(b) && c.base <= b.base ==> !Acceptable(conf, existing, b)
    decreases AddressCount - c.base
  {
    if !Acceptable(conf, existing, c) {
      var (next, max) := NextSubnet(c);
      if !max {
        SearchFromExhausts(conf, existing, next);
      }
      forall b: Block | b.prefix == conf.subnet && Aligned(b) && c.base < b.base
        ensures !max && next.base <= b.base
      {
        NextSubnetSkipsNothing(c, b);
      }
    }
  }

  /** Search returns exactly the lowest candidate that passes the three tests, and None exactly when no candidate does. */
  lemma SearchIsLeast(conf: NetworkConf, existing: seq<Block>)
    requires 0 <= conf.subnet <= 32
    ensures Search(conf, existing).Some? ==> IsLeastAcceptable(conf, existing, Search(conf, existing).value)
    ensures Search(conf, existing).None? <==> NoneAcceptable(conf, existing)
    ensures forall r :: IsLeastAcceptable(conf, existing, r) ==> Search(conf, existing) == Some(r)
  {
    var first := FirstNetwork(conf);
    SearchFromIsLeast(conf, existing, first);
    SearchFromExhausts(conf, existing, first);
    forall r | IsLeastAcceptable(conf, existing, r)
      ensures Search(conf, existing) == Some(r)
    {
      var found := Search(conf, existing).value;
      // Split on the order of the two bases: in either strict order, the lower
      // block is an acceptable candidate below the other, which contradicts
      // the other's leastness, so only equal bases remain.
      if found.base < r.base {
      } else if r.base < found.base {
      }
    }
  }

  /**
   * The loop of CreateNetwork (network.go:109-129): starting at
   * firstNetwork, test the candidate, and either take it or step to the
   * next block; stop with ErrNoMoreNetworks when the step wraps.
   */
  method FindSubnet(conf: NetworkConf, existing: seq<Block>) returns (r: Result<Block, Error>)
    requires 0 <= conf.subnet <= 32
    ensures r == (if Search(conf, existing).Some? then Success(Search(conf, existing).value) else Failure(NoMoreNetworks))
    ensures r.Success? ==> IsLeastAcceptable(conf, existing, r.value)
    ensures r.Failure? ==> r.error == NoMoreNetworks && NoneAcceptable(conf, existing)
  {
    SearchIsLeast(conf, existing);
    var newNet := FirstNetwork(conf);
    while true
      invariant newNet.prefix == conf.subnet && Aligned(newNet)
      invariant SearchFrom(conf, existing, newNet) == Search(conf, existing)
      decreases AddressCount - newNet.base
    {
      var taken := IsItTaken(newNet, existing);
      var subnet := Contains(conf.scope, newNet.base);
      var private := IsPrivateNet(newNet.base);
      if !taken && subnet && private {
        return Success(newNet);
      }
      var (next, max) := NextSubnet(newNet);
      newNet := next;
      if max {
        return Failure(NoMoreNetworks);
      }
    }
  }
}
