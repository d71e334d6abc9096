/**
 * The snapshot of blocks Docker already uses, as CreateNetwork builds it
 * from the network list: dockerNetworksToIPNets and getPrivateSubnet of
 * service/network.go.
 */
module Snapshot {
  import opened Wrappers
  import opened Ipv4
  import opened Docker
  import opened Allocation

  /** The Subnet of the first IPAM entry whose Subnet is not empty, or NoSubnet when all are empty. */
  function FirstSubnet(configs: seq<IpamConfig>): (t: SubnetText)
    ensures t.NoSubnet? <==> forall i :: 0 <= i < |configs| ==> configs[i].subnet.NoSubnet?
    ensures !t.NoSubnet? ==> exists i :: IsFirstConfigured(configs, i) && configs[i].subnet == t
  {
    if |configs| == 0 then NoSubnet
    else if !configs[0].subnet.NoSubnet? then
      assert IsFirstConfigured(configs, 0);
      configs[0].subnet
    else
      var t := FirstSubnet(configs[1..]);
      assert forall i :: 0 <= i < |configs| - 1 ==> configs[1..][i] == configs[i + 1];
      assert forall i :: IsFirstConfigured(configs[1..], i) ==> IsFirstConfigured(configs, i + 1);
      t
  }

  /** Entry i is the first IPAM entry with a non-empty Subnet. */
  ghost predicate IsFirstConfigured(configs: seq<IpamConfig>, i: int)
  {
    && 0 <= i < |configs|
    && !configs[i].subnet.NoSubnet?
    && forall j :: 0 <= j < i ==> configs[j].subnet.NoSubnet?
  }

  /**
   * getPrivateSubnet: the block of the first non-empty Subnet, when it is an
   * IPv4 block whose (normalised) base address is private. A Subnet that
   * cannot be parsed counts as "not found" (see PrivateSubnetAsWritten).
   */
  function PrivateSubnet(configs: seq<IpamConfig>): (r: Option<Block>)
    ensures r.Some? ==> Aligned(r.value) && IsPrivateNet(r.value.base)
  {
    match FirstSubnet(configs)
    case Ipv4Subnet(cidr, _) =>
      var s := Parse(cidr.ip, cidr.prefix);
      if IsPrivateNet(s.base) then Some(s) else None
    case _ => None
  }

  /** Only the first configured Subnet counts: it is taken when it is an IPv4 block with a private base, and then it is the result. */
  lemma PrivateSubnetIsFirstConfigured(configs: seq<IpamConfig>, b: Block)
    ensures PrivateSubnet(configs) == Some(b) <==>
      exists i :: IsFirstConfigured(configs, i) && configs[i].subnet.Ipv4Subnet?
        && b == Parse(configs[i].subnet.cidr.ip, configs[i].subnet.cidr.prefix) && IsPrivateNet(b.base)
  {
    var t := FirstSubnet(configs);
    forall i, k | IsFirstConfigured(configs, i) && IsFirstConfigured(configs, k) ensures i == k {
    }
  }

  /**
   * getPrivateSubnet, corrected: the loop stops at the first non-empty Subnet
   * and parses it; the found block is returned when its base address is
   * private. An unparsable Subnet gives None here, where the source
   * dereferences a nil pointer (see PrivateSubnetAsWritten).
   */
  method GetPrivateSubnet(configs: seq<IpamConfig>) returns (subnet: Option<Block>)
    ensures subnet == PrivateSubnet(configs)
  {
    var parsed: Option<Block> := None;
    var i := 0;
    while i < |configs|
      invariant 0 <= i <= |configs|
      invariant forall j :: 0 <= j < i ==> configs[j].subnet.NoSubnet?
      invariant FirstSubnet(configs) == FirstSubnet(configs[i..])
    {
      var c := configs[i];
      if !c.subnet.NoSubnet? {
        if c.subnet.Malformed? {
          return None;
        }
        // an IPv6 block without an IPv4 form is kept too, but never passes isPrivateNet
        parsed := if c.subnet.Ipv4Subnet? then Some(Parse(c.subnet.cidr.ip, c.subnet.cidr.prefix)) else None;
        break;
      }
      assert configs[i..][1..] == configs[i + 1..];
      i := i + 1;
    }
    if parsed.Some? && IsPrivateNet(parsed.value.base) {
      return parsed;
    }
    return None;
  }

  /** Docker networks with these drivers have no addresses of their own and are skipped. */
  predicate Addressable(n: NetworkResource)
  {
    n.driver != "host" && n.driver != "none"
  }

  /** What one Docker network adds to the snapshot: its private subnet, if it is addressable and has one. */
  function Contribution(n: NetworkResource): (r: seq<Block>)
    ensures |r| <= 1
  {
    if Addressable(n) then
      match PrivateSubnet(n.ipam.config)
      case Some(s) => [s]
      case None => []
    else []
  }

  /** dockerNetworksToIPNets: the private subnets of the addressable networks, in list order. */
  function PrivateNets(networks: seq<NetworkResource>): (r: seq<Block>)
    ensures |r| <= |networks|
    ensures forall i :: 0 <= i < |r| ==> Aligned(r[i]) && IsPrivateNet(r[i].base)
  {
    if |networks| == 0 then []
    else PrivateNets(networks[..|networks| - 1]) + Contribution(networks[|networks| - 1])
  }

  /** A block is in the snapshot exactly when some Docker network contributes it. */
  lemma {:induction false} SnapshotOfContributions(networks: seq<NetworkResource>, b: Block)
    ensures b in PrivateNets(networks) <==> exists i :: 0 <= i < |networks| && b in Contribution(networks[i])
  {
    if |networks| > 0 {
      var n := |networks| - 1;
      var init, last := networks[..n], networks[n];
      assert PrivateNets(networks) == PrivateNets(init) + Contribution(last);
      SnapshotOfContributions(init, b);
      if b in PrivateNets(networks) {
        if b in PrivateNets(init) {
          var i :| 0 <= i < |init| && b in Contribution(init[i]);
          assert networks[i] == init[i];
        } else {
          assert b in Contribution(networks[n]);
        }
      }
      if exists i :: 0 <= i < |networks| && b in Contribution(networks[i]) {
        var i :| 0 <= i < |networks| && b in Contribution(networks[i]);
        if i < n {
          assert init[i] == networks[i];
          assert b in PrivateNets(init);
        } else {
          assert i == n;
        }
      }
    }
  }

  /** One network contributes a block exactly when it is addressable and the block is its private subnet. */
  lemma ContributionMembers(n: NetworkResource, b: Block)
    ensures b in Contribution(n) <==> Addressable(n) && PrivateSubnet(n.ipam.config) == Some(b)
  {
  }

  /** A block is in the snapshot exactly when it is the private subnet of some addressable Docker network. */
  lemma PrivateNetsMembers(networks: seq<NetworkResource>, b: Block)
    ensures b in PrivateNets(networks) <==>
      exists i :: 0 <= i < |networks| && Addressable(networks[i]) && PrivateSubnet(networks[i].ipam.config) == Some(b)
  {
    SnapshotOfContributions(networks, b);
    forall i | 0 <= i < |networks|
      ensures b in Contribution(networks[i]) <==> Addressable(networks[i]) && PrivateSubnet(networks[i].ipam.config) == Some(b)
    {
      ContributionMembers(networks[i], b);
    }
  }

  /** The snapshot of one more network is the snapshot so far plus that network's contribution. */
  lemma PrivateNetsStep(networks: seq<NetworkResource>, i: nat)
    requires i < |networks|
    ensures PrivateNets(networks[..i + 1]) == PrivateNets(networks[..i]) + Contribution(networks[i])
  {
    assert networks[..i + 1][..i] == networks[..i];
  }

  /** dockerNetworksToIPNets (network.go:137-149): one pass over the list, appending each network's private subnet. */
  method DockerNetworksToIPNets(dockerNetworks: seq<NetworkResource>) returns (ipNets: seq<Block>)
    ensures ipNets == PrivateNets(dockerNetworks)
  {
    ipNets := [];
    for i := 0 to |dockerNetworks|
      invariant ipNets == PrivateNets(dockerNetworks[..i])
    {
      var dockerNetwork := dockerNetworks[i];
      PrivateNetsStep(dockerNetworks, i);
      if dockerNetwork.driver != "host" && dockerNetwork.driver != "none" {
        var subnet := GetPrivateSubnet(dockerNetwork.ipam.config);
        if subnet.Some? {
          ipNets := ipNets + [subnet.value];
        }
      }
    }
    assert dockerNetworks[..|dockerNetworks|] == dockerNetworks;
  }

  // ----- the source's behaviour on an unparsable Subnet -----

  /** What getPrivateSubnet does as written: find a block, find none, or dereference a nil pointer. */
  datatype Lookup = Found(subnet: Block) | NotFound | NilDereference

  /**
   * getPrivateSubnet exactly as written: when the first non-empty Subnet
   * does not parse, net.ParseCIDR returns a nil *IPNet and the function
   * dereferences it (network.go:196-198), which panics the request.
   */
  function PrivateSubnetAsWritten(configs: seq<IpamConfig>): (r: Lookup)
    ensures r.NilDereference? <==> FirstSubnet(configs).Malformed?
  {
    match FirstSubnet(configs)
    case Malformed => NilDereference
    case Ipv4Subnet(cidr, _) =>
      var s := Parse(cidr.ip, cidr.prefix);
      if IsPrivateNet(s.base) then Found(s) else NotFound
    case _ => NotFound
  }

  /** A Docker network whose only pool has an unparsable Subnet makes the source panic, where the model skips it. */
  lemma UnparsableSubnetPanics(n: NetworkResource)
    requires Addressable(n) && n.ipam.config == [IpamConfig(Malformed, None)]
    ensures PrivateSubnetAsWritten(n.ipam.config) == NilDereference
    ensures PrivateSubnet(n.ipam.config) == None && Contribution(n) == []
  {
    assert FirstSubnet(n.ipam.config) == Malformed;
  }

  /** Apart from the nil dereference, the corrected lookup is the one written. */
  lemma PrivateSubnetCorrectsOnlyTheNilDereference(configs: seq<IpamConfig>)
    ensures !FirstSubnet(configs).Malformed? ==>
      (PrivateSubnetAsWritten(configs) == NotFound <==> PrivateSubnet(configs) == None)
    ensures forall b :: PrivateSubnetAsWritten(configs) == Found(b) <==> PrivateSubnet(configs) == Some(b)
  {
  }
}
