/**
 * Worked requests: the subnet the search settles on, and the creation
 * request that follows, for a few concrete configurations and snapshots.
 */
module Scenarios {
  import opened Wrappers
  import opened Ipv4
  import opened Docker
  import opened Allocation
  import opened Snapshot
  import opened Service
  import opened AllocationProperties

  /** /24 subnets handed out from 10.0.0.0/8, nothing blacklisted. */
  function TenSlashEight(): NetworkConf
  {
    NetworkConf(Block(Ip(10, 0, 0, 0), 8), 24, [])
  }

  /** With no network in use, the first /24 of the scope is chosen, and its gateway is 10.0.0.1. */
  lemma EmptySnapshotGetsFirstBlock()
    ensures Search(TenSlashEight(), []) == Some(Block(Ip(10, 0, 0, 0), 24))
    ensures Gateway(Block(Ip(10, 0, 0, 0), 24)) == Ip(10, 0, 0, 1)
  {
    BlockSizes();
    var first := Block(Ip(10, 0, 0, 0), 24);
    assert MaskTo(first.base, 24) == first.base;
    assert FirstNetwork(TenSlashEight()) == first;
    assert MaskTo(first.base, 8) == first.base;
    assert Contains(Private24BitBlock, first.base);
  }

  /** With 10.0.0.0/24 in use, the search steps one block up to 10.0.1.0/24. */
  lemma TakenBlockIsSkipped()
    ensures Search(TenSlashEight(), [Block(Ip(10, 0, 0, 0), 24)]) == Some(Block(Ip(10, 0, 1, 0), 24))
  {
    BlockSizes();
    var existing := [Block(Ip(10, 0, 0, 0), 24)];
    var first := Block(Ip(10, 0, 0, 0), 24);
    var second := Block(Ip(10, 0, 1, 0), 24);
    assert MaskTo(first.base, 24) == first.base;
    assert FirstNetwork(TenSlashEight()) == first;
    assert IsItTaken(first, existing);
    assert NextSubnet(first) == (second, false);
    assert MaskTo(second.base, 24) != first.base;
    assert !IsItTaken(second, existing);
    assert MaskTo(second.base, 8) == first.base;
    assert Contains(Private24BitBlock, second.base);
  }

  /** A /24 scope whose one block is blacklisted: every later candidate lies outside the scope, so the request runs out of networks. */
  lemma BlacklistedScopeIsExhausted()
    ensures var conf := NetworkConf(Block(Ip(192, 168, 1, 0), 24), 24, [Block(Ip(192, 168, 1, 0), 24)]);
      Search(conf, conf.blacklist) == None
  {
    BlockSizes();
    var scope := Block(Ip(192, 168, 1, 0), 24);
    var conf := NetworkConf(scope, 24, [scope]);
    assert MaskTo(scope.base, 24) == scope.base;
    assert FirstNetwork(conf) == scope;
    forall b | IsCandidate(conf, b) ensures !Acceptable(conf, conf.blacklist, b) {
      ContainsIff(scope, b.base);
      if b.base != scope.base {
        MultiplesApart(scope.base, b.base, BlockSize(24));
      } else {
        assert Contains(conf.blacklist[0], b.base);
      }
    }
    SearchIsLeast(conf, conf.blacklist);
  }

  /**
   * A Docker network whose Subnet is written in IPv4-mapped form,
   * "::ffff:10.0.0.0/104", contributes the IPv4 block 10.0.0.0/8. That block
   * holds every candidate of the scope 10.0.0.0/8, so the search finds none.
   */
  lemma MappedSubnetTakesItsIpv4Block()
    ensures var pool := IpamConfig(Ipv4Subnet(CidrLiteral(Ip(10, 0, 0, 0), 8), true), None);
      var n := NetworkResource("mapped", "bridge", Ipam("default", [pool]));
      && PrivateNets([n]) == [Private24BitBlock]
      && Search(TenSlashEight(), PrivateNets([n])) == None
  {
    BlockSizes();
    var pool := IpamConfig(Ipv4Subnet(CidrLiteral(Ip(10, 0, 0, 0), 8), true), None);
    var n := NetworkResource("mapped", "bridge", Ipam("default", [pool]));
    assert MaskTo(Private24BitBlock.base, 8) == Private24BitBlock.base;
    assert FirstSubnet([pool]) == pool.subnet;
    assert Contribution(n) == [Private24BitBlock];
    assert PrivateNets([n]) == PrivateNets([]) + Contribution(n);
    var conf := TenSlashEight();
    assert conf.scope == Private24BitBlock;
    forall b | IsCandidate(conf, b) ensures !Acceptable(conf, [Private24BitBlock], b) {
      if Contains(conf.scope, b.base) {
        assert IsItTaken(b, [Private24BitBlock]);
      }
    }
    SearchIsLeast(conf, [Private24BitBlock]);
  }

  /** A bridge request against an empty Docker: lock, list, create 10.0.0.0/24 with gateway 10.0.0.1, unlock. */
  lemma FirstBridgeRequest(name: string, created: Result<NetworkCreateResponse, string>)
    ensures var svc := NetworkAddressService(TenSlashEight(), TenSlashEight());
      var docker := DockerReplies(Failure("not asked"), Success([]), created);
      var subnet := Block(Ip(10, 0, 0, 0), 24);
      var options := CreateOptions("bridge", subnet);
      && Trace(svc, "bridge", name, docker) == [AcquireLock, ListNetworks, CreateNetworkCall(name, options), ReleaseLock]
      && options.ipam.config[0].gateway == Some(Ip(10, 0, 0, 1))
  {
    EmptySnapshotGetsFirstBlock();
    assert Existing(TenSlashEight(), []) == [];
  }
}
