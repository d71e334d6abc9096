/**
 * The network address service of service/network.go: reading the
 * configuration (readConf, NewNetworkAddressService), the creation request
 * for a chosen subnet (createNetwork) and the CreateNetwork operation that
 * ties the lock, the Docker calls, the snapshot and the search together.
 *
 * The Docker client is not modelled: its answers are the DockerReplies
 * argument, and the calls made on it (with the taking and releasing of the
 * service's mutex) are returned as a trace of Call values.
 */
module Service {
  import opened Wrappers
  import opened Ipv4
  import opened Docker
  import opened Allocation
  import opened Snapshot

  /** The driver name that selects the overlay configuration and the swarm check. */
  const OverlayNet: string := "overlay"

  /** networkAddressService: the configuration of each network kind (the mutex and the client are represented in CreateNetwork). */
  datatype NetworkAddressService = NetworkAddressService(bridge: NetworkConf, overlay: NetworkConf)

  /** nc is what readConf makes of conf: each CIDR literal normalised by net.ParseCIDR, the subnet length copied. */
  ghost predicate ReadsAs(conf: NetworkConfig, nc: NetworkConf)
  {
    && nc.scope == Parse(conf.networkScope.ip, conf.networkScope.prefix)
    && nc.subnet == conf.subnetMask
    && |nc.blacklist| == |conf.blacklist|
    && forall i :: 0 <= i < |conf.blacklist| ==> nc.blacklist[i] == Parse(conf.blacklist[i].ip, conf.blacklist[i].prefix)
  }

  /**
   * readConf (network.go:50-64) on a well-formed configuration: the scope
   * and every blacklist entry become aligned blocks holding the address
   * they were written with, in the order written.
   */
  method ReadConf(conf: NetworkConfig) returns (nc: NetworkConf)
    ensures ReadsAs(conf, nc)
    ensures Aligned(nc.scope) && Contains(nc.scope, conf.networkScope.ip)
    ensures forall i :: 0 <= i < |nc.blacklist| ==>
      Aligned(nc.blacklist[i]) && nc.blacklist[i].prefix == conf.blacklist[i].prefix && Contains(nc.blacklist[i], conf.blacklist[i].ip)
  {
    var s := Parse(conf.networkScope.ip, conf.networkScope.prefix);
    var blacklist: seq<Block> := [];
    for i := 0 to |conf.blacklist|
      invariant |blacklist| == i
      invariant forall j :: 0 <= j < i ==> blacklist[j] == Parse(conf.blacklist[j].ip, conf.blacklist[j].prefix)
    {
      var ipnet := Parse(conf.blacklist[i].ip, conf.blacklist[i].prefix);
      blacklist := blacklist + [ipnet];
    }
    nc := NetworkConf(s, conf.subnetMask, blacklist);
  }

  /** NewNetworkAddressService without the Docker client: both kinds' configurations read by readConf. */
  method NewNetworkAddressService(conf: Conf) returns (svc: NetworkAddressService)
    ensures ReadsAs(conf.bridge, svc.bridge) && ReadsAs(conf.overlay, svc.overlay)
  {
    var bridge := ReadConf(conf.bridge);
    var overlay := ReadConf(conf.overlay);
    svc := NetworkAddressService(bridge, overlay);
  }

  /** The configuration CreateNetwork uses for a driver: overlay for "overlay", bridge for any other. */
  function ConfFor(svc: NetworkAddressService, driver: string): (conf: NetworkConf)
    ensures conf == svc.overlay <== driver == OverlayNet
    ensures conf == svc.bridge <== driver != OverlayNet
  {
    if driver == OverlayNet then svc.overlay else svc.bridge
  }

  /**
   * The gateway createNetwork asks for: cidr.Inc of the first address of
   * cidr.AddressRange, which is the block's IP. For an aligned block of two
   * or more addresses this is the second address of the block; a /32 block
   * gets a gateway outside it.
   */
  function Gateway(subnet: Block): (gateway: Addr)
    ensures subnet.base < AddressCount - 1 ==> gateway == subnet.base + 1
    ensures Aligned(subnet) && subnet.prefix < 32 ==> gateway == subnet.base + 1 && Contains(subnet, gateway)
    ensures subnet.prefix == 32 ==> !Contains(subnet, gateway)
  {
    var first := AddressRange(subnet).0;
    GatewayPlacement(subnet);
    Inc(first)
  }

  lemma GatewayPlacement(subnet: Block)
    ensures Aligned(subnet) && subnet.prefix < 32 ==>
      var gateway := Inc(AddressRange(subnet).0);
      gateway == subnet.base + 1 && Contains(subnet, gateway)
    ensures subnet.prefix == 32 ==> !Contains(subnet, Inc(AddressRange(subnet).0))
  {
    if Aligned(subnet) && subnet.prefix < 32 {
      SecondAddress(subnet);
    }
    if subnet.prefix == 32 {
      SingleAddress(subnet);
    }
  }

  lemma SecondAddress(subnet: Block)
    requires Aligned(subnet) && subnet.prefix < 32
    ensures subnet.base + 1 < AddressCount && Contains(subnet, subnet.base + 1)
    ensures Inc(AddressRange(subnet).0) == subnet.base + 1
  {
    var s := BlockSize(subnet.prefix);
    assert s == 2 * Pow2(31 - subnet.prefix);
    AlignedUpperBound(subnet.base, subnet.prefix);
    ContainsIff(subnet, subnet.base + 1);
  }

  lemma SingleAddress(subnet: Block)
    requires subnet.prefix == 32
    ensures !Contains(subnet, Inc(AddressRange(subnet).0))
  {
    assert BlockSize(32) == 1;
    var first := AddressRange(subnet).0;
    var g := Inc(first);
    MaskOfAligned(g, 32);
    MaskOfAligned(subnet.base, 32);
    assert first == subnet.base;
  }

  /**
   * The options createNetwork sends to Docker for a chosen subnet: duplicate
   * names refused, IPv6 off, attachable, and one "default" IPAM pool whose
   * Subnet is the chosen block and whose Gateway is Gateway(subnet).
   */
  function CreateOptions(driver: string, subnet: Block): (options: NetworkCreate)
    ensures options.checkDuplicate && !options.enableIPv6 && options.attachable && options.driver == driver
    ensures options.ipam.driver == "default" && |options.ipam.config| == 1
    ensures options.ipam.config[0].subnet.Ipv4Subnet? && !options.ipam.config[0].subnet.mapped
    ensures options.ipam.config[0].gateway == Some(Gateway(subnet))
    ensures Aligned(subnet) ==>
      var cidr := options.ipam.config[0].subnet.cidr;
      Parse(cidr.ip, cidr.prefix) == subnet
  {
    ParseOfAligned(subnet);
    var pool := IpamConfig(Ipv4Subnet(CidrLiteral(subnet.base, subnet.prefix), false), Some(Gateway(subnet)));
    NetworkCreate(
      checkDuplicate := true,
      enableIPv6 := false,
      driver := driver,
      attachable := true,
      ipam := Ipam("default", [pool]))
  }

  /** The overlay check refuses the request: Docker reports the swarm node as "inactive". */
  predicate SwarmInactive(driver: string, docker: DockerReplies)
  {
    driver == OverlayNet && docker.info.Success? && docker.info.value.localNodeState == "inactive"
  }

  /** The request gets past the overlay check (a bridge request always does). */
  predicate PassesSwarmCheck(driver: string, docker: DockerReplies)
  {
    driver != OverlayNet || (docker.info.Success? && docker.info.value.localNodeState != "inactive")
  }

  /** The request gets a network list to allocate against. */
  predicate ListingSucceeds(driver: string, docker: DockerReplies)
  {
    PassesSwarmCheck(driver, docker) && docker.networks.Success?
  }

  /** The blocks the search must avoid (network.go:102-105): the private subnets of the Docker networks, then the blacklist. */
  function Existing(conf: NetworkConf, networks: seq<NetworkResource>): (existing: seq<Block>)
    ensures forall b :: b in existing <==> b in PrivateNets(networks) || b in conf.blacklist
  {
    PrivateNets(networks) + conf.blacklist
  }

  /**
   * The request does not reach firstNetwork with a subnet length net.ParseCIDR
   * rejects: either it stops before the search, or the configured length is
   * from 0 to 32.
   */
  predicate SearchLengthValid(svc: NetworkAddressService, driver: string, docker: DockerReplies)
  {
    ListingSucceeds(driver, docker) ==> 0 <= ConfFor(svc, driver).subnet <= 32
  }

  /** The subnet the request allocates once it has the network list, if any. */
  function Allocated(svc: NetworkAddressService, driver: string, docker: DockerReplies): Option<Block>
    requires 0 <= ConfFor(svc, driver).subnet <= 32 && docker.networks.Success?
  {
    var conf := ConfFor(svc, driver);
    Search(conf, Existing(conf, docker.networks.value))
  }

  /** The swarm check's call: an overlay request queries Docker's info. */
  function SwarmCheckCalls(driver: string): seq<Call>
  {
    if driver == OverlayNet then [QueryInfo] else []
  }

  /** The listing call, made unless the swarm check stopped the request. */
  function ListingCalls(driver: string, docker: DockerReplies): seq<Call>
  {
    if PassesSwarmCheck(driver, docker) then [ListNetworks] else []
  }

  /** The creation call, made when the listing succeeded and the search found a subnet. */
  function CreationCalls(svc: NetworkAddressService, driver: string, name: string, docker: DockerReplies): seq<Call>
    requires SearchLengthValid(svc, driver, docker)
  {
    if ListingSucceeds(driver, docker) && Allocated(svc, driver, docker).Some?
    then [CreateNetworkCall(name, CreateOptions(driver, Allocated(svc, driver, docker).value))]
    else []
  }

  /**
   * The calls one CreateNetwork request makes, in order: take the mutex;
   * for an overlay request, query Docker's info; unless the swarm check
   * stopped the request, list the networks; when a subnet was found, ask
   * Docker to create the network; release the mutex.
   */
  function Trace(svc: NetworkAddressService, driver: string, name: string, docker: DockerReplies): seq<Call>
    requires SearchLengthValid(svc, driver, docker)
  {
    [AcquireLock] + SwarmCheckCalls(driver) + ListingCalls(driver, docker) + CreationCalls(svc, driver, name, docker) + [ReleaseLock]
  }

  /**
   * CreateNetwork (network.go:74-130). The mutex is taken first and released
   * on every return; an overlay request then queries Docker and stops with
   * ErrNotInSwarmMode when the node is "inactive"; the network list is read,
   * turned into the snapshot, the blacklist appended, and the search run;
   * the chosen subnet is sent to Docker with its gateway.
   */
  method CreateNetwork(svc: NetworkAddressService, driver: string, name: string, docker: DockerReplies)
    returns (response: Result<NetworkCreateResponse, Error>, calls: seq<Call>)
    requires SearchLengthValid(svc, driver, docker)
    ensures calls == Trace(svc, driver, name, docker)
    ensures response == Failure(NotInSwarmMode) <==> SwarmInactive(driver, docker)
    ensures response == Failure(NoMoreNetworks) <==>
      ListingSucceeds(driver, docker) && Allocated(svc, driver, docker).None?
    ensures response.Success? <==>
      ListingSucceeds(driver, docker) && Allocated(svc, driver, docker).Some? && docker.created.Success?
    ensures response.Success? ==> response.value == docker.created.value
    ensures driver == OverlayNet && docker.info.Failure? ==> response == Failure(DockerError(docker.info.error))
    ensures PassesSwarmCheck(driver, docker) && docker.networks.Failure? ==>
      response == Failure(DockerError(docker.networks.error))
    ensures ListingSucceeds(driver, docker) && Allocated(svc, driver, docker).Some? && docker.created.Failure? ==>
      response == Failure(DockerError(docker.created.error))
  {
    calls := [AcquireLock];
    var conf := svc.bridge;
    if OverlayNet == driver {
      conf := svc.overlay;
      calls := calls + [QueryInfo];
      if docker.info.Failure? {
        calls := calls + [ReleaseLock];
        assert ListingCalls(driver, docker) == [] && CreationCalls(svc, driver, name, docker) == [];
        return Failure(DockerError(docker.info.error)), calls;
      }
      if docker.info.value.localNodeState == "inactive" {
        calls := calls + [ReleaseLock];
        assert ListingCalls(driver, docker) == [] && CreationCalls(svc, driver, name, docker) == [];
        return Failure(NotInSwarmMode), calls;
      }
    }
    assert calls == [AcquireLock] + SwarmCheckCalls(driver) && conf == ConfFor(svc, driver);

    calls := calls + [ListNetworks];
    if docker.networks.Failure? {
      calls := calls + [ReleaseLock];
      assert CreationCalls(svc, driver, name, docker) == [];
      return Failure(DockerError(docker.networks.error)), calls;
    }
    var existingNetworks := DockerNetworksToIPNets(docker.networks.value);
    existingNetworks := existingNetworks + conf.blacklist;

    var newNet := FindSubnet(conf, existingNetworks);
    if newNet.Failure? {
      calls := calls + [ReleaseLock];
      assert CreationCalls(svc, driver, name, docker) == [];
      return Failure(NoMoreNetworks), calls;
    }
    calls := calls + [CreateNetworkCall(name, CreateOptions(driver, newNet.value)), ReleaseLock];
    assert CreationCalls(svc, driver, name, docker) == [CreateNetworkCall(name, CreateOptions(driver, newNet.value))];
    response := match docker.created
      case Success(created) => Success(created)
      case Failure(message) => Failure(DockerError(message));
  }
}
