/**
 * The data the allocator exchanges with its configuration and with the
 * Docker engine: the configuration records of service/model.go, the two
 * error values of service/error.go, the parts of Docker's network records
 * the allocator reads or writes, and the calls it makes on the Docker
 * client, recorded in the order they happen.
 */
module Docker {
  import opened Wrappers
  import opened Ipv4

  /** A well-formed CIDR string "a.b.c.d/n" as written, before normalisation. */
  datatype CidrLiteral = CidrLiteral(ip: Addr, prefix: Prefix)

  /**
   * The Subnet string of an IPAM configuration entry as the allocator sees it:
   * empty; a block with an IPv4 address, written "a.b.c.d/n" or, when mapped
   * holds, in IPv4-mapped IPv6 form "::ffff:a.b.c.d/(96+n)", which
   * net.ParseCIDR and IPNet.Contains treat as the IPv4 block a.b.c.d/n; any
   * other IPv6 block, whose address has no IPv4 form; or text net.ParseCIDR
   * rejects.
   */
  datatype SubnetText = NoSubnet | Ipv4Subnet(cidr: CidrLiteral, mapped: bool) | Ipv6Subnet | Malformed

  /** network.IPAMConfig: one address pool of a network, with an optional gateway. */
  datatype IpamConfig = IpamConfig(subnet: SubnetText, gateway: Option<Addr>)

  /** network.IPAM: the address-management driver and its pools. */
  datatype Ipam = Ipam(driver: string, config: seq<IpamConfig>)

  /** types.NetworkResource, reduced to the fields the allocator reads. */
  datatype NetworkResource = NetworkResource(name: string, driver: string, ipam: Ipam)

  /** types.Info, reduced to Swarm.LocalNodeState. */
  datatype Info = Info(localNodeState: string)

  /** types.NetworkCreate: the options sent to Docker with a network creation request. */
  datatype NetworkCreate = NetworkCreate(
    checkDuplicate: bool,
    enableIPv6: bool,
    driver: string,
    attachable: bool,
    ipam: Ipam)

  /** types.NetworkCreateResponse. */
  datatype NetworkCreateResponse = NetworkCreateResponse(id: string, warning: string)

  /** NetworkConf of service/model.go: one network kind's configuration as written. */
  datatype NetworkConfig = NetworkConfig(networkScope: CidrLiteral, subnetMask: int, blacklist: seq<CidrLiteral>)

  /** Conf of service/model.go: the configuration of both network kinds. */
  datatype Conf = Conf(overlay: NetworkConfig, bridge: NetworkConfig)

  /** ErrNoMoreNetworks, ErrNotInSwarmMode, and an error passed on from the Docker client. */
  datatype Error = NoMoreNetworks | NotInSwarmMode | DockerError(message: string)

  /**
   * What the Docker engine answers during one request: to cli.Info, to
   * cli.NetworkList and to cli.NetworkCreate. Each answer is either a value
   * or the client's error message.
   */
  datatype DockerReplies = DockerReplies(
    info: Result<Info, string>,
    networks: Result<seq<NetworkResource>, string>,
    created: Result<NetworkCreateResponse, string>)

  /** One step of a request, in the order it happens: taking and releasing the service's mutex, and the Docker client calls. */
  datatype Call =
    | AcquireLock
    | QueryInfo
    | ListNetworks
    | CreateNetworkCall(name: string, options: NetworkCreate)
    | ReleaseLock
}
