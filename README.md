# networksd subnet allocator, modelled in Dafny

networksd is a small daemon that creates Docker networks on request and picks
a free private IPv4 subnet for each. This project models the allocator in
`service/network.go`:

- the configuration as `readConf` normalises it (scope block, subnet prefix
  length, blacklist);
- the snapshot of blocks in use, built from Docker's network list by
  `dockerNetworksToIPNets` and `getPrivateSubnet`, then extended with the
  blacklist;
- the search loop of `CreateNetwork`, with `firstNetwork`, `isItTaken`,
  `isPrivateNet` and the `cidr.NextSubnet` step;
- the creation request `createNetwork` sends, with its gateway
  (`cidr.Inc` of the block's first address);
- `CreateNetwork` as a whole: the mutex, the overlay swarm check, the
  listing, the search and the create call.

An IPv4 address is its value as an unsigned 32-bit number, `nat < 2^32`. A
block is `(base, prefix)`. Masking an address to a prefix is stated
arithmetically, as the largest multiple of the block size `2^(32-prefix)`
not above it. `IPNet.Contains(a)` is "a and the block's base agree once both
are masked to the block's prefix", so it also holds for a block whose base
has host bits set.

The Docker client is not called. Its three answers (info, network list,
create response) are an input, `DockerReplies`. The calls a request makes
are returned as a trace of `Call` values. The trace also records the
taking and releasing of the service's mutex.

Files:

- `ipv4.dfy`: addresses, blocks, `Parse`, `AddressRange`, `Inc`, `NextSubnet`.
- `docker.dfy`: the records of `service/model.go`, the errors of
  `service/error.go`, and the Docker API values.
- `allocation.dfy`: the search.
- `snapshot.dfy`: the snapshot builder.
- `service.dfy`: configuration and `CreateNetwork`.
- `allocation_properties.dfy`, `service_properties.dfy`, `scenarios.dfy`:
  properties and worked requests.

Where the code and the project's documented intent differ, the model
follows the code:

- The mutex is taken before the overlay swarm check, so the `Info` query
  runs inside the critical section (`service/network.go:77-93`).
- Leaving the scope does not end the search. The loop stops with
  `ErrNoMoreNetworks` only when the step wraps past 255.255.255.255.
  Out-of-scope candidates just fail the scope test.
- "Taken" means that a block in use contains the candidate's base address.
  It does not mean that the ranges overlap. A smaller block in use that does
  not hold the candidate's base address does not stop the candidate, even
  when it lies inside it (see
  `AllocationProperties.BaseContainmentAllowsOverlap`). For blocks in use
  at least as large as the candidate, no overlap is possible (see
  `AllocationProperties.ChosenSubnetDisjointFromLargerBlocks`).

## Model

| member | source | states |
|---|---|---|
| Ipv4.BlockSize | service/network.go:124 | a block of prefix p holds 2^(32-p) addresses, between 1 and 2^32 |
| Ipv4.MaskTo | service/network.go:230 | the masked address is at most the address and within one block size of it |
| Ipv4.MaskIsAligned | service/network.go:230 | the masked address is a multiple of the block size |
| Ipv4.Parse | service/network.go:51 | net.ParseCIDR of an address and prefix gives an aligned block of that prefix that contains the address |
| Ipv4.ParseOfAligned | service/network.go:156 | parsing an aligned block's own text gives the block back |
| Ipv4.Contains | service/network.go:184 | the address and the block's base are equal once both are masked to the block's prefix; ContainsIff turns this into an interval for aligned blocks |
| Ipv4.ContainsIff | service/network.go:184 | for an aligned block, Contains is membership of [base, base + size) |
| Ipv4.AddressRange | service/network.go:157 | the first address is the block's IP as given; the last one ends the block of that prefix holding it; for an aligned block the two span exactly the block size |
| Ipv4.Inc | service/network.go:158 | the next address, wrapping from 255.255.255.255 to 0.0.0.0 |
| Ipv4.NextSubnet | service/network.go:124-125 | the step keeps the prefix and alignment; it wraps exactly when base + size reaches 2^32; otherwise it moves exactly one block up; a wrapped step yields base 0 |
| Allocation.IsPrivateNet | service/network.go:210-215 | the address lies in 10.0.0.0/8, 172.16.0.0/12 or 192.168.0.0/16; AllocationProperties.IsPrivateNetRanges states these as address ranges |
| Allocation.IsItTaken | service/network.go:181-189 | taken exactly when some block of the list contains the candidate's base address |
| Allocation.FirstNetwork | service/network.go:229-232 | the first candidate has the configured prefix, is aligned, holds the scope's base, and equals it when the scope is aligned and no smaller than the subnets |
| Allocation.Acceptable | service/network.go:111-120 | a candidate is accepted exactly when it is not taken, the scope contains its base, and its base is private; SearchIsLeast and ChosenSubnetAvoidsSnapshot state what this means for the result |
| Allocation.SearchFrom | service/network.go:109-129 | a result of the loop from a candidate has the configured prefix, is aligned, is not below the candidate, and passes the three tests |
| Allocation.Search | service/network.go:109-129 | the loop's result from firstNetwork is a candidate (configured size, aligned, not below the first) that passes the three tests; SearchIsLeast adds that it is the lowest |
| Allocation.SearchFromIsLeast | service/network.go:109-129 | every aligned block of the configured size between the start and the result fails the tests |
| Allocation.SearchFromExhausts | service/network.go:124-128 | with no result, every aligned block of the configured size from the start on fails the tests |
| Ipv4.NextSubnetSkipsNothing | service/network.go:124 | the step does not wrap while an aligned block of the same prefix lies above, and lands at or below every such block |
| Allocation.SearchIsLeast | service/network.go:109-129 | the result is the lowest candidate passing the tests; there is no result exactly when no candidate passes; the lowest passing candidate is always the result |
| Allocation.FindSubnet | service/network.go:109-129 | the loop returns the lowest acceptable candidate, or ErrNoMoreNetworks exactly when none is acceptable |
| Snapshot.FirstSubnet | service/network.go:194-203 | the Subnet of the first IPAM entry with a non-empty Subnet; empty exactly when all are empty |
| Snapshot.PrivateSubnet | service/network.go:191-208 | a found subnet is aligned and has a private base |
| Snapshot.PrivateSubnetIsFirstConfigured | service/network.go:191-208 | a block is found exactly when the first non-empty Subnet is an IPv4 block that normalises to it and has a private base |
| Snapshot.GetPrivateSubnet | service/network.go:191-208 | the loop stops at the first non-empty Subnet and returns what PrivateSubnet specifies |
| Snapshot.Addressable | service/network.go:140 | networks with driver "host" or "none" are skipped; ContributionMembers states that only the others contribute |
| Snapshot.Contribution | service/network.go:140-146 | one Docker network adds at most one block to the snapshot |
| Snapshot.PrivateNets | service/network.go:137-149 | the snapshot has at most one block per network, each aligned and private |
| Snapshot.SnapshotOfContributions | service/network.go:137-149 | a block is in the snapshot exactly when some network in the list contributes it |
| Snapshot.ContributionMembers | service/network.go:140-146 | a network contributes a block exactly when its driver is neither host nor none and the block is its private subnet |
| Snapshot.PrivateNetsMembers | service/network.go:137-149 | a block is in the snapshot exactly when it is the private subnet of a network whose driver is neither host nor none |
| Snapshot.PrivateNetsStep | service/network.go:139-146 | one more network in the list extends the snapshot by exactly that network's contribution |
| Snapshot.DockerNetworksToIPNets | service/network.go:137-149 | the loop builds exactly the snapshot PrivateNets specifies, in list order |
| Snapshot.PrivateSubnetAsWritten | service/network.go:196-198 | as written, the lookup dereferences nil exactly when the first non-empty Subnet does not parse |
| Snapshot.UnparsableSubnetPanics | service/network.go:196-198 | a network whose only pool has an unparsable Subnet makes the written code panic, where the corrected lookup skips it |
| Snapshot.PrivateSubnetCorrectsOnlyTheNilDereference | service/network.go:191-208 | apart from the unparsable case, the corrected and the written lookup agree |
| Service.ReadConf | service/network.go:50-64 | the scope and each blacklist entry, in order, become the aligned block that holds the written address; the subnet length is copied |
| Service.NewNetworkAddressService | service/network.go:42-48 | both the bridge and the overlay configuration are read by readConf |
| Service.ConfFor | service/network.go:80-82 | the overlay configuration for the "overlay" driver, the bridge configuration for any other |
| Service.Gateway | service/network.go:156-158 | the gateway is the block's IP plus one for any IP below 255.255.255.255; for an aligned block of two or more addresses it lies inside the block; for a /32 block it lies outside |
| Service.CreateOptions | service/network.go:151-179 | duplicates refused, IPv6 off, attachable, the given driver, one "default" IPAM pool whose subnet parses back to the chosen block and whose gateway is Gateway |
| Service.Existing | service/network.go:101-105 | the search avoids exactly the snapshot's blocks and the blacklist |
| Service.SearchLengthValid | service/network.go:109 | a request that gets the network list reaches firstNetwork, which parses only a subnet length from 0 to 32; requests stopped earlier may have any length |
| Service.Trace | service/network.go:77-129 | the calls of one request: lock; the info query for an overlay request; the listing unless the swarm check refused; the creation when a subnet was found; unlock. The ServiceProperties lemmas state its order and conditions |
| Service.CreateNetwork | service/network.go:74-130 | the calls follow Trace; ErrNotInSwarmMode exactly for an overlay request on an inactive node; ErrNoMoreNetworks exactly when the listing succeeds and the search finds nothing; success exactly when a subnet is found and Docker creates the network; every Docker error is passed on |
| AllocationProperties.IsPrivateNetRanges | service/network.go:210-215 | isPrivateNet holds exactly on 10.0.0.0-10.255.255.255, 172.16.0.0-172.31.255.255 and 192.168.0.0-192.168.255.255 |
| AllocationProperties.ChosenSubnetAvoidsSnapshot | service/network.go:102-122 | no Docker network's subnet and no blacklist entry contains the chosen base; the scope contains it; it is private, aligned and of the configured size |
| AllocationProperties.SearchFromDependsOnBlocks | service/network.go:109-129 | from any candidate, two snapshots holding the same blocks lead to the same result |
| AllocationProperties.SearchDependsOnBlocks | service/network.go:109-129 | the result depends on the configuration and on which blocks are in use, not on their order or repetition |
| AllocationProperties.ListingOrderIrrelevant | service/network.go:102-105 | two listings of the same Docker networks, in any order, lead to the same subnet |
| AllocationProperties.ChosenSubnetNotChosenAgain | service/network.go:111-122 | with the chosen block added to the snapshot, a new search finds a strictly higher block or none |
| AllocationProperties.TakenStaysTaken | service/network.go:181-189 | appending blocks to the list never frees a taken candidate |
| AllocationProperties.NestedBlocks | service/network.go:184 | an aligned block sharing an address with an aligned block at least as large has its base inside the larger one |
| AllocationProperties.ChosenSubnetDisjointFromLargerBlocks | service/network.go:111 | the chosen block shares no address with a block in use at least as large as it |
| AllocationProperties.BaseContainmentAllowsOverlap | service/network.go:181-189 | with 10.0.0.128/25 in use, 10.0.0.0/24 is still chosen although it holds 10.0.0.128 |
| AllocationProperties.TestedFromShape | service/network.go:124-128 | the tested candidates start at the first one, are aligned and of the configured size, step by exactly one block, and all but the last fail the tests |
| AllocationProperties.TestedFromEnd | service/network.go:124-128 | the last candidate tested is the result; with no result it is the block holding 255.255.255.255, and the wrapped block is never tested |
| AllocationProperties.TestedCount | service/network.go:109-129 | the loop tests at most 2^subnet candidates |
| ServiceProperties.TraceIsOneCriticalSection | service/network.go:77-78 | every request locks first and unlocks last, and nothing in between touches the lock |
| ServiceProperties.LockPrecedesSwarmCheck | service/network.go:77-93 | an overlay request queries the info right after locking; other drivers never query it |
| ServiceProperties.SwarmRefusalTrace | service/network.go:80-93 | a request fails the swarm check exactly when its calls are lock, info, unlock |
| ServiceProperties.ListsOnlyPastSwarmCheck | service/network.go:80-99 | the networks are listed exactly when the request passes the swarm check |
| ServiceProperties.CreatesOnlyWhenAllocated | service/network.go:109-129 | Docker is asked to create a network exactly when the listing succeeded and a subnet was found |
| ServiceProperties.CreateRequestCarriesChosenSubnet | service/network.go:151-179 | the create call names the requested network, carries the lowest acceptable subnet, avoids every block in use and the blacklist, and asks for base + 1 as gateway |
| Scenarios.EmptySnapshotGetsFirstBlock | service/network.go:109-122 | in 10.0.0.0/8 with /24 subnets and nothing in use, 10.0.0.0/24 is chosen, with gateway 10.0.0.1 |
| Scenarios.TakenBlockIsSkipped | service/network.go:109-125 | with 10.0.0.0/24 in use, 10.0.1.0/24 is chosen |
| Scenarios.BlacklistedScopeIsExhausted | service/network.go:104-128 | a /24 scope whose only block is blacklisted runs out of networks |
| Scenarios.MappedSubnetTakesItsIpv4Block | service/network.go:196-205 | a network whose Subnet is the IPv4-mapped ::ffff:10.0.0.0/104 puts 10.0.0.0/8 in the snapshot, so a 10.0.0.0/8 scope runs out of networks |
| Scenarios.FirstBridgeRequest | service/network.go:74-130 | a bridge request against an empty Docker locks, lists, creates 10.0.0.0/24 with gateway 10.0.0.1, and unlocks |

## Left out

- Docker client calls (`cli.Info`, `cli.NetworkList`, `cli.NetworkCreate`, `client.NewEnvClient`): a foreign API. Their answers are the `DockerReplies` input and the calls are the returned trace.
- The `Docker` and `Info` methods of the service (`service/network.go:66-72`): they only forward to the client.
- The `sync.RWMutex`: concurrency is not modelled. Taking and releasing it are events in the trace, which shows that a request runs inside one critical section.
- Logging, `timeTrack` and `debugExistingNetworks`: side effects only.
- Text: CIDR strings are (address, prefix) pairs, and the gateway is an address rather than its dotted string. The parser of `net.ParseCIDR` is not modelled, only its normalisation (`Ipv4.Parse`).
- Service.ReadConf: malformed scope or blacklist text, on which `readConf` panics, is excluded by the input type.
- Service.ReadConf: scope and blacklist text is an IPv4 literal. `readConf` also accepts IPv6 text. An IPv4-mapped entry `::ffff:a.b.c.d/(96+n)` acts as `a.b.c.d/n` in `IPNet.Contains` and in the scope's `String()`, so the IPv4 literal expresses it. A blacklist entry with no IPv4 form never contains an IPv4 candidate, so leaving it out changes no result. A scope with no IPv4 form makes every candidate an IPv6 block, which fails `isPrivateNet`; such a request steps through the IPv6 space and ends with `ErrNoMoreNetworks`, or panics for a subnet length outside 0 to 128. That configuration is not modelled.
- Allocation.FirstNetwork, Allocation.Search and Allocation.FindSubnet require a subnet length from 0 to 32. Service.Trace and Service.CreateNetwork require it only of requests that get the network list (Service.SearchLengthValid). Such a request with any other configured `SubnetMask` reaches `firstNetwork`, gets a nil block and panics; that panic is not modelled. Requests refused by the swarm check or stopped by a Docker error return before the search and are modelled for any length.
- IPv6 Subnets in Docker's IPAM configuration with no IPv4 form are one constructor without an address (`Docker.Ipv6Subnet`). `IPNet.Contains` never matches an IPv6 block against an IPv4 address, so they never pass `isPrivateNet`. An IPv4-mapped Subnet `::ffff:a.b.c.d/(96+n)` keeps its IPv4 address: it is `Ipv4Subnet` with `mapped` set and counts as `a.b.c.d/n`.
- The library internals of `cidr.NextSubnet`, `cidr.AddressRange` and `cidr.Inc` are not part of this model. Their results on IPv4 blocks are stated directly. `NextSubnet` takes one argument, because the source always passes the candidate's own prefix length.
- `service/transport.go`, `service/daemon.go`, `cmd/root.go` and `cmd/version.go`: HTTP routing, signals and CLI plumbing.
- The texts of the two errors in `service/error.go`: they are constructors of `Error`.

## Findings

| source | as written | input that shows it | evidently intended | confidence | as-written member | corrected member |
|---|---|---|---|---|---|---|
| service/network.go:196-198 | when the first non-empty IPAM Subnet does not parse, the error branch dereferences the nil block that `net.ParseCIDR` returned, and the request panics | a Docker network with driver "bridge" whose only IPAM pool has the Subnet text "not-a-cidr" | the network is skipped, as `getPrivateSubnet` returns "not found" | not executed | Snapshot.UnparsableSubnetPanics | Snapshot.GetPrivateSubnet |
