/**
 * Properties of one CreateNetwork request, stated on the call trace it
 * produces: the whole request is one critical section, the lock is taken
 * before the swarm check, the networks are listed only past that check, and
 * a creation is asked for only with a subnet the search chose, together
 * with the gateway inside it.
 */
module ServiceProperties {
  import opened Wrappers
  import opened Ipv4
  import opened Docker
  import opened Allocation
  import opened Snapshot
  import opened Service

  /** A lock operation of the service's mutex. */
  predicate IsLockCall(c: Call)
  {
    c.AcquireLock? || c.ReleaseLock?
  }

  /** No call of cs touches the lock. */
  predicate LockFree(cs: seq<Call>)
  {
    forall i :: 0 <= i < |cs| ==> !IsLockCall(cs[i])
  }

  /** Lock-free parts between a lock and an unlock make one critical section. */
  lemma CriticalSection(query: seq<Call>, list: seq<Call>, create: seq<Call>)
    requires LockFree(query) && LockFree(list) && LockFree(create)
    ensures var t := [AcquireLock] + query + list + create + [ReleaseLock];
      && t[0] == AcquireLock && t[|t| - 1] == ReleaseLock
      && forall i :: 0 < i < |t| - 1 ==> !IsLockCall(t[i])
  {
    var t := [AcquireLock] + query + list + create + [ReleaseLock];
    forall i | 0 < i < |t| - 1 ensures !IsLockCall(t[i]) {
      if i <= |query| {
        assert t[i] == query[i - 1];
      } else if i <= |query| + |list| {
        assert t[i] == list[i - 1 - |query|];
      } else {
        assert t[i] == create[i - 1 - |query| - |list|];
      }
    }
  }

  /**
   * Every request takes the mutex first and releases it last, exactly once:
   * no call in between touches the lock, so every return path unlocks.
   */
  lemma TraceIsOneCriticalSection(svc: NetworkAddressService, driver: string, name: string, docker: DockerReplies)
    requires SearchLengthValid(svc, driver, docker)
    ensures var t := Trace(svc, driver, name, docker);
      && 2 <= |t| <= 5
      && t[0] == AcquireLock && t[|t| - 1] == ReleaseLock
      && forall i :: 0 < i < |t| - 1 ==> !IsLockCall(t[i])
  {
    var query, list, create := SwarmCheckCalls(driver), ListingCalls(driver, docker), CreationCalls(svc, driver, name, docker);
    assert |create| <= 1 && LockFree(create);
    CriticalSection(query, list, create);
  }

  /**
   * The mutex is taken before the swarm check: an overlay request queries
   * Docker's info right after locking, and a request for any other driver
   * never queries it.
   */
  lemma LockPrecedesSwarmCheck(svc: NetworkAddressService, driver: string, name: string, docker: DockerReplies)
    requires SearchLengthValid(svc, driver, docker)
    ensures var t := Trace(svc, driver, name, docker);
      && (driver == OverlayNet ==> |t| >= 3 && t[0] == AcquireLock && t[1] == QueryInfo)
      && (driver != OverlayNet ==> QueryInfo !in t)
  {
    var t := Trace(svc, driver, name, docker);
    if driver != OverlayNet {
      var list, create := ListingCalls(driver, docker), CreationCalls(svc, driver, name, docker);
      assert QueryInfo !in list && QueryInfo !in create;
      assert t == [AcquireLock] + list + create + [ReleaseLock];
    }
  }

  /** A request refused by the swarm check locks, queries the info, unlocks, and calls nothing else. */
  lemma SwarmRefusalTrace(svc: NetworkAddressService, driver: string, name: string, docker: DockerReplies)
    requires SearchLengthValid(svc, driver, docker)
    ensures !PassesSwarmCheck(driver, docker) <==>
      Trace(svc, driver, name, docker) == [AcquireLock, QueryInfo, ReleaseLock]
  {
    ListsOnlyPastSwarmCheck(svc, driver, name, docker);
  }

  /** The networks are listed exactly when the request passes the swarm check. */
  lemma ListsOnlyPastSwarmCheck(svc: NetworkAddressService, driver: string, name: string, docker: DockerReplies)
    requires SearchLengthValid(svc, driver, docker)
    ensures ListNetworks in Trace(svc, driver, name, docker) <==> PassesSwarmCheck(driver, docker)
  {
    var query, list, create := SwarmCheckCalls(driver), ListingCalls(driver, docker), CreationCalls(svc, driver, name, docker);
    assert ListNetworks !in query && ListNetworks !in create;
    assert Trace(svc, driver, name, docker) == [AcquireLock] + query + list + create + [ReleaseLock];
  }

  /** Whether some call of cs asks Docker to create a network. */
  predicate HasCreation(cs: seq<Call>)
  {
    exists i :: 0 <= i < |cs| && cs[i].CreateNetworkCall?
  }

  /** Between a lock and an unlock, a creation can only come from the creation part. */
  lemma CreationFromCreatePart(query: seq<Call>, list: seq<Call>, create: seq<Call>)
    requires !HasCreation(query) && !HasCreation(list)
    ensures HasCreation([AcquireLock] + query + list + create + [ReleaseLock]) <==> HasCreation(create)
  {
    var t := [AcquireLock] + query + list + create + [ReleaseLock];
    var k := 1 + |query| + |list|;
    if !HasCreation(create) {
      forall i | 0 <= i < |t| ensures !t[i].CreateNetworkCall? {
        if 1 <= i <= |query| {
          assert t[i] == query[i - 1];
        } else if |query| < i < k {
          assert t[i] == list[i - 1 - |query|];
        } else if k <= i < k + |create| {
          assert t[i] == create[i - k];
        }
      }
    }
    if HasCreation(create) {
      var j :| 0 <= j < |create| && create[j].CreateNetworkCall?;
      assert t[k + j] == create[j];
    }
  }

  /** Docker is asked to create a network exactly when the listing succeeded and the search found a subnet. */
  lemma CreatesOnlyWhenAllocated(svc: NetworkAddressService, driver: string, name: string, docker: DockerReplies)
    requires SearchLengthValid(svc, driver, docker)
    ensures HasCreation(Trace(svc, driver, name, docker)) <==>
      ListingSucceeds(driver, docker) && Allocated(svc, driver, docker).Some?
  {
    var query, list, create := SwarmCheckCalls(driver), ListingCalls(driver, docker), CreationCalls(svc, driver, name, docker);
    CreationFromCreatePart(query, list, create);
    if create != [] {
      assert create[0].CreateNetworkCall?;
    }
  }

  /**
   * The creation request, when made, names the network it was given and
   * carries the lowest acceptable subnet for the driver's configuration and
   * the snapshot of Docker's networks plus the blacklist; no Docker network
   * and no blacklist entry contains that subnet's base, and for a subnet of
   * two or more addresses the gateway is its second address.
   */
  lemma CreateRequestCarriesChosenSubnet(svc: NetworkAddressService, driver: string, name: string, docker: DockerReplies)
    requires SearchLengthValid(svc, driver, docker)
    requires ListingSucceeds(driver, docker) && Allocated(svc, driver, docker).Some?
    ensures var t := Trace(svc, driver, name, docker);
      var conf := ConfFor(svc, driver);
      var networks := docker.networks.value;
      var subnet := Allocated(svc, driver, docker).value;
      && t[|t| - 2] == CreateNetworkCall(name, CreateOptions(driver, subnet))
      && IsLeastAcceptable(conf, Existing(conf, networks), subnet)
      && (forall b :: b in PrivateNets(networks) || b in conf.blacklist ==> !Contains(b, subnet.base))
      && (subnet.prefix < 32 ==> Gateway(subnet) == subnet.base + 1 && Contains(subnet, Gateway(subnet)))
  {
    var conf := ConfFor(svc, driver);
    var existing := Existing(conf, docker.networks.value);
    var subnet := Allocated(svc, driver, docker).value;
    SearchIsLeast(conf, existing);
    forall b | b in PrivateNets(docker.networks.value) || b in conf.blacklist
      ensures !Contains(b, subnet.base)
    {
      var i :| 0 <= i < |existing| && existing[i] == b;
    }
  }
}
