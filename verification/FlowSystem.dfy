/** The flow pool and the flow table together, as src/protocols/udp/UDPProtocol.cc and
    src/protocols/tcp/TCPProtocol.cc use them: who owns each flow at each moment. */
module FlowOwnership {
  import opened Common
  import opened PoolModel
  import opened Caches
  import opened Flows
  import opened FlowTimes
  import opened InfoLifetimes

  /** Each created flow is in exactly one place: available in the pool, stored in the table, or in a caller's hands. */
  ghost predicate Partition(available: seq<Flow>, stored: seq<Flow>, hands: set<Flow>, created: set<Flow>) {
    multiset(available) + multiset(stored) + multiset(hands) == multiset(created)
  }

  lemma PartitionFacts(available: seq<Flow>, stored: seq<Flow>, hands: set<Flow>, created: set<Flow>)
    requires Partition(available, stored, hands, created)
    ensures |available| + |stored| + |hands| == |created|
    ensures forall f :: f in available ==> f !in stored && f !in hands && f in created
    ensures forall f :: f in stored ==> f !in hands && f in created
    ensures forall f :: f in hands ==> f in created
    ensures forall f :: f in created ==> f in available || f in stored || f in hands
  {
    assert |multiset(available) + multiset(stored) + multiset(hands)| == |multiset(created)|;
    forall f | f in available
      ensures f !in stored && f !in hands && f in created
    {
      PlaceOf(available, stored, hands, created, f);
    }
    forall f | f in stored
      ensures f !in hands && f in created
    {
      PlaceOf(available, stored, hands, created, f);
    }
    forall f | f in created
      ensures f in available || f in stored || f in hands
    {
      PlaceOf(available, stored, hands, created, f);
    }
    forall f | f in hands
      ensures f in created
    {
      PlaceOf(available, stored, hands, created, f);
    }
  }

  lemma PlaceOf(available: seq<Flow>, stored: seq<Flow>, hands: set<Flow>, created: set<Flow>, f: Flow)
    requires Partition(available, stored, hands, created)
    ensures multiset(available)[f] + multiset(stored)[f] + multiset(hands)[f] == multiset(created)[f]
    ensures multiset(created)[f] == if f in created then 1 else 0
  {
    assert (multiset(available) + multiset(stored) + multiset(hands))[f] ==
           multiset(available)[f] + multiset(stored)[f] + multiset(hands)[f];
  }

  lemma TakeTop(available: seq<Flow>, stored: seq<Flow>, hands: set<Flow>, created: set<Flow>)
    requires Partition(available, stored, hands, created) && available != []
    ensures var n := |available| - 1;
      available[n] !in hands && Partition(available[..n], stored, hands + {available[n]}, created)
  {
    var n := |available| - 1;
    var f := available[n];
    PartitionFacts(available, stored, hands, created);
    assert available == available[..n] + [f];
    assert multiset(hands + {f}) == multiset(hands) + multiset{f};
  }

  lemma GiveToPool(available: seq<Flow>, stored: seq<Flow>, hands: set<Flow>, created: set<Flow>, f: Flow)
    requires Partition(available, stored, hands, created) && f in hands
    ensures Partition(available + [f], stored, hands - {f}, created)
  {
    assert multiset(hands - {f}) + multiset{f} == multiset(hands);
  }

  lemma PutInTable(available: seq<Flow>, stored: seq<Flow>, hands: set<Flow>, created: set<Flow>, n: nat, f: Flow)
    requires Partition(available, stored, hands, created) && f in hands && n <= |stored|
    ensures Partition(available, InsertAt(stored, n, f), hands - {f}, created)
  {
    assert multiset(hands - {f}) + multiset{f} == multiset(hands);
    assert stored == stored[..n] + stored[n..];
  }

  lemma TakeFromTable(available: seq<Flow>, stored: seq<Flow>, hands: set<Flow>, created: set<Flow>, n: nat)
    requires Partition(available, stored, hands, created) && n < |stored|
    ensures Partition(available, RemoveAt(stored, n), hands + {stored[n]}, created)
  {
    PartitionFacts(available, stored, hands, created);
    assert stored == stored[..n] + [stored[n]] + stored[n + 1..];
    assert multiset(hands + {stored[n]}) == multiset(hands) + multiset{stored[n]};
  }

  lemma MoveToPool(available: seq<Flow>, stored: seq<Flow>, hands: set<Flow>, created: set<Flow>, n: nat)
    requires Partition(available, stored, hands, created) && n <= |stored|
    ensures Partition(available + stored[..n], stored[n..], hands, created)
  {
    assert stored == stored[..n] + stored[n..];
  }

  lemma Reordered(available: seq<Flow>, stored: seq<Flow>, other: seq<Flow>, hands: set<Flow>, created: set<Flow>)
    requires Partition(available, stored, hands, created) && multiset(stored) == multiset(other)
    ensures Partition(available, other, hands, created)
    ensures forall f :: f in stored ==> f in other
  {
    forall f | f in stored
      ensures f in other
    {
      assert f in multiset(stored);
    }
  }

  function AsSet(flows: seq<Flow>): set<Flow> {
    set f | f in flows
  }

  const FLOW_TIME_REFRESH_RATE := 64

  lemma TcpNeverRefreshes(totalPackets: nat)
    ensures !RefreshDue(IPPROTO_TCP, totalPackets)
  {
  }

  /** When a packet makes the time index follow. UDP tests the remainder; TCP tests the single bit of 64 against 1. */
  predicate RefreshDue(protocol: int, totalPackets: nat) {
    if protocol == IPPROTO_TCP
    then (totalPackets / FLOW_TIME_REFRESH_RATE % 2) * FLOW_TIME_REFRESH_RATE == 1
    else totalPackets % FLOW_TIME_REFRESH_RATE == 1
  }

  /** The first packet of a flow that is not TCP is told to the index, then every sixty-fourth. */
  lemma RefreshDueIff(protocol: int, totalPackets: nat)
    ensures RefreshDue(protocol, totalPackets) <==> protocol != 6 && exists m: nat :: totalPackets == NthRefresh(m)
  {
    if protocol == 6 {
      TcpNeverRefreshes(totalPackets);
    } else {
      EverySixtyFourth(totalPackets);
    }
  }

  lemma EverySixtyFourth(n: nat)
    ensures n % 64 == 1 <==> exists m: nat :: n == NthRefresh(m)
  {
    if n % 64 == 1 {
      assert n == NthRefresh(n / 64);
    }
  }

  function NthRefresh(m: nat): nat {
    1 + 64 * m
  }

  class FlowSystem {
    const cache: Cache<Flow>
    const manager: FlowManager
    var lastTimeout: int
    ghost var hands: set<Flow>
    ghost var created: set<Flow>

    ghost predicate Valid()
      reads this`hands, this`created, cache, manager`byId, manager`byTime, manager.byTime`id
      reads manager.cacheManager.pools.Values
    {
      && manager.flowCache == cache && manager.Valid() && manager.PoolsValid()
      && Partition(Available(cache.State()), manager.byTime, hands, created)
      && |cache.items| == |created|
    }

    constructor (cacheManager: CacheManager)
      requires cacheManager.Valid()
      ensures Valid() && fresh(cache) && fresh(manager) && hands == {} && created == {} && lastTimeout == 0
    {
      var pool := new Cache<Flow>();
      cache := pool;
      manager := new FlowManager(pool, cacheManager);
      lastTimeout, hands, created := 0, {}, {};
    }

    /** Everything about stored flows that the table depends on is as before. */
    twostate predicate TableUntouched()
      reads manager, manager.byTime
    {
      && manager.byTime == old(manager.byTime) && manager.byId == old(manager.byId)
      && forall f :: f in manager.byTime ==>
           && f.id == old(f.id) && f.lastPacketTime == old(f.lastPacketTime)
           && f.protocol == old(f.protocol) && f.links == old(f.links)
    }

    /** createFlows: flows are the newly allocated ones. Every created flow is in exactly one place afterwards
        if and only if nothing was outstanding. */
    method CreateFlows(flows: seq<Flow>)
      requires Valid()
      requires NoDuplicates(flows) && forall f :: f in flows ==> f !in created && f !in cache.items
      modifies this`created, cache
      ensures created == old(created) + AsSet(flows) && TableUntouched()
      ensures cache.State() == AfterCreate(old(cache.State()), flows)
      ensures Valid() <==> flows == [] || (manager.byTime == [] && hands == {})
    {
      hide FlowManager.Valid, CacheManager.Valid, Partition, Available, AfterCreate;
      ghost var before := cache.State();
      PartitionFacts(Available(before), manager.byTime, hands, created);
      AddCreated(before, manager.byTime, hands, created, flows);
      cache.Create(flows);
      created := created + AsSet(flows);
    }

    static lemma AddCreated(pool: Pool<Flow>, stored: seq<Flow>, hands: set<Flow>, created: set<Flow>, flows: seq<Flow>)
      requires Partition(Available(pool), stored, hands, created) && pool.total <= |pool.items| == |created|
      requires NoDuplicates(flows) && forall f :: f in flows ==> f !in created && f !in pool.items
      ensures var all, after := created + AsSet(flows), AfterCreate(pool, flows);
        && |all| == |after.items| && after.total <= |after.items|
        && (Partition(Available(after), stored, hands, all) <==> flows == [] || (stored == [] && hands == {}))
    {
      hide Partition;
      var after := AfterCreate(pool, flows);
      PartitionFacts(Available(pool), stored, hands, created);
      NewOnes(Available(pool), stored, hands, created, flows);
      if pool.total == |pool.items| {
        assert Available(after) == Available(pool) + flows;
      } else if flows == [] {
        assert pool.items + flows == pool.items && created + AsSet(flows) == created;
      } else {
        CreateHidesTheLast(pool, stored, hands, created, flows);
      }
    }

    static lemma NewOnes(available: seq<Flow>, stored: seq<Flow>, hands: set<Flow>, created: set<Flow>,
                         flows: seq<Flow>)
      requires Partition(available, stored, hands, created)
      requires NoDuplicates(flows) && forall f :: f in flows ==> f !in created
      ensures |created + AsSet(flows)| == |created| + |flows|
      ensures Partition(available + flows, stored, hands, created + AsSet(flows))
    {
      var more := AsSet(flows);
      NoDuplicatesIsSet(flows);
      assert multiset(created + more) == multiset(created) + multiset(more);
    }

    /** With slots outstanding, the last of the new flows is nowhere. */
    static lemma CreateHidesTheLast(pool: Pool<Flow>, stored: seq<Flow>, hands: set<Flow>, created: set<Flow>,
                                    flows: seq<Flow>)
      requires Partition(Available(pool), stored, hands, created) && pool.total < |pool.items| && flows != []
      requires NoDuplicates(flows) && forall f :: f in flows ==> f !in created && f !in pool.items
      ensures !Partition(Available(AfterCreate(pool, flows)), stored, hands, created + AsSet(flows))
    {
      var last, available := flows[|flows| - 1], Available(AfterCreate(pool, flows));
      PartitionFacts(Available(pool), stored, hands, created);
      forall i | 0 <= i < |available|
        ensures available[i] != last
      {
        assert i < |pool.items| ==> available[i] in pool.items;
        assert i >= |pool.items| ==> available[i] == flows[i - |pool.items|];
      }
      assert last in created + AsSet(flows);
      assert (multiset(available) + multiset(stored) + multiset(hands))[last] == 0;
    }

    static lemma {:induction false} NoDuplicatesIsSet(flows: seq<Flow>)
      requires NoDuplicates(flows)
      ensures multiset(AsSet(flows)) == multiset(flows) && |AsSet(flows)| == |flows|
    {
      if flows != [] {
        var n := |flows| - 1;
        NoDuplicatesIsSet(flows[..n]);
        assert flows == flows[..n] + [flows[n]];
        assert AsSet(flows) == AsSet(flows[..n]) + {flows[n]};
      }
    }

    /** The flow handed out is reset; it was in nobody else's hands and not in the table, so no index key changes. */
    method AcquireFlow() returns (f: Flow?)
      requires Valid()
      modifies this`hands, cache, cache.items
      ensures Valid() && created == old(created) && TableUntouched()
      ensures f == null <==> old(cache.total) == 0
      ensures f == null ==> hands == old(hands)
      ensures f == null ==> Available(cache.State()) == old(Available(cache.State()))
      ensures f != null ==> old(Available(cache.State())) == Available(cache.State()) + [f]
      ensures f != null ==>
        && f in old(cache.items) && f !in old(hands) && f !in manager.byTime && hands == old(hands) + {f}
        && f.id == 0 && f.links == map[] && f.packetFrequencies == old(f.packetFrequencies)
      ensures forall g :: g in old(hands) ==> g.id == old(g.id) && g.links == old(g.links)
    {
      hide FlowManager.Valid, FlowManager.PoolsValid, Partition;
      f := TakeFlow();
      if f != null {
        PartitionFacts(Available(cache.State()), manager.byTime, hands, created);
        f.Reset();
      }
    }

    /** The pool gives up its top object, not yet reset. */
    method TakeFlow() returns (f: Flow?)
      requires Valid()
      modifies this`hands, cache
      ensures Valid()
      ensures f == null <==> old(cache.total) == 0
      ensures f == null ==> hands == old(hands) && Available(cache.State()) == old(Available(cache.State()))
      ensures f != null ==> old(Available(cache.State())) == Available(cache.State()) + [f]
      ensures f != null ==> f in old(cache.items) && f !in old(hands) && hands == old(hands) + {f}
    {
      hide FlowManager.Valid, CacheManager.Valid, Partition;
      ghost var before := cache.State();
      var top := cache.Acquire();
      f := null;
      if top.Some? {
        f := top.value;
        TakeTop(Available(before), manager.byTime, hands, created);
        assert Available(cache.State()) == Available(before)[..before.total - 1];
        hands := hands + {f};
      }
    }

    /** The owner of a flow fills it in before storing it. */
    method PrepareFlow(f: Flow, id: nat, time: int, protocol: int)
      requires Valid() && f in hands
      modifies f
      ensures Valid() && TableUntouched()
      ensures f.id == id && f.lastPacketTime == ToInt(time) && f.protocol == protocol && f.links == old(f.links)
    {
      hide FlowManager.Valid, FlowManager.PoolsValid;
      PartitionFacts(Available(cache.State()), manager.byTime, hands, created);
      f.id, f.protocol := id, protocol;
      f.SetLastPacketTime(time);
    }

    /** A flow is stored unless its id is taken; then it stays with its owner. */
    method AddFlow(f: Flow)
      requires Valid() && f in hands
      modifies this`hands
      modifies manager`byId, manager`byTime, manager`totalProcessFlows
      ensures Valid() && created == old(created)
      ensures
        if f.id in old(manager.byId)
        then f in hands && hands == old(hands) && manager.byTime == old(manager.byTime)
        else f in manager.byTime && hands == old(hands) - {f}
      ensures manager.byId == if f.id in old(manager.byId) then old(manager.byId) else old(manager.byId)[f.id := f]
      ensures old(manager.InOrder()) ==> manager.InOrder()
      ensures manager.totalProcessFlows == old(manager.totalProcessFlows) + 1
    {
      hide FlowManager.Valid, FlowManager.PoolsValid, FlowManager.InOrder;
      ghost var taken, stored := f.id in manager.byId, manager.byTime;
      ghost var n := manager.AddFlow(f);
      if !taken {
        PutInTable(Available(cache.State()), stored, hands, created, n, f);
        hands := hands - {f};
      }
    }

    /** The flow leaves the table and is its caller's. */
    method RemoveFlow(f: Flow)
      requires Valid() && f in manager.byTime
      modifies this`hands
      modifies manager`byId, manager`byTime
      ensures Valid() && created == old(created)
      ensures f !in manager.byTime && hands == old(hands) + {f}
      ensures manager.byId == old(manager.byId) - {f.id}
      ensures old(manager.InOrder()) ==> manager.InOrder()
    {
      hide FlowManager.Valid, FlowManager.PoolsValid, FlowManager.InOrder, Partition, Available;
      manager.StoredUnderItsId(f);
      ghost var stored := manager.byTime;
      ghost var n := manager.RemoveFlow(f);
      TakeFromTable(Available(cache.State()), stored, hands, created, n);
      hands := hands + {f};
      PartitionFacts(Available(cache.State()), manager.byTime, hands, created);
    }

    /** releaseFlow: an outstanding flow always finds a free slot. A flow that is not in the caller's hands would
        be in two places, unless no slot is free and nothing happens. */
    method ReleaseFlow(f: Flow)
      requires Valid()
      modifies this`hands, cache
      ensures created == old(created) && hands == old(hands) - {f}
      ensures cache.State() == AfterRelease(old(cache.State()), f)
      ensures Valid() <==> f in old(hands) || (old(hands) == {} && manager.byTime == [])
      ensures f in old(hands) ==> Available(cache.State()) == Available(old(cache.State())) + [f]
    {
      hide FlowManager.Valid, CacheManager.Valid, Partition, Available, AfterRelease;
      ghost var before := cache.State();
      PartitionFacts(Available(before), manager.byTime, hands, created);
      Returned(before, manager.byTime, hands, created, f);
      cache.Release(f);
      hands := hands - {f};
    }

    static lemma Returned(pool: Pool<Flow>, stored: seq<Flow>, hands: set<Flow>, created: set<Flow>, f: Flow)
      requires Partition(Available(pool), stored, hands, created) && pool.total <= |pool.items| == |created|
      ensures var after := AfterRelease(pool, f);
        && |after.items| == |created| && after.total <= |after.items|
        && (f in hands ==> Available(after) == Available(pool) + [f])
        && (Partition(Available(after), stored, hands - {f}, created) <==> f in hands || (hands == {} && stored == []))
    {
      var after := AfterRelease(pool, f);
      PartitionFacts(Available(pool), stored, hands, created);
      if pool.total < |pool.items| {
        assert Available(after) == Available(pool) + [f];
        if f in hands {
          GiveToPool(Available(pool), stored, hands, created, f);
        } else {
          assert hands - {f} == hands;
          assert |multiset(Available(after)) + multiset(stored) + multiset(hands)| == |created| + 1;
        }
      }
    }

    /** What a new flow is linked to: a TCP flow gets the next object of its pool, if there is one. */
    ghost function FirstLinks(protocol: int): Links
      reads manager.cacheManager.pools.Values
    {
      var infos := manager.cacheManager.State();
      if protocol == IPPROTO_TCP && TCP in infos && Top(infos[TCP]).Some?
      then map[TCP := Top(infos[TCP]).value]
      else map[]
    }

    /** The pools of attached objects after a new flow was linked. */
    ghost function AfterFirstLinks(protocol: int): InfoPools
      reads manager.cacheManager.pools.Values
    {
      var infos := manager.cacheManager.State();
      if protocol == IPPROTO_TCP && TCP in infos then infos[TCP := AfterAcquire(infos[TCP])] else infos
    }

    /** getFlow of the protocols: a flow of the connection is found, or one is taken from the pool and stored. */
    method GetFlow(hash1: nat, hash2: nat, time: int, protocol: int) returns (f: Flow?)
      requires Valid()
      modifies this`hands, cache, cache.items, manager.cacheManager.pools.Values
      modifies manager`byId, manager`byTime, manager`totalProcessFlows
      ensures Valid() && created == old(created) && hands == old(hands)
      ensures hash1 in old(manager.byId) ==> f == old(manager.byId)[hash1]
      ensures hash1 !in old(manager.byId) && hash2 in old(manager.byId) ==> f == old(manager.byId)[hash2]
      ensures hash1 in old(manager.byId) || hash2 in old(manager.byId) ==>
        && f in old(manager.byTime) && manager.byTime == old(manager.byTime) && manager.byId == old(manager.byId)
        && cache.State() == old(cache.State())
      ensures hash1 !in old(manager.byId) && hash2 !in old(manager.byId) ==>
        f == null || f !in old(manager.byTime)
      ensures f != null ==> f in manager.byTime && (f.id == hash1 || f.id == hash2)
      ensures f == null ==> old(cache.total) == 0 && manager.byTime == old(manager.byTime)
      ensures f == null || f in old(manager.byTime) ==>
        manager.byId == old(manager.byId) && Available(cache.State()) == old(Available(cache.State()))
      ensures f != null && f !in old(manager.byTime) ==>
        && manager.byId == old(manager.byId)[hash1 := f]
        && old(Available(cache.State())) == Available(cache.State()) + [f]
      ensures f != null && f !in old(manager.byTime) ==>
        && f.id == hash1 && f.lastPacketTime == ToInt(time) && f.protocol == protocol
        && f.links == old(FirstLinks(protocol)) && manager.cacheManager.State() == old(AfterFirstLinks(protocol))
      ensures f == null || f in old(manager.byTime) ==>
        manager.cacheManager.State() == old(manager.cacheManager.State())
      ensures StoredUntouched(old(manager.byTime))
      ensures manager.totalProcessFlows ==
              old(manager.totalProcessFlows) + if f != null && f !in old(manager.byTime) then 1 else 0
    {
      f := manager.FindFlow(hash1, hash2);
      if f == null {
        f := NewFlow(hash1, time, protocol);
      }
    }

    method NewFlow(hash1: nat, time: int, protocol: int) returns (f: Flow?)
      requires Valid() && hash1 !in manager.byId
      modifies this`hands, cache, cache.items, manager.cacheManager.pools.Values
      modifies manager`byId, manager`byTime, manager`totalProcessFlows
      ensures Valid() && created == old(created) && hands == old(hands)
      ensures f == null ==> old(cache.total) == 0 && manager.byTime == old(manager.byTime)
      ensures f == null ==>
        manager.byId == old(manager.byId) && Available(cache.State()) == old(Available(cache.State()))
      ensures f != null ==>
        && manager.byId == old(manager.byId)[hash1 := f]
        && old(Available(cache.State())) == Available(cache.State()) + [f]
      ensures f != null ==>
        && f in manager.byTime && f !in old(manager.byTime)
        && f.id == hash1 && f.lastPacketTime == ToInt(time) && f.protocol == protocol
        && f.links == old(FirstLinks(protocol)) && manager.cacheManager.State() == old(AfterFirstLinks(protocol))
      ensures f == null ==> manager.cacheManager.State() == old(manager.cacheManager.State())
      ensures StoredUntouched(old(manager.byTime))
      ensures manager.totalProcessFlows ==
              old(manager.totalProcessFlows) + if f != null && f !in old(manager.byTime) then 1 else 0
    {
      hide FlowManager.Valid, FlowManager.PoolsValid, CacheManager.State, Partition, Available;
      f := AcquireFlow();
      if f != null {
        Introduce(f, hash1, time, protocol);
      }
    }

    /** A flow just acquired is filled in, stored and linked. */
    method Introduce(f: Flow, id: nat, time: int, protocol: int)
      requires Valid() && f in hands && id !in manager.byId && f.links == map[]
      modifies this`hands, f, manager.cacheManager.pools.Values
      modifies manager`byId, manager`byTime, manager`totalProcessFlows
      ensures Valid() && hands == old(hands) - {f}
      ensures f in manager.byTime && manager.byId == old(manager.byId)[id := f]
      ensures f.id == id && f.lastPacketTime == ToInt(time) && f.protocol == protocol
      ensures f.links == old(FirstLinks(protocol)) && manager.cacheManager.State() == old(AfterFirstLinks(protocol))
      ensures StoredUntouched(old(manager.byTime)) && manager.totalProcessFlows == old(manager.totalProcessFlows) + 1
    {
      hide FlowManager.Valid, FlowManager.PoolsValid, FlowManager.InOrder, Partition, Available, CacheManager.State;
      PartitionFacts(Available(cache.State()), manager.byTime, hands, created);
      PrepareFlow(f, id, time, protocol);
      AddFlow(f);
      if protocol == IPPROTO_TCP {
        AttachTcpInfo(f);
      }
    }

    /** These flows are as before. */
    twostate predicate StoredUntouched(flows: seq<Flow>)
      reads flows
    {
      forall f :: f in flows ==>
        && f.id == old(f.id) && f.lastPacketTime == old(f.lastPacketTime)
        && f.protocol == old(f.protocol) && f.links == old(f.links)
    }

    /** The next object of the TCP pool, if there is one, goes to a stored flow that has no links yet. */
    method AttachTcpInfo(f: Flow)
      requires Valid() && f in manager.byTime && f.protocol == IPPROTO_TCP && f.links == map[]
      modifies f`links, manager.cacheManager.pools.Values
      ensures Valid()
      ensures f.links == old(FirstLinks(IPPROTO_TCP))
      ensures manager.cacheManager.State() == old(AfterFirstLinks(IPPROTO_TCP))
    {
      hide FlowManager.Valid, FlowManager.InOrder, Partition;
      if TCP in manager.cacheManager.pools {
        var info := manager.cacheManager.Take(TCP);
        if info.Some? {
          f.links := map[TCP := info.value];
        }
      }
    }

    /** Packets of new TCP connections keep the objects of all connections stacked in the order in which they began. */
    method Connect(hash1: nat, hash2: nat, time: int, ghost holders: seq<Flow>, ghost infos: seq<Info>)
      returns (f: Flow?)
      requires Valid() && forall h :: h in holders ==> h in manager.byTime
      requires var m := manager.cacheManager;
        && AcquiredInOrder(m.State(), Attachments(holders), m.elsewhere, TCP, infos)
        && (Top(m.State()[TCP]).Some? ==> (TCP, Top(m.State()[TCP]).value) !in m.elsewhere)
      modifies this`hands, cache, cache.items, manager.cacheManager.pools.Values
      modifies manager`byId, manager`byTime, manager`totalProcessFlows
      ensures Valid() && (f != null ==> f in manager.byTime)
      ensures hash1 in old(manager.byId) ==> f == old(manager.byId)[hash1]
      ensures hash1 !in old(manager.byId) && hash2 in old(manager.byId) ==> f == old(manager.byId)[hash2]
      ensures hash1 in old(manager.byId) || hash2 in old(manager.byId) ==>
        && manager.byTime == old(manager.byTime) && manager.byId == old(manager.byId)
        && cache.State() == old(cache.State())
        && manager.cacheManager.State() == old(manager.cacheManager.State())
        && StoredUntouched(old(manager.byTime))
      ensures var m := manager.cacheManager;
        var top := old(Top(m.State()[TCP]));
        if f != null && f !in old(manager.byTime) && top.Some? then
          AcquiredInOrder(m.State(), Attachments(holders + [f]), m.elsewhere, TCP, infos + [top.value])
        else
          AcquiredInOrder(m.State(), Attachments(holders), m.elsewhere, TCP, infos)
    {
      hide FlowManager.Valid, FlowManager.PoolsValid, Partition, Available, AcquiredInOrder, AfterAcquire, Top;
      hide CacheManager.State;
      ghost var m := manager.cacheManager;
      ghost var state, held := m.State(), Attachments(holders);
      InOrderFacts(state, held, m.elsewhere, TCP, infos);
      f := GetFlow(hash1, hash2, time, IPPROTO_TCP);
      assert Attachments(holders) == held;
      if f != null && f !in old(manager.byTime) {
        assert Attachments(holders + [f]) == held + [f.Attached()];
        OneMoreAcquired(state, held, m.elsewhere, infos, f.Attached());
      }
    }

    /** What each packet of a stored flow does to its time. Only when a refresh is due is the time index told. */
    method KeepAlive(f: Flow, totalPackets: nat, time: int) returns (ghost told: bool)
      requires Valid() && f in manager.byTime
      modifies manager`byTime, f`lastPacketTime
      ensures Valid() && f in manager.byTime && f.lastPacketTime == ToInt(time)
      ensures multiset(manager.byTime) == multiset(old(manager.byTime))
      ensures told <==> f.protocol != 6 && exists m: nat :: totalPackets == NthRefresh(m)
      ensures !told ==> manager.byTime == old(manager.byTime)
      ensures told && old(manager.InOrder()) ==> manager.InOrder()
    {
      hide FlowManager.Valid, FlowManager.PoolsValid, FlowManager.InOrder, Partition;
      manager.StoredUnderItsId(f);
      RefreshDueIff(f.protocol, totalPackets);
      told := false;
      if RefreshDue(f.protocol, totalPackets) {
        told := true;
        ghost var stored := manager.byTime;
        ghost var n, m := manager.UpdateFlowTime(f, time);
        SameRest(stored, n, manager.byTime, m, f);
        Reordered(Available(cache.State()), stored, manager.byTime, hands, created);
      } else {
        ghost var place := manager.SetTimeInPlace(f, time);
      }
    }

    static lemma SameRest(a: seq<Flow>, n: nat, b: seq<Flow>, m: nat, f: Flow)
      requires n < |a| && m < |b| && a[n] == f && b[m] == f && RemoveAt(a, n) == RemoveAt(b, m)
      ensures multiset(a) == multiset(b)
    {
      assert a == a[..n] + [f] + a[n + 1..];
      assert b == b[..m] + [f] + b[m + 1..];
      assert multiset(a) == multiset(RemoveAt(a, n)) + multiset{f};
      assert multiset(b) == multiset(RemoveAt(b, m)) + multiset{f};
    }

    /** The end of a TCP connection: what the flow holds is given back, then the flow itself. */
    method CloseFlow(f: Flow)
      requires Valid() && f in manager.byTime
      modifies this`hands, cache, manager.cacheManager.pools.Values
      modifies manager`byId, manager`byTime
      ensures Valid() && created == old(created) && hands == old(hands)
      ensures f !in manager.byTime && manager.byId == old(manager.byId) - {f.id}
      ensures Available(cache.State()) == old(Available(cache.State())) + [f]
      ensures manager.cacheManager.State() ==
        AfterReturn(old(manager.cacheManager.State()), old(f.Attached()), manager.cacheManager.elsewhere)
    {
      hide FlowManager.Valid, FlowManager.InOrder, Partition, AfterReturn;
      manager.cacheManager.ReleaseFlow(f.Attached());
      Retire(f);
    }

    /** The c-th of the TCP connections ends, and takes the object of the newest one with it. */
    method Disconnect(f: Flow, ghost holders: seq<Flow>, ghost infos: seq<Info>, ghost c: nat)
      requires Valid() && f in manager.byTime && c < |holders| == |infos| && holders[c] == f
      requires var m := manager.cacheManager;
        AcquiredInOrder(m.State(), Attachments(holders), m.elsewhere, TCP, infos)
      modifies this`hands, cache, manager.cacheManager.pools.Values
      modifies manager`byId, manager`byTime
      ensures Valid() && f !in manager.byTime && created == old(created) && hands == old(hands)
      ensures var m := manager.cacheManager;
        OneClosed(m.State(), Attachments(holders), m.elsewhere, TCP, infos, c)
    {
      hide FlowManager.Valid, FlowManager.PoolsValid, CacheManager.State, Partition, Available;
      hide AcquiredInOrder, AfterReturn, OneClosed;
      ghost var m := manager.cacheManager;
      CloseOne(m.State(), Attachments(holders), m.elsewhere, TCP, infos, c);
      CloseFlow(f);
    }

    method Retire(f: Flow)
      requires Valid() && f in manager.byTime
      modifies this`hands, cache
      modifies manager`byId, manager`byTime
      ensures Valid() && created == old(created) && hands == old(hands)
      ensures f !in manager.byTime && manager.byId == old(manager.byId) - {f.id}
      ensures Available(cache.State()) == old(Available(cache.State())) + [f]
      ensures manager.cacheManager.State() == old(manager.cacheManager.State())
    {
      hide FlowManager.Valid, FlowManager.PoolsValid, FlowManager.InOrder, CacheManager.State, Partition, Available;
      PartitionFacts(Available(cache.State()), manager.byTime, hands, created);
      RemoveFlow(f);
      ReleaseFlow(f);
    }

    /** An expiry pass moves exactly the front of the table to the top of the pool, oldest first. */
    method UpdateTimers(now: int) returns (ghost expired: nat)
      requires Valid()
      requires forall f :: f in manager.byTime ==> IsInt(f.lastPacketTime + manager.timeout)
      modifies cache, manager.cacheManager.pools.Values
      modifies manager`byId, manager`byTime, manager`totalTimeoutFlows
      ensures Valid() && created == old(created) && hands == old(hands)
      ensures expired <= |old(manager.byTime)| && manager.byTime == old(manager.byTime)[expired..]
      ensures Available(cache.State()) == Available(old(cache.State())) + old(manager.byTime)[..expired]
      ensures cache.totalReleases == old(cache.totalReleases) + expired
      ensures manager.totalTimeoutFlows == old(manager.totalTimeoutFlows) + expired
      ensures expired == old(IdlePrefix(Times(manager.byTime), manager.timeout, now))
      ensures (forall f :: f in manager.byTime ==> !manager.Idle(f, now)) <==>
              old(manager.IdleFirst(manager.byTime, now))
      ensures old(manager.InOrder()) ==> manager.InOrder() && forall f :: f in manager.byTime ==> !manager.Idle(f, now)
    {
      hide FlowManager.Valid, FlowManager.InOrder, FlowManager.IdleFirst, AfterReturns, AfterReleases;
      ghost var before, stored := cache.State(), manager.byTime;
      PartitionFacts(Available(before), stored, hands, created);
      expired := manager.UpdateTimers(now);
      ReleasesPush(before, stored[..expired]);
      MoveToPool(Available(before), stored, hands, created, expired);
    }

    /** The end of processing a packet of a stored flow: at most once in a timeout an expiry pass, which may take
        the flow itself and leaves its time alone; otherwise the time of the flow. */
    method Tick(f: Flow, totalPackets: nat, time: int) returns (ghost expired: nat)
      requires Valid() && f in manager.byTime
      requires forall g :: g in manager.byTime ==> IsInt(g.lastPacketTime + manager.timeout)
      modifies this`lastTimeout, cache, manager.cacheManager.pools.Values, f`lastPacketTime
      modifies manager`byId, manager`byTime, manager`totalTimeoutFlows
      ensures Valid() && created == old(created) && hands == old(hands)
      ensures var due := time - old(manager.timeout) > old(lastTimeout);
        && lastTimeout == (if due then time else old(lastTimeout))
        && expired == (if due then old(IdlePrefix(Times(manager.byTime), manager.timeout, time)) else 0)
        && f.lastPacketTime == (if due then old(f.lastPacketTime) else ToInt(time))
        && multiset(manager.byTime) == multiset(old(manager.byTime)[expired..])
        && Available(cache.State()) == Available(old(cache.State())) + old(manager.byTime)[..expired]
        && (due || f.protocol == 6 || !(exists m: nat :: totalPackets == NthRefresh(m)) ==>
              manager.byTime == old(manager.byTime)[expired..])
    {
      hide Valid, FlowManager.InOrder, FlowManager.IdleFirst, Available, Times, IdlePrefix, NthRefresh, IsInt, ToInt;
      if time - manager.timeout > lastTimeout {
        lastTimeout := time;
        expired := UpdateTimers(time);
      } else {
        expired := 0;
        ghost var told := KeepAlive(f, totalPackets, time);
      }
    }
  }
}
