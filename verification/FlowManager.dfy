/** src/flow/FlowManager.cc: the flow table with its two indices, and the expiry of idle flows. */
module Flows {
  import opened Common
  import opened PoolModel
  import opened Caches
  import opened FlowTimes
  import InfoLifetimes

  /** Conversion of a time_t to int. */
  function ToInt(t: int): int {
    (t + 0x8000_0000) % 0x1_0000_0000 - 0x8000_0000
  }

  predicate IsInt(t: int) {
    -0x8000_0000 <= t < 0x8000_0000
  }

  /** The int that a time_t becomes differs from it by a multiple of 2^32, and is the same when it fits. */
  lemma ToIntFits(t: int)
    ensures IsInt(ToInt(t)) && (ToInt(t) - t) % 0x1_0000_0000 == 0
    ensures IsInt(t) ==> ToInt(t) == t
  {
  }

  class Flow {
    var id: nat
    var lastPacketTime: int
    var protocol: int
    var links: Links
    var packetFrequencies: Option<Info>

    constructor ()
      ensures id == 0 && lastPacketTime == 0 && protocol == 0 && links == map[] && packetFrequencies == None
    {
      id, lastPacketTime, protocol, links, packetFrequencies := 0, 0, 0, map[], None;
    }

    /** The link to the packet frequencies survives. */
    method Reset()
      modifies this
      ensures id == 0 && lastPacketTime == 0 && protocol == 0 && links == map[]
      ensures packetFrequencies == old(packetFrequencies)
    {
      id, lastPacketTime, protocol, links := 0, 0, 0, map[];
    }

    /** lastPacketTime is what getLastPacketTime returns: the stored time_t cut down to an int. */
    method SetLastPacketTime(t: int)
      modifies this`lastPacketTime
      ensures lastPacketTime == ToInt(t)
    {
      lastPacketTime := ToInt(t);
    }

    function Attached(): Attachment
      reads this`protocol, this`links
    {
      Attachment(protocol, links)
    }
  }

  ghost predicate NotLater(flows: seq<Flow>, i: nat, j: nat)
    requires i < |flows| && j < |flows|
    reads flows`lastPacketTime
  {
    flows[i].lastPacketTime <= flows[j].lastPacketTime
  }

  /** Oldest activity first: what the time index keeps as long as times change only through it. */
  ghost predicate Sorted(flows: seq<Flow>)
    reads flows`lastPacketTime
  {
    forall i, j {:trigger NotLater(flows, i, j)} :: 0 <= i < j < |flows| ==> NotLater(flows, i, j)
  }

  function Times(flows: seq<Flow>): (times: seq<int>)
    reads flows
    ensures |times| == |flows|
  {
    seq(|flows|, i requires 0 <= i < |flows| reads flows => flows[i].lastPacketTime)
  }

  lemma SortedTimes(flows: seq<Flow>)
    ensures Sorted(flows) <==> Ascending(Times(flows))
  {
    if Sorted(flows) {
      forall i, j | 0 <= i < j < |flows|
        ensures Times(flows)[i] <= Times(flows)[j]
      {
        assert NotLater(flows, i, j);
      }
    }
    if Ascending(Times(flows)) {
      forall i, j {:trigger NotLater(flows, i, j)} | 0 <= i < j < |flows|
        ensures NotLater(flows, i, j)
      {
        assert Times(flows)[i] <= Times(flows)[j];
      }
    }
  }

  /** n is where a new element of time t goes: behind all elements that are not later. */
  ghost predicate IsUpperBound(flows: seq<Flow>, t: int, n: nat)
    reads flows`lastPacketTime
  {
    && n <= |flows|
    && (forall i :: 0 <= i < n ==> flows[i].lastPacketTime <= t)
    && (forall i :: n <= i < |flows| ==> flows[i].lastPacketTime > t)
  }

  /** Where an element that stood at index goes with time t: it stays if its neighbours allow it, else it goes behind
      all that are not later. */
  ghost predicate Belongs(others: seq<Flow>, index: nat, t: int, place: nat)
    reads others`lastPacketTime
  {
    && index <= |others|
    && if (index > 0 ==> others[index - 1].lastPacketTime <= t) &&
          (index < |others| ==> t <= others[index].lastPacketTime)
       then place == index
       else Sorted(others) ==> IsUpperBound(others, t, place)
  }

  /** A place for an element of time t; the upper bound if the flows are sorted. */
  method UpperBound(flows: seq<Flow>, t: int) returns (n: nat)
    ensures n <= |flows| && (Sorted(flows) ==> IsUpperBound(flows, t, n))
  {
    n := |flows|;
    while n > 0 && flows[n - 1].lastPacketTime > t
      invariant n <= |flows| && forall i :: n <= i < |flows| ==> flows[i].lastPacketTime > t
    {
      n := n - 1;
    }
    if Sorted(flows) {
      forall i | 0 <= i < n
        ensures flows[i].lastPacketTime <= t
      {
        assert i < n - 1 ==> NotLater(flows, i, n - 1);
      }
    }
  }

  function InsertAt(flows: seq<Flow>, n: nat, f: Flow): seq<Flow>
    requires n <= |flows|
  {
    flows[..n] + [f] + flows[n..]
  }

  function RemoveAt(flows: seq<Flow>, n: nat): seq<Flow>
    requires n < |flows|
  {
    flows[..n] + flows[n + 1..]
  }

  lemma InsertDistinct(flows: seq<Flow>, n: nat, f: Flow)
    requires n <= |flows| && NoDuplicates(flows) && f !in flows
    ensures var more := InsertAt(flows, n, f);
      NoDuplicates(more) && more[n] == f && RemoveAt(more, n) == flows
  {
    var more := InsertAt(flows, n, f);
    forall i, j | 0 <= i < j < |more|
      ensures more[i] != more[j]
    {
      var i', j' := if i < n then i else i - 1, if j < n then j else j - 1;
      assert i != n ==> more[i] == flows[i'];
      assert j != n ==> more[j] == flows[j'];
      assert i != n && j != n ==> flows[i'] != flows[j'];
    }
  }

  /** Putting an element between neighbours that allow it keeps the order. */
  lemma InsertSorted(flows: seq<Flow>, n: nat, f: Flow)
    requires n <= |flows|
    requires Sorted(flows) && n > 0 ==> flows[n - 1].lastPacketTime <= f.lastPacketTime
    requires Sorted(flows) && n < |flows| ==> f.lastPacketTime <= flows[n].lastPacketTime
    ensures Sorted(flows) ==> Sorted(InsertAt(flows, n, f))
  {
    if !Sorted(flows) {
      return;
    }
    var more := InsertAt(flows, n, f);
    forall i, j {:trigger NotLater(more, i, j)} | 0 <= i < j < |more|
      ensures NotLater(more, i, j)
    {
      var i', j' := if i < n then i else i - 1, if j < n then j else j - 1;
      assert i != n ==> more[i] == flows[i'];
      assert j != n ==> more[j] == flows[j'];
      if i != n && j != n {
        assert NotLater(flows, i', j');
      } else if j == n {
        assert i < n - 1 ==> NotLater(flows, i, n - 1);
      } else {
        assert j' > n ==> NotLater(flows, n, j');
      }
    }
  }

  lemma RemoveDistinct(flows: seq<Flow>, n: nat)
    requires n < |flows| && NoDuplicates(flows)
    ensures var fewer := RemoveAt(flows, n);
      NoDuplicates(fewer) && InsertAt(fewer, n, flows[n]) == flows && flows[n] !in fewer
  {
    var fewer := RemoveAt(flows, n);
    forall i, j | 0 <= i < j < |fewer|
      ensures fewer[i] != fewer[j]
    {
      assert flows[if i < n then i else i + 1] != flows[if j < n then j else j + 1];
    }
    forall i | 0 <= i < |fewer|
      ensures fewer[i] != flows[n]
    {
      assert if i < n then flows[i] != flows[n] else flows[n] != flows[i + 1];
    }
  }

  lemma RemoveSorted(flows: seq<Flow>, n: nat)
    requires n < |flows|
    ensures Sorted(flows) ==> Sorted(RemoveAt(flows, n))
  {
    if !Sorted(flows) {
      return;
    }
    var fewer := RemoveAt(flows, n);
    forall i, j {:trigger NotLater(fewer, i, j)} | 0 <= i < j < |fewer|
      ensures NotLater(fewer, i, j)
    {
      assert NotLater(flows, if i < n then i else i + 1, if j < n then j else j + 1);
    }
  }

  /** Inserting and removing change membership by one element only. */
  lemma InsertMembers(flows: seq<Flow>, n: nat, f: Flow)
    requires n <= |flows|
    ensures forall g :: g in InsertAt(flows, n, f) <==> g in flows || g == f
  {
    assert flows == flows[..n] + flows[n..];
  }

  lemma InsertThenRemove(flows: seq<Flow>, n: nat, f: Flow)
    requires n <= |flows|
    ensures n < |InsertAt(flows, n, f)| && InsertAt(flows, n, f)[n] == f && RemoveAt(InsertAt(flows, n, f), n) == flows
  {
  }

  function Attachments(flows: seq<Flow>): (a: seq<Attachment>)
    reads flows`protocol, flows`links
    ensures |a| == |flows| && forall i :: 0 <= i < |flows| ==> a[i] == flows[i].Attached()
  {
    if flows == [] then [] else Attachments(flows[..|flows| - 1]) + [flows[|flows| - 1].Attached()]
  }

  class FlowManager {
    // the index by id and the index by last packet time
    var byId: map<nat, Flow>
    var byTime: seq<Flow>
    var timeout: int
    var totalProcessFlows: nat
    var totalTimeoutFlows: nat
    const flowCache: Cache?<Flow>
    const cacheManager: CacheManager

    ghost predicate HoldsId(id: nat)
      reads this`byId, this`byTime, byTime`id
    {
      id in byId && byId[id] in byTime && byId[id].id == id
    }

    ghost predicate HoldsFlow(f: Flow)
      reads this`byId, this`byTime, f`id
    {
      f in byTime && f.id in byId && byId[f.id] == f
    }

    /** Both indices hold the same flows, each once and under its own id. */
    ghost predicate Valid()
      reads this`byId, this`byTime, byTime`id
    {
      Indexed() && NoDuplicates(byTime)
    }

    ghost predicate Indexed()
      reads this`byId, this`byTime, byTime`id
    {
      && (forall id {:trigger HoldsId(id)} :: id in byId ==> HoldsId(id))
      && (forall f {:trigger HoldsFlow(f)} :: f in byTime ==> HoldsFlow(f))
    }

    ghost predicate InOrder()
      reads this`byTime, byTime`lastPacketTime
    {
      Sorted(byTime)
    }

    function Stored(id: nat): Flow
      requires id in byId
      reads this`byId
    {
      byId[id]
    }

    /** The pools are well formed and none of them is used twice. */
    ghost predicate PoolsValid()
      reads flowCache, cacheManager.pools.Values
    {
      && (flowCache != null ==> flowCache.Valid())
      && cacheManager.Valid()
      && forall k :: k in cacheManager.pools ==> cacheManager.pools[k] as object != flowCache
    }

    constructor (flowCache: Cache?<Flow>, cacheManager: CacheManager)
      ensures Valid() && byTime == [] && timeout == 180 && totalProcessFlows == 0 && totalTimeoutFlows == 0
      ensures this.flowCache == flowCache && this.cacheManager == cacheManager
    {
      byId, byTime, timeout := map[], [], 180;
      totalProcessFlows, totalTimeoutFlows := 0, 0;
      this.flowCache, this.cacheManager := flowCache, cacheManager;
    }

    /** A flow whose id is taken is counted but not stored. */
    method AddFlow(flow: Flow) returns (ghost n: nat)
      requires Valid()
      modifies this`byId, this`byTime, this`totalProcessFlows
      ensures Valid() && (old(InOrder()) ==> InOrder())
      ensures totalProcessFlows == old(totalProcessFlows) + 1
      ensures flow.id in old(byId) ==> byId == old(byId) && byTime == old(byTime)
      ensures flow.id !in old(byId) ==>
        && byId == old(byId)[flow.id := flow]
        && n <= |old(byTime)| && byTime == InsertAt(old(byTime), n, flow)
        && (old(InOrder()) ==> IsUpperBound(old(byTime), flow.lastPacketTime, n))
    {
      hide Indexed, NoDuplicates, Sorted;
      n := 0;
      totalProcessFlows := totalProcessFlows + 1;
      if flow.id !in byId {
        NotStored(flow);
        var place := UpperBound(byTime, flow.lastPacketTime);
        InsertDistinct(byTime, place, flow);
        InsertSorted(byTime, place, flow);
        n := place;
        Insert(flow, place);
      }
    }

    lemma NotStored(flow: Flow)
      requires Valid() && flow.id !in byId
      ensures flow !in byTime
    {
      assert forall f :: f in byTime ==> HoldsFlow(f);
    }

    lemma StoredUnderItsId(flow: Flow)
      requires Valid() && flow in byTime
      ensures flow.id in byId && byId[flow.id] == flow
    {
      assert HoldsFlow(flow);
    }

    method Insert(flow: Flow, place: nat)
      requires Valid() && flow.id !in byId && place <= |byTime|
      requires NoDuplicates(InsertAt(byTime, place, flow))
      modifies this`byId, this`byTime
      ensures Valid() && byId == old(byId)[flow.id := flow] && byTime == InsertAt(old(byTime), place, flow)
    {
      InsertMembers(byTime, place, flow);
      byId := byId[flow.id := flow];
      byTime := InsertAt(byTime, place, flow);
      forall f {:trigger HoldsFlow(f)} | f in byTime
        ensures HoldsFlow(f)
      {
        assert f != flow ==> old(HoldsFlow(f));
      }
      forall id {:trigger HoldsId(id)} | id in byId
        ensures HoldsId(id)
      {
        assert id != flow.id ==> old(HoldsId(id));
      }
    }

    method RemoveFlow(flow: Flow) returns (ghost n: nat)
      requires Valid() && flow.id in byId
      modifies this`byId, this`byTime
      ensures Valid() && (old(InOrder()) ==> InOrder())
      ensures byId == old(byId) - {flow.id}
      ensures n < |old(byTime)| && old(byTime)[n] == old(byId)[flow.id]
      ensures byTime == RemoveAt(old(byTime), n)
    {
      assert HoldsId(flow.id);
      var index := IndexOf(byTime, byId[flow.id]);
      n := index;
      RemoveSorted(byTime, index);
      Erase(index);
    }

    /** Erasing one element takes the flow out of both indices. */
    method Erase(index: nat)
      requires Valid() && index < |byTime|
      modifies this`byId, this`byTime
      ensures Valid()
      ensures byTime == RemoveAt(old(byTime), index) && byId == old(byId) - {old(byTime)[index].id}
    {
      var flow := byTime[index];
      assert HoldsFlow(flow);
      RemoveDistinct(byTime, index);
      InsertMembers(RemoveAt(byTime, index), index, flow);
      byId := byId - {flow.id};
      byTime := RemoveAt(byTime, index);
      forall f {:trigger HoldsFlow(f)} | f in byTime
        ensures HoldsFlow(f)
      {
        assert old(HoldsFlow(f));
      }
      forall id {:trigger HoldsId(id)} | id in byId
        ensures HoldsId(id)
      {
        assert old(HoldsId(id));
      }
    }

    /** The flow under either hash, the first one preferred. */
    method FindFlow(hash1: nat, hash2: nat) returns (flow: Flow?)
      requires Valid()
      ensures flow != null ==> flow in byTime && (flow.id == hash1 || (flow.id == hash2 && hash1 !in byId))
      ensures flow == null <==> forall f :: f in byTime ==> f.id != hash1 && f.id != hash2
      ensures flow == null <==> hash1 !in byId && hash2 !in byId
      ensures hash1 in byId ==> flow == byId[hash1]
      ensures hash1 !in byId && hash2 in byId ==> flow == byId[hash2]
    {
      assert hash1 in byId ==> HoldsId(hash1);
      assert hash2 in byId ==> HoldsId(hash2);
      assert forall f :: f in byTime ==> HoldsFlow(f);
      if hash1 in byId {
        flow := byId[hash1];
      } else if hash2 in byId {
        flow := byId[hash2];
      } else {
        flow := null;
      }
    }

    /** setLastPacketTime called on a stored flow: its place n in the time index stays, so a sorted index stays
        sorted exactly when the neighbours allow it. */
    method SetTimeInPlace(flow: Flow, time: int) returns (ghost n: nat)
      requires Valid() && flow in byTime
      modifies flow`lastPacketTime
      ensures Valid() && flow.lastPacketTime == ToInt(time)
      ensures n < |byTime| && byTime[n] == flow && Times(byTime) == old(Times(byTime))[n := ToInt(time)]
      ensures old(InOrder()) ==>
        (InOrder() <==>
         (n > 0 ==> byTime[n - 1].lastPacketTime <= ToInt(time)) &&
         (n + 1 < |byTime| ==> ToInt(time) <= byTime[n + 1].lastPacketTime))
    {
      hide NoDuplicates, Indexed, Sorted, Times;
      n := IndexOf(byTime, flow);
      ghost var times := Times(byTime);
      TimesAt(byTime);
      SortedTimes(byTime);
      OnlyAt(byTime, n);
      flow.SetLastPacketTime(time);
      TimesAt(byTime);
      SortedTimes(byTime);
      assert Times(byTime) == times[n := ToInt(time)];
      if Ascending(times) {
        SetInPlaceKeepsOrderIff(times, n, ToInt(time));
      }
    }

    static lemma TimesAt(flows: seq<Flow>)
      ensures forall i :: 0 <= i < |flows| ==> Times(flows)[i] == flows[i].lastPacketTime
    {
    }

    static lemma OnlyAt(flows: seq<Flow>, n: nat)
      requires NoDuplicates(flows) && n < |flows|
      ensures forall i :: 0 <= i < |flows| && i != n ==> flows[i] != flows[n]
    {
      forall i | 0 <= i < |flows| && i != n
        ensures flows[i] != flows[n]
      {
        assert i < n ==> flows[i] != flows[n];
        assert n < i ==> flows[n] != flows[i];
      }
    }

    /** The stored flow keeps its place while its neighbours allow it; otherwise it is put in again. */
    method UpdateFlowTime(flow: Flow, time: int) returns (ghost n: nat, ghost m: nat)
      requires Valid() && flow.id in byId
      modifies this`byTime, Stored(flow.id)`lastPacketTime
      ensures Valid() && (old(InOrder()) ==> InOrder())
      ensures byId[flow.id].lastPacketTime == ToInt(time)
      ensures n < |old(byTime)| && old(byTime)[n] == byId[flow.id]
      ensures m < |byTime| && byTime[m] == byId[flow.id]
      ensures RemoveAt(byTime, m) == RemoveAt(old(byTime), n)
      ensures Belongs(RemoveAt(old(byTime), n), n, ToInt(time), m)
    {
      assert HoldsId(flow.id);
      var f := byId[flow.id];
      var index := IndexOf(byTime, f);
      n := index;
      m := Reinsert(f, index, time);
    }

    method Reinsert(f: Flow, index: nat, time: int) returns (ghost m: nat)
      requires Valid() && index < |byTime| && byTime[index] == f
      modifies this`byTime, f`lastPacketTime
      ensures Valid() && f.lastPacketTime == ToInt(time)
      ensures m < |byTime| && byTime[m] == f
      ensures RemoveAt(byTime, m) == RemoveAt(old(byTime), index)
      ensures Belongs(RemoveAt(old(byTime), index), index, ToInt(time), m)
      ensures old(InOrder()) ==> InOrder()
    {
      var others := RemoveAt(byTime, index);
      RemoveDistinct(byTime, index);
      RemoveSorted(byTime, index);
      InsertMembers(others, index, f);
      f.SetLastPacketTime(time);
      StillSorted(others);
      m := PutBack(f, others, index);
    }

    static twostate lemma StillSorted(flows: seq<Flow>)
      requires forall g :: g in flows ==> g.lastPacketTime == old(g.lastPacketTime)
      ensures old(Sorted(flows)) ==> Sorted(flows)
    {
      if old(Sorted(flows)) {
        forall i, j {:trigger NotLater(flows, i, j)} | 0 <= i < j < |flows|
          ensures NotLater(flows, i, j)
        {
          assert old(NotLater(flows, i, j));
        }
      }
    }

    method PutBack(f: Flow, others: seq<Flow>, index: nat) returns (place: nat)
      requires Indexed() && NoDuplicates(others) && f !in others && index <= |others|
      requires forall g :: g in byTime <==> g in others || g == f
      modifies this`byTime
      ensures Valid() && place < |byTime| && byTime[place] == f && RemoveAt(byTime, place) == others
      ensures Sorted(others) ==> InOrder()
      ensures Belongs(others, index, f.lastPacketTime, place)
    {
      hide Belongs, InsertAt, RemoveAt, NoDuplicates, Sorted;
      place := PlaceFor(others, index, f.lastPacketTime);
      InsertDistinct(others, place, f);
      InsertSorted(others, place, f);
      InsertMembers(others, place, f);
      InsertThenRemove(others, place, f);
      ghost var all := byTime;
      byTime := InsertAt(others, place, f);
      KeepsMembers(all);
    }

    /** In place if the order allows it, else at the upper bound. */
    method PlaceFor(others: seq<Flow>, index: nat, t: int) returns (place: nat)
      requires index <= |others|
      ensures place <= |others| && Belongs(others, index, t, place)
      ensures Sorted(others) && place > 0 ==> others[place - 1].lastPacketTime <= t
      ensures Sorted(others) && place < |others| ==> t <= others[place].lastPacketTime
    {
      if (index > 0 && others[index - 1].lastPacketTime > t) ||
         (index < |others| && others[index].lastPacketTime < t) {
        place := UpperBound(others, t);
      } else {
        place := index;
      }
    }

    /** Changing times and reordering the time index leaves the two indices in agreement. */
    twostate lemma KeepsMembers(all: seq<Flow>)
      requires forall g :: g in byTime <==> g in all
      requires old(byTime) == all && old(byId) == byId && old(Indexed())
      requires forall g :: g in all ==> g.id == old(g.id)
      ensures Indexed()
    {
      forall g {:trigger HoldsFlow(g)} | g in byTime
        ensures HoldsFlow(g)
      {
        assert old(HoldsFlow(g));
      }
      forall id {:trigger HoldsId(id)} | id in byId
        ensures HoldsId(id)
      {
        assert old(HoldsId(id));
      }
    }

    /** A flow whose last packet is at least the timeout ago. */
    predicate Idle(f: Flow, now: int)
      reads this`timeout, f`lastPacketTime
    {
      f.lastPacketTime + timeout <= now
    }

    ghost predicate IdleBefore(flows: seq<Flow>, i: nat, j: nat, now: int)
      requires i < |flows| && j < |flows|
      reads this`timeout, flows`lastPacketTime
    {
      Idle(flows[j], now) ==> Idle(flows[i], now)
    }

    /** No idle flow stands behind one that is not. */
    ghost predicate IdleFirst(flows: seq<Flow>, now: int)
      reads this`timeout, flows`lastPacketTime
    {
      forall i, j {:trigger IdleBefore(flows, i, j, now)} :: 0 <= i < j < |flows| ==> IdleBefore(flows, i, j, now)
    }

    /** Releases flows from the front of the time index until the first one that is not idle; these are all
        the idle ones exactly when no idle flow stands behind an active one, so always when it is sorted. */
    method UpdateTimers(now: int) returns (ghost expired: nat)
      requires Valid() && PoolsValid()
      requires forall f :: f in byTime ==> IsInt(f.lastPacketTime + timeout)
      modifies this`byId, this`byTime, this`totalTimeoutFlows, flowCache, cacheManager.pools.Values
      ensures Shortened(old(byTime), old(byId), now, expired)
      ensures Settled(old(FlowPool()), old(cacheManager.State()), old(byTime)[..expired])
      ensures byTime != [] ==> !Idle(byTime[0], now)
      ensures (forall f :: f in byTime ==> !Idle(f, now)) <==> old(IdleFirst(byTime, now))
      ensures old(InOrder()) ==> InOrder() && forall f :: f in byTime ==> !Idle(f, now)
      ensures forall id :: id in byId <==> id in old(byId) && old(byId)[id] in byTime
      ensures totalTimeoutFlows == old(totalTimeoutFlows) + expired
      ensures expired == old(IdlePrefix(Times(byTime), timeout, now))
      ensures IdleCount(Times(byTime), timeout, now) == old(IdleCount(Times(byTime), timeout, now)) - expired
    {
      hide Settled, Sorted, IdleFirst, NoDuplicates, IdlePrefix, IdleCount, Times;
      ghost var all, ids := byTime, byId;
      assert forall id :: id in ids ==> HoldsId(id);
      NothingGone(now);
      expired := ExpireAll(now, all, ids, FlowPool(), cacheManager.State());
      Conclude(all, ids, expired, now);
      TimesOfPass(all, expired, now);
    }

    /** What a pass takes and leaves, told by the times alone. */
    lemma TimesOfPass(all: seq<Flow>, n: nat, now: int)
      requires n <= |all| && forall i :: 0 <= i < n ==> Idle(all[i], now)
      requires n < |all| ==> !Idle(all[n], now)
      ensures n == IdlePrefix(Times(all), timeout, now)
      ensures IdleCount(Times(all[n..]), timeout, now) == IdleCount(Times(all), timeout, now) - n
    {
      var times := Times(all);
      var m := IdlePrefix(times, timeout, now);
      assert m < |all| ==> times[m] == all[m].lastPacketTime;
      assert n < |all| ==> times[n] == all[n].lastPacketTime;
      assert Times(all[n..]) == times[n..];
      PassLeaves(times, timeout, now);
    }

    /** How a pass comes to miss idle flows: the time of a stored flow, the n-th in the index, was refreshed in
        place. Nothing from there on is taken; with n == 0 nothing at all. */
    method ExpireAfterRefresh(flow: Flow, time: int, now: int) returns (ghost n: nat, ghost expired: nat)
      requires Valid() && PoolsValid() && flow in byTime
      requires IsInt(time) && time + timeout > now
      requires IsInt(time + timeout) && forall f :: f in byTime ==> IsInt(f.lastPacketTime + timeout)
      modifies this`byId, this`byTime, this`totalTimeoutFlows, flow`lastPacketTime
      modifies flowCache, cacheManager.pools.Values
      ensures n < |old(byTime)| && old(byTime)[n] == flow
      ensures Valid() && expired <= |old(byTime)| && byTime == old(byTime)[expired..]
      ensures var taken := old(IdlePrefix(Times(byTime), timeout, now));
        expired == if taken < n then taken else n
      ensures IdleCount(Times(byTime), timeout, now) ==
              old(IdleCount(Times(byTime)[..n], timeout, now)) +
              old(IdleCount(Times(byTime)[n + 1..], timeout, now)) - expired
    {
      assert ToInt(time) == time;
      hide Sorted, IdleFirst, NoDuplicates, Settled, IdlePrefix, IdleCount, Indexed, ToInt, Times;
      ghost var times := Times(byTime);
      n := SetTimeInPlace(flow, time);
      RefreshedTimeShields(times, n, time, timeout, now);
      ghost var noted := Times(byTime);
      ghost var left := IdleCount(times[..n], timeout, now) + IdleCount(times[n + 1..], timeout, now);
      assert noted == times[n := time] && IdleCount(noted, timeout, now) == left;
      expired := UpdateTimers(now);
      assert IdleCount(Times(byTime), timeout, now) == left - expired;
    }

    /** Flows that expire in the order in which they began, of holders that need not all be idle: a pass gives back the
        objects of the oldest, at most half of all, and drops those of as many of the newest holders. */
    method ExpireOldest(now: int, ghost k: Kind, ghost holders: seq<Flow>, ghost infos: seq<Info>)
      returns (ghost expired: nat)
      requires Valid() && PoolsValid()
      requires forall f :: f in byTime ==> IsInt(f.lastPacketTime + timeout)
      requires byTime[..IdlePrefix(Times(byTime), timeout, now)] <= holders
      requires InfoLifetimes.AcquiredInOrder(cacheManager.State(), Attachments(holders), cacheManager.elsewhere,
                                             k, infos)
      modifies this`byId, this`byTime, this`totalTimeoutFlows, flowCache, cacheManager.pools.Values
      ensures Valid() && expired <= |old(byTime)| && byTime == old(byTime)[expired..]
      ensures expired == old(IdlePrefix(Times(byTime), timeout, now)) && k in cacheManager.pools
      ensures InfoLifetimes.NewestDropped(old(cacheManager.State()[k]), cacheManager.State()[k], infos, expired)
    {
      hide Valid, PoolsValid, IdlePrefix, Times, AfterReturns;
      hide InfoLifetimes.AcquiredInOrder, InfoLifetimes.NewestDropped;
      ghost var state, all, idle := cacheManager.State(), Attachments(holders), IdleAttachments(now);
      InfoLifetimes.InOrderFacts(state, all, cacheManager.elsewhere, k, infos);
      assert all[..|idle|] == idle;
      InfoLifetimes.DropsTheNewest(state, all, cacheManager.elsewhere, k, infos, |idle|);
      expired := ExpireThese(now, idle);
    }

    /** What the idle flows at the front of the time index hold. */
    ghost function IdleAttachments(now: int): (a: seq<Attachment>)
      reads this`byTime, this`timeout, byTime
    {
      Attachments(byTime[..IdlePrefix(Times(byTime), timeout, now)])
    }

    /** UpdateTimers, told by the attachments alone. */
    method ExpireThese(now: int, ghost idle: seq<Attachment>) returns (ghost expired: nat)
      requires Valid() && PoolsValid() && idle == IdleAttachments(now)
      requires forall f :: f in byTime ==> IsInt(f.lastPacketTime + timeout)
      modifies this`byId, this`byTime, this`totalTimeoutFlows, flowCache, cacheManager.pools.Values
      ensures Valid() && expired == |idle| <= |old(byTime)| && byTime == old(byTime)[expired..]
      ensures expired == old(IdlePrefix(Times(byTime), timeout, now))
      ensures cacheManager.State() == AfterReturns(old(cacheManager.State()), idle, cacheManager.elsewhere)
    {
      hide Sorted, IdleFirst, NoDuplicates, IdlePrefix, IdleCount, Indexed, Times;
      hide AfterReturns, AfterReleases, Attachments;
      expired := UpdateTimers(now);
    }

    /** infos are the objects of the idle flows that still have one. A pass gives all of them back exactly if none sits
        in a slot taken before its turn; and no object at all is lost, of idle or active flows, exactly if moreover
        no slot taken is the only one to hold the object of another flow. */
    method ExpireHolders(now: int, ghost k: Kind, ghost infos: seq<Info>) returns (ghost expired: nat)
      requires Valid() && PoolsValid() && k in cacheManager.pools
      requires forall f :: f in byTime ==> IsInt(f.lastPacketTime + timeout)
      requires InfoLifetimes.OfKind(IdleAttachments(now), cacheManager.elsewhere, k)
      requires InfoLifetimes.Holding(cacheManager.State(),
                                     InfoLifetimes.Holders(cacheManager.State()[k], IdleAttachments(now), k),
                                     cacheManager.elsewhere, k, infos)
      modifies this`byId, this`byTime, this`totalTimeoutFlows, flowCache, cacheManager.pools.Values
      ensures Valid() && expired <= |old(byTime)| && byTime == old(byTime)[expired..]
      ensures expired == old(IdlePrefix(Times(byTime), timeout, now))
      ensures var before, after := old(cacheManager.State()[k]), cacheManager.State()[k];
        && (after.releases == before.releases + |infos| <==> InfoLifetimes.InTime(before, infos))
        && (InfoLifetimes.KeepsAll(before, after) <==>
            InfoLifetimes.InTime(before, infos) && InfoLifetimes.SparesOthers(before, infos))
    {
      hide Valid, PoolsValid, IdleAttachments, IdlePrefix, Times, AfterReturns, NoDuplicates;
      hide InfoLifetimes.InTime, InfoLifetimes.SparesOthers, InfoLifetimes.KeepsAll, InfoLifetimes.Holders;
      hide InfoLifetimes.Holds, InfoLifetimes.OfKind;
      ghost var state, idle := cacheManager.State(), IdleAttachments(now);
      InfoLifetimes.PassSparesAllIff(state, idle, cacheManager.elsewhere, k, infos);
      expired := ExpireThese(now, idle);
    }

    function FlowPool(): Pool<Flow>
      reads flowCache
    {
      if flowCache != null then flowCache.State() else Empty()
    }

    lemma NothingGone(now: int)
      requires Valid() && PoolsValid()
      ensures Shortened(byTime, byId, now, 0) && Settled(FlowPool(), cacheManager.State(), byTime[..0])
    {
      assert byTime[0..] == byTime && byTime[..0] == [];
    }

    lemma Conclude(all: seq<Flow>, ids: map<nat, Flow>, n: nat, now: int)
      requires Shortened(all, ids, now, n)
      requires byTime != [] ==> !Idle(byTime[0], now)
      requires forall id :: id in ids ==> ids[id] in all && ids[id].id == id
      ensures (forall f :: f in byTime ==> !Idle(f, now)) <==> IdleFirst(all, now)
      ensures Sorted(all) ==> InOrder() && forall f :: f in byTime ==> !Idle(f, now)
      ensures forall id :: id in byId <==> id in ids && ids[id] in byTime
    {
      RestIsSorted(all, n);
      AllIdleGoneIff(all, n, now);
      WhoStays(all, ids, n);
    }

    lemma RestIsSorted(all: seq<Flow>, n: nat)
      requires n <= |all| && byTime == all[n..]
      ensures Sorted(all) ==> InOrder()
    {
      if Sorted(all) {
        forall i, j {:trigger NotLater(byTime, i, j)} | 0 <= i < j < |byTime|
          ensures NotLater(byTime, i, j)
        {
          assert NotLater(all, i + n, j + n);
        }
      }
    }

    /** What the early end of the loop leaves behind. */
    lemma AllIdleGoneIff(all: seq<Flow>, n: nat, now: int)
      requires n <= |all| && byTime == all[n..]
      requires forall i :: 0 <= i < n ==> Idle(all[i], now)
      requires byTime != [] ==> !Idle(byTime[0], now)
      ensures (forall f :: f in byTime ==> !Idle(f, now)) <==> IdleFirst(all, now)
      ensures Sorted(all) ==> IdleFirst(all, now)
    {
      var times := Times(all);
      assert n < |all| ==> all[n] == byTime[0];
      TimesOfPass(all, n, now);
      PassIsCompleteIff(times, timeout, now);
      SortedTimes(all);
      IdleFirstTimes(all, now);
      NoneIdle(Times(byTime), timeout, now);
      assert forall i :: 0 <= i < |byTime| ==> Times(byTime)[i] == byTime[i].lastPacketTime;
    }

    lemma IdleFirstTimes(all: seq<Flow>, now: int)
      ensures var times := Times(all);
        IdleFirst(all, now) <==>
        forall i, j :: 0 <= i < j < |times| && times[j] + timeout <= now ==> times[i] + timeout <= now
    {
      var times := Times(all);
      assert forall i :: 0 <= i < |all| ==> times[i] == all[i].lastPacketTime;
      if IdleFirst(all, now) {
        forall i, j | 0 <= i < j < |times| && times[j] + timeout <= now
          ensures times[i] + timeout <= now
        {
          assert IdleBefore(all, i, j, now);
        }
      }
    }

    /** The first n flows of the table were idle for the timeout and are gone; the rest is as it was. */
    ghost predicate Shortened(all: seq<Flow>, ids: map<nat, Flow>, now: int, n: nat)
      reads this`byId, this`byTime, this`timeout, byTime`id, all`lastPacketTime
    {
      && n <= |all| && byTime == all[n..] && Valid()
      && (forall i :: 0 <= i < n ==> all[i].lastPacketTime + timeout <= now)
      && (forall id :: id in byId ==> id in ids && byId[id] == ids[id])
    }

    /** The pools have received, from their states before, the gone flows and what those held. */
    ghost predicate Settled(flows: Pool<Flow>, infos: InfoPools, gone: seq<Flow>)
      reads flowCache, cacheManager.pools.Values, gone`protocol, gone`links
    {
      && PoolsValid()
      && (flowCache != null ==> flowCache.State() == AfterReleases(flows, gone))
      && cacheManager.State() == AfterReturns(infos, Attachments(gone), cacheManager.elsewhere)
    }

    ghost predicate Expiring(all: seq<Flow>, ids: map<nat, Flow>, flows: Pool<Flow>, infos: InfoPools, now: int, n: nat)
      reads this`byId, this`byTime, this`timeout, flowCache, cacheManager.pools.Values, byTime`id, all
    {
      Shortened(all, ids, now, n) && Settled(flows, infos, all[..n])
    }

    /** The expiry loop, with its early end. */
    method ExpireAll(now: int, ghost all: seq<Flow>, ghost ids: map<nat, Flow>, ghost flows: Pool<Flow>,
                     ghost infos: InfoPools)
      returns (ghost expired: nat)
      requires Expiring(all, ids, flows, infos, now, 0)
      modifies this`byId, this`byTime, this`totalTimeoutFlows, flowCache, cacheManager.pools.Values
      ensures Expiring(all, ids, flows, infos, now, expired)
      ensures byTime != [] ==> byTime[0].lastPacketTime + timeout > now
      ensures totalTimeoutFlows == old(totalTimeoutFlows) + expired
    {
      expired := 0;
      while byTime != []
        invariant Expiring(all, ids, flows, infos, now, expired)
        invariant totalTimeoutFlows == old(totalTimeoutFlows) + expired
        decreases |byTime|
      {
        if byTime[0].lastPacketTime + timeout <= now {
          ExpireRound(now, all, ids, flows, infos, expired);
          expired := expired + 1;
        } else {
          break;
        }
      }
    }

    /** The body of the expiry loop: the oldest flow leaves the table and gives back what it holds. */
    method ExpireRound(now: int, ghost all: seq<Flow>, ghost ids: map<nat, Flow>, ghost flows: Pool<Flow>,
                       ghost infos: InfoPools, ghost n: nat)
      requires byTime != [] && byTime[0].lastPacketTime + timeout <= now
      requires n < |all| && all[n] == byTime[0] && Expiring(all, ids, flows, infos, now, n)
      modifies this`byId, this`byTime, this`totalTimeoutFlows, flowCache, cacheManager.pools.Values
      ensures Expiring(all, ids, flows, infos, now, n + 1)
      ensures totalTimeoutFlows == old(totalTimeoutFlows) + 1 && |byTime| < |old(byTime)|
    {
      hide Shortened, Settled;
      var flow := byTime[0];
      totalTimeoutFlows := totalTimeoutFlows + 1;
      DropRound(now, all, ids, n);
      GiveBack(flow, all, flows, infos, n);
    }

    /** The erasure through the time index removes the flow from both indices. */
    method DropRound(now: int, ghost all: seq<Flow>, ghost ids: map<nat, Flow>, ghost n: nat)
      requires byTime != [] && byTime[0].lastPacketTime + timeout <= now
      requires Shortened(all, ids, now, n)
      modifies this`byId, this`byTime
      ensures Shortened(all, ids, now, n + 1) && |byTime| < |old(byTime)|
    {
      assert RemoveAt(byTime, 0) == byTime[1..] && byTime[1..] == all[n + 1..];
      Erase(0);
    }

    /** The objects attached to the flow go to their pools, then the flow to its own. */
    method GiveBack(flow: Flow, ghost all: seq<Flow>, ghost flows: Pool<Flow>, ghost infos: InfoPools, ghost n: nat)
      requires n < |all| && all[n] == flow && Settled(flows, infos, all[..n])
      modifies flowCache, cacheManager.pools.Values
      ensures Settled(flows, infos, all[..n + 1])
    {
      hide AfterReturns, AfterReleases, AfterReturn, AfterRelease, Attachments;
      OneMore(all, n, flows, infos, cacheManager.elsewhere);
      cacheManager.ReleaseFlow(flow.Attached());
      if flowCache != null {
        flowCache.Release(flow);
      }
    }

    /** The ids left are those of the flows left. */
    lemma WhoStays(all: seq<Flow>, ids: map<nat, Flow>, n: nat)
      requires Valid() && n <= |all| && byTime == all[n..]
      requires forall id :: id in byId ==> id in ids && byId[id] == ids[id]
      requires forall id :: id in ids ==> ids[id] in all && ids[id].id == id
      ensures forall id :: id in byId <==> id in ids && ids[id] in byTime
    {
      forall id
        ensures id in byId <==> id in ids && ids[id] in byTime
      {
        if id in byId {
          assert HoldsId(id);
        }
        if id in ids && ids[id] in byTime {
          assert HoldsFlow(ids[id]);
        }
      }
    }

    static lemma OneMore(all: seq<Flow>, n: nat, flows: Pool<Flow>, infos: InfoPools, elsewhere: set<(Kind, Info)>)
      requires n < |all|
      ensures AfterReturns(infos, Attachments(all[..n + 1]), elsewhere) ==
              AfterReturn(AfterReturns(infos, Attachments(all[..n]), elsewhere), all[n].Attached(), elsewhere)
      ensures AfterReleases(flows, all[..n + 1]) == AfterRelease(AfterReleases(flows, all[..n]), all[n])
    {
      var before, after := Attachments(all[..n]), Attachments(all[..n + 1]);
      assert all[..n + 1][..n] == all[..n] && all[..n + 1][n] == all[n];
      assert after == before + [all[n].Attached()] && after[..n] == before;
    }
  }
}
