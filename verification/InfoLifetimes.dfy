/** Which weak links of other flows survive the return of a flow's objects: src/CacheManager.cc gives them back into
    pools whose slots, from total on, are all that keeps the objects of the other flows alive (src/Cache.h). */
module InfoLifetimes {
  import opened Common
  import opened PoolModel
  import opened Caches

  /** The return of one flow's objects drops the object of another flow's link exactly if it overwrites its slot. */
  lemma LinkSurvivesIff(pools: InfoPools, a: Attachment, elsewhere: set<(Kind, Info)>, links: Links, k: Kind)
    requires k in pools && k in links && HasRoom(pools, k) && NoDuplicates(pools[k].items)
    requires k in Cascade(a, Owners(pools, elsewhere))
    ensures k in a.links
    ensures Live(links, Owners(AfterReturn(pools, a, elsewhere), elsewhere), k) <==>
            && Live(links, Owners(pools, elsewhere), k)
            && ((k, links[k]) in elsewhere || links[k] != pools[k].items[pools[k].total] || links[k] == a.links[k])
  {
    EachPoolOnce(pools, a, elsewhere, k);
    CascadeIsLive(a, Owners(pools, elsewhere));
    ReleaseDrops(pools[k], a.links[k], links[k]);
  }

  /** What the pool of kind k is given when several flows give back their objects one after the other. */
  function ReturnedTo(pools: InfoPools, flows: seq<Attachment>, elsewhere: set<(Kind, Info)>, k: Kind): seq<Info> {
    if flows == [] then []
    else
      var n := |flows| - 1;
      var live := Owners(AfterReturns(pools, flows[..n], elsewhere), elsewhere);
      ReturnedTo(pools, flows[..n], elsewhere, k) +
      if k in Cascade(flows[n], live) && k in flows[n].links then [flows[n].links[k]] else []
  }

  lemma {:induction false} PassByKind(pools: InfoPools, flows: seq<Attachment>, elsewhere: set<(Kind, Info)>, k: Kind)
    requires k in pools
    ensures k in AfterReturns(pools, flows, elsewhere)
    ensures AfterReturns(pools, flows, elsewhere)[k] == AfterReleases(pools[k], ReturnedTo(pools, flows, elsewhere, k))
  {
    if flows != [] {
      var n := |flows| - 1;
      var middle := AfterReturns(pools, flows[..n], elsewhere);
      PassByKind(pools, flows[..n], elsewhere, k);
      EachPoolOnce(middle, flows[n], elsewhere, k);
      var given := ReturnedTo(pools, flows[..n], elsewhere, k);
      if k in Cascade(flows[n], Owners(middle, elsewhere)) {
        ReleasesSnoc(pools[k], given, flows[n].links[k]);
      } else {
        assert given + [] == given;
      }
    }
  }

  /** After a pass a link is alive exactly if its object is held elsewhere, was itself given back, or sits in a slot
      that was not overwritten. */
  lemma LinkSurvivesPassIff(pools: InfoPools, flows: seq<Attachment>, elsewhere: set<(Kind, Info)>, links: Links,
                            k: Kind)
    requires k in pools && k in links && pools[k].total <= |pools[k].items|
    ensures var p, given := pools[k], ReturnedTo(pools, flows, elsewhere, k);
      var m := Room(p, |given|);
      && m <= |given| && p.total + m <= |p.items|
      && (Live(links, Owners(AfterReturns(pools, flows, elsewhere), elsewhere), k) <==>
          || (k, links[k]) in elsewhere
          || links[k] in given[..m] || links[k] in p.items[..p.total] || links[k] in p.items[p.total + m..])
  {
    PassByKind(pools, flows, elsewhere, k);
    ReleasesOverwrite(pools[k], ReturnedTo(pools, flows, elsewhere, k));
  }

  // ---------------------------------------------------------------- flows that end in the order in which they began

  /** The first slots above total hold the given objects, the first one highest, and only these slots hold them. */
  ghost predicate Stacked(p: Pool<Info>, infos: seq<Info>) {
    && p.total + |infos| <= |p.items| && NoDuplicates(p.items)
    && p.items[p.total..p.total + |infos|] == Reverse(infos)
  }

  /** From a full pool, acquiring objects and releasing only the latest one keeps the outstanding ones stacked. */
  lemma LifoStacks(p: Pool<Info>, ops: seq<Op<Info>>)
    requires p.total == |p.items| && NoDuplicates(p.items) && Lifo(p, [], ops)
    ensures Stacked(Run(p, ops), OutAfterAll(p, [], ops))
  {
    LifoKeepsSlots(p, [], ops);
    var q := Run(p, ops);
    assert q.items[q.total..] == q.items[q.total..|q.items|];
  }

  /** The flows hold the given transport objects, acquired in this order; nothing but the pool keeps them. */
  ghost predicate AcquiredInOrder(pools: InfoPools, flows: seq<Attachment>, elsewhere: set<(Kind, Info)>, k: Kind,
                                  infos: seq<Info>)
  {
    && k in pools && |infos| == |flows| && Stacked(pools[k], infos)
    && forall i :: 0 <= i < |flows| ==> Holds(flows[i], elsewhere, k, infos[i])
  }

  lemma InOrderFacts(pools: InfoPools, flows: seq<Attachment>, elsewhere: set<(Kind, Info)>, k: Kind, infos: seq<Info>)
    requires AcquiredInOrder(pools, flows, elsewhere, k, infos)
    ensures k in pools && |infos| == |flows|
  {
  }

  ghost predicate Holds(a: Attachment, elsewhere: set<(Kind, Info)>, k: Kind, info: Info) {
    Transport(a.protocol) == k && k in a.links && a.links[k] == info && (k, info) !in elsewhere
  }

  /** Of n objects, the first half, rounded up. */
  function Half(n: nat): nat {
    (n + 1) / 2
  }

  lemma SlotOf(p: Pool<Info>, infos: seq<Info>, t: nat)
    requires Stacked(p, infos) && t < |infos|
    ensures p.items[p.total + (|infos| - 1 - t)] == infos[t]
  {
    assert p.items[p.total..p.total + |infos|][|infos| - 1 - t] == infos[t];
  }

  lemma Apart(s: seq<Info>, i: nat, j: nat)
    requires NoDuplicates(s) && i < |s| && j < |s| && i != j
    ensures s[i] != s[j]
  {
    assert i < j || j < i;
  }

  /** Object t sits |infos| - 1 - t slots above total, so m releases of earlier ones drop it if m exceeds that. */
  lemma HeldIff(p: Pool<Info>, infos: seq<Info>, m: nat, t: nat)
    requires Stacked(p, infos) && m <= t < |infos|
    ensures infos[t] in AfterReleases(p, infos[..m]).items <==> m <= |infos| - 1 - t
  {
    hide AfterReleases, Reverse, NoDuplicates;
    ReleasesOverwrite(p, infos[..m]);
    var at, after := p.total + (|infos| - 1 - t), AfterReleases(p, infos[..m]).items;
    SlotOf(p, infos, t);
    if m <= |infos| - 1 - t {
      assert after[at] == p.items[at];
    } else {
      forall i | 0 <= i < |after|
        ensures after[i] != infos[t]
      {
        if p.total <= i < p.total + m {
          var j := i - p.total;
          assert after[i] == infos[..m][j] == infos[j];
          SlotOf(p, infos, j);
          Apart(p.items, p.total + (|infos| - 1 - j), at);
        } else {
          assert after[i] == p.items[i];
          Apart(p.items, i, at);
        }
      }
    }
  }

  lemma TransportIsNamedIff(a: Attachment, live: Owners)
    ensures Transport(a.protocol) in Cascade(a, live) <==> Live(a.links, live, Transport(a.protocol))
  {
    FirstLiveIsLive(a.links, live, Applications(a.protocol));
    assert Transport(a.protocol) !in Applications(a.protocol);
  }

  /** After the first n flows, with m objects back in the pool, flow n gives back its own if the pool still holds it. */
  lemma NextReturns(pools: InfoPools, flows: seq<Attachment>, elsewhere: set<(Kind, Info)>, k: Kind, infos: seq<Info>,
                    n: nat, m: nat)
    requires AcquiredInOrder(pools, flows, elsewhere, k, infos) && m <= n < |flows|
    requires ReturnedTo(pools, flows[..n], elsewhere, k) == infos[..m]
    ensures var live := Owners(AfterReturns(pools, flows[..n], elsewhere), elsewhere);
      k in Cascade(flows[n], live) <==> m <= |infos| - 1 - n
  {
    hide Cascade, AfterReturns, ReturnedTo, Stacked;
    var after := AfterReturns(pools, flows[..n], elsewhere);
    assert Holds(flows[n], elsewhere, k, infos[n]);
    PassByKind(pools, flows[..n], elsewhere, k);
    HeldIff(pools[k], infos, m, n);
    TransportIsNamedIff(flows[n], Owners(after, elsewhere));
  }

  lemma {:induction false} FirstHalfReturns(pools: InfoPools, flows: seq<Attachment>, elsewhere: set<(Kind, Info)>,
                                            k: Kind, infos: seq<Info>, t: nat)
    requires AcquiredInOrder(pools, flows, elsewhere, k, infos) && t <= |flows|
    ensures ReturnedTo(pools, flows[..t], elsewhere, k) == infos[..if t <= Half(|infos|) then t else Half(|infos|)]
  {
    hide Cascade, AfterReturns, Stacked;
    if t > 0 {
      var n, half := t - 1, Half(|infos|);
      var m := if n <= half then n else half;
      FirstHalfReturns(pools, flows, elsewhere, k, infos, n);
      NextReturns(pools, flows, elsewhere, k, infos, n, m);
      assert Holds(flows[n], elsewhere, k, infos[n]);
      assert flows[..t][..n] == flows[..n] && flows[..t][n] == flows[n];
      assert n < half ==> infos[..n] + [infos[n]] == infos[..t];
    }
  }

  /** What a pass over the t oldest of n flows does to the pool: the first m objects are back, m being t but at most
      half of n; those of the m newest flows are dropped, expired or not; all others stay. */
  ghost predicate NewestDropped(before: Pool<Info>, after: Pool<Info>, infos: seq<Info>, t: nat) {
    var n := |infos|;
    var m := if t <= Half(n) then t else Half(n);
    && |after.items| == |before.items|
    && after.releases == before.releases + m && after.total == before.total + m
    && forall j :: 0 <= j < n ==> (infos[j] in after.items <==> j < m || j < n - m)
  }

  lemma DropsTheNewest(pools: InfoPools, flows: seq<Attachment>, elsewhere: set<(Kind, Info)>, k: Kind,
                       infos: seq<Info>, t: nat)
    requires AcquiredInOrder(pools, flows, elsewhere, k, infos) && t <= |flows|
    ensures k in AfterReturns(pools, flows[..t], elsewhere)
    ensures NewestDropped(pools[k], AfterReturns(pools, flows[..t], elsewhere)[k], infos, t)
  {
    hide AfterReturns, ReturnedTo, AfterReleases;
    var p, n := pools[k], |infos|;
    var m := if t <= Half(n) then t else Half(n);
    FirstHalfReturns(pools, flows, elsewhere, k, infos, t);
    PassByKind(pools, flows[..t], elsewhere, k);
    ReleasesOverwrite(p, infos[..m]);
    var after := AfterReleases(p, infos[..m]).items;
    forall j | 0 <= j < n
      ensures infos[j] in after <==> j < m || j < n - m
    {
      if j < m {
        assert after[p.total + j] == infos[..m][j] == infos[j];
      } else {
        HeldIff(p, infos, m, j);
      }
    }
  }

  /** So the link of the t-th oldest or any newer flow is alive after the pass exactly if that many newer flows are
      left as have given something back. */
  lemma ActiveLinkSurvivesIff(pools: InfoPools, flows: seq<Attachment>, elsewhere: set<(Kind, Info)>, k: Kind,
                              infos: seq<Info>, t: nat, j: nat)
    requires AcquiredInOrder(pools, flows, elsewhere, k, infos) && t <= j < |flows|
    ensures Live(flows[j].links, Owners(pools, elsewhere), k)
    ensures Live(flows[j].links, Owners(AfterReturns(pools, flows[..t], elsewhere), elsewhere), k) <==>
            t <= |flows| - 1 - j
  {
    DropsTheNewest(pools, flows, elsewhere, k, infos, t);
    assert Holds(flows[j], elsewhere, k, infos[j]);
    SlotOf(pools[k], infos, j);
  }

  /** One of n flows gives back its objects, not the newest: the newest one loses its object, the others keep theirs.
      When it is the newest, all others keep theirs. */
  lemma OtherLinksAfterCloseIff(pools: InfoPools, flows: seq<Attachment>, elsewhere: set<(Kind, Info)>, k: Kind,
                                infos: seq<Info>, c: nat, j: nat)
    requires AcquiredInOrder(pools, flows, elsewhere, k, infos) && c < |flows| && j < |flows| && j != c
    ensures Live(flows[j].links, Owners(AfterReturn(pools, flows[c], elsewhere), elsewhere), k) <==> j != |flows| - 1
  {
    hide AfterReturn, Cascade;
    var p, last := pools[k], |flows| - 1;
    assert Holds(flows[c], elsewhere, k, infos[c]) && Holds(flows[j], elsewhere, k, infos[j]);
    SlotOf(p, infos, c);
    SlotOf(p, infos, j);
    SlotOf(p, infos, last);
    TransportIsNamedIff(flows[c], Owners(pools, elsewhere));
    LinkSurvivesIff(pools, flows[c], elsewhere, flows[j].links, k);
    Apart(p.items, p.total + (last - c), p.total + (last - j));
    if j != last {
      Apart(p.items, p.total + (last - j), p.total);
    }
  }

  /** The objects of the flows left stay stacked exactly if it was the newest one. */
  lemma StackedAfterCloseIff(pools: InfoPools, flows: seq<Attachment>, elsewhere: set<(Kind, Info)>, k: Kind,
                             infos: seq<Info>, c: nat)
    requires AcquiredInOrder(pools, flows, elsewhere, k, infos) && c < |flows|
    ensures AcquiredInOrder(AfterReturn(pools, flows[c], elsewhere), flows[..c] + flows[c + 1..], elsewhere, k,
                            infos[..c] + infos[c + 1..]) <==>
            c == |flows| - 1
  {
    hide AfterReturn, Cascade;
    var p, last, after := pools[k], |flows| - 1, AfterReturn(pools, flows[c], elsewhere);
    assert Holds(flows[c], elsewhere, k, infos[c]);
    SlotOf(p, infos, c);
    TransportIsNamedIff(flows[c], Owners(pools, elsewhere));
    EachPoolOnce(pools, flows[c], elsewhere, k);
    if c == last {
      var q := after[k];
      assert infos == infos[..c] + [infos[c]];
      ReverseConcat(infos[..c], [infos[c]]);
      assert q.items == p.items;
      assert q.items[q.total..q.total + c] == p.items[p.total..p.total + |infos|][1..];
      assert infos[..c] + infos[c + 1..] == infos[..c] && flows[..c] + flows[c + 1..] == flows[..c];
    } else {
      assert after[k].items[p.total] == infos[c] == after[k].items[p.total + (last - c)];
    }
  }

  /** The c-th of the flows has given back its objects. Of the others exactly the newest has lost its own, unless it
      was the newest that ended; exactly then the objects of those left are still stacked. */
  ghost predicate OneClosed(after: InfoPools, flows: seq<Attachment>, elsewhere: set<(Kind, Info)>, k: Kind,
                            infos: seq<Info>, c: nat)
    requires c < |flows| == |infos|
  {
    && (forall j :: 0 <= j < |flows| && j != c ==>
          (Live(flows[j].links, Owners(after, elsewhere), k) <==> j != |flows| - 1))
    && (AcquiredInOrder(after, flows[..c] + flows[c + 1..], elsewhere, k, infos[..c] + infos[c + 1..]) <==>
        c == |flows| - 1)
  }

  lemma CloseOne(pools: InfoPools, flows: seq<Attachment>, elsewhere: set<(Kind, Info)>, k: Kind, infos: seq<Info>,
                 c: nat)
    requires AcquiredInOrder(pools, flows, elsewhere, k, infos) && c < |flows|
    ensures |flows| == |infos| && OneClosed(AfterReturn(pools, flows[c], elsewhere), flows, elsewhere, k, infos, c)
  {
    hide Live, AfterReturn;
    StackedAfterCloseIff(pools, flows, elsewhere, k, infos, c);
    forall j | 0 <= j < |flows| && j != c
      ensures Live(flows[j].links, Owners(AfterReturn(pools, flows[c], elsewhere), elsewhere), k) <==>
              j != |flows| - 1
    {
      OtherLinksAfterCloseIff(pools, flows, elsewhere, k, infos, c, j);
    }
  }

  function OnTcp(info: Info): Attachment {
    Attachment(IPPROTO_TCP, map[TCP := info])
  }

  /** With three TCP connections open and only the oldest of them idle, the newest one loses its object. */
  lemma NewestLosesItsObject(oldest: Info, middle: Info, newest: Info)
    requires oldest != middle && middle != newest && newest != oldest
    ensures var infos := [oldest, middle, newest];
      var flows := [OnTcp(oldest), OnTcp(middle), OnTcp(newest)];
      var pools := map[TCP := Pool([newest, middle, oldest], 0, 3, 0, 0)];
      && AcquiredInOrder(pools, flows, {}, TCP, infos)
      && Live(flows[2].links, Owners(pools, {}), TCP)
      && !Live(flows[2].links, Owners(AfterReturns(pools, flows[..1], {}), {}), TCP)
  {
    var infos := [oldest, middle, newest];
    var flows := [OnTcp(oldest), OnTcp(middle), OnTcp(newest)];
    var pools: InfoPools := map[TCP := Pool([newest, middle, oldest], 0, 3, 0, 0)];
    assert pools[TCP].items[0..3] == Reverse(infos);
    assert forall i :: 0 <= i < 3 ==> Holds(flows[i], {}, TCP, infos[i]);
    ActiveLinkSurvivesIff(pools, flows, {}, TCP, infos, 1, 2);
  }

  /** What one more connection does: its object is the next of the pool, and it comes last in the order. */
  lemma OneMoreHolder(pools: InfoPools, flows: seq<Attachment>, elsewhere: set<(Kind, Info)>, k: Kind, infos: seq<Info>,
                      a: Attachment)
    requires AcquiredInOrder(pools, flows, elsewhere, k, infos) && Top(pools[k]).Some?
    requires Holds(a, elsewhere, k, Top(pools[k]).value)
    ensures AcquiredInOrder(pools[k := AfterAcquire(pools[k])], flows + [a], elsewhere, k,
                            infos + [Top(pools[k]).value])
  {
    var p, top := pools[k], Top(pools[k]).value;
    var q := AfterAcquire(p);
    ReverseConcat(infos, [top]);
    assert q.items[q.total..q.total + |infos| + 1] == [top] + p.items[p.total..p.total + |infos|];
    forall i | 0 <= i < |flows + [a]|
      ensures Holds((flows + [a])[i], elsewhere, k, (infos + [top])[i])
    {
      assert i < |flows| ==> Holds(flows[i], elsewhere, k, infos[i]);
    }
  }

  /** A new TCP flow: the next object of the pool is its own; from an empty pool it gets none. */
  lemma OneMoreAcquired(pools: InfoPools, flows: seq<Attachment>, elsewhere: set<(Kind, Info)>, infos: seq<Info>,
                        a: Attachment)
    requires AcquiredInOrder(pools, flows, elsewhere, TCP, infos) && a.protocol == IPPROTO_TCP
    requires Top(pools[TCP]).Some? ==>
      a.links == map[TCP := Top(pools[TCP]).value] && (TCP, Top(pools[TCP]).value) !in elsewhere
    ensures var after := pools[TCP := AfterAcquire(pools[TCP])];
      if Top(pools[TCP]).Some? then
        AcquiredInOrder(after, flows + [a], elsewhere, TCP, infos + [Top(pools[TCP]).value])
      else AcquiredInOrder(after, flows, elsewhere, TCP, infos)
  {
    if Top(pools[TCP]).Some? {
      OneMoreHolder(pools, flows, elsewhere, TCP, infos, a);
    }
  }

  // ---------------------------------------------------------------- when nothing is lost

  /** The flows hold the given transport objects, all different; the pool has a slot for each, and no other owner
      keeps them. */
  ghost predicate Holding(pools: InfoPools, flows: seq<Attachment>, elsewhere: set<(Kind, Info)>, k: Kind,
                          infos: seq<Info>)
  {
    && k in pools && |infos| == |flows| && NoDuplicates(infos)
    && pools[k].total + |infos| <= |pools[k].items|
    && forall i :: 0 <= i < |flows| ==> Holds(flows[i], elsewhere, k, infos[i])
  }

  /** Where the pool still holds object j when j objects have come back. */
  function LeftFor(p: Pool<Info>, j: nat): seq<Info>
    requires p.total + j <= |p.items|
  {
    p.items[..p.total] + p.items[p.total + j..]
  }

  /** Each object sits outside the slots that are taken before its turn. */
  ghost predicate InTime(p: Pool<Info>, infos: seq<Info>)
    requires p.total + |infos| <= |p.items|
  {
    forall j :: 0 <= j < |infos| ==> infos[j] in LeftFor(p, j)
  }

  /** The objects come back one after the other up to the first that was overwritten before its turn. */
  lemma {:induction false} ReturnsWhileHeld(pools: InfoPools, flows: seq<Attachment>, elsewhere: set<(Kind, Info)>,
                                            k: Kind, infos: seq<Info>, t: nat)
    requires Holding(pools, flows, elsewhere, k, infos) && t <= |flows|
    ensures |ReturnedTo(pools, flows[..t], elsewhere, k)| <= t
    ensures (forall j :: 0 <= j < t ==> infos[j] in LeftFor(pools[k], j)) <==>
            |ReturnedTo(pools, flows[..t], elsewhere, k)| == t
    ensures |ReturnedTo(pools, flows[..t], elsewhere, k)| == t ==>
            ReturnedTo(pools, flows[..t], elsewhere, k) == infos[..t]
  {
    hide Cascade, AfterReturns, LeftFor;
    if t > 0 {
      var n := t - 1;
      ReturnsWhileHeld(pools, flows, elsewhere, k, infos, n);
      assert flows[..t][..n] == flows[..n] && flows[..t][n] == flows[n];
      assert Holds(flows[n], elsewhere, k, infos[n]);
      assert infos[..n] + [infos[n]] == infos[..t];
      if |ReturnedTo(pools, flows[..n], elsewhere, k)| == n {
        NextIsHeldIff(pools, flows, elsewhere, k, infos, n);
      }
    }
  }

  lemma NextIsHeldIff(pools: InfoPools, flows: seq<Attachment>, elsewhere: set<(Kind, Info)>, k: Kind,
                      infos: seq<Info>, n: nat)
    requires Holding(pools, flows, elsewhere, k, infos) && n < |flows|
    requires ReturnedTo(pools, flows[..n], elsewhere, k) == infos[..n]
    ensures var live := Owners(AfterReturns(pools, flows[..n], elsewhere), elsewhere);
      k in Cascade(flows[n], live) <==> infos[n] in LeftFor(pools[k], n)
  {
    hide Cascade, AfterReturns, ReturnedTo, AfterReleases;
    var after := AfterReturns(pools, flows[..n], elsewhere);
    assert Holds(flows[n], elsewhere, k, infos[n]);
    PassByKind(pools, flows[..n], elsewhere, k);
    ReleasesOverwrite(pools[k], infos[..n]);
    assert infos[..n][..n] == infos[..n] && infos[n] !in infos[..n];
    TransportIsNamedIff(flows[n], Owners(after, elsewhere));
  }

  /** A pass gives back the objects of all flows it takes exactly if each sits, before the pass, outside the slots that
      those before it will take. What happens to the objects of other flows is told by SparesAllIff. */
  lemma AllComeBackIff(pools: InfoPools, flows: seq<Attachment>, elsewhere: set<(Kind, Info)>, k: Kind,
                         infos: seq<Info>)
    requires Holding(pools, flows, elsewhere, k, infos)
    ensures k in AfterReturns(pools, flows, elsewhere)
    ensures AfterReturns(pools, flows, elsewhere)[k].releases == pools[k].releases + |infos| <==>
            InTime(pools[k], infos)
  {
    hide AfterReturns, ReturnedTo, AfterReleases, LeftFor;
    assert flows[..|flows|] == flows;
    ReturnsWhileHeld(pools, flows, elsewhere, k, infos, |flows|);
    PassByKind(pools, flows, elsewhere, k);
    ReleasesOverwrite(pools[k], ReturnedTo(pools, flows, elsewhere, k));
  }

  /** The object sits in the slot that the i-th return takes. */
  predicate InTheWay(p: Pool<Info>, i: nat, info: Info)
    requires p.total + i < |p.items|
  {
    p.items[p.total + i] == info
  }

  /** With every object in one slot only: exactly if no slot is taken before the flow of its object had its turn. */
  lemma AllComeBackFromDistinctSlotsIff(pools: InfoPools, flows: seq<Attachment>, elsewhere: set<(Kind, Info)>,
                                          k: Kind, infos: seq<Info>)
    requires Holding(pools, flows, elsewhere, k, infos) && NoDuplicates(pools[k].items)
    requires forall j :: 0 <= j < |infos| ==> infos[j] in pools[k].items
    ensures k in AfterReturns(pools, flows, elsewhere)
    ensures AfterReturns(pools, flows, elsewhere)[k].releases == pools[k].releases + |infos| <==>
            forall i, j :: 0 <= i < j < |infos| ==> !InTheWay(pools[k], i, infos[j])
  {
    AllComeBackIff(pools, flows, elsewhere, k, infos);
    forall j | 0 <= j < |infos|
      ensures infos[j] in LeftFor(pools[k], j) <==>
              forall i :: 0 <= i < j ==> !InTheWay(pools[k], i, infos[j])
    {
      LeftUnlessTaken(pools[k], infos[j], j);
    }
  }

  lemma LeftUnlessTaken(p: Pool<Info>, info: Info, j: nat)
    requires p.total + j <= |p.items| && NoDuplicates(p.items) && info in p.items
    ensures info in LeftFor(p, j) <==> forall i :: 0 <= i < j ==> !InTheWay(p, i, info)
  {
    hide NoDuplicates;
    var s :| 0 <= s < |p.items| && p.items[s] == info;
    var left := LeftFor(p, j);
    if p.total <= s < p.total + j {
      assert InTheWay(p, s - p.total, info);
      forall i | 0 <= i < |left|
        ensures left[i] != info
      {
        var at := if i < p.total then i else i + j;
        assert left[i] == p.items[at];
        Apart(p.items, at, s);
      }
    } else {
      assert left[if s < p.total then s else s - j] == info;
      forall i | 0 <= i < j
        ensures !InTheWay(p, i, info)
      {
        Apart(p.items, p.total + i, s);
      }
    }
  }

  // ---------------------------------------------------------------- what a pass does, told by the slots alone

  /** The objects that come back, worked out on the slots: those still there when the ones before have come back. */
  function Back(p: Pool<Info>, infos: seq<Info>): (back: seq<Info>)
    requires p.total + |infos| <= |p.items|
    ensures |back| <= |infos|
  {
    if infos == [] then []
    else
      var n := |infos| - 1;
      var before := Back(p, infos[..n]);
      if infos[n] in before + LeftFor(p, |before|) then before + [infos[n]] else before
  }

  lemma {:induction false} ReturnedIsBack(pools: InfoPools, flows: seq<Attachment>, elsewhere: set<(Kind, Info)>,
                                          k: Kind, infos: seq<Info>)
    requires Holding(pools, flows, elsewhere, k, infos)
    ensures ReturnedTo(pools, flows, elsewhere, k) == Back(pools[k], infos)
  {
    hide Cascade, AfterReturns, AfterReleases, LeftFor, NoDuplicates;
    if flows != [] {
      var n := |flows| - 1;
      FewerHolding(pools, flows, elsewhere, k, infos, n);
      ReturnedIsBack(pools, flows[..n], elsewhere, k, infos[..n]);
      var back := Back(pools[k], infos[..n]);
      assert Holds(flows[n], elsewhere, k, infos[n]);
      PassByKind(pools, flows[..n], elsewhere, k);
      HeldAfter(pools[k], back);
      TransportIsNamedIff(flows[n], Owners(AfterReturns(pools, flows[..n], elsewhere), elsewhere));
    }
  }

  lemma FewerHolding(pools: InfoPools, flows: seq<Attachment>, elsewhere: set<(Kind, Info)>, k: Kind, infos: seq<Info>,
                     n: nat)
    requires Holding(pools, flows, elsewhere, k, infos) && n <= |flows|
    ensures Holding(pools, flows[..n], elsewhere, k, infos[..n])
  {
  }

  lemma HeldAfter(p: Pool<Info>, back: seq<Info>)
    requires p.total + |back| <= |p.items|
    ensures forall x :: x in AfterReleases(p, back).items <==> x in back + LeftFor(p, |back|)
  {
    hide AfterReleases;
    ReleasesOverwrite(p, back);
    assert back[..|back|] == back;
  }

  // ---------------------------------------------------------------- when every object survives

  /** The i-th slot that is taken holds a returned object, or one that sits in a slot that is not taken as well. */
  predicate SlotSpared(p: Pool<Info>, infos: seq<Info>, i: nat)
    requires i < |infos| && p.total + |infos| <= |p.items|
  {
    p.items[p.total + i] in infos + LeftFor(p, |infos|)
  }

  /** No slot that is taken is the only one to hold the object of another flow. */
  ghost predicate SparesOthers(p: Pool<Info>, infos: seq<Info>)
    requires p.total + |infos| <= |p.items|
  {
    forall i :: 0 <= i < |infos| ==> SlotSpared(p, infos, i)
  }

  /** Everything that p held is still held. */
  ghost predicate KeepsAll(p: Pool<Info>, after: Pool<Info>) {
    forall x :: x in p.items ==> x in after.items
  }

  /** What the pool holds when all objects have come back: these, and what sits in slots that were not taken. */
  lemma HeldWhenAllCameBack(pools: InfoPools, flows: seq<Attachment>, elsewhere: set<(Kind, Info)>, k: Kind,
                            infos: seq<Info>)
    requires Holding(pools, flows, elsewhere, k, infos) && InTime(pools[k], infos)
    ensures k in AfterReturns(pools, flows, elsewhere)
    ensures forall x :: x in AfterReturns(pools, flows, elsewhere)[k].items <==> x in infos + LeftFor(pools[k], |infos|)
  {
    hide AfterReturns, ReturnedTo, AfterReleases;
    ReturnsWhileHeld(pools, flows, elsewhere, k, infos, |flows|);
    assert flows[..|flows|] == flows && infos[..|infos|] == infos;
    PassByKind(pools, flows, elsewhere, k);
    ReleasesOverwrite(pools[k], infos);
  }

  /** An object that is overwritten before its turn does not come back. */
  lemma {:induction false} StaysLost(pools: InfoPools, flows: seq<Attachment>, elsewhere: set<(Kind, Info)>, k: Kind,
                                     infos: seq<Info>, j: nat, t: nat)
    requires Holding(pools, flows, elsewhere, k, infos) && j <= t <= |flows| && j < |flows|
    requires k in AfterReturns(pools, flows[..j], elsewhere)
    requires infos[j] !in AfterReturns(pools, flows[..j], elsewhere)[k].items
    ensures k in AfterReturns(pools, flows[..t], elsewhere)
    ensures infos[j] !in AfterReturns(pools, flows[..t], elsewhere)[k].items
  {
    hide Cascade, AfterReturn;
    if t > j {
      var n := t - 1;
      StaysLost(pools, flows, elsewhere, k, infos, j, n);
      assert flows[..t][..n] == flows[..n] && flows[..t][n] == flows[n];
      assert Holds(flows[n], elsewhere, k, infos[n]);
      var middle := AfterReturns(pools, flows[..n], elsewhere);
      EachPoolOnce(middle, flows[n], elsewhere, k);
      TransportIsNamedIff(flows[n], Owners(middle, elsewhere));
      assert n > j ==> infos[n] != infos[j];
    }
  }

  /** The first object that is overwritten before its turn is gone when its turn comes. */
  lemma FirstLateIsLost(pools: InfoPools, flows: seq<Attachment>, elsewhere: set<(Kind, Info)>, k: Kind,
                        infos: seq<Info>, j: nat)
    requires Holding(pools, flows, elsewhere, k, infos) && j < |infos| && infos[j] !in LeftFor(pools[k], j)
    requires forall i :: 0 <= i < j ==> infos[i] in LeftFor(pools[k], i)
    ensures k in AfterReturns(pools, flows, elsewhere)
    ensures infos[j] !in AfterReturns(pools, flows, elsewhere)[k].items
  {
    hide AfterReturns, ReturnedTo, AfterReleases;
    ReturnsWhileHeld(pools, flows, elsewhere, k, infos, j);
    PassByKind(pools, flows[..j], elsewhere, k);
    ReleasesOverwrite(pools[k], infos[..j]);
    assert infos[..j][..j] == infos[..j] && infos[j] !in infos[..j];
    StaysLost(pools, flows, elsewhere, k, infos, j, |flows|);
    assert flows[..|flows|] == flows;
  }

  lemma FirstLate(p: Pool<Info>, infos: seq<Info>) returns (j: nat)
    requires p.total + |infos| <= |p.items| && !InTime(p, infos)
    ensures j < |infos| && infos[j] !in LeftFor(p, j)
    ensures forall i :: 0 <= i < j ==> infos[i] in LeftFor(p, i)
  {
    hide LeftFor;
    j := 0;
    while j < |infos| && infos[j] in LeftFor(p, j)
      invariant j <= |infos| && forall i :: 0 <= i < j ==> infos[i] in LeftFor(p, i)
    {
      j := j + 1;
    }
  }

  /** A pass leaves no object without a slot, whoever uses it, if and only if the objects of the flows it takes sit
      outside the slots taken before their turns, and no slot taken is the only one to hold the object of another. */
  lemma SparesAllIff(pools: InfoPools, flows: seq<Attachment>, elsewhere: set<(Kind, Info)>, k: Kind, infos: seq<Info>)
    requires Holding(pools, flows, elsewhere, k, infos)
    requires forall j :: 0 <= j < |infos| ==> infos[j] in pools[k].items
    ensures k in AfterReturns(pools, flows, elsewhere)
    ensures KeepsAll(pools[k], AfterReturns(pools, flows, elsewhere)[k]) <==>
            InTime(pools[k], infos) && SparesOthers(pools[k], infos)
  {
    hide AfterReturns;
    var p := pools[k];
    if InTime(p, infos) {
      HeldWhenAllCameBack(pools, flows, elsewhere, k, infos);
      KeptUnlessTaken(p, infos);
    } else {
      var j := FirstLate(p, infos);
      FirstLateIsLost(pools, flows, elsewhere, k, infos, j);
    }
  }

  lemma KeptUnlessTaken(p: Pool<Info>, infos: seq<Info>)
    requires p.total + |infos| <= |p.items|
    ensures (forall x :: x in p.items ==> x in infos + LeftFor(p, |infos|)) <==> SparesOthers(p, infos)
  {
    var n, kept := |infos|, infos + LeftFor(p, |infos|);
    if SparesOthers(p, infos) {
      forall s | 0 <= s < |p.items|
        ensures p.items[s] in kept
      {
        if p.total <= s < p.total + n {
          assert SlotSpared(p, infos, s - p.total);
        } else {
          assert kept[n + if s < p.total then s else s - n] == p.items[s];
        }
      }
    }
  }

  // ---------------------------------------------------------------- flows without a live object

  /** Flows of one table: their transport objects are of kind k, and no other owner keeps them. */
  ghost predicate OfKind(flows: seq<Attachment>, elsewhere: set<(Kind, Info)>, k: Kind) {
    forall i :: 0 <= i < |flows| ==>
      && Transport(flows[i].protocol) == k
      && (k in flows[i].links ==> (k, flows[i].links[k]) !in elsewhere)
  }

  /** Those of the flows whose transport object the pool holds. */
  function Holders(p: Pool<Info>, flows: seq<Attachment>, k: Kind): seq<Attachment> {
    if flows == [] then []
    else
      var n := |flows| - 1;
      Holders(p, flows[..n], k) +
      if k in flows[n].links && flows[n].links[k] in p.items then [flows[n]] else []
  }

  /** The other flows change nothing: a link that is dead before a pass stays dead. */
  lemma {:induction false} OnlyHoldersCount(pools: InfoPools, flows: seq<Attachment>, elsewhere: set<(Kind, Info)>,
                                            k: Kind)
    requires k in pools && OfKind(flows, elsewhere, k)
    ensures var holders := Holders(pools[k], flows, k);
      && k in AfterReturns(pools, flows, elsewhere) && k in AfterReturns(pools, holders, elsewhere)
      && AfterReturns(pools, flows, elsewhere)[k] == AfterReturns(pools, holders, elsewhere)[k]
    ensures forall x :: x in AfterReturns(pools, flows, elsewhere)[k].items ==> x in pools[k].items
  {
    hide Cascade, AfterReturn;
    if flows != [] {
      var n := |flows| - 1;
      OnlyHoldersCount(pools, flows[..n], elsewhere, k);
      var holders := Holders(pools[k], flows[..n], k);
      var all, some := AfterReturns(pools, flows[..n], elsewhere), AfterReturns(pools, holders, elsewhere);
      EachPoolOnce(all, flows[n], elsewhere, k);
      EachPoolOnce(some, flows[n], elsewhere, k);
      TransportIsNamedIff(flows[n], Owners(all, elsewhere));
      TransportIsNamedIff(flows[n], Owners(some, elsewhere));
      assert (holders + [flows[n]])[..|holders|] == holders;
      assert holders + [] == holders;
    }
  }

  /** After any pass over any table, any link is alive exactly if its object is held elsewhere, comes back, or sits in a
      slot that is not taken. The slots before the pass tell. */
  lemma LinkAfterPassIff(pools: InfoPools, flows: seq<Attachment>, elsewhere: set<(Kind, Info)>, k: Kind,
                         infos: seq<Info>, links: Links)
    requires k in pools && OfKind(flows, elsewhere, k) && k in links
    requires Holding(pools, Holders(pools[k], flows, k), elsewhere, k, infos)
    ensures var back := Back(pools[k], infos);
      Live(links, Owners(AfterReturns(pools, flows, elsewhere), elsewhere), k) <==>
      (k, links[k]) in elsewhere || links[k] in back + LeftFor(pools[k], |back|)
  {
    hide AfterReturns, AfterReleases, Back, LeftFor, Holders;
    var holders := Holders(pools[k], flows, k);
    OnlyHoldersCount(pools, flows, elsewhere, k);
    ReturnedIsBack(pools, holders, elsewhere, k, infos);
    PassByKind(pools, holders, elsewhere, k);
    HeldAfter(pools[k], Back(pools[k], infos));
  }

  /** So the condition is about the flows whose objects are still there; it holds for any pass over any table. */
  lemma PassSparesAllIff(pools: InfoPools, flows: seq<Attachment>, elsewhere: set<(Kind, Info)>, k: Kind,
                         infos: seq<Info>)
    requires k in pools && OfKind(flows, elsewhere, k)
    requires Holding(pools, Holders(pools[k], flows, k), elsewhere, k, infos)
    ensures k in AfterReturns(pools, flows, elsewhere)
    ensures KeepsAll(pools[k], AfterReturns(pools, flows, elsewhere)[k]) <==>
            InTime(pools[k], infos) && SparesOthers(pools[k], infos)
    ensures AfterReturns(pools, flows, elsewhere)[k].releases == pools[k].releases + |infos| <==>
            InTime(pools[k], infos)
  {
    hide AfterReturns, Holds, KeepsAll, InTime, SparesOthers;
    var holders := Holders(pools[k], flows, k);
    OnlyHoldersCount(pools, flows, elsewhere, k);
    HoldersAreHeld(pools[k], flows, k);
    forall j | 0 <= j < |infos|
      ensures infos[j] in pools[k].items
    {
      HoldsItsObject(holders[j], elsewhere, k, infos[j]);
    }
    SparesAllIff(pools, holders, elsewhere, k, infos);
    AllComeBackIff(pools, holders, elsewhere, k, infos);
  }

  lemma HoldsItsObject(a: Attachment, elsewhere: set<(Kind, Info)>, k: Kind, info: Info)
    requires Holds(a, elsewhere, k, info)
    ensures k in a.links && a.links[k] == info
  {
  }

  lemma {:induction false} HoldersAreHeld(p: Pool<Info>, flows: seq<Attachment>, k: Kind)
    ensures forall h :: h in Holders(p, flows, k) ==> k in h.links && h.links[k] in p.items
  {
    if flows != [] {
      HoldersAreHeld(p, flows[..|flows| - 1], k);
    }
  }

  /** Objects that come back in the reverse of the order in which they were acquired find their own slots. */
  lemma FindTheirSlots(p: Pool<Info>, infos: seq<Info>)
    requires Stacked(p, Reverse(infos))
    ensures forall j :: 0 <= j < |infos| ==> infos[j] in LeftFor(p, j)
    ensures AfterReleases(p, infos).items == p.items
  {
    hide AfterReleases, NoDuplicates;
    ReverseTwice(infos);
    var middle := p.items[p.total..p.total + |infos|];
    assert middle == infos;
    forall j | 0 <= j < |infos|
      ensures infos[j] in LeftFor(p, j)
    {
      assert LeftFor(p, j)[p.total] == p.items[p.total + j] == middle[j];
    }
    ReleasesOverwrite(p, infos);
    assert infos[..|infos|] == infos;
    assert p.items == p.items[..p.total] + middle + p.items[p.total + |infos|..];
  }

  /** Flows that end in the reverse of the order in which they began lose nothing, and leave all slots alone. */
  lemma LastInFirstOutLosesNothing(pools: InfoPools, flows: seq<Attachment>, elsewhere: set<(Kind, Info)>, k: Kind,
                                   infos: seq<Info>)
    requires Holding(pools, flows, elsewhere, k, infos) && Stacked(pools[k], Reverse(infos))
    ensures k in AfterReturns(pools, flows, elsewhere)
    ensures AfterReturns(pools, flows, elsewhere)[k].releases == pools[k].releases + |infos|
    ensures AfterReturns(pools, flows, elsewhere)[k].items == pools[k].items
  {
    hide AfterReturns, ReturnedTo, AfterReleases, LeftFor, Stacked, Reverse;
    FindTheirSlots(pools[k], infos);
    AllComeBackIff(pools, flows, elsewhere, k, infos);
    ReturnsWhileHeld(pools, flows, elsewhere, k, infos, |flows|);
    assert flows[..|flows|] == flows && infos[..|infos|] == infos;
    PassByKind(pools, flows, elsewhere, k);
  }
}
