/** src/Cache.h and src/CacheManager.cc: the pools on the heap, and the return of what a flow was using. */
module Caches {
  import opened Common
  import opened PoolModel

  class Cache<T> {
    var items: seq<T>
    var total: nat
    var totalAcquires: nat
    var totalReleases: nat
    var totalFails: nat

    ghost predicate Valid()
      reads this
    {
      total <= |items|
    }

    function State(): Pool<T>
      reads this
    {
      Pool(items, total, totalAcquires, totalReleases, totalFails)
    }

    constructor ()
      ensures Valid() && State() == Empty()
    {
      items, total, totalAcquires, totalReleases, totalFails := [], 0, 0, 0, 0;
    }

    method Release(a: T)
      requires Valid()
      modifies this
      ensures Valid() && State() == AfterRelease(old(State()), a)
    {
      if total < |items| {
        totalReleases := totalReleases + 1;
        total := total + 1;
        items := items[total - 1 := a];
      }
    }

    /** The caller resets what it gets. */
    method Acquire() returns (a: Option<T>)
      requires Valid()
      modifies this
      ensures Valid() && State() == AfterAcquire(old(State())) && a == Top(old(State()))
    {
      a := None;
      if total > 0 {
        a := Some(items[total - 1]);
        totalAcquires := totalAcquires + 1;
        total := total - 1;
      } else {
        totalFails := totalFails + 1;
      }
    }

    /** objects are the newly allocated ones. */
    method Create(objects: seq<T>)
      requires Valid()
      modifies this
      ensures Valid() && State() == AfterCreate(old(State()), objects)
    {
      for i := 0 to |objects|
        invariant Valid() && State() == AfterCreate(old(State()), objects[..i])
      {
        items := items + [objects[i]];
        total := total + 1;
        assert objects[..i + 1] == objects[..i] + [objects[i]];
      }
      assert objects[..|objects|] == objects;
    }

    method Destroy(number: int)
      requires Valid()
      modifies this
      ensures Valid() && State() == AfterDestroy(old(State()), number)
    {
      var realItems := if number < 0 || number > total then total else number;
      ghost var n := total;
      for i := 0 to realItems
        invariant total == n - i && n <= |old(items)|
        invariant items == old(items)[..n - i] + old(items)[n..]
        invariant totalAcquires == old(totalAcquires) && totalReleases == old(totalReleases)
        invariant totalFails == old(totalFails)
      {
        items := items[..total - 1] + items[total..];
        total := total - 1;
      }
    }
  }

  // ---------------------------------------------------------------- the objects attached to a flow

  /** Protocol information that a flow refers to weakly. */
  class Info {
    constructor () {
    }
  }

  datatype Kind = TCP | HTTP | SSL | SMTP | POP | IMAP | GPRS | DNS | SIP | SSDP

  type Links = map<Kind, Info>

  type InfoPools = map<Kind, Pool<Info>>

  const IPPROTO_TCP := 6

  /** What releaseFlow looks at. */
  datatype Attachment = Attachment(protocol: int, links: Links)

  /** Who keeps objects alive: the pools, and owners outside of them. */
  datatype Owners = Owners(pools: InfoPools, elsewhere: set<(Kind, Info)>) {
    predicate Hold(k: Kind, info: Info) {
      (k, info) in elsewhere || (k in pools && info in pools[k].items)
    }
  }

  /** A weak link is alive while some owner still holds its object. */
  predicate Live(links: Links, live: Owners, k: Kind) {
    k in links && live.Hold(k, links[k])
  }

  function FirstLive(links: Links, live: Owners, kinds: seq<Kind>): seq<Kind> {
    if kinds == [] then []
    else if Live(links, live, kinds[0]) then [kinds[0]]
    else FirstLive(links, live, kinds[1..])
  }

  function Transport(protocol: int): Kind {
    if protocol == IPPROTO_TCP then TCP else GPRS
  }

  function Applications(protocol: int): seq<Kind> {
    if protocol == IPPROTO_TCP then [HTTP, SSL, SMTP, POP, IMAP] else [DNS, SIP, SSDP]
  }

  function Family(protocol: int): seq<Kind> {
    [Transport(protocol)] + Applications(protocol)
  }

  /** The kinds that the cascade of releaseFlow gives back, in order. */
  function Cascade(a: Attachment, live: Owners): seq<Kind> {
    (if Live(a.links, live, Transport(a.protocol)) then [Transport(a.protocol)] else []) +
    FirstLive(a.links, live, Applications(a.protocol))
  }

  function Return(pools: InfoPools, k: Kind, info: Info): InfoPools {
    if k in pools then pools[k := AfterRelease(pools[k], info)] else pools
  }

  function ReturnAll(pools: InfoPools, kinds: seq<Kind>, links: Links): InfoPools
    requires forall k :: k in kinds ==> k in links
  {
    if kinds == [] then pools else ReturnAll(Return(pools, kinds[0], links[kinds[0]]), kinds[1..], links)
  }

  lemma {:induction false} FirstLiveIsLive(links: Links, live: Owners, kinds: seq<Kind>)
    ensures var first := FirstLive(links, live, kinds);
      && |first| <= 1
      && (forall k :: k in first ==> k in kinds && Live(links, live, k))
      && (first == [] ==> forall k :: k in kinds ==> !Live(links, live, k))
  {
    if kinds != [] {
      FirstLiveIsLive(links, live, kinds[1..]);
    }
  }

  lemma CascadeIsLive(a: Attachment, live: Owners)
    ensures forall k :: k in Cascade(a, live) ==> Live(a.links, live, k)
    ensures NoDuplicates(Cascade(a, live)) && |Cascade(a, live)| <= 2
  {
    FirstLiveIsLive(a.links, live, Applications(a.protocol));
  }

  /** What giving back one flow's objects does to each pool. */
  function AfterReturn(pools: InfoPools, a: Attachment, elsewhere: set<(Kind, Info)>): InfoPools {
    var kinds := Cascade(a, Owners(pools, elsewhere));
    CascadeIsLive(a, Owners(pools, elsewhere));
    ReturnAll(pools, kinds, a.links)
  }

  function AfterReturns(pools: InfoPools, attachments: seq<Attachment>, elsewhere: set<(Kind, Info)>): InfoPools {
    if attachments == [] then pools
    else
      var n := |attachments| - 1;
      AfterReturn(AfterReturns(pools, attachments[..n], elsewhere), attachments[n], elsewhere)
  }

  lemma {:induction false} ReturnAllByKind(pools: InfoPools, kinds: seq<Kind>, links: Links, k: Kind)
    requires NoDuplicates(kinds) && forall j :: j in kinds ==> j in links
    ensures ReturnAll(pools, kinds, links).Keys == pools.Keys
    ensures k !in pools ||
            ReturnAll(pools, kinds, links)[k] == if k in kinds then AfterRelease(pools[k], links[k]) else pools[k]
  {
    if kinds != [] {
      ReturnAllByKind(Return(pools, kinds[0], links[kinds[0]]), kinds[1..], links, k);
      assert k in kinds <==> k == kinds[0] || k in kinds[1..];
      assert kinds[0] !in kinds[1..];
    }
  }

  /** Each pool gets back exactly the live object of its kind that the cascade names, once, and nothing else. */
  lemma EachPoolOnce(pools: InfoPools, a: Attachment, elsewhere: set<(Kind, Info)>, k: Kind)
    requires k in pools
    ensures var kinds := Cascade(a, Owners(pools, elsewhere));
      && AfterReturn(pools, a, elsewhere).Keys == pools.Keys
      && (k in kinds ==> k in a.links)
      && AfterReturn(pools, a, elsewhere)[k] == if k in kinds then AfterRelease(pools[k], a.links[k]) else pools[k]
  {
    var live := Owners(pools, elsewhere);
    CascadeIsLive(a, live);
    ReturnAllByKind(pools, Cascade(a, live), a.links, k);
  }

  /** The protocol number and the kind belong together, and no kind before this one in the source's order is alive. */
  predicate ComesBack(a: Attachment, live: Owners, k: Kind) {
    && Live(a.links, live, k)
    && match k
       case TCP => a.protocol == 6
       case HTTP => a.protocol == 6
       case SSL => a.protocol == 6 && Dead(a, live, HTTP)
       case SMTP => a.protocol == 6 && Dead(a, live, HTTP) && Dead(a, live, SSL)
       case POP => a.protocol == 6 && Dead(a, live, HTTP) && Dead(a, live, SSL) && Dead(a, live, SMTP)
       case IMAP =>
         && a.protocol == 6 && Dead(a, live, HTTP) && Dead(a, live, SSL) && Dead(a, live, SMTP) && Dead(a, live, POP)
       case GPRS => a.protocol != 6
       case DNS => a.protocol != 6
       case SIP => a.protocol != 6 && Dead(a, live, DNS)
       case SSDP => a.protocol != 6 && Dead(a, live, DNS) && Dead(a, live, SIP)
  }

  predicate Dead(a: Attachment, live: Owners, k: Kind) {
    !Live(a.links, live, k)
  }

  /** Kind by kind, what releaseFlow does to each pool: a TCP flow gives back its TCP object and its first live
      application object, any other flow its GPRS object and its first live one of DNS, SIP and SSDP. */
  lemma PoolByPool(pools: InfoPools, a: Attachment, elsewhere: set<(Kind, Info)>, k: Kind)
    requires k in pools
    ensures var live := Owners(pools, elsewhere);
      && k in AfterReturn(pools, a, elsewhere) && (ComesBack(a, live, k) ==> k in a.links)
      && AfterReturn(pools, a, elsewhere)[k] ==
         if ComesBack(a, live, k) then AfterRelease(pools[k], a.links[k]) else pools[k]
  {
    hide AfterReturn;
    var live := Owners(pools, elsewhere);
    EachPoolOnce(pools, a, elsewhere, k);
    CascadeByCases(a, live);
    CascadeNames(a, live, k);
  }

  /** The flow of one protocol never touches the pools of the other. */
  lemma OtherPoolsUntouched(pools: InfoPools, a: Attachment, elsewhere: set<(Kind, Info)>, k: Kind)
    requires k in pools
    requires a.protocol == 6 <==> k in {GPRS, DNS, SIP, SSDP}
    ensures k in AfterReturn(pools, a, elsewhere) && AfterReturn(pools, a, elsewhere)[k] == pools[k]
  {
    PoolByPool(pools, a, elsewhere, k);
  }

  lemma CascadeNames(a: Attachment, live: Owners, k: Kind)
    ensures k in Cascade(a, live) <==> ComesBack(a, live, k)
  {
    hide Live, FirstLive;
    CascadeByCases(a, live);
  }

  ghost predicate AtMostOneApplication(a: Attachment, live: Owners) {
    forall j, k |
      && j in Applications(a.protocol) && Live(a.links, live, j)
      && k in Applications(a.protocol) && Live(a.links, live, k) ::
      j == k
  }

  predicate HasRoom(pools: InfoPools, k: Kind) {
    k in pools && pools[k].total < |pools[k].items|
  }

  /** The pool of kind k counts one release more, and info is what it hands out next. */
  predicate GivenBack(before: InfoPools, after: InfoPools, k: Kind, info: Info) {
    && k in before && k in after
    && after[k].releases == before[k].releases + 1 && Top(after[k]) == Some(info)
  }

  /** Every live object of the flow's transport family whose pool has a free slot is back in its pool. */
  ghost predicate AllReturned(pools: InfoPools, a: Attachment, elsewhere: set<(Kind, Info)>) {
    forall k :: k in Family(a.protocol) && Live(a.links, Owners(pools, elsewhere), k) && HasRoom(pools, k) ==>
                  GivenBack(pools, AfterReturn(pools, a, elsewhere), k, a.links[k])
  }

  /** No application object whose pool has a free slot stands behind another live one in the order of the cascade. */
  ghost predicate NoneShadowed(pools: InfoPools, a: Attachment, live: Owners) {
    var apps := Applications(a.protocol);
    forall i, j :: 0 <= i < j < |apps| && Live(a.links, live, apps[i]) && Live(a.links, live, apps[j]) ==>
                     !HasRoom(pools, apps[j])
  }

  /** After releaseFlow everything is back in its pool exactly when no live object was shadowed by another; where
      the pools have free slots, exactly when at most one application object was attached. */
  lemma AllReturnedIff(pools: InfoPools, a: Attachment, elsewhere: set<(Kind, Info)>)
    ensures var live := Owners(pools, elsewhere);
      && (AllReturned(pools, a, elsewhere) <==> NoneShadowed(pools, a, live))
      && ((forall k :: k in Applications(a.protocol) && Live(a.links, live, k) ==> HasRoom(pools, k)) ==>
            (AllReturned(pools, a, elsewhere) <==> AtMostOneApplication(a, live)))
  {
    hide AllReturned, NoneShadowed, AtMostOneApplication;
    var live := Owners(pools, elsewhere);
    ReturnedIsNamed(pools, a, elsewhere);
    NamedUnlessShadowed(pools, a, live);
    if forall k :: k in Applications(a.protocol) && Live(a.links, live, k) ==> HasRoom(pools, k) {
      ShadowTakesTwo(pools, a, live);
    }
  }

  ghost predicate AllNamed(pools: InfoPools, a: Attachment, live: Owners) {
    forall k :: k in Family(a.protocol) && Live(a.links, live, k) && HasRoom(pools, k) ==> k in Cascade(a, live)
  }

  lemma ReturnedIsNamed(pools: InfoPools, a: Attachment, elsewhere: set<(Kind, Info)>)
    ensures AllReturned(pools, a, elsewhere) <==> AllNamed(pools, a, Owners(pools, elsewhere))
  {
    hide AfterReturn, Live, Cascade;
    var live := Owners(pools, elsewhere);
    forall k | k in Family(a.protocol) && Live(a.links, live, k) && HasRoom(pools, k)
      ensures k in a.links
      ensures GivenBack(pools, AfterReturn(pools, a, elsewhere), k, a.links[k]) <==> k in Cascade(a, live)
    {
      LiveIsLinked(a.links, live, k);
      EachPoolOnce(pools, a, elsewhere, k);
    }
  }

  lemma LiveIsLinked(links: Links, live: Owners, k: Kind)
    requires Live(links, live, k)
    ensures k in links
  {
  }

  lemma NamedUnlessShadowed(pools: InfoPools, a: Attachment, live: Owners)
    ensures AllNamed(pools, a, live) <==> NoneShadowed(pools, a, live)
  {
    var apps, family := Applications(a.protocol), Family(a.protocol);
    forall j | 0 <= j < |apps|
      ensures apps[j] in family
      ensures apps[j] in Cascade(a, live) <==>
              Live(a.links, live, apps[j]) && forall i :: 0 <= i < j ==> !Live(a.links, live, apps[i])
    {
      assert family[j + 1] == apps[j];
      FirstLiveIs(a.links, live, apps, j);
    }
    assert Live(a.links, live, family[0]) ==> family[0] in Cascade(a, live);
    hide Cascade, Live, HasRoom;
    assert forall k :: k in family ==> k == family[0] || k in apps;
  }

  lemma ShadowTakesTwo(pools: InfoPools, a: Attachment, live: Owners)
    requires forall k :: k in Applications(a.protocol) && Live(a.links, live, k) ==> HasRoom(pools, k)
    ensures NoneShadowed(pools, a, live) <==> AtMostOneApplication(a, live)
  {
  }

  lemma {:induction false} FirstLiveIs(links: Links, live: Owners, kinds: seq<Kind>, j: nat)
    requires NoDuplicates(kinds) && j < |kinds|
    ensures kinds[j] in FirstLive(links, live, kinds) <==>
            Live(links, live, kinds[j]) && forall i :: 0 <= i < j ==> !Live(links, live, kinds[i])
  {
    FirstLiveIsLive(links, live, kinds[1..]);
    if j > 0 {
      FirstLiveIs(links, live, kinds[1..], j - 1);
      assert kinds[1..][j - 1] == kinds[j];
      assert forall i :: 0 < i < j ==> kinds[i] == kinds[1..][i - 1];
    }
  }

  class CacheManager {
    const pools: map<Kind, Cache<Info>>
    const elsewhere: set<(Kind, Info)>

    constructor (pools: map<Kind, Cache<Info>>, elsewhere: set<(Kind, Info)>)
      ensures this.pools == pools && this.elsewhere == elsewhere
    {
      this.pools, this.elsewhere := pools, elsewhere;
    }

    /** Every kind has its own pool. */
    ghost predicate Valid()
      reads pools.Values
    {
      && (forall j, k :: j in pools && k in pools && pools[j] == pools[k] ==> j == k)
      && forall k :: k in pools ==> pools[k].Valid()
    }

    function State(): InfoPools
      reads pools.Values
    {
      map k | k in pools :: pools[k].State()
    }

    method Give(k: Kind, info: Info)
      requires Valid()
      modifies pools.Values
      ensures Valid() && State() == Return(old(State()), k, info)
    {
      if k in pools {
        pools[k].Release(info);
      }
    }

    method Take(k: Kind) returns (info: Option<Info>)
      requires Valid() && k in pools
      modifies pools[k]
      ensures Valid() && info == Top(old(State())[k])
      ensures State() == old(State())[k := AfterAcquire(old(State())[k])]
    {
      info := pools[k].Acquire();
    }

    /** weak_ptr::expired of the link of kind k. */
    predicate Expired(a: Attachment, k: Kind)
      reads pools.Values
    {
      !Live(a.links, Owners(State(), elsewhere), k)
    }

    method ReleaseFlow(a: Attachment)
      requires Valid()
      modifies pools.Values
      ensures Valid() && State() == AfterReturn(old(State()), a, elsewhere)
    {
      ghost var live := Owners(State(), elsewhere);
      CascadeByCases(a, live);
      ReturnInTwoParts(State(), a, live);
      var transport := if a.protocol == IPPROTO_TCP then TCP else GPRS;
      if !Expired(a, transport) {
        Give(transport, a.links[transport]);
      }
      OtherKindsLiveOn(a, old(State()), State(), elsewhere);
      if a.protocol == IPPROTO_TCP {
        if !Expired(a, HTTP) {
          Give(HTTP, a.links[HTTP]);
        } else if !Expired(a, SSL) {
          Give(SSL, a.links[SSL]);
        } else if !Expired(a, SMTP) {
          Give(SMTP, a.links[SMTP]);
        } else if !Expired(a, POP) {
          Give(POP, a.links[POP]);
        } else if !Expired(a, IMAP) {
          Give(IMAP, a.links[IMAP]);
        }
      } else {
        if !Expired(a, DNS) {
          Give(DNS, a.links[DNS]);
        } else if !Expired(a, SIP) {
          Give(SIP, a.links[SIP]);
        } else if !Expired(a, SSDP) {
          Give(SSDP, a.links[SSDP]);
        }
      }
    }
  }

  /** Giving back the transport object decides nothing about the application objects. */
  lemma OtherKindsLiveOn(a: Attachment, before: InfoPools, after: InfoPools, elsewhere: set<(Kind, Info)>)
    requires
      after == if Live(a.links, Owners(before, elsewhere), Transport(a.protocol))
               then Return(before, Transport(a.protocol), a.links[Transport(a.protocol)]) else before
    ensures forall k :: k in Applications(a.protocol) ==>
              (Live(a.links, Owners(after, elsewhere), k) <==> Live(a.links, Owners(before, elsewhere), k))
  {
    assert forall k :: k in Applications(a.protocol) ==> k != Transport(a.protocol);
  }

  lemma FirstLiveStep(links: Links, live: Owners, k: Kind, rest: seq<Kind>)
    ensures FirstLive(links, live, [k] + rest) == if Live(links, live, k) then [k] else FirstLive(links, live, rest)
  {
    assert ([k] + rest)[1..] == rest;
  }

  /** The cascade written out. */
  lemma CascadeByCases(a: Attachment, live: Owners)
    ensures a.protocol == IPPROTO_TCP ==>
      FirstLive(a.links, live, Applications(a.protocol)) ==
        if Live(a.links, live, HTTP) then [HTTP]
        else if Live(a.links, live, SSL) then [SSL]
        else if Live(a.links, live, SMTP) then [SMTP]
        else if Live(a.links, live, POP) then [POP]
        else if Live(a.links, live, IMAP) then [IMAP]
        else []
    ensures a.protocol != IPPROTO_TCP ==>
      FirstLive(a.links, live, Applications(a.protocol)) ==
        if Live(a.links, live, DNS) then [DNS]
        else if Live(a.links, live, SIP) then [SIP]
        else if Live(a.links, live, SSDP) then [SSDP]
        else []
  {
    if a.protocol == IPPROTO_TCP {
      FirstLiveStep(a.links, live, IMAP, []);
      FirstLiveStep(a.links, live, POP, [IMAP]);
      FirstLiveStep(a.links, live, SMTP, [POP, IMAP]);
      FirstLiveStep(a.links, live, SSL, [SMTP, POP, IMAP]);
      FirstLiveStep(a.links, live, HTTP, [SSL, SMTP, POP, IMAP]);
      assert [POP] + [IMAP] == [POP, IMAP];
      assert [SMTP] + [POP, IMAP] == [SMTP, POP, IMAP];
      assert [SSL] + [SMTP, POP, IMAP] == [SSL, SMTP, POP, IMAP];
      assert [HTTP] + [SSL, SMTP, POP, IMAP] == Applications(a.protocol);
    } else {
      FirstLiveStep(a.links, live, SSDP, []);
      FirstLiveStep(a.links, live, SIP, [SSDP]);
      FirstLiveStep(a.links, live, DNS, [SIP, SSDP]);
      assert [SIP] + [SSDP] == [SIP, SSDP];
      assert [DNS] + [SIP, SSDP] == Applications(a.protocol);
    }
  }

  /** Giving back what the cascade names, one part after the other. */
  lemma ReturnInTwoParts(pools: InfoPools, a: Attachment, live: Owners)
    ensures forall k :: k in Cascade(a, live) ==> k in a.links
    ensures var t := Transport(a.protocol);
      var first := FirstLive(a.links, live, Applications(a.protocol));
      var middle := if Live(a.links, live, t) then Return(pools, t, a.links[t]) else pools;
      && (forall k :: k in first ==> k in a.links)
      && ReturnAll(pools, Cascade(a, live), a.links) ==
         if first == [] then middle else Return(middle, first[0], a.links[first[0]])
  {
    hide FirstLive, Applications, Transport;
    CascadeIsLive(a, live);
    var t, first := Transport(a.protocol), FirstLive(a.links, live, Applications(a.protocol));
    FirstLiveIsLive(a.links, live, Applications(a.protocol));
    assert first != [] ==> first[0] in first && first[1..] == [];
    if Live(a.links, live, t) {
      var middle := Return(pools, t, a.links[t]);
      assert ([t] + first)[1..] == first && Cascade(a, live) == [t] + first;
      assert ReturnAll(middle, first, a.links) ==
             if first == [] then middle else Return(middle, first[0], a.links[first[0]]);
    } else {
      assert Cascade(a, live) == first;
    }
  }
}
