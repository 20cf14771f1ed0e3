/** The local network stack of src/StackLan.cc: seven layers, wired once and re-wired for link layer tags,
    and the packets that walk through them. */
module LanStacks {
  import opened Common
  import opened Traffic
  import opened Layers

  const ETHERTYPE_IP := 0x0800
  const ETHERTYPE_VLAN := 0x8100
  const ETHERTYPE_MPLS := 0x8847
  const IPPROTO_ICMP := 1
  const IPPROTO_TCP := 6
  const IPPROTO_UDP := 17

  /** What a protocol brings to its layer. */
  datatype Protocol = Protocol(check: (nat, View) -> bool, func: (nat, View) -> Verdict, header: int)

  class LanStack {
    const eth: Multiplexer
    const vlan: Multiplexer
    const mpls: Multiplexer
    const ip: Multiplexer
    const udp: Multiplexer
    const tcp: Multiplexer
    const icmp: Multiplexer
    var linkLayerTagName: string
    var totalPackets: nat
    ghost var rejected: nat
    // the walk of every packet the entry layer let in
    ghost var walks: seq<seq<Multiplexer>>

    ghost function Parts(): seq<Multiplexer> {
      [eth, vlan, mpls, ip, udp, tcp, icmp]
    }

    ghost function Members(): set<Multiplexer> {
      {eth, vlan, mpls, ip, udp, tcp, icmp}
    }

    ghost predicate Apart() {
      && eth !in {vlan, mpls, ip, udp, tcp, icmp}
      && vlan !in {mpls, ip, udp, tcp, icmp}
      && mpls !in {ip, udp, tcp, icmp}
      && ip !in {udp, tcp, icmp}
      && udp !in {tcp, icmp} && tcp != icmp
    }

    ghost function Height(m: Multiplexer): nat {
      if m == eth then 0 else if m == vlan || m == mpls then 1 else if m == ip then 2 else 3
    }

    /** The edges the stack ever has. */
    ghost predicate MayFollow(s: Multiplexer, t: Multiplexer) {
      || (s == eth && t in {vlan, mpls, ip})
      || (s in {vlan, mpls} && t == ip)
      || (s == ip && t in {udp, tcp, icmp})
    }

    ghost function Ups(): map<Multiplexer, map<int, Multiplexer>>
      reads Members()`up
    {
      map m | m in Members() :: m.up
    }

    ghost predicate AllFollow(ups: map<Multiplexer, map<int, Multiplexer>>) {
      forall m, k :: m in ups && k in ups[m] ==> MayFollow(m, ups[m][k])
    }

    ghost predicate Wired()
      reads Members()`up
    {
      AllFollow(Ups())
    }

    ghost function Graph(): Net
      reads Members()
    {
      Net(map m | m in Members() :: m.up, map m | m in Members() :: m.offered,
          map m | m in Members() :: Height(m), 3)
    }

    /** A walk the stack allows: in from the wire, along its edges. */
    ghost predicate Allowed(path: seq<Multiplexer>) {
      && Simple(path) && path[0] == eth
      && (forall m :: m in path ==> m in Members())
      && forall i :: 0 <= i < |path| - 1 ==> MayFollow(path[i], path[i + 1])
    }

    ghost predicate AllAllowed(paths: seq<seq<Multiplexer>>) {
      forall i :: 0 <= i < |paths| ==> Allowed(paths[i])
    }

    /** The layers are wired as allowed, and their counters are those of the walks so far. */
    ghost predicate Books()
      reads this`walks, Members()`up
      reads Members()`totalReceivedPackets, Members()`totalForwardPackets
      reads Members()`totalFailPackets, Members()`refused
    {
      Apart() && Wired() && AllAllowed(walks) && AllTallied(Counts(), walks)
    }

    ghost function Counts(): map<Multiplexer, Tally>
      reads Members()`totalReceivedPackets, Members()`totalForwardPackets
      reads Members()`totalFailPackets, Members()`refused
    {
      map m | m in Members() :: m.Counters()
    }

    static ghost predicate AllTallied(counts: map<Multiplexer, Tally>, paths: seq<seq<Multiplexer>>) {
      forall m :: m in counts ==> Tallied(counts[m], paths, m)
    }

    ghost predicate Valid()
      reads this`walks, this`totalPackets, this`rejected, Members()`up
      reads Members()`totalReceivedPackets, Members()`totalForwardPackets
      reads Members()`totalFailPackets, Members()`refused
    {
      Books() && totalPackets == |walks| + rejected
    }

    constructor (e: Protocol, v: Protocol, l: Protocol, i: Protocol, u: Protocol, t: Protocol, c: Protocol)
      ensures Valid()
      ensures fresh(eth) && fresh(vlan) && fresh(mpls) && fresh(ip) && fresh(udp) && fresh(tcp) && fresh(icmp)
      ensures walks == [] && rejected == 0 && totalPackets == 0 && linkLayerTagName == ""
      ensures eth.up == map[0x0800 := ip] && vlan.up == map[] && mpls.up == map[]
      ensures ip.up == map[17 := udp, 6 := tcp, 1 := icmp]
      ensures udp.up == map[] && tcp.up == map[] && icmp.up == map[]
      ensures ip.down == eth && udp.down == ip && tcp.down == ip && icmp.down == ip
      ensures Runs(eth, e) && Runs(vlan, v) && Runs(mpls, l) && Runs(ip, i)
      ensures Runs(udp, u) && Runs(tcp, t) && Runs(icmp, c)
    {
      hide Valid, Multiplexer.Blank;
      eth := new Multiplexer(e.check, e.func, e.header);
      vlan := new Multiplexer(v.check, v.func, v.header);
      mpls := new Multiplexer(l.check, l.func, l.header);
      ip := new Multiplexer(i.check, i.func, i.header);
      udp := new Multiplexer(u.check, u.func, u.header);
      tcp := new Multiplexer(t.check, t.func, t.header);
      icmp := new Multiplexer(c.check, c.func, c.header);
      linkLayerTagName, totalPackets, rejected, walks := "", 0, 0, [];
      new;
      Wire();
    }

    method Wire()
      requires Apart() && walks == [] && totalPackets == rejected
      requires eth.Blank() && vlan.Blank() && mpls.Blank() && ip.Blank() && udp.Blank() && tcp.Blank() && icmp.Blank()
      modifies eth`up, ip`up, ip`down, udp`down, tcp`down, icmp`down
      ensures Valid()
      ensures eth.up == map[ETHERTYPE_IP := ip]
      ensures ip.up == map[IPPROTO_UDP := udp, IPPROTO_TCP := tcp, IPPROTO_ICMP := icmp]
      ensures ip.down == eth && udp.down == ip && tcp.down == ip && icmp.down == ip
    {
      BlankIsValid();
      hide Valid;
      Plug(eth, ip, ETHERTYPE_IP);
      Plug(ip, udp, IPPROTO_UDP);
      Plug(ip, tcp, IPPROTO_TCP);
      Plug(ip, icmp, IPPROTO_ICMP);
    }

    /** The layer has the checker, the packet function and the header size of the protocol, and was offered nothing. */
    static ghost predicate Runs(m: Multiplexer, p: Protocol)
      reads m
    {
      m.check == p.check && m.func == p.func && m.Settings() == Setting(p.header, 0xFFFF, 0)
    }

    lemma BlankIsValid()
      requires Apart() && walks == [] && totalPackets == rejected
      requires eth.Blank() && vlan.Blank() && mpls.Blank() && ip.Blank() && udp.Blank() && tcp.Blank() && icmp.Blank()
      ensures Valid()
    {
    }

    /** One allowed edge more leaves the edges allowed. */
    lemma OneEdgeMore(ups: map<Multiplexer, map<int, Multiplexer>>, lower: Multiplexer, upper: Multiplexer, key: int)
      requires AllFollow(ups) && lower in ups && MayFollow(lower, upper)
      ensures AllFollow(ups[lower := ups[lower][key := upper]])
    {
      hide MayFollow;
    }

    lemma UpsAt(m: Multiplexer)
      requires m in Members()
      ensures m in Ups() && Ups()[m] == m.up
    {
    }

    method Seat(lower: Multiplexer, upper: Multiplexer, key: int)
      requires lower in Members()
      modifies lower`up, upper`down
      ensures lower.up == old(lower.up)[key := upper] && upper.down == lower
      ensures Ups() == old(Ups())[lower := old(lower.up)[key := upper]]
    {
      lower.AddUpMultiplexer(upper, key);
      upper.AddDownMultiplexer(lower);
    }

    /** The upper layer sits on the lower one under the given key. */
    method Plug(lower: Multiplexer, upper: Multiplexer, key: int)
      requires Valid() && lower in Members() && MayFollow(lower, upper)
      modifies lower`up, upper`down
      ensures Valid()
      ensures lower.up == old(lower.up)[key := upper] && upper.down == lower
    {
      hide Apart, MayFollow, Ups, Counts, AllFollow, Allowed, AllAllowed, AllTallied;
      UpsAt(lower);
      OneEdgeMore(Ups(), lower, upper, key);
      Seat(lower, upper, key);
    }

    /** Tags add edges; an unknown type adds none and clears the name. */
    method EnableLinkLayerTagging(tag: string)
      requires Valid()
      modifies this`linkLayerTagName, eth`up, vlan`up, mpls`up, vlan`down, mpls`down, ip`down
      ensures Valid()
      ensures linkLayerTagName == if tag == "vlan" || tag == "mpls" then tag else ""
      ensures eth.up == if tag == "vlan" then old(eth.up)[0x8100 := vlan]
                        else if tag == "mpls" then old(eth.up)[0x8847 := mpls] else old(eth.up)
      ensures vlan.up == if tag == "vlan" then old(vlan.up)[0x0800 := ip] else old(vlan.up)
      ensures mpls.up == if tag == "mpls" then old(mpls.up)[0x0800 := ip] else old(mpls.up)
      ensures vlan.down == if tag == "vlan" then eth else old(vlan.down)
      ensures mpls.down == if tag == "mpls" then eth else old(mpls.down)
      ensures ip.down == if tag == "vlan" then vlan else if tag == "mpls" then mpls else old(ip.down)
    {
      assert Apart();
      hide Valid;
      if tag == "vlan" {
        Plug(eth, vlan, ETHERTYPE_VLAN);
        Plug(vlan, ip, ETHERTYPE_IP);
        linkLayerTagName := tag;
      } else if tag == "mpls" {
        Plug(eth, mpls, ETHERTYPE_MPLS);
        Plug(mpls, ip, ETHERTYPE_IP);
        linkLayerTagName := tag;
      } else {
        linkLayerTagName := "";
      }
    }

    /** A captured packet comes in; etherType is what the ethernet header says. marked: to be logged as evidence. */
    method Receive(buffer: seq<byte>, length: int, etherType: int)
      returns (marked: bool, ghost hops: seq<Hop>, ghost end: End)
      requires Valid()
      modifies this`totalPackets, this`rejected, this`walks
      modifies Members()`totalReceivedPackets, Members()`totalForwardPackets
      modifies Members()`totalFailPackets, Members()`refused
      modifies Members()`offered, Members()`headerSize, Members()`nextProtocolId
      ensures Valid()
      ensures totalPackets == old(totalPackets) + 1
      ensures var packet := View(buffer, 0, length, false);
        if eth.check(old(eth.offered), packet) then
          && old(Graph()).IsWalk(hops, end) && hops[0] == Hop(eth, packet, old(eth.headerSize), etherType)
          && walks == old(walks) + [Route(hops)] && rejected == old(rejected)
          && (marked <==> Marked(hops))
        else walks == old(walks) && rejected == old(rejected) + 1 && !marked && hops == []
      ensures SetByWalk(old(Graph()), hops, if hops == [] then old(eth.nextProtocolId) else etherType)
    {
      hide Net.Ranked, Net.Above, Net.IsWalk, Net.Settled, Marked, Route, Books, Graph;
      ghost var net := Graph();
      GraphIsRanked();
      totalPackets := totalPackets + 1;
      var packet := View(buffer, 0, length, false);
      marked, hops, end := false, [], NoRoute;
      if eth.check(eth.offered, packet) {
        marked, hops, end := LetIn(packet, etherType, net);
      } else {
        Reject(net);
      }
    }

    /** The entry layer was told the next protocol; any other layer was set by the hop that leads to it. */
    twostate predicate SetByWalk(new net: Net, new hops: seq<Hop>, etherType: int)
      reads Members()
    {
      && eth.Settings() == Setting(old(eth.headerSize), etherType, old(eth.offered) + 1)
      && forall m :: m in Members() && m != eth ==> m.Settings() == net.Settled(old(m.Settings()), m, hops)
    }

    /** A packet that is not let in was offered to the entry layer. */
    method Reject(ghost net: Net)
      requires Books()
      modifies this`rejected, eth`offered
      ensures Books() && rejected == old(rejected) + 1 && SetByWalk(net, [], old(eth.nextProtocolId))
    {
      hide Allowed, Wired, Tallied;
      eth.offered := eth.offered + 1;
      rejected := rejected + 1;
    }

    /** From the entry layer upwards. */
    method LetIn(packet: View, etherType: int, ghost net: Net)
      returns (marked: bool, ghost hops: seq<Hop>, ghost end: End)
      requires Books()
      requires net.rank.Keys == Members() && eth in net.rank && net.rank[eth] == 0 && net.Ranked() && net.Above(0)
      modifies this`walks
      modifies Members()`totalReceivedPackets, Members()`totalForwardPackets
      modifies Members()`totalFailPackets, Members()`refused
      modifies Members()`offered, Members()`headerSize, Members()`nextProtocolId
      ensures Books()
      ensures SetByWalk(net, hops, etherType)
      ensures |hops| > 0 && net.IsWalk(hops, end) && hops[0] == Hop(eth, packet, old(eth.headerSize), etherType)
      ensures walks == old(walks) + [Route(hops)] && (marked <==> Marked(hops))
    {
      hide Net.IsWalk, Net.Ranked, Net.Above, Marked, Route, Allowed, AllAllowed, Wired, AllFollow,
        AllTallied, Tally.After;
      ghost var before, past := Counts(), walks;
      WiredEdges(net);
      marked, hops, end := Climb(packet, etherType, net);
      WalkIsAllowed(net, hops, end);
      walks := walks + [Route(hops)];
      OneMoreAllowed(past, Route(hops));
      AllTalliedAfter(before, Counts(), past, Route(hops), end);
    }

    static lemma AllTalliedAfter(before: map<Multiplexer, Tally>, after: map<Multiplexer, Tally>,
                                 past: seq<seq<Multiplexer>>, path: seq<Multiplexer>, end: End)
      requires AllTallied(before, past) && |path| > 0 && after.Keys == before.Keys
      requires forall m :: m in before ==> after[m] == before[m].After(m, path, end)
      ensures AllTallied(after, past + [path])
    {
      hide Tallied, Tally.After;
      forall m | m in after
        ensures Tallied(after[m], past + [path], m)
      {
        OneMoreWalk(before[m], m, past, path, end);
      }
    }

    /** The entry layer is told the next protocol, and the packet climbs. */
    method Climb(packet: View, etherType: int, ghost net: Net)
      returns (marked: bool, ghost hops: seq<Hop>, ghost end: End)
      requires net.rank.Keys == Members() && eth in net.rank && net.rank[eth] == 0 && net.Ranked() && net.Above(0)
      modifies Members()`totalReceivedPackets, Members()`totalForwardPackets
      modifies Members()`totalFailPackets, Members()`refused
      modifies Members()`offered, Members()`headerSize, Members()`nextProtocolId
      ensures |hops| > 0 && hops[0] == Hop(eth, packet, old(eth.headerSize), etherType)
      ensures net.IsWalk(hops, end) && (marked <==> Marked(hops))
      ensures SetByWalk(net, hops, etherType)
      ensures forall m :: m in Members() ==> m.Counters() == old(m.Counters()).After(m, Route(hops), end)
    {
      hide Members, Net.IsWalk, Net.Settled, Marked, Route, Tally.After;
      ghost var told := Setting(eth.headerSize, etherType, eth.offered + 1);
      eth.offered := eth.offered + 1;
      eth.nextProtocolId := etherType;
      marked, hops, end := eth.ForwardPacket(packet, net);
      EntryStaysSet(net, told, hops, end);
    }

    lemma EntryStaysSet(net: Net, told: Setting, hops: seq<Hop>, end: End)
      requires net.Ranked() && eth in net.rank && net.rank[eth] == 0 && net.IsWalk(hops, end)
      ensures net.Settled(told, eth, hops) == told
    {
      net.SettledBelow(told, eth, hops);
    }

    lemma WiredEdges(net: Net)
      requires Wired() && net.rank.Keys == Members() && net.Above(0)
      ensures net.up.Keys == Members() && AllFollow(net.up)
    {
      assert net.up == Ups();
    }

    lemma OneMoreAllowed(past: seq<seq<Multiplexer>>, path: seq<Multiplexer>)
      requires AllAllowed(past) && Allowed(path)
      ensures AllAllowed(past + [path])
    {
    }

    lemma GraphIsRanked()
      requires Valid()
      ensures Graph().Ranked() && Graph().Above(0) && eth in Graph().rank && Graph().rank[eth] == 0
      ensures Graph().rank.Keys == Members()
    {
      hide Tallied, Allowed;
      var net := Graph();
      forall m, k | m in net.rank && k in net.up[m]
        ensures net.up[m][k] in net.rank && net.rank[m] < net.rank[net.up[m][k]]
      {
        assert MayFollow(m, m.up[k]);
      }
    }

    lemma WalkIsAllowed(net: Net, hops: seq<Hop>, end: End)
      requires net.Ranked() && net.rank.Keys == net.up.Keys == Members() && AllFollow(net.up)
      requires net.IsWalk(hops, end) && hops[0].mux == eth
      ensures Allowed(Route(hops))
    {
      net.WalkIsShort(hops, end);
      var path := Route(hops);
      forall i | 0 <= i < |path| - 1
        ensures MayFollow(path[i], path[i + 1])
      {
        net.WalkFollowsEdges(hops, end, path[i], path[i + 1]);
      }
    }

    lemma WalksAreWithin()
      requires Apart() && AllAllowed(walks)
      ensures AllWithin(walks, Parts())
    {
    }

    /** Moves happen along the edges only. */
    lemma {:induction false} OffTheEdges(past: seq<seq<Multiplexer>>, s: Multiplexer, t: Multiplexer)
      requires AllAllowed(past)
      requires !MayFollow(s, t)
      ensures Moves(past, s, t) == 0
    {
      if past != [] {
        OffTheEdges(past[..|past| - 1], s, t);
        assert Allowed(past[|past| - 1]);
      }
    }

    /** Every walk enters at the ethernet layer. */
    lemma {:induction false} EntersAtEth(past: seq<seq<Multiplexer>>, m: Multiplexer)
      requires AllAllowed(past)
      ensures Entries(past, m) == if m == eth then |past| else 0
    {
      if past != [] {
        EntersAtEth(past[..|past| - 1], m);
        assert Allowed(past[|past| - 1]);
      }
    }

    /** At every layer: received is forwarded plus failed plus refused; received is what came in from the wire
        and along the edges into it; forwarded is what left along the edges out of it. */
    lemma LayerBalances(m: Multiplexer)
      requires Valid() && m in Members()
      ensures m.totalReceivedPackets == m.totalForwardPackets + m.totalFailPackets + m.refused
      ensures m.totalReceivedPackets ==
              (if m == eth then totalPackets - rejected else 0) + MovesInto(walks, Parts(), m)
      ensures m.totalForwardPackets == MovesOutOf(walks, Parts(), m)
    {
      WalksAreWithin();
      TrafficBalances(walks, Parts(), m);
      EntersAtEth(walks, m);
      assert Tallied(Counts()[m], walks, m);
    }

    /** Edge by edge: what each layer received, by the layer that passed it on. */
    lemma ReceivedFrom()
      requires Valid()
      ensures eth.totalReceivedPackets == totalPackets - rejected
      ensures vlan.totalReceivedPackets == Moves(walks, eth, vlan)
      ensures mpls.totalReceivedPackets == Moves(walks, eth, mpls)
      ensures ip.totalReceivedPackets == Moves(walks, eth, ip) + Moves(walks, vlan, ip) + Moves(walks, mpls, ip)
      ensures forall t :: t in {udp, tcp, icmp} ==> t.totalReceivedPackets == Moves(walks, ip, t)
    {
      assert Apart();
      hide Valid, Allowed, Moves;
      forall t | t in Members()
        ensures t.totalReceivedPackets == (if t == eth then totalPackets - rejected else 0) + Into(t)
      {
        LayerBalances(t);
        AllMovesInto(t);
      }
      NoOtherMoves();
    }

    ghost function Into(t: Multiplexer): nat
      reads this
    {
      Moves(walks, eth, t) + Moves(walks, vlan, t) + Moves(walks, mpls, t) + Moves(walks, ip, t) +
      Moves(walks, udp, t) + Moves(walks, tcp, t) + Moves(walks, icmp, t)
    }

    ghost function OutOf(s: Multiplexer): nat
      reads this
    {
      Moves(walks, s, eth) + Moves(walks, s, vlan) + Moves(walks, s, mpls) + Moves(walks, s, ip) +
      Moves(walks, s, udp) + Moves(walks, s, tcp) + Moves(walks, s, icmp)
    }

    lemma AllMovesInto(t: Multiplexer)
      ensures MovesInto(walks, Parts(), t) == Into(t)
      ensures MovesOutOf(walks, Parts(), t) == OutOf(t)
    {
      MovesPeel(walks, eth, [vlan, mpls, ip, udp, tcp, icmp], t);
      MovesPeel(walks, vlan, [mpls, ip, udp, tcp, icmp], t);
      MovesPeel(walks, mpls, [ip, udp, tcp, icmp], t);
      MovesPeel(walks, ip, [udp, tcp, icmp], t);
      MovesPeel(walks, udp, [tcp, icmp], t);
      MovesPeel(walks, tcp, [icmp], t);
      MovesPeel(walks, icmp, [], t);
    }

    lemma NoOtherMoves()
      requires Valid()
      ensures forall s, t :: s in Members() && t in Members() && !MayFollow(s, t) ==> Moves(walks, s, t) == 0
    {
      forall s, t | s in Members() && t in Members() && !MayFollow(s, t)
        ensures Moves(walks, s, t) == 0
      {
        OffTheEdges(walks, s, t);
      }
    }

    /** What one level forwards is what the next one receives. */
    lemma NothingGetsLost()
      requires Valid()
      ensures eth.totalForwardPackets + vlan.totalForwardPackets + mpls.totalForwardPackets ==
              vlan.totalReceivedPackets + mpls.totalReceivedPackets + ip.totalReceivedPackets
      ensures ip.totalForwardPackets ==
              udp.totalReceivedPackets + tcp.totalReceivedPackets + icmp.totalReceivedPackets
      ensures udp.totalForwardPackets == tcp.totalForwardPackets == icmp.totalForwardPackets == 0
      ensures totalPackets == rejected + Ended(eth) + Ended(vlan) + Ended(mpls) + Ended(ip) +
              Ended(udp) + Ended(tcp) + Ended(icmp)
    {
      assert Apart();
      hide Valid, Allowed, Moves;
      forall s | s in Members()
        ensures s.totalForwardPackets == OutOf(s) && s.totalReceivedPackets == s.totalForwardPackets + Ended(s)
      {
        LayerBalances(s);
        AllMovesInto(s);
      }
      NoOtherMoves();
      ReceivedFrom();
    }

    /** Packets whose walk ended at this layer. */
    static ghost function Ended(m: Multiplexer): nat
      reads m
    {
      m.totalFailPackets + m.refused
    }
  }

  /** The counters of m are those of the given walks. */
  ghost predicate Tallied(c: Tally, walks: seq<seq<Multiplexer>>, m: Multiplexer) {
    && c.received == Visits(walks, m)
    && c.forwarded + Ends(walks, m) == Visits(walks, m)
    && c.failed + c.refused == Ends(walks, m)
  }

  lemma OneMoreWalk(c: Tally, m: Multiplexer, walks: seq<seq<Multiplexer>>, path: seq<Multiplexer>, end: End)
    requires Tallied(c, walks, m) && |path| > 0
    ensures Tallied(c.After(m, path, end), walks + [path], m)
  {
    assert (walks + [path])[..|walks|] == walks;
  }
}
