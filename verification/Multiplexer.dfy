/** The layered dispatch of src/Multiplexer.cc: a packet walks up a graph of layers. */
module Layers {
  import opened Common
  import opened Traffic

  /** A packet as one layer sees it: a window of the captured buffer, and the mark for the evidence log. */
  datatype View = View(buffer: seq<byte>, offset: int, length: int, evidence: bool)

  /** What the packet function of a layer decides: whether to go on, how far it moves the window, the mark,
      and its own header size and next protocol from now on. */
  datatype Verdict = Verdict(ok: bool, advance: int, evidence: bool, header: int, next: int)

  /** A layer that took the packet, the view it got, and what was then set for passing it on. */
  datatype Hop = Hop(mux: Multiplexer, view: View, header: int, next: int)

  /** What a layer is set to, and how many packets it was offered. */
  datatype Setting = Setting(header: int, next: int, offered: nat)

  /** Why a walk ended: no layer for the next protocol, or the layer did not take the packet. */
  datatype End = NoRoute | Refused

  /** Payload moved forward, length reduced. */
  function Shift(v: View, n: int): View {
    v.(offset := v.offset + n, length := v.length - n)
  }

  function Judged(v: View, verdict: Verdict): View {
    Shift(v, verdict.advance).(evidence := verdict.evidence)
  }

  class Multiplexer {
    // checker and packet function; the number tells the how-manieth offered packet it is
    const check: (nat, View) -> bool
    const func: (nat, View) -> Verdict
    var up: map<int, Multiplexer>
    var down: Multiplexer?
    var headerSize: int
    var nextProtocolId: int
    var totalReceivedPackets: nat
    var totalForwardPackets: nat
    var totalFailPackets: nat
    ghost var refused: nat
    var offered: nat

    constructor (check: (nat, View) -> bool, func: (nat, View) -> Verdict, headerSize: int)
      ensures this.check == check && this.func == func && this.headerSize == headerSize
      ensures up == map[] && down == null && nextProtocolId == 0xFFFF && offered == 0 && Blank()
    {
      this.check, this.func := check, func;
      up, down, this.headerSize, nextProtocolId := map[], null, headerSize, 0xFFFF;
      totalReceivedPackets, totalForwardPackets, totalFailPackets, refused, offered := 0, 0, 0, 0, 0;
    }

    /** Neither plugged nor used. */
    ghost predicate Blank()
      reads this
    {
      up == map[] && Counters() == Tally(0, 0, 0, 0)
    }

    /** A second multiplexer under the same key takes the place of the first. */
    method AddUpMultiplexer(mux: Multiplexer, key: int)
      modifies this`up
      ensures up == old(up)[key := mux]
    {
      up := up[key := mux];
    }

    method AddDownMultiplexer(mux: Multiplexer)
      modifies this`down
      ensures down == mux
    {
      down := mux;
    }

    /** Checker and packet function on the candidate. What the packet function sets stays set even if it says no. */
    method Offer(candidate: View) returns (taken: bool, view: View)
      modifies this`offered, this`headerSize, this`nextProtocolId
      ensures offered == old(offered) + 1
      ensures taken == Takes(old(offered), candidate)
      ensures var v := func(old(offered), candidate);
        if check(old(offered), candidate) then
          view == Judged(candidate, v) && headerSize == v.header && nextProtocolId == v.next
        else
          view == candidate && headerSize == old(headerSize) && nextProtocolId == old(nextProtocolId)
    {
      var number := offered;
      offered := offered + 1;
      taken, view := false, candidate;
      if check(number, candidate) {
        var v := func(number, candidate);
        headerSize, nextProtocolId := v.header, v.next;
        view := Judged(candidate, v);
        taken := v.ok;
      }
    }

    predicate Takes(number: nat, candidate: View) {
      check(number, candidate) && func(number, candidate).ok
    }

    ghost function Counters(): Tally
      reads this`totalReceivedPackets, this`totalForwardPackets, this`totalFailPackets, this`refused
    {
      Tally(totalReceivedPackets, totalForwardPackets, totalFailPackets, refused)
    }

    ghost function Settings(): Setting
      reads this`headerSize, this`nextProtocolId, this`offered
    {
      Setting(headerSize, nextProtocolId, offered)
    }

    /** Hands the packet to the layer of the next protocol, and so on upwards. marked: the packet's mark afterwards. */
    method ForwardPacket(packet: View, ghost net: Net)
      returns (marked: bool, ghost hops: seq<Hop>, ghost end: End)
      requires this in net.rank && net.Ranked() && net.Above(net.rank[this])
      modifies net.rank.Keys`totalReceivedPackets, net.rank.Keys`totalForwardPackets
      modifies net.rank.Keys`totalFailPackets, net.rank.Keys`refused
      modifies net.rank.Keys`offered, net.rank.Keys`headerSize, net.rank.Keys`nextProtocolId
      ensures |hops| > 0 && hops[0] == Hop(this, packet, old(headerSize), old(nextProtocolId))
      ensures net.IsWalk(hops, end)
      ensures forall m :: m in net.rank ==> m.Counters() == old(m.Counters()).After(m, Route(hops), end)
      ensures forall m :: m in net.rank ==> m.Settings() == net.Settled(old(m.Settings()), m, hops)
      ensures marked <==> Marked(hops)
      decreases net.top - net.rank[this], 1
    {
      hide Net.Ranked, Net.Above, Net.IsWalk, Net.LeadsTo, Net.Stops, Net.Settled, Tally.After, Marked, Route;
      totalReceivedPackets := totalReceivedPackets + 1;
      marked := packet.evidence;
      ghost var here := Hop(this, packet, headerSize, nextProtocolId);
      hops := [here];
      var mux, taken, view := OfferUp(packet, net);
      if mux == null {
        totalFailPackets := totalFailPackets + 1;
        end := NoRoute;
      } else if taken {
        totalForwardPackets := totalForwardPackets + 1;
        marked, hops, end := GoUp(packet, mux, view, here, net);
        forall m | m in net.rank
          ensures m.Counters() == old(m.Counters()).After(m, Route(hops), end)
        {
          old(m.Counters()).AfterMore(m, here, hops[1..], end);
        }
        return;
      } else {
        refused := refused + 1;
        end := Refused;
      }
      forall m | m in net.rank
        ensures m.Counters() == old(m.Counters()).After(m, Route(hops), end)
      {
        old(m.Counters()).AfterLast(m, here, end);
      }
    }

    /** The layer of the next protocol, if there is one, is offered what is behind the header. */
    method OfferUp(packet: View, ghost net: Net) returns (mux: Multiplexer?, taken: bool, view: View)
      requires this in net.rank && net.Ranked() && net.Above(net.rank[this])
      modifies net.rank.Keys`offered, net.rank.Keys`headerSize, net.rank.Keys`nextProtocolId
      ensures forall m :: m in net.rank ==>
        m.Settings() == net.Settled(old(m.Settings()), m, [Hop(this, packet, old(headerSize), old(nextProtocolId))])
      ensures var here := Hop(this, packet, old(headerSize), old(nextProtocolId));
        if mux == null then net.IsWalk([here], NoRoute) && Marked([here]) == packet.evidence
        else if !taken then net.IsWalk([here], Refused) && Marked([here]) == packet.evidence
        else
          && mux in net.rank && net.Above(net.rank[mux]) && net.rank[this] < net.rank[mux] <= net.top
          && net.LeadsTo(here, Hop(mux, view, mux.headerSize, mux.nextProtocolId))
    {
      hide Net.IsWalk, Net.LeadsTo, Net.Stops, Net.Settled, Marked, Route;
      ghost var here := Hop(this, packet, headerSize, nextProtocolId);
      mux, taken, view := null, false, packet;
      if nextProtocolId in up {
        net.Higher(this, nextProtocolId);
        mux := up[nextProtocolId];
        taken, view := mux.Offer(Shift(packet, headerSize));
        if taken {
          net.Taken(here, Hop(mux, view, mux.headerSize, mux.nextProtocolId));
        } else {
          net.NoHop(here, Refused);
        }
      } else {
        net.NoHop(here, NoRoute);
      }
      forall m | m in net.rank
        ensures m.Settings() == net.Settled(old(m.Settings()), m, [here])
      {
        net.SettledOnce(old(m.Settings()), m, here);
      }
    }

    /** The packet goes on from the layer that took it. */
    method GoUp(packet: View, mux: Multiplexer, view: View, ghost here: Hop, ghost net: Net)
      returns (marked: bool, ghost hops: seq<Hop>, ghost end: End)
      requires this in net.rank && mux in net.rank && net.Ranked() && net.Above(net.rank[mux])
      requires net.rank[this] < net.rank[mux] <= net.top
      requires here.mux == this && here.view == packet
      requires net.LeadsTo(here, Hop(mux, view, mux.headerSize, mux.nextProtocolId))
      modifies net.rank.Keys`totalReceivedPackets, net.rank.Keys`totalForwardPackets
      modifies net.rank.Keys`totalFailPackets, net.rank.Keys`refused
      modifies net.rank.Keys`offered, net.rank.Keys`headerSize, net.rank.Keys`nextProtocolId
      ensures |hops| > 1 && hops == [here] + hops[1..] && this !in Route(hops[1..])
      ensures net.IsWalk(hops, end)
      ensures forall m :: m in net.rank ==> m.Counters() == old(m.Counters()).After(m, Route(hops[1..]), end)
      ensures forall m :: m in net.rank ==> m.Settings() == net.Settled(old(m.Settings()), m, hops[1..])
      ensures forall m, s :: m in net.rank ==>
        net.Settled(net.Settled(s, m, [here]), m, hops[1..]) == net.Settled(s, m, hops)
      ensures marked <==> Marked(hops)
      decreases net.top - net.rank[mux], 2
    {
      hide Net.Ranked, Net.IsWalk, Net.LeadsTo, Net.Stops, Net.Settled, Tally.After, Marked, Route;
      ghost var rest;
      marked, rest, end := mux.ForwardPacket(view, net);
      forall m, s | m in net.rank
        ensures net.Settled(net.Settled(s, m, [here]), m, rest) == net.Settled(s, m, [here] + rest)
      {
        net.SettledMore(s, m, here, rest, end);
      }
      net.MoreHops(here, rest, end);
      net.NeverAgain(here, rest, end);
      MarkedMore(here, rest);
      hops := [here] + rest;
      assert hops[1..] == rest;
      marked := marked || packet.evidence;
    }
  }

  /** The bytes a layer sees. */
  function Bytes(v: View): seq<byte>
    requires 0 <= v.offset && 0 <= v.length && v.offset + v.length <= |v.buffer|
  {
    v.buffer[v.offset..v.offset + v.length]
  }

  /** What a layer offers upwards is what it sees without its header. */
  lemma HeaderIsCutOff(v: View, header: int)
    requires 0 <= v.offset && 0 <= header <= v.length && v.offset + v.length <= |v.buffer|
    ensures var offer := Shift(v, header);
      && 0 <= offer.offset && 0 <= offer.length && offer.offset + offer.length <= |offer.buffer|
      && Bytes(offer) == Bytes(v)[header..] && offer.evidence == v.evidence
  {
  }

  /** Some layer on the way marked the packet. */
  ghost predicate Marked(hops: seq<Hop>) {
    exists i :: 0 <= i < |hops| && hops[i].view.evidence
  }

  /** The counters of a layer. */
  datatype Tally = Tally(received: nat, forwarded: nat, failed: nat, refused: nat) {
    /** What one walk adds to the counters of layer m. */
    function After(m: Multiplexer, path: seq<Multiplexer>, end: End): Tally
      requires |path| > 0
    {
      var last := path[|path| - 1];
      Tally(received + (if m in path then 1 else 0),
            forwarded + (if m in path && m != last then 1 else 0),
            failed + (if m == last && end == NoRoute then 1 else 0),
            refused + (if m == last && end == Refused then 1 else 0))
    }

    lemma AfterLast(m: Multiplexer, here: Hop, end: End)
      ensures After(m, Route([here]), end) ==
              if m != here.mux then this
              else if end == NoRoute then Tally(received + 1, forwarded, failed + 1, refused)
              else Tally(received + 1, forwarded, failed, refused + 1)
    {
      assert Route([here]) == [here.mux];
    }

    lemma AfterMore(m: Multiplexer, here: Hop, rest: seq<Hop>, end: End)
      requires |rest| > 0 && here.mux !in Route(rest)
      ensures After(m, Route([here] + rest), end) ==
              (if m == here.mux then Tally(received + 1, forwarded + 1, failed, refused) else this)
              .After(m, Route(rest), end)
    {
      var path := Route([here] + rest);
      assert path == [here.mux] + Route(rest);
      assert path[|path| - 1] == Route(rest)[|rest| - 1];
    }
  }

  /** The graph before a walk: who is up from whom, how many packets each layer was offered before,
      and a height for every layer. */
  datatype Net = Net(up: map<Multiplexer, map<int, Multiplexer>>, offered: map<Multiplexer, nat>,
                     rank: map<Multiplexer, nat>, top: nat)
  {
    /** The height grows along every edge. */
    ghost predicate Ranked() {
      && up.Keys == offered.Keys == rank.Keys
      && forall m :: m in rank ==>
           rank[m] <= top && forall k :: k in up[m] ==> up[m][k] in rank && rank[m] < rank[up[m][k]]
    }

    /** The heap agrees with the graph; higher than height r no packet has been offered since. */
    ghost predicate Above(r: nat)
      reads rank.Keys`up, rank.Keys`offered
    {
      && up.Keys == offered.Keys == rank.Keys
      && (forall m :: m in rank ==> m.up == up[m])
      && forall m :: m in rank && rank[m] > r ==> m.offered == offered[m]
    }

    /** What m is set to after it was offered what is behind the header of h. */
    ghost function Told(s: Setting, m: Multiplexer, h: Hop): Setting {
      var offer := View(h.view.buffer, h.view.offset + h.header, h.view.length - h.header, h.view.evidence);
      var v := m.func(s.offered, offer);
      if m.check(s.offered, offer) then Setting(v.header, v.next, s.offered + 1) else s.(offered := s.offered + 1)
    }

    /** What m is set to after a walk: as told by the hop that leads to it, taken or not, else as before. */
    ghost function Settled(s: Setting, m: Multiplexer, hops: seq<Hop>): Setting {
      if hops == [] then s
      else if hops[0].mux in up && hops[0].next in up[hops[0].mux] && up[hops[0].mux][hops[0].next] == m
      then Told(s, m, hops[0])
      else Settled(s, m, hops[1..])
    }

    lemma SettledOnce(s: Setting, m: Multiplexer, h: Hop)
      ensures Settled(s, m, [h]) ==
              if h.mux in up && h.next in up[h.mux] && up[h.mux][h.next] == m then Told(s, m, h) else s
    {
      assert [h][1..] == [];
    }

    /** Nothing leads down. */
    lemma {:induction false} SettledBelow(s: Setting, m: Multiplexer, hops: seq<Hop>)
      requires Ranked() && m in rank
      requires forall i :: 0 <= i < |hops| ==> hops[i].mux in rank && rank[m] <= rank[hops[i].mux]
      ensures Settled(s, m, hops) == s
    {
      if hops != [] {
        SettledBelow(s, m, hops[1..]);
        assert hops[0].mux in rank && rank[m] <= rank[hops[0].mux];
      }
    }

    lemma SettledMore(s: Setting, m: Multiplexer, h: Hop, rest: seq<Hop>, end: End)
      requires Ranked() && m in rank && h.mux in rank && IsWalk(rest, end) && LeadsTo(h, rest[0])
      ensures Settled(Settled(s, m, [h]), m, rest) == Settled(s, m, [h] + rest)
    {
      assert ([h] + rest)[1..] == rest;
      if rest[0].mux == m {
        forall i | 0 <= i < |rest|
          ensures rank[m] <= rank[rest[i].mux]
        {
          assert i > 0 ==> rank[rest[0].mux] < rank[rest[i].mux];
        }
        SettledBelow(Settled(s, m, [h]), m, rest);
      }
    }

    /** The layer of the next protocol took the packet behind the header, and next is what it made of it. */
    ghost predicate LeadsTo(h: Hop, next: Hop) {
      && h.mux in up && h.next in up[h.mux] && next.mux == up[h.mux][h.next] && next.mux in offered
      && var candidate := Shift(h.view, h.header);
         var v := next.mux.func(offered[next.mux], candidate);
         && next.mux.Takes(offered[next.mux], candidate)
         && next == Hop(next.mux, Judged(candidate, v), v.header, v.next)
    }

    /** Why the walk ends at h. */
    ghost predicate Stops(h: Hop, end: End) {
      && h.mux in up
      && (end == NoRoute <==> h.next !in up[h.mux])
      && (end == Refused ==>
            var next := up[h.mux][h.next];
            next in offered && !next.Takes(offered[next], Shift(h.view, h.header)))
    }

    /** Each hop leads to the next, ever higher, and the last one stops for the given reason. */
    ghost predicate IsWalk(hops: seq<Hop>, end: End) {
      && |hops| > 0
      && (forall i :: 0 <= i < |hops| ==> hops[i].mux in rank)
      && (forall i, j :: 0 <= i < j < |hops| ==> rank[hops[i].mux] < rank[hops[j].mux])
      && (forall i :: 0 <= i < |hops| - 1 ==> LeadsTo(hops[i], hops[i + 1]))
      && Stops(hops[|hops| - 1], end)
    }

    lemma Higher(m: Multiplexer, k: int)
      requires Ranked() && m in rank
      ensures m in up && rank[m] <= top && up.Keys == offered.Keys == rank.Keys
      ensures k in up[m] ==> up[m][k] in rank && rank[m] < rank[up[m][k]] <= top
    {
    }

    lemma Taken(h: Hop, next: Hop)
      requires Ranked() && h.mux in rank && h.next in up[h.mux] && next.mux == up[h.mux][h.next]
      requires next.mux.Takes(offered[next.mux], Shift(h.view, h.header))
      requires var v := next.mux.func(offered[next.mux], Shift(h.view, h.header));
        next.view == Judged(Shift(h.view, h.header), v) && next.header == v.header && next.next == v.next
      ensures LeadsTo(h, next)
    {
    }

    lemma NoHop(h: Hop, end: End)
      requires Ranked() && h.mux in rank
      requires match end
               case NoRoute => h.next !in up[h.mux]
               case Refused =>
                 h.next in up[h.mux] &&
                 !up[h.mux][h.next].Takes(offered[up[h.mux][h.next]], Shift(h.view, h.header))
      ensures IsWalk([h], end) && Marked([h]) == h.view.evidence && Route([h]) == [h.mux]
    {
      assert [h][0].view.evidence == h.view.evidence;
    }

    /** The payload offset plus the remaining length is the same at every hop, and so is the buffer. */
    lemma {:induction false} WindowIsKept(hops: seq<Hop>, end: End, i: nat)
      requires IsWalk(hops, end) && i < |hops|
      ensures hops[i].view.buffer == hops[0].view.buffer
      ensures hops[i].view.offset + hops[i].view.length == hops[0].view.offset + hops[0].view.length
    {
      if i > 0 {
        WindowIsKept(hops, end, i - 1);
        assert LeadsTo(hops[i - 1], hops[i]);
      }
    }

    /** One step up, in numbers: the next layer was offered the window that begins header bytes later and is header
        bytes shorter; its checker and its packet function said yes; and what it works on lies further by what the
        packet function advanced, with the mark, the header size and the next protocol that the function set. */
    lemma StepInNumbers(here: Hop, there: Hop)
      requires LeadsTo(here, there)
      ensures
        && here.mux in up && here.next in up[here.mux] && there.mux == up[here.mux][here.next] && there.mux in offered
        && var offer := View(here.view.buffer, here.view.offset + here.header, here.view.length - here.header,
                             here.view.evidence);
           var v := there.mux.func(offered[there.mux], offer);
           && there.mux.check(offered[there.mux], offer) && v.ok
           && there.view.buffer == here.view.buffer
           && there.view.offset == here.view.offset + here.header + v.advance
           && there.view.length == here.view.length - here.header - v.advance
           && there.view.evidence == v.evidence && there.header == v.header && there.next == v.next
    {
    }

    /** On every walk the window moves by the header and by what the packet function advanced, and shrinks by that. */
    lemma WindowMoves(hops: seq<Hop>, end: End, i: nat)
      requires IsWalk(hops, end) && i + 1 < |hops|
      ensures LeadsTo(hops[i], hops[i + 1]) && hops[i + 1].mux in offered
      ensures
        var here, there, mux := hops[i].view, hops[i + 1].view, hops[i + 1].mux;
        var offer := View(here.buffer, here.offset + hops[i].header, here.length - hops[i].header, here.evidence);
        var advance := mux.func(offered[mux], offer).advance;
        && there.offset == here.offset + hops[i].header + advance
        && there.length == here.length - hops[i].header - advance
    {
      assert LeadsTo(hops[i], hops[i + 1]);
      StepInNumbers(hops[i], hops[i + 1]);
    }

    /** Why a walk ended, in numbers: no layer for the next protocol, or the checker or the packet function of that
        layer said no to the window behind the header. */
    lemma WalkEnds(hops: seq<Hop>, end: End)
      requires IsWalk(hops, end)
      ensures var last := hops[|hops| - 1];
        && last.mux in up
        && (end == NoRoute <==> last.next !in up[last.mux])
        && (end == Refused && up[last.mux][last.next] in offered ==>
              var mux := up[last.mux][last.next];
              var offer := View(last.view.buffer, last.view.offset + last.header, last.view.length - last.header,
                                last.view.evidence);
              mux.check(offered[mux], offer) ==> !mux.func(offered[mux], offer).ok)
    {
    }

    /** A walk is no longer than the graph is high, and visits no layer twice. */
    lemma {:induction false} WalkIsShort(hops: seq<Hop>, end: End)
      requires Ranked() && IsWalk(hops, end)
      ensures Simple(Route(hops)) && |hops| <= top - rank[hops[0].mux] + 1
    {
      Climb(hops, end, |hops| - 1);
      assert rank[hops[|hops| - 1].mux] <= top;
      forall i, j | 0 <= i < j < |hops|
        ensures hops[i].mux != hops[j].mux
      {
        assert rank[hops[i].mux] < rank[hops[j].mux];
      }
    }

    lemma {:induction false} Climb(hops: seq<Hop>, end: End, i: nat)
      requires IsWalk(hops, end) && i < |hops|
      ensures rank[hops[0].mux] + i <= rank[hops[i].mux]
    {
      if i > 0 {
        Climb(hops, end, i - 1);
      }
    }

    /** A walk only follows edges of the graph. */
    lemma WalkFollowsEdges(hops: seq<Hop>, end: End, s: Multiplexer, t: Multiplexer)
      requires Ranked() && IsWalk(hops, end) && Steps(Route(hops), s, t)
      ensures s in rank && t in rank && exists k :: k in up[s] && up[s][k] == t
    {
      var path := Route(hops);
      var i :| 0 <= i < |path| - 1 && path[i] == s && path[i + 1] == t;
      assert LeadsTo(hops[i], hops[i + 1]);
    }

    lemma MoreHops(h: Hop, rest: seq<Hop>, end: End)
      requires Ranked() && h.mux in rank && IsWalk(rest, end) && LeadsTo(h, rest[0])
      ensures IsWalk([h] + rest, end)
    {
      var hops := [h] + rest;
      assert rank[h.mux] < rank[rest[0].mux];
      forall i, j | 0 <= i < j < |hops|
        ensures rank[hops[i].mux] < rank[hops[j].mux]
      {
        assert j > 1 ==> rank[rest[0].mux] < rank[rest[j - 1].mux];
      }
      forall i | 0 <= i < |hops| - 1
        ensures LeadsTo(hops[i], hops[i + 1])
      {
        assert i > 0 ==> LeadsTo(rest[i - 1], rest[i]);
      }
    }

    lemma NeverAgain(h: Hop, rest: seq<Hop>, end: End)
      requires Ranked() && h.mux in rank && IsWalk(rest, end) && LeadsTo(h, rest[0])
      ensures h.mux !in Route(rest)
    {
      assert rank[h.mux] < rank[rest[0].mux];
      forall i | 0 <= i < |rest|
        ensures rest[i].mux != h.mux
      {
        assert i > 0 ==> rank[rest[0].mux] < rank[rest[i].mux];
      }
    }
  }

  lemma MarkedMore(h: Hop, rest: seq<Hop>)
    ensures Marked([h] + rest) <==> h.view.evidence || Marked(rest)
  {
    var hops := [h] + rest;
    assert hops[0] == h && forall i :: 0 <= i < |rest| ==> hops[i + 1] == rest[i];
  }

  function Route(hops: seq<Hop>): (path: seq<Multiplexer>)
    ensures |path| == |hops| && forall i :: 0 <= i < |hops| ==> path[i] == hops[i].mux
  {
    seq(|hops|, i requires 0 <= i < |hops| => hops[i].mux)
  }
}
