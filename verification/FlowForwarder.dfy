/** src/FlowForwarder.cc: the first forwarder that accepts a flow's packet gets the flow and keeps it. */
module FlowForwarders {
  import opened Common
  import opened Cascades

  /** What of a flow the dispatch reads and sets. */
  class DispatchedFlow {
    var forwarder: FlowForwarder?

    constructor ()
      ensures forwarder == null
    {
      forwarder := null;
    }

    method Reset()
      modifies this
      ensures forwarder == null
    {
      forwarder := null;
    }
  }

  class FlowForwarder {
    const accepts: seq<byte> -> bool
    var children: seq<FlowForwarder>
    var totalReceivedFlows: nat
    var totalForwardFlows: nat
    var totalFailFlows: nat
    // the flows this one's flow function was called with, in order
    ghost var handled: seq<DispatchedFlow>
    // flows that came in attached
    ghost var attached: nat
    // the forwarders that were given a flow by this one, in order
    ghost var given: seq<FlowForwarder>
    // all there ever were in the list, with the flows they had received when they joined
    ghost var joined: map<FlowForwarder, nat>

    /** The children have received what was given to them. */
    ghost predicate Booked()
      reads this`joined, this`given, this`totalForwardFlows, joined.Keys`totalReceivedFlows
    {
      && (forall c :: c in given ==> c in joined)
      && (forall c :: c in joined ==> c.totalReceivedFlows == joined[c] + multiset(given)[c])
      && totalForwardFlows == |given|
    }

    ghost predicate Valid()
      reads this, joined.Keys`totalReceivedFlows
    {
      && this !in joined && Booked()
      && (forall c :: c in children ==> c in joined)
      && totalReceivedFlows == attached + totalForwardFlows + totalFailFlows
    }

    constructor (accepts: seq<byte> -> bool)
      ensures Valid() && this.accepts == accepts && children == [] && joined == map[] && given == []
      ensures totalReceivedFlows == 0 && attached == 0 && handled == []
    {
      this.accepts, children := accepts, [];
      totalReceivedFlows, totalForwardFlows, totalFailFlows := 0, 0, 0;
      handled, attached, given, joined := [], 0, [], map[];
    }

    method AddUpFlowForwarder(child: FlowForwarder)
      requires Valid() && child != this
      modifies this`children, this`joined
      ensures Valid() && children == old(children) + [child]
      ensures joined == Joined(old(joined), child)
    {
      joined := Joined(joined, child);
      children := children + [child];
    }

    ghost function Joined(joined: map<FlowForwarder, nat>, child: FlowForwarder): map<FlowForwarder, nat>
      reads child
    {
      if child in joined then joined else joined[child := child.totalReceivedFlows]
    }

    /** The first occurrence of the child is taken out; a stranger changes nothing. */
    method RemoveUpFlowForwarder(child: FlowForwarder)
      requires Valid()
      modifies this`children
      ensures Valid()
      ensures children == WithoutFirst(old(children), child)
    {
      var i := 0;
      while i < |children| && children[i] != child
        invariant i <= |children| && children == old(children) && child !in children[..i]
      {
        i := i + 1;
      }
      WithoutAt(children, child, i);
      if i < |children| {
        children := children[..i] + children[i + 1..];
      }
    }

    function Answers(packet: seq<byte>): (a: seq<bool>)
      reads this`children
      ensures |a| == |children| && forall i :: 0 <= i < |a| ==> a[i] == children[i].accepts(packet)
    {
      var all := children;
      seq(|all|, i requires 0 <= i < |all| => all[i].accepts(packet))
    }

    /** The flow function: what it does to the flow is the protocol's business, but the forwarder stays. */
    method CallFlowFunction(flow: DispatchedFlow)
      modifies this`handled
      ensures handled == old(handled) + [flow]
    {
      handled := handled + [flow];
    }

    /** An attached flow stays where it is; another one goes to the first child that accepts its packet. */
    method ForwardFlow(flow: DispatchedFlow, packet: seq<byte>)
      requires Valid()
      modifies this`totalReceivedFlows, this`totalForwardFlows, this`totalFailFlows, this`attached, this`given
      modifies joined.Keys`totalReceivedFlows, joined.Keys`handled, Holder(flow)`handled, flow
      ensures Valid()
      ensures forall c :: c in joined || c in old(Holder(flow)) ==>
                c.handled == old(c.handled) + if flow.forwarder == c then [flow] else []
      ensures totalReceivedFlows == old(totalReceivedFlows) + 1
      ensures var n := First(Answers(packet));
        if old(flow.forwarder) != null then
          flow.forwarder == old(flow.forwarder) && attached == old(attached) + 1 && given == old(given)
        else if n < |children| then
          flow.forwarder == children[n] && attached == old(attached) && given == old(given) + [children[n]]
        else
          flow.forwarder == null && attached == old(attached) && given == old(given) &&
          totalFailFlows == old(totalFailFlows) + 1
    {
      hide First, Answers, Booked;
      totalReceivedFlows := totalReceivedFlows + 1;
      if flow.forwarder != null {
        attached := attached + 1;
        flow.forwarder.CallFlowFunction(flow);
        return;
      }
      ghost var answers := Answers(packet);
      ghost var n := First(answers);
      var i := 0;
      while i < |children|
        invariant i <= n <= |children| && flow.forwarder == null
      {
        if children[i].accepts(packet) {
          Give(flow, children[i]);
          return;
        }
        i := i + 1;
      }
      totalFailFlows := totalFailFlows + 1;
    }

    static ghost function Holder(flow: DispatchedFlow): set<FlowForwarder>
      reads flow
    {
      if flow.forwarder == null then {} else {flow.forwarder}
    }

    /** The flow goes to the child, and stays there. */
    method Give(flow: DispatchedFlow, child: FlowForwarder)
      requires Booked() && child in joined && this !in joined
      modifies this`totalForwardFlows, this`given, child`totalReceivedFlows, child`handled, flow
      ensures child.handled == old(child.handled) + [flow]
      ensures Booked() && flow.forwarder == child && given == old(given) + [child]
      ensures totalForwardFlows == old(totalForwardFlows) + 1 && totalReceivedFlows == old(totalReceivedFlows)
    {
      flow.forwarder := child;
      child.totalReceivedFlows := child.totalReceivedFlows + 1;
      child.CallFlowFunction(flow);
      totalForwardFlows := totalForwardFlows + 1;
      given := given + [child];
    }

    /** With a list of distinct children that never changed, all unused when they joined, the flows forwarded are
        the flows the children received. */
    lemma ForwardsAreReceived()
      requires Valid() && NoDuplicates(children)
      requires joined.Keys == (set c | c in children) && forall c :: c in joined ==> joined[c] == 0
      ensures totalForwardFlows == ReceivedBy(children)
      ensures totalReceivedFlows == attached + ReceivedBy(children) + totalFailFlows
    {
      GivenIn(children);
      AllGiven(children, given);
    }

    lemma {:induction false} GivenIn(some: seq<FlowForwarder>)
      requires Valid() && forall c :: c in some ==> c in joined && joined[c] == 0
      ensures ReceivedBy(some) == Sum(some, given)
    {
      if some != [] {
        GivenIn(some[1..]);
      }
    }
  }

  function ReceivedBy(children: seq<FlowForwarder>): nat
    reads children
  {
    if children == [] then 0 else children[0].totalReceivedFlows + ReceivedBy(children[1..])
  }

  /** How many of the given ones are among the children. */
  ghost function Sum(children: seq<FlowForwarder>, given: seq<FlowForwarder>): nat {
    if children == [] then 0 else multiset(given)[children[0]] + Sum(children[1..], given)
  }

  lemma {:induction false} OneMoreGiven(children: seq<FlowForwarder>, given: seq<FlowForwarder>, c: FlowForwarder)
    requires NoDuplicates(children)
    ensures Sum(children, given + [c]) == Sum(children, given) + if c in children then 1 else 0
  {
    if children != [] {
      OneMoreGiven(children[1..], given, c);
    }
  }

  lemma {:induction false} NoneGiven(children: seq<FlowForwarder>)
    ensures Sum(children, []) == 0
  {
    if children != [] {
      NoneGiven(children[1..]);
    }
  }

  lemma {:induction false} AllGiven(children: seq<FlowForwarder>, given: seq<FlowForwarder>)
    requires NoDuplicates(children) && forall c :: c in given ==> c in children
    ensures Sum(children, given) == |given|
  {
    if given == [] {
      NoneGiven(children);
    } else {
      var last := |given| - 1;
      assert given == given[..last] + [given[last]];
      AllGiven(children, given[..last]);
      OneMoreGiven(children, given[..last], given[last]);
    }
  }

  /** One occurrence less, the first one. */
  function WithoutFirst<T(==)>(list: seq<T>, x: T): seq<T> {
    if list == [] then []
    else if list[0] == x then list[1..]
    else [list[0]] + WithoutFirst(list[1..], x)
  }

  lemma WithoutNone<T>(x: T)
    ensures WithoutFirst([], x) == []
  {
  }

  lemma WithoutCons<T>(first: T, rest: seq<T>, x: T)
    ensures WithoutFirst([first] + rest, x) == if first == x then rest else [first] + WithoutFirst(rest, x)
  {
    assert ([first] + rest)[1..] == rest;
  }

  lemma {:induction false} WithoutAt<T>(list: seq<T>, x: T, i: nat)
    requires i <= |list| && x !in list[..i] && (i < |list| ==> list[i] == x)
    ensures WithoutFirst(list, x) == if i < |list| then list[..i] + list[i + 1..] else list
  {
    hide WithoutFirst;
    if list == [] {
      WithoutNone(x);
    } else {
      var first, rest := list[0], list[1..];
      assert list == [first] + rest;
      WithoutCons(first, rest, x);
      if i > 0 {
        assert list[..i] == [first] + rest[..i - 1];
        WithoutAt(rest, x, i - 1);
      }
    }
  }

  function WithoutAll<T(==)>(list: seq<T>, some: seq<T>): seq<T>
    decreases |some|
  {
    if some == [] then list else WithoutAll(WithoutFirst(list, some[0]), some[1..])
  }

  /** Switching the NIDS engine on takes the own forwarders out. */
  function NidsOn<T(==)>(list: seq<T>, own: seq<T>): seq<T> {
    WithoutAll(list, own)
  }

  /** Switching it off takes the generic forwarder out, and adds all of them. */
  function NidsOff<T(==)>(list: seq<T>, own: seq<T>, generic: T): seq<T> {
    WithoutFirst(list, generic) + own + [generic]
  }

  /** disableFlowForwarders of src/NetworkStack.cc. */
  method DisableFlowForwarders(ff: FlowForwarder, forwarders: seq<FlowForwarder>)
    requires ff.Valid()
    modifies ff`children
    ensures ff.Valid() && ff.children == WithoutAll(old(ff.children), forwarders)
  {
    var i := 0;
    while i < |forwarders|
      invariant i <= |forwarders| && ff.Valid()
      invariant WithoutAll(ff.children, forwarders[i..]) == WithoutAll(old(ff.children), forwarders)
    {
      assert forwarders[i..][1..] == forwarders[i + 1..];
      ff.RemoveUpFlowForwarder(forwarders[i]);
      i := i + 1;
    }
  }

  /** enableFlowForwarders of src/NetworkStack.cc. */
  method EnableFlowForwarders(ff: FlowForwarder, forwarders: seq<FlowForwarder>)
    requires ff.Valid() && ff !in forwarders
    modifies ff`children, ff`joined
    ensures ff.Valid() && ff.children == old(ff.children) + forwarders
  {
    for i := 0 to |forwarders|
      invariant ff.Valid() && ff.children == old(ff.children) + forwarders[..i]
    {
      ff.AddUpFlowForwarder(forwarders[i]);
      assert forwarders[..i + 1] == forwarders[..i] + [forwarders[i]];
    }
    assert forwarders[..|forwarders|] == forwarders;
  }

  /** enableNIDSEngine of src/StackLan.cc on one dispatcher, with its own forwarders and the generic one. */
  method EnableNidsEngine(ff: FlowForwarder, own: seq<FlowForwarder>, generic: FlowForwarder, enable: bool)
    requires ff.Valid() && ff !in own && ff != generic
    modifies ff`children, ff`joined
    ensures ff.Valid()
    ensures ff.children ==
            if enable then NidsOn(old(ff.children), own) else NidsOff(old(ff.children), own, generic)
  {
    if enable {
      DisableFlowForwarders(ff, own);
    } else {
      DisableFlowForwarders(ff, [generic]);
      WithoutOne(old(ff.children), generic);
      EnableFlowForwarders(ff, own + [generic]);
    }
  }

  lemma WithoutOne<T>(list: seq<T>, x: T)
    ensures WithoutAll(list, [x]) == WithoutFirst(list, x)
  {
    assert WithoutAll(WithoutFirst(list, x), [x][1..]) == WithoutFirst(list, x);
  }

  /** On and off again is as before. */
  lemma NidsRoundTrip<T>(own: seq<T>, generic: T)
    ensures NidsOff(NidsOn(own + [generic], own), own, generic) == own + [generic]
  {
    LeavesGeneric(own, generic);
  }

  lemma {:induction false} LeavesGeneric<T>(own: seq<T>, generic: T)
    ensures NidsOn(own + [generic], own) == [generic]
  {
    if own != [] {
      assert (own + [generic])[1..] == own[1..] + [generic];
      LeavesGeneric(own[1..], generic);
    }
  }

  /** Off restores the list only if nothing but the generic forwarder was in it: off without on doubles. */
  lemma NidsOffRestoresIff<T>(list: seq<T>, own: seq<T>, generic: T)
    ensures NidsOff(list, own, generic) == own + [generic] <==> list == [] || list == [generic]
  {
    if list != [] && |WithoutFirst(list, generic)| > 0 {
      assert |NidsOff(list, own, generic)| > |own| + 1;
    }
    if |list| > 1 {
      assert |WithoutFirst(list, generic)| > 0;
    }
  }
}
