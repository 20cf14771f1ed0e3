/** First-match dispatch: what the counters of the members of a list say about all the queries put to it. */
module Cascades {

  /** The place of the first yes, or the length if there is none. */
  function First(answers: seq<bool>): (n: nat)
    ensures n <= |answers| && forall i :: 0 <= i < n ==> !answers[i]
    ensures n < |answers| ==> answers[n]
  {
    if answers == [] || answers[0] then 0 else 1 + First(answers[1..])
  }

  /** How many queries a member said yes and no to. */
  datatype Count = Count(hits: nat, misses: int)

  /** What one more query that ends at n does to member i: those before n say no, n says yes,
      the others are not asked. */
  function Next(c: Count, i: nat, n: nat): Count {
    if i < n then Count(c.hits, c.misses + 1) else if i == n then Count(c.hits + 1, c.misses) else c
  }

  function Stop(counts: seq<Count>, n: nat): (r: seq<Count>)
    ensures |r| == |counts| && forall i :: 0 <= i < |counts| ==> r[i] == Next(counts[i], i, n)
  {
    seq(|counts|, i requires 0 <= i < |counts| => Next(counts[i], i, n))
  }

  /** Only the first n members were asked, and said no. */
  ghost predicate Missed(counts: seq<Count>, now: seq<Count>, n: nat) {
    && |now| == |counts|
    && forall i :: 0 <= i < |counts| ==>
         now[i] == if i < n then Count(counts[i].hits, counts[i].misses + 1) else counts[i]
  }

  /** A member that is asked answers yes or no. */
  function Answer(counts: seq<Count>, i: nat, yes: bool): seq<Count>
    requires i < |counts|
  {
    counts[i := if yes then Count(counts[i].hits + 1, counts[i].misses)
                else Count(counts[i].hits, counts[i].misses + 1)]
  }

  lemma NoneAsked(counts: seq<Count>)
    ensures Missed(counts, counts, 0)
  {
  }

  lemma OneMoreAnswer(counts: seq<Count>, now: seq<Count>, n: nat, yes: bool)
    requires n < |counts| == |now| && Missed(counts, now, n)
    ensures yes ==> Answer(now, n, yes) == Stop(counts, n)
    ensures !yes ==> Missed(counts, Answer(now, n, yes), n + 1)
  {
  }

  lemma AllMissed(counts: seq<Count>, now: seq<Count>)
    requires Missed(counts, now, |counts|)
    ensures now == Stop(counts, |counts|)
  {
  }

  /** Queries that went past the first k members. */
  function Past(queries: nat, counts: seq<Count>, k: nat): int
    requires k <= |counts|
  {
    if k == 0 then queries else counts[k - 1].misses
  }

  /** Member k is asked what its predecessor missed, from the moment it joined the list on; late is the
      predecessor's misses at that moment, less what the newcomer had already been asked elsewhere. */
  ghost predicate Linked(queries: nat, counts: seq<Count>, late: seq<int>, k: nat)
    requires k < |counts| == |late|
  {
    counts[k].hits + counts[k].misses + late[k] == Past(queries, counts, k)
  }

  ghost predicate Chained(queries: nat, counts: seq<Count>, late: seq<int>) {
    && |late| == |counts|
    && forall k {:trigger Linked(queries, counts, late, k)} :: 0 <= k < |counts| ==> Linked(queries, counts, late, k)
  }

  lemma StopKeepsChain(queries: nat, counts: seq<Count>, late: seq<int>, n: nat)
    requires Chained(queries, counts, late) && n <= |counts|
    ensures Chained(queries + 1, Stop(counts, n), late)
  {
    var q, stopped := queries + 1, Stop(counts, n);
    forall k | 0 <= k < |counts|
      ensures Linked(q, stopped, late, k)
    {
      assert Linked(queries, counts, late, k);
    }
  }

  lemma OneMoreMember(queries: nat, counts: seq<Count>, late: seq<int>, c: Count)
    requires Chained(queries, counts, late)
    ensures Chained(queries, counts + [c], late + [Past(queries, counts, |counts|) - c.hits - c.misses])
  {
    var more, later := counts + [c], late + [Past(queries, counts, |counts|) - c.hits - c.misses];
    forall k | 0 <= k < |counts|
      ensures Linked(queries, more, later, k)
    {
      assert Linked(queries, counts, late, k);
    }
  }

  function TotalHits(counts: seq<Count>): nat {
    if counts == [] then 0 else TotalHits(counts[..|counts| - 1]) + counts[|counts| - 1].hits
  }

  lemma {:induction false} StopAddsOneHit(counts: seq<Count>, n: nat)
    ensures TotalHits(Stop(counts, n)) == TotalHits(counts) + if n < |counts| then 1 else 0
  {
    if counts != [] {
      var last := |counts| - 1;
      StopAddsOneHit(counts[..last], n);
      assert Stop(counts, n)[..last] == Stop(counts[..last], n);
    }
  }

  lemma OneMoreHitCount(counts: seq<Count>, c: Count)
    ensures TotalHits(counts + [c]) == TotalHits(counts) + c.hits
  {
    assert (counts + [c])[..|counts|] == counts;
  }

  /** All members joined before the first query. */
  ghost predicate NoneLate(late: seq<int>) {
    forall k :: 0 <= k < |late| ==> late[k] == 0
  }

  /** In such a list each member is asked exactly what its predecessor missed. */
  lemma AskedIsMissedBefore(queries: nat, counts: seq<Count>, late: seq<int>, k: nat)
    requires Chained(queries, counts, late) && NoneLate(late) && k < |counts|
    ensures counts[k].hits + counts[k].misses == if k == 0 then queries else counts[k - 1].misses
  {
    assert Linked(queries, counts, late, k);
  }

  /** And every query is a hit of one member or a miss of the last one. */
  lemma {:induction false} EveryQueryEndsOnce(queries: nat, counts: seq<Count>, late: seq<int>)
    requires Chained(queries, counts, late) && NoneLate(late)
    ensures TotalHits(counts) + Past(queries, counts, |counts|) == queries
  {
    if counts != [] {
      var last := |counts| - 1;
      var before, earlier := counts[..last], late[..last];
      forall k | 0 <= k < last
        ensures Linked(queries, before, earlier, k)
      {
        assert Linked(queries, counts, late, k);
      }
      EveryQueryEndsOnce(queries, before, earlier);
      AskedIsMissedBefore(queries, counts, late, last);
    }
  }

  /** A fresh member that joins before the first query has nothing to make up for. */
  lemma JoinsInTime(queries: nat, counts: seq<Count>, late: seq<int>, c: Count)
    requires Chained(queries, counts, late)
    ensures queries == 0 && TotalHits(counts) == 0 && c == Count(0, 0) && NoneLate(late) ==>
              NoneLate(late + [Past(queries, counts, |counts|) - c.hits - c.misses])
  {
    if NoneLate(late) {
      EveryQueryEndsOnce(queries, counts, late);
    }
  }
}

/** src/ipset: sets of addresses, asked one after the other. */
module IPSets {
  import opened Common
  import opened Cascades

  class IPSet {
    var addresses: set<string>
    var totalIps: nat
    var totalIpsOnSet: nat
    var totalIpsNotOnSet: nat

    constructor ()
      ensures addresses == {} && totalIps == 0 && Asked() == Count(0, 0)
    {
      addresses, totalIps, totalIpsOnSet, totalIpsNotOnSet := {}, 0, 0, 0;
    }

    ghost function Asked(): Count
      reads this
    {
      Count(totalIpsOnSet, totalIpsNotOnSet)
    }

    /** An address added twice is counted twice. */
    method AddIPAddress(ip: string)
      modifies this`addresses, this`totalIps
      ensures addresses == old(addresses) + {ip} && totalIps == old(totalIps) + 1
    {
      addresses := addresses + {ip};
      totalIps := totalIps + 1;
    }

    method LookupIPAddress(ip: string) returns (found: bool)
      modifies this`totalIpsOnSet, this`totalIpsNotOnSet
      ensures found == (ip in addresses)
      ensures totalIpsOnSet == old(totalIpsOnSet) + if found then 1 else 0
      ensures totalIpsNotOnSet == old(totalIpsNotOnSet) + if found then 0 else 1
    {
      if ip in addresses {
        totalIpsOnSet := totalIpsOnSet + 1;
        return true;
      }
      totalIpsNotOnSet := totalIpsNotOnSet + 1;
      return false;
    }
  }

  class IPSetManager {
    var sets: seq<IPSet>
    var matchedSet: IPSet?
    ghost var queries: nat
    ghost var late: seq<int>

    ghost function Counts(): (c: seq<Count>)
      reads this`sets, sets
      ensures |c| == |sets|
    {
      var all := sets;
      seq(|all|, i requires 0 <= i < |all| reads all => all[i].Asked())
    }

    ghost predicate Valid()
      reads this, sets
    {
      && NoDuplicates(sets)
      && Chained(queries, Counts(), late)
    }

    ghost function Answers(ip: string): (a: seq<bool>)
      reads this`sets, sets
      ensures |a| == |sets|
    {
      var all := sets;
      seq(|all|, i requires 0 <= i < |all| reads all => ip in all[i].addresses)
    }

    constructor ()
      ensures Valid() && sets == [] && matchedSet == null && queries == 0
    {
      sets, matchedSet, queries, late := [], null, 0, [];
    }

    method AddIPSet(s: IPSet)
      requires Valid() && s !in sets
      modifies this`sets, this`late
      ensures Valid() && sets == old(sets) + [s] && late[..|old(late)|] == old(late)
      ensures queries == 0 && s.Asked() == Count(0, 0) && NoneLate(old(late)) ==> NoneLate(late)
    {
      OneMoreMember(queries, Counts(), late, s.Asked());
      if queries == 0 && NoneLate(late) {
        EveryQueryEndsOnce(queries, Counts(), late);
      }
      ghost var d := Past(queries, Counts(), |sets|) - s.Asked().hits - s.Asked().misses;
      sets, late := sets + [s], late + [d];
      assert Counts() == old(Counts()) + [s.Asked()];
    }

    method Ask(i: nat, ip: string) returns (found: bool)
      requires i < |sets| && NoDuplicates(sets)
      modifies sets`totalIpsOnSet, sets`totalIpsNotOnSet
      ensures Answers(ip) == old(Answers(ip)) && found == Answers(ip)[i]
      ensures Counts() == Answer(old(Counts()), i, found)
    {
      found := sets[i].LookupIPAddress(ip);
    }

    /** The first set in list order that holds the address. */
    method LookupIPAddress(ip: string) returns (found: bool)
      requires Valid()
      modifies this`matchedSet, this`queries, sets`totalIpsOnSet, sets`totalIpsNotOnSet
      ensures Valid()
      ensures queries == old(queries) + 1
      ensures Counts() == Stop(old(Counts()), First(old(Answers(ip))))
      ensures var n := First(old(Answers(ip)));
        if n < |sets| then found && matchedSet == sets[n] else !found && matchedSet == null
    {
      hide Missed, Stop, Chained, Answer, NoDuplicates, Counts, Answers;
      ghost var answers, counts := Answers(ip), Counts();
      ghost var n := First(answers);
      ghost var now := counts;
      NoneAsked(counts);
      matchedSet := null;
      queries := queries + 1;
      var i := 0;
      while i < |sets|
        invariant queries == old(queries) + 1 && matchedSet == null
        invariant i <= n && |now| == |counts| && Answers(ip) == answers && Counts() == now && Missed(counts, now, i)
      {
        OneMoreAnswer(counts, now, i, answers[i]);
        now := Answer(now, i, answers[i]);
        var value := Ask(i, ip);
        if value {
          matchedSet := sets[i];
          StopKeepsChain(old(queries), counts, late, i);
          return true;
        }
        i := i + 1;
      }
      AllMissed(counts, now);
      StopKeepsChain(old(queries), counts, late, i);
      return false;
    }

    /** In a manager filled with unused sets before use: the lookups of set k are the misses of set k - 1. */
    lemma LookupsPassOn(k: nat)
      requires Valid() && NoneLate(late) && k < |sets|
      ensures sets[k].totalIpsOnSet + sets[k].totalIpsNotOnSet ==
              if k == 0 then queries else sets[k - 1].totalIpsNotOnSet
      ensures queries == TotalHits(Counts()) + sets[|sets| - 1].totalIpsNotOnSet
    {
      AskedIsMissedBefore(queries, Counts(), late, k);
      EveryQueryEndsOnce(queries, Counts(), late);
    }
  }
}

/** src/regex: expressions, evaluated one after the other. */
module Regexes {
  import opened Common
  import opened Cascades

  class Regex {
    const matches: seq<byte> -> bool
    var totalMatchs: nat
    var totalEvaluates: nat

    constructor (matches: seq<byte> -> bool)
      ensures this.matches == matches && Asked() == Count(0, 0)
    {
      this.matches, totalMatchs, totalEvaluates := matches, 0, 0;
    }

    ghost function Asked(): Count
      reads this
    {
      Count(totalMatchs, totalEvaluates - totalMatchs)
    }

    method Evaluate(data: seq<byte>) returns (result: bool)
      modifies this
      ensures result == matches(data)
      ensures totalEvaluates == old(totalEvaluates) + 1
      ensures totalMatchs == old(totalMatchs) + if result then 1 else 0
    {
      result := matches(data);
      if result {
        totalMatchs := totalMatchs + 1;
      }
      totalEvaluates := totalEvaluates + 1;
    }
  }

  class RegexManager {
    var signatures: seq<Regex>
    var currentSignature: Regex?
    var totalMatchedSignatures: nat
    ghost var queries: nat
    ghost var late: seq<int>
    // matches the members had when they joined
    ghost var elsewhere: nat

    ghost function Counts(): (c: seq<Count>)
      reads this`signatures, signatures
      ensures |c| == |signatures|
    {
      var all := signatures;
      seq(|all|, i requires 0 <= i < |all| reads all => all[i].Asked())
    }

    ghost function Answers(data: seq<byte>): (a: seq<bool>)
      reads this`signatures
      ensures |a| == |signatures|
    {
      var all := signatures;
      seq(|all|, i requires 0 <= i < |all| => all[i].matches(data))
    }

    ghost predicate Valid()
      reads this, signatures
    {
      && NoDuplicates(signatures)
      && Chained(queries, Counts(), late)
      && TotalHits(Counts()) == totalMatchedSignatures + elsewhere
    }

    constructor ()
      ensures Valid() && signatures == [] && currentSignature == null
      ensures queries == 0 && totalMatchedSignatures == 0 && elsewhere == 0
    {
      signatures, currentSignature, totalMatchedSignatures := [], null, 0;
      queries, late, elsewhere := 0, [], 0;
    }

    method AddRegex(r: Regex)
      requires Valid() && r !in signatures
      modifies this`signatures, this`late, this`elsewhere
      ensures Valid() && signatures == old(signatures) + [r] && late[..|old(late)|] == old(late)
      ensures queries == totalMatchedSignatures + old(elsewhere) == 0 && r.Asked() == Count(0, 0) ==>
                NoneLate(old(late)) ==> NoneLate(late)
      ensures elsewhere == old(elsewhere) + r.totalMatchs
    {
      hide Chained, NoneLate, TotalHits, Past, NoDuplicates;
      OneMoreMember(queries, Counts(), late, r.Asked());
      OneMoreHitCount(Counts(), r.Asked());
      JoinsInTime(queries, Counts(), late, r.Asked());
      OneMoreDifferent(signatures, r);
      ghost var d := Past(queries, Counts(), |signatures|) - r.Asked().hits - r.Asked().misses;
      signatures, late, elsewhere := signatures + [r], late + [d], elsewhere + r.totalMatchs;
      assert Counts() == old(Counts()) + [r.Asked()];
    }

    method Ask(i: nat, data: seq<byte>) returns (found: bool)
      requires i < |signatures| && NoDuplicates(signatures)
      modifies signatures
      ensures found == Answers(data)[i]
      ensures Counts() == Answer(old(Counts()), i, found)
    {
      found := signatures[i].Evaluate(data);
    }

    /** The first expression in list order that matches. result comes in from outside and is only ever set. */
    method Evaluate(data: seq<byte>, given: bool) returns (result: bool)
      requires Valid()
      modifies this`currentSignature, this`queries, this`totalMatchedSignatures, signatures
      ensures Valid()
      ensures queries == old(queries) + 1
      ensures Counts() == Stop(old(Counts()), First(Answers(data)))
      ensures var n := First(Answers(data));
        if n < |signatures| then
          result && currentSignature == signatures[n] && totalMatchedSignatures == old(totalMatchedSignatures) + 1
        else
          result == given && currentSignature == null && totalMatchedSignatures == old(totalMatchedSignatures)
    {
      hide Missed, Stop, Chained, Answer, NoDuplicates, Counts, Answers, TotalHits;
      result := given;
      ghost var answers, counts := Answers(data), Counts();
      ghost var n := First(answers);
      ghost var now := counts;
      NoneAsked(counts);
      currentSignature := null;
      queries := queries + 1;
      var i := 0;
      while i < |signatures|
        invariant queries == old(queries) + 1 && currentSignature == null
        invariant totalMatchedSignatures == old(totalMatchedSignatures) && result == given
        invariant i <= n && |now| == |counts| && Counts() == now && Missed(counts, now, i)
      {
        OneMoreAnswer(counts, now, i, answers[i]);
        now := Answer(now, i, answers[i]);
        var value := Ask(i, data);
        if value {
          totalMatchedSignatures := totalMatchedSignatures + 1;
          currentSignature := signatures[i];
          result := true;
          break;
        }
        i := i + 1;
      }
      if i == |signatures| {
        AllMissed(counts, now);
      }
      StopKeepsChain(old(queries), counts, late, i);
      StopAddsOneHit(counts, i);
    }

    /** In a manager filled with unused expressions before use: expression k is evaluated exactly as often as
        expression k - 1 was evaluated and did not match; the matches of all of them add up to the manager's. */
    lemma EvaluationsPassOn(k: nat)
      requires Valid() && NoneLate(late) && elsewhere == 0 && k < |signatures|
      ensures signatures[k].totalEvaluates ==
              if k == 0 then queries else signatures[k - 1].totalEvaluates - signatures[k - 1].totalMatchs
      ensures TotalHits(Counts()) == totalMatchedSignatures
      ensures var last := signatures[|signatures| - 1];
        queries == totalMatchedSignatures + last.totalEvaluates - last.totalMatchs
    {
      AskedIsMissedBefore(queries, Counts(), late, k);
      EveryQueryEndsOnce(queries, Counts(), late);
    }
  }
}
