/** The byte statistics of src/learner/LearnerEngine.cc and the expression computed from them. */
module LearnerStatistics {
  import opened Common
  import opened LearnerRegex

  type Payload = seq<byte>

  /** The bytes seen at an offset, one for each payload that reaches it. */
  function Column(seen: seq<Payload>, offset: nat): seq<byte> {
    if seen == [] then []
    else
      var front, last := Column(seen[..|seen| - 1], offset), seen[|seen| - 1];
      if offset < |last| then front + [last[offset]] else front
  }

  /** How many payloads are longer than offset. */
  function Longer(seen: seq<Payload>, offset: nat): nat {
    |set i | 0 <= i < |seen| && offset < |seen[i]| :: i|
  }

  function MaxLength(seen: seq<Payload>): nat {
    if seen == [] then 0
    else
      var front, last := MaxLength(seen[..|seen| - 1]), |seen[|seen| - 1]|;
      if front < last then last else front
  }

  /** The histogram at an offset holds exactly the number of occurrences of each byte. */
  ghost predicate Counts(histogram: map<byte, nat>, bytes: seq<byte>) {
    && (forall b :: b in histogram <==> b in bytes)
    && (forall b :: b in histogram ==> histogram[b] == multiset(bytes)[b])
  }

  /** Sum of the values of a histogram. */
  ghost function Total(histogram: map<byte, nat>): nat {
    if histogram == map[] then 0
    else
      var b :| b in histogram;
      histogram[b] + Total(histogram - {b})
  }

  function Count(histogram: map<byte, nat>, b: byte): nat {
    if b in histogram then histogram[b] else 0
  }

  function Bump(histogram: map<byte, nat>, b: byte): map<byte, nat> {
    histogram[b := Count(histogram, b) + 1]
  }

  /** The histogram of a column: how often each byte occurs in it. */
  function HistogramOf(bytes: seq<byte>): map<byte, nat> {
    if bytes == [] then map[] else Bump(HistogramOf(bytes[..|bytes| - 1]), bytes[|bytes| - 1])
  }

  predicate IsModal(histogram: map<byte, nat>, b: byte) {
    b in histogram && forall c :: c in histogram ==> histogram[c] <= histogram[b]
  }

  /** Integer division of C++: the quotient is cut towards zero. */
  function TruncDiv(a: int, n: int): int
    requires n > 0
  {
    if a >= 0 then a / n else -((-a) / n)
  }

  /** getQualityByte on an offset inside the array: the guard asks for payloads, not for bytes at the offset. */
  function Quality(distinct: nat, items: nat): int {
    if items > 0 then 100 - TruncDiv((distinct - 1) * 100, items) else 0
  }

  // ---------------------------------------------------------------- the statistics

  lemma {:induction false} TotalSplit(histogram: map<byte, nat>, b: byte)
    requires b in histogram
    ensures Total(histogram) == histogram[b] + Total(histogram - {b})
    decreases |histogram|
  {
    var c :| c in histogram && Total(histogram) == histogram[c] + Total(histogram - {c});
    if c != b {
      assert |histogram - {c}| < |histogram| && |histogram - {b}| < |histogram|;
      TotalSplit(histogram - {c}, b);
      TotalSplit(histogram - {b}, c);
      assert histogram - {c} - {b} == histogram - {b} - {c};
    }
  }

  lemma TotalBump(histogram: map<byte, nat>, b: byte)
    ensures Total(Bump(histogram, b)) == Total(histogram) + 1
  {
    var bumped := Bump(histogram, b);
    TotalSplit(bumped, b);
    assert bumped - {b} == histogram - {b};
    if b in histogram {
      TotalSplit(histogram, b);
    } else {
      assert histogram - {b} == histogram;
    }
  }

  lemma CountsBump(histogram: map<byte, nat>, bytes: seq<byte>, b: byte)
    requires Counts(histogram, bytes)
    ensures Counts(Bump(histogram, b), bytes + [b])
  {
    assert multiset(bytes + [b]) == multiset(bytes) + multiset{b};
    forall c | c in bytes + [b]
      ensures c in Bump(histogram, b)
    {
    }
  }

  lemma {:induction false} ColumnCountsLonger(seen: seq<Payload>, offset: nat)
    ensures |Column(seen, offset)| == Longer(seen, offset) <= |seen|
  {
    if seen != [] {
      var n := |seen| - 1;
      var front := seen[..n];
      ColumnCountsLonger(front, offset);
      var before := set i | 0 <= i < |front| && offset < |front[i]| :: i;
      var after := set i | 0 <= i < |seen| && offset < |seen[i]| :: i;
      assert after == if offset < |seen[n]| then before + {n} else before;
    }
  }

  /** How often a byte stands in the column of an offset: by how many payloads have it there. */
  lemma {:induction false} ColumnCounts(seen: seq<Payload>, offset: nat, b: byte)
    ensures multiset(Column(seen, offset))[b] == |Having(seen, offset, b)|
  {
    hide Having;
    if seen == [] {
      NoneHaving(offset, b);
    } else {
      var n := |seen| - 1;
      ColumnCounts(seen[..n], offset, b);
      OneMoreHaving(seen, offset, b);
      if offset < |seen[n]| {
        MultisetSnoc(Column(seen[..n], offset), seen[n][offset], b);
      }
    }
  }

  lemma MultisetSnoc(bytes: seq<byte>, c: byte, b: byte)
    ensures multiset(bytes + [c])[b] == multiset(bytes)[b] + if c == b then 1 else 0
  {
  }

  /** The payloads that have b at the offset. */
  function Having(seen: seq<Payload>, offset: nat, b: byte): set<nat> {
    set i: nat | i < |seen| && offset < |seen[i]| && seen[i][offset] == b
  }

  lemma NoneHaving(offset: nat, b: byte)
    ensures |Having([], offset, b)| == 0
  {
  }

  lemma OneMoreHaving(seen: seq<Payload>, offset: nat, b: byte)
    requires seen != []
    ensures var n := |seen| - 1;
      |Having(seen, offset, b)| ==
      |Having(seen[..n], offset, b)| + if offset < |seen[n]| && seen[n][offset] == b then 1 else 0
  {
    var n := |seen| - 1;
    var before, after := Having(seen[..n], offset, b), Having(seen, offset, b);
    if offset < |seen[n]| && seen[n][offset] == b {
      assert after == before + {n};
    } else {
      assert after == before;
    }
  }

  lemma {:induction false} HistogramCounts(bytes: seq<byte>)
    ensures Counts(HistogramOf(bytes), bytes)
    ensures Total(HistogramOf(bytes)) == |bytes|
  {
    if bytes != [] {
      var front, b := bytes[..|bytes| - 1], bytes[|bytes| - 1];
      assert bytes == front + [b];
      HistogramCounts(front);
      CountsBump(HistogramOf(front), front, b);
      TotalBump(HistogramOf(front), b);
    }
  }

  lemma {:induction false} TotalBounds(histogram: map<byte, nat>, limit: nat)
    requires forall b :: b in histogram ==> 1 <= histogram[b] <= limit
    ensures |histogram| <= Total(histogram) <= |histogram| * limit
    decreases |histogram|
  {
    if histogram != map[] {
      var b :| b in histogram;
      TotalSplit(histogram, b);
      var rest := histogram - {b};
      assert |rest| == |histogram| - 1;
      TotalBounds(rest, limit);
      MulSucc(|rest|, limit);
    }
  }

  lemma MulSucc(n: nat, limit: nat)
    ensures (n + 1) * limit == n * limit + limit
  {
  }

  /** The counts at an offset sum to the number of longer payloads; there are at most as many different bytes
      as payloads, and a modal byte is at least as frequent as the average. */
  lemma HistogramFacts(seen: seq<Payload>, offset: nat, modal: byte)
    requires IsModal(HistogramOf(Column(seen, offset)), modal)
    ensures var histogram := HistogramOf(Column(seen, offset));
      && Total(histogram) == Longer(seen, offset)
      && 1 <= |histogram| <= Longer(seen, offset) <= |seen|
      && histogram[modal] == multiset(Column(seen, offset))[modal]
      && histogram[modal] * |histogram| >= Longer(seen, offset)
  {
    var bytes := Column(seen, offset);
    var histogram := HistogramOf(bytes);
    HistogramCounts(bytes);
    ColumnCountsLonger(seen, offset);
    TotalBounds(histogram, histogram[modal]);
    assert |histogram| > 0 by { assert modal in histogram.Keys; }
  }

  lemma DivBelow(a: nat, n: nat, k: nat)
    requires n > 0
    ensures a / n < k <==> a < k * n
  {
    var q := a / n;
    assert q * n <= a < q * n + n;
    if q < k {
      MulMonotone(q + 1, k, n);
    } else {
      MulMonotone(k, q, n);
    }
  }

  lemma MulMonotone(a: nat, b: nat, n: nat)
    requires a <= b
    ensures a * n <= b * n
  {
  }

  /** The quality threshold of compute, without the rounding. */
  lemma QualityThreshold(distinct: nat, items: nat)
    requires 1 <= distinct <= items
    ensures var q := Quality(distinct, items);
      (100 - q) * items <= 100 * (distinct - 1) < (101 - q) * items
    ensures 1 <= Quality(distinct, items) <= 100
    ensures Quality(distinct, items) > 80 <==> 5 * (distinct - 1) < items
  {
    DivBelow((distinct - 1) * 100, items, 100);
    DivBelow((distinct - 1) * 100, items, 20);
  }

  /** Offsets that no payload reached get a quality above that of any other. */
  lemma UnseenQuality(items: nat)
    ensures Quality(0, items) == if items > 0 then 100 + 100 / items else 0
  {
  }

  /** An offset below the longest length was seen by some payload. */
  lemma {:induction false} SeenBelowMaxLength(seen: seq<Payload>, offset: nat)
    ensures Column(seen, offset) != [] <==> offset < MaxLength(seen)
  {
    if seen != [] {
      SeenBelowMaxLength(seen[..|seen| - 1], offset);
    }
  }
}

module Learner {
  import opened Common
  import opened LearnerRegex
  import opened LearnerLanguage
  import opened LearnerStatistics

  const MAX_PACKET_FREQUENCIES_VALUES := 4096

  function Distinct(seen: seq<Payload>, offset: nat): nat {
    |set b | b in Column(seen, offset)|
  }

  /** The conversion of a stored frequency to unsigned char. */
  function Bytes(freqs: seq<int>): (p: Payload)
    ensures |p| == |freqs|
  {
    seq(|freqs|, i requires 0 <= i < |freqs| => freqs[i] % 256)
  }

  /** How a payload lies in memory as chars: a byte, or a byte from 128 on as a negative char. */
  predicate StoredAs(p: Payload, freqs: seq<int>) {
    |p| == |freqs| && forall i :: 0 <= i < |p| ==> freqs[i] == p[i] || (p[i] >= 128 && freqs[i] + 256 == p[i])
  }

  /** Every byte is counted as it came in, whether chars are signed or not. */
  lemma BytesAsTheyCame(p: Payload, freqs: seq<int>)
    requires StoredAs(p, freqs)
    ensures Bytes(freqs) == p
  {
  }

  predicate MostFrequent(b: byte, bytes: seq<byte>) {
    b in bytes && forall c :: c in bytes ==> multiset(bytes)[c] <= multiset(bytes)[b]
  }

  /** What compute derives from the payloads: an offset is kept when its bytes vary little, with a most
      frequent byte. */
  ghost predicate Learned(seen: seq<Payload>, limit: int, tokens: seq<Token>) {
    && |tokens| == (if limit < 0 then 0 else if MaxLength(seen) > limit then limit else MaxLength(seen))
    && AllRight(seen, tokens)
  }

  ghost predicate AllRight(seen: seq<Payload>, tokens: seq<Token>) {
    forall i :: 0 <= i < |tokens| ==> RightAt(seen, i, tokens[i])
  }

  ghost predicate RightAt(seen: seq<Payload>, i: nat, t: Token) {
    && (t.Byte? <==> 5 * (Distinct(seen, i) - 1) < |seen|)
    && (t.Byte? ==> MostFrequent(t.b, Column(seen, i)))
  }

  lemma AllRightAppend(seen: seq<Payload>, tokens: seq<Token>, t: Token)
    requires AllRight(seen, tokens) && RightAt(seen, |tokens|, t)
    ensures AllRight(seen, tokens + [t])
  {
    forall i | 0 <= i < |tokens + [t]|
      ensures RightAt(seen, i, (tokens + [t])[i])
    {
    }
  }

  /** All payloads carry the same byte wherever they overlap. */
  ghost predicate Unanimous(seen: seq<Payload>) {
    forall i, j, k :: 0 <= i < |seen| && 0 <= j < |seen| && 0 <= k < |seen[i]| && k < |seen[j]| ==>
                        seen[i][k] == seen[j][k]
  }

  // ---------------------------------------------------------------- what was learned

  lemma {:induction false} InColumn(seen: seq<Payload>, k: nat, b: byte)
    ensures b in Column(seen, k) <==> exists i :: 0 <= i < |seen| && k < |seen[i]| && seen[i][k] == b
  {
    if seen != [] {
      var n := |seen| - 1;
      var front := seen[..n];
      InColumn(front, k, b);
      if i :| 0 <= i < |seen| && k < |seen[i]| && seen[i][k] == b {
        assert i < n ==> front[i] == seen[i];
      }
      if i :| 0 <= i < |front| && k < |front[i]| && front[i][k] == b {
        assert seen[i] == front[i];
      }
    }
  }

  lemma DistinctIsHistogramSize(seen: seq<Payload>, k: nat)
    ensures |HistogramOf(Column(seen, k))| == Distinct(seen, k) <= |seen|
    ensures Distinct(seen, k) > 0 <==> k < MaxLength(seen)
  {
    var bytes := Column(seen, k);
    HistogramCounts(bytes);
    var histogram := HistogramOf(bytes);
    assert histogram.Keys == set b | b in bytes;
    SeenBelowMaxLength(seen, k);
    if bytes != [] {
      assert bytes[0] in histogram.Keys;
      var modal := SomeModal(histogram, bytes[0]);
      HistogramFacts(seen, k, modal);
    }
  }

  lemma {:induction false} SomeModal(histogram: map<byte, nat>, b: byte) returns (modal: byte)
    requires b in histogram
    ensures IsModal(histogram, modal) && histogram[modal] >= histogram[b]
    decreases |histogram|
  {
    modal := b;
    if c :| c in histogram && histogram[c] > histogram[b] {
      var rest := histogram - {b};
      assert |rest| < |histogram|;
      modal := SomeModal(rest, c);
      assert forall d :: d in histogram && d != b ==> d in rest && rest[d] == histogram[d];
    }
  }

  /** From unanimous payloads every offset is kept, and every payload that is long enough is matched. */
  lemma UnanimousPayloadsMatch(seen: seq<Payload>, limit: int, tokens: seq<Token>, n: nat)
    requires Learned(seen, limit, tokens) && Unanimous(seen)
    requires n < |seen| && |tokens| <= |seen[n]|
    ensures forall i :: 0 <= i < |tokens| ==> tokens[i] == Byte(seen[n][i])
    ensures Matches(Compact(tokens), seen[n])
  {
    forall k | 0 <= k < |tokens|
      ensures tokens[k] == Byte(seen[n][k])
    {
      var bytes := Column(seen, k);
      var b := seen[n][k];
      assert RightAt(seen, k, tokens[k]);
      InColumn(seen, k, b);
      forall c | c in bytes
        ensures c == b
      {
        InColumn(seen, k, c);
      }
      assert (set c | c in bytes) == {b};
    }
    AgreeingPayloadMatches(tokens, seen[n]);
  }

  lemma {:induction false} PrintAppend(tokens: seq<Token>, t: Token)
    ensures Print(tokens + [t]) == Print(tokens) + PrintToken(t)
  {
    hide PrintToken;
    if tokens == [] {
      assert tokens + [t] == [t];
    } else {
      var rest := tokens[1..];
      PrintAppend(rest, t);
      assert (tokens + [t])[1..] == rest + [t];
    }
  }

  lemma {:induction false} KeptBytesAppend(tokens: seq<Token>, t: Token)
    ensures KeptBytes(tokens + [t]) == KeptBytes(tokens) + if t.Byte? then [t.b] else []
  {
    if tokens == [] {
      assert tokens + [t] == [t];
    } else {
      KeptBytesAppend(tokens[1..], t);
      assert (tokens + [t])[1..] == tokens[1..] + [t];
    }
  }

  lemma {:induction false} HexTextAppend(bytes: seq<byte>, b: byte)
    ensures HexText(bytes + [b]) == HexText(bytes) + HexByte(b)
  {
    if bytes == [] {
      assert bytes + [b] == [b];
    } else {
      HexTextAppend(bytes[1..], b);
      assert (bytes + [b])[1..] == bytes[1..] + [b];
    }
  }

  /** One more token: the text and the hex text grow by its own. */
  lemma TokenAppend(tokens: seq<Token>, t: Token)
    ensures Print(tokens + [t]) == Print(tokens) + PrintToken(t)
    ensures HexText(KeptBytes(tokens + [t])) == HexText(KeptBytes(tokens)) + if t.Byte? then HexByte(t.b) else ""
  {
    PrintAppend(tokens, t);
    KeptBytesAppend(tokens, t);
    if t.Byte? {
      HexTextAppend(KeptBytes(tokens), t.b);
    } else {
      assert KeptBytes(tokens) + [] == KeptBytes(tokens);
    }
  }

  ghost predicate Printed(expr: string, rawExpr: string, tokens: seq<Token>) {
    expr == "^" + Print(tokens) && rawExpr == HexText(KeptBytes(tokens))
  }

  lemma PrintedAppend(expr: string, rawExpr: string, tokens: seq<Token>, token: string, rawToken: string, t: Token)
    requires Printed(expr, rawExpr, tokens)
    requires token == PrintToken(t) && rawToken == if t.Byte? then HexByte(t.b) else ""
    ensures Printed(expr + token, rawExpr + rawToken, tokens + [t])
  {
    hide Print, PrintToken, HexText, HexByte, KeptBytes;
    TokenAppend(tokens, t);
    assert ("^" + Print(tokens)) + token == "^" + (Print(tokens) + token);
  }

  // ---------------------------------------------------------------- the engine

  class LearnerEngine {
    var length: nat
    var items: nat
    var maxRawExpression: int
    var rawExpression: string
    var regexExpression: string
    const q: array<map<byte, nat>>
    ghost var seen: seq<Payload>

    ghost predicate Valid()
      reads this, q
    {
      && q.Length == MAX_PACKET_FREQUENCIES_VALUES
      && items == |seen|
      && length == MaxLength(seen) <= q.Length
      && |rawExpression| % 2 == 0
      && CountsAll()
    }

    /** Every histogram is that of the bytes seen at its offset. */
    ghost predicate CountsAll()
      reads this`seen, q
    {
      forall i :: 0 <= i < q.Length ==> q[i] == HistogramOf(Column(seen, i))
    }

    constructor ()
      ensures Valid() && fresh(q) && seen == [] && maxRawExpression == 64
    {
      length, items, maxRawExpression := 0, 0, 64;
      rawExpression, regexExpression := "", "";
      q := new map<byte, nat>[MAX_PACKET_FREQUENCIES_VALUES](_ => map[]);
      seen := [];
    }

    method Reset()
      requires Valid()
      modifies this, q
      ensures Valid() && seen == [] && maxRawExpression == old(maxRawExpression)
      ensures rawExpression == "" && regexExpression == ""
    {
      items, length := 0, 0;
      rawExpression, regexExpression := "", "";
      seen := [];
      for i := 0 to MAX_PACKET_FREQUENCIES_VALUES
        invariant items == length == 0 && rawExpression == regexExpression == "" && seen == []
        invariant maxRawExpression == old(maxRawExpression)
        invariant forall k :: 0 <= k < i ==> q[k] == map[]
      {
        q[i] := map[];
      }
    }

    /** Adds one payload to the histograms of the offsets it reaches. */
    method AgregatePacketFlow(freqs: seq<int>)
      requires Valid() && |freqs| <= MAX_PACKET_FREQUENCIES_VALUES
      modifies this, q
      ensures Valid() && seen == old(seen) + [Bytes(freqs)]
      ensures maxRawExpression == old(maxRawExpression)
      ensures rawExpression == old(rawExpression) && regexExpression == old(regexExpression)
    {
      ghost var p := Bytes(freqs);
      forall k | 0 <= k < q.Length
        ensures HistogramOf(Column(seen + [p], k)) ==
                if k < |p| then Bump(HistogramOf(Column(seen, k)), p[k]) else HistogramOf(Column(seen, k))
      {
        ColumnAppend(seen, p, k);
      }
      items := items + 1;
      CountBytes(freqs);
      if length < |freqs| {
        length := |freqs|;
      }
      assert (seen + [p])[..|seen|] == seen;
      seen := seen + [p];
    }

    /** The loop over the offsets of one payload. */
    method CountBytes(freqs: seq<int>)
      requires |freqs| <= q.Length
      modifies q
      ensures forall k :: 0 <= k < |freqs| ==> q[k] == Bump(old(q[k]), Bytes(freqs)[k])
      ensures forall k :: |freqs| <= k < q.Length ==> q[k] == old(q[k])
    {
      for i := 0 to |freqs|
        invariant forall k :: 0 <= k < i ==> q[k] == Bump(old(q[k]), Bytes(freqs)[k])
        invariant forall k :: i <= k < q.Length ==> q[k] == old(q[k])
      {
        var value: byte := freqs[i] % 256;
        if value !in q[i] {
          q[i] := q[i][value := 1];
        } else {
          q[i] := q[i][value := q[i][value] + 1];
        }
      }
    }

    static lemma ColumnAppend(seen: seq<Payload>, p: Payload, k: nat)
      ensures k < |p| ==> HistogramOf(Column(seen + [p], k)) == Bump(HistogramOf(Column(seen, k)), p[k])
      ensures k >= |p| ==> Column(seen + [p], k) == Column(seen, k)
    {
      assert (seen + [p])[..|seen|] == seen;
      if k < |p| {
        var bytes := Column(seen, k);
        assert (bytes + [p[k]])[..|bytes|] == bytes;
      }
    }

    /** All given records, in order. */
    method AgregateFlows(flows: seq<seq<int>>)
      requires Valid() && forall i :: 0 <= i < |flows| ==> |flows[i]| <= MAX_PACKET_FREQUENCIES_VALUES
      modifies this, q
      ensures Valid() && |seen| == |old(seen)| + |flows| && old(seen) <= seen
      ensures forall i :: 0 <= i < |flows| ==> seen[|old(seen)| + i] == Bytes(flows[i])
      ensures maxRawExpression == old(maxRawExpression)
    {
      hide CountsAll, MaxLength, Bytes;
      for i := 0 to |flows|
        invariant Valid() && maxRawExpression == old(maxRawExpression)
        invariant |seen| == |old(seen)| + i && old(seen) <= seen
        invariant forall j :: 0 <= j < i ==> seen[|old(seen)| + j] == Bytes(flows[j])
      {
        AgregatePacketFlow(flows[i]);
      }
    }

    /** From payloads as they came in to the expression: what is learned is learned of these payloads, and matches them
        if they agree and are long enough. */
    method LearnFrom(payloads: seq<Payload>, flows: seq<seq<int>>) returns (ghost tokens: seq<Token>)
      requires Valid() && seen == [] && |flows| == |payloads|
      requires forall i :: 0 <= i < |flows| ==> |flows[i]| <= 4096 && StoredAs(payloads[i], flows[i])
      modifies this, q
      ensures Valid() && seen == payloads && Learned(payloads, maxRawExpression, tokens)
      ensures regexExpression == "^" + PrintItems(Compact(tokens)) && rawExpression == HexText(KeptBytes(tokens))
      ensures Unanimous(payloads) ==>
        forall n :: 0 <= n < |payloads| && |tokens| <= |payloads[n]| ==> Matches(Compact(tokens), payloads[n])
    {
      hide CountsAll, MaxLength, Bytes, Learned, Unanimous, Matches, Compact, StoredAs;
      forall i | 0 <= i < |flows|
        ensures Bytes(flows[i]) == payloads[i]
      {
        BytesAsTheyCame(payloads[i], flows[i]);
      }
      AgregateFlows(flows);
      assert seen == payloads;
      tokens := Compute();
      if Unanimous(payloads) {
        forall n | 0 <= n < |payloads| && |tokens| <= |payloads[n]|
          ensures Matches(Compact(tokens), payloads[n])
        {
          UnanimousPayloadsMatch(payloads, maxRawExpression, tokens, n);
        }
      }
    }

    /** Between 1 and 100 on every seen offset, above 80 when the bytes vary little; above 100 on the offsets of the
        array that no payload reached; 0 outside the array and before the first payload. */
    method GetQualityByte(offset: int) returns (quality: int)
      requires Valid()
      ensures 0 <= offset < length ==>
        && 1 <= quality <= 100 && (quality > 80 <==> 5 * (Distinct(seen, offset) - 1) < |seen|)
        && (100 - quality) * |seen| <= 100 * (Distinct(seen, offset) - 1) < (101 - quality) * |seen|
      ensures length <= offset < 4096 && seen != [] ==> quality == 100 + 100 / |seen|
      ensures offset < 0 || offset >= 4096 || seen == [] ==> quality == 0
    {
      quality := 0;
      if offset >= 0 && offset < MAX_PACKET_FREQUENCIES_VALUES {
        DistinctIsHistogramSize(seen, offset);
        var distinct := |q[offset]|;
        if items > 0 {
          quality := 100 - TruncDiv((distinct - 1) * 100, items);
          if distinct > 0 {
            QualityThreshold(distinct, items);
          } else {
            UnseenQuality(items);
          }
        }
      }
    }

    /** The first value of greatest count, in whatever order the map is walked. */
    static method ChooseByte(histogram: map<byte, nat>) returns (candidate: byte)
      requires histogram != map[] && forall b :: b in histogram ==> histogram[b] > 0
      ensures IsModal(histogram, candidate)
    {
      var left := histogram.Keys;
      assert histogram.Keys != {} <==> histogram != map[];
      candidate :| candidate in left;
      var qualityToken := 0;
      while left != {}
        invariant left <= histogram.Keys && candidate in histogram
        invariant forall b :: b in histogram && b !in left ==> histogram[b] <= qualityToken
        invariant if left == histogram.Keys then qualityToken == 0 else qualityToken == histogram[candidate]
        decreases left
      {
        var b :| b in left;
        if histogram[b] > qualityToken {
          qualityToken := histogram[b];
          candidate := b;
        }
        left := left - {b};
      }
    }

    method Compute() returns (ghost tokens: seq<Token>)
      requires Valid()
      modifies this`rawExpression, this`regexExpression
      ensures Valid()
      ensures Learned(seen, maxRawExpression, tokens)
      ensures regexExpression == "^" + PrintItems(Compact(tokens))
      ensures rawExpression == HexText(KeptBytes(tokens))
    {
      var n: int;
      if length > maxRawExpression {
        n := maxRawExpression;
      } else {
        n := length;
      }
      var expr, rawExpr;
      expr, rawExpr, tokens := PrintTokens(n);
      AnchorIsCopied(tokens);
      regexExpression := CompactScan(expr);
      HexTextLength(KeptBytes(tokens));
      rawExpression := rawExpr;
    }

    /** The loop of compute over the offsets. */
    method PrintTokens(n: int) returns (expr: string, rawExpr: string, ghost tokens: seq<Token>)
      requires Valid() && n <= length
      ensures |tokens| == (if n < 0 then 0 else n) && AllRight(seen, tokens)
      ensures expr == "^" + Print(tokens) && rawExpr == HexText(KeptBytes(tokens))
    {
      expr, rawExpr, tokens := "^", "", [];
      var i := 0;
      while i < n
        invariant 0 <= i && (i <= n || i == 0)
        invariant |tokens| == i && AllRight(seen, tokens)
        invariant Printed(expr, rawExpr, tokens)
      {
        ghost var t;
        var token, rawToken;
        token, rawToken, t := TokenAt(i);
        AllRightAppend(seen, tokens, t);
        PrintedAppend(expr, rawExpr, tokens, token, rawToken, t);
        expr := expr + token;
        rawExpr := rawExpr + rawToken;
        tokens := tokens + [t];
        i := i + 1;
      }
    }

    /** The text that one offset adds to the two expressions. */
    method TokenAt(i: nat) returns (token: string, rawToken: string, ghost t: Token)
      requires Valid() && i < length
      ensures RightAt(seen, i, t)
      ensures token == PrintToken(t) && rawToken == if t.Byte? then HexByte(t.b) else ""
    {
      token, rawToken, t := "", "", Any;
      var quality := GetQualityByte(i);
      ChosenIsMostFrequent(i);
      if quality > 80 && |q[i]| > 0 {
        var candidate := ChooseByte(q[i]);
        token := "\\x" + HexByte(candidate);
        rawToken := HexByte(candidate);
        t := Byte(candidate);
      } else {
        token := ".?";
      }
    }

    lemma ChosenIsMostFrequent(i: nat)
      requires Valid() && i < length
      ensures q[i] != map[] && forall b :: b in q[i] ==> q[i][b] > 0
      ensures forall b :: IsModal(q[i], b) ==> MostFrequent(b, Column(seen, i))
    {
      HistogramCounts(Column(seen, i));
      SeenBelowMaxLength(seen, i);
      assert Column(seen, i)[0] in q[i];
    }
  }
}
