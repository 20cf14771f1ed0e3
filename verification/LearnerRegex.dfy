/** The regular expressions that src/learner/LearnerEngine.cc prints: their text, their compaction, their language. */
module LearnerRegex {
  import opened Common

  /** One offset of the learned expression: a kept byte, or ".?". */
  datatype Token = Byte(b: byte) | Any

  /** One element of the compacted expression: a byte, ".?" or ".{n}". */
  datatype Item = Lit(b: byte) | Opt | Rep(n: nat)

  // ---------------------------------------------------------------- text

  function HexDigit(n: nat): char
    requires n < 16
  {
    "0123456789abcdef"[n]
  }

  /** boost::format("%02x") of an unsigned byte. */
  function HexByte(b: byte): string {
    [HexDigit(b / 16), HexDigit(b % 16)]
  }

  function Dec(n: nat): string {
    if n < 10 then ["0123456789"[n]] else Dec(n / 10) + ["0123456789"[n % 10]]
  }

  function PrintToken(t: Token): string {
    match t
    case Byte(b) => "\\x" + HexByte(b)
    case Any => ".?"
  }

  function Print(tokens: seq<Token>): string {
    if tokens == [] then "" else PrintToken(tokens[0]) + Print(tokens[1..])
  }

  function PrintItem(item: Item): string {
    match item
    case Lit(b) => "\\x" + HexByte(b)
    case Opt => ".?"
    case Rep(n) => ".{" + Dec(n) + "}"
  }

  function PrintItems(items: seq<Item>): string {
    if items == [] then "" else PrintItem(items[0]) + PrintItems(items[1..])
  }

  // ---------------------------------------------------------------- compaction of characters and of tokens

  predicate WildAtFront(s: string) {
    |s| >= 2 && s[0] == '.' && s[1] == '?'
  }

  /** Number of ".?" pairs at the front of s. */
  function WildRun(s: string): nat {
    if WildAtFront(s) then 1 + WildRun(s[2..]) else 0
  }

  lemma {:induction false} WildRunFits(s: string)
    ensures 2 * WildRun(s) <= |s|
  {
    if WildAtFront(s) {
      WildRunFits(s[2..]);
    }
  }

  function Rewritten(n: nat): string {
    if n > 1 then ".{" + Dec(n) + "}" else ".?"
  }

  /** The rewriting of the printed text: each maximal run of two or more ".?" becomes ".{n}". */
  function CompactText(s: string): string
    decreases |s|
  {
    if s == "" then ""
    else if WildAtFront(s) then
      WildRunFits(s);
      var n := WildRun(s);
      Rewritten(n) + CompactText(s[2 * n..])
    else [s[0]] + CompactText(s[1..])
  }

  function Wilds(tokens: seq<Token>): (n: nat)
    ensures n <= |tokens|
    ensures forall i :: 0 <= i < n ==> tokens[i] == Any
    ensures n < |tokens| ==> tokens[n] != Any
  {
    if tokens != [] && tokens[0] == Any then 1 + Wilds(tokens[1..]) else 0
  }

  function Compact(tokens: seq<Token>): seq<Item>
    decreases |tokens|
  {
    if tokens == [] then []
    else if tokens[0].Byte? then [Lit(tokens[0].b)] + Compact(tokens[1..])
    else
      var n := Wilds(tokens);
      [if n > 1 then Rep(n) else Opt] + Compact(tokens[n..])
  }

  /** The expression before compaction. */
  function Plain(tokens: seq<Token>): (items: seq<Item>)
    ensures |items| == |tokens|
  {
    if tokens == [] then []
    else [if tokens[0].Byte? then Lit(tokens[0].b) else Opt] + Plain(tokens[1..])
  }

  function Repeat(n: nat): (tokens: seq<Token>)
    ensures |tokens| == n && forall i :: 0 <= i < n ==> tokens[i] == Any
  {
    seq(n, i => Any)
  }

  function Expand(items: seq<Item>): seq<Token> {
    if items == [] then [] else ExpandItem(items[0]) + Expand(items[1..])
  }

  function ExpandItem(item: Item): seq<Token> {
    match item
    case Lit(b) => [Byte(b)]
    case Opt => [Any]
    case Rep(n) => Repeat(n)
  }

  lemma {:induction false} ExpandAfterCompact(tokens: seq<Token>)
    ensures Expand(Compact(tokens)) == tokens
    decreases |tokens|
  {
    hide Compact, Expand, ExpandItem, FirstRun, FirstItem;
    if tokens == [] {
      ExpandNone();
    } else {
      var n := FirstRun(tokens);
      ExpandAfterCompact(tokens[n..]);
      CompactStep(tokens);
      ExpandCons(FirstItem(tokens), Compact(tokens[n..]));
      assert tokens == tokens[..n] + tokens[n..];
    }
  }

  /** How many tokens the first item stands for. */
  function FirstRun(tokens: seq<Token>): (n: nat)
    requires tokens != []
    ensures 0 < n <= |tokens|
  {
    if tokens[0].Byte? then 1 else Wilds(tokens)
  }

  function FirstItem(tokens: seq<Token>): Item
    requires tokens != []
  {
    if tokens[0].Byte? then Lit(tokens[0].b) else if Wilds(tokens) > 1 then Rep(Wilds(tokens)) else Opt
  }

  lemma CompactStep(tokens: seq<Token>)
    requires tokens != []
    ensures Compact(tokens) == [FirstItem(tokens)] + Compact(tokens[FirstRun(tokens)..])
    ensures ExpandItem(FirstItem(tokens)) == tokens[..FirstRun(tokens)]
  {
  }

  lemma ExpandNone()
    ensures Compact([]) == [] && Expand([]) == []
  {
  }

  lemma ExpandCons(item: Item, rest: seq<Item>)
    ensures Expand([item] + rest) == ExpandItem(item) + Expand(rest)
  {
    assert ([item] + rest)[1..] == rest;
  }

  lemma HexIsNotDot(b: byte)
    ensures HexByte(b)[0] != '.' && HexByte(b)[1] != '.'
  {
  }

  lemma {:induction false} WildRunOfPrint(tokens: seq<Token>)
    ensures WildRun(Print(tokens)) == Wilds(tokens)
  {
    if tokens != [] && tokens[0] == Any {
      WildRunOfPrint(tokens[1..]);
      assert Print(tokens)[2..] == Print(tokens[1..]);
    } else if tokens != [] {
      assert Print(tokens)[0] == '\\';
    }
  }

  lemma PrintWild(tokens: seq<Token>)
    requires tokens != [] && tokens[0] == Any
    ensures Print(tokens) == ".?" + Print(tokens[1..])
  {
  }

  lemma {:induction false} DropWilds(tokens: seq<Token>, n: nat)
    requires n <= Wilds(tokens)
    ensures 2 * n <= |Print(tokens)| && Print(tokens)[2 * n..] == Print(tokens[n..])
  {
    hide Print;
    if n > 0 {
      var rest := tokens[1..];
      DropWilds(rest, n - 1);
      PrintWild(tokens);
      DropBehind(".?", Print(rest), 2 * (n - 1));
      assert tokens == [tokens[0]] + rest;
      DropBehind([tokens[0]], rest, n - 1);
    }
  }

  /** Characters that start no ".?" pair are copied. */
  lemma CopiesByte(b: byte, rest: string)
    ensures CompactText("\\x" + HexByte(b) + rest) == "\\x" + HexByte(b) + CompactText(rest)
  {
    var h := HexByte(b);
    HexIsNotDot(b);
    var s := "\\x" + h + rest;
    assert s[1..] == "x" + h + rest;
    assert s[1..][1..] == h + rest;
    assert (h + rest)[1..] == [h[1]] + rest;
    assert ([h[1]] + rest)[1..] == rest;
    calc {
      CompactText(s);
      ['\\'] + CompactText("x" + h + rest);
      ['\\'] + (['x'] + CompactText(h + rest));
      ['\\'] + (['x'] + ([h[0]] + CompactText([h[1]] + rest)));
      ['\\'] + (['x'] + ([h[0]] + ([h[1]] + CompactText(rest))));
      "\\x" + h + CompactText(rest);
    }
  }

  /** On learned expressions the scan over characters is the compaction of the token list. */
  lemma {:induction false} CompactTextOfPrint(tokens: seq<Token>)
    ensures CompactText(Print(tokens)) == PrintItems(Compact(tokens))
    decreases |tokens|
  {
    if tokens != [] {
      var s := Print(tokens);
      if tokens[0].Byte? {
        CompactTextOfPrint(tokens[1..]);
        CopiesByte(tokens[0].b, Print(tokens[1..]));
        assert Compact(tokens)[1..] == Compact(tokens[1..]);
      } else {
        var n := Wilds(tokens);
        WildRunOfPrint(tokens);
        DropWilds(tokens, n);
        CompactTextOfPrint(tokens[n..]);
        assert WildAtFront(s);
        assert Compact(tokens)[1..] == Compact(tokens[n..]);
      }
    }
  }

  /** The anchor in front is copied too. */
  lemma AnchorIsCopied(tokens: seq<Token>)
    ensures CompactText("^" + Print(tokens)) == "^" + PrintItems(Compact(tokens))
  {
    CompactTextOfPrint(tokens);
    assert ("^" + Print(tokens))[1..] == Print(tokens);
  }

  /** The scan over the printed expression, index for index. */
  method CompactScan(candidate: string) returns (out: string)
    ensures out == CompactText(candidate)
  {
    out := "";
    var i := 0;
    assert candidate[0..] == candidate;
    while i < |candidate|
      invariant 0 <= i <= |candidate|
      invariant Scanned(candidate, i, out)
    {
      i, out := ScanRound(candidate, i, out);
      i := i + 1;
    }
    assert candidate[i..] == "";
  }

  /** The loop body, on the C string of the candidate: it leaves next on the last character it dealt with. */
  method ScanRound(candidate: string, i: nat, written: string) returns (next: nat, out: string)
    requires i < |candidate| && Scanned(candidate, i, written)
    ensures i <= next < |candidate| && Scanned(candidate, next + 1, out)
  {
    hide CompactText, WildRun, WildAtFront, Scanned, MemEqualsWild, Dec;
    var data := candidate + ['\0'];
    next, out := i, written;
    WildPair(candidate, i);
    if MemEqualsWild(data, i) {
      var totalTokens := CountTokens(candidate, i);
      ScanRun(candidate, data, i, out, totalTokens);
      if totalTokens > 1 {
        next := next + totalTokens * 2 - 2;
        out := out + (".{" + Dec(totalTokens) + "}");
      } else {
        out := out + [data[i], data[i + 1]];
      }
      next := next + 1;
      assert next + 1 == i + 2 * totalTokens;
    } else {
      ScanCopy(candidate, data, i, out);
      out := out + [data[i]];
    }
  }

  /** out is the rewriting of the first i characters. */
  ghost predicate Scanned(s: string, i: nat, out: string)
    requires i <= |s|
  {
    out + CompactText(s[i..]) == CompactText(s)
  }

  /** A run of n pairs at i is rewritten and skipped as a whole. */
  lemma ScanRun(s: string, data: string, i: nat, out: string, n: nat)
    requires i < |s| && data == s + ['\0'] && Scanned(s, i, out) && WildAtFront(s[i..]) && n == WildRun(s[i..])
    ensures 1 <= n && i + 2 * n <= |s|
    ensures n > 1 ==> Scanned(s, i + 2 * n, out + (".{" + Dec(n) + "}"))
    ensures n == 1 ==> Scanned(s, i + 2, out + [data[i], data[i + 1]])
  {
    WildRunFits(s[i..]);
    var rest := s[i + 2 * n..];
    assert s[i..][2 * n..] == rest;
    assert [data[i], data[i + 1]] == ".?";
    assert out + (Rewritten(n) + CompactText(rest)) == (out + Rewritten(n)) + CompactText(rest);
  }

  lemma ScanCopy(s: string, data: string, i: nat, out: string)
    requires i < |s| && data == s + ['\0'] && Scanned(s, i, out) && !WildAtFront(s[i..])
    ensures Scanned(s, i + 1, out + [data[i]])
  {
    assert s[i..][1..] == s[i + 1..];
    assert data[i] == s[i];
    assert out + ([s[i]] + CompactText(s[i + 1..])) == (out + [s[i]]) + CompactText(s[i + 1..]);
  }

  /** The inner loop: how many ".?" pairs follow each other from i on. */
  method CountTokens(candidate: string, i: nat) returns (totalTokens: nat)
    requires i < |candidate|
    ensures totalTokens == WildRun(candidate[i..])
  {
    var data := candidate + ['\0'];
    totalTokens := 0;
    var j := i;
    while j < |candidate|
      invariant i <= j == i + 2 * totalTokens <= |candidate|
      invariant totalTokens + WildRun(candidate[j..]) == WildRun(candidate[i..])
    {
      WildPair(candidate, j);
      if MemEqualsWild(data, j) {
        totalTokens := totalTokens + 1;
        j := j + 1;
      } else {
        break;
      }
      j := j + 1;
    }
  }

  /** memcmp(".?", &data[j], 2) == 0: both bytes must lie inside the C string and its terminator. */
  predicate MemEqualsWild(data: string, j: nat)
    requires j + 1 < |data|
  {
    data[j] == '.' && data[j + 1] == '?'
  }

  /** Comparing two bytes at j sees a ".?" pair exactly when one starts there; the terminator never helps. */
  lemma WildPair(s: string, j: nat)
    requires j < |s|
    ensures MemEqualsWild(s + ['\0'], j) <==> WildAtFront(s[j..])
    ensures WildAtFront(s[j..]) ==> s[j..][2..] == s[j + 2..]
  {
  }
}
