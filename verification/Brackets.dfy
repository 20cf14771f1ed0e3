/** The bracket matchers of utils/cpplint.py, against the grammar of nested brackets. */
module Brackets {
  import opened Common

  predicate IsOpening(c: char) {
    c == '(' || c == '{' || c == '['
  }

  predicate IsClosing(c: char) {
    c == ')' || c == '}' || c == ']'
  }

  function Closing(c: char): (d: char)
    requires IsOpening(c)
    ensures IsClosing(d) && !IsOpening(d)
  {
    match c
    case '(' => ')'
    case '{' => '}'
    case _ => ']'
  }

  /** Text in which every bracket is closed, by its own kind and in the right order. */
  datatype Body = Empty | Plain(c: char, rest: Body) | Group(opening: char, inside: Body, rest: Body) {

    predicate WellFormed() {
      match this
      case Empty => true
      case Plain(c, rest) => !IsOpening(c) && !IsClosing(c) && rest.WellFormed()
      case Group(o, inside, rest) => IsOpening(o) && inside.WellFormed() && rest.WellFormed()
    }

    function Print(): string
      requires WellFormed()
    {
      match this
      case Empty => ""
      case Plain(c, rest) => [c] + rest.Print()
      case Group(o, inside, rest) => [o] + (inside.Print() + ([Closing(o)] + rest.Print()))
    }
  }

  /** s starts with the given body and then the bracket that closes it. */
  ghost predicate StartsWith(s: string, b: Body, close: char) {
    b.WellFormed() && b.Print() + [close] <= s
  }

  /** The stack machine: how many characters it reads until the stack of expected brackets is empty. */
  function Scan(stack: seq<char>, s: string): (n: Option<nat>)
    ensures n.Some? ==> n.value <= |s|
    decreases |s|
  {
    if stack == [] then Some(0)
    else if s == [] then None
    else
      var c, top := s[0], |stack| - 1;
      if c == stack[top] then More(Scan(stack[..top], s[1..]), 1)
      else if IsClosing(c) then None
      else if IsOpening(c) then More(Scan(stack + [Closing(c)], s[1..]), 1)
      else More(Scan(stack, s[1..]), 1)
  }

  function More(n: Option<nat>, k: nat): Option<nat> {
    if n.Some? then Some(n.value + k) else None
  }

  /** The three kinds close each other only, and nothing else is a bracket. */
  lemma ThreeKinds(c: char)
    ensures IsOpening(c) <==> c in "({["
    ensures IsClosing(c) <==> c in ")}]"
    ensures IsOpening(c) ==> [c, Closing(c)] in {"()", "{}", "[]"}
  {
  }

  lemma ScanStep(stack: seq<char>, c: char, t: string)
    requires stack != []
    ensures var top := |stack| - 1;
      Scan(stack, [c] + t) ==
        if c == stack[top] then More(Scan(stack[..top], t), 1)
        else if IsClosing(c) then None
        else if IsOpening(c) then More(Scan(stack + [Closing(c)], t), 1)
        else More(Scan(stack, t), 1)
  {
    assert ([c] + t)[1..] == t;
  }

  /** The machine reads over every body and is back where it was. */
  lemma {:induction false} ReadsOver(b: Body, stack: seq<char>, t: string)
    requires b.WellFormed() && stack != [] && forall i :: 0 <= i < |stack| ==> IsClosing(stack[i])
    ensures Scan(stack, b.Print() + t) == More(Scan(stack, t), |b.Print()|)
  {
    hide Scan;
    match b
    case Empty =>
      assert b.Print() + t == t;
    case Plain(c, rest) =>
      assert b.Print() + t == [c] + (rest.Print() + t);
      ScanStep(stack, c, rest.Print() + t);
      ReadsOver(rest, stack, t);
    case Group(o, inside, rest) =>
      var behind := [Closing(o)] + (rest.Print() + t);
      assert b.Print() + t == [o] + (inside.Print() + behind);
      ScanStep(stack, o, inside.Print() + behind);
      ReadsOver(inside, stack + [Closing(o)], behind);
      ScanStep(stack + [Closing(o)], Closing(o), rest.Print() + t);
      assert (stack + [Closing(o)])[..|stack|] == stack;
      ReadsOver(rest, stack, t);
  }

  /** The text of bodies between the expected brackets, innermost first. */
  ghost function Weave(bodies: seq<Body>, stack: seq<char>): string
    requires |bodies| == |stack| && forall i :: 0 <= i < |bodies| ==> bodies[i].WellFormed()
  {
    if stack == [] then ""
    else
      var top := |stack| - 1;
      bodies[top].Print() + ([stack[top]] + Weave(bodies[..top], stack[..top]))
  }

  /** When the machine empties its stack, what it read was bodies between the expected brackets. */
  lemma {:induction false} ReadBodies(stack: seq<char>, s: string) returns (bodies: seq<Body>)
    requires Scan(stack, s).Some?
    ensures |bodies| == |stack| && forall i :: 0 <= i < |bodies| ==> bodies[i].WellFormed()
    ensures s[..Scan(stack, s).value] == Weave(bodies, stack)
    decreases |s|
  {
    hide Scan, Weave;
    ScanEnds(stack, s);
    if stack == [] {
      WeaveNone();
      return [];
    }
    var c, t, top, n := s[0], s[1..], |stack| - 1, Scan(stack, s).value;
    assert s == [c] + t && stack == stack[..top] + [stack[top]];
    ScanStep(stack, c, t);
    assert s[..n] == [c] + t[..n - 1];
    if c == stack[top] {
      var outer := ReadBodies(stack[..top], t);
      bodies := outer + [Empty];
      WeaveMore(outer, stack[..top], Empty, c);
    } else if IsOpening(c) {
      var inner := ReadBodies(stack + [Closing(c)], t);
      bodies := CloseGroup(inner, stack, c);
    } else {
      var rest := ReadBodies(stack, t);
      bodies := PutPlain(rest, stack, c);
    }
  }

  lemma CloseGroup(inner: seq<Body>, stack: seq<char>, o: char) returns (bodies: seq<Body>)
    requires |inner| == |stack| + 1 > 1 && IsOpening(o) && forall i :: 0 <= i < |inner| ==> inner[i].WellFormed()
    ensures |bodies| == |stack| && forall i :: 0 <= i < |bodies| ==> bodies[i].WellFormed()
    ensures Weave(bodies, stack) == [o] + Weave(inner, stack + [Closing(o)])
  {
    hide Weave;
    var top := |stack| - 1;
    var outer, group := inner[..top], Group(o, inner[top + 1], inner[top]);
    assert stack == stack[..top] + [stack[top]];
    assert inner == outer + [inner[top]] + [inner[top + 1]];
    WeaveMore(outer + [inner[top]], stack, inner[top + 1], Closing(o));
    WeaveMore(outer, stack[..top], inner[top], stack[top]);
    WeaveMore(outer, stack[..top], group, stack[top]);
    bodies := outer + [group];
  }

  lemma PutPlain(rest: seq<Body>, stack: seq<char>, c: char) returns (bodies: seq<Body>)
    requires |rest| == |stack| > 0 && !IsOpening(c) && !IsClosing(c)
    requires forall i :: 0 <= i < |rest| ==> rest[i].WellFormed()
    ensures |bodies| == |stack| && forall i :: 0 <= i < |bodies| ==> bodies[i].WellFormed()
    ensures Weave(bodies, stack) == [c] + Weave(rest, stack)
  {
    hide Weave;
    var top := |stack| - 1;
    assert stack == stack[..top] + [stack[top]] && rest == rest[..top] + [rest[top]];
    WeaveMore(rest[..top], stack[..top], rest[top], stack[top]);
    WeaveMore(rest[..top], stack[..top], Plain(c, rest[top]), stack[top]);
    bodies := rest[..top] + [Plain(c, rest[top])];
  }

  lemma WeaveNone()
    ensures Weave([], []) == ""
  {
  }

  lemma WeaveMore(bodies: seq<Body>, stack: seq<char>, b: Body, close: char)
    requires |bodies| == |stack| && b.WellFormed() && forall i :: 0 <= i < |bodies| ==> bodies[i].WellFormed()
    ensures Weave(bodies + [b], stack + [close]) == b.Print() + ([close] + Weave(bodies, stack))
  {
    assert (bodies + [b])[..|bodies|] == bodies && (stack + [close])[..|stack|] == stack;
  }

  /** The machine stops after n characters exactly when they are a body and the bracket that closes it. */
  lemma ScanFindsGroup(close: char, s: string, n: nat)
    requires IsClosing(close)
    ensures Scan([close], s) == Some(n) <==> exists b :: StartsWith(s, b, close) && n == |b.Print()| + 1
  {
    if Scan([close], s) == Some(n) {
      var bodies := ReadBodies([close], s);
      var b := bodies[0];
      assert Weave(bodies, [close]) == b.Print() + [close] + Weave([], []);
      assert s[..n] == b.Print() + [close];
      assert StartsWith(s, b, close) && n == |b.Print()| + 1;
    }
    forall b | StartsWith(s, b, close) && n == |b.Print()| + 1
      ensures Scan([close], s) == Some(n)
    {
      var text := b.Print();
      var t := s[|text|..];
      assert s == text + t && t[0] == close;
      ReadsOver(b, [close], t);
      assert Scan([], t[1..]) == Some(0);
      assert [close][..0] == [];
    }
  }

  /** So there is at most one such group at the start of a text: the shortest is the only one. */
  lemma GroupIsUnique(close: char, s: string, b: Body, d: Body)
    requires IsClosing(close) && StartsWith(s, b, close) && StartsWith(s, d, close)
    ensures b.Print() == d.Print()
  {
    ScanFindsGroup(close, s, |b.Print()| + 1);
    ScanFindsGroup(close, s, |d.Print()| + 1);
    assert b.Print() == s[..|b.Print()|] && d.Print() == s[..|d.Print()|];
  }

  /** found: the end of the match of the start pattern, when there is one. It has to stand behind an opening bracket. */
  method GetTextInside(text: string, found: Option<nat>) returns (inside: Option<string>)
    requires found.Some? ==> 0 < found.value <= |text| && IsOpening(text[found.value - 1])
    ensures found.None? ==> inside.None?
    ensures found.Some? ==>
      var rest, close := text[found.value..], Closing(text[found.value - 1]);
      && (inside.None? <==> !exists b :: StartsWith(rest, b, close))
      && (inside.Some? ==> exists b :: StartsWith(rest, b, close) && b.Print() == inside.value)
  {
    hide Scan, StartsWith;
    if found.None? {
      return None;
    }
    var start := found.value;
    var stack := [Closing(text[start - 1])];
    var position := start;
    ghost var close, whole := stack[0], Scan(stack, text[start..]);
    while stack != [] && position < |text|
      invariant start <= position <= |text| && (stack == [] ==> position > start)
      invariant whole == More(Scan(stack, text[position..]), position - start)
      decreases |text| - position
    {
      assert text[position..] == [text[position]] + text[position + 1..];
      ScanStep(stack, text[position], text[position + 1..]);
      if text[position] == stack[|stack| - 1] {
        stack := stack[..|stack| - 1];
      } else if IsClosing(text[position]) {
        NoGroup(close, text[start..]);
        return None;
      } else if IsOpening(text[position]) {
        stack := stack + [Closing(text[position])];
      }
      position := position + 1;
    }
    ScanEnds(stack, text[position..]);
    if stack != [] {
      NoGroup(close, text[start..]);
      return None;
    }
    inside := Some(text[start..position - 1]);
    GroupFound(close, text[start..], position - start);
    assert text[start..][..position - start - 1] == inside.value;
  }

  lemma ScanEnds(stack: seq<char>, s: string)
    ensures stack == [] ==> Scan(stack, s) == Some(0)
    ensures stack != [] && s == [] ==> Scan(stack, s) == None
  {
  }

  lemma GroupFound(close: char, s: string, n: nat)
    requires IsClosing(close) && Scan([close], s) == Some(n) && n > 0
    ensures n <= |s| && exists b :: StartsWith(s, b, close) && b.Print() == s[..n - 1]
  {
    hide Scan, Body.Print, Body.WellFormed;
    ScanFindsGroup(close, s, n);
    var b :| StartsWith(s, b, close) && n == |b.Print()| + 1;
    assert b.Print() == s[..n - 1];
  }

  lemma NoGroup(close: char, s: string)
    requires IsClosing(close) && Scan([close], s).None?
    ensures !exists b :: StartsWith(s, b, close)
  {
    forall b
      ensures !StartsWith(s, b, close)
    {
      if b.WellFormed() {
        ScanFindsGroup(close, s, |b.Print()| + 1);
      }
    }
  }

  function Weight(c: char, open: char, close: char): int {
    if c == open then 1 else if c == close then -1 else 0
  }

  /** How much deeper one is behind s. */
  function Deeper(s: string, open: char, close: char): int {
    if s == [] then 0 else Deeper(s[..|s| - 1], open, close) + Weight(s[|s| - 1], open, close)
  }

  /** A closing character takes the depth to zero at i. */
  predicate EndsAt(line: string, start: nat, depth: int, open: char, close: char, i: nat)
    requires start <= i < |line|
  {
    line[i] == close && close != open && depth + Deeper(line[start..i + 1], open, close) == 0
  }

  /** The first place behind start where a closing character takes the depth to zero, or -1. */
  method FindEndOfExpressionInLine(line: string, start: nat, depth: int, open: char, close: char)
    returns (end: int)
    ensures end == -1 || start < end <= |line|
    ensures end != -1 ==> EndsAt(line, start, depth, open, close, end - 1)
    ensures forall i :: start <= i < (if end == -1 then |line| else end - 1) ==>
              !EndsAt(line, start, depth, open, close, i)
  {
    var level := depth;
    var i := start;
    while i < |line|
      invariant start <= i && (i <= |line| || i == start)
      invariant i <= |line| ==> level == depth + Deeper(line[start..i], open, close)
      invariant forall j :: start <= j < i && j < |line| ==> !EndsAt(line, start, depth, open, close, j)
    {
      assert line[start..i + 1][..i - start] == line[start..i];
      if line[i] == open {
        level := level + 1;
      } else if line[i] == close {
        level := level - 1;
        if level == 0 {
          return i + 1;
        }
      }
      i := i + 1;
    }
    return -1;
  }

  lemma {:induction false} DeeperConcat(s: string, t: string, open: char, close: char)
    ensures Deeper(s + t, open, close) == Deeper(s, open, close) + Deeper(t, open, close)
  {
    if t == [] {
      assert s + t == s;
    } else {
      DeeperConcat(s, t[..|t| - 1], open, close);
      assert (s + t)[..|s + t| - 1] == s + t[..|t| - 1];
    }
  }

  lemma DeeperSnoc(s: string, c: char, open: char, close: char)
    ensures Deeper(s + [c], open, close) == Deeper(s, open, close) + Weight(c, open, close)
  {
    assert (s + [c])[..|s|] == s;
  }

  lemma DeeperCons(c: char, t: string, open: char, close: char)
    ensures Deeper([c] + t, open, close) == Weight(c, open, close) + Deeper(t, open, close)
  {
    DeeperConcat([c], t, open, close);
    assert [c][..0] == [];
  }

  /** Behind s one is as deep as before, and never less deep on the way. */
  ghost predicate Level(s: string, open: char)
    requires IsOpening(open)
  {
    && Deeper(s, open, Closing(open)) == 0
    && forall k :: 0 <= k <= |s| ==> Deeper(s[..k], open, Closing(open)) >= 0
  }

  /** A body never climbs out of the depth it starts at, and ends there. */
  lemma {:induction false} BodyIsLevel(b: Body, open: char)
    requires b.WellFormed() && IsOpening(open)
    ensures Level(b.Print(), open)
  {
    hide Level;
    match b
    case Empty =>
      NothingIsLevel(open);
    case Plain(c, rest) =>
      BodyIsLevel(rest, open);
      PlainIsLevel(c, rest.Print(), open);
    case Group(o, inside, rest) =>
      BodyIsLevel(inside, open);
      BodyIsLevel(rest, open);
      GroupIsLevel(o, inside.Print(), rest.Print(), open);
  }

  lemma NothingIsLevel(open: char)
    requires IsOpening(open)
    ensures Level("", open)
  {
  }

  lemma PlainIsLevel(c: char, s: string, open: char)
    requires IsOpening(open) && !IsOpening(c) && !IsClosing(c) && Level(s, open)
    ensures Level([c] + s, open)
  {
    var close := Closing(open);
    DeeperCons(c, s, open, close);
    forall k | 0 < k <= |s| + 1
      ensures Deeper(([c] + s)[..k], open, close) >= 0
    {
      assert ([c] + s)[..k] == [c] + s[..k - 1];
      DeeperCons(c, s[..k - 1], open, close);
    }
  }

  lemma GroupIsLevel(o: char, s: string, t: string, open: char)
    requires IsOpening(o) && IsOpening(open) && Level(s, open) && Level(t, open)
    ensures Level([o] + (s + ([Closing(o)] + t)), open)
  {
    var close, text := Closing(open), [o] + (s + ([Closing(o)] + t));
    GroupIsDeeper(o, s, t, open);
    forall k | 0 < k <= |text|
      ensures Deeper(text[..k], open, close) >= 0
    {
      if k <= |s| + 1 {
        assert text[..k] == [o] + s[..k - 1];
        DeeperCons(o, s[..k - 1], open, close);
      } else {
        var n := k - |s| - 2;
        assert text[..k] == [o] + (s + ([Closing(o)] + t[..n]));
        GroupIsDeeper(o, s, t[..n], open);
      }
    }
  }

  lemma GroupIsDeeper(o: char, inside: string, behind: string, open: char)
    requires IsOpening(o) && IsOpening(open)
    ensures Deeper([o] + (inside + ([Closing(o)] + behind)), open, Closing(open)) ==
            Deeper(inside, open, Closing(open)) + Deeper(behind, open, Closing(open))
  {
    var close := Closing(open);
    DeeperCons(o, inside + ([Closing(o)] + behind), open, close);
    DeeperConcat(inside, [Closing(o)] + behind, open, close);
    DeeperCons(Closing(o), behind, open, close);
  }

  lemma CutFrom(line: string, start: nat, text: string, k: nat)
    requires start <= |line| && text <= line[start..] && k <= |text|
    ensures start + k <= |line| && line[start..start + k] == text[..k]
  {
    assert line[start..start + k] == line[start..][..k];
  }

  /** Where there is a properly nested group, the depth counter finds its end, though it knows one kind only. */
  lemma CounterFindsGroup(line: string, start: nat, b: Body, open: char)
    requires start <= |line| && IsOpening(open) && StartsWith(line[start..], b, Closing(open))
    ensures start + |b.Print()| < |line|
    ensures EndsAt(line, start, 1, open, Closing(open), start + |b.Print()|)
    ensures forall i :: start <= i < start + |b.Print()| ==> !EndsAt(line, start, 1, open, Closing(open), i)
  {
    hide Deeper, Body.WellFormed, Body.Print;
    var close, text := Closing(open), b.Print();
    var whole, end := text + [close], start + |text|;
    CutFrom(line, start, whole, |text| + 1);
    BodyIsLevel(b, open);
    DeeperSnoc(text, close, open, close);
    assert whole[..|text| + 1] == whole && line[end] == line[start..end + 1][|text|] == close;
    forall i | start <= i < end
      ensures !EndsAt(line, start, 1, open, close, i)
    {
      var m := i + 1 - start;
      CutFrom(line, start, whole, m);
      assert whole[..m] == text[..m];
      assert Deeper(line[start..i + 1], open, close) >= 0;
    }
  }

  /** The brackets of s are of the kinds with the given opening brackets. */
  predicate TextOver(s: string, kinds: set<char>) {
    forall i :: 0 <= i < |s| && (IsOpening(s[i]) || IsClosing(s[i])) ==>
      s[i] in kinds || exists o :: o in kinds && IsOpening(o) && s[i] == Closing(o)
  }

  /** The counter for one kind of brackets finds an end exactly when there is a group. */
  ghost predicate CounterIsRight(line: string, start: nat, open: char)
    requires IsOpening(open) && start <= |line|
  {
    (exists i :: start <= i < |line| && EndsAt(line, start, 1, open, Closing(open), i)) <==>
    (exists b :: StartsWith(line[start..], b, Closing(open)))
  }

  lemma {:induction false} CounterIsScan(n: nat, s: string, open: char, k: nat)
    requires n > 0 && IsOpening(open) && TextOver(s, {open}) && k <= |s|
    requires n + Deeper(s[..k], open, Closing(open)) <= 0
    ensures Scan(seq(n, i => Closing(open)), s).Some?
    decreases |s|
  {
    var close := Closing(open);
    var stack := seq(n, i => close);
    var c, t := s[0], s[1..];
    assert s[..k] == [c] + t[..k - 1];
    DeeperCons(c, t[..k - 1], open, close);
    if c == close {
      assert stack[..n - 1] == seq(n - 1, i => close);
      if n > 1 {
        CounterIsScan(n - 1, t, open, k - 1);
      }
    } else if c == open {
      assert stack + [close] == seq(n + 1, i => close);
      CounterIsScan(n + 1, t, open, k - 1);
    } else {
      CounterIsScan(n, t, open, k - 1);
    }
  }

  /** On text with one kind of brackets the counter is right. */
  lemma CounterIsEnoughForOneKind(line: string, start: nat, open: char)
    requires start <= |line| && IsOpening(open) && TextOver(line[start..], {open})
    ensures CounterIsRight(line, start, open)
  {
    var close, s := Closing(open), line[start..];
    forall i | start <= i < |line| && EndsAt(line, start, 1, open, close, i)
      ensures exists b :: StartsWith(s, b, close)
    {
      assert s[..i + 1 - start] == line[start..i + 1];
      CounterIsScan(1, s, open, i + 1 - start);
      assert seq(1, i => close) == [close];
      ScanFindsGroup(close, s, Scan([close], s).value);
    }
    forall b | StartsWith(s, b, close)
      ensures exists i :: start <= i < |line| && EndsAt(line, start, 1, open, close, i)
    {
      CounterFindsGroup(line, start, b, open);
    }
  }

  /** Any other kind misleads it: a foreign bracket that is never closed, then the own closing one. */
  lemma CounterIsMisled(other: char, open: char)
    requires IsOpening(open) && IsOpening(other) && other != open
    ensures EndsAt([other, Closing(open)], 0, 1, open, Closing(open), 1)
    ensures !exists b :: StartsWith([other, Closing(open)], b, Closing(open))
    ensures !CounterIsRight([other, Closing(open)], 0, open)
  {
    var close := Closing(open);
    var s := [other, close];
    assert s[0..2] == [other] + [close] && s[0..] == s;
    DeeperCons(other, [close], open, close);
    DeeperCons(close, [], open, close);
    assert Scan([close, Closing(other)], s[1..]).None?;
    NoGroup(close, s);
    assert EndsAt(s, 0, 1, open, close, 1);
    assert !exists b :: StartsWith(s[0..], b, close);
  }

  /** The counter is right on every text over some kinds of brackets if and only if it counts the only one. */
  lemma CounterIsRightIff(kinds: set<char>, open: char)
    requires open in kinds && forall o :: o in kinds ==> IsOpening(o)
    ensures (forall line, start: nat :: start <= |line| && TextOver(line[start..], kinds) ==>
                                          CounterIsRight(line, start, open)) <==>
            kinds == {open}
  {
    if kinds == {open} {
      forall line, start: nat | start <= |line| && TextOver(line[start..], kinds)
        ensures CounterIsRight(line, start, open)
      {
        CounterIsEnoughForOneKind(line, start, open);
      }
    } else {
      var other :| other in kinds && other != open;
      var s := [other, Closing(open)];
      CounterIsMisled(other, open);
      assert s[0..] == s && TextOver(s[0..], kinds);
    }
  }
}
