/** Reading the printed expression back, the payloads it matches, and the decoding of the kept bytes. */
module LearnerLanguage {
  import opened Common
  import opened LearnerRegex

  // ---------------------------------------------------------------- reading the text back

  function HexValue(c: char): (r: Option<nat>)
    ensures r.Some? ==> r.value < 16
  {
    if '0' <= c <= '9' then Some(c as int - '0' as int)
    else if 'a' <= c <= 'f' then Some(c as int - 'a' as int + 10)
    else None
  }

  predicate IsDigit(c: char) {
    '0' <= c <= '9'
  }

  /** Value of the digits at the front of s, continuing from acc, and what follows them. */
  function ReadDec(s: string, acc: nat): (r: (nat, string))
    ensures |r.1| <= |s|
  {
    if s != "" && IsDigit(s[0]) then ReadDec(s[1..], 10 * acc + (s[0] as int - '0' as int)) else (acc, s)
  }

  /** A reader for the three forms \xHH, .? and .{n}. */
  function Parse(s: string): Option<seq<Item>>
    decreases |s|
  {
    if s == "" then Some([])
    else if |s| >= 4 && s[0] == '\\' && s[1] == 'x' then
      match (HexValue(s[2]), HexValue(s[3]))
      case (Some(hi), Some(lo)) => WithItem(Lit(16 * hi + lo), Parse(s[4..]))
      case _ => None
    else if WildAtFront(s) then WithItem(Opt, Parse(s[2..]))
    else if |s| >= 2 && s[0] == '.' && s[1] == '{' then
      var (n, rest) := ReadDec(s[2..], 0);
      if rest != "" && rest[0] == '}' then WithItem(Rep(n), Parse(rest[1..])) else None
    else None
  }

  lemma DigitRoundTrip(d: nat)
    requires d < 10
    ensures IsDigit("0123456789"[d]) && "0123456789"[d] as int - '0' as int == d
  {
  }

  lemma HexRoundTrip(d: nat)
    requires d < 16
    ensures HexValue(HexDigit(d)) == Some(d)
  {
  }

  /** The digits of n are consumed first, whatever follows. */
  lemma {:induction false} ReadDecDigits(n: nat, rest: string)
    ensures ReadDec(Dec(n) + rest, 0) == ReadDec(rest, n)
    decreases n
  {
    var digit := "0123456789"[n % 10];
    DigitRoundTrip(n % 10);
    var tail := [digit] + rest;
    assert tail[1..] == rest;
    if n < 10 {
      assert Dec(n) == [digit];
    } else {
      ReadDecDigits(n / 10, tail);
      assert Dec(n) + rest == Dec(n / 10) + tail;
    }
  }

  /** One more item in front of what was read. */
  function WithItem(item: Item, items: Option<seq<Item>>): Option<seq<Item>> {
    match items
    case Some(rest) => Some([item] + rest)
    case None => None
  }

  lemma ParseLit(b: byte, rest: string)
    ensures Parse(PrintItem(Lit(b)) + rest) == WithItem(Lit(b), Parse(rest))
  {
    var s := PrintItem(Lit(b)) + rest;
    HexRoundTrip(b / 16);
    HexRoundTrip(b % 16);
    assert s[0] == '\\' && s[1] == 'x' && s[2] == HexDigit(b / 16) && s[3] == HexDigit(b % 16);
    assert s[4..] == rest;
    assert 16 * (b / 16) + b % 16 == b;
  }

  lemma ParseOpt(rest: string)
    ensures Parse(PrintItem(Opt) + rest) == WithItem(Opt, Parse(rest))
  {
    var s := PrintItem(Opt) + rest;
    assert s[0] == '.' && s[1] == '?' && s[2..] == rest;
  }

  lemma ParseRep(n: nat, rest: string)
    ensures Parse(PrintItem(Rep(n)) + rest) == WithItem(Rep(n), Parse(rest))
  {
    var s := PrintItem(Rep(n)) + rest;
    var tail := "}" + rest;
    assert s[0] == '.' && s[1] == '{' && s[2..] == Dec(n) + tail;
    ReadDecDigits(n, tail);
    assert ReadDec(tail, n) == (n, tail);
    assert tail[1..] == rest;
  }

  /** Printing is unambiguous: reading a printed expression gives its items back. */
  lemma {:induction false} ParseAfterPrint(items: seq<Item>)
    ensures Parse(PrintItems(items)) == Some(items)
  {
    if items != [] {
      var rest := PrintItems(items[1..]);
      ParseAfterPrint(items[1..]);
      match items[0] {
        case Lit(b) => ParseLit(b, rest);
        case Opt => ParseOpt(rest);
        case Rep(n) => ParseRep(n, rest);
      }
      assert [items[0]] + items[1..] == items;
    }
  }

  /** Undoing the compaction on the text: every ".{n}" is written out again. */
  function ExpandText(s: string): Option<string> {
    match Parse(s)
    case Some(items) => Some(Print(Expand(items)))
    case None => None
  }

  /** The scan loses nothing: writing out every ".{n}" restores the text it was given. */
  lemma ExpandTextAfterCompactText(tokens: seq<Token>)
    ensures ExpandText(CompactText(Print(tokens))) == Some(Print(tokens))
  {
    CompactTextOfPrint(tokens);
    ParseAfterPrint(Compact(tokens));
    ExpandAfterCompact(tokens);
  }

  // ---------------------------------------------------------------- the language

  /** Some way of matching items against the front of s, each dot taking any byte. */
  ghost predicate Matches(items: seq<Item>, s: seq<byte>) {
    if items == [] then true
    else
      match items[0]
      case Lit(b) => s != [] && s[0] == b && Matches(items[1..], s[1..])
      case Opt => Matches(items[1..], s) || (s != [] && Matches(items[1..], s[1..]))
      case Rep(n) => n <= |s| && Matches(items[1..], s[n..])
  }

  /** s has every kept byte at its offset. */
  ghost predicate Agrees(tokens: seq<Token>, s: seq<byte>)
    requires |tokens| <= |s|
  {
    forall i :: 0 <= i < |tokens| && tokens[i].Byte? ==> s[i] == tokens[i].b
  }

  ghost predicate AdjacentWilds(tokens: seq<Token>) {
    exists i :: 0 <= i < |tokens| - 1 && tokens[i] == Any && tokens[i + 1] == Any
  }

  function KeptBytes(tokens: seq<Token>): seq<byte> {
    if tokens == [] then []
    else (if tokens[0].Byte? then [tokens[0].b] else []) + KeptBytes(tokens[1..])
  }

  /** Length that every match must have at least. */
  function MinLength(items: seq<Item>): nat {
    if items == [] then 0
    else
      (match items[0]
       case Lit(_) => 1
       case Opt => 0
       case Rep(n) => n) + MinLength(items[1..])
  }

  lemma {:induction false} MatchIsLongEnough(items: seq<Item>, s: seq<byte>)
    requires Matches(items, s)
    ensures MinLength(items) <= |s|
  {
    if items != [] {
      match items[0]
      case Lit(b) => MatchIsLongEnough(items[1..], s[1..]);
      case Opt =>
        if Matches(items[1..], s) {
          MatchIsLongEnough(items[1..], s);
        } else {
          MatchIsLongEnough(items[1..], s[1..]);
        }
      case Rep(n) => MatchIsLongEnough(items[1..], s[n..]);
    }
  }

  lemma TooShortNoMatch(items: seq<Item>, s: seq<byte>)
    requires |s| < MinLength(items)
    ensures !Matches(items, s)
  {
    if Matches(items, s) {
      MatchIsLongEnough(items, s);
    }
  }

  /** n optional dots in a row can take n bytes. */
  lemma {:induction false} WildsTakeOneEach(tokens: seq<Token>, n: nat, s: seq<byte>)
    requires n <= Wilds(tokens) && n <= |s|
    requires Matches(Plain(tokens[n..]), s[n..])
    ensures Matches(Plain(tokens), s)
  {
    if n == 0 {
      assert tokens[0..] == tokens && s[0..] == s;
    } else {
      assert tokens[1..][n - 1..] == tokens[n..] && s[1..][n - 1..] == s[n..];
      WildsTakeOneEach(tokens[1..], n - 1, s[1..]);
      assert Plain(tokens)[1..] == Plain(tokens[1..]);
    }
  }

  /** Compaction narrows: what the compacted expression matches, the uncompacted one matches. */
  lemma {:induction false} CompactNarrows(tokens: seq<Token>, s: seq<byte>)
    requires Matches(Compact(tokens), s)
    ensures Matches(Plain(tokens), s)
    decreases |tokens|
  {
    if tokens != [] {
      var items := Compact(tokens);
      assert Plain(tokens)[1..] == Plain(tokens[1..]);
      if tokens[0].Byte? {
        assert items[1..] == Compact(tokens[1..]);
        CompactNarrows(tokens[1..], s[1..]);
      } else {
        var n := Wilds(tokens);
        assert items[1..] == Compact(tokens[n..]);
        if n > 1 {
          CompactNarrows(tokens[n..], s[n..]);
          WildsTakeOneEach(tokens, n, s);
        } else if Matches(items[1..], s) {
          CompactNarrows(tokens[1..], s);
        } else {
          CompactNarrows(tokens[1..], s[1..]);
        }
      }
    }
  }

  /** Every payload long enough that has the kept bytes at their offsets is matched. */
  lemma {:induction false} AgreeingPayloadMatches(tokens: seq<Token>, s: seq<byte>)
    requires |tokens| <= |s| && Agrees(tokens, s)
    ensures Matches(Compact(tokens), s)
    decreases |tokens|
  {
    if tokens != [] {
      var n := if tokens[0].Byte? then 1 else Wilds(tokens);
      forall i | 0 <= i < |tokens[n..]| && tokens[n..][i].Byte?
        ensures s[n..][i] == tokens[n..][i].b
      {
        assert tokens[n..][i] == tokens[n + i];
      }
      AgreeingPayloadMatches(tokens[n..], s[n..]);
      assert Compact(tokens)[1..] == Compact(tokens[n..]);
    }
  }

  lemma {:induction false} KeptBytesMatchPlain(tokens: seq<Token>)
    ensures Matches(Plain(tokens), KeptBytes(tokens))
  {
    if tokens != [] {
      KeptBytesMatchPlain(tokens[1..]);
      assert Plain(tokens)[1..] == Plain(tokens[1..]);
      if tokens[0].Byte? {
        assert KeptBytes(tokens)[1..] == KeptBytes(tokens[1..]);
      } else {
        assert KeptBytes(tokens) == KeptBytes(tokens[1..]);
      }
    }
  }

  lemma {:induction false} KeptBytesSkipWilds(tokens: seq<Token>, n: nat)
    requires n <= Wilds(tokens)
    ensures KeptBytes(tokens) == KeptBytes(tokens[n..])
  {
    if n > 0 {
      var rest := tokens[1..];
      KeptBytesSkipWilds(rest, n - 1);
      assert tokens == [tokens[0]] + rest;
      DropBehind([tokens[0]], rest, n - 1);
    }
  }

  /** The compacted expression demands more bytes than are kept exactly when two wildcards stand together. */
  lemma {:induction false} CompactDemands(tokens: seq<Token>)
    ensures MinLength(Compact(tokens)) >= |KeptBytes(tokens)|
    ensures AdjacentWilds(tokens) ==> MinLength(Compact(tokens)) > |KeptBytes(tokens)|
    ensures !AdjacentWilds(tokens) ==> Compact(tokens) == Plain(tokens)
    decreases |tokens|
  {
    if tokens != [] {
      var n := if tokens[0].Byte? then 1 else Wilds(tokens);
      CompactDemands(tokens[n..]);
      assert Compact(tokens)[1..] == Compact(tokens[n..]);
      assert Plain(tokens)[1..] == Plain(tokens[1..]);
      if tokens[0] == Any {
        KeptBytesSkipWilds(tokens, n);
      }
      AdjacentWildsBehind(tokens, n);
    }
  }

  lemma AdjacentWildsBehind(tokens: seq<Token>, n: nat)
    requires tokens != [] && n == if tokens[0].Byte? then 1 else Wilds(tokens)
    ensures AdjacentWilds(tokens) <==> n > 1 || AdjacentWilds(tokens[n..])
  {
    if n > 1 {
      assert tokens[0] == Any && tokens[0 + 1] == Any;
    }
    if AdjacentWilds(tokens[n..]) {
      var i :| 0 <= i < |tokens[n..]| - 1 && tokens[n..][i] == Any && tokens[n..][i + 1] == Any;
      assert tokens[n + i] == Any && tokens[n + i + 1] == Any;
    }
    if AdjacentWilds(tokens) && n == 1 {
      var i :| 0 <= i < |tokens| - 1 && tokens[i] == Any && tokens[i + 1] == Any;
      assert tokens[1..][i - 1] == Any && tokens[1..][i - 1 + 1] == Any;
    }
  }

  /** Compaction keeps the language exactly when no two wildcards stand together. */
  lemma CompactKeepsLanguageIff(tokens: seq<Token>)
    ensures (forall s: seq<byte> :: Matches(Compact(tokens), s) <==> Matches(Plain(tokens), s)) <==>
            !AdjacentWilds(tokens)
  {
    CompactDemands(tokens);
    if AdjacentWilds(tokens) {
      var s := KeptBytes(tokens);
      KeptBytesMatchPlain(tokens);
      TooShortNoMatch(Compact(tokens), s);
      assert Matches(Plain(tokens), s) && !Matches(Compact(tokens), s);
    }
  }

  // ---------------------------------------------------------------- the kept bytes as text

  function HexText(bytes: seq<byte>): string {
    if bytes == [] then "" else HexByte(bytes[0]) + HexText(bytes[1..])
  }

  /** getAsciiExpression on one pair of characters; the high digit is never adjusted for letters. */
  function DecodePair(hi: char, lo: char): byte {
    var a := (hi as int - 48) * 16;
    var b0 := lo as int;
    var b := if 97 <= b0 <= 102 then b0 - 32 else b0;
    (if b < 65 then a + b - 48 else a + b - 55) % 256
  }

  function DecodeText(raw: string): seq<byte>
    requires |raw| % 2 == 0
  {
    if raw == "" then [] else [DecodePair(raw[0], raw[1])] + DecodeText(raw[2..])
  }

  /** What hex printing followed by getAsciiExpression makes of a byte. */
  function Distort(b: byte): byte {
    if b < 0xA0 then b else b - 0x90
  }

  lemma {:induction false} HexTextLength(bytes: seq<byte>)
    ensures |HexText(bytes)| == 2 * |bytes| && |HexText(bytes)| % 2 == 0
  {
    if bytes != [] {
      HexTextLength(bytes[1..]);
    }
  }

  lemma DecodeHexByte(b: byte)
    ensures DecodePair(HexDigit(b / 16), HexDigit(b % 16)) == Distort(b)
  {
    var hi, lo := b / 16, b % 16;
    assert b == 16 * hi + lo;
    HexDigitCode(hi);
    HexDigitCode(lo);
  }

  lemma HexDigitCode(d: nat)
    requires d < 16
    ensures HexDigit(d) as int == if d < 10 then 48 + d else 87 + d
  {
  }

  /** Decoding the printed bytes distorts each byte alone. */
  lemma {:induction false} DecodeAfterHex(bytes: seq<byte>)
    ensures |HexText(bytes)| % 2 == 0
    ensures var decoded := DecodeText(HexText(bytes));
      |decoded| == |bytes| && forall i :: 0 <= i < |bytes| ==> decoded[i] == Distort(bytes[i])
  {
    HexTextLength(bytes);
    if bytes != [] {
      DecodeAfterHex(bytes[1..]);
      DecodeHexByte(bytes[0]);
      var raw := HexText(bytes);
      assert raw[2..] == HexText(bytes[1..]);
    }
  }

  /** The decoding is the identity exactly on byte strings below 0xA0. */
  lemma DecodeIsIdentityIff(bytes: seq<byte>)
    ensures |HexText(bytes)| % 2 == 0
    ensures DecodeText(HexText(bytes)) == bytes <==> forall i :: 0 <= i < |bytes| ==> bytes[i] < 0xA0
  {
    DecodeAfterHex(bytes);
    var decoded := DecodeText(HexText(bytes));
    if decoded == bytes {
      forall i | 0 <= i < |bytes|
        ensures bytes[i] < 0xA0
      {
        assert decoded[i] == Distort(bytes[i]);
      }
    }
  }

  /** getAsciiExpression: two characters at a time. */
  method GetAsciiExpression(raw: string) returns (out: seq<byte>)
    requires |raw| % 2 == 0
    ensures out == DecodeText(raw)
  {
    out := [];
    var i := 0;
    assert raw[0..] == raw;
    while i < |raw|
      invariant 0 <= i <= |raw| && i % 2 == 0
      invariant Decoded(raw, i, out)
    {
      var c := DecodeRound(raw[i], raw[i + 1]);
      DecodeStep(raw, i, out, c);
      out := out + [c];
      i := i + 2;
    }
    assert raw[i..] == "";
  }

  /** The loop body of getAsciiExpression, statement for statement. */
  method DecodeRound(hi: char, lo: char) returns (c: byte)
    ensures c == DecodePair(hi, lo)
  {
    var a := (hi as int - 48) * 16;
    var b := lo as int;
    if b >= 97 && b <= 102 {
      b := b - 32;
    }
    if b < 65 {
      c := (a + b - 48) % 256;
    } else {
      c := (a + b - 55) % 256;
    }
  }

  /** out is what the first i characters decode to. */
  ghost predicate Decoded(raw: string, i: nat, out: seq<byte>)
    requires i <= |raw| && i % 2 == 0 && |raw| % 2 == 0
  {
    out + DecodeText(raw[i..]) == DecodeText(raw)
  }

  lemma DecodeStep(raw: string, i: nat, out: seq<byte>, c: byte)
    requires i < |raw| && i % 2 == 0 && |raw| % 2 == 0 && Decoded(raw, i, out)
    requires c == DecodePair(raw[i], raw[i + 1])
    ensures Decoded(raw, i + 2, out + [c])
  {
    assert raw[i..][2..] == raw[i + 2..];
    assert out + ([c] + DecodeText(raw[i + 2..])) == (out + [c]) + DecodeText(raw[i + 2..]);
  }
}
