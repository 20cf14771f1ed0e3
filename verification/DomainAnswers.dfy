/** What the answers of the domain trie mean, for every list of expressions and every name. */
module DomainAnswers {
  import opened Common
  import opened Labels
  import opened DomainRegistry

  /** The labels that a registered expression stands for. */
  function Kept(expression: string): seq<Label> {
    NonEmpty(Split(expression))
  }

  function Paths(exprs: seq<string>): (paths: seq<Path>)
    ensures |paths| == |exprs| && forall i :: 0 <= i < |exprs| ==> paths[i] == PathOf(exprs[i])
  {
    seq(|exprs|, i requires 0 <= i < |exprs| => PathOf(exprs[i]))
  }

  /** The expression names the last labels of name. */
  predicate Covers(expression: string, name: string) {
    Kept(expression) != [] && IsSuffix(Kept(expression), Split(name))
  }

  /** The answer a reader expects: the covering expression with most labels, the latest among equals. */
  ghost predicate IsMostSpecific(exprs: seq<string>, name: string, answer: Option<nat>) {
    match answer
    case None => forall i :: 0 <= i < |exprs| ==> !Covers(exprs[i], name)
    case Some(a) =>
      && a < |exprs| && Covers(exprs[a], name)
      && forall i :: 0 <= i < |exprs| && Covers(exprs[i], name) ==>
           |Kept(exprs[i])| < |Kept(exprs[a])| || (Kept(exprs[i]) == Kept(exprs[a]) && i <= a)
  }

  function LastLabels(labels: seq<Label>, n: nat): seq<Label>
    requires n <= |labels|
  {
    labels[|labels| - n..]
  }

  ghost predicate IsRegistered(exprs: seq<string>, labels: seq<Label>) {
    exists m :: 0 <= m < |exprs| && Kept(exprs[m]) == labels
  }

  /** a is shorter than the last n labels of b, and b ends in a. */
  predicate Between(a: seq<Label>, n: nat, b: seq<Label>) {
    IsSuffix(a, b) && 0 < |a| < n <= |b|
  }

  /** Between an expression and a longer one ending in it, every intermediate suffix is registered too. */
  ghost predicate GapFree(exprs: seq<string>) {
    forall i, j, n |
      0 <= i < |exprs| && 0 <= j < |exprs| && n >= 0 && Between(Kept(exprs[i]), n, Kept(exprs[j])) ::
      IsRegistered(exprs, LastLabels(Kept(exprs[j]), n))
  }

  /** No expression is a proper label suffix of another. */
  ghost predicate Incomparable(exprs: seq<string>) {
    forall i, j |
      0 <= i < |exprs| && 0 <= j < |exprs| && Kept(exprs[i]) != [] && IsSuffix(Kept(exprs[i]), Kept(exprs[j])) ::
      Kept(exprs[i]) == Kept(exprs[j])
  }

  // ---------------------------------------------------------------- from labels to paths

  lemma PathsAreWellFormed(exprs: seq<string>)
    ensures WellFormed(Paths(exprs))
  {
    forall i | 0 <= i < |exprs|
      ensures DotFree(PathOf(exprs[i])) && NoneEmpty(PathOf(exprs[i]))
    {
      PathIsWellFormed(exprs[i]);
    }
  }

  lemma CoversIsPrefix(expression: string, name: string)
    ensures Covers(expression, name) <==> PathOf(expression) != [] && PathOf(expression) <= Query(name)
  {
    SuffixIsReversedPrefix(Kept(expression), Split(name));
  }

  lemma SamePathSameLabels(a: string, b: string)
    ensures PathOf(a) == PathOf(b) <==> Kept(a) == Kept(b)
  {
    ReverseTwice(Kept(a));
    ReverseTwice(Kept(b));
  }

  lemma DepthIsDeepest(paths: seq<Path>, name: string)
    ensures Depth(paths, name) <= |Query(name)|
    ensures HasNode(paths, Query(name)[..Depth(paths, name)])
    ensures forall j :: Depth(paths, name) < j <= |Query(name)| ==> !HasNode(paths, Query(name)[..j])
  {
    WalkIsDeepest(paths, Query(name), 0);
  }

  /** Every covering expression ends at or above the deepest node. */
  lemma CoveringIsAbove(exprs: seq<string>, name: string, i: nat)
    requires i < |exprs| && Covers(exprs[i], name)
    ensures 0 < |PathOf(exprs[i])| <= Depth(Paths(exprs), name) <= |Query(name)|
    ensures PathOf(exprs[i]) == Query(name)[..|PathOf(exprs[i])|]
  {
    var paths := Paths(exprs);
    CoversIsPrefix(exprs[i], name);
    DepthIsDeepest(paths, name);
    assert Query(name)[..|PathOf(exprs[i])|] <= paths[i];
  }

  // ---------------------------------------------------------------- theorems

  /** Any answer covers the name, and no later registration has the same labels. The root never answers. */
  lemma AnswerCovers(exprs: seq<string>, name: string)
    ensures var answer := Lookup(Paths(exprs), name);
      answer.Some? ==>
        && answer.value < |exprs| && Covers(exprs[answer.value], name)
        && |Kept(exprs[answer.value])| == Depth(Paths(exprs), name)
        && forall i :: answer.value < i < |exprs| ==> Kept(exprs[i]) != Kept(exprs[answer.value])
  {
    var paths, k := Paths(exprs), Depth(Paths(exprs), name);
    DepthIsDeepest(paths, name);
    LatestIsLast(paths, Query(name)[..k]);
    var answer := Lookup(paths, name);
    if answer.Some? {
      CoversIsPrefix(exprs[answer.value], name);
      forall i | answer.value < i < |exprs|
        ensures Kept(exprs[i]) != Kept(exprs[answer.value])
      {
        SamePathSameLabels(exprs[i], exprs[answer.value]);
        assert paths[i] != Query(name)[..k];
      }
    }
  }

  /** For one name: the answer is the most specific one unless the walk runs past every covering expression. */
  lemma MostSpecificUnlessOvershot(exprs: seq<string>, name: string)
    ensures IsMostSpecific(exprs, name, Lookup(Paths(exprs), name)) <==>
            (forall i :: 0 <= i < |exprs| && Covers(exprs[i], name) ==> Lookup(Paths(exprs), name).Some?)
  {
    var answer := Lookup(Paths(exprs), name);
    AnswerCovers(exprs, name);
    if answer.Some? {
      var a := answer.value;
      forall i | 0 <= i < |exprs| && Covers(exprs[i], name)
        ensures |Kept(exprs[i])| < |Kept(exprs[a])| || (Kept(exprs[i]) == Kept(exprs[a]) && i <= a)
      {
        CoveringIsAbove(exprs, name, i);
        CoveringIsAbove(exprs, name, a);
        SamePathSameLabels(exprs[i], exprs[a]);
      }
    }
  }

  /** The trie answers every name with the most specific covering expression exactly when there are no gaps. */
  lemma MostSpecificIffGapFree(exprs: seq<string>)
    ensures (forall name :: IsMostSpecific(exprs, name, Lookup(Paths(exprs), name))) <==> GapFree(exprs)
  {
    if GapFree(exprs) {
      forall name
        ensures IsMostSpecific(exprs, name, Lookup(Paths(exprs), name))
      {
        forall i | 0 <= i < |exprs| && Covers(exprs[i], name)
          ensures Lookup(Paths(exprs), name).Some?
        {
          GapFreeAnswers(exprs, name, i);
        }
        MostSpecificUnlessOvershot(exprs, name);
      }
    }
    if forall name :: IsMostSpecific(exprs, name, Lookup(Paths(exprs), name)) {
      forall i, j, n |
        0 <= i < |exprs| && 0 <= j < |exprs| && n >= 0 && Between(Kept(exprs[i]), n, Kept(exprs[j]))
        ensures IsRegistered(exprs, LastLabels(Kept(exprs[j]), n))
      {
        GapShows(exprs, i, j, n);
      }
    }
  }

  /** Without gaps every node between two registrations on one branch carries a registration. */
  lemma GapFreeFills(exprs: seq<string>, i: nat, j: nat, k: nat) returns (m: nat)
    requires GapFree(exprs) && i < |exprs| && j < |exprs|
    requires PathOf(exprs[i]) <= PathOf(exprs[j]) && 0 < |PathOf(exprs[i])| < k <= |PathOf(exprs[j])|
    ensures m < |exprs| && PathOf(exprs[m]) == PathOf(exprs[j])[..k]
  {
    var a, b := Kept(exprs[i]), Kept(exprs[j]);
    SuffixIsReversedPrefix(a, b);
    assert Between(a, k, b);
    var tail := LastLabels(b, k);
    assert IsRegistered(exprs, tail);
    m :| 0 <= m < |exprs| && Kept(exprs[m]) == tail;
    assert Reverse(tail) == Reverse(b)[..k];
  }

  lemma GapFreeAnswers(exprs: seq<string>, name: string, i: nat)
    requires GapFree(exprs) && i < |exprs| && Covers(exprs[i], name)
    ensures Lookup(Paths(exprs), name).Some?
  {
    var paths, k := Paths(exprs), Depth(Paths(exprs), name);
    CoveringIsAbove(exprs, name, i);
    DepthIsDeepest(paths, name);
    var p := Query(name)[..k];
    LatestIsLast(paths, p);
    if |paths[i]| < k {
      var j :| 0 <= j < |paths| && p <= paths[j];
      assert p == paths[j][..k] && paths[i] <= paths[j];
      var m := GapFreeFills(exprs, i, j, k);
      assert paths[m] == p;
    } else {
      assert paths[i] == p;
    }
  }

  lemma LastLabelsFirst(labels: seq<Label>, n: nat)
    requires n <= |labels|
    ensures Reverse(LastLabels(labels, n)) == Reverse(labels)[..n]
  {
  }

  /** The name made of the last n labels of expression j is answered only if it is registered. */
  lemma GapShows(exprs: seq<string>, i: nat, j: nat, n: nat)
    requires i < |exprs| && j < |exprs|
    requires Between(Kept(exprs[i]), n, Kept(exprs[j]))
    requires forall name :: IsMostSpecific(exprs, name, Lookup(Paths(exprs), name))
    ensures IsRegistered(exprs, LastLabels(Kept(exprs[j]), n))
  {
    var paths := Paths(exprs);
    var tail := LastLabels(Kept(exprs[j]), n);
    var name := Join(tail);
    SplitIsDotFree(exprs[j]);
    NonEmptyKeeps(Split(exprs[j]));
    SplitAfterJoin(tail);
    LastLabelsFirst(Kept(exprs[j]), n);
    assert Query(name) == paths[j][..n];
    DepthIsDeepest(paths, name);
    assert Query(name)[..n] <= paths[j];
    assert Depth(paths, name) == n;
    assert Covers(exprs[i], name);
    assert IsMostSpecific(exprs, name, Lookup(paths, name));
    AnswerCovers(exprs, name);
    var a := Lookup(paths, name).value;
    assert Kept(exprs[a]) == tail;
  }

  lemma IncomparableIsGapFree(exprs: seq<string>)
    requires Incomparable(exprs)
    ensures GapFree(exprs)
  {
  }

  /** Without proper suffixes among the expressions, the answer is the latest one that covers the name. */
  lemma IncomparableAnswersLatest(exprs: seq<string>, name: string)
    requires Incomparable(exprs)
    ensures var answer := Lookup(Paths(exprs), name);
      match answer
      case None => forall i :: 0 <= i < |exprs| ==> !Covers(exprs[i], name)
      case Some(a) => a < |exprs| && Covers(exprs[a], name) &&
                      forall i :: 0 <= i < |exprs| && Covers(exprs[i], name) ==> i <= a
  {
    IncomparableIsGapFree(exprs);
    MostSpecificIffGapFree(exprs);
    var answer := Lookup(Paths(exprs), name);
    assert IsMostSpecific(exprs, name, answer);
    if answer.Some? {
      forall i | 0 <= i < |exprs| && Covers(exprs[i], name)
        ensures i <= answer.value
      {
        BothCover(exprs[i], exprs[answer.value], name);
      }
    }
  }

  lemma BothCover(a: string, b: string, name: string)
    requires Covers(a, name) && Covers(b, name)
    ensures IsSuffix(Kept(a), Kept(b)) || IsSuffix(Kept(b), Kept(a))
  {
    var x, y := Kept(a), Kept(b);
    var s := Split(name);
    if |x| <= |y| {
      assert y[|y| - |x|..] == s[|s| - |x|..];
    } else {
      assert x[|x| - |y|..] == s[|s| - |y|..];
    }
  }

  /** The deepest node wins even when nothing is registered there: "com" is lost below "a.b.com". */
  lemma DeepestNodeHidesAnswer()
    ensures Covers("com", "b.com")
    ensures Lookup(Paths(["com", "a.b.com"]), "b.com") == None
  {
    assert Join(["com"]) == "com";
    assert Join(["b", "com"]) == "b.com";
    assert Join(["a", "b", "com"]) == "a.b." + Join(["com"]);
    Hidden("com", "b.com", "a.b.com", ["a", "b", "com"]);
  }

  /** A name between two registered expressions is lost. */
  lemma Hidden(short: string, name: string, long: string, labels: seq<Label>)
    requires |labels| == 3 && DotFree(labels) && NoneEmpty(labels)
    requires short == Join(labels[2..]) && name == Join(labels[1..]) && long == Join(labels)
    ensures Covers(short, name)
    ensures Lookup(Paths([short, long]), name) == None
  {
    StoredAs(labels);
    StoredAs(labels[2..]);
    SplitAfterJoin(labels[1..]);
    var path := Reverse(labels);
    assert Query(name) == path[..2] && PathOf(short) == path[..1] && PathOf(long) == path;
    CoversIsPrefix(short, name);
    HiddenPath(Paths([short, long]), name, path);
  }

  lemma HiddenPath(paths: seq<Path>, name: string, long: Path)
    requires |long| == 3 && paths == [long[..1], long] && Query(name) == long[..2]
    ensures Lookup(paths, name) == None
  {
    DepthIsDeepest(paths, name);
    assert long[..2] <= paths[1] && Query(name)[..2] == long[..2];
    LatestIsLast(paths, long[..2]);
  }

  lemma StoredAs(labels: seq<Label>)
    requires |labels| >= 1 && DotFree(labels) && NoneEmpty(labels)
    ensures PathOf(Join(labels)) == Reverse(labels)
  {
    SplitAfterJoin(labels);
    NonEmptyIdentity(labels);
  }

  /** A leading dot changes no answer; it only keeps the counter still when all other labels were followed. */
  lemma LeadingDot(exprs: seq<string>, rest: string)
    ensures var paths := Paths(exprs);
      && Lookup(paths, "." + rest) == Lookup(paths, rest)
      && (Counted(paths, "." + rest) <==> Depth(paths, rest) < |Query(rest)|)
  {
    var paths := Paths(exprs);
    PathsAreWellFormed(exprs);
    var name := "." + rest;
    SplitAtDot(name, 0);
    assert name[..0] == "" && name[1..] == rest;
    ReverseConcat([""], Split(rest));
    assert Reverse([""]) == [""];
    LeadingDotWalk(paths, rest, name);
  }

  /** An answered name is counted, except when it begins with a dot and the labels behind the dot are the last labels
      of a registered expression. */
  lemma CountedIff(exprs: seq<string>, name: string)
    requires Lookup(Paths(exprs), name).Some?
    ensures name != ""
    ensures Counted(Paths(exprs), name) <==>
            name[0] != '.' || forall i :: 0 <= i < |exprs| ==> !IsSuffix(Split(name[1..]), Kept(exprs[i]))
  {
    var paths := Paths(exprs);
    PathsAreWellFormed(exprs);
    if name == "" {
      EmptyNameHasNoAnswer(paths);
    }
    if name[0] != '.' {
      PlainNameIsCounted(paths, name);
    } else {
      var rest := name[1..];
      assert name == "." + rest;
      LeadingDot(exprs, rest);
      DepthIsDeepest(paths, rest);
      var query := Query(rest);
      assert query[..|query|] == query;
      forall i | 0 <= i < |exprs|
        ensures IsSuffix(Split(rest), Kept(exprs[i])) <==> query <= paths[i]
      {
        SuffixIsReversedPrefix(Split(rest), Kept(exprs[i]));
      }
    }
  }

  lemma EmptyNameHasNoAnswer(paths: seq<Path>)
    requires WellFormed(paths)
    ensures Lookup(paths, "") == None
  {
    assert Query("")[..1] == [""];
    EmptyLabelHasNoNode(paths, [""]);
  }

  lemma LeadingDotWalk(paths: seq<Path>, rest: string, name: string)
    requires WellFormed(paths) && Query(name) == Query(rest) + [""]
    ensures Depth(paths, name) == Depth(paths, rest) <= |Query(rest)|
    ensures Lookup(paths, name) == Lookup(paths, rest)
  {
    var query := Query(rest);
    DepthIsDeepest(paths, name);
    DepthIsDeepest(paths, rest);
    EmptyLabelHasNoNode(paths, Query(name));
    assert Query(name)[..|query| + 1] == Query(name);
    var k, d := Depth(paths, rest), Depth(paths, name);
    assert Query(name)[..k] == query[..k];
    assert d <= |query| ==> Query(name)[..d] == query[..d];
  }

  /** A name that ends in a dot has no answer. */
  lemma TrailingDot(exprs: seq<string>, front: string)
    ensures Lookup(Paths(exprs), front + ".") == None
  {
    var paths := Paths(exprs);
    PathsAreWellFormed(exprs);
    var name := front + ".";
    SplitAtDot(name, |front|);
    assert name[..|front|] == front && name[|front| + 1..] == "";
    assert Query(name)[..1] == [""];
    EmptyLabelHasNoNode(paths, Query(name)[..1]);
  }
}
