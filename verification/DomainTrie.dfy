/** What a chain of registrations means, without the trie: src/names/DomainNameManager.cc read as a specification. */
module DomainRegistry {
  import opened Common
  import opened Labels

  /** A path from the root of the trie: labels from the right end of a name. */
  type Path = seq<Label>

  /** The path under which an expression is stored. */
  function PathOf(expression: string): Path {
    Reverse(NonEmpty(Split(expression)))
  }

  lemma PathIsWellFormed(expression: string)
    ensures DotFree(PathOf(expression)) && NoneEmpty(PathOf(expression))
  {
    SplitIsDotFree(expression);
    NonEmptyKeeps(Split(expression));
  }

  lemma PathStep(tokens: seq<Label>, i: nat)
    requires i < |tokens|
    ensures Reverse(NonEmpty(tokens[i..])) ==
            Reverse(NonEmpty(tokens[i + 1..])) + if tokens[i] != "" then [tokens[i]] else []
  {
    assert tokens[i..][1..] == tokens[i + 1..];
    ReverseConcat([tokens[i]], NonEmpty(tokens[i + 1..]));
  }

  ghost predicate WellFormed(paths: seq<Path>) {
    forall i :: 0 <= i < |paths| ==> DotFree(paths[i]) && NoneEmpty(paths[i])
  }

  /** The trie has a node for every prefix of every registered path. */
  ghost predicate HasNode(paths: seq<Path>, p: Path) {
    p == [] || exists i :: 0 <= i < |paths| && p <= paths[i]
  }

  /** The latest registration stored at p. */
  function Latest(paths: seq<Path>, p: Path): Option<nat> {
    if paths == [] then None
    else if paths[|paths| - 1] == p then Some(|paths| - 1)
    else Latest(paths[..|paths| - 1], p)
  }

  /** Number of labels consumed when query is walked from depth k until the first missing node. */
  ghost function Walk(paths: seq<Path>, query: Path, k: nat): nat
    requires k <= |query|
    decreases |query| - k
  {
    if k < |query| && HasNode(paths, query[..k + 1]) then Walk(paths, query, k + 1) else k
  }

  /** "Split, then walk": the labels of a name, rightmost first. */
  function Query(name: string): Path {
    Reverse(Split(name))
  }

  ghost function Depth(paths: seq<Path>, name: string): nat {
    Walk(paths, Query(name), 0)
  }

  /** The registration that a lookup of name returns. The root never answers. */
  ghost function Lookup(paths: seq<Path>, name: string): Option<nat> {
    var k := Depth(paths, name);
    if 0 < k <= |Query(name)| then Latest(paths, Query(name)[..k]) else None
  }

  /** A lookup is counted unless only a leading empty label was left. */
  ghost predicate Counted(paths: seq<Path>, name: string) {
    !(Depth(paths, name) == |Query(name)| - 1 && Split(name)[0] == "")
  }

  /** Only names with nothing before their first dot can go uncounted. */
  lemma PlainNameIsCounted(paths: seq<Path>, name: string)
    requires name != "" && name[0] != '.'
    ensures Counted(paths, name)
  {
    LeftmostLabel(name);
  }

  // ---------------------------------------------------------------- facts about the walk

  lemma {:induction false} LatestIsLast(paths: seq<Path>, p: Path)
    ensures match Latest(paths, p)
            case None => forall i :: 0 <= i < |paths| ==> paths[i] != p
            case Some(n) => n < |paths| && paths[n] == p && forall i :: n < i < |paths| ==> paths[i] != p
  {
    if paths != [] {
      LatestIsLast(paths[..|paths| - 1], p);
      var front := paths[..|paths| - 1];
      assert forall i :: 0 <= i < |front| ==> front[i] == paths[i];
    }
  }

  lemma LatestAppend(paths: seq<Path>, path: Path, p: Path)
    ensures Latest(paths + [path], p) == if p == path then Some(|paths|) else Latest(paths, p)
  {
    assert (paths + [path])[..|paths|] == paths;
  }

  lemma HasNodeAppend(paths: seq<Path>, path: Path, p: Path)
    ensures HasNode(paths + [path], p) <==> HasNode(paths, p) || p <= path
  {
    var more := paths + [path];
    if HasNode(paths, p) && p != [] {
      var i :| 0 <= i < |paths| && p <= paths[i];
      assert p <= more[i];
    }
    if p <= path {
      assert p <= more[|paths|];
    }
  }

  /** The part between the last dot and the right end is the next label of the query. */
  lemma CutLabel(name: string, last: int, dot: nat)
    requires dot <= last < |name| && name[dot] == '.' && forall j :: dot < j <= last ==> name[j] != '.'
    ensures Query(name[..last + 1]) == [name[dot + 1..last + 1]] + Query(name[..dot])
  {
    var s, front, token := name[..last + 1], name[..dot], name[dot + 1..last + 1];
    assert Split(s) == Split(front) + [token] by {
      SplitAtDot(s, dot);
      assert s[..dot] == front;
      assert s[dot + 1..] == token;
      SplitWithoutDot(token);
    }
    ReverseConcat(Split(front), [token]);
    assert Reverse([token]) == [token];
  }

  lemma LastLabel(name: string, last: int)
    requires -1 <= last < |name| && forall j :: 0 <= j <= last ==> name[j] != '.'
    ensures Query(name[..last + 1]) == [name[..last + 1]]
  {
    SplitWithoutDot(name[..last + 1]);
  }

  lemma WalkStep(paths: seq<Path>, path: Path, token: Label, rest: Path)
    ensures var query := path + [token] + rest;
      Walk(paths, query, |path|) ==
      if HasNode(paths, path + [token]) then Walk(paths, query, |path| + 1) else |path|
    ensures (path + [token] + rest)[..|path|] == path
    ensures (path + [token] + rest)[..|path| + 1] == path + [token]
  {
    assert (path + [token] + rest)[..|path| + 1] == path + [token];
  }

  lemma RootAddsNoNode(paths: seq<Path>)
    ensures forall p :: HasNode(paths + [[]], p) <==> HasNode(paths, p)
  {
    forall p
      ensures HasNode(paths + [[]], p) <==> HasNode(paths, p)
    {
      HasNodeAppend(paths, [], p);
    }
  }

  lemma OneMoreNode(paths: seq<Path>, path: Path, l: Label)
    ensures forall p :: HasNode(paths + [path + [l]], p) <==> HasNode(paths + [path], p) || p == path + [l]
  {
    forall p
      ensures HasNode(paths + [path + [l]], p) <==> HasNode(paths + [path], p) || p == path + [l]
    {
      HasNodeAppend(paths, path + [l], p);
      HasNodeAppend(paths, path, p);
      if p <= path + [l] && !(p <= path) {
        assert |p| == |path| + 1;
      }
    }
  }

  lemma LastLabelIsUnique(path: Path, token: Label)
    ensures forall p: Path, l :: p + [l] == path + [token] ==> p == path && l == token
  {
    var longer := path + [token];
    forall p: Path, l | p + [l] == longer
      ensures p == path && l == token
    {
      assert p == (p + [l])[..|p|] && path == longer[..|path|] && l == (p + [l])[|p|];
    }
  }

  lemma NoNodeNoRegistration(paths: seq<Path>, path: Path, p: Path)
    requires !HasNode(paths + [path], p)
    ensures Latest(paths, p) == None
    ensures forall l :: !HasNode(paths + [path], p + [l])
  {
    HasNodeAppend(paths, path, p);
    LatestIsLast(paths, p);
    forall l
      ensures !HasNode(paths + [path], p + [l])
    {
      HasNodePrefix(paths + [path], p + [l], |p|);
      assert (p + [l])[..|p|] == p;
    }
  }

  lemma HasNodePrefix(paths: seq<Path>, p: Path, k: nat)
    requires k <= |p|
    ensures HasNode(paths, p) ==> HasNode(paths, p[..k])
  {
    if HasNode(paths, p) && p != [] {
      var i :| 0 <= i < |paths| && p <= paths[i];
      assert p[..k] <= paths[i];
    }
  }

  lemma EmptyLabelHasNoNode(paths: seq<Path>, p: Path)
    requires WellFormed(paths) && p != [] && p[|p| - 1] == ""
    ensures !HasNode(paths, p)
  {
    forall i | 0 <= i < |paths| && |p| <= |paths[i]|
      ensures !(p <= paths[i])
    {
      assert paths[i][|p| - 1] != p[|p| - 1];
    }
  }

  lemma {:induction false} WalkIsDeepest(paths: seq<Path>, query: Path, k: nat)
    requires k <= |query| && HasNode(paths, query[..k])
    ensures k <= Walk(paths, query, k) <= |query|
    ensures HasNode(paths, query[..Walk(paths, query, k)])
    ensures forall j :: Walk(paths, query, k) < j <= |query| ==> !HasNode(paths, query[..j])
    decreases |query| - k
  {
    if k < |query| {
      if HasNode(paths, query[..k + 1]) {
        WalkIsDeepest(paths, query, k + 1);
      } else {
        forall j | k < j <= |query|
          ensures !HasNode(paths, query[..j])
        {
          HasNodePrefix(paths, query[..j], k + 1);
          assert query[..j][..k + 1] == query[..k + 1];
        }
      }
    }
  }
}
