/** The heap trie of src/names/DomainNameManager.cc and src/names/DomainNode.h. */
module DomainNames {
  import opened Common
  import opened Labels
  import opened DomainRegistry
  import DomainAnswers

  /** A registered domain: what getExpression() returns, and the match counter of Signature. */
  class DomainName {
    const expression: string
    var matches: nat

    constructor (expression: string)
      ensures this.expression == expression && matches == 0
    {
      this.expression, matches := expression, 0;
    }

    method IncrementMatchs()
      modifies this
      ensures matches == old(matches) + 1
    {
      matches := matches + 1;
    }
  }

  class DomainNode {
    const key: Label
    var children: map<Label, DomainNode>
    var domain: DomainName?

    constructor (key: Label)
      ensures this.key == key && children == map[] && domain == null
    {
      this.key, children, domain := key, map[], null;
    }

    function HaveKey(k: Label): DomainNode?
      reads this
    {
      if k in children then children[k] else null
    }

    /** unordered_map::insert: a key already present keeps its node. */
    method AddKey(node: DomainNode)
      modifies this`children
      ensures children == if node.key in old(children) then old(children) else old(children)[node.key := node]
    {
      if node.key !in children {
        children := children[node.key := node];
      }
    }

    method SetDomainName(d: DomainName)
      modifies this`domain
      ensures domain == d
    {
      domain := d;
    }
  }

  /** string_ref::substr: throws unless pos <= |s|, and cuts count at the end of s. */
  function Substr(s: string, pos: int, count: int): string
    requires 0 <= pos <= |s| && 0 <= count
  {
    if pos + count <= |s| then s[pos..pos + count] else s[pos..]
  }

  class DomainNameManager {
    const root: DomainNode
    var totalDomains: nat

    // The registrations in order, their paths, and the node reached by each path.
    ghost var regs: seq<DomainName>
    ghost var paths: seq<Path>
    ghost var node: map<Path, DomainNode>

    /** The node of p stores the latest registration at p, and its children are the nodes one label below p. */
    ghost predicate Linked(p: Path)
      reads this, node.Values
    {
      && p in node
      && node[p].domain == Registered(Latest(paths, p))
      && (forall l :: l in node[p].children ==> p + [l] in node && node[p].children[l] == node[p + [l]])
      && (forall l :: p + [l] in node ==> l in node[p].children)
    }

    /** The trie has exactly the nodes that the paths in shape need, each reached by one path. */
    ghost predicate Indexed(shape: seq<Path>)
      reads this, node.Values
    {
      && |paths| == |regs| && WellFormed(paths)
      && [] in node && node[[]] == root
      && (forall p :: p in node <==> HasNode(shape, p))
      && (forall p, q :: p in node && q in node && node[p] == node[q] ==> p == q)
      && (forall p {:trigger Linked(p)} :: p in node ==> Linked(p))
    }

    /** The object behind a registration number. */
    ghost function Registered(n: Option<nat>): DomainName?
      reads this
    {
      match n
      case None => null
      case Some(i) => if i < |regs| then regs[i] else null
    }

    ghost predicate Valid()
      reads this, node.Values
    {
      && Indexed(paths)
      && totalDomains == |regs|
      && forall i :: 0 <= i < |regs| ==> paths[i] == PathOf(regs[i].expression)
    }

    constructor ()
      ensures Valid() && fresh(node.Values) && regs == []
    {
      root := new DomainNode("root");
      totalDomains := 0;
      new;
      regs, paths, node := [], [], map[[] := root];
    }

    method AddDomainName(domain: DomainName)
      requires Valid()
      modifies this, node.Values
      ensures Valid() && fresh(node.Values - old(node.Values))
      ensures regs == old(regs) + [domain]
      ensures paths == old(paths) + [PathOf(domain.expression)]
    {
      hide Indexed, PathOf, DotFree, NoneEmpty;
      var curr := Descend(domain.expression);
      PathIsWellFormed(domain.expression);
      Register(curr, PathOf(domain.expression), domain);
      assert forall i :: 0 <= i < |regs| ==> paths[i] == PathOf(regs[i].expression);
    }

    /** The insertion loop: tokens right to left, empty ones skipped. */
    method Descend(expression: string) returns (curr: DomainNode)
      requires Indexed(paths)
      modifies this`node, node.Values
      ensures fresh(node.Values - old(node.Values))
      ensures Indexed(paths + [PathOf(expression)])
      ensures PathOf(expression) in node && curr == node[PathOf(expression)]
    {
      var tokens := Split(expression);
      curr := root;
      ghost var path: Path := [];
      RootAddsNoNode(paths);
      var i := |tokens|;
      while i > 0
        invariant 0 <= i <= |tokens|
        invariant path == Reverse(NonEmpty(tokens[i..]))
        invariant fresh(node.Values - old(node.Values))
        invariant Indexed(paths + [path])
        invariant path in node && curr == node[path]
      {
        i := i - 1;
        var token := tokens[i];
        PathStep(tokens, i);
        if |token| > 0 {
          curr := EnsureChild(curr, path, token);
          path := path + [token];
        }
      }
      assert tokens[0..] == tokens;
    }

    /** The end of the insertion: the reached node gets the domain. */
    method Register(curr: DomainNode, ghost path: Path, domain: DomainName)
      requires Indexed(paths + [path]) && path in node && node[path] == curr
      requires NoneEmpty(path) && DotFree(path)
      modifies this`regs, this`paths, this`totalDomains, curr`domain
      ensures Indexed(paths)
      ensures regs == old(regs) + [domain] && paths == old(paths) + [path]
      ensures totalDomains == old(totalDomains) + 1
    {
      curr.SetDomainName(domain);
      totalDomains := totalDomains + 1;
      regs, paths := regs + [domain], paths + [path];
      forall p {:trigger Linked(p)} | p in node
        ensures Linked(p)
      {
        assert old(Linked(p));
        LatestAppend(old(paths), path, p);
        LatestIsLast(old(paths), p);
      }
    }

    /** One round of the insertion loop: follow token, creating its node if it is missing. */
    method EnsureChild(curr: DomainNode, ghost path: Path, token: Label) returns (child: DomainNode)
      requires Indexed(paths + [path]) && path in node && node[path] == curr
      modifies this`node, curr`children
      ensures fresh(node.Values - old(node.Values))
      ensures path + [token] in node && child == node[path + [token]]
      ensures Indexed(paths + [path + [token]])
    {
      OneMoreNode(paths, path, token);
      assert Linked(path);
      var found := curr.HaveKey(token);
      if found == null {
        child := Grow(curr, path, token);
      } else {
        child := found;
      }
    }

    method Grow(curr: DomainNode, ghost path: Path, token: Label) returns (child: DomainNode)
      requires Indexed(paths + [path]) && path in node && node[path] == curr
      requires path + [token] !in node && token !in curr.children
      modifies this`node, curr`children
      ensures fresh(child) && node == old(node)[path + [token] := child]
      ensures Indexed(paths + [path + [token]])
    {
      ghost var longer := path + [token];
      OneMoreNode(paths, path, token);
      NoNodeNoRegistration(paths, path, longer);
      LastLabelIsUnique(path, token);
      child := new DomainNode(token);
      curr.AddKey(child);
      node := node[longer := child];
      forall p {:trigger Linked(p)} | p in node
        ensures Linked(p)
      {
        assert p != longer ==> old(Linked(p));
      }
    }

    method GetDomainName(name: string) returns (answer: DomainName?)
      requires Valid()
      modifies regs
      ensures Valid()
      ensures answer == Registered(Lookup(paths, name))
      ensures forall d :: d in regs ==>
        d.matches == old(d.matches) + if d == answer && Counted(paths, name) then 1 else 0
      ensures name != "" && name[0] != '.' ==>
        forall d :: d in regs ==> d.matches == old(d.matches) + if d == answer then 1 else 0
    {
      hide Indexed, Reached, Unread, Lookup, Counted, Depth, Query;
      if name != "" && name[0] != '.' {
        PlainNameIsCounted(paths, name);
      }
      var missed, prevIdx, curr, candidate, path := Scan(name);
      if missed {
        answer := Miss(name, curr, candidate, path);
      } else {
        answer := LastHop(name, prevIdx, curr, candidate, path);
      }
    }

    /** The scan ended at a label without a node: the candidate is the answer. */
    method Miss(name: string, curr: DomainNode, candidate: DomainName?, ghost path: Path)
      returns (answer: DomainName?)
      requires |paths| == |regs| && Reached(name, path, curr, candidate)
      requires Depth(paths, name) == |path| < |Query(name)| - 1
      modifies regs
      ensures answer == Registered(Lookup(paths, name))
      ensures forall d :: d in regs ==>
        d.matches == old(d.matches) + if d == answer && Counted(paths, name) then 1 else 0
    {
      RegisteredIsKnown(path);
      assert Query(name)[..|path|] == path;
      answer := candidate;
      Count(answer);
    }

    /** The backward scan with two indices: labels are never split off, each is cut out in place. */
    method Scan(name: string)
      returns (missed: bool, prevIdx: int, curr: DomainNode, candidate: DomainName?, ghost path: Path)
      requires Indexed(paths)
      ensures |paths| == |regs| && Reached(name, path, curr, candidate)
      ensures missed ==> Depth(paths, name) == |path| < |Query(name)| - 1
      ensures !missed ==> -1 <= prevIdx < |name| && forall j :: 0 <= j <= prevIdx ==> name[j] != '.'
      ensures !missed ==> Unread(name, path, prevIdx)
    {
      StartsAtRoot(name);
      hide Indexed, Reached, Unread, Query, Substr, Depth;
      missed, prevIdx, curr, candidate, path := false, |name| - 1, root, null, [];
      var idx := prevIdx;
      while idx >= 0
        invariant -1 <= idx <= prevIdx < |name|
        invariant forall j :: idx < j <= prevIdx ==> name[j] != '.'
        invariant Unread(name, path, prevIdx)
        invariant Reached(name, path, curr, candidate)
      {
        if name[idx] == '.' {
          var key := Substr(name, idx + 1, prevIdx - idx);
          Hop(name, prevIdx, idx, path, curr, candidate);
          var next := curr.HaveKey(key);
          if next != null {
            curr := next;
            candidate := next.domain;
          } else {
            missed := true;
            return;
          }
          prevIdx := idx - 1;
          path := path + [key];
        }
        idx := idx - 1;
      }
    }

    lemma StartsAtRoot(name: string)
      requires Indexed(paths)
      ensures |paths| == |regs| && Reached(name, [], root, null) && Unread(name, [], |name| - 1)
    {
      assert name[..|name|] == name && [] + Query(name) == Query(name);
    }

    /** Behind the labels of path, those of the first prevIdx + 1 characters are still to be followed. */
    ghost predicate Unread(name: string, path: Path, prevIdx: int) {
      -1 <= prevIdx < |name| && Query(name) == path + Query(name[..prevIdx + 1])
    }

    /** The label cut out at a dot is the next one of the query. */
    lemma HopAt(name: string, prevIdx: int, idx: nat, path: Path)
      requires idx <= prevIdx < |name| && name[idx] == '.' && forall j :: idx < j <= prevIdx ==> name[j] != '.'
      requires Query(name) == path + Query(name[..prevIdx + 1])
      ensures var longer := path + [Substr(name, idx + 1, prevIdx - idx)];
        && Query(name) == longer + Query(name[..idx])
        && Walk(paths, Query(name), |path|) ==
           if HasNode(paths, longer) then Walk(paths, Query(name), |longer|) else |path|
    {
      var key := Substr(name, idx + 1, prevIdx - idx);
      CutLabel(name, prevIdx, idx);
      assert Query(name) == path + [key] + Query(name[..idx]);
      WalkStep(paths, path, key, Query(name[..idx]));
    }

    /** One round of the scan: the child named by the label is the next node of the walk, or the walk ends. */
    lemma Hop(name: string, prevIdx: int, idx: nat, path: Path, curr: DomainNode, candidate: DomainName?)
      requires Indexed(paths) && Reached(name, path, curr, candidate)
      requires idx <= prevIdx < |name| && name[idx] == '.' && forall j :: idx < j <= prevIdx ==> name[j] != '.'
      requires Unread(name, path, prevIdx)
      ensures var key := Substr(name, idx + 1, prevIdx - idx);
        && Unread(name, path + [key], idx - 1)
        && var next := curr.HaveKey(key);
           if next == null then Depth(paths, name) == |path| < |Query(name)| - 1
           else Reached(name, path + [key], next, next.domain)
    {
      HopAt(name, prevIdx, idx, path);
      Child(path, Substr(name, idx + 1, prevIdx - idx));
    }

    /** Bumps the counter of the answer, if there is one. */
    method Count(answer: DomainName?)
      requires answer != null ==> answer in regs
      modifies regs
      ensures forall d :: d in regs ==> d.matches == old(d.matches) + if d == answer then 1 else 0
    {
      if answer != null {
        answer.IncrementMatchs();
      }
    }

    /** After the scan: the leftmost label. Nothing is counted when it is empty. */
    method LastHop(name: string, prevIdx: int, curr: DomainNode, candidate: DomainName?, ghost path: Path)
      returns (answer: DomainName?)
      requires Indexed(paths) && |paths| == |regs|
      requires -1 <= prevIdx < |name| && forall j :: 0 <= j <= prevIdx ==> name[j] != '.'
      requires Unread(name, path, prevIdx) && Reached(name, path, curr, candidate)
      modifies regs
      ensures answer == Registered(Lookup(paths, name))
      ensures forall d :: d in regs ==>
        d.matches == old(d.matches) + if d == answer && Counted(paths, name) then 1 else 0
    {
      PathsAreWellFormed();
      hide Indexed, WellFormed;
      answer := candidate;
      var key := Substr(name, 0, prevIdx + 1);
      LastLabel(name, prevIdx);
      assert Query(name) == path + [key] + [];
      WalkStep(paths, path, key, []);
      Child(path, key);
      RegisteredIsKnown(path);
      RegisteredIsKnown(path + [key]);
      if |key| > 0 {
        var next := curr.HaveKey(key);
        if next != null {
          answer := next.domain;
        }
        Count(answer);
      } else {
        EmptyLabelHasNoNode(paths, path + [key]);
      }
    }

    /** The first labels of name lead along path to curr; answer is what a miss would return now. */
    ghost predicate Reached(name: string, path: Path, curr: DomainNode, answer: DomainName?)
      reads this, node.Values
    {
      && path in node && node[path] == curr
      && path <= Query(name) && Depth(paths, name) == Walk(paths, Query(name), |path|)
      && answer == (if path == [] then null else Registered(Latest(paths, path)))
    }

    /** What the children of a node mean for the registry. */
    lemma Child(path: Path, l: Label)
      requires Indexed(paths) && path in node
      ensures l in node[path].children <==> HasNode(paths, path + [l])
      ensures l in node[path].children ==>
        var next := node[path].children[l];
        path + [l] in node && next == node[path + [l]] && next.domain == Registered(Latest(paths, path + [l]))
    {
      assert Linked(path);
      assert path + [l] in node ==> Linked(path + [l]);
    }

    lemma PathsAreWellFormed()
      requires Indexed(paths)
      ensures WellFormed(paths)
    {
    }

    ghost function Expressions(): seq<string>
      reads this
    {
      seq(|regs|, i requires 0 <= i < |regs| reads this => regs[i].expression)
    }

    /** What GetDomainName returns is the most specific registered domain for every name exactly when the
        registered expressions leave no gaps. */
    lemma MostSpecificIff()
      requires Valid()
      ensures (forall name ::
                DomainAnswers.IsMostSpecific(Expressions(), name, Lookup(paths, name))) <==>
              DomainAnswers.GapFree(Expressions())
    {
      assert paths == DomainAnswers.Paths(Expressions());
      DomainAnswers.MostSpecificIffGapFree(Expressions());
    }

    lemma RegisteredIsKnown(path: Path)
      requires |paths| == |regs|
      ensures Registered(Latest(paths, path)) != null ==> Registered(Latest(paths, path)) in regs
    {
    }
  }
}
