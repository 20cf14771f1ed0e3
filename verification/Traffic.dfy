/** Counting along paths: what many walks through a graph of layers add up to at each layer. */
module Traffic {
  import opened Common

  /** A walk visits no layer twice. */
  ghost predicate Simple<T>(path: seq<T>) {
    |path| > 0 && NoDuplicates(path)
  }

  predicate Steps<T(==)>(path: seq<T>, s: T, t: T) {
    exists i :: 0 <= i < |path| - 1 && path[i] == s && path[i + 1] == t
  }

  /** Walks that visit m. */
  function Visits<T(==)>(walks: seq<seq<T>>, m: T): nat {
    if walks == [] then 0
    else Visits(walks[..|walks| - 1], m) + if m in walks[|walks| - 1] then 1 else 0
  }

  /** Walks that begin at m. */
  function Entries<T(==)>(walks: seq<seq<T>>, m: T): nat {
    if walks == [] then 0
    else
      var last := walks[|walks| - 1];
      Entries(walks[..|walks| - 1], m) + if last != [] && last[0] == m then 1 else 0
  }

  /** Walks that end at m. */
  function Ends<T(==)>(walks: seq<seq<T>>, m: T): nat {
    if walks == [] then 0
    else
      var last := walks[|walks| - 1];
      Ends(walks[..|walks| - 1], m) + if last != [] && last[|last| - 1] == m then 1 else 0
  }

  /** Walks that step from s to t. */
  function Moves<T(==)>(walks: seq<seq<T>>, s: T, t: T): nat {
    if walks == [] then 0
    else Moves(walks[..|walks| - 1], s, t) + if Steps(walks[|walks| - 1], s, t) then 1 else 0
  }

  /** Moves into m along all edges from the given layers. */
  function MovesInto<T(==)>(walks: seq<seq<T>>, layers: seq<T>, m: T): nat {
    if layers == [] then 0 else Moves(walks, layers[0], m) + MovesInto(walks, layers[1..], m)
  }

  /** Moves out of m along all edges to the given layers. */
  function MovesOutOf<T(==)>(walks: seq<seq<T>>, layers: seq<T>, m: T): nat {
    if layers == [] then 0 else Moves(walks, m, layers[0]) + MovesOutOf(walks, layers[1..], m)
  }

  lemma MovesPeel<T>(walks: seq<seq<T>>, layer: T, layers: seq<T>, m: T)
    ensures MovesInto(walks, [layer] + layers, m) == Moves(walks, layer, m) + MovesInto(walks, layers, m)
    ensures MovesOutOf(walks, [layer] + layers, m) == Moves(walks, m, layer) + MovesOutOf(walks, layers, m)
  {
    assert ([layer] + layers)[1..] == layers;
  }

  /** How often x stands in s. */
  function Occurrences<T(==)>(s: seq<T>, x: T): nat {
    if s == [] then 0 else (if s[0] == x then 1 else 0) + Occurrences(s[1..], x)
  }

  lemma {:induction false} OccursOnce<T>(s: seq<T>, x: T)
    requires NoDuplicates(s)
    ensures Occurrences(s, x) == if x in s then 1 else 0
  {
    if s != [] {
      OccursOnce(s[1..], x);
    }
  }

  /** One more walk adds one move into m if it passes on to m, counted at the layer before m. */
  lemma {:induction false} OneMoreInto<T>(walks: seq<seq<T>>, path: seq<T>, layers: seq<T>, m: T)
    requires Simple(path)
    ensures MovesInto(walks + [path], layers, m) == MovesInto(walks, layers, m) +
      if m in path[1..] then Occurrences(layers, Before(path, m)) else 0
  {
    if layers != [] {
      OneMoreInto(walks, path, layers[1..], m);
      assert (walks + [path])[..|walks|] == walks;
      StepsInto(path, layers[0], m);
    }
  }

  lemma {:induction false} OneMoreOutOf<T>(walks: seq<seq<T>>, path: seq<T>, layers: seq<T>, m: T)
    requires Simple(path)
    ensures MovesOutOf(walks + [path], layers, m) == MovesOutOf(walks, layers, m) +
      if m in path[..|path| - 1] then Occurrences(layers, Behind(path, m)) else 0
  {
    if layers != [] {
      OneMoreOutOf(walks, path, layers[1..], m);
      assert (walks + [path])[..|walks|] == walks;
      StepsOutOf(path, m, layers[0]);
    }
  }

  /** The layer from which a simple path reaches m. */
  function Before<T(==)>(path: seq<T>, m: T): T
    requires |path| > 0 && m in path[1..]
  {
    path[IndexOf(path[1..], m)]
  }

  /** The layer to which a simple path leaves m. */
  function Behind<T(==)>(path: seq<T>, m: T): T
    requires |path| > 0 && m in path[..|path| - 1]
  {
    path[IndexOf(path[..|path| - 1], m) + 1]
  }

  lemma StepsInto<T>(path: seq<T>, s: T, m: T)
    requires Simple(path)
    ensures Steps(path, s, m) <==> m in path[1..] && s == Before(path, m)
  {
    if Steps(path, s, m) {
      var i :| 0 <= i < |path| - 1 && path[i] == s && path[i + 1] == m;
      assert path[1..][i] == m;
      assert path[IndexOf(path[1..], m) + 1] == m;
    }
    if m in path[1..] && s == Before(path, m) {
      var i := IndexOf(path[1..], m);
      assert path[i] == s && path[i + 1] == m;
    }
  }

  lemma StepsOutOf<T>(path: seq<T>, m: T, t: T)
    requires Simple(path)
    ensures Steps(path, m, t) <==> m in path[..|path| - 1] && t == Behind(path, m)
  {
    if Steps(path, m, t) {
      var i :| 0 <= i < |path| - 1 && path[i] == m && path[i + 1] == t;
      assert path[..|path| - 1][i] == m;
      assert path[IndexOf(path[..|path| - 1], m)] == m;
    }
    if m in path[..|path| - 1] && t == Behind(path, m) {
      var i := IndexOf(path[..|path| - 1], m);
      assert path[i] == m && path[i + 1] == t;
    }
  }

  ghost predicate AllWithin<T>(walks: seq<seq<T>>, layers: seq<T>) {
    forall i :: 0 <= i < |walks| ==> Simple(walks[i]) && forall m :: m in walks[i] ==> m in layers
  }

  /** At every layer, visits are entries plus the moves along all incoming edges,
      and also ends plus the moves along all outgoing edges. */
  lemma {:induction false} TrafficBalances<T>(walks: seq<seq<T>>, layers: seq<T>, m: T)
    requires NoDuplicates(layers)
    requires AllWithin(walks, layers)
    ensures Visits(walks, m) == Entries(walks, m) + MovesInto(walks, layers, m)
    ensures Visits(walks, m) == Ends(walks, m) + MovesOutOf(walks, layers, m)
  {
    if walks == [] {
      NoWalkNoMoves(layers, m);
    } else {
      var before, path := walks[..|walks| - 1], walks[|walks| - 1];
      TrafficBalances(before, layers, m);
      assert walks == before + [path];
      OneMoreInto(before, path, layers, m);
      OneMoreOutOf(before, path, layers, m);
      assert path == [path[0]] + path[1..] == path[..|path| - 1] + [path[|path| - 1]];
      if m in path[1..] {
        OccursOnce(layers, Before(path, m));
      }
      if m in path[..|path| - 1] {
        OccursOnce(layers, Behind(path, m));
      }
      OnceAtTheEnds(path, m);
    }
  }

  lemma OnceAtTheEnds<T>(path: seq<T>, m: T)
    requires Simple(path)
    ensures m in path <==> m == path[0] || m in path[1..]
    ensures m in path <==> m == path[|path| - 1] || m in path[..|path| - 1]
    ensures path[0] !in path[1..] && path[|path| - 1] !in path[..|path| - 1]
  {
    assert path == [path[0]] + path[1..] == path[..|path| - 1] + [path[|path| - 1]];
  }

  lemma {:induction false} NoWalkNoMoves<T>(layers: seq<T>, m: T)
    ensures MovesInto([], layers, m) == 0 == MovesOutOf([], layers, m)
  {
    if layers != [] {
      NoWalkNoMoves(layers[1..], m);
    }
  }
}
