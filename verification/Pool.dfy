/** The slot stack of src/Cache.h as values: what each operation does, and what runs of operations keep. */
module PoolModel {
  import opened Common

  /** items below total are available; the slots from total on are stale copies of what was handed out. */
  datatype Pool<T> = Pool(items: seq<T>, total: nat, acquires: nat, releases: nat, fails: nat)

  datatype Op<T> = Acquire | Release(a: T) | Create(objects: seq<T>) | Destroy(number: int)

  ghost predicate Sound<T>(p: Pool<T>) {
    p.total <= |p.items| && |p.items| - p.total == p.acquires - p.releases
  }

  function Empty<T>(): Pool<T> {
    Pool([], 0, 0, 0, 0)
  }

  function Top<T>(p: Pool<T>): Option<T> {
    if 0 < p.total <= |p.items| then Some(p.items[p.total - 1]) else None
  }

  function AfterAcquire<T>(p: Pool<T>): Pool<T> {
    if p.total > 0 then p.(total := p.total - 1, acquires := p.acquires + 1) else p.(fails := p.fails + 1)
  }

  function AfterRelease<T>(p: Pool<T>, a: T): Pool<T> {
    if p.total < |p.items|
    then p.(items := p.items[p.total := a], total := p.total + 1, releases := p.releases + 1)
    else p
  }

  function AfterCreate<T>(p: Pool<T>, objects: seq<T>): Pool<T> {
    p.(items := p.items + objects, total := p.total + |objects|)
  }

  /** How many objects destroy removes: a negative number converts to a huge one and removes all. */
  function DestroyCount(total: nat, number: int): nat {
    if number < 0 || number > total then total else number
  }

  function AfterDestroy<T>(p: Pool<T>, number: int): Pool<T>
    requires p.total <= |p.items|
  {
    var left := p.total - DestroyCount(p.total, number);
    p.(items := p.items[..left] + p.items[p.total..], total := left)
  }

  function After<T>(p: Pool<T>, op: Op<T>): Pool<T> {
    match op
    case Acquire => AfterAcquire(p)
    case Release(a) => AfterRelease(p, a)
    case Create(objects) => AfterCreate(p, objects)
    case Destroy(n) => if p.total <= |p.items| then AfterDestroy(p, n) else p
  }

  function Run<T>(p: Pool<T>, ops: seq<Op<T>>): Pool<T>
    decreases |ops|
  {
    if ops == [] then p else Run(After(p, ops[0]), ops[1..])
  }

  // ---------------------------------------------------------------- accounting, whatever the caller does

  /** On every run from an empty pool, size minus total is acquires minus releases. */
  lemma {:induction false} AccountsBalance<T>(p: Pool<T>, ops: seq<Op<T>>)
    requires Sound(p)
    ensures Sound(Run(p, ops))
    decreases |ops|
  {
    if ops != [] {
      AccountsBalance(After(p, ops[0]), ops[1..]);
    }
  }

  /** Calls of acquire in a run. */
  function AcquireCalls<T>(ops: seq<Op<T>>): nat
    decreases |ops|
  {
    if ops == [] then 0 else (if ops[0].Acquire? then 1 else 0) + AcquireCalls(ops[1..])
  }

  /** On every run each call of acquire is counted once, as an acquire or as a failure. */
  lemma {:induction false} CallsAreCounted<T>(p: Pool<T>, ops: seq<Op<T>>)
    ensures Run(p, ops).acquires + Run(p, ops).fails == p.acquires + p.fails + AcquireCalls(ops)
    decreases |ops|
  {
    if ops != [] {
      CallsAreCounted(After(p, ops[0]), ops[1..]);
    }
  }

  /** It is a failure exactly when nothing is available, and then nothing else changes. */
  lemma FailsIffEmpty<T>(p: Pool<T>)
    requires p.total <= |p.items|
    ensures var q := AfterAcquire(p);
      && (q.fails == p.fails + 1 <==> Available(p) == [])
      && (q.acquires == p.acquires + 1 <==> Available(p) != [])
      && (Available(p) == [] ==> q == p.(fails := p.fails + 1))
  {
  }

  /** Destroying n objects leaves n fewer available, and none if n is negative or more than there are; what is
      outstanding keeps its slots. */
  lemma DestroyLeaves<T>(p: Pool<T>, n: int)
    requires p.total <= |p.items|
    ensures var q := AfterDestroy(p, n);
      && |Available(q)| == (if 0 <= n <= |Available(p)| then |Available(p)| - n else 0)
      && Available(q) <= Available(p) && q.items[q.total..] == p.items[p.total..]
  {
  }

  // ---------------------------------------------------------------- ownership

  /** out: the objects in the hands of callers, in the order they were acquired. */
  function OutAfter<T(==)>(p: Pool<T>, out: seq<T>, op: Op<T>): seq<T> {
    match op
    case Acquire => if Top(p).Some? then out + [Top(p).value] else out
    case Release(a) => WithoutLatest(out, a)
    case _ => out
  }

  /** out without the latest occurrence of a. */
  function WithoutLatest<T(==)>(out: seq<T>, a: T): (r: seq<T>)
    ensures a in out ==> multiset(out) == multiset(r) + multiset{a}
    ensures a !in out ==> r == out
  {
    if out == [] then []
    else
      var n := |out| - 1;
      assert out == out[..n] + [out[n]];
      if out[n] == a then out[..n]
      else
        var r := WithoutLatest(out[..n], a) + [out[n]];
        assert multiset(r) == multiset(WithoutLatest(out[..n], a)) + multiset{out[n]};
        r
  }

  /** The discipline of the callers: only outstanding objects are released, and the pool grows only when
      nothing is outstanding. */
  ghost predicate Allowed<T>(p: Pool<T>, out: seq<T>, op: Op<T>) {
    match op
    case Acquire => true
    case Release(a) => a in out
    case Create(objects) => objects == [] || p.total == |p.items|
    case Destroy(_) => true
  }

  ghost predicate Disciplined<T>(p: Pool<T>, out: seq<T>, ops: seq<Op<T>>)
    decreases |ops|
  {
    ops == [] || (Allowed(p, out, ops[0]) && Disciplined(After(p, ops[0]), OutAfter(p, out, ops[0]), ops[1..]))
  }

  function OutAfterAll<T(==)>(p: Pool<T>, out: seq<T>, ops: seq<Op<T>>): seq<T>
    decreases |ops|
  {
    if ops == [] then out else OutAfterAll(After(p, ops[0]), OutAfter(p, out, ops[0]), ops[1..])
  }

  /** Objects available in the pool. */
  function Available<T>(p: Pool<T>): seq<T> {
    if p.total <= |p.items| then p.items[..p.total] else p.items
  }

  /** Available and outstanding objects are all different, and every empty slot has its outstanding object. */
  ghost predicate Owned<T>(p: Pool<T>, out: seq<T>) {
    && p.total <= |p.items| && |out| == |p.items| - p.total
    && NoDuplicates(Available(p) + out)
  }

  /** The objects of a run: those of the pool, those handed out, and those still to be created. */
  function Fresh<T>(ops: seq<Op<T>>): seq<T> {
    if ops == [] then []
    else Created(ops[0]) + Fresh(ops[1..])
  }

  lemma TwicePresent<T>(s: seq<T>, i: nat, j: nat)
    requires i < j < |s| && s[i] == s[j]
    ensures multiset(s)[s[i]] >= 2
  {
    assert s == s[..i] + [s[i]] + s[i + 1..j] + [s[j]] + s[j + 1..];
  }

  lemma {:induction false} OncePresent<T>(s: seq<T>, x: T)
    requires NoDuplicates(s)
    ensures multiset(s)[x] <= 1
  {
    if s != [] {
      var n := |s| - 1;
      assert s == s[..n] + [s[n]];
      OncePresent(s[..n], x);
      assert x == s[n] ==> x !in s[..n];
    }
  }

  lemma FewerNoDuplicates<T>(a: seq<T>, b: seq<T>)
    requires multiset(a) <= multiset(b) && NoDuplicates(b)
    ensures NoDuplicates(a)
  {
    forall i, j | 0 <= i < j < |a|
      ensures a[i] != a[j]
    {
      OncePresent(b, a[i]);
      if a[i] == a[j] {
        TwicePresent(a, i, j);
      }
    }
  }

  /** The objects that a step brings into being. */
  function Created<T>(op: Op<T>): seq<T> {
    if op.Create? then op.objects else []
  }

  lemma OwnedStep<T>(p: Pool<T>, out: seq<T>, op: Op<T>, later: seq<T>)
    requires Owned(p, out) && Allowed(p, out, op)
    requires NoDuplicates(Available(p) + out + Created(op) + later)
    ensures Owned(After(p, op), OutAfter(p, out, op))
    ensures NoDuplicates(Available(After(p, op)) + OutAfter(p, out, op) + later)
  {
    var q, out' := After(p, op), OutAfter(p, out, op);
    StepConserves(p, out, op);
    var before, after := Available(p) + out + Created(op) + later, Available(q) + out' + later;
    assert multiset(before) == multiset(Available(p)) + multiset(out) + multiset(Created(op)) + multiset(later);
    assert multiset(after) == multiset(Available(q)) + multiset(out') + multiset(later);
    FewerNoDuplicates(after, before);
    FewerNoDuplicates(Available(q) + out', after);
  }

  /** One allowed step neither invents nor duplicates an object; only destroy loses some. */
  lemma StepConserves<T>(p: Pool<T>, out: seq<T>, op: Op<T>)
    requires Owned(p, out) && Allowed(p, out, op)
    ensures var q, out' := After(p, op), OutAfter(p, out, op);
      && q.total <= |q.items| && |out'| == |q.items| - q.total
      && multiset(Available(q)) + multiset(out') <=
         multiset(Available(p)) + multiset(out) + multiset(Created(op))
      && (op.Destroy? ||
          multiset(Available(q)) + multiset(out') ==
          multiset(Available(p)) + multiset(out) + multiset(Created(op)))
  {
    match op
    case Acquire => AcquireConserves(p, out);
    case Release(a) => ReleaseConserves(p, out, a);
    case Create(objects) =>
      assert p.total == |p.items| ==> p.items[..p.total] == p.items;
      assert Available(After(p, op)) == Available(p) + objects;
    case Destroy(number) =>
      var n, left := p.total, p.total - DestroyCount(p.total, number);
      assert p.items[..n] == p.items[..left] + p.items[left..n];
      assert Available(After(p, op)) == p.items[..left];
  }

  lemma AcquireConserves<T>(p: Pool<T>, out: seq<T>)
    requires Owned(p, out)
    ensures var q, out' := AfterAcquire(p), OutAfter(p, out, Acquire);
      && q.total <= |q.items| && |out'| == |q.items| - q.total
      && multiset(Available(q)) + multiset(out') == multiset(Available(p)) + multiset(out)
  {
    var n := p.total;
    if n > 0 {
      assert p.items[..n] == p.items[..n - 1] + [p.items[n - 1]];
      assert OutAfter(p, out, Acquire) == out + [p.items[n - 1]];
    }
  }

  lemma ReleaseConserves<T>(p: Pool<T>, out: seq<T>, a: T)
    requires Owned(p, out) && a in out
    ensures var q, out' := AfterRelease(p, a), OutAfter(p, out, Release(a));
      && q.total <= |q.items| && |out'| == |q.items| - q.total
      && multiset(Available(q)) + multiset(out') == multiset(Available(p)) + multiset(out)
  {
    var n, out' := p.total, WithoutLatest(out, a);
    assert |multiset(out)| == |multiset(out')| + 1;
    assert |multiset(out)| == |out| && |multiset(out')| == |out'|;
    assert AfterRelease(p, a).items[..n + 1] == p.items[..n] + [a];
  }

  /** On every disciplined run no object is in two places: not twice in the pool, not twice outstanding,
      never both available and outstanding. */
  lemma {:induction false} OwnershipIsExclusive<T>(p: Pool<T>, out: seq<T>, ops: seq<Op<T>>)
    requires Owned(p, out) && Disciplined(p, out, ops)
    requires NoDuplicates(Available(p) + out + Fresh(ops))
    ensures Owned(Run(p, ops), OutAfterAll(p, out, ops))
    decreases |ops|
  {
    if ops != [] {
      assert Available(p) + out + Fresh(ops) == Available(p) + out + Created(ops[0]) + Fresh(ops[1..]);
      OwnedStep(p, out, ops[0], Fresh(ops[1..]));
      OwnershipIsExclusive(After(p, ops[0]), OutAfter(p, out, ops[0]), ops[1..]);
    }
  }

  /** Creating new objects makes exactly the new ones available if and only if nothing is outstanding. */
  lemma CreateIsCleanIff<T>(p: Pool<T>, objects: seq<T>)
    requires p.total <= |p.items| && objects != []
    requires forall x :: x in objects ==> x !in p.items
    ensures Available(AfterCreate(p, objects)) == Available(p) + objects <==> p.total == |p.items|
  {
    var q := AfterCreate(p, objects);
    if p.total == |p.items| {
      assert p.items[..p.total] == p.items;
    } else {
      assert Available(q)[p.total] == p.items[p.total] && p.items[p.total] in p.items;
      assert (Available(p) + objects)[p.total] == objects[0] && objects[0] in objects;
    }
  }

  // ---------------------------------------------------------------- releases in reverse order

  /** Acquires and releases only, each release giving back the object acquired last. */
  ghost predicate Lifo<T>(p: Pool<T>, out: seq<T>, ops: seq<Op<T>>)
    decreases |ops|
  {
    ops == [] ||
    (&& (ops[0].Acquire? || (ops[0].Release? && out != [] && ops[0].a == out[|out| - 1]))
     && Lifo(After(p, ops[0]), OutAfter(p, out, ops[0]), ops[1..]))
  }

  /** Releases of outstanding objects and acquires, in any order. */
  ghost predicate Exchanges<T>(p: Pool<T>, out: seq<T>, ops: seq<Op<T>>)
    decreases |ops|
  {
    ops == [] ||
    (&& (ops[0].Acquire? || (ops[0].Release? && ops[0].a in out))
     && Exchanges(After(p, ops[0]), OutAfter(p, out, ops[0]), ops[1..]))
  }

  /** No step of the run changes what the slots hold, so nothing the pool owns is ever dropped. */
  ghost predicate Stable<T>(p: Pool<T>, ops: seq<Op<T>>)
    decreases |ops|
  {
    ops == [] || (After(p, ops[0]).items == p.items && Stable(After(p, ops[0]), ops[1..]))
  }

  /** The slots from total on hold the outstanding objects, the latest one lowest. */
  ghost predicate Mirrored<T>(p: Pool<T>, out: seq<T>) {
    p.total <= |p.items| && p.items[p.total..] == Reverse(out)
  }

  lemma MirroredStep<T>(p: Pool<T>, out: seq<T>, op: Op<T>)
    requires Mirrored(p, out) && (op.Acquire? || (op.Release? && out != [] && op.a == out[|out| - 1]))
    ensures After(p, op).items == p.items
    ensures Mirrored(After(p, op), OutAfter(p, out, op))
  {
    var n := p.total;
    match op
    case Acquire =>
      if n > 0 {
        ReverseConcat(out, [p.items[n - 1]]);
        assert p.items[n - 1..] == [p.items[n - 1]] + p.items[n..];
      }
    case Release(a) =>
      assert p.items[n..][0] == a;
      assert p.items[n := a] == p.items;
      assert Reverse(out)[1..] == Reverse(out[..|out| - 1]);
  }

  /** Among exchanges of outstanding objects, exactly the last-in-first-out ones leave the slots alone. */
  lemma {:induction false} StableIffLifo<T>(p: Pool<T>, out: seq<T>, ops: seq<Op<T>>)
    requires Mirrored(p, out) && Exchanges(p, out, ops)
    ensures Stable(p, ops) <==> Lifo(p, out, ops)
    decreases |ops|
  {
    if ops != [] {
      var op := ops[0];
      if op.Release? && op.a != out[|out| - 1] {
        assert p.items[p.total..][0] == out[|out| - 1];
        assert After(p, op).items[p.total] == op.a;
      } else {
        MirroredStep(p, out, op);
        StableIffLifo(After(p, op), OutAfter(p, out, op), ops[1..]);
      }
    }
  }

  /** After a last-in-first-out run the slots are as before and mirror what is still outstanding. */
  lemma {:induction false} LifoKeepsSlots<T>(p: Pool<T>, out: seq<T>, ops: seq<Op<T>>)
    requires Mirrored(p, out) && Lifo(p, out, ops)
    ensures Run(p, ops).items == p.items
    ensures Mirrored(Run(p, ops), OutAfterAll(p, out, ops))
    decreases |ops|
  {
    if ops != [] {
      MirroredStep(p, out, ops[0]);
      LifoKeepsSlots(After(p, ops[0]), OutAfter(p, out, ops[0]), ops[1..]);
    }
  }

  /** A release drops exactly the object in the slot it overwrites, unless that is the released one. */
  lemma ReleaseDrops<T>(p: Pool<T>, a: T, b: T)
    requires p.total < |p.items| && NoDuplicates(p.items)
    ensures b in AfterRelease(p, a).items <==> b == a || (b in p.items && b != p.items[p.total])
  {
    var n, after := p.total, AfterRelease(p, a).items;
    forall i | 0 <= i < |after|
      ensures after[i] == if i == n then a else p.items[i]
    {
    }
    assert after[n] == a;
    if b in p.items && b != p.items[n] {
      var i :| 0 <= i < |p.items| && p.items[i] == b;
      assert after[i] == b;
    }
  }

  // ---------------------------------------------------------------- many releases

  /** Releases in the order of the sequence. */
  function AfterReleases<T>(p: Pool<T>, released: seq<T>): Pool<T> {
    if released == [] then p
    else AfterRelease(AfterReleases(p, released[..|released| - 1]), released[|released| - 1])
  }

  /** Releases that find an empty slot each push their object, in order. */
  lemma {:induction false} ReleasesPush<T>(p: Pool<T>, released: seq<T>)
    requires p.total + |released| <= |p.items|
    ensures var q := AfterReleases(p, released);
      && |q.items| == |p.items| && q.total == p.total + |released|
      && q.releases == p.releases + |released| && q.acquires == p.acquires
      && Available(q) == Available(p) + released
  {
    if released != [] {
      var n := |released| - 1;
      ReleasesPush(p, released[..n]);
      var q := AfterReleases(p, released[..n]);
      assert AfterRelease(q, released[n]).items[..q.total + 1] == q.items[..q.total] + [released[n]];
      assert released == released[..n] + [released[n]];
    }
  }

  lemma ReleasesSnoc<T>(p: Pool<T>, released: seq<T>, a: T)
    ensures AfterReleases(p, released + [a]) == AfterRelease(AfterReleases(p, released), a)
  {
    assert (released + [a])[..|released|] == released;
  }

  /** How many of n releases find an empty slot. */
  function Room<T>(p: Pool<T>, n: nat): nat {
    if p.total + n <= |p.items| then n else if p.total <= |p.items| then |p.items| - p.total else 0
  }

  /** Releases overwrite the empty slots from the first one on, as far as there are any; the rest is ignored. */
  lemma {:induction false} ReleasesOverwrite<T>(p: Pool<T>, released: seq<T>)
    requires p.total <= |p.items|
    ensures var q, m := AfterReleases(p, released), Room(p, |released|);
      && m <= |released| && p.total + m <= |p.items|
      && q.total == p.total + m && q.releases == p.releases + m
      && q.items == p.items[..p.total] + released[..m] + p.items[p.total + m..]
  {
    var n := |released| - 1;
    if released == [] {
      assert p.items == p.items[..p.total] + [] + p.items[p.total..];
    } else {
      ReleasesOverwrite(p, released[..n]);
      OneMoreOverwritten(p, AfterReleases(p, released[..n]), released);
    }
  }

  lemma OneMoreOverwritten<T>(p: Pool<T>, q: Pool<T>, released: seq<T>)
    requires p.total <= |p.items| && released != []
    requires var n, m := |released| - 1, Room(p, |released| - 1);
      && m <= n && p.total + m <= |p.items| && q.total == p.total + m
      && q.items == p.items[..p.total] + released[..n][..m] + p.items[p.total + m..]
    ensures var after, m := AfterRelease(q, released[|released| - 1]), Room(p, |released|);
      && m <= |released| && p.total + m <= |p.items|
      && after.items == p.items[..p.total] + released[..m] + p.items[p.total + m..]
  {
    var n, m := |released| - 1, Room(p, |released| - 1);
    var after := AfterRelease(q, released[n]);
    if q.total < |q.items| {
      assert m == n && released[..n] + [released[n]] == released == released[..n + 1];
      assert p.items[p.total + n..] == [p.items[p.total + n]] + p.items[p.total + n + 1..];
      assert after.items == p.items[..p.total] + released + p.items[p.total + n + 1..];
    } else {
      assert released[..n][..m] == released[..m];
    }
  }
}
