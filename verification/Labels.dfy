/** Splitting a dotted name into labels, and joining labels again. */
module Labels {
  import opened Common

  type Label = string

  /** All tokens between dots, empty ones included. */
  function Split(name: string): (labels: seq<Label>)
    ensures |labels| >= 1
  {
    if name == "" then [""]
    else
      Put(name[0], Split(name[1..]))
  }

  /** Adds a character in front of a name that is already split. */
  function Put(c: char, labels: seq<Label>): (r: seq<Label>)
    requires |labels| >= 1
    ensures |r| >= 1
  {
    if c == '.' then [""] + labels else [[c] + labels[0]] + labels[1..]
  }

  lemma PutConcat(c: char, a: seq<Label>, b: seq<Label>)
    requires |a| >= 1
    ensures Put(c, a + b) == Put(c, a) + b
  {
    assert (a + b)[1..] == a[1..] + b;
    if c == '.' {
      assert [""] + (a + b) == ([""] + a) + b;
    }
  }

  function Join(labels: seq<Label>): string
    requires |labels| >= 1
  {
    if |labels| == 1 then labels[0] else labels[0] + "." + Join(labels[1..])
  }

  /** The labels that insertion keeps: the non-empty ones. */
  function NonEmpty(labels: seq<Label>): seq<Label> {
    if labels == [] then []
    else (if labels[0] != "" then [labels[0]] else []) + NonEmpty(labels[1..])
  }

  ghost predicate DotFree(labels: seq<Label>) {
    forall i :: 0 <= i < |labels| ==> '.' !in labels[i]
  }

  ghost predicate NoneEmpty(labels: seq<Label>) {
    forall i :: 0 <= i < |labels| ==> labels[i] != ""
  }

  lemma {:induction false} SplitWithoutDot(name: string)
    requires '.' !in name
    ensures Split(name) == [name]
  {
    if name != "" {
      SplitWithoutDot(name[1..]);
      assert [name[0]] + name[1..] == name;
    }
  }

  lemma {:induction false} SplitAtDot(s: string, i: nat)
    requires i < |s| && s[i] == '.'
    ensures Split(s) == Split(s[..i]) + Split(s[i + 1..])
  {
    if i == 0 {
      assert s[..0] == "";
    } else {
      SplitAtDot(s[1..], i - 1);
      assert s[1..][..i - 1] == s[..i][1..] && s[1..][i..] == s[i + 1..];
      PutConcat(s[0], Split(s[..i][1..]), Split(s[i + 1..]));
    }
  }

  lemma {:induction false} SplitIsDotFree(name: string)
    ensures DotFree(Split(name))
  {
    if name != "" {
      SplitIsDotFree(name[1..]);
    }
  }

  lemma {:induction false} JoinAfterSplit(name: string)
    ensures Join(Split(name)) == name
  {
    if name != "" {
      JoinAfterSplit(name[1..]);
      var rest := Split(name[1..]);
      if name[0] == '.' {
        assert ([""] + rest)[1..] == rest;
        assert "" + "." + Join(rest) == name;
      } else {
        var whole := [[name[0]] + rest[0]] + rest[1..];
        assert whole[1..] == rest[1..];
        assert [name[0]] + Join(rest) == name;
        if |rest| > 1 {
          assert [name[0]] + (rest[0] + "." + Join(rest[1..])) == ([name[0]] + rest[0]) + "." + Join(rest[1..]);
        }
      }
    }
  }

  lemma {:induction false} SplitAfterJoin(labels: seq<Label>)
    requires |labels| >= 1 && DotFree(labels)
    ensures Split(Join(labels)) == labels
  {
    SplitWithoutDot(labels[0]);
    if |labels| == 1 {
      assert labels == [labels[0]];
    } else {
      SplitAfterJoin(labels[1..]);
      var s := Join(labels);
      assert s[..|labels[0]|] == labels[0] && s[|labels[0]| + 1..] == Join(labels[1..]);
      SplitAtDot(s, |labels[0]|);
      assert labels == [labels[0]] + labels[1..];
    }
  }

  lemma {:induction false} NonEmptyKeeps(labels: seq<Label>)
    ensures NoneEmpty(NonEmpty(labels))
    ensures DotFree(labels) ==> DotFree(NonEmpty(labels))
  {
    if labels != [] {
      NonEmptyKeeps(labels[1..]);
    }
  }

  lemma {:induction false} NonEmptyIdentity(labels: seq<Label>)
    requires NoneEmpty(labels)
    ensures NonEmpty(labels) == labels
  {
    if labels != [] {
      NonEmptyIdentity(labels[1..]);
    }
  }

  /** Insertion keeps each label or drops it, in order; by the next lemma it drops exactly the empty ones. */
  lemma {:induction false} NonEmptyParts(a: seq<Label>, b: seq<Label>)
    ensures NonEmpty(a + b) == NonEmpty(a) + NonEmpty(b)
  {
    hide NonEmpty;
    if a == [] {
      NonEmptyOne("");
      assert a + b == b;
    } else {
      var l, rest := a[0], a[1..];
      NonEmptyParts(rest, b);
      NonEmptyCons(l, rest);
      NonEmptyCons(l, rest + b);
      assert a == [l] + rest && a + b == [l] + (rest + b);
    }
  }

  lemma NonEmptyCons(l: Label, rest: seq<Label>)
    ensures NonEmpty([l] + rest) == NonEmpty([l]) + NonEmpty(rest)
  {
    assert ([l] + rest)[1..] == rest;
  }

  lemma NonEmptyOne(l: Label)
    ensures NonEmpty([l]) == (if l == "" then [] else [l]) && NonEmpty([]) == []
  {
  }

  /** The leftmost label is empty exactly when there is nothing before the first dot. */
  lemma LeftmostLabel(name: string)
    ensures Split(name)[0] == "" <==> name == "" || name[0] == '.'
  {
  }
}
