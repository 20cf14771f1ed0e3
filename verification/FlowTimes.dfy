/** The times in the order of the time index, as values: what one change in place can do. */
module FlowTimes {

  predicate Ascending(times: seq<int>) {
    forall i, j :: 0 <= i < j < |times| ==> times[i] <= times[j]
  }

  /** How many flows an expiry pass takes from the front. */
  function IdlePrefix(times: seq<int>, timeout: int, now: int): (n: nat)
    ensures n <= |times|
    ensures forall i :: 0 <= i < n ==> times[i] + timeout <= now
    ensures n < |times| ==> times[n] + timeout > now
  {
    if times == [] || times[0] + timeout > now then 0 else 1 + IdlePrefix(times[1..], timeout, now)
  }

  /** How many flows are idle. */
  function IdleCount(times: seq<int>, timeout: int, now: int): nat {
    if times == [] then 0
    else (if times[0] + timeout <= now then 1 else 0) + IdleCount(times[1..], timeout, now)
  }

  /** Setting one time in place keeps the order exactly when the two neighbours allow it. */
  lemma SetInPlaceKeepsOrderIff(times: seq<int>, n: nat, t: int)
    requires Ascending(times) && n < |times|
    ensures Ascending(times[n := t]) <==>
            (n > 0 ==> times[n - 1] <= t) && (n + 1 < |times| ==> t <= times[n + 1])
  {
    var changed := times[n := t];
    if Ascending(changed) {
      assert n > 0 ==> changed[n - 1] <= changed[n];
      assert n + 1 < |times| ==> changed[n] <= changed[n + 1];
    }
  }

  /** A pass takes all idle flows exactly when as many are idle as stand idle at the front; sorted times suffice. */
  lemma {:induction false} PassIsCompleteIff(times: seq<int>, timeout: int, now: int)
    ensures IdlePrefix(times, timeout, now) <= IdleCount(times, timeout, now)
    ensures IdlePrefix(times, timeout, now) == IdleCount(times, timeout, now) <==>
            (forall i, j :: 0 <= i < j < |times| && times[j] + timeout <= now ==> times[i] + timeout <= now)
    ensures Ascending(times) ==> IdlePrefix(times, timeout, now) == IdleCount(times, timeout, now)
  {
    if times != [] {
      var rest := times[1..];
      PassIsCompleteIff(rest, timeout, now);
      assert forall i :: 0 <= i < |rest| ==> rest[i] == times[i + 1];
      if times[0] + timeout > now {
        NoneIdle(rest, timeout, now);
      }
    }
  }

  lemma {:induction false} NoneIdle(times: seq<int>, timeout: int, now: int)
    ensures IdleCount(times, timeout, now) == 0 <==> forall i :: 0 <= i < |times| ==> times[i] + timeout > now
  {
    if times != [] {
      NoneIdle(times[1..], timeout, now);
      assert forall i :: 0 <= i < |times[1..]| ==> times[1..][i] == times[i + 1];
    }
  }

  /** What stays behind a pass: all idle ones that it did not take. */
  lemma {:induction false} PassLeaves(times: seq<int>, timeout: int, now: int)
    ensures var n := IdlePrefix(times, timeout, now);
      IdleCount(times[n..], timeout, now) == IdleCount(times, timeout, now) - n
  {
    if times != [] && times[0] + timeout <= now {
      PassLeaves(times[1..], timeout, now);
      var n := IdlePrefix(times[1..], timeout, now);
      assert times[n + 1..] == times[1..][n..];
    }
  }

  /** A time refreshed in place shields everything behind it, however much of it is idle; a pass takes what it
      would have taken in front of it. */
  lemma {:induction false} RefreshedTimeShields(times: seq<int>, n: nat, t: int, timeout: int, now: int)
    requires n < |times| && t + timeout > now
    ensures var taken := IdlePrefix(times, timeout, now);
      IdlePrefix(times[n := t], timeout, now) == if taken < n then taken else n
    ensures IdleCount(times[n := t], timeout, now) ==
            IdleCount(times[..n], timeout, now) + IdleCount(times[n + 1..], timeout, now)
  {
    var noted := times[n := t];
    if n == 0 {
      assert noted[1..] == times[1..];
    } else {
      RefreshedTimeShields(times[1..], n - 1, t, timeout, now);
      assert noted[1..] == times[1..][n - 1 := t];
      assert times[..n][1..] == times[1..][..n - 1] && times[n + 1..] == times[1..][n..];
    }
  }
}
