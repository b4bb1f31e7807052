/** The value stored under one in-flight key of the shared-data backend: the start
    times of the requests that hold a slot, pruned by age and released by value. */
module InflightList {

  /** An entry started at `t` still counts at time `now`. */
  predicate Live(t: int, now: int, maxAge: int) {
    now - t < maxAge
  }

  /** The entries that have not aged out, in their original order. */
  function Prune(starts: seq<int>, now: int, maxAge: int): (kept: seq<int>)
    ensures |kept| <= |starts|
    ensures forall t <- kept :: Live(t, now, maxAge)
  {
    if starts == [] then []
    else
      var kept := Prune(starts[..|starts| - 1], now, maxAge);
      if Live(starts[|starts| - 1], now, maxAge) then kept + [starts[|starts| - 1]] else kept
  }

  /** `starts` without the first entry equal to `t`, or unchanged when there is none. */
  function RemoveFirst(starts: seq<int>, t: int): (rest: seq<int>) {
    if starts == [] then []
    else if starts[0] == t then starts[1..]
    else [starts[0]] + RemoveFirst(starts[1..], t)
  }

  /** Pruning keeps every live entry with its full multiplicity and drops all others. */
  lemma {:induction false} PruneCount(starts: seq<int>, now: int, maxAge: int, t: int)
    ensures multiset(Prune(starts, now, maxAge))[t] == if Live(t, now, maxAge) then multiset(starts)[t] else 0
  {
    if starts != [] {
      var n := |starts| - 1;
      PruneCount(starts[..n], now, maxAge, t);
      assert starts == starts[..n] + [starts[n]];
    }
  }

  /** Removal takes out exactly one occurrence, and only of `t`. */
  lemma {:induction false} RemoveFirstCount(starts: seq<int>, t: int)
    ensures multiset(RemoveFirst(starts, t)) == multiset(starts) - multiset{t}
    ensures |RemoveFirst(starts, t)| == if t in starts then |starts| - 1 else |starts|
  {
    if starts != [] {
      var head, tail := starts[0], starts[1..];
      assert starts == [head] + tail;
      RemoveFirstCount(tail, t);
      if head != t {
        KeepHead(multiset(tail), head, t);
      }
    }
  }

  lemma KeepHead(tail: multiset<int>, head: int, t: int)
    requires head != t
    ensures multiset{head} + (tail - multiset{t}) == multiset{head} + tail - multiset{t}
  {
  }

  /** Removing before or after pruning leaves every live count the same. */
  lemma RemovePruneCount(starts: seq<int>, token: int, now: int, maxAge: int, t: int)
    ensures multiset(RemoveFirst(Prune(starts, now, maxAge), token))[t]
         == if !Live(t, now, maxAge) then 0
            else if t == token && t in starts then multiset(starts)[t] - 1
            else multiset(starts)[t]
  {
    PruneCount(starts, now, maxAge, t);
    RemoveFirstCount(Prune(starts, now, maxAge), token);
  }

  /** The in-place filter: `out := starts[:0]` grown while `starts` is read. */
  method PruneStarts(starts: array<int>, now: int, maxAge: int) returns (n: nat)
    modifies starts
    ensures n <= starts.Length
    ensures starts[..n] == Prune(old(starts[..]), now, maxAge)
  {
    n := 0;
    for i := 0 to starts.Length
      invariant n <= i
      invariant starts[..n] == Prune(old(starts[..i]), now, maxAge)
      invariant starts[i..] == old(starts[i..])
    {
      var ts := starts[i];
      assert old(starts[..i + 1])[..i] == old(starts[..i]);
      assert ts == old(starts[i]) by { assert ts == starts[i..][0]; }
      ghost var tail := starts[i + 1..];
      assert tail == old(starts[i + 1..]) by { assert tail == starts[i..][1..]; }
      if now - ts < maxAge {
        starts[n] := ts;
        n := n + 1;
      }
      assert starts[i + 1..] == tail;
    }
    assert old(starts[..starts.Length]) == old(starts[..]);
  }

  lemma RemoveFirstBehind(starts: seq<int>, i: nat, t: int)
    requires i < |starts| && starts[i] != t
    ensures starts[..i] + RemoveFirst(starts[i..], t) == starts[..i + 1] + RemoveFirst(starts[i + 1..], t)
  {
    assert starts[i..][1..] == starts[i + 1..];
    assert starts[..i + 1] == starts[..i] + [starts[i]];
  }

  /** The search-and-splice loop of the release path. */
  method RemoveStart(starts: seq<int>, t: int) returns (rest: seq<int>, removed: bool)
    ensures rest == RemoveFirst(starts, t)
    ensures removed <==> t in starts
  {
    for i := 0 to |starts|
      invariant t !in starts[..i]
      invariant RemoveFirst(starts, t) == starts[..i] + RemoveFirst(starts[i..], t)
    {
      assert starts[i..][0] == starts[i] && starts[i..][1..] == starts[i + 1..];
      if starts[i] == t {
        return starts[..i] + starts[i + 1..], true;
      }
      RemoveFirstBehind(starts, i, t);
    }
    return starts, false;
  }
}
