/** The finisher's decision: which candidate is preferred, in which order the others are tried,
    and where the request ends up once the store has checked the caps. */
module ReserveWalk {
  import opened Wire
  import opened Wrappers
  import opened InflightList
  import opened InflightProtocol
  import opened InflightStores
  import Voting

  // ----- orders of published positions -----

  predicate NoRepeat(order: seq<nat>) {
    forall i, j | 0 <= i < j < |order| :: order[i] != order[j]
  }

  predicate Below(order: seq<nat>, n: nat) {
    forall i | 0 <= i < |order| :: order[i] < n
  }

  predicate Permutation(order: seq<nat>, n: nat) {
    |order| == n && Below(order, n) && NoRepeat(order)
  }

  /** Totals never rise along the order. */
  predicate Falling(order: seq<nat>, totals: seq<real>) {
    Below(order, |totals|) && forall i, j | 0 <= i < j < |order| :: totals[order[j]] <= totals[order[i]]
  }

  function Elements(order: seq<nat>): set<nat> {
    set i | 0 <= i < |order| :: order[i]
  }

  lemma {:induction false} DistinctSize(order: seq<nat>)
    requires NoRepeat(order)
    ensures |Elements(order)| == |order|
  {
    if order != [] {
      var n := |order| - 1;
      DistinctSize(order[..n]);
      assert Elements(order) == Elements(order[..n]) + {order[n]};
      assert order[n] !in Elements(order[..n]);
    }
  }

  function Numbers(n: nat): (s: set<nat>)
    ensures |s| == n && forall c: nat :: c in s <==> c < n
  {
    if n == 0 then {} else Numbers(n - 1) + {n - 1}
  }

  lemma SubsetSize(a: set<nat>, b: set<nat>)
    requires a <= b
    ensures |a| <= |b| && (|a| == |b| ==> a == b)
  {
    assert b == a + (b - a);
  }

  /** A permutation leaves nobody out. */
  lemma PermutationCovers(order: seq<nat>, n: nat, c: nat)
    requires Permutation(order, n) && c < n
    ensures c in order
  {
    DistinctSize(order);
    SubsetSize(Elements(order), Numbers(n));
    assert c in Elements(order);
  }

  /** An order that repeats nobody and leaves nobody out is a permutation. */
  lemma CoverIsPermutation(order: seq<nat>, n: nat)
    requires NoRepeat(order) && Below(order, n) && forall c: nat | c < n :: c in order
    ensures Permutation(order, n)
  {
    DistinctSize(order);
    forall c: nat | c in Numbers(n)
      ensures c in Elements(order)
    {
      assert c in order;
      var i :| 0 <= i < |order| && order[i] == c;
    }
    assert Elements(order) == Numbers(n);
  }

  // ----- shuffle and sort, in place -----

  /** Any permutation can come out. */
  method Shuffle(order: array<nat>)
    requires Permutation(order[..], order.Length)
    modifies order
    ensures Permutation(order[..], order.Length)
  {
    for i := 0 to order.Length
      invariant Permutation(order[..], order.Length)
    {
      var j: nat :| j < order.Length;
      ghost var before := order[..];
      SwapKeepsPermutation(before, i, j, order.Length);
      order[i], order[j] := order[j], order[i];
      assert order[..] == Swapped(before, i, j);
    }
  }

  predicate FallingIn(order: seq<nat>, lo: nat, hi: nat, totals: seq<real>)
    requires hi <= |order| && Below(order, |totals|)
  {
    forall i, j | lo <= i < j < hi :: totals[order[j]] <= totals[order[i]]
  }

  /** order[..i + 1] is falling once the element at `j` is taken out. */
  predicate FallingAround(order: seq<nat>, j: nat, i: nat, totals: seq<real>)
    requires j <= i < |order| && Below(order, |totals|)
  {
    && FallingIn(order, 0, j, totals) && FallingIn(order, j, i + 1, totals)
    && forall x, y | 0 <= x < j < y <= i :: totals[order[y]] <= totals[order[x]]
  }

  function Swapped(order: seq<nat>, a: nat, b: nat): (r: seq<nat>)
    requires a < |order| && b < |order|
  {
    order[a := order[b]][b := order[a]]
  }

  lemma SwapKeepsPermutation(order: seq<nat>, a: nat, b: nat, n: nat)
    requires Permutation(order, n) && a < n && b < n
    ensures Permutation(Swapped(order, a, b), n)
  {
  }

  lemma SwapForward(order: seq<nat>, j: nat, i: nat, totals: seq<real>)
    requires 0 < j <= i < |order| == |totals| && Permutation(order, |order|)
    requires FallingAround(order, j, i, totals) && totals[order[j]] > totals[order[j - 1]]
    ensures Permutation(Swapped(order, j - 1, j), |order|)
    ensures FallingAround(Swapped(order, j - 1, j), j - 1, i, totals)
  {
    SwapKeepsPermutation(order, j - 1, j, |order|);
  }

  lemma InPlace(order: seq<nat>, j: nat, i: nat, totals: seq<real>)
    requires j <= i < |order| == |totals| && Below(order, |totals|) && FallingAround(order, j, i, totals)
    requires j == 0 || totals[order[j]] <= totals[order[j - 1]]
    ensures FallingIn(order, 0, i + 1, totals)
  {
    forall x, y | 0 <= x < y < i + 1
      ensures totals[order[y]] <= totals[order[x]]
    {
      if x < j && y == j {
        assert x < j - 1 ==> totals[order[j - 1]] <= totals[order[x]];
      }
    }
  }

  /** Move the element at `i` forward past every smaller total. */
  method Insert(order: array<nat>, i: nat, totals: seq<real>)
    requires i < order.Length == |totals| && Permutation(order[..], order.Length)
    requires FallingIn(order[..], 0, i, totals)
    modifies order
    ensures Permutation(order[..], order.Length) && FallingIn(order[..], 0, i + 1, totals)
  {
    var j: nat := i;
    while j > 0 && totals[order[..][j]] > totals[order[..][j - 1]]
      invariant j <= i && Permutation(order[..], order.Length) && FallingAround(order[..], j, i, totals)
    {
      ghost var before := order[..];
      SwapForward(before, j, i, totals);
      order[j - 1], order[j] := order[j], order[j - 1];
      assert order[..] == Swapped(before, j - 1, j);
      j := j - 1;
    }
    InPlace(order[..], j, i, totals);
  }

  /** A stable sort by descending total. */
  method SortByTotal(order: array<nat>, totals: seq<real>)
    requires order.Length == |totals| && Permutation(order[..], order.Length)
    modifies order
    ensures Permutation(order[..], order.Length) && Falling(order[..], totals)
  {
    for i := 0 to order.Length
      invariant Permutation(order[..], order.Length) && FallingIn(order[..], 0, i, totals)
    {
      Insert(order, i, totals);
    }
  }

  // ----- reserveOrder -----

  predicate IsWeighted(cands: seq<Candidate>) {
    exists i | 0 <= i < |cands| :: cands[i].weight.Some?
  }

  /** No key is tried twice. */
  predicate DistinctKeys(order: seq<nat>, keys: seq<string>) {
    Below(order, |keys|) && forall i, j | 0 <= i < j < |order| :: keys[order[i]] != keys[order[j]]
  }

  predicate HasKey(order: seq<nat>, keys: seq<string>, key: string)
    requires Below(order, |keys|)
  {
    exists i | 0 <= i < |order| :: keys[order[i]] == key
  }

  /** The walk `out` starts at `pick` and holds, of the first `k` positions of `order`, the
      first one of each key; it never rises, as far as `order` does not. */
  ghost predicate Walked(out: seq<nat>, pick: nat, order: seq<nat>, k: nat, keys: seq<string>) {
    && k <= |order| && Below(order, |keys|)
    && out != [] && out[0] == pick && DistinctKeys(out, keys)
    && (forall i | 0 <= i < k :: HasKey(out, keys, keys[order[i]]))
    && (forall i | 1 <= i < |out| :: out[i] in order[..k])
  }

  lemma WalkedOne(out: seq<nat>, pick: nat, order: seq<nat>, k: nat, keys: seq<string>)
    requires Walked(out, pick, order, k, keys) && k < |order|
    ensures HasKey(out, keys, keys[order[k]]) ==> Walked(out, pick, order, k + 1, keys)
    ensures !HasKey(out, keys, keys[order[k]]) ==> Walked(out + [order[k]], pick, order, k + 1, keys)
  {
    assert order[..k + 1] == order[..k] + [order[k]];
    var next := out + [order[k]];
    forall i | 0 <= i < |order| && HasKey(out, keys, keys[order[i]])
      ensures Below(next, |keys|) && HasKey(next, keys, keys[order[i]])
    {
      var a :| 0 <= a < |out| && keys[out[a]] == keys[order[i]];
      assert next[a] == out[a];
    }
    assert next[|out|] == order[k];
  }

  /** The de-duplicating loop with its `seen` set. */
  method WalkKeys(pick: nat, order: seq<nat>, keys: seq<string>, ghost totals: seq<real>) returns (out: seq<nat>)
    requires pick < |keys| && Below(order, |keys|)
    ensures Walked(out, pick, order, |order|, keys)
    ensures Falling(order, totals) ==> Falling(out[1..], totals)
    ensures Rising(order) ==> Rising(out[1..])
  {
    out := [pick];
    var seen := {keys[pick]};
    for k := 0 to |order|
      invariant Walked(out, pick, order, k, keys)
      invariant forall key :: key in seen <==> HasKey(out, keys, key)
      invariant Falling(order, totals) ==> Falling(out[1..] + order[k..], totals)
      invariant Rising(order) ==> Rising(out[1..] + order[k..])
    {
      var c := order[k];
      WalkedOne(out, pick, order, k, keys);
      NextOrSkip(out[1..], order, k, totals);
      if keys[c] !in seen {
        SeenOneMore(out, c, keys);
        assert (out + [c])[1..] == out[1..] + [c];
        seen := seen + {keys[c]};
        out := out + [c];
      }
    }
    assert out[1..] + order[|order|..] == out[1..];
  }

  lemma SeenOneMore(out: seq<nat>, c: nat, keys: seq<string>)
    requires Below(out, |keys|) && c < |keys|
    ensures forall key :: HasKey(out + [c], keys, key) <==> HasKey(out, keys, key) || key == keys[c]
  {
    forall key
      ensures HasKey(out + [c], keys, key) <==> HasKey(out, keys, key) || key == keys[c]
    {
      assert (out + [c])[|out|] == c;
      if HasKey(out, keys, key) {
        var a :| 0 <= a < |out| && keys[out[a]] == key;
        assert (out + [c])[a] == out[a];
      }
    }
  }

  predicate Rising(order: seq<nat>) {
    forall i, j | 0 <= i < j < |order| :: order[i] < order[j]
  }

  /** Taking or dropping the next element keeps the order of the rest. */
  lemma NextOrSkip(done: seq<nat>, order: seq<nat>, k: nat, totals: seq<real>)
    requires k < |order|
    ensures done + order[k..] == done + [order[k]] + order[k + 1..]
    ensures Falling(done + order[k..], totals) ==> Falling(done + order[k + 1..], totals)
    ensures Rising(done + order[k..]) ==> Rising(done + order[k + 1..])
  {
    var with, without := done + order[k..], done + order[k + 1..];
    assert forall i | 0 <= i < |without| :: without[i] == with[if i < |done| then i else i + 1];
  }

  /** The walk tries every candidate once, the preferred one first. */
  ghost predicate FullWalk(out: seq<nat>, pick: nat, keys: seq<string>) {
    && out != [] && out[0] == pick && DistinctKeys(out, keys)
    && forall c: nat | c < |keys| :: HasKey(out, keys, keys[c])
  }

  lemma WalkedAll(out: seq<nat>, pick: nat, order: seq<nat>, keys: seq<string>)
    requires Walked(out, pick, order, |order|, keys) && Permutation(order, |keys|)
    ensures FullWalk(out, pick, keys)
  {
    forall c: nat | c < |keys|
      ensures HasKey(out, keys, keys[c])
    {
      PermutationCovers(order, |keys|, c);
      var i :| 0 <= i < |order| && order[i] == c;
      assert HasKey(out, keys, keys[order[i]]);
    }
  }

  /** With distinct keys, which parseLB guarantees, nobody is left out or tried twice. */
  lemma FullWalkIsPermutation(out: seq<nat>, pick: nat, keys: seq<string>)
    requires FullWalk(out, pick, keys) && Distinct(keys)
    ensures Permutation(out, |keys|)
  {
    forall c: nat | c < |keys|
      ensures c in out
    {
      assert HasKey(out, keys, keys[c]);
      var i :| 0 <= i < |out| && keys[out[i]] == keys[c];
      assert out[i] == c;
    }
    CoverIsPermutation(out, |keys|);
  }

  /** reserveOrder: a weighted set stops at the winner; otherwise everybody else follows, by
      descending total when there are totals and in published order when there are none. */
  method ReserveOrder(cands: seq<Candidate>, pick: int, totals: seq<real>) returns (out: seq<nat>)
    requires pick < |cands| && (totals == [] || |totals| == |cands|)
    ensures pick < 0 ==> out == []
    ensures 0 <= pick && IsWeighted(cands) ==> out == [pick]
    ensures 0 <= pick && !IsWeighted(cands) ==> FullWalk(out, pick, KeysOf(cands))
    ensures 0 <= pick && !IsWeighted(cands) && totals != [] ==> Falling(out[1..], totals)
    ensures 0 <= pick && !IsWeighted(cands) && totals == [] ==> Rising(out[1..])
  {
    if pick < 0 {
      return [];
    }
    if IsWeighted(cands) {
      return [pick];
    }
    var keys, n := KeysOf(cands), |cands|;
    var indices := new nat[n](i => i);
    assert Permutation(indices[..], n) && Rising(indices[..]);
    if totals != [] {
      Shuffle(indices);
      SortByTotal(indices, totals);
    }
    out := WalkKeys(pick, indices[..], keys, totals);
    WalkedAll(out, pick, indices[..], keys);
  }

  /** Starting from the best total, the whole walk falls. */
  lemma FallingFromBest(out: seq<nat>, totals: seq<real>)
    requires out != [] && Voting.IsBest(totals, out[0]) && Falling(out[1..], totals)
    ensures Falling(out, totals)
  {
    assert out == [out[0]] + out[1..];
  }

  // ----- after the store has answered -----

  datatype Decision = CapRejected | Routed(position: nat, token: Option<string>)

  /** finalizeSelection: `pick` counts from 1; a degraded store routes the preferred candidate
      without a token, so that nothing is released later. */
  function FinalizeSelection(ordered: seq<nat>, pick: int, token: string): Decision
    requires ordered != [] && RESERVE_FAIL_OPEN <= pick <= |ordered|
  {
    if pick == RESERVE_EXHAUSTED then CapRejected
    else if pick == RESERVE_FAIL_OPEN then Routed(ordered[0], None)
    else Routed(ordered[pick - 1], Some(token))
  }

  function TargetsOf(cands: seq<Candidate>, order: seq<nat>): (targets: seq<Target>)
    requires Below(order, |cands|)
    ensures |targets| == |order|
    ensures forall i | 0 <= i < |order| ::
      targets[i] == Target(cands[order[i]].Key(), cands[order[i]].maxRunningRequests)
  {
    seq(|order|, i requires 0 <= i < |order| => Target(cands[order[i]].Key(), cands[order[i]].maxRunningRequests))
  }

  predicate HasRoom(lists: Lists, t: Target, now: int, maxAge: int) {
    !AtCap(Config(t.maxRun, maxAge), Prune(ListOf(lists, t.key), now, maxAge))
  }

  /** One more entry under `key`, the leaked ones dropped. */
  function OneMore(lists: Lists, key: string, now: int, maxAge: int): Lists {
    lists[key := Prune(ListOf(lists, key), now, maxAge) + [now]]
  }

  /** The store's walk stops at the first target with room, and only there. */
  lemma {:induction false} FirstWithRoom(lists: Lists, targets: seq<Target>, now: int, maxAge: int)
    ensures var pick := SharedReserve(lists, targets, now, maxAge).1;
      && pick <= |targets|
      && (pick == 0 ==> forall i | 0 <= i < |targets| :: !HasRoom(lists, targets[i], now, maxAge))
      && (pick > 0 ==> HasRoom(lists, targets[pick - 1], now, maxAge))
      && (forall i | 0 <= i < pick - 1 :: !HasRoom(lists, targets[i], now, maxAge))
    ensures var (after, pick) := SharedReserve(lists, targets, now, maxAge);
      after == if pick == 0 then lists else OneMore(lists, targets[pick - 1].key, now, maxAge)
  {
    if targets != [] && !HasRoom(lists, targets[0], now, maxAge) {
      FirstWithRoom(lists, targets[1..], now, maxAge);
      assert forall i | 1 <= i < |targets| :: targets[i] == targets[1..][i - 1];
    }
  }

  predicate RoomFor(lists: Lists, c: Candidate, now: int, maxAge: int) {
    HasRoom(lists, Target(c.Key(), c.maxRunningRequests), now, maxAge)
  }

  predicate BestWithRoom(cands: seq<Candidate>, totals: seq<real>, lists: Lists, now: int, maxAge: int, best: nat)
    requires |totals| == |cands|
  {
    && best < |cands| && RoomFor(lists, cands[best], now, maxAge)
    && forall c | 0 <= c < |cands| && RoomFor(lists, cands[c], now, maxAge) :: totals[c] <= totals[best]
  }

  /** Where the request ends up when the store walks `out` and nothing fails. */
  function Decide(cands: seq<Candidate>, out: seq<nat>, lists: Lists, now: int, maxAge: int, token: string): Decision
    requires out != [] && Below(out, |cands|)
  {
    FirstWithRoom(lists, TargetsOf(cands, out), now, maxAge);
    FinalizeSelection(out, SharedReserve(lists, TargetsOf(cands, out), now, maxAge).1, token)
  }

  /** The walk passes only candidates without room, and stops at one with room. */
  lemma WalkStops(cands: seq<Candidate>, out: seq<nat>, lists: Lists, now: int, maxAge: int)
    requires Below(out, |cands|)
    ensures var pick := SharedReserve(lists, TargetsOf(cands, out), now, maxAge).1;
      && pick <= |out|
      && (forall i | 0 <= i < |out| && (pick == 0 || i < pick - 1) :: !RoomFor(lists, cands[out[i]], now, maxAge))
      && (pick > 0 ==> RoomFor(lists, cands[out[pick - 1]], now, maxAge))
  {
    var targets := TargetsOf(cands, out);
    FirstWithRoom(lists, targets, now, maxAge);
    forall i | 0 <= i < |out|
      ensures HasRoom(lists, targets[i], now, maxAge) == RoomFor(lists, cands[out[i]], now, maxAge)
    {
    }
  }

  lemma NobodyHasRoom(cands: seq<Candidate>, out: seq<nat>, lists: Lists, now: int, maxAge: int)
    requires Permutation(out, |cands|)
    requires forall i | 0 <= i < |out| :: !RoomFor(lists, cands[out[i]], now, maxAge)
    ensures forall c | 0 <= c < |cands| :: !RoomFor(lists, cands[c], now, maxAge)
  {
    forall c | 0 <= c < |cands|
      ensures !RoomFor(lists, cands[c], now, maxAge)
    {
      PermutationCovers(out, |cands|, c);
      var i :| 0 <= i < |out| && out[i] == c;
    }
  }

  /** Along falling totals the first with room is the best with room. */
  lemma FirstIsBest(cands: seq<Candidate>, out: seq<nat>, totals: seq<real>, lists: Lists, now: int,
                    maxAge: int, at: nat)
    requires |totals| == |cands| && Permutation(out, |cands|) && Falling(out, totals) && at < |out|
    requires RoomFor(lists, cands[out[at]], now, maxAge)
    requires forall i | 0 <= i < at :: !RoomFor(lists, cands[out[i]], now, maxAge)
    ensures BestWithRoom(cands, totals, lists, now, maxAge, out[at])
  {
    forall c | 0 <= c < |cands| && RoomFor(lists, cands[c], now, maxAge)
      ensures totals[c] <= totals[out[at]]
    {
      PermutationCovers(out, |cands|, c);
      var i :| 0 <= i < |out| && out[i] == c;
    }
  }

  /** BEST CANDIDATE WITH ROOM. On a scored set, the request is rejected exactly when every
      candidate is full, and otherwise it goes to a candidate with room whose total no other
      candidate with room exceeds. (StoreEquivalence carries this over to redis.) */
  lemma RoutedIsBestWithRoom(cands: seq<Candidate>, out: seq<nat>, totals: seq<real>, lists: Lists,
                             now: int, maxAge: int, token: string)
    requires |totals| == |cands| && Permutation(out, |cands|) && Falling(out, totals) && cands != []
    ensures var d := Decide(cands, out, lists, now, maxAge, token);
      && (d.CapRejected? <==> forall c | 0 <= c < |cands| :: !RoomFor(lists, cands[c], now, maxAge))
      && (d.Routed? ==> d.token == Some(token) && BestWithRoom(cands, totals, lists, now, maxAge, d.position))
  {
    var pick := SharedReserve(lists, TargetsOf(cands, out), now, maxAge).1;
    WalkStops(cands, out, lists, now, maxAge);
    if pick == 0 {
      NobodyHasRoom(cands, out, lists, now, maxAge);
    } else {
      FirstIsBest(cands, out, totals, lists, now, maxAge, pick - 1);
    }
  }

  // ----- room, counted -----

  /** The entries of a key that have not aged out. */
  function LiveOnes(starts: seq<int>, now: int, maxAge: int): set<int> {
    set i | 0 <= i < |starts| && now - starts[i] < maxAge
  }

  lemma {:induction false} PruneSize(starts: seq<int>, now: int, maxAge: int)
    ensures |Prune(starts, now, maxAge)| == |LiveOnes(starts, now, maxAge)|
  {
    if starts != [] {
      var n := |starts| - 1;
      PruneSize(starts[..n], now, maxAge);
      var front := LiveOnes(starts[..n], now, maxAge);
      assert front == set i | 0 <= i < n && now - starts[i] < maxAge;
      assert LiveOnes(starts, now, maxAge) == if now - starts[n] < maxAge then front + {n} else front;
    }
  }

  /** A candidate has room exactly when its cap is 0 or less, or above the number of its entries
      that have not aged out. */
  lemma RoomExactlyWhen(lists: Lists, c: Candidate, now: int, maxAge: int)
    ensures RoomFor(lists, c, now, maxAge)
       <==> c.maxRunningRequests <= 0 || |LiveOnes(ListOf(lists, c.Key()), now, maxAge)| < c.maxRunningRequests
  {
    PruneSize(ListOf(lists, c.Key()), now, maxAge);
  }
}
