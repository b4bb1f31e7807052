/** The weighted dice: consecutive intervals of a request hash, one per candidate, computed
    with 64-bit accumulators. And the round-robin cursor. */
module Dice {
  import opened Bytes

  const MAX_INT64: int64 := 0x7FFF_FFFF_FFFF_FFFF

  type uint64 = n: int | 0 <= n < 0x1_0000_0000_0000_0000

  /** A missing, zero or negative weight has no share. */
  function Share(w: int): nat {
    if w > 0 then w else 0
  }

  /** The point where the interval of candidate |ws| would start. */
  function Whole(ws: seq<int64>): nat {
    if ws == [] then 0 else Whole(ws[..|ws| - 1]) + Share(ws[|ws| - 1])
  }

  /** Candidate `i` owns its own consecutive interval. */
  predicate Owns(ws: seq<int64>, i: nat, point: int) {
    i < |ws| && Whole(ws[..i]) <= point < Whole(ws[..i]) + Share(ws[i])
  }

  lemma WholeStep(ws: seq<int64>, i: nat)
    requires i < |ws|
    ensures Whole(ws[..i + 1]) == Whole(ws[..i]) + Share(ws[i])
  {
    assert ws[..i + 1][..i] == ws[..i];
  }

  lemma {:induction false} WholeGrows(ws: seq<int64>, i: nat, j: nat)
    requires i <= j <= |ws|
    ensures Whole(ws[..i]) <= Whole(ws[..j])
    decreases j
  {
    if i < j {
      WholeStep(ws, j - 1);
      WholeGrows(ws, i, j - 1);
    }
  }

  // ----- selectWeighted -----

  /** The first pass: the sum of the positive weights, or that it does not fit. The addition
      itself never leaves 64 bits. */
  method SumWeights(ws: seq<int64>) returns (total: int64, fits: bool)
    ensures fits <==> Whole(ws) <= MAX_INT64
    ensures fits ==> total == Whole(ws)
  {
    total := 0;
    for i := 0 to |ws|
      invariant total == Whole(ws[..i])
    {
      WholeStep(ws, i);
      var w := ws[i];
      if w > 0 {
        if total > MAX_INT64 - w {
          WholeGrows(ws, i + 1, |ws|);
          assert ws[..|ws|] == ws;
          return total, false;
        }
        total := total + w;
      }
    }
    assert ws[..|ws|] == ws;
    fits := true;
  }

  /** The second pass: the owner of the point. The accumulator stays below the total, and
      falling off the end cannot happen. */
  method FindOwner(ws: seq<int64>, point: int64) returns (pick: nat)
    requires Whole(ws) <= MAX_INT64 && 0 <= point < Whole(ws)
    ensures Owns(ws, pick, point)
  {
    var acc: int64 := 0;
    assert ws[..|ws|] == ws;
    for i := 0 to |ws|
      invariant acc == Whole(ws[..i]) <= point
    {
      WholeStep(ws, i);
      WholeGrows(ws, i + 1, |ws|);
      var w := ws[i];
      if w > 0 {
        acc := acc + w;
        if point < acc {
          return i;
        }
      }
    }
    assert false;
  }

  method UniformPick(n: nat, hash: uint64) returns (pick: nat)
    requires 0 < n
    ensures pick == hash % n && pick < n
  {
    pick := hash % n;
  }

  method SelectWeighted(ws: seq<int64>, hash: uint64) returns (pick: nat)
    requires ws != []
    ensures pick < |ws|
    ensures 0 < Whole(ws) <= MAX_INT64 ==> Owns(ws, pick, hash % Whole(ws))
    ensures Whole(ws) == 0 || MAX_INT64 < Whole(ws) ==> pick == hash % |ws|
  {
    var total, fits := SumWeights(ws);
    if !fits || total <= 0 {
      pick := UniformPick(|ws|, hash);
      return;
    }
    pick := FindOwner(ws, hash % total);
  }

  /** parseLB's guard: negative weights and sums beyond 64 bits are refused, so the fallback
      for them is never taken on an accepted configuration. */
  method AcceptWeights(ws: seq<int64>) returns (ok: bool)
    ensures ok <==> (forall i | 0 <= i < |ws| :: 0 <= ws[i]) && Whole(ws) <= MAX_INT64
  {
    var total: int64 := 0;
    for i := 0 to |ws|
      invariant forall j | 0 <= j < i :: 0 <= ws[j]
      invariant total == Whole(ws[..i])
    {
      WholeStep(ws, i);
      var v := ws[i];
      if v < 0 {
        return false;
      }
      if total > MAX_INT64 - v {
        WholeGrows(ws, i + 1, |ws|);
        assert ws[..|ws|] == ws;
        return false;
      }
      total := total + v;
    }
    assert ws[..|ws|] == ws;
    ok := true;
  }

  // ----- the split is exact -----

  /** How many of the points 0, ..., n - 1 candidate `i` owns. */
  function Owned(ws: seq<int64>, i: nat, n: nat): nat {
    if n == 0 then 0 else Owned(ws, i, n - 1) + if Owns(ws, i, n - 1) then 1 else 0
  }

  lemma {:induction false} OwnedCount(ws: seq<int64>, i: nat, n: nat)
    requires i < |ws|
    ensures var from := Whole(ws[..i]);
      Owned(ws, i, n) == if n <= from then 0 else if n <= from + Share(ws[i]) then n - from else Share(ws[i])
  {
    if n > 0 {
      OwnedCount(ws, i, n - 1);
    }
  }

  /** EXACT SPLIT. Of the `total` points every candidate owns exactly as many as its weight,
      and one of weight zero, or less, none. */
  lemma ExactSplit(ws: seq<int64>, i: nat)
    requires i < |ws|
    ensures Owned(ws, i, Whole(ws)) == if ws[i] > 0 then ws[i] else 0
  {
    OwnedCount(ws, i, Whole(ws));
    WholeStep(ws, i);
    WholeGrows(ws, i + 1, |ws|);
    assert ws[..|ws|] == ws;
  }

  /** No point has two owners, so the candidate found is the only possible one. */
  lemma OneOwner(ws: seq<int64>, i: nat, j: nat, point: int)
    requires Owns(ws, i, point) && Owns(ws, j, point)
    ensures i == j
  {
    if i < j {
      WholeStep(ws, i);
      WholeGrows(ws, i + 1, j);
    } else if j < i {
      WholeStep(ws, j);
      WholeGrows(ws, j + 1, i);
    }
  }

  /** The intervals lie in the order of the candidates. */
  lemma InOrder(ws: seq<int64>, i: nat, j: nat, p: int, q: int)
    requires i < j && Owns(ws, i, p) && Owns(ws, j, q)
    ensures p < q
  {
    WholeStep(ws, i);
    WholeGrows(ws, i + 1, j);
  }

  /** And they leave no point out: the points are as many as the positive weights add up to. */
  lemma {:induction false} EveryPointOwned(ws: seq<int64>, point: nat) returns (i: nat)
    requires point < Whole(ws)
    ensures Owns(ws, i, point)
  {
    var n := |ws| - 1;
    if point < Whole(ws[..n]) {
      i := EveryPointOwned(ws[..n], point);
      assert ws[..n][..i] == ws[..i];
    } else {
      i := n;
    }
  }

  // ----- round robin -----

  const UINT64_SIZE: nat := 0x1_0000_0000_0000_0000

  class Cursor {
    var next: uint64

    constructor (start: uint64)
      ensures next == start
    {
      next := start;
    }

    /** Nobody (-1) when there are no candidates; otherwise the next in turn. */
    method RoundRobin(n: nat) returns (pick: int)
      modifies this
      ensures n == 0 ==> pick == -1 && next == old(next)
      ensures n > 0 ==> pick == old(next) % n && 0 <= pick < n && next == Turn(UINT64_SIZE, old(next), 1)
    {
      if n == 0 {
        return -1;
      }
      pick := next % n;
      next := if next == 0xFFFF_FFFF_FFFF_FFFF then 0 else next + 1;
    }

    /** As many requests as candidates, in a row. */
    method OneRound(n: nat) returns (picks: seq<int>)
      requires 0 < n <= UINT64_SIZE
      modifies this
      ensures |picks| == n && forall i | 0 <= i < n :: picks[i] == PickAt(UINT64_SIZE, old(next), i, n)
    {
      picks := [];
      for k := 0 to n
        invariant |picks| == k && next == Turn(UINT64_SIZE, old(next), k)
        invariant forall i | 0 <= i < k :: picks[i] == PickAt(UINT64_SIZE, old(next), i, n)
      {
        var pick := RoundRobin(n);
        picks := picks + [pick];
      }
    }
  }

  /** The cursor `i` turns after it stood at `c`, when it counts up to `size`. */
  function Turn(size: nat, c: nat, i: nat): nat
    requires c < size && i <= size
  {
    if c + i < size then c + i else c + i - size
  }

  function PickAt(size: nat, c: nat, i: nat, n: nat): nat
    requires c < size && i <= size && 0 < n
  {
    Turn(size, c, i) % n
  }

  /** A round of `n` turns gives every candidate exactly one. */
  predicate EvenRound(size: nat, c: nat, n: nat)
    requires c < size && 0 < n <= size
  {
    forall i, j | 0 <= i < j < n :: PickAt(size, c, i, n) != PickAt(size, c, j, n)
  }

  lemma EvenWithoutWrap(size: nat, c: nat, n: nat)
    requires 0 < n && c + n <= size
    ensures EvenRound(size, c, n)
  {
    forall i, j | 0 <= i < j < n
      ensures PickAt(size, c, i, n) != PickAt(size, c, j, n)
    {
      NearbyDiffer(c + i, c + j, n);
    }
  }

  /** When the candidates divide the cursor's range, the wrap goes unnoticed. */
  lemma WrapUnnoticed(size: nat, c: nat, i: nat, n: nat)
    requires 0 < n && size % n == 0 && c < size && i < n <= size
    ensures PickAt(size, c, i, n) == (c + i) % n
  {
    if size <= c + i {
      Divides(size, n);
      SameRemainder(c + i - size, n, size / n);
    }
  }

  lemma EvenWhenDividing(size: nat, c: nat, n: nat)
    requires 0 < n <= size && c < size && size % n == 0
    ensures EvenRound(size, c, n)
  {
    forall i, j | 0 <= i < j < n
      ensures PickAt(size, c, i, n) != PickAt(size, c, j, n)
    {
      WrapUnnoticed(size, c, i, n);
      WrapUnnoticed(size, c, j, n);
      NearbyDiffer(c + i, c + j, n);
    }
  }

  /** The remainder `t` steps before the end of the range, when it reaches down that far. */
  lemma BeforeTheEnd(size: nat, n: nat, t: nat)
    requires 0 < n <= size && t <= size % n
    ensures (size - t) % n == size % n - t
  {
    Divides(size, n);
    RemainderIs(size - t, n, size / n, size % n - t);
  }

  /** A wrap in the middle of a round repeats a candidate unless the range divides evenly. */
  lemma WrapRepeats(size: nat, c: nat, n: nat) returns (i: nat, j: nat)
    requires 0 < n <= size && c < size < c + n && size % n != 0
    ensures i < j < n && PickAt(size, c, i, n) == PickAt(size, c, j, n)
  {
    var k, r := size - c, size % n;
    var t: nat;
    if r <= n - k {
      i, j, t := k - 1, k + r - 1, 1;
    } else {
      i, j, t := n - r - 1, n - 1, r - (n - k - 1);
    }
    BeforeTheEnd(size, n, t);
    RemainderIs(j - k, n, 0, j - k);
  }

  /** ROUNDS, EXACTLY. A round from cursor `c` is even if and only if the cursor does not wrap on
      the way or the number of candidates divides its range. */
  lemma EvenRoundExactlyWhen(size: nat, c: nat, n: nat)
    requires 0 < n <= size && c < size
    ensures EvenRound(size, c, n) <==> c + n <= size || size % n == 0
  {
    if c + n <= size {
      EvenWithoutWrap(size, c, n);
    } else if size % n == 0 {
      EvenWhenDividing(size, c, n);
    } else {
      var i, j := WrapRepeats(size, c, n);
    }
  }

  // ----- remainders -----

  lemma NearbyDiffer(a: nat, b: nat, n: nat)
    requires a < b < a + n
    ensures a % n != b % n
  {
    var p, q := a / n, b / n;
    Divides(a, n);
    Divides(b, n);
    NoSmallMultiple(n, q - p);
    assert n * q - n * p == n * (q - p);
  }

  lemma Divides(a: nat, n: nat)
    requires 0 < n
    ensures a == n * (a / n) + a % n
  {
  }

  /** A quotient and a remainder in range are the quotient and the remainder. */
  lemma RemainderIs(a: nat, n: nat, q: nat, r: nat)
    requires a == n * q + r && r < n
    ensures a % n == r
  {
    var p := a / n;
    Divides(a, n);
    NoSmallMultiple(n, q - p);
    NoSmallMultiple(n, p - q);
    assert n * q - n * p == n * (q - p) && n * p - n * q == n * (p - q);
  }

  lemma SameRemainder(a: nat, n: nat, q: nat)
    requires 0 < n
    ensures (a + n * q) % n == a % n
  {
    Divides(a, n);
    assert a + n * q == n * (a / n + q) + a % n;
    RemainderIs(a + n * q, n, a / n + q, a % n);
  }

  lemma NoSmallMultiple(n: nat, k: int)
    ensures n * k <= 0 || n <= n * k
  {
    if 0 < k {
      assert n * k == n + n * (k - 1);
    }
  }
}
