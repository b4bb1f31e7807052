/** Session affinity: candidates ranked by rendezvous hash for one session key, scored 1, 1/2,
    1/4, ... down the ranking. The hash itself is uninterpreted. */
module Affinity {
  import opened StringOrder

  /** rendezvousScore for one fixed session key. */
  type Hash = string -> real

  // ----- the ranking order -----

  /** Higher hash first; a tie, however unlikely, goes by the key. */
  predicate Before(h: Hash, a: string, b: string) {
    h(a) > h(b) || (h(a) == h(b) && LexLess(a, b))
  }

  lemma BeforeTotal(h: Hash, a: string, b: string)
    ensures a == b || Before(h, a, b) || Before(h, b, a)
    ensures !(Before(h, a, b) && Before(h, b, a)) && !Before(h, a, a)
  {
    LexTotal(a, b);
    LexTotal(a, a);
  }

  lemma BeforeTransitive(h: Hash, a: string, b: string, c: string)
    requires Before(h, a, b) && Before(h, b, c)
    ensures Before(h, a, c)
  {
    if h(a) == h(b) == h(c) {
      LexTransitive(a, b, c);
    }
  }

  /** How many of `keys` come before `k`, and how many are `k`. */
  function Above(h: Hash, keys: seq<string>, k: string): nat {
    if keys == [] then 0
    else Above(h, keys[..|keys| - 1], k) + if Before(h, keys[|keys| - 1], k) then 1 else 0
  }

  function Copies(keys: seq<string>, k: string): nat {
    if keys == [] then 0 else Copies(keys[..|keys| - 1], k) + if keys[|keys| - 1] == k then 1 else 0
  }

  // ----- sorting -----

  predicate Ranked(h: Hash, keys: seq<string>) {
    forall i, j | 0 <= i < j < |keys| :: !Before(h, keys[j], keys[i])
  }

  function Inserted(h: Hash, keys: seq<string>, k: string): (r: seq<string>)
    ensures |r| == |keys| + 1
  {
    if keys == [] then [k]
    else
      var n := |keys| - 1;
      if Before(h, k, keys[n]) then Inserted(h, keys[..n], k) + [keys[n]] else keys + [k]
  }

  /** sort.Slice by (hash descending, key ascending). */
  function Sorted(h: Hash, keys: seq<string>): (r: seq<string>)
    ensures |r| == |keys|
  {
    if keys == [] then [] else Inserted(h, Sorted(h, keys[..|keys| - 1]), keys[|keys| - 1])
  }

  lemma CountSnoc(h: Hash, keys: seq<string>, e: string, k: string)
    ensures Above(h, keys + [e], k) == Above(h, keys, k) + if Before(h, e, k) then 1 else 0
    ensures Copies(keys + [e], k) == Copies(keys, k) + if e == k then 1 else 0
  {
    assert (keys + [e])[..|keys|] == keys;
  }

  lemma {:induction false} InsertedCounts(h: Hash, keys: seq<string>, e: string, k: string)
    ensures Above(h, Inserted(h, keys, e), k) == Above(h, keys, k) + if Before(h, e, k) then 1 else 0
    ensures Copies(Inserted(h, keys, e), k) == Copies(keys, k) + if e == k then 1 else 0
  {
    if keys == [] || !Before(h, e, keys[|keys| - 1]) {
      CountSnoc(h, keys, e, k);
      assert keys == [] ==> keys + [e] == [e];
    } else {
      var n := |keys| - 1;
      InsertedCounts(h, keys[..n], e, k);
      CountSnoc(h, Inserted(h, keys[..n], e), keys[n], k);
    }
  }

  /** Sorting changes no count: it is a permutation, and everybody keeps its place. */
  lemma {:induction false} SortedCounts(h: Hash, keys: seq<string>, k: string)
    ensures Above(h, Sorted(h, keys), k) == Above(h, keys, k)
    ensures Copies(Sorted(h, keys), k) == Copies(keys, k)
  {
    if keys != [] {
      SortedCounts(h, keys[..|keys| - 1], k);
      InsertedCounts(h, Sorted(h, keys[..|keys| - 1]), keys[|keys| - 1], k);
    }
  }

  lemma {:induction false} InsertedRanked(h: Hash, keys: seq<string>, e: string)
    requires Ranked(h, keys)
    ensures Ranked(h, Inserted(h, keys, e))
    ensures forall k :: k in Inserted(h, keys, e) ==> k in keys || k == e
  {
    if keys != [] && Before(h, e, keys[|keys| - 1]) {
      var n := |keys| - 1;
      var front := Inserted(h, keys[..n], e);
      InsertedRanked(h, keys[..n], e);
      forall i | 0 <= i < |front|
        ensures !Before(h, keys[n], front[i])
      {
        assert front[i] in keys[..n] || front[i] == e;
        BeforeTotal(h, e, keys[n]);
      }
    } else {
      forall i | 0 <= i < |keys|
        ensures !Before(h, e, keys[i])
      {
        var n := |keys| - 1;
        if Before(h, e, keys[i]) && i < n {
          NotBeforeLast(h, e, keys[i], keys[n]);
        }
      }
    }
  }

  lemma NotBeforeLast(h: Hash, e: string, k: string, last: string)
    requires Before(h, e, k) && !Before(h, last, k)
    ensures Before(h, e, last)
  {
    BeforeTotal(h, k, last);
    if k != last {
      BeforeTransitive(h, e, k, last);
    }
  }

  lemma {:induction false} SortedRanked(h: Hash, keys: seq<string>)
    ensures Ranked(h, Sorted(h, keys))
  {
    if keys != [] {
      SortedRanked(h, keys[..|keys| - 1]);
      InsertedRanked(h, Sorted(h, keys[..|keys| - 1]), keys[|keys| - 1]);
    }
  }

  // ----- the scores -----

  function Halved(n: nat): (v: real)
    ensures 0.0 < v <= 1.0
  {
    if n == 0 then 1.0 else Halved(n - 1) * 0.5
  }

  /** The decaying loop over a ranked list; a repeated key keeps its last score. */
  function Decayed(list: seq<string>): map<string, real> {
    if list == [] then map[] else Decayed(list[..|list| - 1])[list[|list| - 1] := Halved(|list| - 1)]
  }

  lemma {:induction false} CountedIn(h: Hash, keys: seq<string>, k: string)
    ensures k in keys <==> Copies(keys, k) > 0
    ensures Above(h, keys, k) + Copies(keys, k) <= |keys|
  {
    if keys != [] {
      var n := |keys| - 1;
      CountedIn(h, keys[..n], k);
      assert keys == keys[..n] + [keys[n]];
      BeforeTotal(h, k, k);
    }
  }

  lemma {:induction false} AllUpTo(h: Hash, list: seq<string>, k: string)
    requires forall i | 0 <= i < |list| :: !Before(h, k, list[i])
    ensures Above(h, list, k) + Copies(list, k) == |list|
  {
    if list != [] {
      var n := |list| - 1;
      AllUpTo(h, list[..n], k);
      BeforeTotal(h, k, list[n]);
    }
  }

  /** In a ranked list a key's score is its place, counting the candidates before it. */
  lemma {:induction false} ScoreIsPlace(h: Hash, list: seq<string>, k: string)
    requires Ranked(h, list)
    ensures k in Decayed(list) <==> k in list
    ensures k in list ==> 1 <= Copies(list, k) && Decayed(list)[k] == Halved(Above(h, list, k) + Copies(list, k) - 1)
  {
    if list != [] {
      var n := |list| - 1;
      assert list == list[..n] + [list[n]];
      ScoreIsPlace(h, list[..n], k);
      CountedIn(h, list, k);
      if k == list[n] {
        BeforeTotal(h, k, k);
        AllUpTo(h, list, k);
      } else if k in list {
        var i :| 0 <= i < n && list[i] == k;
        assert !Before(h, list[n], k);
      }
    }
  }

  /** affinityScores: sort, then hand out 1, 1/2, 1/4, ... An empty session key abstains. */
  method AffinityScores(h: Hash, sessionKey: string, keys: seq<string>) returns (scores: map<string, real>)
    ensures sessionKey == "" ==> scores == map[]
    ensures sessionKey != "" ==> scores == ScoresFor(h, keys)
  {
    scores := map[];
    if sessionKey == "" {
      return;
    }
    var list := Sorted(h, keys);
    var v := 1.0;
    for i := 0 to |list|
      invariant scores == Decayed(list[..i]) && v == Halved(i)
    {
      assert list[..i + 1][..i] == list[..i];
      scores := scores[list[i] := v];
      v := v * 0.5;
    }
    assert list[..|list|] == list;
  }

  function ScoresFor(h: Hash, keys: seq<string>): map<string, real> {
    Decayed(Sorted(h, keys))
  }

  /** What the loop computes: a candidate's score depends only on how many come before it, and
      on nothing about the order in which the candidates were listed. */
  lemma ScoreByRank(h: Hash, keys: seq<string>, k: string)
    ensures k in ScoresFor(h, keys) <==> k in keys
    ensures k in keys ==>
      1 <= Copies(keys, k) && ScoresFor(h, keys)[k] == Halved(Above(h, keys, k) + Copies(keys, k) - 1)
  {
    SortedRanked(h, keys);
    SortedMembers(h, keys, k);
    SortedCounts(h, keys, k);
    ScoreIsPlace(h, Sorted(h, keys), k);
  }

  lemma SortedMembers(h: Hash, keys: seq<string>, k: string)
    ensures k in Sorted(h, keys) <==> k in keys
  {
    SortedCounts(h, keys, k);
    CountedIn(h, keys, k);
    CountedIn(h, Sorted(h, keys), k);
  }
}
