/** What rendezvous ranking guarantees once the finisher has combined it with other opinions:
    a session stays with its owner, and losing a candidate moves only the sessions it owned. */
module Stickiness {
  import opened Affinity
  import opened StringOrder
  import opened Voting
  import opened Wire

  // ----- the ranking as a property of the set -----

  lemma {:induction false} DroppedCounts(h: Hash, keys: seq<string>, j: nat, k: string)
    requires j < |keys|
    ensures Above(h, keys, k) == Above(h, Dropped(keys, j), k) + if Before(h, keys[j], k) then 1 else 0
    ensures Copies(keys, k) == Copies(Dropped(keys, j), k) + if keys[j] == k then 1 else 0
  {
    var n := |keys| - 1;
    if j == n {
      assert Dropped(keys, j) == keys[..n];
    } else {
      DroppedCounts(h, keys[..n], j, k);
      assert Dropped(keys, j) == Dropped(keys[..n], j) + [keys[n]];
      CountSnoc(h, Dropped(keys[..n], j), keys[n], k);
    }
  }

  lemma LastIsCounted(keys: seq<string>)
    ensures keys != [] ==> Copies(keys, keys[|keys| - 1]) > 0
  {
  }

  lemma {:induction false} SameCopiesSameAbove(h: Hash, a: seq<string>, b: seq<string>, k: string)
    requires forall x :: Copies(a, x) == Copies(b, x)
    ensures Above(h, a, k) == Above(h, b, k)
    decreases |a|
  {
    if a == [] {
      LastIsCounted(b);
    } else {
      var n := |a| - 1;
      var e := a[n];
      assert Copies(b, e) == Copies(a, e) > 0;
      CountedIn(h, b, e);
      var j :| 0 <= j < |b| && b[j] == e;
      forall x
        ensures Copies(a[..n], x) == Copies(Dropped(b, j), x)
      {
        DroppedCounts(h, b, j, x);
        assert Copies(a, x) == Copies(b, x);
      }
      SameCopiesSameAbove(h, a[..n], Dropped(b, j), k);
      DroppedCounts(h, b, j, k);
    }
  }

  /** ORDER INDEPENDENCE. Two listings of the same candidates get the same scores. */
  lemma ListingDoesNotMatter(h: Hash, a: seq<string>, b: seq<string>)
    requires forall x :: Copies(a, x) == Copies(b, x)
    ensures ScoresFor(h, a) == ScoresFor(h, b)
  {
    forall k
      ensures k in ScoresFor(h, a) <==> k in ScoresFor(h, b)
      ensures k in ScoresFor(h, a) ==> ScoresFor(h, a)[k] == ScoresFor(h, b)[k]
    {
      ScoreByRank(h, a, k);
      ScoreByRank(h, b, k);
      CountedIn(h, a, k);
      CountedIn(h, b, k);
      SameCopiesSameAbove(h, a, b, k);
    }
  }

  lemma {:induction false} EarlierIsAbove(h: Hash, keys: seq<string>, a: string, b: string)
    requires Before(h, a, b)
    ensures Above(h, keys, a) + Copies(keys, a) <= Above(h, keys, b)
  {
    if keys != [] {
      var n := |keys| - 1;
      EarlierIsAbove(h, keys[..n], a, b);
      BeforeTotal(h, a, a);
      if Before(h, keys[n], a) {
        BeforeTransitive(h, keys[n], a, b);
      }
    }
  }

  lemma {:induction false} HalvedFalls(m: nat, n: nat)
    requires m < n
    ensures Halved(n) <= Halved(m) * 0.5 < Halved(m)
  {
    if m < n - 1 {
      HalvedFalls(m, n - 1);
    }
  }

  /** `a` is ahead of `b` exactly when its score is at least twice as high. */
  lemma AheadIsTwice(h: Hash, keys: seq<string>, a: string, b: string)
    requires Distinct(keys) && a in keys && b in keys
    ensures a in ScoresFor(h, keys) && b in ScoresFor(h, keys)
    ensures Before(h, a, b) ==> ScoresFor(h, keys)[b] <= ScoresFor(h, keys)[a] * 0.5
    ensures Before(h, a, b) <==> ScoresFor(h, keys)[a] > ScoresFor(h, keys)[b]
  {
    ScoreByRank(h, keys, a);
    ScoreByRank(h, keys, b);
    OneCopy(keys, a);
    OneCopy(keys, b);
    BeforeTotal(h, a, b);
    if Before(h, a, b) {
      EarlierIsAbove(h, keys, a, b);
      HalvedFalls(Above(h, keys, a), Above(h, keys, b));
    } else if Before(h, b, a) {
      EarlierIsAbove(h, keys, b, a);
      HalvedFalls(Above(h, keys, b), Above(h, keys, a));
    }
  }

  lemma {:induction false} OneCopy(keys: seq<string>, k: string)
    requires Distinct(keys)
    ensures Copies(keys, k) == if k in keys then 1 else 0
  {
    if keys != [] {
      var n := |keys| - 1;
      OneCopy(keys[..n], k);
      assert keys == keys[..n] + [keys[n]];
      assert keys[n] !in keys[..n];
    }
  }

  lemma DroppedDistinct(keys: seq<string>, j: nat)
    requires j < |keys| && Distinct(keys)
    ensures Distinct(Dropped(keys, j)) && keys[j] !in Dropped(keys, j)
    ensures forall k :: k in Dropped(keys, j) ==> k in keys
  {
    var r := Dropped(keys, j);
    assert forall i | 0 <= i < |r| :: r[i] == keys[if i < j then i else i + 1];
  }

  /** MINIMAL DISRUPTION. Removing any candidate leaves the relative order of all others as
      it was. */
  lemma RelativeOrderKept(h: Hash, keys: seq<string>, j: nat, a: string, b: string)
    requires Distinct(keys) && j < |keys| && a in Dropped(keys, j) && b in Dropped(keys, j)
    ensures var before, after := ScoresFor(h, keys), ScoresFor(h, Dropped(keys, j));
      && a in before && b in before && a in after && b in after
      && (after[a] > after[b] <==> before[a] > before[b])
  {
    DroppedDistinct(keys, j);
    AheadIsTwice(h, keys, a, b);
    AheadIsTwice(h, Dropped(keys, j), a, b);
  }

  // ----- the owner -----

  predicate IsOwner(h: Hash, keys: seq<string>, k: string) {
    k in keys && Above(h, keys, k) == 0
  }

  lemma OwnerExists(h: Hash, keys: seq<string>) returns (k: string)
    requires keys != []
    ensures IsOwner(h, keys, k)
  {
    var list := Sorted(h, keys);
    k := list[0];
    SortedRanked(h, keys);
    CountedIn(h, list, k);
    SortedCounts(h, keys, k);
    CountedIn(h, keys, k);
    NobodyBeforeFirst(h, list, |list|);
    assert list[..|list|] == list;
  }

  lemma {:induction false} NobodyBeforeFirst(h: Hash, list: seq<string>, n: nat)
    requires Ranked(h, list) && list != [] && n <= |list|
    ensures Above(h, list[..n], list[0]) == 0
  {
    if n > 0 {
      NobodyBeforeFirst(h, list, n - 1);
      BeforeTotal(h, list[0], list[0]);
      assert list[..n][..n - 1] == list[..n - 1];
    }
  }

  /** The owner comes before everybody else. */
  lemma OwnerLeads(h: Hash, keys: seq<string>, owner: string, k: string)
    requires IsOwner(h, keys, owner) && k in keys && k != owner
    ensures Before(h, owner, k)
  {
    BeforeTotal(h, owner, k);
    if Before(h, k, owner) {
      EarlierIsAbove(h, keys, k, owner);
      CountedIn(h, keys, k);
    }
  }

  // ----- the sum of the scores is below two -----

  lemma {:induction false} DecayedAt(list: seq<string>, i: nat)
    requires Distinct(list) && i < |list|
    ensures list[i] in Decayed(list) && Decayed(list)[list[i]] == Halved(i)
  {
    var n := |list| - 1;
    if i < n {
      DecayedAt(list[..n], i);
      assert list[..n][i] == list[i] != list[n];
    }
  }

  lemma {:induction false} PrefixSum(r: Rank, list: seq<string>, n: nat)
    requires Distinct(list) && n <= |list| && r.scores == Decayed(list)
    ensures Sum(r, list[..n]) == 2.0 - 2.0 * Halved(n)
  {
    if n > 0 {
      PrefixSum(r, list, n - 1);
      DecayedAt(list, n - 1);
      SumPrefix(r, list, n - 1);
    }
  }

  lemma {:induction false} SumInserted(h: Hash, r: Rank, keys: seq<string>, e: string)
    ensures Sum(r, Inserted(h, keys, e)) == Sum(r, keys) + Score(r, e)
  {
    if keys != [] && Before(h, e, keys[|keys| - 1]) {
      SumInserted(h, r, keys[..|keys| - 1], e);
    }
  }

  lemma {:induction false} SumSorted(h: Hash, r: Rank, keys: seq<string>)
    ensures Sum(r, Sorted(h, keys)) == Sum(r, keys)
  {
    if keys != [] {
      SumSorted(h, r, keys[..|keys| - 1]);
      SumInserted(h, r, Sorted(h, keys[..|keys| - 1]), keys[|keys| - 1]);
    }
  }

  lemma {:induction false} CopiesDistinct(keys: seq<string>)
    requires forall k :: Copies(keys, k) <= 1
    ensures Distinct(keys)
  {
    if keys != [] {
      var n := |keys| - 1;
      forall k
        ensures Copies(keys[..n], k) <= 1
      {
        assert Copies(keys, k) <= 1;
      }
      CopiesDistinct(keys[..n]);
      forall i | 0 <= i < n
        ensures keys[i] != keys[n]
      {
        CountedIn(_ => 0.0, keys[..n], keys[n]);
        assert Copies(keys, keys[n]) <= 1;
        assert keys[i] == keys[..n][i];
      }
    }
  }

  lemma SortedDistinct(h: Hash, keys: seq<string>)
    requires Distinct(keys)
    ensures Distinct(Sorted(h, keys))
  {
    forall k
      ensures Copies(Sorted(h, keys), k) <= 1
    {
      SortedCounts(h, keys, k);
      OneCopy(keys, k);
    }
    CopiesDistinct(Sorted(h, keys));
  }

  /** 1 + 1/2 + 1/4 + ... over any number of candidates. */
  lemma SumBelowTwo(h: Hash, r: Rank, keys: seq<string>)
    requires Distinct(keys) && keys != [] && r.scores == ScoresFor(h, keys)
    ensures 0.0 < Sum(r, keys) < 2.0
  {
    var list := Sorted(h, keys);
    SortedDistinct(h, keys);
    PrefixSum(r, list, |list|);
    assert list[..|list|] == list;
    SumSorted(h, r, keys);
    HalvedFalls(0, |list|);
  }

  // ----- the vote -----

  lemma {:induction false} ScoreBelowSum(r: Rank, keys: seq<string>, k: string)
    requires k in keys
    ensures Score(r, k) <= Sum(r, keys)
  {
    var n := |keys| - 1;
    assert keys == keys[..n] + [keys[n]];
    if k in keys[..n] {
      ScoreBelowSum(r, keys[..n], k);
    }
  }

  lemma ShareBounds(w: real, v: real, sum: real)
    requires 0.0 < w && 0.0 <= v <= sum && 0.0 < sum
    ensures 0.0 <= Share(w, v, sum) <= w
  {
    var q := Share(w, v, sum);
    ShareTimes(w, v, sum);
    TimesCommutes(sum, w);
    TimesGrows(w, sum, v);
    TimesGrows(w, v, 0.0);
    TimesGrows(sum, q, 0.0);
    TimesGrows(sum, w, q);
    SignKept(w, 0.0);
    SignKept(sum, 0.0);
  }

  /** No opinion gives a candidate more than its own weight. */
  lemma {:induction false} TotalWithin(ranks: seq<Rank>, keys: seq<string>, k: string)
    requires k in keys
    ensures 0.0 <= Total(ranks, keys, k) <= PublishedWeights(ranks, keys)
  {
    if ranks != [] {
      var r := ranks[|ranks| - 1];
      TotalWithin(ranks[..|ranks| - 1], keys, k);
      SumPositive(r, keys);
      if Sum(r, keys) > 0.0 {
        ScoreBelowSum(r, keys, k);
        ShareBounds(Weight(r), Score(r, k), Sum(r, keys));
      }
    }
  }

  lemma Lead(w: real, own: real, other: real, sum: real)
    requires 0.0 < w && 0.0 < sum < 2.0 && own == 1.0 && other <= 0.5
    ensures Share(w, own, sum) - Share(w, other, sum) > w * 0.25
  {
    var p, q, quarter := Share(w, own, sum), Share(w, other, sum), w * 0.25;
    ShareTimes(w, own, sum);
    ShareTimes(w, other, sum);
    TimesAdds(sum, q, p - q);
    TimesAdds(w, other, own - other);
    TimesGrows(w, own - other, 0.5);
    TimesGrows(sum, quarter, p - q);
    TimesCommutes(sum, quarter);
    TimesGrows(quarter, sum, 2.0);
    assert Times(w, 0.5) == Times(quarter, 2.0);
  }

  /** The owner's normalised lead over any rival is more than a quarter of the vote. */
  lemma OwnerVote(h: Hash, r: Rank, keys: seq<string>, owner: string, k: string)
    requires Distinct(keys) && IsOwner(h, keys, owner) && k in keys && k != owner
    requires r.scores == ScoresFor(h, keys)
    ensures Vote(r, keys, owner) - Vote(r, keys, k) > (if r.weight > 0.0 then r.weight else 1.0) * 0.25
  {
    SumBelowTwo(h, r, keys);
    OwnerLeads(h, keys, owner, k);
    AheadIsTwice(h, keys, owner, k);
    ScoreByRank(h, keys, owner);
    OneCopy(keys, owner);
    Lead(Weight(r), Score(r, owner), Score(r, k), Sum(r, keys));
  }

  function Others(ranks: seq<Rank>, a: nat): seq<Rank>
    requires a < |ranks|
  {
    ranks[..a] + ranks[a + 1..]
  }

  lemma TotalApart(ranks: seq<Rank>, a: nat, keys: seq<string>, k: string)
    requires a < |ranks|
    ensures Total(ranks, keys, k) == Total(Others(ranks, a), keys, k) + Vote(ranks[a], keys, k)
  {
    TotalAppend(ranks[..a], ranks[a + 1..], keys, k);
    TotalAppend(ranks[..a + 1], ranks[a + 1..], keys, k);
    assert ranks == ranks[..a + 1] + ranks[a + 1..] && ranks[..a + 1][..a] == ranks[..a];
  }

  /** The other opinions that score a candidate together weigh at most a quarter of opinion `a`,
      by the published weights. */
  predicate AtMostAQuarter(ranks: seq<Rank>, a: nat, keys: seq<string>)
    requires a < |ranks|
  {
    PublishedWeights(Others(ranks, a), keys) <= (if ranks[a].weight > 0.0 then ranks[a].weight else 1.0) * 0.25
  }

  predicate BestOf(ranks: seq<Rank>, keys: seq<string>, best: string) {
    best in keys && forall k | k in keys :: Total(ranks, keys, k) <= Total(ranks, keys, best)
  }

  /** STICKINESS. For every candidate set and whatever the others score: as long as the
      opinions other than session affinity together weigh at most a quarter of it, the winner
      is the session's owner. */
  lemma OwnerWins(h: Hash, keys: seq<string>, ranks: seq<Rank>, a: nat, best: string)
    requires Distinct(keys) && a < |ranks| && ranks[a].scores == ScoresFor(h, keys)
    requires AtMostAQuarter(ranks, a, keys)
    requires BestOf(ranks, keys, best)
    ensures IsOwner(h, keys, best)
  {
    var owner := OwnerExists(h, keys);
    if best != owner {
      TotalApart(ranks, a, keys, owner);
      TotalApart(ranks, a, keys, best);
      TotalWithin(Others(ranks, a), keys, owner);
      TotalWithin(Others(ranks, a), keys, best);
      OwnerVote(h, ranks[a], keys, owner, best);
      assert Total(ranks, keys, owner) > Total(ranks, keys, best);
    }
  }

  /** MINIMAL DISRUPTION, END TO END. With affinity as the only opinion, removing a candidate
      moves a session only if that candidate was its owner, and then to its second choice. */
  lemma OnlyOwnedSessionsMove(h: Hash, w: real, keys: seq<string>, j: nat, before: string, after: string)
    requires Distinct(keys) && j < |keys|
    requires BestOf([Rank(w, ScoresFor(h, keys))], keys, before)
    requires BestOf([Rank(w, ScoresFor(h, Dropped(keys, j)))], Dropped(keys, j), after)
    ensures before != keys[j] ==> after == before
    ensures before == keys[j] ==> Above(h, keys, after) == 1
  {
    DroppedDistinct(keys, j);
    SoleOpinion(h, w, keys, before);
    SoleOpinion(h, w, Dropped(keys, j), after);
    DroppedCounts(h, keys, j, after);
    DroppedCounts(h, keys, j, before);
    if before == keys[j] {
      OwnerLeads(h, keys, before, after);
    } else if after != before {
      assert before in Dropped(keys, j);
      OwnerLeads(h, keys, before, after);
      EarlierIsAbove(h, Dropped(keys, j), before, after);
      CountedIn(h, Dropped(keys, j), before);
    }
  }

  lemma SoleOpinion(h: Hash, w: real, keys: seq<string>, best: string)
    requires Distinct(keys) && BestOf([Rank(w, ScoresFor(h, keys))], keys, best)
    ensures IsOwner(h, keys, best)
  {
    var r := Rank(w, ScoresFor(h, keys));
    assert Others([r], 0) == [];
    OwnerWins(h, keys, [r], 0, best);
  }

  // ----- the ranking in numbers -----

  function PowerOfTwo(n: nat): real {
    if n == 0 then 1.0 else 2.0 * PowerOfTwo(n - 1)
  }

  lemma {:induction false} HalvedIsPower(n: nat)
    ensures Halved(n) * PowerOfTwo(n) == 1.0
  {
    if n > 0 {
      HalvedIsPower(n - 1);
      HalfTimesDouble(Halved(n - 1), PowerOfTwo(n - 1));
    }
  }

  lemma HalfTimesDouble(a: real, b: real)
    ensures (a * 0.5) * (2.0 * b) == a * b
  {
  }

  /** `a` is ahead of `b`: by the higher hash, or on a tie by the key. */
  predicate Ahead(h: Hash, a: string, b: string) {
    if h(a) == h(b) then LexLess(a, b) else h(a) > h(b)
  }

  /** THE RANKING IN NUMBERS. The candidates in falling order of their hashes have the scores 1,
      1/2, 1/4 and so on. */
  lemma ScoresByHash(h: Hash, keys: seq<string>) returns (list: seq<string>)
    requires Distinct(keys)
    ensures |list| == |keys| && forall k :: k in list <==> k in keys
    ensures forall i, j | 0 <= i < j < |list| :: Ahead(h, list[i], list[j])
    ensures forall i | 0 <= i < |list| ::
      list[i] in ScoresFor(h, keys) && ScoresFor(h, keys)[list[i]] * PowerOfTwo(i) == 1.0
  {
    list := Sorted(h, keys);
    SortedRanked(h, keys);
    SortedDistinct(h, keys);
    forall k
      ensures k in list <==> k in keys
    {
      SortedMembers(h, keys, k);
    }
    forall i, j | 0 <= i < j < |list|
      ensures Ahead(h, list[i], list[j])
    {
      BeforeTotal(h, list[i], list[j]);
      assert !Before(h, list[j], list[i]) && list[i] != list[j];
    }
    forall i | 0 <= i < |list|
      ensures list[i] in ScoresFor(h, keys) && ScoresFor(h, keys)[list[i]] * PowerOfTwo(i) == 1.0
    {
      DecayedAt(list, i);
      HalvedIsPower(i);
    }
  }

  /** The owner is the candidate that is ahead of all others. */
  lemma OwnerIsAhead(h: Hash, keys: seq<string>, k: string)
    requires k in keys
    ensures IsOwner(h, keys, k) <==> forall j | j in keys && j != k :: Ahead(h, k, j)
  {
    if IsOwner(h, keys, k) {
      forall j | j in keys && j != k
        ensures Ahead(h, k, j)
      {
        OwnerLeads(h, keys, k, j);
      }
    } else {
      var j := SomebodyAbove(h, keys, k);
      BeforeTotal(h, j, k);
      LexTotal(j, k);
    }
  }

  lemma {:induction false} SomebodyAbove(h: Hash, keys: seq<string>, k: string) returns (j: string)
    requires Above(h, keys, k) > 0
    ensures j in keys && Before(h, j, k)
  {
    var n := |keys| - 1;
    j := keys[n];
    if !Before(h, j, k) {
      j := SomebodyAbove(h, keys[..n], k);
    }
  }
}
