/** How the finisher combines the plugins' opinions: each opinion is L1-normalised over the
    live candidates and casts a weighted vote; the highest total wins. */
module Voting {
  import opened Wire

  const DEFAULT_RANK_WEIGHT: real := 1.0

  function Weight(r: Rank): (w: real)
    ensures w > 0.0
  {
    if r.weight > 0.0 then r.weight else DEFAULT_RANK_WEIGHT
  }

  /** Missing and negative scores count as zero. */
  function Score(r: Rank, key: string): (v: real)
    ensures v >= 0.0
  {
    if key in r.scores && r.scores[key] > 0.0 then r.scores[key] else 0.0
  }

  function Sum(r: Rank, keys: seq<string>): (s: real)
    ensures s >= 0.0
  {
    if keys == [] then 0.0 else Sum(r, keys[..|keys| - 1]) + Score(r, keys[|keys| - 1])
  }

  /** `w` parts of a vote, split in proportion `v` to `sum`. */
  function Share(w: real, v: real, sum: real): real
    requires sum > 0.0
  {
    w * v / sum
  }

  /** An opinion without a valid score casts no vote. */
  function Vote(r: Rank, keys: seq<string>, key: string): real {
    if Sum(r, keys) > 0.0 then Share(Weight(r), Score(r, key), Sum(r, keys)) else 0.0
  }

  function Total(ranks: seq<Rank>, keys: seq<string>, key: string): real {
    if ranks == [] then 0.0
    else Total(ranks[..|ranks| - 1], keys, key) + Vote(ranks[|ranks| - 1], keys, key)
  }

  predicate Contributed(ranks: seq<Rank>, keys: seq<string>) {
    exists i | 0 <= i < |ranks| :: Sum(ranks[i], keys) > 0.0
  }

  lemma SumPrefix(r: Rank, keys: seq<string>, i: nat)
    requires i < |keys|
    ensures Sum(r, keys[..i + 1]) == Sum(r, keys[..i]) + Score(r, keys[i])
  {
    assert keys[..i + 1][..i] == keys[..i];
  }

  // ----- the loops -----

  method SumScores(r: Rank, keys: seq<string>) returns (sum: real)
    ensures sum == Sum(r, keys)
  {
    sum := 0.0;
    for i := 0 to |keys|
      invariant sum == Sum(r, keys[..i])
    {
      SumPrefix(r, keys, i);
      if keys[i] in r.scores && r.scores[keys[i]] > 0.0 {
        sum := sum + r.scores[keys[i]];
      }
    }
    assert keys[..|keys|] == keys;
  }

  /** One candidate's part of a vote, as the accumulation loop computes it. */
  function Part(r: Rank, w: real, sum: real, key: string): real
    requires sum > 0.0
  {
    if key in r.scores && r.scores[key] > 0.0 then w * r.scores[key] / sum else 0.0
  }

  lemma PartIsVote(r: Rank, keys: seq<string>, key: string)
    requires Sum(r, keys) > 0.0
    ensures Part(r, Weight(r), Sum(r, keys), key) == Vote(r, keys, key)
  {
    NoShare(Weight(r), Sum(r, keys));
  }

  /** Add one opinion's vote to every total, in place. */
  method AddVote(r: Rank, keys: seq<string>, sum: real, totals: array<real>)
    requires totals.Length == |keys| && sum == Sum(r, keys) > 0.0
    modifies totals
    ensures forall i | 0 <= i < |keys| :: totals[i] == old(totals[i]) + Vote(r, keys, keys[i])
  {
    var w := if r.weight > 0.0 then r.weight else DEFAULT_RANK_WEIGHT;
    for i := 0 to |keys|
      invariant forall j | 0 <= j < i :: totals[j] == old(totals[j]) + Vote(r, keys, keys[j])
      invariant forall j | i <= j < |keys| :: totals[j] == old(totals[j])
    {
      PartIsVote(r, keys, keys[i]);
      totals[i] := totals[i] + Part(r, w, sum, keys[i]);
    }
  }

  lemma NoShare(w: real, sum: real)
    requires sum > 0.0
    ensures Share(w, 0.0, sum) == 0.0
  {
  }

  method CombineRanks(keys: seq<string>, ranks: seq<Rank>) returns (totals: array<real>, contributed: bool)
    ensures fresh(totals) && totals.Length == |keys|
    ensures forall i | 0 <= i < |keys| :: totals[i] == Total(ranks, keys, keys[i])
    ensures contributed <==> Contributed(ranks, keys)
  {
    totals := new real[|keys|](_ => 0.0);
    contributed := false;
    for n := 0 to |ranks|
      invariant fresh(totals) && totals.Length == |keys|
      invariant forall i | 0 <= i < |keys| :: totals[i] == Total(ranks[..n], keys, keys[i])
      invariant contributed <==> Contributed(ranks[..n], keys)
    {
      var r := ranks[n];
      assert ranks[..n + 1][..n] == ranks[..n] && ranks[..n + 1][n] == r;
      ContributedSnoc(ranks[..n], r, keys);
      assert ranks[..n + 1] == ranks[..n] + [r];
      var sum := SumScores(r, keys);
      if sum > 0.0 {
        AddVote(r, keys, sum, totals);
        contributed := true;
      }
    }
    assert ranks[..|ranks|] == ranks;
  }

  lemma ContributedSnoc(ranks: seq<Rank>, r: Rank, keys: seq<string>)
    ensures Contributed(ranks + [r], keys) <==> Contributed(ranks, keys) || Sum(r, keys) > 0.0
  {
    if Sum(r, keys) > 0.0 {
      assert (ranks + [r])[|ranks|] == r;
    }
    if Contributed(ranks, keys) {
      var i :| 0 <= i < |ranks| && Sum(ranks[i], keys) > 0.0;
      assert (ranks + [r])[i] == ranks[i];
    }
  }

  /** `best` has the highest total; every candidate with that total may be the one. */
  predicate IsBest(totals: seq<real>, best: nat) {
    best < |totals| && forall i | 0 <= i < |totals| :: totals[i] <= totals[best]
  }

  /** The reservoir over ties: the draw is arbitrary. */
  method BestTotal(totals: seq<real>) returns (best: int)
    ensures totals == [] ==> best == -1
    ensures totals != [] ==> 0 <= best && IsBest(totals, best)
  {
    best := -1;
    var bestScore := 0.0;
    var ties := 0;
    for i := 0 to |totals|
      invariant best < 0 <==> i == 0
      invariant -1 <= best < i && (best >= 0 ==> bestScore == totals[best])
      invariant forall j | 0 <= j < i :: totals[j] <= bestScore
    {
      if best < 0 || totals[i] > bestScore {
        best, bestScore, ties := i, totals[i], 1;
      } else if totals[i] == bestScore {
        ties := ties + 1;
        var replace: bool := *;
        if replace {
          best := i;
        }
      }
    }
  }

  // ----- conservation -----

  lemma ShareAdds(w: real, a: real, b: real, sum: real)
    requires sum > 0.0
    ensures Share(w, a + b, sum) == Share(w, a, sum) + Share(w, b, sum)
  {
  }

  lemma ShareWhole(w: real, sum: real)
    requires sum > 0.0
    ensures Share(w, sum, sum) == w
  {
  }

  /** What an opinion gives to the candidates `some`, when it is normalised over `keys`. */
  function Given(r: Rank, keys: seq<string>, some: seq<string>): real {
    if some == [] then 0.0 else Given(r, keys, some[..|some| - 1]) + Vote(r, keys, some[|some| - 1])
  }

  function GivenByAll(ranks: seq<Rank>, keys: seq<string>, some: seq<string>): real {
    if some == [] then 0.0
    else GivenByAll(ranks, keys, some[..|some| - 1]) + Total(ranks, keys, some[|some| - 1])
  }

  /** Some candidate has a positive score. */
  predicate HasScore(r: Rank, keys: seq<string>) {
    exists i | 0 <= i < |keys| :: keys[i] in r.scores && r.scores[keys[i]] > 0.0
  }

  lemma {:induction false} SumPositive(r: Rank, keys: seq<string>)
    ensures Sum(r, keys) > 0.0 <==> HasScore(r, keys)
  {
    if keys != [] {
      var n := |keys| - 1;
      SumPositive(r, keys[..n]);
      assert forall i | 0 <= i < n :: keys[..n][i] == keys[i];
    }
  }

  /** The finisher falls back on round robin exactly when no opinion scores a live candidate. */
  lemma ContributedExactlyWhen(ranks: seq<Rank>, keys: seq<string>)
    ensures Contributed(ranks, keys) <==> exists n | 0 <= n < |ranks| :: HasScore(ranks[n], keys)
  {
    forall n | 0 <= n < |ranks|
      ensures Sum(ranks[n], keys) > 0.0 <==> HasScore(ranks[n], keys)
    {
      SumPositive(ranks[n], keys);
    }
  }

  /** The published weights of the opinions that score a candidate; one that is zero or less
      counts as 1. */
  function PublishedWeights(ranks: seq<Rank>, keys: seq<string>): real {
    if ranks == [] then 0.0
    else
      var r := ranks[|ranks| - 1];
      var w := if r.weight > 0.0 then r.weight else 1.0;
      PublishedWeights(ranks[..|ranks| - 1], keys) + if HasScore(r, keys) then w else 0.0
  }

  lemma {:induction false} GivenIsShare(r: Rank, keys: seq<string>, some: seq<string>)
    requires Sum(r, keys) > 0.0
    ensures Given(r, keys, some) == Share(Weight(r), Sum(r, some), Sum(r, keys))
  {
    if some == [] {
      NoShare(Weight(r), Sum(r, keys));
    } else {
      var n := |some| - 1;
      GivenIsShare(r, keys, some[..n]);
      ShareAdds(Weight(r), Sum(r, some[..n]), Score(r, some[n]), Sum(r, keys));
    }
  }

  lemma {:induction false} NothingGiven(r: Rank, keys: seq<string>, some: seq<string>)
    requires Sum(r, keys) <= 0.0
    ensures Given(r, keys, some) == 0.0
  {
    if some != [] {
      NothingGiven(r, keys, some[..|some| - 1]);
    }
  }

  /** Each opinion casts exactly its published weight, 1 when that is zero or less, or nothing. */
  lemma OneVote(r: Rank, keys: seq<string>)
    ensures Given(r, keys, keys)
         == if !HasScore(r, keys) then 0.0 else if r.weight > 0.0 then r.weight else 1.0
  {
    SumPositive(r, keys);
    if Sum(r, keys) > 0.0 {
      GivenIsShare(r, keys, keys);
      ShareWhole(Weight(r), Sum(r, keys));
    } else {
      NothingGiven(r, keys, keys);
    }
  }

  lemma {:induction false} GivenByOneMore(ranks: seq<Rank>, keys: seq<string>, some: seq<string>)
    requires ranks != []
    ensures GivenByAll(ranks, keys, some)
         == GivenByAll(ranks[..|ranks| - 1], keys, some) + Given(ranks[|ranks| - 1], keys, some)
  {
    if some != [] {
      GivenByOneMore(ranks, keys, some[..|some| - 1]);
    }
  }

  lemma {:induction false} GivenByNone(keys: seq<string>, some: seq<string>)
    ensures GivenByAll([], keys, some) == 0.0
  {
    if some != [] {
      GivenByNone(keys, some[..|some| - 1]);
    }
  }

  /** VOTE CONSERVATION. Over any candidates and any opinions, the totals of all candidates
      add up to the published weights of the opinions that contributed. */
  lemma {:induction false} VotesConserved(ranks: seq<Rank>, keys: seq<string>)
    ensures GivenByAll(ranks, keys, keys) == PublishedWeights(ranks, keys)
  {
    if ranks == [] {
      GivenByNone(keys, keys);
    } else {
      VotesConserved(ranks[..|ranks| - 1], keys);
      GivenByOneMore(ranks, keys, keys);
      OneVote(ranks[|ranks| - 1], keys);
    }
  }

  /** Within one opinion the candidates share its vote in proportion to their scores; without a
      positive score a candidate gets nothing. */
  lemma VotesInProportion(r: Rank, keys: seq<string>, a: string, b: string)
    requires HasScore(r, keys)
    ensures !(a in r.scores && r.scores[a] > 0.0) ==> Vote(r, keys, a) == 0.0
    ensures a in r.scores && r.scores[a] > 0.0 ==> Vote(r, keys, a) > 0.0
    ensures a in r.scores && r.scores[a] > 0.0 && b in r.scores && r.scores[b] > 0.0
      ==> Times(r.scores[b], Vote(r, keys, a)) == Times(r.scores[a], Vote(r, keys, b))
  {
    var w, sum := Weight(r), Sum(r, keys);
    SumPositive(r, keys);
    NoShare(w, sum);
    Proportion(w, sum, Score(r, a), Score(r, b));
  }

  lemma Proportion(w: real, sum: real, a: real, b: real)
    requires w > 0.0 && sum > 0.0
    ensures Times(b, Share(w, a, sum)) == Times(a, Share(w, b, sum))
    ensures a > 0.0 ==> Share(w, a, sum) > 0.0
  {
    var p, q := Share(w, a, sum), Share(w, b, sum);
    assert p == a * (w / sum) && q == b * (w / sum);
    assert w / sum > 0.0;
  }

  /** WEIGHTS COUNT. Multiplying a positive weight multiplies the opinion's part of every total. */
  lemma {:induction false} HeavierVotes(ranks: seq<Rank>, n: nat, c: real, keys: seq<string>, key: string)
    requires n < |ranks| && ranks[n].weight > 0.0 && c > 0.0
    ensures Total(ranks[n := Rank(Times(c, ranks[n].weight), ranks[n].scores)], keys, key)
         == Total(ranks, keys, key) - Vote(ranks[n], keys, key) + Times(c, Vote(ranks[n], keys, key))
  {
    var heavier := Rank(Times(c, ranks[n].weight), ranks[n].scores);
    var changed, last := ranks[n := heavier], |ranks| - 1;
    if n == last {
      assert changed[..last] == ranks[..last];
      SameScores(ranks[n], heavier, keys);
      SignKept(c, ranks[n].weight);
      ShareOfMore(ranks[n].weight, c, Score(ranks[n], key), Sum(ranks[n], keys));
    } else {
      assert changed[..last] == ranks[..last][n := heavier];
      HeavierVotes(ranks[..last], n, c, keys, key);
    }
  }

  lemma {:induction false} SameScores(r: Rank, q: Rank, keys: seq<string>)
    requires r.scores == q.scores
    ensures Sum(r, keys) == Sum(q, keys)
  {
    if keys != [] {
      SameScores(r, q, keys[..|keys| - 1]);
    }
  }

  lemma ShareOfMore(w: real, c: real, v: real, sum: real)
    ensures sum > 0.0 ==> Share(Times(c, w), v, sum) == Times(c, Share(w, v, sum))
    ensures Times(c, 0.0) == 0.0
  {
    assert c * w * v == c * (w * v);
  }

  // ----- what does not matter -----

  function Times(c: real, v: real): real {
    c * v
  }

  lemma TimesAdds(c: real, a: real, b: real)
    ensures Times(c, a + b) == Times(c, a) + Times(c, b)
  {
  }

  lemma ShareTimes(w: real, v: real, sum: real)
    requires 0.0 < sum
    ensures Times(sum, Share(w, v, sum)) == Times(w, v)
  {
  }

  lemma TimesGrows(w: real, a: real, b: real)
    requires 0.0 < w
    ensures a < b <==> Times(w, a) < Times(w, b)
  {
    SignKept(w, b - a);
    TimesAdds(w, a, b - a);
  }

  lemma TimesCommutes(a: real, b: real)
    ensures Times(a, b) == Times(b, a)
  {
  }

  function Scaled(r: Rank, c: real): Rank {
    Rank(r.weight, map key | key in r.scores :: Times(c, r.scores[key]))
  }

  lemma ScoreScales(r: Rank, c: real, key: string)
    requires c > 0.0
    ensures Score(Scaled(r, c), key) == Times(c, Score(r, key))
  {
    SignKept(c, if key in r.scores then r.scores[key] else 0.0);
  }

  lemma SignKept(c: real, v: real)
    requires c > 0.0
    ensures (Times(c, v) > 0.0 <==> v > 0.0) && Times(c, 0.0) == 0.0
  {
    if v < 0.0 {
      assert c * -v > 0.0;
    }
  }

  lemma {:induction false} SumScales(r: Rank, c: real, keys: seq<string>)
    requires c > 0.0
    ensures Sum(Scaled(r, c), keys) == Times(c, Sum(r, keys))
  {
    SignKept(c, 0.0);
    if keys != [] {
      var n := |keys| - 1;
      SumScales(r, c, keys[..n]);
      ScoreScales(r, c, keys[n]);
      TimesAdds(c, Sum(r, keys[..n]), Score(r, keys[n]));
    }
  }

  lemma ShareScales(w: real, v: real, sum: real, c: real)
    requires sum > 0.0 && c > 0.0 && Times(c, sum) > 0.0
    ensures Share(w, Times(c, v), Times(c, sum)) == Share(w, v, sum)
  {
    var q := Share(w, v, sum);
    assert q * sum == w * v;
    assert q * (c * sum) == c * (q * sum) == c * (w * v) == w * (c * v);
  }

  lemma VoteScales(r: Rank, c: real, keys: seq<string>, key: string)
    requires c > 0.0
    ensures Vote(Scaled(r, c), keys, key) == Vote(r, keys, key)
  {
    SumScales(r, c, keys);
    ScoreScales(r, c, key);
    SignKept(c, Sum(r, keys));
    if Sum(r, keys) > 0.0 {
      ShareScales(Weight(r), Score(r, key), Sum(r, keys), c);
    }
  }

  /** SCALE INVARIANCE. Multiplying all scores of one opinion by a positive constant changes
      no total. */
  lemma {:induction false} ScaleDoesNotMatter(ranks: seq<Rank>, n: nat, c: real, keys: seq<string>, key: string)
    requires n < |ranks| && c > 0.0
    ensures Total(ranks[n := Scaled(ranks[n], c)], keys, key) == Total(ranks, keys, key)
  {
    var scaled, last := ranks[n := Scaled(ranks[n], c)], |ranks| - 1;
    if n == last {
      assert scaled[..last] == ranks[..last];
      VoteScales(ranks[n], c, keys, key);
    } else {
      assert scaled[..last] == ranks[..last][n := Scaled(ranks[n], c)];
      ScaleDoesNotMatter(ranks[..last], n, c, keys, key);
    }
  }

  lemma {:induction false} TotalAppend(a: seq<Rank>, b: seq<Rank>, keys: seq<string>, key: string)
    ensures Total(a + b, keys, key) == Total(a, keys, key) + Total(b, keys, key)
  {
    if b == [] {
      assert a + b == a;
    } else {
      var n := |b| - 1;
      assert (a + b)[..|a + b| - 1] == a + b[..n];
      TotalAppend(a, b[..n], keys, key);
    }
  }

  /** The order in which the opinions were appended does not matter. */
  lemma OrderDoesNotMatter(a: seq<Rank>, x: Rank, y: Rank, b: seq<Rank>, keys: seq<string>, key: string)
    ensures Total(a + [x, y] + b, keys, key) == Total(a + [y, x] + b, keys, key)
  {
    TotalAppend(a + [x, y], b, keys, key);
    TotalAppend(a + [y, x], b, keys, key);
    TotalAppend(a, [x, y], keys, key);
    TotalAppend(a, [y, x], keys, key);
    assert [x, y] == [x] + [y] && [y, x] == [y] + [x];
    TotalAppend([x], [y], keys, key);
    TotalAppend([y], [x], keys, key);
  }
}
