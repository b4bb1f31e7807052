/** Least-load scoring, and what it means for an instance that has just come back. */
module LeastLoad {
  import opened CandidateFilter
  import opened Voting
  import opened Wire
  import CandidateConfig

  function EffectiveLoad(c: Candidate): (load: real)
    ensures load >= 0.0
  {
    var load := c.inflight as real + c.penalty;
    if load < 0.0 then 0.0 else load
  }

  function LoadScore(load: real): (score: real)
    requires load >= 0.0
    ensures score > 0.0
  {
    1.0 / (1.0 + load)
  }

  /** The score map; of candidates with the same key the last one counts. */
  function LoadScoresOf(cands: seq<Candidate>): map<string, real> {
    if cands == [] then map[]
    else
      var c := cands[|cands| - 1];
      LoadScoresOf(cands[..|cands| - 1])[c.Key() := LoadScore(EffectiveLoad(c))]
  }

  method LoadScores(cands: seq<Candidate>) returns (scores: map<string, real>)
    ensures scores == LoadScoresOf(cands)
  {
    scores := map[];
    for i := 0 to |cands|
      invariant scores == LoadScoresOf(cands[..i])
    {
      assert cands[..i + 1][..i] == cands[..i];
      scores := scores[cands[i].Key() := LoadScore(EffectiveLoad(cands[i]))];
    }
    assert cands[..|cands|] == cands;
  }

  lemma FrontDistinct(cands: seq<Candidate>)
    requires cands != [] && Distinct(KeysOf(cands))
    ensures var n := |cands| - 1;
      Distinct(KeysOf(cands[..n])) && forall i | 0 <= i < n :: cands[i].Key() != cands[n].Key()
  {
    var keys, n := KeysOf(cands), |cands| - 1;
    assert KeysOf(cands[..n]) == keys[..n];
    assert forall i | 0 <= i < n :: keys[i] != keys[n];
  }

  lemma {:induction false} ScoreOfEach(cands: seq<Candidate>, i: nat)
    requires Distinct(KeysOf(cands)) && i < |cands|
    ensures cands[i].Key() in LoadScoresOf(cands)
    ensures LoadScoresOf(cands)[cands[i].Key()] == LoadScore(EffectiveLoad(cands[i]))
  {
    var n := |cands| - 1;
    if i < n {
      FrontDistinct(cands);
      ScoreOfEach(cands[..n], i);
      assert cands[..n][i] == cands[i];
    }
  }

  /** More load, less score: strictly. */
  lemma ScoreFalls(a: real, b: real)
    requires 0.0 <= a < b
    ensures LoadScore(b) < LoadScore(a)
  {
    var x, y := LoadScore(a), LoadScore(b);
    assert x * (1.0 + a) == 1.0 && y * (1.0 + b) == 1.0;
    if y >= x {
      TimesGrows(x, 1.0 + a, 1.0 + b);
      TimesGrows(1.0 + b, y, x);
      TimesCommutes(x, 1.0 + b);
      TimesCommutes(y, 1.0 + b);
    }
  }

  lemma ShareGrows(w: real, a: real, b: real, sum: real)
    requires 0.0 < w && 0.0 < sum && a < b
    ensures Share(w, a, sum) < Share(w, b, sum)
  {
    ShareTimes(w, a, sum);
    ShareTimes(w, b, sum);
    TimesGrows(w, a, b);
    TimesGrows(sum, Share(w, a, sum), Share(w, b, sum));
  }

  lemma {:induction false} SumCovers(r: Rank, keys: seq<string>, i: nat)
    requires i < |keys| && Score(r, keys[i]) > 0.0
    ensures Sum(r, keys) > 0.0
  {
    var n := |keys| - 1;
    if i < n {
      SumCovers(r, keys[..n], i);
    }
  }

  function LoadRank(w: real, cands: seq<Candidate>): Rank {
    Rank(w, LoadScoresOf(cands))
  }

  /** LEAST LOAD WINS. With least-load as the only opinion, the winner has minimum effective
      load. */
  lemma LeastLoadWins(w: real, cands: seq<Candidate>, best: nat, i: nat)
    requires Distinct(KeysOf(cands)) && i < |cands| && best < |cands|
    requires Total([LoadRank(w, cands)], KeysOf(cands), cands[i].Key())
          <= Total([LoadRank(w, cands)], KeysOf(cands), cands[best].Key())
    ensures EffectiveLoad(cands[best]) <= EffectiveLoad(cands[i])
  {
    var r, keys := LoadRank(w, cands), KeysOf(cands);
    ScoreOfEach(cands, i);
    ScoreOfEach(cands, best);
    SumCovers(r, keys, best);
    SoleTotal(r, keys, cands[i].Key());
    SoleTotal(r, keys, cands[best].Key());
    if EffectiveLoad(cands[i]) < EffectiveLoad(cands[best]) {
      ScoreFalls(EffectiveLoad(cands[i]), EffectiveLoad(cands[best]));
      ShareGrows(Weight(r), Score(r, keys[best]), Score(r, keys[i]), Sum(r, keys));
    }
  }

  lemma SoleTotal(r: Rank, keys: seq<string>, key: string)
    ensures Total([r], keys, key) == Vote(r, keys, key)
  {
    assert [r][..0] == [];
  }

  // ----- recovery -----

  /** The configured candidate `c` is back this very millisecond. */
  predicate JustReleased(states: States, c: Candidate, now: int) {
    var h := StateOf(states, c).health;
    c.kind != Provider && now == h.ejectedUntil < h.rampUntil
  }

  /** A just-released instance looks busier than every published candidate without a penalty. */
  lemma JustReleasedIsLast(states: States, specs: seq<Candidate>, now: int, a: nat, b: nat)
    requires a < |specs| && b < |specs|
    requires JustReleased(states, specs[a], now) && VerdictOf(states, specs[b], now).Normal?
    ensures var maxLoad := MaxLoad(states, specs, now);
      EffectiveLoad(Dressed(states, specs[b], now, maxLoad)) < EffectiveLoad(Dressed(states, specs[a], now, maxLoad))
  {
    var maxLoad := MaxLoad(states, specs, now);
    var h := StateOf(states, specs[a]).health;
    LoadBelowMax(states, specs, now, b);
    DressedPenalty(states, specs[a], now, maxLoad);
    PenaltyFallsLinearly(h, now, 0, maxLoad);
    NoPenalty(maxLoad);
  }

  lemma NoPenalty(maxLoad: nat)
    ensures 0.0 * (maxLoad as real + 1.0) == 0.0
  {
  }

  predicate Wins(w: real, cands: seq<Candidate>, best: nat) {
    best < |cands| && forall i | 0 <= i < |cands| ::
      Total([LoadRank(w, cands)], KeysOf(cands), cands[i].Key())
        <= Total([LoadRank(w, cands)], KeysOf(cands), cands[best].Key())
  }

  /** RECOVERY, END TO END. While some healthy candidate is published, a just-released instance
      is not the one least-load picks. */
  lemma JustReleasedIsNotPicked(states: States, specs: seq<Candidate>, now: int, failOpen: bool, w: real,
                                best: nat, a: nat, b: nat)
    requires CandidateConfig.Accepted(specs) && Wins(w, Published(states, specs, now, failOpen), best)
    requires a < |specs| && JustReleased(states, specs[a], now)
    requires b < |specs| && VerdictOf(states, specs[b], now).Normal?
    ensures Published(states, specs, now, failOpen)[best] != Dressed(states, specs[a], now, MaxLoad(states, specs, now))
  {
    var cands, maxLoad := Published(states, specs, now, failOpen), MaxLoad(states, specs, now);
    CandidateConfig.PublishedAccepted(states, specs, now, failOpen);
    PublishedHas(states, specs, now, failOpen, b);
    var i :| 0 <= i < |cands| && cands[i] == Dressed(states, specs[b], now, maxLoad);
    LeastLoadWins(w, cands, best, i);
    JustReleasedIsLast(states, specs, now, a, b);
  }

  // ----- in numbers -----

  predicate Loaded(c: Candidate) {
    0 <= c.inflight && 0.0 <= c.penalty
  }

  /** A published candidate's score is one over one more than its requests plus its penalty. */
  lemma ScoreInNumbers(c: Candidate, load: real)
    requires Loaded(c) && load == c.inflight as real + c.penalty
    ensures Times(LoadScore(EffectiveLoad(c)), 1.0 + load) == 1.0
  {
    assert EffectiveLoad(c) == load;
    Reciprocal(load);
  }

  lemma Reciprocal(load: real)
    requires load >= 0.0
    ensures Times(LoadScore(load), 1.0 + load) == 1.0
  {
  }

  /** The winner of a vote with least-load alone has the fewest requests plus penalty. */
  lemma FewestWins(w: real, cands: seq<Candidate>, best: nat, i: nat)
    requires Distinct(KeysOf(cands)) && Wins(w, cands, best) && i < |cands|
    requires Loaded(cands[best]) && Loaded(cands[i])
    ensures cands[best].inflight as real + cands[best].penalty <= cands[i].inflight as real + cands[i].penalty
  {
    LeastLoadWins(w, cands, best, i);
  }
}
