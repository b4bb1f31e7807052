/** Who is published and with what, on the timestamps of the stored records. */
module Publication {
  import opened CandidateFilter
  import opened Health
  import opened ModelNames
  import opened Wire

  /** The record under the candidate's own key; a missing one has no deadlines and no load. */
  function RecordOf(states: States, c: Candidate): State {
    if c.Key() in states.targets then states.targets[c.Key()] else State(0, Health(0, 0, 0))
  }

  /** An instance whose ejection is still running. */
  predicate Cooling(states: States, c: Candidate, now: int) {
    c.kind == Instance && now < RecordOf(states, c).health.ejectedUntil
  }

  predicate AllCooling(states: States, specs: seq<Candidate>, now: int) {
    forall i | 0 <= i < |specs| :: Cooling(states, specs[i], now)
  }

  /** The highest load of those that are not cooling down; 0 when there is none. */
  ghost predicate Busiest(states: States, specs: seq<Candidate>, now: int, load: nat) {
    && (forall i | 0 <= i < |specs| && !Cooling(states, specs[i], now) :: RecordOf(states, specs[i]).inflight <= load)
    && (load == 0
        || exists i | 0 <= i < |specs| ::
             !Cooling(states, specs[i], now) && RecordOf(states, specs[i]).inflight == load)
  }

  /** `d` is the configured `c` with its stored load, its model name and, between the end of the
      ejection and the end of the ramp, the part of the ramp that is left times one more than
      the highest load. */
  ghost predicate Carries(states: States, c: Candidate, now: int, load: nat, d: Candidate) {
    var r := RecordOf(states, c);
    var from, to := r.health.ejectedUntil, r.health.rampUntil;
    && d == c.(modelName := d.modelName, inflight := r.inflight, penalty := d.penalty, probation := d.probation)
    && Names(GroupOf(states.mappers, c.targetId), states.clientModel, d.modelName)
    && (d.probation <==> c.kind == Instance && from <= now < to)
    && (if d.probation then d.penalty == (to - now) as real / (to - from) as real * (load as real + 1.0)
        else d.penalty == 0.0)
  }

  /** The candidates that stay: nobody who is cooling down, unless all are and failing open is on. */
  predicate Stays(states: States, specs: seq<Candidate>, now: int, failOpen: bool, i: nat)
    requires i < |specs|
  {
    !Cooling(states, specs[i], now) || (failOpen && AllCooling(states, specs, now))
  }

  // ----- from verdicts to timestamps -----

  lemma EjectedIsCooling(states: States, c: Candidate, now: int)
    ensures VerdictOf(states, c, now).Ejected? <==> Cooling(states, c, now)
    ensures StateOf(states, c) == RecordOf(states, c)
  {
  }

  lemma DressedCarries(states: States, c: Candidate, now: int, load: nat)
    requires !Cooling(states, c, now)
    ensures Carries(states, c, now, load, Dressed(states, c, now, load))
  {
    EjectedIsCooling(states, c, now);
    NoPenalty(load);
  }

  lemma CoolingCarries(states: States, c: Candidate, now: int, load: nat)
    requires Cooling(states, c, now)
    ensures Carries(states, c, now, load, Dressed(states, c, now, load))
  {
    EjectedIsCooling(states, c, now);
    NoPenalty(load);
  }

  lemma NoPenalty(load: nat)
    ensures 0.0 * (load as real + 1.0) == 0.0
  {
  }

  lemma {:induction false} MaxLoadIsBusiest(states: States, specs: seq<Candidate>, now: int)
    ensures Busiest(states, specs, now, MaxLoad(states, specs, now))
  {
    if specs != [] {
      var n := |specs| - 1;
      var load := MaxLoad(states, specs[..n], now);
      MaxLoadIsBusiest(states, specs[..n], now);
      EjectedIsCooling(states, specs[n], now);
      assert forall i | 0 <= i < n :: specs[..n][i] == specs[i];
      if load > 0 {
        var i :| 0 <= i < n && !Cooling(states, specs[..n][i], now) && RecordOf(states, specs[..n][i]).inflight == load;
        assert specs[i] == specs[..n][i];
      }
    }
  }

  /** Which of the first `n` configured candidates are not cooling down, in order. */
  function Standing(states: States, specs: seq<Candidate>, now: int, n: nat): (kept: seq<nat>)
    requires n <= |specs|
    ensures forall p | 0 <= p < |kept| :: kept[p] < n
  {
    if n == 0 then []
    else
      var rest := Standing(states, specs, now, n - 1);
      if Cooling(states, specs[n - 1], now) then rest else rest + [n - 1]
  }

  lemma {:induction false} StandingIs(states: States, specs: seq<Candidate>, now: int, n: nat, i: nat)
    requires n <= |specs| && i < n
    ensures i in Standing(states, specs, now, n) <==> !Cooling(states, specs[i], now)
  {
    if i < n - 1 {
      StandingIs(states, specs, now, n - 1, i);
    }
  }

  lemma {:induction false} StandingRises(states: States, specs: seq<Candidate>, now: int, n: nat)
    requires n <= |specs|
    ensures Rising(Standing(states, specs, now, n))
  {
    if n > 0 {
      StandingRises(states, specs, now, n - 1);
    }
  }

  predicate Rising(kept: seq<nat>) {
    forall p, q | 0 <= p < q < |kept| :: kept[p] < kept[q]
  }

  ghost predicate AllCarry(states: States, specs: seq<Candidate>, now: int, load: nat, kept: seq<nat>,
                           cands: seq<Candidate>)
  {
    && |kept| == |cands|
    && forall p | 0 <= p < |kept| :: kept[p] < |specs| && Carries(states, specs[kept[p]], now, load, cands[p])
  }

  lemma {:induction false} AliveCarries(states: States, specs: seq<Candidate>, now: int, load: nat, n: nat)
    requires n <= |specs|
    ensures AllCarry(states, specs, now, load, Standing(states, specs, now, n), Alive(states, specs[..n], now, load))
  {
    if n > 0 {
      AliveCarries(states, specs, now, load, n - 1);
      assert specs[..n][..n - 1] == specs[..n - 1] && specs[..n][n - 1] == specs[n - 1];
      EjectedIsCooling(states, specs[n - 1], now);
      if !Cooling(states, specs[n - 1], now) {
        DressedCarries(states, specs[n - 1], now, load);
      }
    }
  }

  lemma EverybodyCarries(states: States, specs: seq<Candidate>, now: int, load: nat)
    ensures AllCarry(states, specs, now, load, Count(|specs|), Everybody(states, specs, now, load))
  {
    forall i | 0 <= i < |specs|
      ensures Carries(states, specs[i], now, load, Dressed(states, specs[i], now, load))
    {
      if Cooling(states, specs[i], now) {
        CoolingCarries(states, specs[i], now, load);
      } else {
        DressedCarries(states, specs[i], now, load);
      }
    }
  }

  function Count(n: nat): (r: seq<nat>)
    ensures |r| == n && forall i | 0 <= i < n :: r[i] == i
  {
    seq(n, i => i)
  }

  // ----- the filter, exactly -----

  /** WHO IS PUBLISHED, AND WITH WHAT. Exactly the candidates that stay, in configured order,
      each with what is stored under its own key. */
  lemma PublishedExactly(states: States, specs: seq<Candidate>, now: int, failOpen: bool)
    returns (kept: seq<nat>, load: nat)
    ensures Rising(kept) && Busiest(states, specs, now, load)
    ensures AllCarry(states, specs, now, load, kept, Published(states, specs, now, failOpen))
    ensures forall i: nat | i < |specs| :: i in kept <==> Stays(states, specs, now, failOpen, i)
  {
    load := MaxLoad(states, specs, now);
    MaxLoadIsBusiest(states, specs, now);
    var n := |specs|;
    kept := Standing(states, specs, now, n);
    StandingRises(states, specs, now, n);
    AliveCarries(states, specs, now, load, n);
    assert specs[..n] == specs;
    forall i: nat | i < n
      ensures i in kept <==> !Cooling(states, specs[i], now)
    {
      StandingIs(states, specs, now, n, i);
    }
    if kept != [] {
      assert kept[0] in kept && !Cooling(states, specs[kept[0]], now);
      assert !AllCooling(states, specs, now);
    } else {
      forall i | 0 <= i < n
        ensures Cooling(states, specs[i], now)
      {
        var j: nat := i;
        assert j !in kept;
      }
      assert AllCooling(states, specs, now);
      if failOpen {
        kept := Count(n);
        EverybodyCarries(states, specs, now, load);
        forall i: nat | i < n
          ensures i in kept
        {
          assert kept[i] == i;
        }
      }
    }
  }

  /** Nobody is published exactly when there is nobody, or all are cooling and must stay out. */
  lemma NobodyPublished(states: States, specs: seq<Candidate>, now: int, failOpen: bool)
    ensures Published(states, specs, now, failOpen) == []
       <==> specs == [] || (!failOpen && AllCooling(states, specs, now))
  {
    var kept, load := PublishedExactly(states, specs, now, failOpen);
    if kept != [] {
      assert kept[0] in kept && Stays(states, specs, now, failOpen, kept[0]);
    } else {
      forall i | 0 <= i < |specs|
        ensures !Stays(states, specs, now, failOpen, i) && Cooling(states, specs[i], now)
      {
        var j: nat := i;
        assert j !in kept;
      }
      assert specs != [] ==> !Stays(states, specs, now, failOpen, 0);
      assert AllCooling(states, specs, now);
    }
  }
}
