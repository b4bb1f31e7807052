/** Passive health of one cluster: consecutive connectivity failures, the ejection they
    lead to, and the recovery window after it. */
module Health {

  /** The zero record: never failed, never ejected. */
  datatype Health = Health(fails: nat, ejectedUntil: int, rampUntil: int)

  const CLEAN := Health(0, 0, 0)

  /** Windows and threshold as configured; parsing turns anything below 1 into a default. */
  datatype Windows = Windows(unhealthyThreshold: nat, cooldownMs: nat, rampMs: nat)
  {
    predicate Valid() {
      1 <= unhealthyThreshold
    }
  }

  /** What the finisher learned when a request ended. `probation`: the request was admitted
      during the recovery window. */
  datatype Report = Success | Failure(probation: bool, now: int)

  /** The finisher's choice of threshold: tightened to 1 during probation. */
  function Threshold(w: Windows, probation: bool): nat {
    if probation then 1 else w.unhealthyThreshold
  }

  function Eject(w: Windows, now: int): Health {
    Health(0, now + w.cooldownMs, now + w.cooldownMs + w.rampMs)
  }

  /** recordSuccess and recordFailure, as one atomic update of the record. */
  function Apply(w: Windows, h: Health, r: Report): Health {
    match r
    case Success => h.(fails := 0)
    case Failure(probation, now) =>
      if h.fails + 1 >= Threshold(w, probation) then Eject(w, now) else h.(fails := h.fails + 1)
  }

  /** The record after the reports of `log`, in the order their writes took effect. */
  function Replay(w: Windows, log: seq<Report>): Health {
    if log == [] then CLEAN else Apply(w, Replay(w, log[..|log| - 1]), log[|log| - 1])
  }

  // ----- what the record says about the history -----

  /** Report `i` ejected the cluster: it is a failure of a probation request, or it completes
      `unhealthyThreshold` failures in a row none of which ejected. */
  predicate Ejects(w: Windows, log: seq<Report>, i: nat)
    requires i < |log|
  {
    && log[i].Failure?
    && (log[i].probation
        || (w.unhealthyThreshold <= i + 1
            && forall j | i + 1 - w.unhealthyThreshold <= j < i :: log[j].Failure? && !Ejects(w, log, j)))
  }

  /** The last `n` reports are failures that ejected nobody, and the one before is not. */
  predicate RunLength(w: Windows, log: seq<Report>, n: nat) {
    && n <= |log|
    && (forall j | |log| - n <= j < |log| :: log[j].Failure? && !Ejects(w, log, j))
    && (n < |log| ==> log[|log| - n - 1].Success? || Ejects(w, log, |log| - n - 1))
  }

  lemma {:induction false} EjectsPrefix(w: Windows, log: seq<Report>, n: nat, i: nat)
    requires i < n <= |log|
    ensures Ejects(w, log[..n], i) == Ejects(w, log, i)
  {
    forall j | 0 <= j < i
      ensures Ejects(w, log[..n], j) == Ejects(w, log, j)
    {
      EjectsPrefix(w, log, n, j);
    }
  }

  lemma RunLengthPrefix(w: Windows, log: seq<Report>, r: Report, n: nat)
    requires RunLength(w, log, n)
    ensures forall j | 0 <= j < |log| :: Ejects(w, log + [r], j) == Ejects(w, log, j)
  {
    assert (log + [r])[..|log|] == log;
    forall j | 0 <= j < |log|
      ensures Ejects(w, log + [r], j) == Ejects(w, log, j)
    {
      EjectsPrefix(w, log + [r], |log|, j);
    }
  }

  /** HEALTH HISTORY. For every sequence of reports: the count is exactly the number of
      failures since the last success or ejection, and stays below the threshold; a report
      ejects exactly when it completes a full run of failures or fails on probation. */
  lemma {:induction false} FailsIsRunLength(w: Windows, log: seq<Report>)
    requires w.Valid()
    ensures RunLength(w, log, Replay(w, log).fails)
    ensures Replay(w, log).fails < w.unhealthyThreshold
  {
    if log != [] {
      var n := |log| - 1;
      var before, r := log[..n], log[n];
      var run := Replay(w, before).fails;
      FailsIsRunLength(w, before);
      assert log == before + [r];
      RunLengthPrefix(w, before, r, run);
      if r.Failure? {
        assert Ejects(w, log, n) <==> run + 1 >= Threshold(w, r.probation) by {
          EjectsExactly(w, before, r, run);
        }
      }
    }
  }

  lemma EjectsExactly(w: Windows, before: seq<Report>, r: Report, run: nat)
    requires w.Valid() && RunLength(w, before, run) && run < w.unhealthyThreshold && r.Failure?
    ensures Ejects(w, before + [r], |before|) <==> run + 1 >= Threshold(w, r.probation)
  {
    RunLengthPrefix(w, before, r, run);
    var log, n := before + [r], |before|;
    if run < n && run + 1 < w.unhealthyThreshold {
      var k := n - run - 1;
      assert log[k] == before[k];
      assert !(log[k].Failure? && !Ejects(w, log, k));
    }
  }

  /** Nothing after report `i` ejected. */
  predicate QuietAfter(w: Windows, log: seq<Report>, i: int) {
    forall j | 0 <= j < |log| && i < j :: !Ejects(w, log, j)
  }

  /** The deadlines are those of the last ejection, and zero when there was none; so an
      ejection always ends before its recovery does. */
  lemma {:induction false} StampsOfLastEjection(w: Windows, log: seq<Report>, last: int)
    requires w.Valid() && -1 <= last < |log|
    requires QuietAfter(w, log, last) && (last >= 0 ==> Ejects(w, log, last))
    ensures var h := Replay(w, log);
      && h.ejectedUntil == (if last == -1 then 0 else log[last].now + w.cooldownMs)
      && h.rampUntil == (if last == -1 then 0 else h.ejectedUntil + w.rampMs)
      && h.ejectedUntil <= h.rampUntil
  {
    if log != [] {
      var n := |log| - 1;
      var before, r := log[..n], log[n];
      var run := Replay(w, before).fails;
      assert log == before + [r];
      FailsIsRunLength(w, before);
      RunLengthPrefix(w, before, r, run);
      if r.Failure? {
        EjectsExactly(w, before, r, run);
      }
      if last < n {
        StampsOfLastEjection(w, before, last);
        assert !Ejects(w, log, n);
      }
    }
  }

  // ----- the compare-and-swap loops -----

  const CAS_MAX_RETRIES: nat := 10

  /** The health key of one cluster, from before its first record on; a missing key has cas 0
      and reads as the zero record. A write gives the key a cas that no earlier value had, and
      a write that expects cas 0 overwrites whatever is there. */
  class HealthKey {
    const w: Windows
    /** No other worker touches the key and the host reports no error. */
    const alone: bool
    var value: Health
    var cas: nat
    /** The reports in the record: since the last overwrite, in the order of their writes. */
    ghost var log: seq<Report>
    /** Another worker has found the key missing and may still overwrite it. */
    ghost var early: bool

    ghost predicate Valid()
      reads this
    {
      w.Valid() && value == Replay(w, log) && (cas == 0 ==> value == CLEAN) && (alone ==> !early)
    }

    /** Nobody can overwrite the record any more. */
    ghost predicate Settled()
      reads this
    {
      0 < cas && !early
    }

    constructor (w: Windows, alone: bool)
      requires w.Valid()
      ensures Valid() && log == [] && cas == 0 && this.w == w && this.alone == alone
    {
      this.w, this.alone, value, cas, log, early := w, alone, CLEAN, 0, [], false;
    }

    /** The other workers record any reports of their own. */
    method Interfere()
      requires Valid()
      modifies this
      ensures Valid() && old(cas) <= cas
      ensures cas == old(cas) ==> value == old(value)
      ensures old(Settled()) ==> Settled() && old(log) <= log
      ensures alone ==> cas == old(cas) && log == old(log)
    {
    }

    /** loadHealth. */
    method Load() returns (h: Health, v: nat, ok: bool)
      requires Valid()
      modifies this
      ensures Valid() && old(cas) <= cas && (ok ==> h == value && v == cas)
      ensures old(Settled()) ==> Settled() && old(log) <= log
      ensures alone ==> ok && cas == old(cas) && log == old(log) && value == old(value)
    {
      Interfere();
      var hostFails: bool := *;
      return value, cas, !hostFails || alone;
    }

    /** storeJSON on a host that fails only by a mismatch. */
    method Store(h: Health, expected: nat) returns (ok: bool)
      modifies `value, `cas
      ensures ok <==> expected == 0 || expected == old(cas)
      ensures ok ==> value == h && cas == old(cas) + 1
      ensures !ok ==> value == old(value) && cas == old(cas)
    {
      ok := expected == 0 || expected == cas;
      if ok {
        value, cas := h, cas + 1;
      }
    }

    /** The write took effect: behind the reports there, or instead of them. */
    ghost method Took(r: Report, overwrote: bool)
      requires value == Apply(w, if overwrote then CLEAN else Replay(w, log), r)
      modifies `log
      ensures log == (if overwrote then [r] else old(log) + [r]) && value == Replay(w, log)
    {
      var before := if overwrote then [] else log;
      assert (before + [r])[..|before|] == before;
      log := before + [r];
    }

    /** Reset the count, writing only when it is not already zero. The report takes its place at
        the end of the history, or the host failed or ten rounds were lost to others. A settled
        record loses nothing; undisturbed the report always takes effect. */
    method RecordSuccess() returns (done: bool, ghost lost: nat, ghost hostFailed: bool)
      requires Valid()
      modifies this
      ensures Valid() && old(cas) <= cas
      ensures lost <= 10 && (alone ==> !hostFailed)
      ensures !done ==> hostFailed || lost == 10
      ensures done ==> lost < 10
      ensures done ==> log != [] && log[|log| - 1] == Success
      ensures old(Settled()) ==> Settled() && (if done then old(log) <= log[..|log| - 1] else old(log) <= log)
      ensures alone ==> done && log == old(log) + [Success] && value == Apply(w, old(value), Success)
    {
      var attempt: nat := 0;
      while attempt < CAS_MAX_RETRIES
        invariant attempt <= CAS_MAX_RETRIES
        invariant Valid() && old(cas) <= cas && (old(Settled()) ==> Settled() && old(log) <= log)
        invariant alone ==> attempt == 0 && cas == old(cas) && log == old(log) && value == old(value)
      {
        var h, v, ok := Load();
        if !ok {
          return false, attempt, true;
        }
        if h.fails == 0 {
          Took(Success, false);
          return true, attempt, false;
        }
        assert v != 0;
        Interfere();
        ok := Store(h.(fails := 0), v);
        if ok {
          Took(Success, false);
          return true, attempt, false;
        }
        attempt := attempt + 1;
      }
      return false, attempt, false;
    }

    /** Count a failure and eject at the threshold the finisher resolved, in ten rounds at most.
        Only the first write to a missing key can lose what others recorded meanwhile. */
    method RecordFailure(probation: bool, now: int) returns (done: bool, ghost lost: nat, ghost hostFailed: bool)
      requires Valid()
      modifies this
      ensures Valid() && old(cas) <= cas
      ensures lost <= 10 && (alone ==> !hostFailed)
      ensures !done ==> hostFailed || lost == 10
      ensures done ==> lost < 10
      ensures done ==> log != [] && log[|log| - 1] == Failure(probation, now) && 0 < cas
      ensures old(Settled()) ==> Settled() && (if done then old(log) <= log[..|log| - 1] else old(log) <= log)
      ensures alone ==> done && log == old(log) + [Failure(probation, now)]
      ensures alone ==> value == Apply(w, old(value), Failure(probation, now))
    {
      var threshold := if probation then 1 else w.unhealthyThreshold;
      var attempt: nat := 0;
      while attempt < CAS_MAX_RETRIES
        invariant attempt <= CAS_MAX_RETRIES
        invariant Valid() && old(cas) <= cas && (old(Settled()) ==> Settled() && old(log) <= log)
        invariant alone ==> attempt == 0 && cas == old(cas) && log == old(log) && value == old(value)
      {
        var h, v, ok := Load();
        if !ok {
          return false, attempt, true;
        }
        h := h.(fails := h.fails + 1);
        if h.fails >= threshold {
          h := h.(fails := 0, ejectedUntil := now + w.cooldownMs);
          h := h.(rampUntil := h.ejectedUntil + w.rampMs);
        }
        Interfere();
        ghost var overwrote := v == 0 && 0 < cas;
        ok := Store(h, v);
        if ok {
          Took(Failure(probation, now), overwrote);
          return true, attempt, false;
        }
        attempt := attempt + 1;
      }
      return false, attempt, false;
    }
  }
}
