/** The check and the append loop of the local rate limiter as they run in a worker, between
    host calls that other workers make. Each host call is one action of RateLimitWorkers. */
module RateLimitKey {
  import opened Bytes
  import opened RateLimit
  import opened RateLimitWorkers

  class SharedWindow {
    const l: Limit
    /** No other worker touches the key and the host reports no error. */
    const alone: bool

    // what the host stores, decoded
    var cell: Cell
    var nextCas: nat

    // the run so far
    ghost const origin: System
    ghost var schedule: seq<Action>
    ghost var sys: System

    ghost predicate Valid()
      reads this
    {
      && sys == Run(l, origin, schedule) && Inv(l, sys)
      && cell == sys.cell && nextCas == sys.nextCas
    }

    ghost predicate At(w: nat, p: Phase)
      reads this
    {
      Valid() && w < |sys.workers| && sys.workers[w] == p
    }

    constructor (l: Limit, alone: bool, cell: Cell, nextCas: nat, ghost s: System)
      requires Inv(l, s) && nextCas == s.nextCas && cell == s.cell
      ensures Valid() && sys == s && schedule == [] && this.l == l && this.alone == alone
    {
      this.l, this.alone, this.cell, this.nextCas := l, alone, cell, nextCas;
      origin, sys, schedule := s, s, [];
    }

    /** Between two host calls of worker `w` the others may do anything the system allows;
        doing nothing is one of those behaviours. */
    method Interfere(w: nat)
      requires Valid() && w < |sys.workers|
      modifies this
      ensures Valid() && old(schedule) <= schedule && |sys.workers| == old(|sys.workers|)
      ensures sys.workers[w] == old(sys.workers[w]) && old(sys.clock) <= sys.clock
      ensures alone ==> sys == old(sys)
    {
    }

    ghost method Perform(a: Action)
      requires sys == Run(l, origin, schedule) && Inv(l, sys)
      modifies `schedule, `sys
      ensures schedule == old(schedule) + [a] && sys == Step(l, old(sys), a)
      ensures sys == Run(l, origin, schedule) && Inv(l, sys)
    {
      StepKeeps(l, sys, a);
      assert (schedule + [a])[..|schedule|] == schedule;
      schedule, sys := schedule + [a], Step(l, sys, a);
    }

    /** localWindowTotal on the bytes the host hands out. */
    method WindowTotal(now: int) returns (total: int)
      ensures total == Total(cell.Log(), now - l.window)
    {
      var data := EncodeEntries(cell.Log());
      LogRoundTrip(cell.Log());
      total := LocalWindowTotal(data, now, l.window);
    }

    /** The new log, pruned in place over the one that was read. */
    method PruneAndAppend(now: int64) returns (next: seq<WindowEntry>)
      ensures next == Appended(cell.Log(), l.window, WindowEntry(now, 1))
    {
      var log := cell.Log();
      var src := new WindowEntry[|log|](i requires 0 <= i < |log| => log[i]);
      assert src[..] == log;
      var n := PruneInPlace(src, now - l.window);
      next := src[..n] + [WindowEntry(now, 1)];
    }

    /** The check pass on this key: refused exactly when the window is full, and otherwise the
        worker is counted as in flight. A read that fails lets the request through unchecked. */
    method CheckQuota(w: nat, now: int64) returns (limited: bool, ghost unread: bool)
      requires At(w, Idle) && now <= sys.clock
      modifies `schedule, `sys
      ensures old(schedule) < schedule && |sys.workers| == old(|sys.workers|)
      ensures limited <==> !unread && l.quota <= Total(cell.Log(), now - l.window)
      ensures At(w, if limited then Idle else Passed(now, 0))
      ensures sys.unchecked == old(sys.unchecked) + if unread then 1 else 0
      ensures alone ==> !unread
    {
      var hostFails: bool := *;
      if hostFails && !alone {
        Perform(SkipCheck(w, now));
        return false, true;
      }
      var total := WindowTotal(now);
      limited, unread := total >= l.quota, false;
      PerformCheck(w, now);
    }

    ghost method PerformCheck(w: nat, now: int64)
      requires sys == Run(l, origin, schedule) && Inv(l, sys)
      requires w < |sys.workers| && sys.workers[w].Idle? && now <= sys.clock
      modifies `schedule, `sys
      ensures schedule == old(schedule) + [Check(w, now)] && sys == Run(l, origin, schedule) && Inv(l, sys)
      ensures |sys.workers| == old(|sys.workers|) && sys.cell == old(sys.cell) && sys.nextCas == old(sys.nextCas)
      ensures sys.unchecked == old(sys.unchecked)
      ensures sys.workers[w] == if Total(sys.cell.Log(), now - l.window) < l.quota then Passed(now, 0) else Idle
    {
      Perform(Check(w, now));
    }

    /** GetSharedData and the new value computed from it. */
    method LoadAndPrune(w: nat, now: int64, attempt: nat) returns (next: seq<WindowEntry>, version: nat)
      requires At(w, Passed(now, attempt))
      modifies `schedule, `sys
      ensures old(schedule) < schedule && |sys.workers| == old(|sys.workers|)
      ensures next == Appended(cell.Log(), l.window, WindowEntry(now, 1)) && version == cell.Cas()
      ensures At(w, Loaded(now, attempt, next, version))
    {
      next := PruneAndAppend(now);
      version := cell.Cas();
      Perform(Load(w));
    }

    ghost method PerformWrite(w: nat, now: int64, attempt: nat, next: seq<WindowEntry>, version: nat)
      requires sys == Run(l, origin, schedule) && Inv(l, sys)
      requires w < |sys.workers| && sys.workers[w] == Loaded(now, attempt, next, version)
      modifies `schedule, `sys
      ensures schedule == old(schedule) + [Write(w)] && sys == Run(l, origin, schedule) && Inv(l, sys)
      ensures |sys.workers| == old(|sys.workers|)
      ensures var ok := Accepted(old(sys.cell), version);
        && sys.workers[w] == (if ok then Idle else Retry(now, attempt + 1))
        && sys.cell == (if ok then Present(next, old(sys.nextCas)) else old(sys.cell))
        && sys.nextCas == old(sys.nextCas) + (if ok then 1 else 0)
        && (ok ==> sys.recorded == old(sys.recorded) + [WindowEntry(now, 1)])
    {
      Perform(Write(w));
    }

    /** SetSharedData; a mismatch is the only failure. */
    method Store(w: nat, now: int64, attempt: nat, next: seq<WindowEntry>, version: nat) returns (ok: bool)
      requires At(w, Loaded(now, attempt, next, version))
      modifies `cell, `nextCas, `schedule, `sys
      ensures old(schedule) < schedule && |sys.workers| == old(|sys.workers|)
      ensures ok <==> Accepted(old(cell), version)
      ensures At(w, if ok then Idle else Retry(now, attempt + 1))
      ensures ok ==> cell.Log() == next && sys.recorded == old(sys.recorded) + [WindowEntry(now, 1)]
    {
      ok := !(cell.Present? && version != 0 && version != cell.cas);
      if ok {
        cell, nextCas := Present(next, nextCas), nextCas + 1;
      }
      PerformWrite(w, now, attempt, next, version);
    }

    /** The admission of `now` is the newest entry, stored and recorded. */
    ghost predicate JustAdmitted(now: int64)
      reads this
    {
      && sys.recorded != [] && sys.recorded[|sys.recorded| - 1] == WindowEntry(now, 1)
      && cell.Log() != [] && cell.Log()[|cell.Log()| - 1] == WindowEntry(now, 1)
    }

    /** The call ends on a host error. */
    ghost method GiveUp(w: nat)
      requires Valid() && w < |sys.workers|
      modifies `schedule, `sys
      ensures schedule == old(schedule) + [HostError(w)] && |sys.workers| == old(|sys.workers|) && At(w, Idle)
    {
      Perform(HostError(w));
    }

    /** One round of the loop; any host error but a mismatch ends it. */
    method Attempt(w: nat, now: int64, attempt: nat) returns (again: bool, ok: bool)
      requires At(w, Passed(now, attempt))
      modifies this
      ensures old(schedule) < schedule && |sys.workers| == old(|sys.workers|)
      ensures At(w, if again then Retry(now, attempt + 1) else Idle)
      ensures ok ==> !again && JustAdmitted(now)
      ensures alone ==> ok && cell.Log() == Appended(old(cell.Log()), l.window, WindowEntry(now, 1))
    {
      Interfere(w);
      var readFails: bool := *;
      if readFails && !alone {
        GiveUp(w);
        return false, false;
      }
      var next, version := LoadAndPrune(w, now, attempt);
      Interfere(w);
      var writeFails: bool := *;
      if writeFails && !alone {
        GiveUp(w);
        return false, false;
      }
      ok := Store(w, now, attempt, next, version);
      again := !ok;
    }

    /** localAddEntry's loop. Whatever the others do, success means that this admission was
        appended to the log as it stood at that instant; undisturbed, it always succeeds. */
    method AddEntry(w: nat, now: int64) returns (ok: bool)
      requires At(w, Passed(now, 0))
      modifies this
      ensures old(schedule) < schedule && |sys.workers| == old(|sys.workers|) && At(w, Idle)
      ensures ok ==> JustAdmitted(now)
      ensures alone ==> ok && cell.Log() == Appended(old(cell.Log()), l.window, WindowEntry(now, 1))
    {
      var attempt: nat := 0;
      while attempt < LOCAL_MAX_CAS_RETRIES
        invariant attempt <= LOCAL_MAX_CAS_RETRIES
        invariant old(schedule) <= schedule && |sys.workers| == old(|sys.workers|)
        invariant (attempt > 0 ==> old(schedule) < schedule) && At(w, Retry(now, attempt))
        invariant alone ==> attempt == 0 && cell == old(cell)
      {
        var again: bool;
        again, ok := Attempt(w, now, attempt);
        if !again {
          return ok;
        }
        attempt := attempt + 1;
      }
      return false;
    }
  }
}
