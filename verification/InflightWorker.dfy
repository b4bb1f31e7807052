/** The reserve and release loops as they run in a worker, between calls to a host that
    other workers use at the same time. Each host call the loops make is one action of
    InflightProtocol, so every run of these methods is a schedule of that system. */
module InflightWorker {
  import opened InflightList
  import opened InflightProtocol

  class SharedKey {
    const c: Config
    /** No other worker touches the key and the host reports no error. */
    const alone: bool

    // what the host stores
    var cell: Cell
    var nextCas: nat

    // the run so far, as a schedule of the transition system
    ghost const origin: System
    ghost var schedule: seq<Action>
    ghost var sys: System

    ghost predicate Valid()
      reads this
    {
      && sys == Run(c, origin, schedule) && Inv(c, sys)
      && cell == sys.cell && nextCas == sys.nextCas
    }

    /** A key as `s` describes it. */
    constructor (c: Config, alone: bool, cell: Cell, nextCas: nat, ghost s: System)
      requires Inv(c, s) && cell == s.cell && nextCas == s.nextCas
      ensures Valid() && sys == s && schedule == [] && this.c == c && this.alone == alone
    {
      this.c, this.alone, this.cell, this.nextCas := c, alone, cell, nextCas;
      origin, sys, schedule := s, s, [];
    }

    /** Between two host calls of worker `w` the others may do anything the protocol
        allows; doing nothing is one of those behaviours. */
    method Interfere(w: nat)
      requires Valid() && w < |sys.workers|
      modifies this
      ensures Valid() && old(schedule) <= schedule && |sys.workers| == old(|sys.workers|)
      ensures sys.workers[w] == old(sys.workers[w])
      ensures alone ==> sys == old(sys)
    {
    }

    ghost method Perform(a: Action)
      requires sys == Run(c, origin, schedule) && Inv(c, sys)
      modifies `schedule, `sys
      ensures schedule == old(schedule) + [a] && sys == Step(c, old(sys), a)
      ensures sys == Run(c, origin, schedule) && Inv(c, sys)
    {
      StepKeeps(c, sys, a);
      assert (schedule + [a])[..|schedule|] == schedule;
      schedule, sys := schedule + [a], Step(c, sys, a);
    }

    /** GetSharedData through loadInflight: an absent key reads as the empty state with cas
        0, any other host error as not loaded. */
    method LoadInflight() returns (starts: seq<int>, cas: nat, ok: bool)
      requires Valid()
      ensures ok ==> starts == cell.Starts() && cas == if cell.Present? then cell.cas else 0
      ensures alone ==> ok
    {
      var hostFails: bool := *;
      if hostFails && !alone {
        return [], 0, false;
      }
      match cell
      case Absent => return [], 0, true;
      case Present(s, v) => return s, v, true;
    }

    /** SetSharedData; a mismatch is the only failure. */
    method Store(starts: seq<int>, cas: nat) returns (ok: bool)
      modifies `cell, `nextCas
      ensures (cell, ok) == HostSet(old(cell), old(nextCas), starts, cas)
      ensures nextCas == old(nextCas) + if ok then 1 else 0
    {
      if cell.Present? && cas != 0 && cas != cell.cas {
        return false;
      }
      cell, nextCas := Present(starts, nextCas), nextCas + 1;
      return true;
    }

    method Pruned(starts: seq<int>, now: int) returns (live: seq<int>)
      ensures live == Prune(starts, now, c.maxAge)
    {
      var buffer := new int[|starts|](i requires 0 <= i < |starts| => starts[i]);
      assert buffer[..] == starts;
      var n := PruneStarts(buffer, now, c.maxAge);
      live := buffer[..n];
    }

    // ----- host calls of worker `w`, each with the action it is -----

    /** Worker `w` may go on from phase `p`, and its call has not touched the key yet. */
    ghost predicate At(w: nat, p: Phase)
      reads this
    {
      Valid() && w < |sys.workers| && sys.workers[w] == p
    }

    ghost method Begin(w: nat, a: Action)
      requires Valid() && w < |sys.workers| && sys.workers[w].Idle? && !a.Tick? && a.w == w
      requires a.BeginReserve? || (a.BeginRelease? && a.token in sys.held)
      requires a.now <= sys.clock
      modifies `schedule, `sys
      ensures schedule == old(schedule) + [a] && |sys.workers| == old(|sys.workers|)
      ensures At(w, if a.BeginReserve? then Reserving(a.now, 0)
                    else if a.token == 0 then Idle(Released) else Releasing(a.token, a.now, 0))
    {
      Perform(a);
    }

    /** The call ends on a host error. */
    ghost method GiveUp(w: nat)
      requires Valid() && w < |sys.workers|
      modifies `schedule, `sys
      ensures Valid() && schedule == old(schedule) + [HostError(w)] && |sys.workers| == old(|sys.workers|)
      ensures old(sys.workers[w].Reserving? || sys.workers[w].Initializing?) ==> At(w, Idle(FailedOpen))
      ensures old(sys.workers[w].Releasing?) ==> At(w, Idle(Abandoned))
    {
      Perform(HostError(w));
    }

    method LoadToReserve(w: nat, now: int, attempt: nat) returns (starts: seq<int>, cas: nat, ok: bool)
      requires At(w, Reserving(now, attempt))
      modifies `schedule, `sys
      ensures old(schedule) < schedule && |sys.workers| == old(|sys.workers|)
      ensures At(w, if ok then AfterReserveLoad(c, cell, now, attempt) else Idle(FailedOpen))
      ensures ok ==> starts == cell.Starts() && cas == if cell.Present? then cell.cas else 0
      ensures ok && cell.Present? ==> cas != 0
      ensures alone ==> ok
    {
      starts, cas, ok := LoadInflight();
      if ok {
        Perform(LoadForReserve(w));
      } else {
        GiveUp(w);
      }
    }

    method StoreEmpty(w: nat, now: int, attempt: nat) returns (ok: bool)
      requires At(w, Initializing(now, attempt))
      modifies `cell, `nextCas, `schedule, `sys
      ensures old(schedule) < schedule && |sys.workers| == old(|sys.workers|)
      ensures At(w, if ok then RetryReserve(now, attempt + 1) else Idle(FailedOpen))
      ensures ok ==> cell == Present([], old(nextCas))
      ensures alone ==> ok
    {
      var hostFails: bool := *;
      ok := !hostFails || alone;
      if ok {
        var _ := Store([], 0);
      }
      Perform(if ok then WriteEmpty(w) else HostError(w));
    }

    method StoreAppend(w: nat, now: int, attempt: nat, next: seq<int>, cas: nat) returns (ok: bool)
      requires At(w, Appending(now, attempt, next, cas))
      modifies `cell, `nextCas, `schedule, `sys
      ensures old(schedule) < schedule && |sys.workers| == old(|sys.workers|)
      ensures At(w, if ok then Idle(Granted(now)) else RetryReserve(now, attempt + 1))
      ensures ok ==> cell.Starts() == next
      ensures old(cell).Present? && cas == old(cell).cas ==> ok
    {
      ok := Store(next, cas);
      Perform(WriteAppend(w));
    }

    method LoadToRelease(w: nat, token: int, now: int, attempt: nat) returns (starts: seq<int>, cas: nat, ok: bool)
      requires At(w, Releasing(token, now, attempt))
      modifies `schedule, `sys
      ensures old(schedule) < schedule && |sys.workers| == old(|sys.workers|)
      ensures At(w, if ok then AfterReleaseLoad(c, cell, token, now, attempt) else Idle(Abandoned))
      ensures ok ==> starts == cell.Starts() && cas == if cell.Present? then cell.cas else 0
      ensures alone ==> ok
    {
      starts, cas, ok := LoadInflight();
      if ok {
        Perform(LoadForRelease(w));
      } else {
        GiveUp(w);
      }
    }

    method StoreRemoved(w: nat, token: int, now: int, attempt: nat, next: seq<int>, cas: nat) returns (ok: bool)
      requires At(w, Removing(token, now, attempt, next, cas))
      modifies `cell, `nextCas, `schedule, `sys
      ensures old(schedule) < schedule && |sys.workers| == old(|sys.workers|)
      ensures At(w, if ok then Idle(Released) else RetryRelease(token, now, attempt + 1))
      ensures ok ==> cell.Starts() == next
      ensures old(cell).Present? && cas == old(cell).cas ==> ok
    {
      ok := Store(next, cas);
      Perform(WriteRemove(w));
    }

    // ----- the two loops -----

    /** One round of the reserve loop: load, then write the empty state, refuse or append. */
    method ReserveRound(w: nat, now: int, attempt: nat) returns (again: bool, reserved: bool, ok: bool)
      requires At(w, Reserving(now, attempt))
      modifies this
      ensures old(schedule) < schedule && |sys.workers| == old(|sys.workers|)
      ensures At(w, if again then RetryReserve(now, attempt + 1)
                    else Idle(if reserved then Granted(now) else if ok then Refused else FailedOpen))
      ensures alone ==>
        var live := Prune(old(cell.Starts()), now, c.maxAge);
        if again then old(cell).Absent? && cell == Present([], old(nextCas))
        else ok && reserved == !AtCap(c, live) && cell.Starts() == if reserved then live + [now] else old(cell.Starts())
    {
      Interfere(w);
      var starts, cas, loaded := LoadToReserve(w, now, attempt);
      if !loaded {
        return false, false, false;
      }
      if cas == 0 {
        Interfere(w);
        var written := StoreEmpty(w, now, attempt);
        return written, false, false;
      }
      var live := Pruned(starts, now);
      if c.maxRun > 0 && |live| >= c.maxRun {
        return false, false, true;
      }
      Interfere(w);
      var stored := StoreAppend(w, now, attempt, live + [now], cas);
      return !stored, stored, stored;
    }

    /** The reserve loop. Whatever the others do, it ends in the outcome of a schedule:
        granted exactly when it reports `reserved`, and then its start time was appended by
        a compare-and-swap. Undisturbed, it prunes, checks the cap and appends. */
    method ReserveInflight(w: nat, now: int) returns (reserved: bool, ok: bool)
      requires Valid() && w < |sys.workers| && sys.workers[w].Idle? && now <= sys.clock
      modifies this
      ensures old(schedule) < schedule && |sys.workers| == old(|sys.workers|)
      ensures At(w, Idle(if reserved then Granted(now) else if ok then Refused else FailedOpen))
      ensures alone ==>
        var live := Prune(old(cell.Starts()), now, c.maxAge);
        && ok && reserved == !AtCap(c, live)
        && cell.Starts() == if reserved then live + [now] else old(cell.Starts())
    {
      Begin(w, BeginReserve(w, now));
      var attempt: nat := 0;
      while attempt < CAS_MAX_RETRIES
        invariant attempt <= CAS_MAX_RETRIES
        invariant old(schedule) < schedule && |sys.workers| == old(|sys.workers|)
        invariant At(w, RetryReserve(now, attempt))
        invariant alone ==> cell.Starts() == old(cell.Starts()) && attempt <= 1 && (attempt == 1 ==> cell.Present?)
      {
        var again: bool;
        again, reserved, ok := ReserveRound(w, now, attempt);
        if !again {
          return reserved, ok;
        }
        attempt := attempt + 1;
      }
      return false, false;
    }

    /** One round of the release loop: load, then write the list without the token, unless
        that would change nothing. */
    method ReleaseRound(w: nat, token: int, now: int, attempt: nat) returns (again: bool, ghost gaveUp: bool)
      requires At(w, Releasing(token, now, attempt))
      modifies this
      ensures old(schedule) < schedule && |sys.workers| == old(|sys.workers|)
      ensures At(w, if again then RetryRelease(token, now, attempt + 1)
                    else Idle(if gaveUp then Abandoned else Released))
      ensures alone ==>
        !again && !gaveUp && cell.Starts() == RemoveFirst(Prune(old(cell.Starts()), now, c.maxAge), token)
    {
      Interfere(w);
      var starts, cas, loaded := LoadToRelease(w, token, now, attempt);
      if !loaded {
        return false, true;
      }
      var live := Pruned(starts, now);
      var next, removed := RemoveStart(live, token);
      NothingToWrite(starts, token, now, c.maxAge);
      if !removed && |next| == |starts| {
        return false, false;
      }
      Interfere(w);
      var stored := StoreRemoved(w, token, now, attempt, next, cas);
      return !stored, false;
    }

    /** The release loop. Undisturbed, it prunes and takes out one entry equal to the token. */
    method RemoveInflight(w: nat, token: int, now: int) returns (ghost gaveUp: bool)
      requires Valid() && w < |sys.workers| && sys.workers[w].Idle? && now <= sys.clock
      requires token in sys.held
      modifies this
      ensures old(schedule) < schedule && |sys.workers| == old(|sys.workers|)
      ensures At(w, Idle(if gaveUp then Abandoned else Released))
      ensures alone && token != 0 ==>
        !gaveUp && cell.Starts() == RemoveFirst(Prune(old(cell.Starts()), now, c.maxAge), token)
      ensures token == 0 ==> cell == old(cell)
    {
      Begin(w, BeginRelease(w, token, now));
      if token == 0 {
        return false;
      }
      var attempt: nat := 0;
      while attempt < REMOVE_CAS_RETRIES
        invariant attempt <= REMOVE_CAS_RETRIES
        invariant old(schedule) < schedule && |sys.workers| == old(|sys.workers|)
        invariant At(w, RetryRelease(token, now, attempt))
        invariant alone ==> cell == old(cell) && attempt == 0
      {
        var again: bool;
        again, gaveUp := ReleaseRound(w, token, now, attempt);
        if !again {
          return gaveUp;
        }
        attempt := attempt + 1;
      }
      return true;
    }
  }

  /** When the token is absent and nothing aged out, the list to write is the list read. */
  lemma NothingToWrite(starts: seq<int>, token: int, now: int, maxAge: int)
    ensures var live := Prune(starts, now, maxAge);
      token !in live ==> RemoveFirst(live, token) == live && (|live| == |starts| ==> live == starts)
  {
    var live := Prune(starts, now, maxAge);
    PruneAll(starts, now, maxAge);
    if token !in live {
      RemoveAbsent(live, token);
    }
  }

  lemma {:induction false} RemoveAbsent(starts: seq<int>, t: int)
    requires t !in starts
    ensures RemoveFirst(starts, t) == starts
  {
    if starts != [] {
      RemoveAbsent(starts[1..], t);
    }
  }

  /** Pruning that drops nothing changes nothing. */
  lemma {:induction false} PruneAll(starts: seq<int>, now: int, maxAge: int)
    ensures |Prune(starts, now, maxAge)| == |starts| ==> Prune(starts, now, maxAge) == starts
  {
    if starts != [] {
      PruneAll(starts[..|starts| - 1], now, maxAge);
    }
  }
}
