/** The local rate limiter under concurrency: one request-limit key shared by any number of
    workers, with the check pass, every load and every compare-and-swap as separate steps.
    How far can the workers overshoot the quota together? */
module RateLimitWorkers {
  import opened Bytes
  import opened RateLimit

  datatype Limit = Limit(window: nat, quota: int)

  /** The host's record for the key. A present key never has cas 0. */
  datatype Cell = Absent | Present(log: seq<WindowEntry>, cas: nat)
  {
    function Log(): seq<WindowEntry> {
      if Present? then log else []
    }

    function Cas(): nat {
      if Present? then cas else 0
    }
  }

  /** A worker between requests, past the check pass, or about to write `next`. */
  datatype Phase =
    | Idle
    | Passed(now: int64, attempt: nat)
    | Loaded(now: int64, attempt: nat, next: seq<WindowEntry>, cas: nat)

  /** Bookkeeping: `recorded` has every admission ever written, pruned by nobody, and `unchecked`
      counts the requests let through because the check could not read the log. */
  datatype System = System(
    cell: Cell,
    nextCas: nat,
    clock: int,
    workers: seq<Phase>,
    recorded: seq<WindowEntry>,
    unchecked: nat
  )

  datatype Action =
    | Tick(d: nat)
    | Check(w: nat, now: int64)
    | SkipCheck(w: nat, now: int64)
    | Load(w: nat)
    | Write(w: nat)
    | HostError(w: nat)

  function Goto(s: System, w: nat, p: Phase): System
    requires w < |s.workers|
  {
    s.(workers := s.workers[w := p])
  }

  function Retry(now: int64, attempt: nat): Phase {
    if attempt < LOCAL_MAX_CAS_RETRIES then Passed(now, attempt) else Idle
  }

  /** SetSharedData goes through for cas 0, on an absent key, or when cas still matches. */
  predicate Accepted(cell: Cell, cas: nat) {
    cas == 0 || cell.Absent? || cas == cell.cas
  }

  /** A worker's clock may lag behind the global one; an impossible action changes nothing. */
  function Step(l: Limit, s: System, a: Action): System {
    if a.Tick? then s.(clock := s.clock + a.d)
    else if a.w >= |s.workers| then s
    else
      var p := s.workers[a.w];
      match a
      case Check(w, now) =>
        if p.Idle? && now <= s.clock && Total(s.cell.Log(), now - l.window) < l.quota
        then Goto(s, w, Passed(now, 0)) else s
      case SkipCheck(w, now) =>
        if p.Idle? && now <= s.clock
        then Goto(s, w, Passed(now, 0)).(unchecked := s.unchecked + 1) else s
      case Load(w) =>
        if p.Passed? then
          Goto(s, w, Loaded(p.now, p.attempt, Appended(s.cell.Log(), l.window, WindowEntry(p.now, 1)), s.cell.Cas()))
        else s
      case Write(w) =>
        if !p.Loaded? then s
        else if Accepted(s.cell, p.cas) then
          Goto(s, w, Idle).(cell := Present(p.next, s.nextCas), nextCas := s.nextCas + 1,
                            recorded := s.recorded + [WindowEntry(p.now, 1)])
        else Goto(s, w, Retry(p.now, p.attempt + 1))
      case HostError(w) => Goto(s, w, Idle)
  }

  function Run(l: Limit, s: System, schedule: seq<Action>): System {
    if schedule == [] then s
    else Step(l, Run(l, s, schedule[..|schedule| - 1]), schedule[|schedule| - 1])
  }

  // ----- the invariant -----

  /** Requests that passed the check and have not written yet. */
  function Busy(ws: seq<Phase>): (n: nat)
    ensures n <= |ws|
  {
    if ws == [] then 0 else Busy(ws[1..]) + if ws[0].Idle? then 0 else 1
  }

  predicate Ones(log: seq<WindowEntry>) {
    forall i | 0 <= i < |log| :: log[i].count == 1
  }

  /** A pending write whose cas still matches was computed from the current log. */
  predicate PhaseOk(l: Limit, s: System, p: Phase) {
    match p
    case Idle => true
    case Passed(now, _) => now <= s.clock
    case Loaded(now, _, next, cas) =>
      && now <= s.clock && cas < s.nextCas
      && (cas == s.cell.Cas() ==> next == Appended(s.cell.Log(), l.window, WindowEntry(now, 1)))
      && (cas == 0 ==> next == [WindowEntry(now, 1)])
      && (cas != 0 ==> s.cell.Present?)
  }

  function Pressure(l: Limit, s: System): int {
    Total(s.cell.Log(), s.clock - l.window) + Busy(s.workers)
  }

  /** What is stored and live, plus what is on its way, is below quota + workers, not counting
      the requests nobody checked. */
  predicate Bounded(l: Limit, s: System) {
    Pressure(l, s) <= s.unchecked || Pressure(l, s) < l.quota + |s.workers| + s.unchecked
  }

  predicate Inv(l: Limit, s: System) {
    && 0 < s.nextCas && (s.cell.Present? ==> 0 < s.cell.cas < s.nextCas)
    && (forall w | 0 <= w < |s.workers| :: PhaseOk(l, s, s.workers[w]))
    && Ones(s.cell.Log()) && Bounded(l, s)
  }

  lemma {:induction false} BusyUpdate(ws: seq<Phase>, w: nat, p: Phase)
    requires w < |ws|
    ensures Busy(ws[w := p]) == Busy(ws) - (if ws[w].Idle? then 0 else 1) + (if p.Idle? then 0 else 1)
  {
    if w == 0 {
      assert ws[w := p][1..] == ws[1..];
    } else {
      BusyUpdate(ws[1..], w - 1, p);
      assert ws[w := p][1..] == ws[1..][w - 1 := p];
    }
  }

  lemma {:induction false} OnesRecent(log: seq<WindowEntry>, cutoff: int)
    requires Ones(log)
    ensures Ones(Recent(log, cutoff))
  {
    if log != [] {
      OnesRecent(log[..|log| - 1], cutoff);
    }
  }

  lemma {:induction false} TotalFalls(log: seq<WindowEntry>, cutoff: int, later: int)
    requires Ones(log) && cutoff <= later
    ensures 0 <= Total(log, later) <= Total(log, cutoff)
  {
    if log != [] {
      TotalFalls(log[..|log| - 1], cutoff, later);
    }
  }

  /** An append prunes at an older cutoff than the reader's and adds at most one unit. */
  lemma AppendedTotal(log: seq<WindowEntry>, window: nat, e: WindowEntry, cutoff: int)
    requires e.timestamp - window <= cutoff && e.count == 1
    ensures Total(Appended(log, window, e), cutoff) == Total(log, cutoff) + if e.timestamp > cutoff then 1 else 0
  {
    var kept := Recent(log, e.timestamp - window);
    PruneKeepsTotal(log, e.timestamp - window, cutoff);
    TotalSnoc(kept, e, cutoff);
    assert Appended(log, window, e) == kept + [e];
  }

  lemma OnesAppended(log: seq<WindowEntry>, window: nat, now: int64)
    requires Ones(log)
    ensures Ones(Appended(log, window, WindowEntry(now, 1)))
  {
    OnesRecent(log, now - window);
  }

  lemma CheckKeeps(l: Limit, s: System, w: nat, now: int64)
    requires Inv(l, s) && w < |s.workers| && s.workers[w].Idle? && now <= s.clock
    requires Total(s.cell.Log(), now - l.window) < l.quota
    ensures Inv(l, Goto(s, w, Passed(now, 0)))
  {
    var s' := Goto(s, w, Passed(now, 0));
    TotalFalls(s.cell.Log(), now - l.window, s.clock - l.window);
    forall v | 0 <= v < |s'.workers|
      ensures PhaseOk(l, s', s'.workers[v])
    {
      assert PhaseOk(l, s, s.workers[v]);
    }
  }

  /** A check that could not be made adds one request to what is on its way. */
  lemma SkipKeeps(l: Limit, s: System, w: nat, now: int64)
    requires Inv(l, s) && w < |s.workers| && s.workers[w].Idle? && now <= s.clock
    ensures Inv(l, Goto(s, w, Passed(now, 0)).(unchecked := s.unchecked + 1))
  {
    var s' := Goto(s, w, Passed(now, 0)).(unchecked := s.unchecked + 1);
    BusyUpdate(s.workers, w, Passed(now, 0));
    forall v | 0 <= v < |s'.workers|
      ensures PhaseOk(l, s', s'.workers[v])
    {
      assert PhaseOk(l, s, s.workers[v]);
    }
  }

  /** Moving one worker without touching the key, to a phase no busier than before. */
  lemma MoveKeeps(l: Limit, s: System, w: nat, p: Phase)
    requires Inv(l, s) && w < |s.workers| && PhaseOk(l, s, p)
    requires s.workers[w].Idle? ==> p.Idle?
    ensures Inv(l, Goto(s, w, p))
  {
    var s' := Goto(s, w, p);
    BusyUpdate(s.workers, w, p);
    TotalFalls(s.cell.Log(), s.clock - l.window, s.clock - l.window);
    forall v | 0 <= v < |s'.workers|
      ensures PhaseOk(l, s', s'.workers[v])
    {
      assert PhaseOk(l, s, s.workers[v]);
    }
  }

  lemma SingleTotal(e: WindowEntry, cutoff: int)
    requires e.count == 1
    ensures Total([e], cutoff) == if e.timestamp > cutoff then 1 else 0
  {
    TotalSnoc([], e, cutoff);
    assert [] + [e] == [e];
  }

  /** What an accepted write leaves behind adds at most one live unit to what was there. */
  lemma AcceptedTotal(l: Limit, s: System, p: Phase)
    requires Inv(l, s) && p.Loaded? && PhaseOk(l, s, p) && Accepted(s.cell, p.cas)
    ensures Ones(p.next)
    ensures 0 <= Total(p.next, s.clock - l.window) <= Total(s.cell.Log(), s.clock - l.window) + 1
  {
    var log, cutoff, e := s.cell.Log(), s.clock - l.window, WindowEntry(p.now, 1);
    TotalFalls(log, cutoff, cutoff);
    if p.cas == s.cell.Cas() {
      OnesAppended(log, l.window, p.now);
      AppendedTotal(log, l.window, e, cutoff);
    } else {
      assert p.next == [e];
      SingleTotal(e, cutoff);
    }
  }

  lemma PhasesAfterWrite(l: Limit, s: System, s': System, w: nat)
    requires Inv(l, s) && w < |s.workers| && s'.workers == s.workers[w := Idle] && s'.clock == s.clock
    requires s'.cell.Present? && s'.cell.cas == s.nextCas < s'.nextCas
    ensures forall v | 0 <= v < |s'.workers| :: PhaseOk(l, s', s'.workers[v])
  {
    forall v | 0 <= v < |s'.workers|
      ensures PhaseOk(l, s', s'.workers[v])
    {
      assert PhaseOk(l, s, s.workers[v]);
    }
  }

  lemma AcceptedWriteKeeps(l: Limit, s: System, w: nat)
    requires Inv(l, s) && w < |s.workers| && s.workers[w].Loaded? && Accepted(s.cell, s.workers[w].cas)
    ensures Inv(l, Step(l, s, Write(w)))
  {
    var s', p := Step(l, s, Write(w)), s.workers[w];
    assert PhaseOk(l, s, p);
    AcceptedTotal(l, s, p);
    BusyUpdate(s.workers, w, Idle);
    PhasesAfterWrite(l, s, s', w);
    assert s'.cell.Log() == p.next && Pressure(l, s') <= Pressure(l, s);
  }

  lemma TickKeeps(l: Limit, s: System, d: nat)
    requires Inv(l, s)
    ensures Inv(l, s.(clock := s.clock + d))
  {
    var s' := s.(clock := s.clock + d);
    TotalFalls(s.cell.Log(), s.clock - l.window, s'.clock - l.window);
    forall v | 0 <= v < |s'.workers|
      ensures PhaseOk(l, s', s'.workers[v])
    {
      assert PhaseOk(l, s, s.workers[v]);
    }
  }

  lemma LoadKeeps(l: Limit, s: System, w: nat)
    requires Inv(l, s) && w < |s.workers| && s.workers[w].Passed?
    ensures Inv(l, Step(l, s, Load(w)))
  {
    var p := s.workers[w];
    var next := Appended(s.cell.Log(), l.window, WindowEntry(p.now, 1));
    assert PhaseOk(l, s, p);
    assert s.cell.Absent? ==> next == [] + [WindowEntry(p.now, 1)];
    MoveKeeps(l, s, w, Loaded(p.now, p.attempt, next, s.cell.Cas()));
  }

  lemma WriteKeeps(l: Limit, s: System, w: nat)
    requires Inv(l, s) && w < |s.workers| && PhaseOk(l, s, s.workers[w])
    ensures Inv(l, Step(l, s, Write(w)))
  {
    var p := s.workers[w];
    if p.Loaded? {
      if Accepted(s.cell, p.cas) {
        AcceptedWriteKeeps(l, s, w);
      } else {
        MoveKeeps(l, s, w, Retry(p.now, p.attempt + 1));
      }
    }
  }

  lemma StepKeeps(l: Limit, s: System, a: Action)
    requires Inv(l, s)
    ensures Inv(l, Step(l, s, a))
  {
    if a.Tick? {
      TickKeeps(l, s, a.d);
    } else if a.w < |s.workers| {
      var p := s.workers[a.w];
      assert PhaseOk(l, s, p);
      match a
      case Check(w, now) =>
        if p.Idle? && now <= s.clock && Total(s.cell.Log(), now - l.window) < l.quota {
          CheckKeeps(l, s, w, now);
        }
      case SkipCheck(w, now) =>
        if p.Idle? && now <= s.clock {
          SkipKeeps(l, s, w, now);
        }
      case Load(w) =>
        if p.Passed? {
          LoadKeeps(l, s, w);
        }
      case Write(w) =>
        WriteKeeps(l, s, w);
      case HostError(w) =>
        MoveKeeps(l, s, w, Idle);
    }
  }

  lemma {:induction false} RunKeeps(l: Limit, s: System, schedule: seq<Action>)
    requires Inv(l, s)
    ensures Inv(l, Run(l, s, schedule))
    ensures |Run(l, s, schedule).workers| == |s.workers|
  {
    if schedule != [] {
      var n := |schedule| - 1;
      RunKeeps(l, s, schedule[..n]);
      StepKeeps(l, Run(l, s, schedule[..n]), schedule[n]);
    }
  }

  // ----- nothing recorded is lost on an existing key -----

  ghost predicate SameTotals(l: Limit, s: System) {
    forall cutoff | s.clock - l.window <= cutoff :: Total(s.cell.Log(), cutoff) == Total(s.recorded, cutoff)
  }

  /** The key exists, and nobody is about to overwrite it unconditionally. */
  ghost predicate Faithful(l: Limit, s: System) {
    && s.cell.Present?
    && (forall w | 0 <= w < |s.workers| :: s.workers[w].Loaded? ==> s.workers[w].cas != 0)
    && SameTotals(l, s)
  }

  lemma WriteKeepsTotals(l: Limit, s: System, w: nat)
    requires Inv(l, s) && Faithful(l, s)
    requires w < |s.workers| && s.workers[w].Loaded? && Accepted(s.cell, s.workers[w].cas)
    ensures SameTotals(l, Step(l, s, Write(w)))
  {
    var p := s.workers[w];
    var e := WindowEntry(p.now, 1);
    assert PhaseOk(l, s, p) && p.next == Appended(s.cell.log, l.window, e);
    forall cutoff | s.clock - l.window <= cutoff
      ensures Total(p.next, cutoff) == Total(s.recorded + [e], cutoff)
    {
      AppendedTotal(s.cell.log, l.window, e, cutoff);
      TotalSnoc(s.recorded, e, cutoff);
    }
    var s' := Step(l, s, Write(w));
    assert s'.cell.Log() == p.next && s'.recorded == s.recorded + [e] && s'.clock == s.clock;
  }

  lemma StepKeepsFaithful(l: Limit, s: System, a: Action)
    requires Inv(l, s) && Faithful(l, s)
    ensures Faithful(l, Step(l, s, a))
  {
    if a.Write? && a.w < |s.workers| && s.workers[a.w].Loaded? && Accepted(s.cell, s.workers[a.w].cas) {
      WriteKeepsTotals(l, s, a.w);
    } else {
      KeepsRecord(l, s, a);
    }
  }

  lemma KeepsRecord(l: Limit, s: System, a: Action)
    requires !(a.Write? && a.w < |s.workers| && s.workers[a.w].Loaded? && Accepted(s.cell, s.workers[a.w].cas))
    ensures var s' := Step(l, s, a);
      && s'.cell == s.cell && s'.recorded == s.recorded && s'.clock >= s.clock && |s'.workers| == |s.workers|
      && forall w | 0 <= w < |s.workers| && s'.workers[w].Loaded? ::
           s'.workers[w] == s.workers[w] || s'.workers[w].cas == s.cell.Cas()
  {
  }

  lemma {:induction false} RunKeepsFaithful(l: Limit, s: System, schedule: seq<Action>)
    requires Inv(l, s) && Faithful(l, s)
    ensures Faithful(l, Run(l, s, schedule))
  {
    if schedule != [] {
      var n := |schedule| - 1;
      RunKeepsFaithful(l, s, schedule[..n]);
      RunKeeps(l, s, schedule[..n]);
      StepKeepsFaithful(l, Run(l, s, schedule[..n]), schedule[n]);
    }
  }

  /** Nobody is inside a request, and the log is within the bound. */
  predicate Start(l: Limit, s: System) {
    && 0 < s.nextCas && (s.cell.Present? ==> 0 < s.cell.cas < s.nextCas)
    && (forall w | 0 <= w < |s.workers| :: s.workers[w].Idle?)
    && Ones(s.cell.Log()) && s.unchecked == 0 && Bounded(l, s)
  }

  /** No check in this schedule failed to read the log. */
  predicate AllChecked(schedule: seq<Action>) {
    forall i | 0 <= i < |schedule| :: !schedule[i].SkipCheck?
  }

  lemma CheckedStep(l: Limit, s: System, a: Action)
    requires !a.SkipCheck?
    ensures Step(l, s, a).unchecked == s.unchecked
  {
  }

  lemma {:induction false} CheckedRun(l: Limit, s: System, schedule: seq<Action>)
    requires AllChecked(schedule)
    ensures Run(l, s, schedule).unchecked == s.unchecked
  {
    if schedule != [] {
      var n := |schedule| - 1;
      CheckedRun(l, s, schedule[..n]);
      CheckedStep(l, Run(l, s, schedule[..n]), schedule[n]);
    }
  }

  lemma BoundAt(l: Limit, e: System)
    requires Inv(l, e) && 0 < |e.workers| && 0 <= l.quota
    ensures Total(e.cell.Log(), e.clock - l.window) <= l.quota + |e.workers| - 1 + e.unchecked
  {
  }

  lemma TotalsAt(l: Limit, e: System)
    requires SameTotals(l, e)
    ensures Total(e.cell.Log(), e.clock - l.window) == Total(e.recorded, e.clock - l.window)
  {
  }

  /** CONCURRENT BOUND. In every interleaving of any number of workers, starting from any key,
      absent or present: the stored window total never exceeds quota + workers - 1, plus one for
      each request whose check could not be made. If the key exists, that total is exactly the
      live admissions, so neither do they. */
  lemma ConcurrentBound(l: Limit, s: System, schedule: seq<Action>)
    requires Start(l, s) && 0 < |s.workers| && 0 <= l.quota
    ensures var e := Run(l, s, schedule);
      var bound := l.quota + |s.workers| - 1 + e.unchecked;
      && Total(e.cell.Log(), e.clock - l.window) <= bound
      && (s.cell.Present? && SameTotals(l, s) ==> Total(e.recorded, e.clock - l.window) <= bound)
      && (AllChecked(schedule) ==> e.unchecked == 0)
  {
    RunKeeps(l, s, schedule);
    BoundAt(l, Run(l, s, schedule));
    if s.cell.Present? && SameTotals(l, s) {
      RunKeepsFaithful(l, s, schedule);
      TotalsAt(l, Run(l, s, schedule));
    }
    if AllChecked(schedule) {
      CheckedRun(l, s, schedule);
    }
  }

  // ----- the bound is reached -----

  /** `e` is where `schedule` leads from `s`, with every check made. */
  ghost predicate Leads(l: Limit, s: System, schedule: seq<Action>, e: System) {
    Run(l, s, schedule) == e && AllChecked(schedule)
  }

  lemma {:induction false} LeadsOn(l: Limit, s: System, first: seq<Action>, mid: System, second: seq<Action>, e: System)
    requires Leads(l, s, first, mid) && Leads(l, mid, second, e)
    ensures Leads(l, s, first + second, e)
    decreases |second|
  {
    if second == [] {
      assert first + second == first;
    } else {
      var n := |second| - 1;
      LeadsOn(l, s, first, mid, second[..n], Run(l, mid, second[..n]));
      assert (first + second)[..|first + second| - 1] == first + second[..n];
    }
  }

  lemma LeadsNowhere(l: Limit, s: System)
    ensures Leads(l, s, [], s)
  {
  }

  lemma LeadsOne(l: Limit, s: System, x: Action)
    requires !x.SkipCheck?
    ensures Leads(l, s, [x], Step(l, s, x))
  {
    assert [x][..0] == [];
  }

  lemma LeadsTwo(l: Limit, s: System, x: Action, y: Action)
    requires !x.SkipCheck? && !y.SkipCheck?
    ensures Leads(l, s, [x, y], Step(l, Step(l, s, x), y))
  {
    LeadsOne(l, s, x);
    LeadsOne(l, Step(l, s, x), y);
    LeadsOn(l, s, [x], Step(l, s, x), [y], Step(l, Step(l, s, x), y));
    assert [x] + [y] == [x, y];
  }

  /** At the present instant `n` units are live, on a key that may be absent. */
  predicate Stands(l: Limit, s: System, now: int64, n: int) {
    && s.clock == now && 0 < l.window && s.unchecked == 0
    && 0 < s.nextCas && (s.cell.Present? ==> 0 < s.cell.cas < s.nextCas)
    && Ones(s.cell.Log()) && Total(s.cell.Log(), now - l.window) == n
  }

  lemma CheckPasses(l: Limit, s: System, w: nat, now: int64, n: int)
    requires Stands(l, s, now, n) && n < l.quota && w < |s.workers| && s.workers[w].Idle?
    ensures Step(l, s, Check(w, now)) == Goto(s, w, Passed(now, 0))
  {
  }

  /** The state after worker `w` loaded and wrote with nobody in between. */
  function Recorded(l: Limit, s: System, w: nat, now: int64): System
    requires w < |s.workers|
  {
    var e := WindowEntry(now, 1);
    s.(cell := Present(Appended(s.cell.Log(), l.window, e), s.nextCas), nextCas := s.nextCas + 1,
       workers := s.workers[w := Idle], recorded := s.recorded + [e])
  }

  lemma WriteAlone(l: Limit, s: System, w: nat, now: int64)
    requires w < |s.workers| && s.workers[w] == Passed(now, 0)
    ensures Leads(l, s, [Load(w), Write(w)], Recorded(l, s, w, now))
  {
    LeadsTwo(l, s, Load(w), Write(w));
    var next := Appended(s.cell.Log(), l.window, WindowEntry(now, 1));
    var loaded := Goto(s, w, Loaded(now, 0, next, s.cell.Cas()));
    assert Step(l, s, Load(w)) == loaded;
    assert loaded.workers[w := Idle] == s.workers[w := Idle];
  }

  lemma OneMoreUnit(l: Limit, s: System, w: nat, now: int64, n: int)
    requires Stands(l, s, now, n) && w < |s.workers|
    ensures Stands(l, Recorded(l, s, w, now), now, n + 1)
  {
    AppendedTotal(s.cell.Log(), l.window, WindowEntry(now, 1), now - l.window);
    OnesAppended(s.cell.Log(), l.window, now);
  }

  predicate AllIdle(s: System, n: nat) {
    |s.workers| == n && forall w | 0 <= w < n :: s.workers[w].Idle?
  }

  /** Worker 0 serves one request. */
  lemma ServeOne(l: Limit, s: System, now: int64, workers: nat, n: int) returns (schedule: seq<Action>, e: System)
    requires Stands(l, s, now, n) && AllIdle(s, workers) && 0 < workers && n < l.quota
    ensures Leads(l, s, schedule, e) && Stands(l, e, now, n + 1) && AllIdle(e, workers)
  {
    var passed := Goto(s, 0, Passed(now, 0));
    schedule, e := [Check(0, now)] + [Load(0), Write(0)], Recorded(l, passed, 0, now);
    CheckPasses(l, s, 0, now, n);
    LeadsOne(l, s, Check(0, now));
    WriteAlone(l, passed, 0, now);
    LeadsOn(l, s, [Check(0, now)], passed, [Load(0), Write(0)], e);
    OneMoreUnit(l, passed, 0, now, n);
  }

  /** Worker 0 serves `k` requests one after the other. */
  lemma {:induction false} Alone(l: Limit, s: System, now: int64, workers: nat, n: int, k: nat)
    returns (schedule: seq<Action>, e: System)
    requires Stands(l, s, now, n) && AllIdle(s, workers) && 0 < workers && n + k <= l.quota
    ensures Leads(l, s, schedule, e) && Stands(l, e, now, n + k) && AllIdle(e, workers)
  {
    if k == 0 {
      LeadsNowhere(l, s);
      return [], s;
    }
    var front, mid := Alone(l, s, now, workers, n, k - 1);
    var last;
    last, e := ServeOne(l, mid, now, workers, n + k - 1);
    schedule := front + last;
    LeadsOn(l, s, front, mid, last, e);
  }

  /** The workers in between have passed the check, those behind are idle. */
  predicate Waiting(s: System, workers: nat, now: int64, from: nat, to: nat) {
    && |s.workers| == workers
    && (forall w | from <= w < to && w < workers :: s.workers[w] == Passed(now, 0))
    && (forall w | to <= w < workers :: s.workers[w].Idle?)
  }

  lemma {:induction false} AllCheck(l: Limit, s: System, now: int64, workers: nat, n: int, k: nat)
    returns (schedule: seq<Action>, e: System)
    requires Stands(l, s, now, n) && n < l.quota && AllIdle(s, workers) && k <= workers
    ensures Leads(l, s, schedule, e) && Stands(l, e, now, n) && Waiting(e, workers, now, 0, k)
  {
    if k == 0 {
      LeadsNowhere(l, s);
      return [], s;
    }
    var front, mid := AllCheck(l, s, now, workers, n, k - 1);
    schedule, e := front + [Check(k - 1, now)], Goto(mid, k - 1, Passed(now, 0));
    CheckPasses(l, mid, k - 1, now, n);
    LeadsOne(l, mid, Check(k - 1, now));
    LeadsOn(l, s, front, mid, [Check(k - 1, now)], e);
  }

  lemma {:induction false} AllWrite(l: Limit, s: System, now: int64, workers: nat, n: int, k: nat)
    returns (schedule: seq<Action>, e: System)
    requires Stands(l, s, now, n) && Waiting(s, workers, now, 0, workers) && k <= workers
    ensures Leads(l, s, schedule, e) && Stands(l, e, now, n + k) && Waiting(e, workers, now, k, workers)
  {
    if k == 0 {
      LeadsNowhere(l, s);
      return [], s;
    }
    var front, mid := AllWrite(l, s, now, workers, n, k - 1);
    schedule, e := front + [Load(k - 1), Write(k - 1)], Recorded(l, mid, k - 1, now);
    WriteAlone(l, mid, k - 1, now);
    LeadsOn(l, s, front, mid, [Load(k - 1), Write(k - 1)], e);
    OneMoreUnit(l, mid, k - 1, now, n + k - 1);
  }

  /** Nobody is inside a request, and the next check would pass. The key may be absent or
      hold any log, live or aged out. */
  predicate Open(l: Limit, s: System, now: int64) {
    Stands(l, s, now, Total(s.cell.Log(), now - l.window)) && AllIdle(s, |s.workers|) && 0 < |s.workers|
    && Total(s.cell.Log(), now - l.window) < l.quota
  }

  /** The bound is exact: all workers can be between check and write at the same time. */
  lemma BoundIsReached(l: Limit, s: System, now: int64) returns (schedule: seq<Action>)
    requires Open(l, s, now)
    ensures AllChecked(schedule)
    ensures var e := Run(l, s, schedule); Total(e.cell.Log(), e.clock - l.window) == l.quota + |s.workers| - 1
  {
    var workers, n := |s.workers|, Total(s.cell.Log(), now - l.window);
    var fill, filled := Alone(l, s, now, workers, n, l.quota - 1 - n);
    var checks, checked := AllCheck(l, filled, now, workers, l.quota - 1, workers);
    var writes, e := AllWrite(l, checked, now, workers, l.quota - 1, workers);
    LeadsOn(l, filled, checks, checked, writes, e);
    LeadsOn(l, s, fill, filled, checks + writes, e);
    schedule := fill + (checks + writes);
  }

  ghost predicate WithinQuota(l: Limit, s: System, schedule: seq<Action>) {
    var e := Run(l, s, schedule);
    AllChecked(schedule) ==> Total(e.cell.Log(), e.clock - l.window) <= l.quota
  }

  /** So the quota itself is kept in every interleaving, as long as the log can be read, exactly
      when one worker serves the key. */
  lemma QuotaKeptExactlyWhen(l: Limit, s: System, now: int64)
    requires Open(l, s, now)
    ensures (forall schedule :: WithinQuota(l, s, schedule)) <==> |s.workers| <= 1
  {
    if |s.workers| <= 1 {
      NothingBusy(s.workers);
      TotalFalls(s.cell.Log(), now - l.window, now - l.window);
      forall schedule
        ensures WithinQuota(l, s, schedule)
      {
        ConcurrentBound(l, s, schedule);
      }
    } else {
      var schedule := BoundIsReached(l, s, now);
      assert !WithinQuota(l, s, schedule);
    }
  }

  lemma {:induction false} NothingBusy(ws: seq<Phase>)
    requires forall w | 0 <= w < |ws| :: ws[w].Idle?
    ensures Busy(ws) == 0
  {
    if ws != [] {
      NothingBusy(ws[1..]);
    }
  }
}
