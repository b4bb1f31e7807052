/** The compare-and-swap protocol on one in-flight key, as a transition system.

    Every GetSharedData and every SetSharedData is one atomic action. Any number of
    workers run reserveInflight and removeInflight side by side; a schedule is any
    sequence of actions, and an action that is not possible in a state changes nothing,
    so "for every schedule" is "for every interleaving". */
module InflightProtocol {
  import opened InflightList

  const CAS_MAX_RETRIES: nat := 10
  const REMOVE_CAS_RETRIES: nat := 2 * CAS_MAX_RETRIES

  /** maxRun <= 0 means unlimited. */
  datatype Config = Config(maxRun: int, maxAge: int)

  /** The host's record for the key. A present key never has cas 0. */
  datatype Cell = Absent | Present(starts: seq<int>, cas: nat)
  {
    function Starts(): seq<int> {
      if Present? then starts else []
    }
  }

  /** How the last call of an idle worker ended. FailedOpen: no verdict, no token. */
  datatype Outcome = Fresh | Granted(token: int) | Refused | FailedOpen | Released | Abandoned

  /** Where a worker stands inside a call; `next` is the list it is about to write. */
  datatype Phase =
    | Idle(last: Outcome)
    | Reserving(now: int, attempt: nat)
    | Initializing(now: int, attempt: nat)
    | Appending(now: int, attempt: nat, next: seq<int>, cas: nat)
    | Releasing(token: int, now: int, attempt: nat)
    | Removing(token: int, now: int, attempt: nat, next: seq<int>, cas: nat)

  /** `held`, `erased` and `initiators` are bookkeeping: the tokens of requests in flight,
      the entries wiped by an unconditional empty write, and who made such writes. */
  datatype System = System(
    cell: Cell,
    nextCas: nat,
    clock: int,
    workers: seq<Phase>,
    held: multiset<int>,
    erased: multiset<int>,
    initiators: set<nat>
  )

  datatype Action =
    | Tick(d: nat)
    | BeginReserve(w: nat, now: int)
    | LoadForReserve(w: nat)
    | WriteEmpty(w: nat)
    | WriteAppend(w: nat)
    | BeginRelease(w: nat, token: int, now: int)
    | LoadForRelease(w: nat)
    | WriteRemove(w: nat)
    | HostError(w: nat)

  // ----- the host -----

  /** SetSharedData: cas 0 overwrites, any other cas must match a present key. */
  function HostSet(cell: Cell, nextCas: nat, starts: seq<int>, cas: nat): (r: (Cell, bool)) {
    if cell.Present? && cas != 0 && cas != cell.cas then (cell, false)
    else (Present(starts, nextCas), true)
  }

  // ----- one step -----

  function RetryReserve(now: int, attempt: nat): Phase {
    if attempt < CAS_MAX_RETRIES then Reserving(now, attempt) else Idle(FailedOpen)
  }

  function RetryRelease(token: int, now: int, attempt: nat): Phase {
    if attempt < REMOVE_CAS_RETRIES then Releasing(token, now, attempt) else Idle(Abandoned)
  }

  predicate AtCap(c: Config, live: seq<int>) {
    c.maxRun > 0 && |live| >= c.maxRun
  }

  /** What reserveInflight does with the value it loaded. */
  function AfterReserveLoad(c: Config, cell: Cell, now: int, attempt: nat): Phase {
    match cell
    case Absent => Initializing(now, attempt)
    case Present(starts, cas) =>
      var live := Prune(starts, now, c.maxAge);
      if AtCap(c, live) then Idle(Refused) else Appending(now, attempt, live + [now], cas)
  }

  /** What removeInflight does with the value it loaded: write only if something changed. */
  function AfterReleaseLoad(c: Config, cell: Cell, token: int, now: int, attempt: nat): Phase {
    match cell
    case Absent => Idle(Released)
    case Present(starts, cas) =>
      var live := Prune(starts, now, c.maxAge);
      var next := RemoveFirst(live, token);
      if token !in live && |live| == |starts| then Idle(Released)
      else Removing(token, now, attempt, next, cas)
  }

  function Goto(s: System, w: nat, p: Phase): System
    requires w < |s.workers|
  {
    s.(workers := s.workers[w := p])
  }

  function Step(c: Config, s: System, a: Action): System {
    if a.Tick? then s.(clock := s.clock + a.d)
    else if a.w >= |s.workers| then s
    else
      var p := s.workers[a.w];
      match a
      case BeginReserve(w, now) =>
        if p.Idle? && now <= s.clock then Goto(s, w, Reserving(now, 0)) else s
      case LoadForReserve(w) =>
        if p.Reserving? then Goto(s, w, AfterReserveLoad(c, s.cell, p.now, p.attempt)) else s
      case WriteEmpty(w) =>
        if p.Initializing? then
          Goto(s, w, RetryReserve(p.now, p.attempt + 1)).(
            cell := HostSet(s.cell, s.nextCas, [], 0).0, nextCas := s.nextCas + 1,
            erased := s.erased + multiset(s.cell.Starts()), initiators := s.initiators + {w})
        else s
      case WriteAppend(w) =>
        if p.Appending? then
          var (cell, ok) := HostSet(s.cell, s.nextCas, p.next, p.cas);
          if ok then
            Goto(s, w, Idle(Granted(p.now))).(
              cell := cell, nextCas := s.nextCas + 1, held := s.held + multiset{p.now})
          else Goto(s, w, RetryReserve(p.now, p.attempt + 1))
        else s
      case BeginRelease(w, token, now) =>
        if p.Idle? && token in s.held && now <= s.clock then
          Goto(s, w, if token == 0 then Idle(Released) else Releasing(token, now, 0)).(
            held := s.held - multiset{token})
        else s
      case LoadForRelease(w) =>
        if p.Releasing? then Goto(s, w, AfterReleaseLoad(c, s.cell, p.token, p.now, p.attempt)) else s
      case WriteRemove(w) =>
        if p.Removing? then
          var (cell, ok) := HostSet(s.cell, s.nextCas, p.next, p.cas);
          if ok then Goto(s, w, Idle(Released)).(cell := cell, nextCas := s.nextCas + 1)
          else Goto(s, w, RetryRelease(p.token, p.now, p.attempt + 1))
        else s
      case HostError(w) =>
        if p.Reserving? || p.Initializing? then Goto(s, w, Idle(FailedOpen))
        else if p.Releasing? then Goto(s, w, Idle(Abandoned))
        else s
  }

  function Run(c: Config, s: System, schedule: seq<Action>): System {
    if schedule == [] then s
    else Step(c, Run(c, s, schedule[..|schedule| - 1]), schedule[|schedule| - 1])
  }

  lemma {:induction false} RunAppend(c: Config, s: System, first: seq<Action>, second: seq<Action>)
    ensures Run(c, s, first + second) == Run(c, Run(c, s, first), second)
  {
    if second == [] {
      assert first + second == first;
    } else {
      var n := |second| - 1;
      RunAppend(c, s, first, second[..n]);
      assert (first + second)[..|first + second| - 1] == first + second[..n];
    }
  }

  // ----- who holds a slot -----

  /** The worker is in the middle of giving back token `t`. */
  predicate InHand(p: Phase, t: int) {
    (p.Releasing? || p.Removing?) && p.token == t
  }

  function CountInHand(ws: seq<Phase>, t: int): nat {
    if ws == [] then 0 else CountInHand(ws[1..], t) + if InHand(ws[0], t) then 1 else 0
  }

  /** How many tokens `t` were granted and not yet given back: held by requests in
      flight, or being released at this moment. */
  function Owned(s: System, t: int): nat {
    s.held[t] + CountInHand(s.workers, t)
  }

  lemma {:induction false} CountInHandUpdate(ws: seq<Phase>, w: nat, p: Phase, t: int)
    requires w < |ws|
    ensures CountInHand(ws[w := p], t)
         == CountInHand(ws, t) - (if InHand(ws[w], t) then 1 else 0) + (if InHand(p, t) then 1 else 0)
  {
    if w == 0 {
      assert ws[w := p][1..] == ws[1..];
    } else {
      CountInHandUpdate(ws[1..], w - 1, p, t);
      assert ws[w := p][1..] == ws[1..][w - 1 := p];
    }
  }

  lemma OwnedAfter(s: System, s': System, w: nat)
    requires w < |s.workers| == |s'.workers| && s'.workers == s.workers[w := s'.workers[w]]
    ensures forall t :: Owned(s', t) == Owned(s, t) - s.held[t] + s'.held[t]
              - (if InHand(s.workers[w], t) then 1 else 0) + (if InHand(s'.workers[w], t) then 1 else 0)
  {
    forall t {
      CountInHandUpdate(s.workers, w, s'.workers[w], t);
    }
  }

  /** A group of tokens, all of them owned and none aged out. */
  ghost predicate LiveHolders(c: Config, s: System, m: multiset<int>) {
    forall t <- m :: m[t] <= Owned(s, t) && Live(t, s.clock, c.maxAge)
  }

  // ----- the invariant -----

  /** A pending write whose cas still matches was computed from the current list. */
  predicate PhaseOk(c: Config, s: System, p: Phase) {
    match p
    case Idle(_) => true
    case Reserving(now, _) => now <= s.clock
    case Initializing(now, _) => now <= s.clock
    case Appending(now, _, next, cas) =>
      && now <= s.clock && s.cell.Present? && 0 < cas < s.nextCas
      && (cas == s.cell.cas ==>
           var live := Prune(s.cell.starts, now, c.maxAge);
           next == live + [now] && !AtCap(c, live))
    case Releasing(_, now, _) => now <= s.clock
    case Removing(token, now, _, next, cas) =>
      && now <= s.clock && s.cell.Present? && 0 < cas < s.nextCas
      && (cas == s.cell.cas ==> next == RemoveFirst(Prune(s.cell.starts, now, c.maxAge), token))
  }

  /** Every owned token that has not aged out is still in the list, with its full
      multiplicity, unless an empty write erased it. */
  ghost predicate Covered(c: Config, s: System) {
    forall t :: Live(t, s.clock, c.maxAge) ==>
      Owned(s, t) <= multiset(s.cell.Starts())[t] + s.erased[t]
  }

  ghost predicate Inv(c: Config, s: System) {
    && 0 < s.nextCas
    && (s.cell.Present? ==> 0 < s.cell.cas < s.nextCas)
    && (c.maxRun > 0 ==> |s.cell.Starts()| <= c.maxRun)
    && (forall p <- s.workers :: PhaseOk(c, s, p))
    && Covered(c, s)
  }

  /** The cell and the clock only matter to a phase through PhaseOk. */
  lemma PhasesAfterWrite(c: Config, s: System, s': System, w: nat)
    requires Inv(c, s) && w < |s.workers| == |s'.workers|
    requires s'.clock == s.clock && s'.cell.Present? && s'.cell.cas == s.nextCas < s'.nextCas
    requires s'.workers == s.workers[w := s'.workers[w]] && PhaseOk(c, s', s'.workers[w])
    ensures forall p <- s'.workers :: PhaseOk(c, s', p)
  {
    forall p | p in s'.workers
      ensures PhaseOk(c, s', p)
    {
      var i :| 0 <= i < |s'.workers| && s'.workers[i] == p;
      if i != w {
        assert s'.workers[i] == s.workers[i];
        assert PhaseOk(c, s, p);
      }
    }
  }

  lemma OthersUnchanged(c: Config, s: System, s': System, w: nat)
    requires Inv(c, s) && w < |s.workers| == |s'.workers|
    requires s'.clock == s.clock && s'.cell == s.cell && s'.nextCas == s.nextCas
    requires s'.workers == s.workers[w := s'.workers[w]] && PhaseOk(c, s', s'.workers[w])
    ensures forall p <- s'.workers :: PhaseOk(c, s', p)
  {
    forall p | p in s'.workers
      ensures PhaseOk(c, s', p)
    {
      assert p in s.workers || p == s'.workers[w];
    }
  }

  lemma WriteEmptyKeeps(c: Config, s: System, w: nat)
    requires Inv(c, s) && w < |s.workers| && s.workers[w].Initializing?
    ensures Inv(c, Step(c, s, WriteEmpty(w)))
  {
    var s' := Step(c, s, WriteEmpty(w));
    assert s.workers[w] in s.workers;
    OwnedAfter(s, s', w);
    PhasesAfterWrite(c, s, s', w);
  }

  /** The list with the new start time covers the new holder too. */
  lemma AppendCovers(c: Config, s: System, w: nat)
    requires Inv(c, s) && w < |s.workers| && s.workers[w].Appending?
    requires s.cell.Present? && s.workers[w].cas == s.cell.cas
    ensures Covered(c, Step(c, s, WriteAppend(w)))
  {
    var s' := Step(c, s, WriteAppend(w));
    var p := s.workers[w];
    assert p in s.workers;
    OwnedAfter(s, s', w);
    forall t | Live(t, s'.clock, c.maxAge)
      ensures Owned(s', t) <= multiset(s'.cell.Starts())[t] + s'.erased[t]
    {
      PruneCount(s.cell.starts, p.now, c.maxAge, t);
    }
  }

  lemma WriteAppendKeeps(c: Config, s: System, w: nat)
    requires Inv(c, s) && w < |s.workers| && s.workers[w].Appending?
    ensures Inv(c, Step(c, s, WriteAppend(w)))
  {
    var s' := Step(c, s, WriteAppend(w));
    assert s.workers[w] in s.workers;
    if s.workers[w].cas == s.cell.cas {
      AppendCovers(c, s, w);
      PhasesAfterWrite(c, s, s', w);
    } else {
      OwnedAfter(s, s', w);
      OthersUnchanged(c, s, s', w);
    }
  }

  /** The list without one released token still covers what is owned. */
  lemma RemovalCovers(c: Config, s: System, w: nat)
    requires Inv(c, s) && w < |s.workers| && s.workers[w].Removing?
    requires s.cell.Present? && s.workers[w].cas == s.cell.cas
    ensures Covered(c, Step(c, s, WriteRemove(w)))
    ensures |Step(c, s, WriteRemove(w)).cell.Starts()| <= |s.cell.starts|
  {
    var s' := Step(c, s, WriteRemove(w));
    var p := s.workers[w];
    assert p in s.workers;
    OwnedAfter(s, s', w);
    RemoveFirstCount(Prune(s.cell.starts, p.now, c.maxAge), p.token);
    forall t | Live(t, s'.clock, c.maxAge)
      ensures Owned(s', t) <= multiset(s'.cell.Starts())[t] + s'.erased[t]
    {
      RemovePruneCount(s.cell.starts, p.token, p.now, c.maxAge, t);
    }
  }

  lemma WriteRemoveKeeps(c: Config, s: System, w: nat)
    requires Inv(c, s) && w < |s.workers| && s.workers[w].Removing?
    ensures Inv(c, Step(c, s, WriteRemove(w)))
  {
    var s' := Step(c, s, WriteRemove(w));
    assert s.workers[w] in s.workers;
    if s.workers[w].cas == s.cell.cas {
      RemovalCovers(c, s, w);
      PhasesAfterWrite(c, s, s', w);
    } else {
      OwnedAfter(s, s', w);
      OthersUnchanged(c, s, s', w);
    }
  }

  lemma TickKeeps(c: Config, s: System, a: Action)
    requires Inv(c, s) && (a.Tick? || a.w >= |s.workers|)
    ensures Inv(c, Step(c, s, a))
  {
    var s' := Step(c, s, a);
    forall p | p in s'.workers
      ensures PhaseOk(c, s', p)
    {
      assert PhaseOk(c, s, p);
    }
  }

  /** Steps that leave the cell alone: loads, call starts and host errors. */
  predicate Quiet(s: System, a: Action) {
    !a.Tick? && !a.WriteEmpty? && !a.WriteAppend? && !a.WriteRemove? && a.w < |s.workers|
  }

  lemma QuietShape(c: Config, s: System, a: Action)
    requires Quiet(s, a)
    ensures var s' := Step(c, s, a);
      && s'.clock == s.clock && s'.cell == s.cell && s'.nextCas == s.nextCas && s'.erased == s.erased
      && |s'.workers| == |s.workers| && s'.workers == s.workers[a.w := s'.workers[a.w]]
  {
  }

  lemma QuietPhaseOk(c: Config, s: System, a: Action)
    requires Inv(c, s) && Quiet(s, a)
    ensures PhaseOk(c, s, Step(c, s, a).workers[a.w])
  {
    assert s.workers[a.w] in s.workers;
  }

  /** A release moves its token from the request to the worker; nothing else is owned. */
  lemma QuietOwned(c: Config, s: System, a: Action)
    requires Quiet(s, a)
    ensures forall t :: Owned(Step(c, s, a), t) <= Owned(s, t)
  {
    QuietShape(c, s, a);
    OwnedAfter(s, Step(c, s, a), a.w);
  }

  lemma QuietStepKeeps(c: Config, s: System, a: Action)
    requires Inv(c, s) && Quiet(s, a)
    ensures Inv(c, Step(c, s, a))
  {
    var s' := Step(c, s, a);
    QuietShape(c, s, a);
    QuietPhaseOk(c, s, a);
    QuietOwned(c, s, a);
    assert PhaseOk(c, s', s'.workers[a.w]);
    OthersUnchanged(c, s, s', a.w);
  }

  lemma StepKeeps(c: Config, s: System, a: Action)
    requires Inv(c, s)
    ensures Inv(c, Step(c, s, a))
  {
    if a.Tick? || a.w >= |s.workers| {
      TickKeeps(c, s, a);
    } else if a.WriteEmpty? {
      if s.workers[a.w].Initializing? { WriteEmptyKeeps(c, s, a.w); }
    } else if a.WriteAppend? {
      if s.workers[a.w].Appending? { WriteAppendKeeps(c, s, a.w); }
    } else if a.WriteRemove? {
      if s.workers[a.w].Removing? { WriteRemoveKeeps(c, s, a.w); }
    } else {
      QuietStepKeeps(c, s, a);
    }
  }

  lemma {:induction false} RunKeeps(c: Config, s: System, schedule: seq<Action>)
    requires Inv(c, s)
    ensures Inv(c, Run(c, s, schedule))
  {
    if schedule != [] {
      var n := |schedule| - 1;
      RunKeeps(c, s, schedule[..n]);
      StepKeeps(c, Run(c, s, schedule[..n]), schedule[n]);
    }
  }
}
