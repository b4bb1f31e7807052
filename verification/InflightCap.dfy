/** What the protocol guarantees about the concurrency cap: a hard cap on a key that
    exists, and the exact size of the overshoot on a key that is just being created. */
module InflightCap {
  import opened InflightList
  import opened InflightProtocol

  lemma SubMultisetSize(m: multiset<int>, n: multiset<int>)
    requires m <= n
    ensures |m| <= |n|
  {
    assert n == m + (n - m);
  }

  /** Any group of live holders fits in the list plus the erased entries. */
  lemma HoldersFit(c: Config, s: System, m: multiset<int>)
    requires Inv(c, s) && LiveHolders(c, s, m)
    ensures |m| <= |s.cell.Starts()| + |s.erased|
  {
    var all := multiset(s.cell.Starts()) + s.erased;
    assert m <= all by {
      forall t | t in m
        ensures m[t] <= all[t]
      {
        assert Live(t, s.clock, c.maxAge);
      }
    }
    SubMultisetSize(m, all);
  }

  // ----- an existing key -----

  /** The key exists, nobody is inside a call, and every live token is in the list. */
  ghost predicate EstablishedStart(c: Config, s: System) {
    && s.cell.Present? && 0 < s.cell.cas < s.nextCas
    && (c.maxRun > 0 ==> |s.cell.starts| <= c.maxRun)
    && (forall p <- s.workers :: p.Idle?)
    && s.erased == multiset{}
    && (forall t :: Live(t, s.clock, c.maxAge) ==> s.held[t] <= multiset(s.cell.starts)[t])
  }

  /** The key exists and no empty write is under way. */
  predicate Established(s: System) {
    s.cell.Present? && s.erased == multiset{} && forall p <- s.workers :: !p.Initializing?
  }

  lemma {:induction false} NobodyInHand(ws: seq<Phase>, t: int)
    requires forall p <- ws :: p.Idle?
    ensures CountInHand(ws, t) == 0
  {
    if ws != [] {
      assert ws[0] in ws;
      NobodyInHand(ws[1..], t);
    }
  }

  /** What any step other than an effective empty write does to the bookkeeping. */
  lemma StepShape(c: Config, s: System, a: Action)
    ensures var s' := Step(c, s, a);
      && |s'.workers| == |s.workers|
      && (s.cell.Present? ==> s'.cell.Present?)
      && (!(a.WriteEmpty? && a.w < |s.workers| && s.workers[a.w].Initializing?) ==>
            s'.erased == s.erased && s'.initiators == s.initiators)
  {
    if a.WriteEmpty? || a.WriteAppend? || a.WriteRemove? {
      WriteShape(c, s, a);
    }
  }

  lemma WriteShape(c: Config, s: System, a: Action)
    requires a.WriteEmpty? || a.WriteAppend? || a.WriteRemove?
    ensures var s' := Step(c, s, a);
      && |s'.workers| == |s.workers|
      && (s.cell.Present? ==> s'.cell.Present?)
      && (!(a.WriteEmpty? && a.w < |s.workers| && s.workers[a.w].Initializing?) ==>
            s'.erased == s.erased && s'.initiators == s.initiators)
  {
  }

  /** A worker gets to the empty write only by reading an absent key. */
  lemma InitializingComesFromAbsent(c: Config, s: System, a: Action, w: nat)
    requires w < |s.workers| && Step(c, s, a).workers[w].Initializing?
    ensures Step(c, s, a).workers[w] == s.workers[w] || s.cell.Absent?
  {
    if !a.Tick? && a.w == w {
      match a
      case LoadForReserve(_) =>
      case WriteEmpty(_) =>
      case WriteAppend(_) =>
      case LoadForRelease(_) =>
      case WriteRemove(_) =>
      case _ =>
    }
  }

  lemma AbsentStays(c: Config, s: System, a: Action)
    requires Inv(c, s) && s.cell.Absent? && !a.WriteEmpty?
    ensures Step(c, s, a).cell.Absent?
  {
    if !a.Tick? && a.w < |s.workers| {
      assert s.workers[a.w] in s.workers;
    }
  }

  lemma StepKeepsEstablished(c: Config, s: System, a: Action)
    requires Established(s)
    ensures Established(Step(c, s, a))
  {
    StepShape(c, s, a);
    if a.WriteEmpty? && a.w < |s.workers| {
      assert s.workers[a.w] in s.workers;
    }
    var s' := Step(c, s, a);
    forall p | p in s'.workers
      ensures !p.Initializing?
    {
      var w :| 0 <= w < |s'.workers| && s'.workers[w] == p;
      assert s.workers[w] in s.workers;
      if p.Initializing? {
        InitializingComesFromAbsent(c, s, a, w);
      }
    }
  }

  lemma {:induction false} RunKeepsEstablished(c: Config, s: System, schedule: seq<Action>)
    requires Established(s)
    ensures Established(Run(c, s, schedule))
  {
    if schedule != [] {
      var n := |schedule| - 1;
      RunKeepsEstablished(c, s, schedule[..n]);
      StepKeepsEstablished(c, Run(c, s, schedule[..n]), schedule[n]);
    }
  }

  /** HARD CAP. On an existing key, in every interleaving of any number of workers: each
      token that is held or still being released and has not aged out is in the list with
      its full multiplicity, the list never outgrows the cap, and so no more than maxRun
      requests hold a live slot. */
  lemma HardCap(c: Config, s: System, schedule: seq<Action>, m: multiset<int>)
    requires EstablishedStart(c, s)
    ensures var e := Run(c, s, schedule);
      && e.cell.Present?
      && (forall t :: Live(t, e.clock, c.maxAge) ==> Owned(e, t) <= multiset(e.cell.starts)[t])
      && (c.maxRun > 0 ==> |e.cell.starts| <= c.maxRun)
      && (c.maxRun > 0 && LiveHolders(c, e, m) ==> |m| <= c.maxRun)
  {
    forall t { NobodyInHand(s.workers, t); }
    assert Covered(c, s);
    RunKeeps(c, s, schedule);
    RunKeepsEstablished(c, s, schedule);
    var e := Run(c, s, schedule);
    if LiveHolders(c, e, m) {
      HoldersFit(c, e, m);
    }
  }

  // ----- a key that does not exist yet -----

  /** The slots of `n` caps: their product, kept as a sum for the solver's sake. */
  function Slots(cap: nat, n: nat): nat {
    if n == 0 then 0 else Slots(cap, n - 1) + cap
  }

  lemma {:induction false} SlotsIsProduct(cap: nat, n: nat)
    ensures Slots(cap, n) == cap * n
  {
    if n > 0 {
      SlotsIsProduct(cap, n - 1);
    }
  }

  lemma {:induction false} SlotsGrow(cap: nat, m: nat, n: nat)
    requires m <= n
    ensures Slots(cap, m) <= Slots(cap, n)
    decreases n
  {
    if m < n {
      SlotsGrow(cap, m, n - 1);
    }
  }

  predicate BrandNew(s: System, workers: nat) {
    && s.cell == Absent && 0 < s.nextCas && |s.workers| == workers
    && (forall p <- s.workers :: p.Idle?)
    && s.held == multiset{} && s.erased == multiset{} && s.initiators == {}
  }

  /** Each worker writes the empty state at most once, and only the first such write finds
      nothing to erase. */
  predicate InitsBounded(c: Config, s: System) {
    && (forall w <- s.initiators :: w < |s.workers|)
    && (s.cell.Absent? <==> s.initiators == {})
    && (forall w | 0 <= w < |s.workers| :: s.workers[w].Initializing? ==> w !in s.initiators)
    && (s.cell.Absent? ==> s.erased == multiset{})
    && (c.maxRun > 0 && s.cell.Present? ==> |s.erased| + c.maxRun <= Slots(c.maxRun, |s.initiators|))
  }

  lemma WriteEmptyKeepsBound(c: Config, s: System, w: nat)
    requires Inv(c, s) && InitsBounded(c, s) && w < |s.workers| && s.workers[w].Initializing?
    ensures InitsBounded(c, Step(c, s, WriteEmpty(w)))
  {
    var s' := Step(c, s, WriteEmpty(w));
    assert w in s'.initiators && |s'.initiators| == |s.initiators| + 1;
    if c.maxRun > 0 {
      assert |s'.erased| == |s.erased| + |s.cell.Starts()|;
    }
  }

  lemma StepKeepsBound(c: Config, s: System, a: Action)
    requires Inv(c, s) && InitsBounded(c, s)
    ensures InitsBounded(c, Step(c, s, a))
  {
    if a.WriteEmpty? && a.w < |s.workers| && s.workers[a.w].Initializing? {
      WriteEmptyKeepsBound(c, s, a.w);
    } else {
      StepShape(c, s, a);
      if s.cell.Absent? && !a.WriteEmpty? {
        AbsentStays(c, s, a);
      }
      forall w | 0 <= w < |s.workers| && Step(c, s, a).workers[w].Initializing?
        ensures w !in s.initiators
      {
        InitializingComesFromAbsent(c, s, a, w);
      }
    }
  }

  lemma {:induction false} RunKeepsBound(c: Config, s: System, schedule: seq<Action>)
    requires Inv(c, s) && InitsBounded(c, s)
    ensures InitsBounded(c, Run(c, s, schedule))
    ensures |Run(c, s, schedule).workers| == |s.workers|
  {
    if schedule != [] {
      var n := |schedule| - 1;
      var mid := Run(c, s, schedule[..n]);
      RunKeepsBound(c, s, schedule[..n]);
      RunKeeps(c, s, schedule[..n]);
      StepKeepsBound(c, mid, schedule[n]);
      StepShape(c, mid, schedule[n]);
    }
  }

  lemma {:induction false} BelowSize(s: set<nat>, n: nat)
    requires forall x <- s :: x < n
    ensures |s| <= n
  {
    if n > 0 {
      BelowSize(s - {n - 1}, n - 1);
    }
  }

  lemma BrandNewInv(c: Config, s: System, workers: nat)
    requires BrandNew(s, workers)
    ensures Inv(c, s) && InitsBounded(c, s)
  {
    forall t { NobodyInHand(s.workers, t); }
  }

  /** BRAND-NEW KEY. From an absent key, in every interleaving of W workers, the live
      tokens are covered by the list plus the entries erased by late empty writes, and at
      most maxRun * W requests hold a live slot. */
  lemma BrandNewBound(c: Config, s: System, workers: nat, schedule: seq<Action>, m: multiset<int>)
    requires BrandNew(s, workers)
    ensures var e := Run(c, s, schedule);
      && Covered(c, e)
      && (c.maxRun > 0 && LiveHolders(c, e, m) ==> |m| <= c.maxRun * workers)
  {
    BrandNewInv(c, s, workers);
    RunKeeps(c, s, schedule);
    RunKeepsBound(c, s, schedule);
    var e := Run(c, s, schedule);
    if c.maxRun > 0 && LiveHolders(c, e, m) {
      HoldersFit(c, e, m);
      SlotsSuffice(c, e, workers);
    }
  }

  lemma SlotsSuffice(c: Config, e: System, workers: nat)
    requires c.maxRun > 0 && InitsBounded(c, e) && |e.workers| == workers && |e.cell.Starts()| <= c.maxRun
    ensures |e.cell.Starts()| + |e.erased| <= c.maxRun * workers
  {
    BelowSize(e.initiators, workers);
    SlotsGrow(c.maxRun, |e.initiators|, workers);
    SlotsIsProduct(c.maxRun, workers);
  }

  /** Once the key exists, only a worker that had already read "not found" can still issue
      the empty write: a worker about to write it now was about to write it then. */
  lemma {:induction false} OnlyEarlyReadersErase(c: Config, s: System, schedule: seq<Action>, w: nat)
    requires s.cell.Present? && w < |s.workers|
    ensures var e := Run(c, s, schedule);
      && e.cell.Present? && |e.workers| == |s.workers|
      && (e.workers[w].Initializing? ==> e.workers[w] == s.workers[w])
  {
    if schedule != [] {
      var n := |schedule| - 1;
      var mid := Run(c, s, schedule[..n]);
      OnlyEarlyReadersErase(c, s, schedule[..n], w);
      StepShape(c, mid, schedule[n]);
      if Step(c, mid, schedule[n]).workers[w].Initializing? {
        InitializingComesFromAbsent(c, mid, schedule[n], w);
      }
    }
  }

  // ----- the bound is reached -----

  /** `e` is where `schedule` leads from `s`. */
  ghost predicate Leads(c: Config, s: System, schedule: seq<Action>, e: System) {
    Run(c, s, schedule) == e
  }

  lemma LeadsNowhere(c: Config, s: System)
    ensures Leads(c, s, [], s)
  {
  }

  lemma LeadsOn(c: Config, s: System, first: seq<Action>, mid: System, second: seq<Action>, e: System)
    requires Leads(c, s, first, mid) && Leads(c, mid, second, e)
    ensures Leads(c, s, first + second, e)
  {
    RunAppend(c, s, first, second);
  }

  lemma LeadsOne(c: Config, s: System, x: Action)
    ensures Leads(c, s, [x], Step(c, s, x))
  {
    assert [x][..0] == [];
  }

  lemma LeadsTwo(c: Config, s: System, x: Action, y: Action)
    ensures Leads(c, s, [x, y], Step(c, Step(c, s, x), y))
  {
    LeadsOne(c, s, x);
    LeadsOne(c, Step(c, s, x), y);
    LeadsOn(c, s, [x], Step(c, s, x), [y], Step(c, Step(c, s, x), y));
    assert [x] + [y] == [x, y];
  }

  lemma LeadsThree(c: Config, s: System, x: Action, y: Action, z: Action)
    ensures Leads(c, s, [x, y, z], Step(c, Step(c, Step(c, s, x), y), z))
  {
    var mid := Step(c, Step(c, s, x), y);
    LeadsTwo(c, s, x, y);
    LeadsOne(c, mid, z);
    LeadsOn(c, s, [x, y], mid, [z], Step(c, mid, z));
    assert [x, y] + [z] == [x, y, z];
  }

  /** The first `k` workers have read "not found", the others do what they did in `s`. */
  predicate FirstRead(s: System, e: System, k: nat) {
    && k <= |s.workers| == |e.workers| && e == s.(workers := e.workers)
    && (forall i | 0 <= i < k :: e.workers[i] == Initializing(s.clock, 0))
    && (forall i | k <= i < |s.workers| :: e.workers[i] == s.workers[i])
  }

  lemma ReadNotFound(c: Config, s: System, w: nat)
    requires s.cell == Absent && w < |s.workers| && s.workers[w].Idle?
    ensures Leads(c, s, [BeginReserve(w, s.clock), LoadForReserve(w)], Goto(s, w, Initializing(s.clock, 0)))
  {
    LeadsTwo(c, s, BeginReserve(w, s.clock), LoadForReserve(w));
    var begun := Goto(s, w, Reserving(s.clock, 0));
    assert Step(c, s, BeginReserve(w, s.clock)) == begun;
    assert begun.workers[w := Initializing(s.clock, 0)] == s.workers[w := Initializing(s.clock, 0)];
  }

  lemma OneMoreRead(s: System, mid: System, k: nat)
    requires k < |s.workers| && FirstRead(s, mid, k)
    ensures FirstRead(s, Goto(mid, k, Initializing(s.clock, 0)), k + 1)
  {
  }

  /** Every worker starts a reservation now and reads "not found" before anyone writes. */
  lemma {:induction false} AllRead(c: Config, s: System, k: nat) returns (schedule: seq<Action>, e: System)
    requires s.cell == Absent && k <= |s.workers| && forall i | 0 <= i < |s.workers| :: s.workers[i].Idle?
    ensures Leads(c, s, schedule, e) && FirstRead(s, e, k)
  {
    if k == 0 {
      LeadsNowhere(c, s);
      return [], s;
    }
    var front, mid := AllRead(c, s, k - 1);
    var two := [BeginReserve(k - 1, s.clock), LoadForReserve(k - 1)];
    schedule, e := front + two, Goto(mid, k - 1, Initializing(s.clock, 0));
    ReadNotFound(c, mid, k - 1);
    LeadsOn(c, s, front, mid, two, e);
    OneMoreRead(s, mid, k - 1);
  }

  function Repeat(t: int, k: nat): (r: seq<int>)
    ensures |r| == k
  {
    if k == 0 then [] else Repeat(t, k - 1) + [t]
  }

  lemma {:induction false} PruneFresh(k: nat, t: int, maxAge: int)
    requires maxAge > 0
    ensures Prune(Repeat(t, k), t, maxAge) == Repeat(t, k)
  {
    if k > 0 {
      PruneFresh(k - 1, t, maxAge);
      assert Repeat(t, k)[..k - 1] == Repeat(t, k - 1);
    }
  }

  /** All workers from `from` on have read "not found" and not written yet. */
  predicate WaitingFrom(s: System, workers: nat, from: nat) {
    && |s.workers| == workers && 0 < s.nextCas
    && forall i | from <= i < workers :: s.workers[i] == Initializing(s.clock, 0)
  }

  /** Worker `w` has `k` entries in the list and is about to load for the next one. */
  predicate Filling(s: System, workers: nat, w: nat, k: nat) {
    && WaitingFrom(s, workers, w + 1) && w < workers
    && s.cell.Present? && 0 < s.cell.cas && s.cell.starts == Repeat(s.clock, k)
    && s.workers[w].Reserving? && s.workers[w].now == s.clock
  }

  /** The clock stands still, and `k` more requests hold a slot, all since now. */
  predicate MoreHolders(s: System, e: System, k: int) {
    e.clock == s.clock && |e.held| == |s.held| + k && forall t <- e.held :: t in s.held || t == s.clock
  }

  lemma MoreAndMore(s: System, mid: System, e: System, j: int, k: int)
    requires MoreHolders(s, mid, j) && MoreHolders(mid, e, k)
    ensures MoreHolders(s, e, j + k)
  {
  }

  /** The state after a reservation by worker `w` with nobody in between, and its next call. */
  function Reserved(c: Config, s: System, w: nat): System
    requires w < |s.workers| && s.cell.Present?
  {
    s.(cell := Present(Prune(s.cell.starts, s.clock, c.maxAge) + [s.clock], s.nextCas), nextCas := s.nextCas + 1,
       held := s.held + multiset{s.clock}, workers := s.workers[w := Reserving(s.clock, 0)])
  }

  lemma ReserveAlone(c: Config, s: System, w: nat)
    requires w < |s.workers| && s.workers[w].Reserving? && s.workers[w].now == s.clock
    requires s.cell.Present? && s.cell.cas != 0 && !AtCap(c, Prune(s.cell.starts, s.clock, c.maxAge))
    ensures Leads(c, s, [LoadForReserve(w), WriteAppend(w), BeginReserve(w, s.clock)], Reserved(c, s, w))
  {
    var t := s.clock;
    LeadsThree(c, s, LoadForReserve(w), WriteAppend(w), BeginReserve(w, t));
    var next := Prune(s.cell.starts, t, c.maxAge) + [t];
    var loaded := Goto(s, w, Appending(t, s.workers[w].attempt, next, s.cell.cas));
    assert Step(c, s, LoadForReserve(w)) == loaded;
    var written := Goto(loaded, w, Idle(Granted(t))).(
      cell := Present(next, s.nextCas), nextCas := s.nextCas + 1, held := s.held + multiset{t});
    assert Step(c, loaded, WriteAppend(w)) == written;
    assert Step(c, written, BeginReserve(w, t)) == Goto(written, w, Reserving(t, 0));
    assert Goto(written, w, Reserving(t, 0)).workers == s.workers[w := Reserving(t, 0)];
  }

  lemma FilledOne(c: Config, s: System, workers: nat, w: nat, k: nat)
    requires c.maxAge > 0 && Filling(s, workers, w, k)
    ensures Filling(Reserved(c, s, w), workers, w, k + 1) && MoreHolders(s, Reserved(c, s, w), 1)
  {
    PruneFresh(k, s.clock, c.maxAge);
  }

  /** Worker `w` reserves `k` times in a row. */
  lemma {:induction false} Fill(c: Config, s: System, workers: nat, w: nat, k: nat)
    returns (schedule: seq<Action>, e: System)
    requires k <= c.maxRun && c.maxAge > 0 && Filling(s, workers, w, 0)
    ensures Leads(c, s, schedule, e) && Filling(e, workers, w, k) && MoreHolders(s, e, k)
  {
    if k == 0 {
      LeadsNowhere(c, s);
      return [], s;
    }
    var front, mid := Fill(c, s, workers, w, k - 1);
    var once := [LoadForReserve(w), WriteAppend(w), BeginReserve(w, mid.clock)];
    schedule, e := front + once, Reserved(c, mid, w);
    PruneFresh(k - 1, mid.clock, c.maxAge);
    ReserveAlone(c, mid, w);
    LeadsOn(c, s, front, mid, once, e);
    FilledOne(c, mid, workers, w, k - 1);
    MoreAndMore(s, mid, e, k - 1, 1);
  }

  /** Worker `n` wipes the list and starts to fill it. */
  lemma WipeAndStart(c: Config, s: System, workers: nat, n: nat)
    requires n < workers && WaitingFrom(s, workers, n)
    ensures var e := Step(c, s, WriteEmpty(n)); Filling(e, workers, n, 0) && MoreHolders(s, e, 0)
  {
    var e := Step(c, s, WriteEmpty(n));
    assert e.workers == s.workers[n := Reserving(s.clock, 1)];
  }

  /** Every wave leaves maxRun more holders, whatever it erased. */
  lemma Wave(c: Config, s: System, workers: nat, n: nat) returns (schedule: seq<Action>, e: System)
    requires c.maxRun > 0 && c.maxAge > 0 && n < workers && WaitingFrom(s, workers, n)
    ensures Leads(c, s, schedule, e) && WaitingFrom(e, workers, n + 1) && MoreHolders(s, e, c.maxRun)
  {
    var wiped := Step(c, s, WriteEmpty(n));
    LeadsOne(c, s, WriteEmpty(n));
    WipeAndStart(c, s, workers, n);
    var rest;
    rest, e := Fill(c, wiped, workers, n, c.maxRun);
    schedule := [WriteEmpty(n)] + rest;
    LeadsOn(c, s, [WriteEmpty(n)], wiped, rest, e);
    MoreAndMore(s, wiped, e, 0, c.maxRun);
  }

  /** One worker after the other writes the empty state and then fills the list. */
  lemma {:induction false} Waves(c: Config, s: System, workers: nat, n: nat)
    returns (schedule: seq<Action>, e: System)
    requires c.maxRun > 0 && c.maxAge > 0 && n <= workers && WaitingFrom(s, workers, 0)
    ensures Leads(c, s, schedule, e) && WaitingFrom(e, workers, n) && MoreHolders(s, e, Slots(c.maxRun, n))
  {
    if n == 0 {
      LeadsNowhere(c, s);
      return [], s;
    }
    var front, mid := Waves(c, s, workers, n - 1);
    var last;
    last, e := Wave(c, mid, workers, n - 1);
    schedule := front + last;
    LeadsOn(c, s, front, mid, last, e);
    MoreAndMore(s, mid, e, Slots(c.maxRun, n - 1), c.maxRun);
  }

  /** The bound is exact: some interleaving of W workers does put maxRun * W live holders
      on a brand-new key, whatever the clock shows. */
  lemma BrandNewBoundIsReached(c: Config, s: System, workers: nat)
    returns (schedule: seq<Action>, m: multiset<int>)
    requires c.maxRun > 0 && c.maxAge > 0 && BrandNew(s, workers)
    ensures LiveHolders(c, Run(c, s, schedule), m)
    ensures |m| == c.maxRun * workers
  {
    assert forall i | 0 <= i < workers :: s.workers[i] in s.workers;
    var early, mid := AllRead(c, s, workers);
    var waves, e := Waves(c, mid, workers, workers);
    schedule, m := early + waves, e.held;
    LeadsOn(c, s, early, mid, waves, e);
    SlotsIsProduct(c.maxRun, workers);
  }

  ghost predicate WithinCap(c: Config, s: System, schedule: seq<Action>, m: multiset<int>) {
    LiveHolders(c, Run(c, s, schedule), m) ==> |m| <= c.maxRun
  }

  /** So the cap is hard on a brand-new key exactly when at most one worker shares it. */
  lemma BrandNewCapExactlyWhen(c: Config, s: System, workers: nat)
    requires c.maxRun > 0 && c.maxAge > 0 && BrandNew(s, workers)
    ensures (forall schedule, m :: WithinCap(c, s, schedule, m)) <==> workers <= 1
  {
    SlotsIsProduct(c.maxRun, workers);
    if workers <= 1 {
      forall schedule, m
        ensures WithinCap(c, s, schedule, m)
      {
        BrandNewBound(c, s, workers, schedule, m);
        SlotsGrow(c.maxRun, workers, 1);
      }
    } else {
      var schedule, m := BrandNewBoundIsReached(c, s, workers);
      SlotsGrow(c.maxRun, 2, workers);
      assert !WithinCap(c, s, schedule, m);
    }
  }
}
