/** How many lost rounds a call survives before it gives up. */
module RetryBudgets {
  import opened InflightProtocol
  import Limiter = RateLimitWorkers

  // ----- reservations -----

  /** A round in vain: the worker loads, the others act, and its write meets another cas; or the
      key was missing and the round went into creating it. */
  ghost predicate LostReserve(c: Config, s: System, w: nat, others: seq<Action>, t: System) {
    && w < |s.workers|
    && var u := Step(c, s, LoadForReserve(w));
      var v := Run(c, u, others);
      && w < |v.workers| && v.workers[w] == u.workers[w]
      && match u.workers[w]
         case Appending(_, _, _, cas) =>
           cas != 0 && v.cell.Present? && v.cell.cas != cas && t == Step(c, v, WriteAppend(w))
         case Initializing(_, _) => t == Step(c, v, WriteEmpty(w))
         case _ => false
  }

  lemma OneLostReserve(c: Config, s: System, w: nat, others: seq<Action>, t: System, now: int, attempt: nat)
    requires LostReserve(c, s, w, others, t) && s.workers[w] == Reserving(now, attempt)
    ensures w < |t.workers|
    ensures t.workers[w] == if attempt + 1 < 10 then Reserving(now, attempt + 1) else Idle(FailedOpen)
  {
  }

  /** TEN ROUNDS. A reservation goes on after nine lost rounds and gives up after the tenth. */
  lemma {:induction false} ReserveRounds(c: Config, ss: seq<System>, others: seq<seq<Action>>, w: nat, now: int, n: nat)
    requires n <= 10 && n < |ss| && n <= |others|
    requires w < |ss[0].workers| && ss[0].workers[w] == Reserving(now, 0)
    requires forall i | 0 <= i < n :: LostReserve(c, ss[i], w, others[i], ss[i + 1])
    ensures w < |ss[n].workers|
    ensures ss[n].workers[w] == if n < 10 then Reserving(now, n) else Idle(FailedOpen)
  {
    if n > 0 {
      ReserveRounds(c, ss, others, w, now, n - 1);
      assert LostReserve(c, ss[n - 1], w, others[n - 1], ss[n - 1 + 1]);
      OneLostReserve(c, ss[n - 1], w, others[n - 1], ss[n], now, n - 1);
    }
  }

  // ----- releases -----

  ghost predicate LostRelease(c: Config, s: System, w: nat, others: seq<Action>, t: System) {
    && w < |s.workers|
    && var u := Step(c, s, LoadForRelease(w));
      var v := Run(c, u, others);
      && w < |v.workers| && v.workers[w] == u.workers[w] && u.workers[w].Removing?
      && u.workers[w].cas != 0 && v.cell.Present? && v.cell.cas != u.workers[w].cas
      && t == Step(c, v, WriteRemove(w))
  }

  lemma OneLostRelease(c: Config, s: System, w: nat, others: seq<Action>, t: System, token: int, now: int, attempt: nat)
    requires LostRelease(c, s, w, others, t) && s.workers[w] == Releasing(token, now, attempt)
    ensures w < |t.workers|
    ensures t.workers[w] == if attempt + 1 < 20 then Releasing(token, now, attempt + 1) else Idle(Abandoned)
  {
  }

  /** TWENTY ROUNDS for a release, whose loss would cost a slot until it ages out. */
  lemma {:induction false} ReleaseRounds(c: Config, ss: seq<System>, others: seq<seq<Action>>, w: nat, token: int,
                                         now: int, n: nat)
    requires n <= 20 && n < |ss| && n <= |others|
    requires w < |ss[0].workers| && ss[0].workers[w] == Releasing(token, now, 0)
    requires forall i | 0 <= i < n :: LostRelease(c, ss[i], w, others[i], ss[i + 1])
    ensures w < |ss[n].workers|
    ensures ss[n].workers[w] == if n < 20 then Releasing(token, now, n) else Idle(Abandoned)
  {
    if n > 0 {
      ReleaseRounds(c, ss, others, w, token, now, n - 1);
      assert LostRelease(c, ss[n - 1], w, others[n - 1], ss[n - 1 + 1]);
      OneLostRelease(c, ss[n - 1], w, others[n - 1], ss[n], token, now, n - 1);
    }
  }

  // ----- the rate limiter's appends -----

  ghost predicate LostAppend(l: Limiter.Limit, s: Limiter.System, w: nat, others: seq<Limiter.Action>,
                             t: Limiter.System)
  {
    && w < |s.workers|
    && var u := Limiter.Step(l, s, Limiter.Load(w));
      var v := Limiter.Run(l, u, others);
      && w < |v.workers| && v.workers[w] == u.workers[w] && u.workers[w].Loaded?
      && u.workers[w].cas != 0 && v.cell.Present? && v.cell.cas != u.workers[w].cas
      && t == Limiter.Step(l, v, Limiter.Write(w))
  }

  lemma OneLostAppend(l: Limiter.Limit, s: Limiter.System, w: nat, others: seq<Limiter.Action>, t: Limiter.System,
                      attempt: nat)
    requires LostAppend(l, s, w, others, t) && s.workers[w].Passed? && s.workers[w].attempt == attempt
    ensures w < |t.workers|
    ensures t.workers[w] == if attempt + 1 < 10 then Limiter.Passed(s.workers[w].now, attempt + 1) else Limiter.Idle
  {
  }

  /** TEN ROUNDS for an admission's append. */
  lemma {:induction false} AppendRounds(l: Limiter.Limit, ss: seq<Limiter.System>, others: seq<seq<Limiter.Action>>,
                                        w: nat, n: nat)
    requires n <= 10 && n < |ss| && n <= |others|
    requires w < |ss[0].workers| && ss[0].workers[w].Passed? && ss[0].workers[w].attempt == 0
    requires forall i | 0 <= i < n :: LostAppend(l, ss[i], w, others[i], ss[i + 1])
    ensures w < |ss[n].workers|
    ensures ss[n].workers[w] == if n < 10 then Limiter.Passed(ss[0].workers[w].now, n) else Limiter.Idle
  {
    if n > 0 {
      AppendRounds(l, ss, others, w, n - 1);
      assert LostAppend(l, ss[n - 1], w, others[n - 1], ss[n - 1 + 1]);
      OneLostAppend(l, ss[n - 1], w, others[n - 1], ss[n], n - 1);
    }
  }
}
