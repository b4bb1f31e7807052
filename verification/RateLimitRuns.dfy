/** Whole runs of the rate limiter, on the history of what was recorded: who is refused, for any
    modes and any counts, and what that means for token limits, which are checked when a request
    comes and added to when its answer is known. */
module RateLimitRuns {
  import opened Bytes
  import opened RateLimit
  import opened RateLimitBatch
  import opened Wrappers

  /** One evaluated batch: the key it was refused for, if any, which entries could be read, and
      which adds were stored. */
  datatype Served = Served(
    now: int64,
    entries: seq<LimitEntry>,
    refused: Option<string>,
    read: seq<bool>,
    stored: seq<bool>)

  /** What LocalBackend.BatchEval promises about one batch. */
  ghost predicate Batch(before: Logs, s: Served, after: Logs) {
    && |s.read| == |s.stored| == |s.entries|
    && (s.refused.None? ==>
          && after == Written(before, s.now, Marked(s.entries, s.stored))
          && forall i | 0 <= i < |s.entries| && s.read[i] :: !OverQuota(before, s.now, s.entries[i]))
    && (s.refused.Some? ==>
          && after == before
          && exists i | 0 <= i < |s.entries| ::
               s.entries[i].key == s.refused.value && OverAt(before, s.now, s.entries, s.read, i))
  }

  /** The first `n` batches, from an empty store. */
  ghost predicate RunsTo(trace: seq<Served>, logs: seq<Logs>, n: nat)
    requires n <= |trace| && |logs| == |trace| + 1
  {
    if n == 0 then logs[0] == map[] else RunsTo(trace, logs, n - 1) && Batch(logs[n - 1], trace[n - 1], logs[n])
  }

  /** `logs[n]` is what is stored before batch `n`. */
  ghost predicate IsRun(trace: seq<Served>, logs: seq<Logs>) {
    |logs| == |trace| + 1 && RunsTo(trace, logs, |trace|)
  }

  lemma {:induction false} RunsPart(trace: seq<Served>, logs: seq<Logs>, n: nat, k: nat)
    requires n <= k <= |trace| && |logs| == |trace| + 1 && RunsTo(trace, logs, k)
    ensures RunsTo(trace, logs, n)
    decreases k
  {
    if n < k {
      RunsPart(trace, logs, n, k - 1);
    }
  }

  lemma BatchAt(trace: seq<Served>, logs: seq<Logs>, n: nat)
    requires IsRun(trace, logs) && n < |trace|
    ensures Batch(logs[n], trace[n], logs[n + 1])
  {
    RunsPart(trace, logs, n + 1, |trace|);
  }

  predicate InTime(trace: seq<Served>) {
    forall i, j | 0 <= i < j < |trace| :: trace[i].now <= trace[j].now
  }

  /** Every key is used with one window. */
  predicate OneWindow(trace: seq<Served>, windows: string -> int) {
    forall n | 0 <= n < |trace| :: EntriesFit(trace[n].entries, windows)
  }

  predicate EntriesFit(entries: seq<LimitEntry>, windows: string -> int) {
    forall i | 0 <= i < |entries| :: entries[i].window == windows(entries[i].key)
  }

  // ----- the history -----

  /** What one passed batch records under `key`: the counts of its adds. */
  function AddedBy(entries: seq<LimitEntry>, stored: seq<bool>, now: int64, key: string): seq<WindowEntry>
    requires |entries| == |stored|
  {
    if entries == [] then []
    else
      var n := |entries| - 1;
      var e, rest := entries[n], AddedBy(entries[..n], stored[..n], now, key);
      if stored[n] && e.key == key && (e.mode == Add || e.mode == CheckAndAdd) then rest + [WindowEntry(now, e.count)]
      else rest
  }

  /** What one batch records under `key`; a refused one records nothing. */
  function RecordedBy(s: Served, key: string): seq<WindowEntry> {
    if s.refused.None? && |s.entries| == |s.stored| then AddedBy(s.entries, s.stored, s.now, key) else []
  }

  /** Everything recorded under `key` by the batches from `from` up to `to`, pruned by nobody. */
  function History(trace: seq<Served>, from: nat, to: nat, key: string): seq<WindowEntry>
    requires to <= |trace|
  {
    if to <= from then [] else History(trace, from, to - 1, key) + RecordedBy(trace[to - 1], key)
  }

  /** The counts with a timestamp in (lo, hi]. */
  function Used(es: seq<WindowEntry>, lo: int, hi: int): int {
    if es == [] then 0
    else
      var e := es[|es| - 1];
      Used(es[..|es| - 1], lo, hi) + if lo < e.timestamp <= hi then e.count else 0
  }

  /** Entry `i` of batch `n` asks for room, and its window is used up. */
  predicate UsedUp(trace: seq<Served>, n: nat, i: nat)
    requires n < |trace| && i < |trace[n].entries|
  {
    var e, now := trace[n].entries[i], trace[n].now;
    && (e.mode == Check || e.mode == CheckAndAdd)
    && Used(History(trace, 0, n, e.key), now - e.window, now) >= e.quota
  }

  // ----- the stored log is the history -----

  lemma {:induction false} AddedIsAdds(entries: seq<LimitEntry>, stored: seq<bool>, now: int64, key: string)
    requires |entries| == |stored|
    ensures AddedBy(entries, stored, now, key) == Adds(Marked(entries, stored), now, key)
  {
    if entries != [] {
      var n := |entries| - 1;
      var front := Marked(entries[..n], stored[..n]);
      AddedIsAdds(entries[..n], stored[..n], now, key);
      if stored[n] {
        assert (front + [entries[n]])[..|front|] == front;
      } else {
        assert front + [] == front;
      }
    }
  }

  lemma {:induction false} MarkedFit(entries: seq<LimitEntry>, marks: seq<bool>, windows: string -> int)
    requires |entries| == |marks| && EntriesFit(entries, windows)
    ensures EntriesFit(Marked(entries, marks), windows)
  {
    if entries != [] {
      var n := |entries| - 1;
      MarkedFit(entries[..n], marks[..n], windows);
    }
  }

  /** One batch keeps the log in step with the history. */
  lemma BatchRecords(before: Logs, s: Served, after: Logs, windows: string -> int, key: string, past: seq<WindowEntry>)
    requires Batch(before, s, after) && EntriesFit(s.entries, windows)
    requires LogOf(before, key) == Stored(windows(key), past)
    ensures LogOf(after, key) == Stored(windows(key), past + RecordedBy(s, key))
  {
    if s.refused.None? {
      AddedIsAdds(s.entries, s.stored, s.now, key);
      MarkedFit(s.entries, s.stored, windows);
      WrittenAt(before, s.now, Marked(s.entries, s.stored), key, windows(key), past);
    } else {
      assert past + [] == past;
    }
  }

  lemma {:induction false} LogIsHistory(trace: seq<Served>, logs: seq<Logs>, windows: string -> int, n: nat,
                                        key: string)
    requires IsRun(trace, logs) && OneWindow(trace, windows) && n <= |trace|
    ensures LogOf(logs[n], key) == Stored(windows(key), History(trace, 0, n, key))
  {
    if n > 0 {
      var s, past := trace[n - 1], History(trace, 0, n - 1, key);
      LogIsHistory(trace, logs, windows, n - 1, key);
      BatchAt(trace, logs, n - 1);
      assert EntriesFit(s.entries, windows);
      BatchRecords(logs[n - 1], s, logs[n], windows, key, past);
    } else {
      RunsPart(trace, logs, 0, |trace|);
    }
  }

  // ----- the checks see the history -----

  lemma {:induction false} AddedAt(entries: seq<LimitEntry>, stored: seq<bool>, now: int64, key: string)
    requires |entries| == |stored|
    ensures forall e <- AddedBy(entries, stored, now, key) :: e.timestamp == now
  {
    if entries != [] {
      var n := |entries| - 1;
      AddedAt(entries[..n], stored[..n], now, key);
    }
  }

  lemma {:induction false} HistoryBefore(trace: seq<Served>, n: nat, key: string, now: int)
    requires n <= |trace| && InTime(trace) && (n > 0 ==> trace[n - 1].now <= now)
    ensures NoneAfter(History(trace, 0, n, key), now)
  {
    if n > 0 {
      var s := trace[n - 1];
      HistoryBefore(trace, n - 1, key, now);
      if |s.entries| == |s.stored| {
        AddedAt(s.entries, s.stored, s.now, key);
      }
    }
  }

  lemma {:induction false} TotalIsUsed(es: seq<WindowEntry>, lo: int, hi: int)
    requires NoneAfter(es, hi)
    ensures Total(es, lo) == Used(es, lo, hi)
  {
    if es != [] {
      TotalIsUsed(es[..|es| - 1], lo, hi);
    }
  }

  /** What a check at `now` would add up is what the history holds in its window. */
  lemma SeenIsUsed(trace: seq<Served>, logs: seq<Logs>, windows: string -> int, n: nat, key: string, now: int)
    requires IsRun(trace, logs) && InTime(trace) && OneWindow(trace, windows)
    requires n <= |trace| && (n > 0 ==> trace[n - 1].now <= now)
    ensures Total(LogOf(logs[n], key), now - windows(key))
         == Used(History(trace, 0, n, key), now - windows(key), now)
  {
    LogIsHistory(trace, logs, windows, n, key);
    HistoryBefore(trace, n, key, now);
    StoredIsUsed(windows(key), History(trace, 0, n, key), now);
  }

  lemma StoredIsUsed(window: int, es: seq<WindowEntry>, now: int)
    requires NoneAfter(es, now)
    ensures Total(Stored(window, es), now - window) == Used(es, now - window, now)
  {
    PrunedLogRefinesFullLog(window, es, now);
    TotalIsUsed(es, now - window, now);
  }

  lemma OverIsUsedUp(trace: seq<Served>, logs: seq<Logs>, windows: string -> int, n: nat, i: nat)
    requires IsRun(trace, logs) && InTime(trace) && OneWindow(trace, windows)
    requires n < |trace| && i < |trace[n].entries|
    ensures OverQuota(logs[n], trace[n].now, trace[n].entries[i]) <==> UsedUp(trace, n, i)
  {
    assert EntriesFit(trace[n].entries, windows);
    SeenIsUsed(trace, logs, windows, n, trace[n].entries[i].key, trace[n].now);
  }

  /** The first entry, of those that could be read, whose window is used up. */
  ghost predicate FirstUsedUp(trace: seq<Served>, n: nat, i: nat)
    requires n < |trace| && |trace[n].read| == |trace[n].entries|
  {
    && i < |trace[n].entries| && trace[n].read[i] && UsedUp(trace, n, i)
    && forall j | 0 <= j < i && trace[n].read[j] :: !UsedUp(trace, n, j)
  }

  /** Batch `n` is answered by the history: passed when no entry that could be read asks for room
      in a window that is used up, refused for the first that does. */
  ghost predicate AnsweredByHistory(trace: seq<Served>, n: nat)
    requires n < |trace|
  {
    var s := trace[n];
    && |s.read| == |s.entries|
    && (s.refused.None? ==> forall i | 0 <= i < |s.entries| && s.read[i] :: !UsedUp(trace, n, i))
    && (s.refused.Some? ==>
          exists i | 0 <= i < |s.entries| :: s.entries[i].key == s.refused.value && FirstUsedUp(trace, n, i))
  }

  /** WHO IS REFUSED. In every run, with any modes and any counts, host errors included. */
  lemma HistoryDecides(trace: seq<Served>, logs: seq<Logs>, windows: string -> int, n: nat)
    requires IsRun(trace, logs) && InTime(trace) && OneWindow(trace, windows) && n < |trace|
    ensures AnsweredByHistory(trace, n)
  {
    var s := trace[n];
    BatchAt(trace, logs, n);
    forall i | 0 <= i < |s.entries|
      ensures OverQuota(logs[n], s.now, s.entries[i]) <==> UsedUp(trace, n, i)
    {
      OverIsUsedUp(trace, logs, windows, n, i);
    }
    if s.refused.Some? {
      var i :| 0 <= i < |s.entries| && s.entries[i].key == s.refused.value
               && OverAt(logs[n], s.now, s.entries, s.read, i);
      assert FirstUsedUp(trace, n, i);
    }
  }

  /** A batch of adds is never refused, so what an answer cost is recorded unless the host fails. */
  lemma AddsAlwaysPass(trace: seq<Served>, logs: seq<Logs>, windows: string -> int, n: nat)
    requires IsRun(trace, logs) && InTime(trace) && OneWindow(trace, windows) && n < |trace|
    requires forall i | 0 <= i < |trace[n].entries| :: trace[n].entries[i].mode == Add
    ensures trace[n].refused.None?
  {
    HistoryDecides(trace, logs, windows, n);
    assert forall i | 0 <= i < |trace[n].entries| :: !UsedUp(trace, n, i);
  }

  /** The backend on requests one at a time, from an empty store. */
  method ServeAll(reliable: bool, requests: seq<Request>, ghost windows: string -> int)
    returns (refused: seq<Option<string>>, ghost trace: seq<Served>)
    requires forall i, j | 0 <= i < j < |requests| :: requests[i].now <= requests[j].now
    requires forall i | 0 <= i < |requests| :: EntriesFit(requests[i].entries, windows)
    ensures |refused| == |trace| == |requests|
    ensures forall n | 0 <= n < |requests| ::
      trace[n].now == requests[n].now && trace[n].entries == requests[n].entries && trace[n].refused == refused[n]
    ensures forall n | 0 <= n < |requests| :: AnsweredByHistory(trace, n)
    ensures reliable ==> forall n | 0 <= n < |requests| :: AllMarked(trace[n].read) && AllMarked(trace[n].stored)
  {
    var backend := new LocalBackend(reliable);
    refused, trace := [], [];
    ghost var logs: seq<Logs> := [backend.Logs()];
    for n := 0 to |requests|
      invariant fresh(backend) && backend.reliable == reliable
      invariant |refused| == |trace| == n && |logs| == n + 1 && logs[n] == backend.Logs()
      invariant IsRun(trace, logs)
      invariant forall m | 0 <= m < n ::
        trace[m].now == requests[m].now && trace[m].entries == requests[m].entries && trace[m].refused == refused[m]
      invariant reliable ==> forall m | 0 <= m < n :: AllMarked(trace[m].read) && AllMarked(trace[m].stored)
    {
      var r, read, stored := backend.BatchEval(requests[n].now, requests[n].entries);
      var answer := if r.Limited? then Some(r.key) else None;
      ghost var s := Served(requests[n].now, requests[n].entries, answer, read, stored);
      RunSnoc(trace, logs, s, backend.Logs());
      refused, trace, logs := refused + [answer], trace + [s], logs + [backend.Logs()];
    }
    forall n | 0 <= n < |requests|
      ensures AnsweredByHistory(trace, n)
    {
      HistoryDecides(trace, logs, windows, n);
    }
  }

  lemma RunSnoc(trace: seq<Served>, logs: seq<Logs>, s: Served, after: Logs)
    requires IsRun(trace, logs) && Batch(logs[|trace|], s, after)
    ensures IsRun(trace + [s], logs + [after])
  {
    SameRun(trace, logs, s, after, |trace|);
  }

  lemma {:induction false} SameRun(trace: seq<Served>, logs: seq<Logs>, s: Served, after: Logs, n: nat)
    requires |logs| == |trace| + 1 && n <= |trace| && RunsTo(trace, logs, n)
    ensures RunsTo(trace + [s], logs + [after], n)
  {
    if n > 0 {
      SameRun(trace, logs, s, after, n - 1);
      assert (trace + [s])[n - 1] == trace[n - 1];
      assert (logs + [after])[n - 1] == logs[n - 1] && (logs + [after])[n] == logs[n];
    }
  }

  // ----- token limits -----

  lemma {:induction false} UsedAppend(a: seq<WindowEntry>, b: seq<WindowEntry>, lo: int, hi: int)
    ensures Used(a + b, lo, hi) == Used(a, lo, hi) + Used(b, lo, hi)
  {
    if b == [] {
      assert a + b == a;
    } else {
      var n := |b| - 1;
      UsedAppend(a, b[..n], lo, hi);
      assert (a + b)[..|a + b| - 1] == a + b[..n];
    }
  }

  lemma Regroup(x: seq<WindowEntry>, y: seq<WindowEntry>, z: seq<WindowEntry>)
    ensures x + (y + z) == (x + y) + z
  {
  }

  predicate NoneNegative(es: seq<WindowEntry>) {
    forall i | 0 <= i < |es| :: 0 <= es[i].count
  }

  /** Later windows hold no more of what was recorded by `now`. */
  lemma {:induction false} UsedShrinks(es: seq<WindowEntry>, window: int, now: int, t: int)
    requires NoneAfter(es, now) && NoneNegative(es) && now <= t
    ensures Used(es, t - window, t) <= Used(es, now - window, now)
  {
    if es != [] {
      UsedShrinks(es[..|es| - 1], window, now, t);
    }
  }

  lemma {:induction false} HistoryParts(trace: seq<Served>, n: nat, k: nat, key: string)
    requires n <= k <= |trace|
    ensures History(trace, 0, k, key) == History(trace, 0, n, key) + History(trace, n, k, key)
    decreases k
  {
    if n < k {
      HistoryParts(trace, n, k - 1, key);
      Regroup(History(trace, 0, n, key), History(trace, n, k - 1, key), RecordedBy(trace[k - 1], key));
    }
  }

  /** Batch `n` passed a check of `key` that could be read. */
  ghost predicate LetThrough(trace: seq<Served>, n: nat, key: string, window: int, quota: int)
    requires n < |trace|
  {
    var s := trace[n];
    && s.refused.None? && |s.read| == |s.entries|
    && exists i | 0 <= i < |s.entries| ::
         && s.read[i] && (s.entries[i].mode == Check || s.entries[i].mode == CheckAndAdd)
         && s.entries[i].key == key && s.entries[i].window == window && s.entries[i].quota == quota
  }

  lemma LetThroughHadRoom(trace: seq<Served>, logs: seq<Logs>, windows: string -> int, n: nat, key: string,
                          window: int, quota: int)
    requires IsRun(trace, logs) && InTime(trace) && OneWindow(trace, windows)
    requires n < |trace| && LetThrough(trace, n, key, window, quota)
    ensures Used(History(trace, 0, n, key), trace[n].now - window, trace[n].now) < quota
  {
    var s := trace[n];
    HistoryDecides(trace, logs, windows, n);
    var i :| 0 <= i < |s.entries| && s.read[i] && (s.entries[i].mode == Check || s.entries[i].mode == CheckAndAdd)
             && s.entries[i].key == key && s.entries[i].window == window && s.entries[i].quota == quota;
    assert !UsedUp(trace, n, i);
  }

  /** TOKEN BUDGET. If batch `n` was let through by a check of `key`, then in every later window
      the tokens are fewer than the quota plus what was reported since that check. */
  lemma TokenBudget(trace: seq<Served>, logs: seq<Logs>, windows: string -> int, n: nat, key: string, window: int,
                    quota: int, k: nat, t: int)
    requires IsRun(trace, logs) && InTime(trace) && OneWindow(trace, windows)
    requires n < k <= |trace| && LetThrough(trace, n, key, window, quota) && trace[n].now <= t
    requires NoneNegative(History(trace, 0, n, key))
    ensures Used(History(trace, 0, k, key), t - window, t) < quota + Used(History(trace, n, k, key), t - window, t)
  {
    LetThroughHadRoom(trace, logs, windows, n, key, window, quota);
    HistoryBefore(trace, n, key, trace[n].now);
    BudgetAfter(trace, n, key, window, quota, k, t);
  }

  lemma BudgetAfter(trace: seq<Served>, n: nat, key: string, window: int, quota: int, k: nat, t: int)
    requires n < k <= |trace| && trace[n].now <= t
    requires NoneAfter(History(trace, 0, n, key), trace[n].now) && NoneNegative(History(trace, 0, n, key))
    requires Used(History(trace, 0, n, key), trace[n].now - window, trace[n].now) < quota
    ensures Used(History(trace, 0, k, key), t - window, t) < quota + Used(History(trace, n, k, key), t - window, t)
  {
    HistoryParts(trace, n, k, key);
    BudgetLeft(History(trace, 0, n, key), History(trace, n, k, key), window, trace[n].now, t, quota);
  }

  lemma BudgetLeft(before: seq<WindowEntry>, since: seq<WindowEntry>, window: int, now: int, t: int, quota: int)
    requires NoneAfter(before, now) && NoneNegative(before) && now <= t
    requires Used(before, now - window, now) < quota
    ensures Used(before + since, t - window, t) < quota + Used(since, t - window, t)
  {
    UsedAppend(before, since, t - window, t);
    UsedShrinks(before, window, now, t);
  }
}
