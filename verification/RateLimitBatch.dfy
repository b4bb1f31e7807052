/** BatchEval of the local backend: a check pass over all entries, then a write pass, and the
    guarantee that gives when requests come one at a time. */
module RateLimitBatch {
  import opened Bytes
  import opened RateLimit

  datatype Mode = CheckAndAdd | Check | Add

  datatype LimitEntry = LimitEntry(key: string, window: int64, quota: int, mode: Mode, count: int64)

  datatype EvalResult = Success | Limited(key: string)

  type Logs = map<string, seq<WindowEntry>>

  function LogOf(logs: Logs, key: string): seq<WindowEntry> {
    if key in logs then logs[key] else []
  }

  predicate OverQuota(logs: Logs, now: int, e: LimitEntry) {
    e.mode != Add && Total(LogOf(logs, e.key), now - e.window) >= e.quota
  }

  /** The write pass. */
  function Written(logs: Logs, now: int64, entries: seq<LimitEntry>): Logs {
    if entries == [] then logs
    else
      var e := entries[|entries| - 1];
      var before := Written(logs, now, entries[..|entries| - 1]);
      if e.mode == Check then before
      else before[e.key := Appended(LogOf(before, e.key), e.window, WindowEntry(now, e.count))]
  }

  predicate AllPass(logs: Logs, now: int, entries: seq<LimitEntry>) {
    forall i | 0 <= i < |entries| :: !OverQuota(logs, now, entries[i])
  }

  /** All or nothing: one entry over its quota and nothing is written. */
  function Evaluated(logs: Logs, now: int64, entries: seq<LimitEntry>): Logs {
    if AllPass(logs, now, entries) then Written(logs, now, entries) else logs
  }

  /** The entries at the marked positions. */
  function Marked(entries: seq<LimitEntry>, marks: seq<bool>): seq<LimitEntry>
    requires |entries| == |marks|
  {
    if entries == [] then []
    else
      var n := |entries| - 1;
      Marked(entries[..n], marks[..n]) + if marks[n] then [entries[n]] else []
  }

  predicate AllMarked(marks: seq<bool>) {
    forall i | 0 <= i < |marks| :: marks[i]
  }

  lemma {:induction false} AllAreMarked(entries: seq<LimitEntry>, marks: seq<bool>)
    requires |entries| == |marks| && AllMarked(marks)
    ensures Marked(entries, marks) == entries
  {
    if entries != [] {
      var n := |entries| - 1;
      AllAreMarked(entries[..n], marks[..n]);
      assert entries == entries[..n] + [entries[n]];
    }
  }

  lemma MarkedSnoc(entries: seq<LimitEntry>, marks: seq<bool>, e: LimitEntry, mark: bool)
    requires |entries| == |marks|
    ensures Marked(entries + [e], marks + [mark]) == Marked(entries, marks) + if mark then [e] else []
  {
    assert (entries + [e])[..|entries|] == entries && (marks + [mark])[..|marks|] == marks;
  }

  lemma WrittenOne(logs: Logs, now: int64, entries: seq<LimitEntry>, e: LimitEntry)
    ensures var before := Written(logs, now, entries);
      Written(logs, now, entries + [e]) ==
        if e.mode == Check then before
        else before[e.key := Appended(LogOf(before, e.key), e.window, WindowEntry(now, e.count))]
  {
    assert (entries + [e])[..|entries|] == entries;
  }

  lemma WriteStep(logs: Logs, now: int64, entries: seq<LimitEntry>, i: nat, stored: seq<bool>, ok: bool)
    requires i == |stored| < |entries|
    ensures var e, before := entries[i], Written(logs, now, Marked(entries[..i], stored));
      Written(logs, now, Marked(entries[..i + 1], stored + [ok])) ==
        if !ok || e.mode == Check then before
        else before[e.key := Appended(LogOf(before, e.key), e.window, WindowEntry(now, e.count))]
  {
    var front := Marked(entries[..i], stored);
    assert entries[..i + 1] == entries[..i] + [entries[i]];
    MarkedSnoc(entries[..i], stored, entries[i], ok);
    WrittenOne(logs, now, front, entries[i]);
    assert front + [] == front;
  }

  /** Entry `i` is over its quota, and every one before it that was read is not. */
  predicate OverAt(logs: Logs, now: int, entries: seq<LimitEntry>, read: seq<bool>, i: nat) {
    && i < |entries| == |read| && read[i] && OverQuota(logs, now, entries[i])
    && forall j | 0 <= j < i && read[j] :: !OverQuota(logs, now, entries[j])
  }

  class LocalBackend {
    /** No host call fails. */
    const reliable: bool
    var store: map<string, seq<byte>>

    constructor (reliable: bool)
      ensures store == map[] && this.reliable == reliable
    {
      this.reliable, store := reliable, map[];
    }

    function Logs(): Logs
      reads this
    {
      map key | key in store :: Decoded(store[key])
    }

    method WindowTotal(key: string, now: int, window: int) returns (total: int, ok: bool)
      ensures ok ==> total == Total(LogOf(Logs(), key), now - window)
      ensures reliable ==> ok
    {
      var hostFails: bool := *;
      if hostFails && !reliable {
        return 0, false;
      }
      if key !in store {
        return 0, true;
      }
      total := LocalWindowTotal(store[key], now, window);
      ok := true;
    }

    /** localAddEntry when no other worker writes in between; RateLimitKey has the loop. */
    method AddEntry(key: string, now: int64, count: int64, window: int) returns (ok: bool)
      modifies this
      ensures ok ==>
        Logs() == old(Logs())[key := Appended(LogOf(old(Logs()), key), window, WindowEntry(now, count))]
      ensures !ok ==> Logs() == old(Logs())
      ensures reliable ==> ok
    {
      var hostFails: bool := *;
      if hostFails && !reliable {
        return false;
      }
      var data := if key in store then store[key] else [];
      assert Decoded(data) == LogOf(Logs(), key);
      var value := NewValue(data, now, count, window);
      LogRoundTrip(Appended(Decoded(data), window, WindowEntry(now, count)));
      store := store[key := value];
      ok := true;
    }

    /** The check pass: the first entry over its quota, in order, is the one reported; an entry
        whose log cannot be read is let through. */
    method CheckPass(now: int64, entries: seq<LimitEntry>) returns (r: EvalResult, ghost read: seq<bool>)
      ensures |read| == |entries| && (reliable ==> AllMarked(read))
      ensures r.Success? ==> forall i | 0 <= i < |entries| && read[i] :: !OverQuota(Logs(), now, entries[i])
      ensures r.Limited? ==> exists i | 0 <= i < |entries| ::
        entries[i].key == r.key && OverAt(Logs(), now, entries, read, i)
    {
      read := seq(|entries|, _ => true);
      for i := 0 to |entries|
        invariant |read| == |entries| && (reliable ==> AllMarked(read))
        invariant forall j | i <= j < |entries| :: read[j]
        invariant forall j | 0 <= j < i && read[j] :: !OverQuota(Logs(), now, entries[j])
      {
        var e := entries[i];
        if e.mode != Add {
          var total, ok := WindowTotal(e.key, now, e.window);
          if !ok {
            read := read[i := false];
          } else if total >= e.quota {
            assert OverAt(Logs(), now, entries, read, i);
            return Limited(e.key), read;
          }
        }
      }
      r := Success;
    }

    /** The write pass; an entry that cannot be stored is skipped. */
    method WritePass(now: int64, entries: seq<LimitEntry>) returns (ghost stored: seq<bool>)
      modifies this
      ensures |stored| == |entries| && (reliable ==> AllMarked(stored))
      ensures Logs() == Written(old(Logs()), now, Marked(entries, stored))
    {
      stored := [];
      for i := 0 to |entries|
        invariant |stored| == i && (reliable ==> AllMarked(stored))
        invariant Logs() == Written(old(Logs()), now, Marked(entries[..i], stored))
      {
        var e := entries[i];
        var ok := true;
        if e.mode != Check {
          ok := AddEntry(e.key, now, e.count, e.window);
        }
        WriteStep(old(Logs()), now, entries, i, stored, ok);
        stored := stored + [ok];
      }
      assert entries[..|entries|] == entries;
    }

    /** All or nothing, up to host errors: refused for an entry that is over its quota, and then
        nothing is written; or every entry that could be read has room, and every add that could
        be stored is. When no host call fails, that is Evaluated. */
    method BatchEval(now: int64, entries: seq<LimitEntry>)
      returns (r: EvalResult, ghost read: seq<bool>, ghost stored: seq<bool>)
      modifies this
      ensures |read| == |stored| == |entries| && (reliable ==> AllMarked(read) && AllMarked(stored))
      ensures r.Success? ==> Logs() == Written(old(Logs()), now, Marked(entries, stored))
      ensures r.Success? ==> forall i | 0 <= i < |entries| && read[i] :: !OverQuota(old(Logs()), now, entries[i])
      ensures r.Limited? ==> Logs() == old(Logs())
      ensures r.Limited? ==>
        exists i | 0 <= i < |entries| :: entries[i].key == r.key && OverAt(old(Logs()), now, entries, read, i)
      ensures reliable ==> Logs() == Evaluated(old(Logs()), now, entries)
      ensures reliable ==> (r.Success? <==> AllPass(old(Logs()), now, entries))
    {
      r, read := CheckPass(now, entries);
      stored := read;
      if r.Success? {
        stored := WritePass(now, entries);
        if reliable {
          AllAreMarked(entries, stored);
        }
      }
    }
  }

  // ----- requests one at a time -----

  datatype Request = Request(now: int64, entries: seq<LimitEntry>)

  function LogsAfter(requests: seq<Request>): Logs {
    if requests == [] then map[]
    else
      var last := requests[|requests| - 1];
      Evaluated(LogsAfter(requests[..|requests| - 1]), last.now, last.entries)
  }

  /** What the write pass adds under `key`. */
  function Adds(entries: seq<LimitEntry>, now: int64, key: string): seq<WindowEntry> {
    if entries == [] then []
    else
      var e := entries[|entries| - 1];
      var before := Adds(entries[..|entries| - 1], now, key);
      if e.key == key && e.mode != Check then before + [WindowEntry(now, e.count)] else before
  }

  /** Everything ever admitted under `key`, pruned by nobody. */
  function Recorded(requests: seq<Request>, key: string): seq<WindowEntry> {
    if requests == [] then []
    else
      var before, last := requests[..|requests| - 1], requests[|requests| - 1];
      Recorded(before, key)
      + if AllPass(LogsAfter(before), last.now, last.entries) then Adds(last.entries, last.now, key) else []
  }

  /** `key` is a request limit: one check_and_add entry of count 1 per request, always with
      the same window and quota. */
  predicate QueryLimit(entries: seq<LimitEntry>, key: string, window: int, quota: int) {
    && (forall e <- entries ::
          e.key == key ==> e.mode == CheckAndAdd && e.count == 1 && e.window == window && e.quota == quota)
    && (forall i, j | 0 <= i < j < |entries| :: !(entries[i].key == key && entries[j].key == key))
  }

  predicate InOrder(requests: seq<Request>) {
    forall i, j | 0 <= i < j < |requests| :: requests[i].now <= requests[j].now
  }

  /** How many entries fall in (lo, hi]. */
  function InWindow(es: seq<WindowEntry>, lo: int, hi: int): nat {
    if es == [] then 0
    else
      InWindow(es[..|es| - 1], lo, hi) + if lo < es[|es| - 1].timestamp <= hi then 1 else 0
  }

  predicate Units(es: seq<WindowEntry>, now: int) {
    forall e <- es :: e.count == 1 && e.timestamp <= now
  }

  lemma WrittenSnoc(logs: Logs, now: int64, entries: seq<LimitEntry>, key: string)
    requires entries != []
    ensures var e, before := entries[|entries| - 1], LogOf(Written(logs, now, entries[..|entries| - 1]), key);
      LogOf(Written(logs, now, entries), key)
      == if e.key == key && e.mode != Check then Appended(before, e.window, WindowEntry(now, e.count)) else before
  {
  }

  lemma {:induction false} WrittenAt(logs: Logs, now: int64, entries: seq<LimitEntry>, key: string, window: int,
                                     past: seq<WindowEntry>)
    requires forall i | 0 <= i < |entries| :: entries[i].key == key ==> entries[i].window == window
    requires LogOf(logs, key) == Stored(window, past)
    ensures LogOf(Written(logs, now, entries), key) == Stored(window, past + Adds(entries, now, key))
  {
    if entries == [] {
      assert past + [] == past;
    } else {
      var n := |entries| - 1;
      var added, last := Adds(entries[..n], now, key), WindowEntry(now, entries[n].count);
      WrittenAt(logs, now, entries[..n], key, window, past);
      WrittenSnoc(logs, now, entries, key);
      StoredSnoc(window, past + added, last);
      AddedBehind(past, added, last);
    }
  }

  lemma AddedBehind(past: seq<WindowEntry>, added: seq<WindowEntry>, last: WindowEntry)
    ensures past + (added + [last]) == past + added + [last]
  {
  }

  lemma StoredSnoc(window: int, es: seq<WindowEntry>, e: WindowEntry)
    ensures Stored(window, es + [e]) == Appended(Stored(window, es), window, e)
  {
    assert (es + [e])[..|es|] == es;
  }

  lemma {:induction false} AddsNothing(entries: seq<LimitEntry>, now: int64, key: string)
    requires forall e <- entries :: e.key != key
    ensures Adds(entries, now, key) == []
  {
    if entries != [] {
      assert entries[|entries| - 1] in entries;
      AddsNothing(entries[..|entries| - 1], now, key);
    }
  }

  /** At most one unit per request, and only under a key the request names. */
  lemma {:induction false} AddsOne(entries: seq<LimitEntry>, now: int64, key: string, window: int, quota: int)
    requires QueryLimit(entries, key, window, quota) && Adds(entries, now, key) != []
    ensures Adds(entries, now, key) == [WindowEntry(now, 1)] && exists e <- entries :: e.key == key
  {
    var n := |entries| - 1;
    assert entries[n] in entries;
    if entries[n].key == key {
      forall e | e in entries[..n]
        ensures e.key != key
      {
        var i :| 0 <= i < n && entries[i] == e;
      }
      AddsNothing(entries[..n], now, key);
    } else {
      AddsOne(entries[..n], now, key, window, quota);
    }
  }

  predicate QueryLimits(requests: seq<Request>, key: string, window: int, quota: int) {
    forall r <- requests :: QueryLimit(r.entries, key, window, quota)
  }

  lemma QueryLimitsSplit(requests: seq<Request>, key: string, window: int, quota: int)
    requires requests != [] && QueryLimits(requests, key, window, quota)
    ensures QueryLimit(requests[|requests| - 1].entries, key, window, quota)
    ensures QueryLimits(requests[..|requests| - 1], key, window, quota)
  {
    assert requests[|requests| - 1] in requests;
    assert forall r <- requests[..|requests| - 1] :: r in requests;
  }

  lemma RecordedUnfolds(requests: seq<Request>, key: string)
    requires requests != []
    ensures var before, last := requests[..|requests| - 1], requests[|requests| - 1];
      if AllPass(LogsAfter(before), last.now, last.entries) then
        && Recorded(requests, key) == Recorded(before, key) + Adds(last.entries, last.now, key)
        && LogsAfter(requests) == Written(LogsAfter(before), last.now, last.entries)
      else
        Recorded(requests, key) == Recorded(before, key) && LogsAfter(requests) == LogsAfter(before)
  {
    assert Recorded(requests[..|requests| - 1], key) + [] == Recorded(requests[..|requests| - 1], key);
  }

  /** The stored log is the pruned form of everything recorded. */
  lemma {:induction false} LogIsStored(requests: seq<Request>, key: string, window: int, quota: int)
    requires QueryLimits(requests, key, window, quota)
    ensures LogOf(LogsAfter(requests), key) == Stored(window, Recorded(requests, key))
  {
    if requests != [] {
      var before, last := requests[..|requests| - 1], requests[|requests| - 1];
      QueryLimitsSplit(requests, key, window, quota);
      LogIsStored(before, key, window, quota);
      RecordedUnfolds(requests, key);
      assert forall i | 0 <= i < |last.entries| :: last.entries[i] in last.entries;
      WrittenAt(LogsAfter(before), last.now, last.entries, key, window, Recorded(before, key));
    }
  }

  lemma {:induction false} UnitTotal(es: seq<WindowEntry>, lo: int, hi: int)
    requires Units(es, hi)
    ensures Total(es, lo) == InWindow(es, lo, hi)
  {
    if es != [] {
      assert es[|es| - 1] in es;
      UnitTotal(es[..|es| - 1], lo, hi);
    }
  }

  lemma {:induction false} InWindowShrinks(es: seq<WindowEntry>, lo: int, hi: int, now: int, t: int)
    requires Units(es, now) && now <= t && hi == now && lo <= hi
    ensures InWindow(es, lo + (t - now), t) <= InWindow(es, lo, hi)
  {
    if es != [] {
      assert es[|es| - 1] in es;
      InWindowShrinks(es[..|es| - 1], lo, hi, now, t);
    }
  }

  lemma InWindowSnoc(es: seq<WindowEntry>, e: WindowEntry, lo: int, hi: int)
    ensures InWindow(es + [e], lo, hi) == InWindow(es, lo, hi) + if lo < e.timestamp <= hi then 1 else 0
  {
    assert (es + [e])[..|es|] == es;
  }

  /** Nothing was recorded, or one unit while fewer than `quota` were in its window. */
  predicate Grew(before: seq<WindowEntry>, after: seq<WindowEntry>, now: int64, window: int, quota: int) {
    || after == before
    || (after == before + [WindowEntry(now, 1)] && Total(Stored(window, before), now - window) < quota)
  }

  lemma NamedKeyHasRoom(logs: Logs, now: int64, entries: seq<LimitEntry>, key: string, window: int, quota: int)
    requires QueryLimit(entries, key, window, quota) && AllPass(logs, now, entries)
    requires exists e <- entries :: e.key == key
    ensures Total(LogOf(logs, key), now - window) < quota
  {
    var i :| 0 <= i < |entries| && entries[i].key == key;
    assert entries[i] in entries && !OverQuota(logs, now, entries[i]);
  }

  /** A batch that passes had room under every key it adds to. */
  lemma PassingGrows(logs: Logs, before: seq<WindowEntry>, now: int64, entries: seq<LimitEntry>, key: string,
                     window: int, quota: int)
    requires QueryLimit(entries, key, window, quota) && AllPass(logs, now, entries)
    requires LogOf(logs, key) == Stored(window, before)
    ensures Grew(before, before + Adds(entries, now, key), now, window, quota)
  {
    if Adds(entries, now, key) == [] {
      assert before + [] == before;
    } else {
      AddsOne(entries, now, key, window, quota);
      NamedKeyHasRoom(logs, now, entries, key, window, quota);
    }
  }

  lemma LastRecord(requests: seq<Request>, key: string, window: int, quota: int)
    requires requests != [] && QueryLimits(requests, key, window, quota)
    ensures Grew(Recorded(requests[..|requests| - 1], key), Recorded(requests, key), requests[|requests| - 1].now,
                 window, quota)
  {
    var earlier, last := requests[..|requests| - 1], requests[|requests| - 1];
    QueryLimitsSplit(requests, key, window, quota);
    RecordedUnfolds(requests, key);
    if AllPass(LogsAfter(earlier), last.now, last.entries) {
      LogIsStored(earlier, key, window, quota);
      PassingGrows(LogsAfter(earlier), Recorded(earlier, key), last.now, last.entries, key, window, quota);
    }
  }

  lemma {:induction false} RecordedUnits(requests: seq<Request>, key: string, window: int, quota: int, now: int)
    requires InOrder(requests) && QueryLimits(requests, key, window, quota)
    requires requests != [] ==> requests[|requests| - 1].now <= now
    ensures Units(Recorded(requests, key), now)
  {
    if requests != [] {
      var n := |requests| - 1;
      QueryLimitsSplit(requests, key, window, quota);
      RecordedUnits(requests[..n], key, window, quota, now);
      LastRecord(requests, key, window, quota);
    }
  }

  /** What the check saw, counted in the complete history. */
  lemma RoomInHistory(before: seq<WindowEntry>, now: int64, window: nat, quota: nat)
    requires Units(before, now) && Total(Stored(window, before), now - window) < quota
    ensures InWindow(before, now - window, now) < quota
  {
    UnitsNoneAfter(before, now);
    PrunedLogRefinesFullLog(window, before, now);
    UnitTotal(before, now - window, now);
  }

  /** One more admission keeps every window within the quota. */
  lemma AdmissionFits(before: seq<WindowEntry>, now: int64, window: nat, quota: nat, t: int)
    requires Units(before, now) && InWindow(before, now - window, now) < quota
    requires InWindow(before, t - window, t) <= quota
    ensures InWindow(before + [WindowEntry(now, 1)], t - window, t) <= quota
  {
    InWindowSnoc(before, WindowEntry(now, 1), t - window, t);
    if now <= t {
      InWindowShrinks(before, now - window, now, now, t);
    }
  }

  lemma GrowthKeepsBound(before: seq<WindowEntry>, after: seq<WindowEntry>, now: int64, window: nat, quota: nat, t: int)
    requires Grew(before, after, now, window, quota) && Units(before, now)
    requires InWindow(before, t - window, t) <= quota
    ensures InWindow(after, t - window, t) <= quota
  {
    if after != before {
      RoomInHistory(before, now, window, quota);
      AdmissionFits(before, now, window, quota, t);
    }
  }

  /** RATE BOUND. When time does not run backwards and requests are evaluated one at a time,
      no window (t - W, t], past or present, holds more than `quota` recorded admissions. */
  lemma {:induction false} SequentialBound(requests: seq<Request>, key: string, window: nat, quota: nat, t: int)
    requires InOrder(requests) && QueryLimits(requests, key, window, quota)
    ensures InWindow(Recorded(requests, key), t - window, t) <= quota
  {
    if requests != [] {
      var n := |requests| - 1;
      QueryLimitsSplit(requests, key, window, quota);
      SequentialBound(requests[..n], key, window, quota, t);
      RecordedUnits(requests[..n], key, window, quota, requests[n].now);
      LastRecord(requests, key, window, quota);
      GrowthKeepsBound(Recorded(requests[..n], key), Recorded(requests, key), requests[n].now, window, quota, t);
    }
  }

  lemma UnitsNoneAfter(es: seq<WindowEntry>, now: int)
    requires Units(es, now)
    ensures NoneAfter(es, now)
  {
    forall i | 0 <= i < |es|
      ensures es[i].timestamp <= now
    {
      assert es[i] in es;
    }
  }
}
