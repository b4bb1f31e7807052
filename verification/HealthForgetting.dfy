/** When forgetting matters: the exact condition on the times of the reports under which the
    two health stores publish the same verdicts. */
module HealthForgetting {
  import opened Health
  import opened HealthStores
  import opened Wrappers

  /** How long redis keeps a record nobody writes. */
  function Lifetime(w: Windows): nat {
    HealthTTLSeconds(w) * 1000
  }

  /** The time of the last success or failure. */
  function LastReport(ops: seq<Op>): Option<int> {
    if ops == [] then None
    else if ops[|ops| - 1].Look? then LastReport(ops[..|ops| - 1])
    else Some(Last(ops))
  }

  /** Consecutive reports lie less than `d` milliseconds apart; reads do not count. */
  predicate Steady(ops: seq<Op>, d: int) {
    ops == [] ||
    var before := ops[..|ops| - 1];
    && Steady(before, d)
    && (!ops[|ops| - 1].Look? && LastReport(before).Some? ==> Last(ops) - LastReport(before).value < d)
  }

  predicate SameVerdict(w: Windows, ops: seq<Op>, now: int) {
    Judge(SharedRun(w, ops), now) == Judge(RedisRun(w, ops).Read(now), now)
  }

  predicate SameCount(w: Windows, ops: seq<Op>, now: int) {
    SharedRun(w, ops).fails == RedisRun(w, ops).Read(now).fails
  }

  /** The last report is less than `d` milliseconds old. */
  predicate RecentReport(ops: seq<Op>, d: int, now: int) {
    LastReport(ops).Some? ==> now - LastReport(ops).value < d
  }

  // ----- nothing is forgotten between steady reports -----

  predicate SameDeadlines(h: Health, g: Health, now: int) {
    || (g.ejectedUntil == h.ejectedUntil && g.rampUntil == h.rampUntil)
    || (g.ejectedUntil == g.rampUntil == 0 && h.ejectedUntil <= now && h.rampUntil <= now)
  }

  /** The records agree, and a hash with a count lives a full lifetime from the last report. */
  predicate InStep(w: Windows, h: Health, hash: Hash, last: Option<int>, now: int) {
    match hash
    case Missing => h == CLEAN
    case Hash(g, expireAt) =>
      && g.fails == h.fails && SameDeadlines(h, g, now)
      && (h.fails > 0 ==> last.Some? && expireAt == last.value + Lifetime(w))
  }

  lemma StepInStep(w: Windows, h: Health, hash: Hash, last: Option<int>, now: int, op: Op)
    requires InStep(w, h, hash, last, now) && TTLOk(w, hash, now) && 0 <= now <= op.now
    requires h.fails > 0 && !op.Look? ==> last.Some? && op.now < last.value + Lifetime(w)
    ensures InStep(w, SharedDo(w, h, op), RedisDo(w, hash, op), if op.Look? then last else Some(op.now), op.now)
  {
    match op
    case Look(_) =>
    case Succeeded(_) =>
    case Failed(_, _) =>
  }

  lemma {:induction false} FailsBelow(w: Windows, ops: seq<Op>)
    requires w.Valid()
    ensures SharedRun(w, ops).fails < w.unhealthyThreshold
  {
    if ops != [] {
      FailsBelow(w, ops[..|ops| - 1]);
    }
  }

  lemma OpsSplit(ops: seq<Op>, d: int)
    requires InOrder(ops) && Steady(ops, d) && ops != []
    ensures InOrder(ops[..|ops| - 1]) && Steady(ops[..|ops| - 1], d) && 0 <= Last(ops)
    ensures |ops| > 1 ==> 0 <= Last(ops[..|ops| - 1]) <= Last(ops)
  {
  }

  /** The time of the last operation, or 0. */
  function End(ops: seq<Op>): int {
    if ops == [] then 0 else Last(ops)
  }

  lemma {:induction false} StaysInStep(w: Windows, ops: seq<Op>, d: int)
    requires w.Valid() && InOrder(ops) && Steady(ops, d) && (d <= Lifetime(w) || w.unhealthyThreshold == 1)
    ensures InStep(w, SharedRun(w, ops), RedisRun(w, ops), LastReport(ops), End(ops))
  {
    if ops != [] {
      var before := ops[..|ops| - 1];
      OpsSplit(ops, d);
      StaysInStep(w, before, d);
      FailsBelow(w, before);
      RunsAgree(w, before, End(before));
      StepInStep(w, SharedRun(w, before), RedisRun(w, before), LastReport(before), End(before), ops[|ops| - 1]);
    }
  }

  lemma InStepVerdict(w: Windows, h: Health, hash: Hash, last: Option<int>, now: int, later: int)
    requires InStep(w, h, hash, last, now) && TTLOk(w, hash, now) && 0 <= now <= later
    ensures Judge(h, later) == Judge(hash.Read(later), later)
    ensures (h.fails > 0 ==> later < last.value + Lifetime(w)) ==> hash.Read(later).fails == h.fails
  {
  }

  /** Steady reports keep the records in step: the same verdict at every later moment, and the
      same count until the last report has aged out too. */
  lemma RecordsAgree(w: Windows, ops: seq<Op>, d: int, now: int)
    requires w.Valid() && InOrder(ops) && Steady(ops, d) && End(ops) <= now
    requires d <= Lifetime(w) || w.unhealthyThreshold == 1
    ensures SameVerdict(w, ops, now)
    ensures RecentReport(ops, d, now) ==> SameCount(w, ops, now)
  {
    StaysInStep(w, ops, d);
    FailsBelow(w, ops);
    EndIsNotNegative(ops);
    RunsAgree(w, ops, End(ops));
    InStepVerdict(w, SharedRun(w, ops), RedisRun(w, ops), LastReport(ops), End(ops), now);
  }

  lemma EndIsNotNegative(ops: seq<Op>)
    requires InOrder(ops)
    ensures 0 <= End(ops)
  {
  }

  // ----- windows of no length -----

  lemma {:induction false} SharedStamps(w: Windows, ops: seq<Op>)
    requires InOrder(ops)
    ensures var h := SharedRun(w, ops); h.ejectedUntil <= h.rampUntil <= End(ops) + w.cooldownMs + w.rampMs
  {
    if ops != [] {
      SharedStamps(w, ops[..|ops| - 1]);
    }
  }

  lemma NothingToPublish(w: Windows, ops: seq<Op>, now: int)
    requires InOrder(ops) && End(ops) <= now && w.cooldownMs + w.rampMs == 0
    ensures SameVerdict(w, ops, now)
  {
    EndIsNotNegative(ops);
    SharedStamps(w, ops);
    RunsAgree(w, ops, now);
  }

  // ----- a lifetime of silence -----

  lemma OneMoreFailure(w: Windows, before: seq<Op>, now: int, d: int)
    requires InOrder(before) && Steady(before, d) && 0 <= End(before) <= now
    requires LastReport(before).Some? ==> now - LastReport(before).value < d
    ensures var op := Failed(false, now);
      var ops := before + [op];
      && InOrder(ops) && Steady(ops, d) && End(ops) == now && LastReport(ops) == Some(now)
      && SharedRun(w, ops) == SharedDo(w, SharedRun(w, before), op)
      && RedisRun(w, ops) == RedisDo(w, RedisRun(w, before), op)
  {
    var ops := before + [Failed(false, now)];
    assert ops[..|ops| - 1] == before;
  }

  /** The records after `k` failures at instant 0 that did not eject. */
  predicate Counted(w: Windows, ops: seq<Op>, d: int, k: nat) {
    && InOrder(ops) && Steady(ops, d) && End(ops) == 0 && LastReport(ops) == (if k == 0 then None else Some(0))
    && SharedRun(w, ops) == Health(k, 0, 0)
    && RedisRun(w, ops) == (if k == 0 then Missing else Hash(Health(k, 0, 0), Lifetime(w)))
  }

  lemma CountOne(w: Windows, hash: Hash, k: nat)
    requires k + 1 < w.unhealthyThreshold && hash == if k == 0 then Missing else Hash(Health(k, 0, 0), Lifetime(w))
    ensures SharedDo(w, Health(k, 0, 0), Failed(false, 0)) == Health(k + 1, 0, 0)
    ensures RedisDo(w, hash, Failed(false, 0)) == Hash(Health(k + 1, 0, 0), Lifetime(w))
  {
  }

  lemma CountOneMore(w: Windows, ops: seq<Op>, d: int, k: nat)
    requires Counted(w, ops, d, k) && k + 1 < w.unhealthyThreshold && 0 < d
    ensures Counted(w, ops + [Failed(false, 0)], d, k + 1)
  {
    OneMoreFailure(w, ops, 0, d);
    CountOne(w, RedisRun(w, ops), k);
  }

  lemma {:induction false} FailuresAtZero(w: Windows, k: nat, d: int) returns (ops: seq<Op>)
    requires k < w.unhealthyThreshold && 0 < d
    ensures Counted(w, ops, d, k)
  {
    if k == 0 {
      return [];
    }
    var before := FailuresAtZero(w, k - 1, d);
    CountOneMore(w, before, d, k - 1);
    ops := before + [Failed(false, 0)];
  }

  lemma LateFailure(w: Windows, k: nat)
    requires k + 1 == w.unhealthyThreshold && 0 < k && 0 < w.cooldownMs + w.rampMs
    ensures var op := Failed(false, Lifetime(w));
      && Judge(SharedDo(w, Health(k, 0, 0), op), op.now) != Normal
      && Judge(RedisDo(w, Hash(Health(k, 0, 0), Lifetime(w)), op).Read(op.now), op.now) == Normal
  {
  }

  /** One failure short of an ejection, a lifetime of silence, and one failure more: shared
      data ejects, redis counts from one again. */
  lemma SilenceForgets(w: Windows, d: int) returns (ops: seq<Op>)
    requires Lifetime(w) < d && 2 <= w.unhealthyThreshold && 0 < w.cooldownMs + w.rampMs
    ensures InOrder(ops) && Steady(ops, d) && End(ops) == Lifetime(w) && !SameVerdict(w, ops, Lifetime(w))
  {
    var k := w.unhealthyThreshold - 1;
    var before := FailuresAtZero(w, k, d);
    OneMoreFailure(w, before, Lifetime(w), d);
    LateFailure(w, k);
    ops := before + [Failed(false, Lifetime(w))];
  }

  /** Every run of reports less than `d` apart, read at any moment from then on, gives the same
      verdict on both stores. */
  ghost predicate AlwaysSameVerdict(w: Windows, d: int) {
    forall ops, now | InOrder(ops) && Steady(ops, d) && End(ops) <= now :: SameVerdict(w, ops, now)
  }

  /** FORGETTING, EXACTLY. The stores publish the same verdicts for all reports less than `d`
      milliseconds apart if and only if `d` is no longer than the lifetime of the redis record,
      or every failure ejects, or an ejection has no length. */
  lemma VerdictsAlikeExactlyWhen(w: Windows, d: int)
    requires w.Valid()
    ensures AlwaysSameVerdict(w, d)
       <==> d <= Lifetime(w) || w.unhealthyThreshold == 1 || w.cooldownMs + w.rampMs == 0
  {
    if d <= Lifetime(w) || w.unhealthyThreshold == 1 || w.cooldownMs + w.rampMs == 0 {
      forall ops, now | InOrder(ops) && Steady(ops, d) && End(ops) <= now
        ensures SameVerdict(w, ops, now)
      {
        if w.cooldownMs + w.rampMs == 0 {
          NothingToPublish(w, ops, now);
        } else {
          RecordsAgree(w, ops, d, now);
        }
      }
    } else {
      var ops := SilenceForgets(w, d);
      assert !SameVerdict(w, ops, Lifetime(w));
    }
  }

  ghost predicate AlwaysSameCount(w: Windows, d: int) {
    forall ops, now | InOrder(ops) && Steady(ops, d) && End(ops) <= now && RecentReport(ops, d, now) ::
      SameCount(w, ops, now)
  }

  /** And the counts agree, up to `d` milliseconds after the last report, exactly when `d` is no
      longer than the lifetime or every failure ejects. */
  lemma CountsAlikeExactlyWhen(w: Windows, d: int)
    requires w.Valid()
    ensures AlwaysSameCount(w, d) <==> d <= Lifetime(w) || w.unhealthyThreshold == 1
  {
    if d <= Lifetime(w) || w.unhealthyThreshold == 1 {
      forall ops, now | InOrder(ops) && Steady(ops, d) && End(ops) <= now && RecentReport(ops, d, now)
        ensures SameCount(w, ops, now)
      {
        RecordsAgree(w, ops, d, now);
      }
    } else {
      var ops := FailuresAtZero(w, 1, d);
      assert !SameCount(w, ops, Lifetime(w));
    }
  }

  /** In numbers: while cooldown plus ramp stay below half an hour, an hour is the limit. */
  lemma AlikeForAnHour(w: Windows, d: int)
    requires w.Valid() && 0 < w.cooldownMs + w.rampMs < 1_800_000
    ensures AlwaysSameVerdict(w, d) <==> d <= 3_600_000 || w.unhealthyThreshold == 1
  {
    HealthTTLIs(w);
    VerdictsAlikeExactlyWhen(w, d);
  }
}
