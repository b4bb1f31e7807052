/** The health half of the two state stores. Redis keeps the record in a hash that expires;
    shared data keeps it forever. The verdict published from them is the same, except that
    redis forgets a failure count nobody touched for a whole TTL. */
module HealthStores {
  import opened Health

  const MIN_HEALTH_TTL_SECONDS: nat := 3600

  function HealthTTLSeconds(w: Windows): nat {
    var ttl := (w.cooldownMs + w.rampMs) * 2 / 1000;
    if ttl < MIN_HEALTH_TTL_SECONDS then MIN_HEALTH_TTL_SECONDS else ttl
  }

  datatype Hash = Missing | Hash(h: Health, expireAt: int)
  {
    predicate Expired(now: int) {
      Hash? && expireAt <= now
    }

    /** HMGET with the defaults of a missing field. */
    function Read(now: int): Health {
      if Hash? && !Expired(now) then h else CLEAN
    }
  }

  datatype Op = Succeeded(now: int) | Failed(probation: bool, now: int) | Look(now: int)

  function SharedDo(w: Windows, h: Health, op: Op): Health {
    match op
    case Succeeded(_) => Apply(w, h, Success)
    case Failed(probation, now) => Apply(w, h, Failure(probation, now))
    case Look(_) => h
  }

  /** The health part of the done script: success writes only over a non-zero count, failure
      increments, compares with the threshold and always refreshes the TTL. */
  function RedisDo(w: Windows, hash: Hash, op: Op): Hash {
    var v := hash.Read(op.now);
    var expireAt := op.now + HealthTTLSeconds(w) * 1000;
    match op
    case Succeeded(_) => if v.fails != 0 then Hash(v.(fails := 0), expireAt) else hash
    case Failed(probation, now) =>
      var f := v.fails + 1;
      if f >= Threshold(w, probation)
      then Hash(Health(0, now + w.cooldownMs, now + w.cooldownMs + w.rampMs), expireAt)
      else Hash(v.(fails := f), expireAt)
    case Look(_) => hash
  }

  /** What the candidate filter makes of a record. */
  datatype Verdict = Ejected | Recovering(left: int, window: int) | Normal

  function Judge(h: Health, now: int): Verdict {
    if now < h.ejectedUntil then Ejected
    else if h.rampUntil > h.ejectedUntil && now < h.rampUntil then
      Recovering(h.rampUntil - now, h.rampUntil - h.ejectedUntil)
    else Normal
  }

  function Last(ops: seq<Op>): int
    requires ops != []
  {
    ops[|ops| - 1].now
  }

  predicate InOrder(ops: seq<Op>) {
    && (forall i | 0 <= i < |ops| :: 0 <= ops[i].now)
    && (forall i, j | 0 <= i < j < |ops| :: ops[i].now <= ops[j].now)
  }

  function SharedRun(w: Windows, ops: seq<Op>): Health {
    if ops == [] then CLEAN else SharedDo(w, SharedRun(w, ops[..|ops| - 1]), ops[|ops| - 1])
  }

  function RedisRun(w: Windows, ops: seq<Op>): Hash {
    if ops == [] then Missing else RedisDo(w, RedisRun(w, ops[..|ops| - 1]), ops[|ops| - 1])
  }

  /** The shared-data record if it too forgot its count whenever the redis hash has expired. */
  function Forgetting(h: Health, hash: Hash, now: int): Health {
    if hash.Expired(now) then h.(fails := 0) else h
  }

  function ForgetfulRun(w: Windows, ops: seq<Op>): Health {
    if ops == [] then CLEAN
    else
      var before := ops[..|ops| - 1];
      SharedDo(w, Forgetting(ForgetfulRun(w, before), RedisRun(w, before), Last(ops)), ops[|ops| - 1])
  }

  // ----- agreement -----

  /** Equal counts, and equal deadlines unless redis dropped deadlines that have passed. */
  predicate Agree(h: Health, hash: Hash, now: int) {
    var v := hash.Read(now);
    && v.fails == h.fails
    && ((v.ejectedUntil == h.ejectedUntil && v.rampUntil == h.rampUntil)
        || (v.ejectedUntil == v.rampUntil == 0 && h.ejectedUntil <= now && h.rampUntil <= now))
  }

  /** Deadlines in the hash lie within its lifetime and were stamped no later than `now`. */
  predicate TTLOk(w: Windows, hash: Hash, now: int) {
    hash.Hash? ==>
      && hash.h.ejectedUntil <= hash.h.rampUntil <= hash.expireAt
      && hash.h.rampUntil <= now + w.cooldownMs + w.rampMs
  }

  lemma HealthTTLCovers(w: Windows)
    ensures w.cooldownMs + w.rampMs < HealthTTLSeconds(w) * 1000
  {
  }

  lemma StepAgrees(w: Windows, h: Health, hash: Hash, op: Op)
    requires Agree(h, hash, op.now) && TTLOk(w, hash, op.now) && 0 <= op.now
    ensures Agree(SharedDo(w, h, op), RedisDo(w, hash, op), op.now) && TTLOk(w, RedisDo(w, hash, op), op.now)
  {
    HealthTTLCovers(w);
  }

  lemma {:induction false} RunsAgree(w: Windows, ops: seq<Op>, now: int)
    requires InOrder(ops) && 0 <= now && (ops != [] ==> Last(ops) <= now)
    ensures TTLOk(w, RedisRun(w, ops), now)
    ensures Agree(Forgetting(ForgetfulRun(w, ops), RedisRun(w, ops), now), RedisRun(w, ops), now)
  {
    if ops != [] {
      var before := ops[..|ops| - 1];
      RunsAgree(w, before, Last(ops));
      StepAgrees(w, Forgetting(ForgetfulRun(w, before), RedisRun(w, before), Last(ops)), RedisRun(w, before),
                 ops[|ops| - 1]);
    }
  }

  /** EQUIVALENCE UP TO FORGETTING. After any reports in nondecreasing time the two stores
      publish the same verdict and hold the same count, once the count is taken to be
      forgotten whenever the hash has expired. */
  lemma VerdictsAgree(w: Windows, ops: seq<Op>, now: int)
    requires InOrder(ops) && 0 <= now && (ops != [] ==> Last(ops) <= now)
    ensures var h := Forgetting(ForgetfulRun(w, ops), RedisRun(w, ops), now);
      && Judge(RedisRun(w, ops).Read(now), now) == Judge(h, now)
      && RedisRun(w, ops).Read(now).fails == h.fails
  {
    RunsAgree(w, ops, now);
  }

  /** At no operation, and not at `now`, had the hash expired with a count still in it. */
  predicate NeverForgot(w: Windows, ops: seq<Op>, now: int) {
    var hash := RedisRun(w, ops);
    && !(hash.Expired(now) && hash.h.fails != 0)
    && (ops != [] ==> NeverForgot(w, ops[..|ops| - 1], Last(ops)))
  }

  /** The count a hash would still show if it never expired is the forgetful count. */
  lemma {:induction false} HiddenCount(w: Windows, ops: seq<Op>)
    requires InOrder(ops)
    ensures var hash := RedisRun(w, ops);
      ForgetfulRun(w, ops).fails == if hash.Hash? && (ops == [] || !hash.Expired(Last(ops))) then hash.h.fails else 0
  {
    if ops != [] {
      RunsAgree(w, ops[..|ops| - 1], Last(ops));
      StepAgrees(w, Forgetting(ForgetfulRun(w, ops[..|ops| - 1]), RedisRun(w, ops[..|ops| - 1]), Last(ops)),
                 RedisRun(w, ops[..|ops| - 1]), ops[|ops| - 1]);
    }
  }

  /** Without a forgotten count the stores hold the plain history, so they agree outright. */
  lemma {:induction false} AgreeUnlessForgot(w: Windows, ops: seq<Op>, now: int)
    requires InOrder(ops) && 0 <= now && (ops != [] ==> Last(ops) <= now) && NeverForgot(w, ops, now)
    ensures Forgetting(ForgetfulRun(w, ops), RedisRun(w, ops), now) == SharedRun(w, ops)
    ensures Agree(SharedRun(w, ops), RedisRun(w, ops), now)
  {
    RunsAgree(w, ops, now);
    HiddenCount(w, ops);
    if ops != [] {
      AgreeUnlessForgot(w, ops[..|ops| - 1], Last(ops));
    }
  }

  /** At every operation, and at `now`, the records agree. */
  predicate AgreeThroughout(w: Windows, ops: seq<Op>, now: int) {
    && Agree(SharedRun(w, ops), RedisRun(w, ops), now)
    && (ops != [] ==> AgreeThroughout(w, ops[..|ops| - 1], Last(ops)))
  }

  /** Had a count been forgotten, the records would have differed there and then. */
  lemma ForgottenShows(w: Windows, ops: seq<Op>, now: int)
    requires InOrder(ops) && 0 <= now && (ops != [] ==> Last(ops) <= now)
    requires Agree(SharedRun(w, ops), RedisRun(w, ops), now)
    requires ops != [] ==> NeverForgot(w, ops[..|ops| - 1], Last(ops))
    ensures NeverForgot(w, ops, now)
  {
    HiddenCount(w, ops);
    if ops != [] {
      AgreeUnlessForgot(w, ops[..|ops| - 1], Last(ops));
    }
  }

  /** The records agree all along a run exactly when no count was forgotten on the way. */
  lemma {:induction false} AgreeExactlyUnlessForgot(w: Windows, ops: seq<Op>, now: int)
    requires InOrder(ops) && 0 <= now && (ops != [] ==> Last(ops) <= now)
    ensures AgreeThroughout(w, ops, now) <==> NeverForgot(w, ops, now)
  {
    if ops != [] {
      AgreeExactlyUnlessForgot(w, ops[..|ops| - 1], Last(ops));
    }
    if NeverForgot(w, ops, now) {
      AgreeUnlessForgot(w, ops, now);
    } else if AgreeThroughout(w, ops, now) {
      ForgottenShows(w, ops, now);
    }
  }

  /** EXPIRY IS SAFE. A hash never expires while an ejection or a recovery is unfinished. */
  lemma ExpiryKeepsVerdict(w: Windows, ops: seq<Op>, now: int)
    requires InOrder(ops) && (ops != [] ==> Last(ops) <= now) && 0 <= now
    ensures var hash := RedisRun(w, ops);
      hash.Hash? && Judge(hash.h, now) != Normal ==> !hash.Expired(now)
  {
    RunsAgree(w, ops, now);
  }

  /** The lifetime of the hash: an hour, or twice cooldown plus ramp if that is longer, in whole
      seconds. */
  lemma HealthTTLIs(w: Windows)
    ensures var twice, ttl := 2 * (w.cooldownMs + w.rampMs), HealthTTLSeconds(w);
      if twice < 3600 * 1000 then ttl == 3600 else ttl * 1000 <= twice < (ttl + 1) * 1000
  {
  }
}
