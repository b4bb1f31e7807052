/** The in-flight half of the two state stores: shared data keeps a list of start times per
    key, redis keeps a sorted set of (member, start) that expires as a whole. */
module InflightStores {
  import opened InflightList
  import opened InflightProtocol

  /** One step of the finisher's ordered walk; maxRun 0 means unlimited. */
  datatype Target = Target(key: string, maxRun: int)

  /** The pick of a walk that starts `i` targets further on; 0 stays "all full". */
  function Shifted<S>(r: (S, nat), i: nat): (S, nat) {
    (r.0, if r.1 == 0 then 0 else r.1 + i)
  }

  // ----- shared data -----

  type Lists = map<string, seq<int>>

  function ListOf(lists: Lists, key: string): seq<int> {
    if key in lists then lists[key] else []
  }

  /** Reserve the first target with room; 0 when every target is full. */
  function SharedReserve(lists: Lists, targets: seq<Target>, now: int, maxAge: int): (r: (Lists, nat)) {
    if targets == [] then (lists, 0)
    else
      var live := Prune(ListOf(lists, targets[0].key), now, maxAge);
      if AtCap(Config(targets[0].maxRun, maxAge), live) then
        Shifted(SharedReserve(lists, targets[1..], now, maxAge), 1)
      else (lists[targets[0].key := live + [now]], 1)
  }

  /** Release by start time; a zero start time releases nothing. */
  function SharedRelease(lists: Lists, key: string, start: int, now: int, maxAge: int): Lists {
    if start == 0 || key !in lists then lists
    else lists[key := RemoveFirst(Prune(lists[key], now, maxAge), start)]
  }

  function SharedCount(lists: Lists, key: string, now: int, maxAge: int): nat {
    |Prune(ListOf(lists, key), now, maxAge)|
  }

  // ----- redis -----

  datatype Entry = Entry(member: string, score: int)

  /** Members are distinct; the key is gone once the clock reaches expireAt. */
  datatype ZSet = ZSet(entries: seq<Entry>, expireAt: int)

  type Sets = map<string, ZSet>

  const MIN_INFLIGHT_TTL_SECONDS: nat := 60

  function InflightTTLSeconds(maxAge: nat): nat {
    var ttl := maxAge * 2 / 1000;
    if ttl < MIN_INFLIGHT_TTL_SECONDS then MIN_INFLIGHT_TTL_SECONDS else ttl
  }

  function InflightCutoff(now: int, maxAge: int): int {
    now - maxAge
  }

  function EntriesOf(sets: Sets, key: string, now: int): seq<Entry> {
    if key in sets && now < sets[key].expireAt then sets[key].entries else []
  }

  function Scores(entries: seq<Entry>): seq<int> {
    if entries == [] then [] else Scores(entries[..|entries| - 1]) + [entries[|entries| - 1].score]
  }

  /** ZREMRANGEBYSCORE -inf cutoff: what is left scores above the cutoff. */
  function Above(entries: seq<Entry>, cutoff: int): (kept: seq<Entry>)
    ensures |kept| <= |entries|
  {
    if entries == [] then []
    else
      var n := |entries| - 1;
      var kept := Above(entries[..n], cutoff);
      if entries[n].score > cutoff then kept + [entries[n]] else kept
  }

  /** ZCOUNT (cutoff +inf. */
  function CountAbove(entries: seq<Entry>, cutoff: int): nat {
    |Above(entries, cutoff)|
  }

  /** ZREM member. */
  function Without(entries: seq<Entry>, member: string): (kept: seq<Entry>)
  {
    if entries == [] then []
    else
      var n := |entries| - 1;
      var kept := Without(entries[..n], member);
      if entries[n].member != member then kept + [entries[n]] else kept
  }

  /** ZADD score member: a member already there moves to the new score. */
  function Added(entries: seq<Entry>, member: string, score: int): seq<Entry> {
    Without(entries, member) + [Entry(member, score)]
  }

  /** One round of the reserve script's loop: drop the leaked entries, and add the member if
      the key is below its cap. */
  function RedisTry(sets: Sets, t: Target, member: string, now: int, maxAge: nat): (r: (Sets, bool)) {
    var cutoff := InflightCutoff(now, maxAge);
    var live := Above(EntriesOf(sets, t.key, now), cutoff);
    if t.maxRun <= 0 || CountAbove(live, cutoff) < t.maxRun then
      (sets[t.key := ZSet(Added(live, member, now), now + InflightTTLSeconds(maxAge) * 1000)], true)
    else
      assert t.key in sets;
      (sets[t.key := sets[t.key].(entries := live)], false)
  }

  /** The reserve script over all KEYS, in order. */
  function RedisReserve(sets: Sets, targets: seq<Target>, member: string, now: int, maxAge: nat): (r: (Sets, nat)) {
    if targets == [] then (sets, 0)
    else
      var (next, added) := RedisTry(sets, targets[0], member, now, maxAge);
      if added then (next, 1)
      else Shifted(RedisReserve(next, targets[1..], member, now, maxAge), 1)
  }

  lemma RedisReserveFrom(sets: Sets, targets: seq<Target>, i: nat, member: string, now: int, maxAge: nat)
    requires i < |targets|
    ensures var (next, added) := RedisTry(sets, targets[i], member, now, maxAge);
      Shifted(RedisReserve(sets, targets[i..], member, now, maxAge), i)
      == if added then (next, i + 1) else Shifted(RedisReserve(next, targets[i + 1..], member, now, maxAge), i + 1)
  {
    var rest := targets[i..];
    var first := RedisTry(sets, targets[i], member, now, maxAge);
    assert rest[0] == targets[i] && rest[1..] == targets[i + 1..];
    var tail := RedisReserve(first.0, targets[i + 1..], member, now, maxAge);
    if first.1 {
      assert RedisReserve(sets, rest, member, now, maxAge) == (first.0, 1);
    } else {
      assert RedisReserve(sets, rest, member, now, maxAge) == Shifted(tail, 1);
      assert Shifted(Shifted(tail, 1), i) == Shifted(tail, i + 1);
    }
  }

  /** The in-flight part of the done script; an empty member releases nothing. */
  function RedisRelease(sets: Sets, key: string, member: string, now: int, maxAge: nat): Sets {
    var entries := EntriesOf(sets, key, now);
    var left := Above(if member == "" then entries else Without(entries, member), InflightCutoff(now, maxAge));
    if key !in sets then sets
    else sets[key := ZSet(left, now + InflightTTLSeconds(maxAge) * 1000)]
  }

  function RedisCount(sets: Sets, key: string, now: int, maxAge: int): nat {
    CountAbove(EntriesOf(sets, key, now), InflightCutoff(now, maxAge))
  }

  // ----- the stores as they run -----

  const RESERVE_EXHAUSTED: int := 0
  const RESERVE_FAIL_OPEN: int := -1

  /** The same entries under every key; a key that is missing has none. */
  predicate SameEntries(a: Lists, b: Lists) {
    a.Keys <= b.Keys && forall key <- b :: ListOf(a, key) == b[key]
  }

  class SharedDataStore {
    const maxAge: nat
    /** The host reports no error. */
    const reliable: bool
    var lists: Lists

    constructor (maxAge: nat, reliable: bool)
      ensures this.maxAge == maxAge && this.reliable == reliable && lists == map[]
    {
      this.maxAge, this.reliable, lists := maxAge, reliable, map[];
    }

    /** The walk over the targets; the first that the host cannot read ends it, and reserves
        nothing. One reserveInflight call that nobody disturbs does what
        InflightWorker.SharedKey.ReserveInflight promises. */
    method Reserve(targets: seq<Target>, now: int) returns (pick: int, token: int)
      modifies this
      ensures RESERVE_FAIL_OPEN <= pick <= |targets| && token == now
      ensures pick >= 0 ==> (lists, pick) == SharedReserve(old(lists), targets, now, maxAge)
      ensures pick == RESERVE_FAIL_OPEN ==> SameEntries(old(lists), lists)
      ensures reliable ==> pick >= 0
    {
      token := now;
      for i := 0 to |targets|
        invariant lists == old(lists)
        invariant SharedReserve(lists, targets, now, maxAge)
               == Shifted(SharedReserve(lists, targets[i..], now, maxAge), i)
      {
        var t := targets[i];
        assert targets[i..][0] == t && targets[i..][1..] == targets[i + 1..];
        var hostFails: bool, created: bool := *, *;
        if !reliable && hostFails {
          if created && t.key !in lists {
            lists := lists[t.key := []];
          }
          return RESERVE_FAIL_OPEN, now;
        }
        var live := Prune(ListOf(lists, t.key), now, maxAge);
        if !(t.maxRun > 0 && |live| >= t.maxRun) {
          lists := lists[t.key := live + [now]];
          return i + 1, now;
        }
      }
      pick := RESERVE_EXHAUSTED;
    }

    method Release(key: string, token: int, now: int)
      modifies this
      ensures lists == SharedRelease(old(lists), key, token, now, maxAge)
    {
      if token != 0 && key in lists {
        var rest, _ := RemoveStart(Prune(lists[key], now, maxAge), token);
        lists := lists[key := rest];
      }
    }
  }

  class RedisStore {
    const maxAge: nat
    var sets: Sets

    constructor (maxAge: nat)
      ensures this.maxAge == maxAge && sets == map[]
    {
      this.maxAge, sets := maxAge, map[];
    }

    /** One round of the script's loop, redis command by redis command. */
    method EvalReserveRound(t: Target, member: string, now: int) returns (added: bool)
      modifies this
      ensures (sets, added) == RedisTry(old(sets), t, member, now, maxAge)
    {
      var cutoff := InflightCutoff(now, maxAge);
      var live := Above(EntriesOf(sets, t.key, now), cutoff);
      if t.key in sets {
        sets := sets[t.key := sets[t.key].(entries := live)];
      }
      if t.maxRun <= 0 || CountAbove(live, cutoff) < t.maxRun {
        sets := sets[t.key := ZSet(Added(live, member, now), now + InflightTTLSeconds(maxAge) * 1000)];
        assert sets == RedisTry(old(sets), t, member, now, maxAge).0;
        return true;
      }
      return false;
    }

    /** The reserve script over all KEYS. */
    method EvalReserve(targets: seq<Target>, member: string, now: int) returns (pick: nat)
      modifies this
      ensures (sets, pick) == RedisReserve(old(sets), targets, member, now, maxAge)
      ensures pick <= |targets|
    {
      assert targets[0..] == targets;
      for i := 0 to |targets|
        invariant RedisReserve(old(sets), targets, member, now, maxAge)
               == Shifted(RedisReserve(sets, targets[i..], member, now, maxAge), i)
      {
        RedisReserveFrom(sets, targets, i, member, now, maxAge);
        var added := EvalReserveRound(targets[i], member, now);
        if added {
          return i + 1;
        }
      }
      pick := 0;
    }

    /** The in-flight commands of the done script: ZREM, ZREMRANGEBYSCORE, EXPIRE. */
    method EvalRelease(key: string, member: string, now: int)
      modifies this
      ensures sets == RedisRelease(old(sets), key, member, now, maxAge)
    {
      if key !in sets {
        return;
      }
      var entries := EntriesOf(sets, key, now);
      if member != "" {
        entries := Without(entries, member);
      }
      entries := Above(entries, InflightCutoff(now, maxAge));
      sets := sets[key := ZSet(entries, now + InflightTTLSeconds(maxAge) * 1000)];
    }
  }
}
