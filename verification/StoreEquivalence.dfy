/** The two in-flight stores answer alike: for every sequence of reservations, releases
    and reads in nondecreasing time, the same picks and the same live counts. */
module StoreEquivalence {
  import opened InflightList
  import opened InflightProtocol
  import opened InflightStores

  // ----- two independent runs -----

  /** `id` names a request; on redis it is the member it adds. */
  datatype Op =
    | Reserve(targets: seq<Target>, id: string, now: int)
    | Finish(id: string, now: int)
    | FinishUnreserved(key: string, now: int)
    | Count(key: string, now: int)

  datatype Answer = Picked(pick: nat) | Counted(n: nat) | Nothing

  /** What a request was given: the key it reserved and when. */
  datatype Held = Held(key: string, start: int)

  datatype SharedWorld = SharedWorld(lists: Lists, tickets: map<string, Held>)

  datatype RedisWorld = RedisWorld(sets: Sets, tickets: map<string, string>)

  function SharedTicket(w: SharedWorld, lists: Lists, pick: nat, targets: seq<Target>, id: string, now: int)
    : SharedWorld
  {
    if 0 < pick <= |targets| then SharedWorld(lists, w.tickets[id := Held(targets[pick - 1].key, now)])
    else w.(lists := lists)
  }

  function RedisTicket(w: RedisWorld, sets: Sets, pick: nat, targets: seq<Target>, id: string): RedisWorld {
    if 0 < pick <= |targets| then RedisWorld(sets, w.tickets[id := targets[pick - 1].key])
    else w.(sets := sets)
  }

  function SharedDo(maxAge: nat, w: SharedWorld, op: Op): (r: (SharedWorld, Answer)) {
    match op
    case Reserve(targets, id, now) =>
      var (lists, pick) := SharedReserve(w.lists, targets, now, maxAge);
      (SharedTicket(w, lists, pick, targets, id, now), Picked(pick))
    case Finish(id, now) =>
      if id in w.tickets then
        var lists := SharedRelease(w.lists, w.tickets[id].key, w.tickets[id].start, now, maxAge);
        (SharedWorld(lists, w.tickets - {id}), Nothing)
      else (w, Nothing)
    case FinishUnreserved(_, _) => (w, Nothing)
    case Count(key, now) => (w, Counted(SharedCount(w.lists, key, now, maxAge)))
  }

  function RedisDo(maxAge: nat, w: RedisWorld, op: Op): (r: (RedisWorld, Answer)) {
    match op
    case Reserve(targets, id, now) =>
      var (sets, pick) := RedisReserve(w.sets, targets, id, now, maxAge);
      (RedisTicket(w, sets, pick, targets, id), Picked(pick))
    case Finish(id, now) =>
      if id in w.tickets then
        (RedisWorld(RedisRelease(w.sets, w.tickets[id], id, now, maxAge), w.tickets - {id}), Nothing)
      else (w, Nothing)
    case FinishUnreserved(key, now) => (w.(sets := RedisRelease(w.sets, key, "", now, maxAge)), Nothing)
    case Count(key, now) => (w, Counted(RedisCount(w.sets, key, now, maxAge)))
  }

  function SharedRun(maxAge: nat, ops: seq<Op>): SharedWorld {
    if ops == [] then SharedWorld(map[], map[])
    else SharedDo(maxAge, SharedRun(maxAge, ops[..|ops| - 1]), ops[|ops| - 1]).0
  }

  function RedisRun(maxAge: nat, ops: seq<Op>): RedisWorld {
    if ops == [] then RedisWorld(map[], map[])
    else RedisDo(maxAge, RedisRun(maxAge, ops[..|ops| - 1]), ops[|ops| - 1]).0
  }

  /** Time is positive and never runs backwards, and every reservation has its own
      non-empty id. Requests may finish at any time, twice, or without a reservation. */
  predicate Legal(ops: seq<Op>) {
    && (forall i | 0 <= i < |ops| :: 0 < ops[i].now && (ops[i].Reserve? ==> ops[i].id != ""))
    && (forall i, j | 0 <= i < j < |ops| :: ops[i].now <= ops[j].now)
    && (forall i, j | 0 <= i < j < |ops| :: ops[i].Reserve? && ops[j].Reserve? ==> ops[i].id != ops[j].id)
  }

  // ----- sorted-set facts -----

  predicate Distinct(entries: seq<Entry>) {
    forall i, j | 0 <= i < j < |entries| :: entries[i].member != entries[j].member
  }

  lemma ScoresAppend(entries: seq<Entry>, e: Entry)
    ensures Scores(entries + [e]) == Scores(entries) + [e.score]
  {
    assert (entries + [e])[..|entries|] == entries;
  }

  lemma {:induction false} AboveScores(entries: seq<Entry>, now: int, maxAge: int)
    ensures Scores(Above(entries, InflightCutoff(now, maxAge))) == Prune(Scores(entries), now, maxAge)
  {
    if entries != [] {
      var n := |entries| - 1;
      AboveScores(entries[..n], now, maxAge);
      assert Scores(entries)[..|Scores(entries)| - 1] == Scores(entries[..n]);
      ScoresAppend(Above(entries[..n], InflightCutoff(now, maxAge)), entries[n]);
    }
  }

  lemma {:induction false} AboveFacts(entries: seq<Entry>, cutoff: int)
    ensures forall e :: e in Above(entries, cutoff) <==> e in entries && e.score > cutoff
    ensures Distinct(entries) ==> Distinct(Above(entries, cutoff))
  {
    if entries != [] {
      var n := |entries| - 1;
      var kept := Above(entries[..n], cutoff);
      AboveFacts(entries[..n], cutoff);
      assert entries == entries[..n] + [entries[n]];
      if Distinct(entries) {
        DistinctSnoc(entries[..n], kept, entries[n]);
      }
    }
  }

  lemma {:induction false} WithoutFacts(entries: seq<Entry>, member: string)
    ensures forall e :: e in Without(entries, member) <==> e in entries && e.member != member
    ensures Distinct(entries) ==> Distinct(Without(entries, member))
  {
    if entries != [] {
      var n := |entries| - 1;
      var kept := Without(entries[..n], member);
      WithoutFacts(entries[..n], member);
      assert entries == entries[..n] + [entries[n]];
      if Distinct(entries) {
        DistinctSnoc(entries[..n], kept, entries[n]);
      }
    }
  }

  /** A new last member stays distinct from whatever was kept of the others. */
  lemma DistinctSnoc(entries: seq<Entry>, kept: seq<Entry>, e: Entry)
    requires Distinct(entries + [e]) && Distinct(kept) && forall x <- kept :: x in entries
    ensures Distinct(kept + [e])
  {
    forall i | 0 <= i < |kept|
      ensures kept[i].member != e.member
    {
      assert kept[i] in entries;
      var j :| 0 <= j < |entries| && entries[j] == kept[i];
      assert (entries + [e])[j].member != (entries + [e])[|entries|].member;
    }
  }

  /** Dropping a member takes out its score and no other. */
  lemma {:induction false} WithoutScores(entries: seq<Entry>, member: string, t: int)
    requires Distinct(entries)
    ensures multiset(Scores(entries))[t]
         == multiset(Scores(Without(entries, member)))[t] + if Entry(member, t) in entries then 1 else 0
  {
    if entries != [] {
      var n := |entries| - 1;
      WithoutScores(entries[..n], member, t);
      assert entries == entries[..n] + [entries[n]];
      ScoresAppend(Without(entries[..n], member), entries[n]);
      if entries[n].member == member {
        assert Entry(member, t) !in entries[..n];
      }
    }
  }

  lemma {:induction false} ScoreCounted(entries: seq<Entry>, t: int)
    ensures multiset(Scores(entries))[t] > 0 <==> exists e :: e in entries && e.score == t
  {
    if entries != [] {
      var n := |entries| - 1;
      ScoreCounted(entries[..n], t);
      assert entries == entries[..n] + [entries[n]];
      assert entries[n] in entries;
    }
  }

  /** Two lists with the same live counts prune to the same length. */
  lemma SameLiveLength(a: seq<int>, b: seq<int>, now: int, maxAge: int)
    requires forall t :: Live(t, now, maxAge) ==> multiset(a)[t] == multiset(b)[t]
    ensures |Prune(a, now, maxAge)| == |Prune(b, now, maxAge)|
  {
    var x, y := multiset(Prune(a, now, maxAge)), multiset(Prune(b, now, maxAge));
    forall t
      ensures x[t] == y[t]
    {
      PruneCount(a, now, maxAge, t);
      PruneCount(b, now, maxAge, t);
    }
    assert x == y && |x| == |Prune(a, now, maxAge)| && |y| == |Prune(b, now, maxAge)|;
  }

  // ----- the relation between the stores -----

  ghost predicate SameLive(maxAge: nat, now: int, list: seq<int>, entries: seq<Entry>) {
    forall t :: Live(t, now, maxAge) ==> multiset(list)[t] == multiset(Scores(entries))[t]
  }

  /** Members were issued as ids, and an unreleased one sits under its own key and time. */
  predicate Owned(key: string, entries: seq<Entry>, tickets: map<string, Held>,
                          ids: set<string>)
  {
    forall e <- entries :: e.member in ids && (e.member in tickets ==> tickets[e.member] == Held(key, e.score))
  }

  /** An unreleased ticket of this key that has not aged out still has its member. */
  predicate Kept(maxAge: nat, now: int, key: string, entries: seq<Entry>, tickets: map<string, Held>) {
    forall id <- tickets :: tickets[id].key == key && Live(tickets[id].start, now, maxAge)
      ==> Entry(id, tickets[id].start) in entries
  }

  ghost predicate KeyOk(maxAge: nat, now: int, key: string, list: seq<int>, entries: seq<Entry>,
                        tickets: map<string, Held>, ids: set<string>)
  {
    && SameLive(maxAge, now, list, entries)
    && Distinct(entries)
    && Owned(key, entries, tickets, ids)
    && Kept(maxAge, now, key, entries, tickets)
  }

  /** A set expires no earlier than its youngest entry ages out. */
  predicate ExpiryOk(maxAge: nat, now: int, sets: Sets) {
    forall key <- sets :: forall e <- sets[key].entries :: e.score <= now && e.score + maxAge <= sets[key].expireAt
  }

  ghost predicate Related(maxAge: nat, now: int, lists: Lists, sets: Sets, tickets: map<string, Held>,
                          ids: set<string>)
  {
    && (forall key :: KeyOk(maxAge, now, key, ListOf(lists, key), EntriesOf(sets, key, now), tickets, ids))
    && ExpiryOk(maxAge, now, sets)
    && (forall id <- tickets :: id in ids && id != "" && 0 < tickets[id].start)
  }

  /** TTL x 1000 reaches past the leak horizon, integer division included. */
  lemma InflightTTLCovers(maxAge: nat)
    ensures maxAge < InflightTTLSeconds(maxAge) * 1000
  {
  }

  /** Redis expiry never drops a live entry: what EntriesOf hides has aged out. */
  lemma ExpiredIsDead(maxAge: nat, before: int, sets: Sets, key: string, now: int)
    requires ExpiryOk(maxAge, before, sets) && key in sets
    ensures forall e <- sets[key].entries :: Live(e.score, now, maxAge) ==> e in EntriesOf(sets, key, now)
  {
  }

  /** The relation survives the passing of time. */
  lemma TimePasses(maxAge: nat, now: int, later: int, lists: Lists, sets: Sets,
                   tickets: map<string, Held>, ids: set<string>)
    requires now <= later && Related(maxAge, now, lists, sets, tickets, ids)
    ensures Related(maxAge, later, lists, sets, tickets, ids)
  {
    forall key
      ensures KeyOk(maxAge, later, key, ListOf(lists, key), EntriesOf(sets, key, later), tickets, ids)
    {
      var list, before := ListOf(lists, key), EntriesOf(sets, key, now);
      assert KeyOk(maxAge, now, key, list, before, tickets, ids);
      if EntriesOf(sets, key, later) != before {
        ExpiredIsDead(maxAge, now, sets, key, later);
        forall t | Live(t, later, maxAge)
          ensures multiset(list)[t] == 0
        {
          ScoreCounted(before, t);
        }
      }
    }
  }

  /** Both stores count the same live entries under a key. */
  lemma SameCount(maxAge: nat, now: int, key: string, lists: Lists, sets: Sets,
                  tickets: map<string, Held>, ids: set<string>)
    requires Related(maxAge, now, lists, sets, tickets, ids)
    ensures SharedCount(lists, key, now, maxAge) == RedisCount(sets, key, now, maxAge)
    ensures |Above(Above(EntriesOf(sets, key, now), InflightCutoff(now, maxAge)), InflightCutoff(now, maxAge))|
         == SharedCount(lists, key, now, maxAge)
  {
    var entries := EntriesOf(sets, key, now);
    assert KeyOk(maxAge, now, key, ListOf(lists, key), entries, tickets, ids);
    var kept := Above(entries, InflightCutoff(now, maxAge));
    AboveScores(entries, now, maxAge);
    AboveScores(kept, now, maxAge);
    PruneTwice(Scores(entries), now, maxAge);
    SameLiveLength(ListOf(lists, key), Scores(entries), now, maxAge);
    ScoresLength(kept);
    ScoresLength(Above(kept, InflightCutoff(now, maxAge)));
  }

  lemma {:induction false} ScoresLength(entries: seq<Entry>)
    ensures |Scores(entries)| == |entries|
  {
    if entries != [] {
      ScoresLength(entries[..|entries| - 1]);
    }
  }

  lemma {:induction false} PruneTwice(starts: seq<int>, now: int, maxAge: int)
    ensures Prune(Prune(starts, now, maxAge), now, maxAge) == Prune(starts, now, maxAge)
  {
    if starts != [] {
      PruneTwice(starts[..|starts| - 1], now, maxAge);
      var kept := Prune(starts[..|starts| - 1], now, maxAge);
      assert (kept + [starts[|starts| - 1]])[..|kept|] == kept;
    }
  }

  // ----- reservations -----

  /** Dropping leaked entries, on either side, changes nothing that counts. */
  lemma KeyPruned(maxAge: nat, now: int, key: string, list: seq<int>, entries: seq<Entry>,
                  tickets: map<string, Held>, ids: set<string>)
    requires KeyOk(maxAge, now, key, list, entries, tickets, ids)
    ensures KeyOk(maxAge, now, key, list, Above(entries, InflightCutoff(now, maxAge)), tickets, ids)
    ensures KeyOk(maxAge, now, key, Prune(list, now, maxAge), Above(entries, InflightCutoff(now, maxAge)), tickets, ids)
  {
    var kept := Above(entries, InflightCutoff(now, maxAge));
    AboveScores(entries, now, maxAge);
    AboveFacts(entries, InflightCutoff(now, maxAge));
    forall t | Live(t, now, maxAge)
      ensures multiset(Scores(kept))[t] == multiset(list)[t] == multiset(Prune(list, now, maxAge))[t]
    {
      PruneCount(Scores(entries), now, maxAge, t);
      PruneCount(list, now, maxAge, t);
    }
  }

  lemma NotAMember(key: string, entries: seq<Entry>, tickets: map<string, Held>, ids: set<string>, id: string)
    requires Owned(key, entries, tickets, ids) && id !in ids
    ensures forall i | 0 <= i < |entries| :: entries[i].member != id
  {
    forall i | 0 <= i < |entries|
      ensures entries[i].member != id
    {
      assert entries[i] in entries;
    }
  }

  lemma GrantedLive(maxAge: nat, now: int, list: seq<int>, entries: seq<Entry>, id: string)
    requires SameLive(maxAge, now, list, entries)
    ensures SameLive(maxAge, now, list + [now], entries + [Entry(id, now)])
  {
    ScoresAppend(entries, Entry(id, now));
  }

  lemma GrantedOwned(maxAge: nat, now: int, key: string, entries: seq<Entry>, tickets: map<string, Held>,
                     ids: set<string>, id: string)
    requires Owned(key, entries, tickets, ids) && id !in ids && tickets.Keys <= ids
    requires Kept(maxAge, now, key, entries, tickets)
    ensures Owned(key, entries + [Entry(id, now)], tickets[id := Held(key, now)], ids + {id})
    ensures Kept(maxAge, now, key, entries + [Entry(id, now)], tickets[id := Held(key, now)])
  {
  }

  /** A new ticket on this key: one more start here, one more member there. */
  lemma KeyGranted(maxAge: nat, now: int, key: string, list: seq<int>, entries: seq<Entry>,
                   tickets: map<string, Held>, ids: set<string>, id: string)
    requires KeyOk(maxAge, now, key, list, entries, tickets, ids)
    requires id !in ids && tickets.Keys <= ids
    ensures KeyOk(maxAge, now, key, list + [now], Added(entries, id, now), tickets[id := Held(key, now)], ids + {id})
  {
    NotAMember(key, entries, tickets, ids, id);
    WithoutAbsent(entries, id);
    GrantedLive(maxAge, now, list, entries, id);
    GrantedOwned(maxAge, now, key, entries, tickets, ids, id);
  }

  lemma {:induction false} WithoutAbsent(entries: seq<Entry>, member: string)
    requires forall i | 0 <= i < |entries| :: entries[i].member != member
    ensures Without(entries, member) == entries
  {
    if entries != [] {
      WithoutAbsent(entries[..|entries| - 1], member);
    }
  }

  /** A new ticket on another key. */
  lemma KeyElsewhere(maxAge: nat, now: int, key: string, list: seq<int>, entries: seq<Entry>,
                     tickets: map<string, Held>, ids: set<string>, id: string, h: Held)
    requires KeyOk(maxAge, now, key, list, entries, tickets, ids)
    requires id !in ids && h.key != key
    ensures KeyOk(maxAge, now, key, list, entries, tickets[id := h], ids + {id})
  {
  }

  lemma TryRefused(maxAge: nat, now: int, lists: Lists, sets: Sets, tickets: map<string, Held>, ids: set<string>,
                   t: Target, id: string)
    requires Related(maxAge, now, lists, sets, tickets, ids)
    requires !RedisTry(sets, t, id, now, maxAge).1
    ensures Related(maxAge, now, lists, RedisTry(sets, t, id, now, maxAge).0, tickets, ids)
  {
    var next := RedisTry(sets, t, id, now, maxAge).0;
    var entries := EntriesOf(sets, t.key, now);
    AboveFacts(entries, InflightCutoff(now, maxAge));
    forall key
      ensures KeyOk(maxAge, now, key, ListOf(lists, key), EntriesOf(next, key, now), tickets, ids)
    {
      assert KeyOk(maxAge, now, key, ListOf(lists, key), EntriesOf(sets, key, now), tickets, ids);
      if key == t.key {
        KeyPruned(maxAge, now, key, ListOf(lists, key), entries, tickets, ids);
      }
    }
  }

  lemma GrantedKey(maxAge: nat, now: int, lists: Lists, sets: Sets, tickets: map<string, Held>, ids: set<string>,
                   t: Target, id: string, key: string)
    requires Related(maxAge, now, lists, sets, tickets, ids) && id !in ids && 0 < now
    requires RedisTry(sets, t, id, now, maxAge).1
    ensures KeyOk(maxAge, now, key, ListOf(lists[t.key := Prune(ListOf(lists, t.key), now, maxAge) + [now]], key),
                  EntriesOf(RedisTry(sets, t, id, now, maxAge).0, key, now),
                  tickets[id := Held(t.key, now)], ids + {id})
  {
    var list, entries := ListOf(lists, key), EntriesOf(sets, key, now);
    assert KeyOk(maxAge, now, key, list, entries, tickets, ids);
    if key == t.key {
      var live := Above(entries, InflightCutoff(now, maxAge));
      KeyPruned(maxAge, now, key, list, entries, tickets, ids);
      KeyGranted(maxAge, now, key, Prune(list, now, maxAge), live, tickets, ids, id);
      InflightTTLCovers(maxAge);
      assert EntriesOf(RedisTry(sets, t, id, now, maxAge).0, key, now) == Added(live, id, now);
    } else {
      KeyElsewhere(maxAge, now, key, list, entries, tickets, ids, id, Held(t.key, now));
    }
  }

  lemma GrantedExpiry(maxAge: nat, now: int, sets: Sets, t: Target, id: string)
    requires ExpiryOk(maxAge, now, sets) && RedisTry(sets, t, id, now, maxAge).1
    ensures ExpiryOk(maxAge, now, RedisTry(sets, t, id, now, maxAge).0)
  {
    var entries := EntriesOf(sets, t.key, now);
    var live := Above(entries, InflightCutoff(now, maxAge));
    AboveFacts(entries, InflightCutoff(now, maxAge));
    WithoutFacts(live, id);
    InflightTTLCovers(maxAge);
    forall e | e in Added(live, id, now)
      ensures e.score <= now
    {
      assert e in live || e == Entry(id, now);
    }
  }

  lemma TryGranted(maxAge: nat, now: int, lists: Lists, sets: Sets, tickets: map<string, Held>, ids: set<string>,
                   t: Target, id: string)
    requires Related(maxAge, now, lists, sets, tickets, ids) && 0 < now && id !in ids && id != ""
    requires RedisTry(sets, t, id, now, maxAge).1
    ensures Related(maxAge, now, lists[t.key := Prune(ListOf(lists, t.key), now, maxAge) + [now]],
                    RedisTry(sets, t, id, now, maxAge).0, tickets[id := Held(t.key, now)], ids + {id})
  {
    var lists' := lists[t.key := Prune(ListOf(lists, t.key), now, maxAge) + [now]];
    var next := RedisTry(sets, t, id, now, maxAge).0;
    forall key
      ensures KeyOk(maxAge, now, key, ListOf(lists', key), EntriesOf(next, key, now),
                    tickets[id := Held(t.key, now)], ids + {id})
    {
      GrantedKey(maxAge, now, lists, sets, tickets, ids, t, id, key);
    }
    GrantedExpiry(maxAge, now, sets, t, id);
  }

  /** Two walks over `targets` ended in the same pick and in related stores. */
  ghost predicate WalksAgree(maxAge: nat, now: int, shared: (Lists, nat), redis: (Sets, nat),
                             tickets: map<string, Held>, ids: set<string>, targets: seq<Target>, id: string)
  {
    && shared.1 == redis.1 <= |targets|
    && (shared.1 == 0 ==> Related(maxAge, now, shared.0, redis.0, tickets, ids))
    && (shared.1 > 0 ==>
          Related(maxAge, now, shared.0, redis.0, tickets[id := Held(targets[shared.1 - 1].key, now)], ids + {id}))
  }

  lemma ShiftedAgree(maxAge: nat, now: int, shared: (Lists, nat), redis: (Sets, nat),
                     tickets: map<string, Held>, ids: set<string>, targets: seq<Target>, id: string)
    requires targets != [] && WalksAgree(maxAge, now, shared, redis, tickets, ids, targets[1..], id)
    ensures WalksAgree(maxAge, now, Shifted(shared, 1), Shifted(redis, 1), tickets, ids, targets, id)
  {
  }

  lemma GrantedWalk(maxAge: nat, now: int, lists: Lists, sets: Sets,
                    tickets: map<string, Held>, ids: set<string>, targets: seq<Target>, id: string)
    requires Related(maxAge, now, lists, sets, tickets, ids) && 0 < now && id !in ids && id != ""
    requires targets != [] && RedisTry(sets, targets[0], id, now, maxAge).1
    requires !AtCap(Config(targets[0].maxRun, maxAge), Prune(ListOf(lists, targets[0].key), now, maxAge))
    ensures WalksAgree(maxAge, now, SharedReserve(lists, targets, now, maxAge),
                       RedisReserve(sets, targets, id, now, maxAge), tickets, ids, targets, id)
  {
    TryGranted(maxAge, now, lists, sets, tickets, ids, targets[0], id);
    assert RedisReserve(sets, targets, id, now, maxAge) == (RedisTry(sets, targets[0], id, now, maxAge).0, 1);
  }

  lemma RefusedWalk(maxAge: nat, now: int, lists: Lists, sets: Sets,
                    tickets: map<string, Held>, ids: set<string>, targets: seq<Target>, id: string)
    requires targets != [] && !RedisTry(sets, targets[0], id, now, maxAge).1
    requires AtCap(Config(targets[0].maxRun, maxAge), Prune(ListOf(lists, targets[0].key), now, maxAge))
    requires WalksAgree(maxAge, now, SharedReserve(lists, targets[1..], now, maxAge),
                        RedisReserve(RedisTry(sets, targets[0], id, now, maxAge).0, targets[1..], id, now, maxAge),
                        tickets, ids, targets[1..], id)
    ensures WalksAgree(maxAge, now, SharedReserve(lists, targets, now, maxAge),
                       RedisReserve(sets, targets, id, now, maxAge), tickets, ids, targets, id)
  {
    var shared := SharedReserve(lists, targets[1..], now, maxAge);
    var redis := RedisReserve(RedisTry(sets, targets[0], id, now, maxAge).0, targets[1..], id, now, maxAge);
    ShiftedAgree(maxAge, now, shared, redis, tickets, ids, targets, id);
    assert SharedReserve(lists, targets, now, maxAge) == Shifted(shared, 1);
    assert RedisReserve(sets, targets, id, now, maxAge) == Shifted(redis, 1);
  }

  /** The walks make the same choice at every target, so they end in the same pick. */
  lemma {:induction false} ReserveAgrees(maxAge: nat, now: int, lists: Lists, sets: Sets,
                                         tickets: map<string, Held>, ids: set<string>, targets: seq<Target>, id: string)
    requires Related(maxAge, now, lists, sets, tickets, ids) && 0 < now && id !in ids && id != ""
    ensures WalksAgree(maxAge, now, SharedReserve(lists, targets, now, maxAge),
                       RedisReserve(sets, targets, id, now, maxAge), tickets, ids, targets, id)
    decreases |targets|
  {
    if targets != [] {
      SameChoice(maxAge, now, lists, sets, tickets, ids, targets[0], id);
      if RedisTry(sets, targets[0], id, now, maxAge).1 {
        GrantedWalk(maxAge, now, lists, sets, tickets, ids, targets, id);
      } else {
        TryRefused(maxAge, now, lists, sets, tickets, ids, targets[0], id);
        ReserveAgrees(maxAge, now, lists, RedisTry(sets, targets[0], id, now, maxAge).0, tickets, ids,
                      targets[1..], id);
        RefusedWalk(maxAge, now, lists, sets, tickets, ids, targets, id);
      }
    }
  }

  /** One target has room in one store exactly when it has room in the other. */
  lemma SameChoice(maxAge: nat, now: int, lists: Lists, sets: Sets,
                   tickets: map<string, Held>, ids: set<string>, t: Target, id: string)
    requires Related(maxAge, now, lists, sets, tickets, ids)
    ensures RedisTry(sets, t, id, now, maxAge).1
       <==> !AtCap(Config(t.maxRun, maxAge), Prune(ListOf(lists, t.key), now, maxAge))
  {
    SameCount(maxAge, now, t.key, lists, sets, tickets, ids);
  }

  // ----- releases -----

  /** Giving back a ticket of this key takes out the same start on both sides: one entry by
      value here, the ticket's own member there, or nothing at all if it has aged out. */
  lemma KeyReleased(maxAge: nat, now: int, key: string, list: seq<int>, entries: seq<Entry>,
                    tickets: map<string, Held>, ids: set<string>, id: string)
    requires KeyOk(maxAge, now, key, list, entries, tickets, ids)
    requires id in tickets && tickets[id].key == key
    ensures KeyOk(maxAge, now, key, RemoveFirst(Prune(list, now, maxAge), tickets[id].start),
                  Above(Without(entries, id), InflightCutoff(now, maxAge)), tickets - {id}, ids)
  {
    var start := tickets[id].start;
    var rest := Without(entries, id);
    var kept := Above(rest, InflightCutoff(now, maxAge));
    WithoutFacts(entries, id);
    AboveFacts(rest, InflightCutoff(now, maxAge));
    AboveScores(rest, now, maxAge);
    forall t | Live(t, now, maxAge)
      ensures multiset(Scores(kept))[t] == multiset(RemoveFirst(Prune(list, now, maxAge), start))[t]
    {
      WithoutScores(entries, id, t);
      PruneCount(Scores(rest), now, maxAge, t);
      RemovePruneCount(list, start, now, maxAge, t);
      if Entry(id, t) in entries {
        assert tickets[id] == Held(key, t);
      }
      if t == start {
        assert Entry(id, start) in entries;
      }
    }
  }

  lemma ReleasedKey(maxAge: nat, now: int, lists: Lists, sets: Sets, tickets: map<string, Held>, ids: set<string>,
                    id: string, key: string)
    requires Related(maxAge, now, lists, sets, tickets, ids) && id in tickets
    ensures KeyOk(maxAge, now, key,
                  ListOf(SharedRelease(lists, tickets[id].key, tickets[id].start, now, maxAge), key),
                  EntriesOf(RedisRelease(sets, tickets[id].key, id, now, maxAge), key, now), tickets - {id}, ids)
  {
    var list, entries := ListOf(lists, key), EntriesOf(sets, key, now);
    assert KeyOk(maxAge, now, key, list, entries, tickets, ids);
    var lists' := SharedRelease(lists, tickets[id].key, tickets[id].start, now, maxAge);
    var sets' := RedisRelease(sets, tickets[id].key, id, now, maxAge);
    if key == tickets[id].key {
      KeyReleased(maxAge, now, key, list, entries, tickets, ids, id);
      InflightTTLCovers(maxAge);
      assert ListOf(lists', key) == RemoveFirst(Prune(list, now, maxAge), tickets[id].start);
      assert EntriesOf(sets', key, now) == Above(Without(entries, id), InflightCutoff(now, maxAge));
    } else {
      assert ListOf(lists', key) == list && EntriesOf(sets', key, now) == entries;
      KeyForgets(maxAge, now, key, list, entries, tickets, ids, id);
    }
  }

  lemma KeyForgets(maxAge: nat, now: int, key: string, list: seq<int>, entries: seq<Entry>,
                   tickets: map<string, Held>, ids: set<string>, id: string)
    requires KeyOk(maxAge, now, key, list, entries, tickets, ids)
    ensures KeyOk(maxAge, now, key, list, entries, tickets - {id}, ids)
  {
  }

  lemma ReleaseAgrees(maxAge: nat, now: int, lists: Lists, sets: Sets, tickets: map<string, Held>,
                      ids: set<string>, id: string)
    requires Related(maxAge, now, lists, sets, tickets, ids) && id in tickets
    ensures Related(maxAge, now, SharedRelease(lists, tickets[id].key, tickets[id].start, now, maxAge),
                    RedisRelease(sets, tickets[id].key, id, now, maxAge), tickets - {id}, ids)
  {
    var lists' := SharedRelease(lists, tickets[id].key, tickets[id].start, now, maxAge);
    var sets' := RedisRelease(sets, tickets[id].key, id, now, maxAge);
    forall key
      ensures KeyOk(maxAge, now, key, ListOf(lists', key), EntriesOf(sets', key, now), tickets - {id}, ids)
    {
      ReleasedKey(maxAge, now, lists, sets, tickets, ids, id, key);
    }
    ReleaseExpiry(maxAge, now, sets, tickets[id].key, id);
  }

  lemma ReleaseExpiry(maxAge: nat, now: int, sets: Sets, key: string, member: string)
    requires ExpiryOk(maxAge, now, sets)
    ensures ExpiryOk(maxAge, now, RedisRelease(sets, key, member, now, maxAge))
  {
    var entries := EntriesOf(sets, key, now);
    WithoutFacts(entries, member);
    AboveFacts(entries, InflightCutoff(now, maxAge));
    AboveFacts(Without(entries, member), InflightCutoff(now, maxAge));
    InflightTTLCovers(maxAge);
  }

  lemma PrunedEntries(maxAge: nat, now: int, sets: Sets, k: string, key: string)
    ensures EntriesOf(RedisRelease(sets, k, "", now, maxAge), key, now)
         == if key == k then Above(EntriesOf(sets, key, now), InflightCutoff(now, maxAge))
            else EntriesOf(sets, key, now)
  {
    InflightTTLCovers(maxAge);
  }

  /** A request without a token: redis prunes and refreshes the key, shared data does nothing. */
  lemma PruneAgrees(maxAge: nat, now: int, lists: Lists, sets: Sets, tickets: map<string, Held>, ids: set<string>,
                    k: string)
    requires Related(maxAge, now, lists, sets, tickets, ids)
    ensures Related(maxAge, now, lists, RedisRelease(sets, k, "", now, maxAge), tickets, ids)
  {
    var sets' := RedisRelease(sets, k, "", now, maxAge);
    forall key
      ensures KeyOk(maxAge, now, key, ListOf(lists, key), EntriesOf(sets', key, now), tickets, ids)
    {
      PrunedEntries(maxAge, now, sets, k, key);
      KeyPruned(maxAge, now, key, ListOf(lists, key), EntriesOf(sets, key, now), tickets, ids);
    }
    ReleaseExpiry(maxAge, now, sets, k, "");
  }

  // ----- whole runs -----

  function IdsOf(ops: seq<Op>): set<string> {
    set op | op in ops && op.Reserve? :: op.id
  }

  ghost predicate WorldsAgree(maxAge: nat, now: int, s: SharedWorld, r: RedisWorld, ids: set<string>) {
    && Related(maxAge, now, s.lists, r.sets, s.tickets, ids)
    && r.tickets.Keys == s.tickets.Keys
    && (forall id <- s.tickets :: r.tickets[id] == s.tickets[id].key)
  }

  /** The worlds after a walk that picked something, or nothing. */
  lemma WorldsAfterWalk(maxAge: nat, now: int, s: SharedWorld, r: RedisWorld, ids: set<string>,
                        shared: (Lists, nat), redis: (Sets, nat), targets: seq<Target>, id: string)
    requires WorldsAgree(maxAge, now, s, r, ids)
    requires WalksAgree(maxAge, now, shared, redis, s.tickets, ids, targets, id)
    ensures WorldsAgree(maxAge, now, SharedTicket(s, shared.0, shared.1, targets, id, now),
                        RedisTicket(r, redis.0, redis.1, targets, id), ids + {id})
  {
    if shared.1 == 0 {
      MoreIds(maxAge, now, shared.0, redis.0, s.tickets, ids, id);
    }
  }

  lemma ReserveStepAgrees(maxAge: nat, s: SharedWorld, r: RedisWorld, ids: set<string>, op: Op)
    requires WorldsAgree(maxAge, op.now, s, r, ids) && 0 < op.now
    requires op.Reserve? && op.id !in ids && op.id != ""
    ensures SharedDo(maxAge, s, op).1 == RedisDo(maxAge, r, op).1
    ensures WorldsAgree(maxAge, op.now, SharedDo(maxAge, s, op).0, RedisDo(maxAge, r, op).0, ids + {op.id})
  {
    var shared := SharedReserve(s.lists, op.targets, op.now, maxAge);
    var redis := RedisReserve(r.sets, op.targets, op.id, op.now, maxAge);
    ReserveAgrees(maxAge, op.now, s.lists, r.sets, s.tickets, ids, op.targets, op.id);
    WorldsAfterWalk(maxAge, op.now, s, r, ids, shared, redis, op.targets, op.id);
  }

  lemma FinishStepAgrees(maxAge: nat, s: SharedWorld, r: RedisWorld, ids: set<string>, op: Op)
    requires WorldsAgree(maxAge, op.now, s, r, ids) && 0 < op.now && op.Finish?
    ensures WorldsAgree(maxAge, op.now, SharedDo(maxAge, s, op).0, RedisDo(maxAge, r, op).0, ids)
  {
    if op.id in s.tickets {
      ReleaseAgrees(maxAge, op.now, s.lists, r.sets, s.tickets, ids, op.id);
    }
  }

  /** One operation on agreeing worlds: the same answer, and worlds that agree again. */
  lemma StepAgrees(maxAge: nat, s: SharedWorld, r: RedisWorld, ids: set<string>, op: Op)
    requires WorldsAgree(maxAge, op.now, s, r, ids) && 0 < op.now
    requires op.Reserve? ==> op.id !in ids && op.id != ""
    ensures SharedDo(maxAge, s, op).1 == RedisDo(maxAge, r, op).1
    ensures WorldsAgree(maxAge, op.now, SharedDo(maxAge, s, op).0, RedisDo(maxAge, r, op).0,
                        if op.Reserve? then ids + {op.id} else ids)
  {
    match op
    case Reserve(_, _, _) =>
      ReserveStepAgrees(maxAge, s, r, ids, op);
    case Finish(_, _) =>
      FinishStepAgrees(maxAge, s, r, ids, op);
    case FinishUnreserved(key, now) =>
      PruneAgrees(maxAge, now, s.lists, r.sets, s.tickets, ids, key);
    case Count(key, now) =>
      SameCount(maxAge, now, key, s.lists, r.sets, s.tickets, ids);
  }

  lemma MoreIds(maxAge: nat, now: int, lists: Lists, sets: Sets, tickets: map<string, Held>, ids: set<string>,
                id: string)
    ensures Related(maxAge, now, lists, sets, tickets, ids) ==> Related(maxAge, now, lists, sets, tickets, ids + {id})
  {
    if Related(maxAge, now, lists, sets, tickets, ids) {
      forall key
        ensures KeyOk(maxAge, now, key, ListOf(lists, key), EntriesOf(sets, key, now), tickets, ids + {id})
      {
        assert KeyOk(maxAge, now, key, ListOf(lists, key), EntriesOf(sets, key, now), tickets, ids);
      }
    }
  }

  lemma {:induction false} RunsAgree(maxAge: nat, ops: seq<Op>, now: int)
    requires Legal(ops) && (ops != [] ==> ops[|ops| - 1].now <= now)
    ensures WorldsAgree(maxAge, now, SharedRun(maxAge, ops), RedisRun(maxAge, ops), IdsOf(ops))
  {
    if ops == [] {
      NothingYet(maxAge, now);
    } else {
      var n := |ops| - 1;
      var op, before := ops[n], ops[..n];
      LegalPrefix(ops, n);
      RunsAgree(maxAge, before, op.now);
      IdsSnoc(ops);
      StepAgrees(maxAge, SharedRun(maxAge, before), RedisRun(maxAge, before), IdsOf(before), op);
      var s', r' := SharedRun(maxAge, ops), RedisRun(maxAge, ops);
      TimePasses(maxAge, op.now, now, s'.lists, r'.sets, s'.tickets, IdsOf(ops));
    }
  }

  lemma NothingYet(maxAge: nat, now: int)
    ensures WorldsAgree(maxAge, now, SharedRun(maxAge, []), RedisRun(maxAge, []), IdsOf([]))
  {
    var s, r := SharedRun(maxAge, []), RedisRun(maxAge, []);
    forall key
      ensures KeyOk(maxAge, now, key, ListOf(s.lists, key), EntriesOf(r.sets, key, now), s.tickets, IdsOf([]))
    {
      assert ListOf(s.lists, key) == [] && EntriesOf(r.sets, key, now) == [];
    }
  }

  lemma LegalPrefix(ops: seq<Op>, n: nat)
    requires Legal(ops) && n < |ops|
    ensures Legal(ops[..n]) && 0 < ops[n].now && (n > 0 ==> ops[..n][n - 1].now <= ops[n].now)
    ensures ops[n].Reserve? ==> ops[n].id !in IdsOf(ops[..n]) && ops[n].id != ""
  {
  }

  lemma IdsSnoc(ops: seq<Op>)
    requires ops != []
    ensures var op := ops[|ops| - 1];
      IdsOf(ops) == if op.Reserve? then IdsOf(ops[..|ops| - 1]) + {op.id} else IdsOf(ops[..|ops| - 1])
  {
    assert ops == ops[..|ops| - 1] + [ops[|ops| - 1]];
  }

  /** OBSERVATIONAL EQUIVALENCE. Started empty and fed the same legal sequence, the two
      stores give the same answer to every operation: the same pick for every walk and the
      same live count for every read. */
  lemma StoresAnswerAlike(maxAge: nat, ops: seq<Op>, i: nat)
    requires Legal(ops) && i < |ops|
    ensures SharedDo(maxAge, SharedRun(maxAge, ops[..i]), ops[i]).1
         == RedisDo(maxAge, RedisRun(maxAge, ops[..i]), ops[i]).1
  {
    LegalPrefix(ops, i);
    RunsAgree(maxAge, ops[..i], ops[i].now);
    StepAgrees(maxAge, SharedRun(maxAge, ops[..i]), RedisRun(maxAge, ops[..i]), IdsOf(ops[..i]), ops[i]);
  }

  /** Why time has to be positive: an entry started at instant 0 is never released from
      shared data, where a zero start time means "nothing was reserved". */
  lemma ZeroStartIsNotReleased(maxAge: nat)
    requires 0 < maxAge
    ensures var ops := [Reserve([Target("k", 1)], "a", 0), Finish("a", 0)];
      && SharedDo(maxAge, SharedRun(maxAge, ops), Count("k", 0)).1 == Counted(1)
      && RedisDo(maxAge, RedisRun(maxAge, ops), Count("k", 0)).1 == Counted(0)
  {
    var reserve, finish := Reserve([Target("k", 1)], "a", 0), Finish("a", 0);
    var ops := [reserve, finish];
    assert ops[..1] == [reserve] && [reserve][..0] == [];
    var s1 := SharedDo(maxAge, SharedWorld(map[], map[]), reserve).0;
    assert SharedRun(maxAge, [reserve]) == s1;
    assert Prune(ListOf(map[], "k"), 0, maxAge) == [];
    var none: Lists := map[];
    assert !AtCap(Config(1, maxAge), Prune(ListOf(none, "k"), 0, maxAge));
    assert SharedReserve(none, [Target("k", 1)], 0, maxAge) == (none["k" := [] + [0]], 1);
    assert none["k" := [] + [0]] == map["k" := [0]] by {
      var empty: seq<int> := [];
      assert empty + [0] == [0];
    }
    assert s1.lists == map["k" := [0]];
    assert SharedRun(maxAge, ops) == SharedDo(maxAge, s1, finish).0;
    assert [0][..0] == [];
    assert Prune([0], 0, maxAge) == [0];
    var r1 := RedisDo(maxAge, RedisWorld(map[], map[]), reserve).0;
    assert RedisRun(maxAge, [reserve]) == r1;
    var e := Entry("a", 0);
    assert RedisTry(map[], Target("k", 1), "a", 0, maxAge).1;
    assert Without([], "a") == [] && Above([], InflightCutoff(0, maxAge)) == [];
    assert r1.sets["k"].entries == [e];
    assert RedisRun(maxAge, ops) == RedisDo(maxAge, r1, finish).0;
    assert [e][..0] == [];
    assert Without([e], "a") == [];
  }

  /** Like Legal, with clocks that start at `from`. */
  predicate LegalFrom(ops: seq<Op>, from: int) {
    && (forall i | 0 <= i < |ops| :: from <= ops[i].now && (ops[i].Reserve? ==> ops[i].id != ""))
    && (forall i, j | 0 <= i < j < |ops| :: ops[i].now <= ops[j].now)
    && (forall i, j | 0 <= i < j < |ops| :: ops[i].Reserve? && ops[j].Reserve? ==> ops[i].id != ops[j].id)
  }

  predicate SameAnswer(maxAge: nat, ops: seq<Op>, i: nat)
    requires i < |ops|
  {
    SharedDo(maxAge, SharedRun(maxAge, ops[..i]), ops[i]).1 == RedisDo(maxAge, RedisRun(maxAge, ops[..i]), ops[i]).1
  }

  predicate AnswerAlike(maxAge: nat, ops: seq<Op>) {
    forall i | 0 <= i < |ops| :: SameAnswer(maxAge, ops, i)
  }

  lemma LaterClocksAlike(maxAge: nat, ops: seq<Op>, from: int)
    requires LegalFrom(ops, from) && 0 < from
    ensures AnswerAlike(maxAge, ops)
  {
    forall i | 0 <= i < |ops|
      ensures SameAnswer(maxAge, ops, i)
    {
      StoresAnswerAlike(maxAge, ops, i);
    }
  }

  lemma LastAnswerDiffers(maxAge: nat, first: seq<Op>, op: Op)
    requires SharedDo(maxAge, SharedRun(maxAge, first), op).1 != RedisDo(maxAge, RedisRun(maxAge, first), op).1
    ensures !AnswerAlike(maxAge, first + [op])
  {
    assert (first + [op])[..|first|] == first;
    assert !SameAnswer(maxAge, first + [op], |first|);
  }

  lemma ZeroClockDiffers(maxAge: nat) returns (ops: seq<Op>)
    requires 0 < maxAge
    ensures LegalFrom(ops, 0) && !AnswerAlike(maxAge, ops)
  {
    ops := [Reserve([Target("k", 1)], "a", 0), Finish("a", 0)] + [Count("k", 0)];
    ZeroOpsLegal(ops);
    ZeroStartIsNotReleased(maxAge);
    LastAnswerDiffers(maxAge, [Reserve([Target("k", 1)], "a", 0), Finish("a", 0)], Count("k", 0));
  }

  lemma ZeroOpsLegal(ops: seq<Op>)
    requires |ops| == 3 && ops[0].Reserve? && ops[0].id != "" && ops[1].Finish? && ops[2].Count?
    requires ops[0].now == ops[1].now == ops[2].now == 0
    ensures LegalFrom(ops, 0)
  {
  }

  /** The stores are equivalent exactly when the clock never shows an instant before 1. */
  lemma AlikeExactlyWhen(maxAge: nat, from: int)
    requires 0 < maxAge
    ensures (forall ops | LegalFrom(ops, from) :: AnswerAlike(maxAge, ops)) <==> 0 < from
  {
    if 0 < from {
      forall ops | LegalFrom(ops, from)
        ensures AnswerAlike(maxAge, ops)
      {
        LaterClocksAlike(maxAge, ops, from);
      }
    } else {
      var ops := ZeroClockDiffers(maxAge);
      assert LegalFrom(ops, from);
    }
  }

  /** The lifetime of a sorted set: a minute, or twice the leak horizon if that is longer, in whole
      seconds. */
  lemma InflightTTLIs(maxAge: nat)
    ensures var ttl := InflightTTLSeconds(maxAge);
      if 2 * maxAge < 60 * 1000 then ttl == 60 else ttl * 1000 <= 2 * maxAge < (ttl + 1) * 1000
  {
  }
}
