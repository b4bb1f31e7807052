/** The finisher's decision from the published candidates to the reserved target. */
module Finisher {
  import opened Dice
  import opened InflightStores
  import opened ReserveWalk
  import opened Voting
  import opened Wire
  import opened Wrappers
  import Affinity
  import LeastLoad
  import Stickiness

  /** The plugins had a say: the set is unweighted and some opinion has a valid score. */
  predicate Scored(cands: seq<Candidate>, ranks: seq<Rank>) {
    !IsWeighted(cands) && Contributed(ranks, KeysOf(cands))
  }

  function TotalsOf(cands: seq<Candidate>, ranks: seq<Rank>): (totals: seq<real>)
    ensures |totals| == |cands|
  {
    seq(|cands|, i requires 0 <= i < |cands| => Total(ranks, KeysOf(cands), cands[i].Key()))
  }

  /** Whom the selection prefers: weights roll the dice and silence the opinions; opinions vote;
      with neither, the candidates take turns. */
  predicate Preferred(cands: seq<Candidate>, ranks: seq<Rank>, hash: uint64, turn: nat, p: nat) {
    && p < |cands|
    && var whole := Whole(WeightsOf(cands));
      if IsWeighted(cands) && 0 < whole <= MAX_INT64 then Owns(WeightsOf(cands), p, hash % whole)
      else if IsWeighted(cands) then p == hash % |cands|
      else if Scored(cands, ranks) then IsBest(TotalsOf(cands, ranks), p)
      else p == turn % |cands|
  }

  class Selector {
    const cursor: Cursor

    constructor (cursor: Cursor)
      ensures this.cursor == cursor
    {
      this.cursor := cursor;
    }

    /** selectCandidate. `totals` is empty unless there was a vote. */
    method SelectCandidate(cands: seq<Candidate>, ranks: seq<Rank>, hash: uint64) returns (pick: int, totals: seq<real>)
      modifies cursor
      ensures if cands == [] then pick == -1 else 0 <= pick && Preferred(cands, ranks, hash, old(cursor.next), pick)
      ensures totals == if Scored(cands, ranks) then TotalsOf(cands, ranks) else []
      ensures IsWeighted(cands) || Scored(cands, ranks) || cands == [] ==> cursor.next == old(cursor.next)
    {
      if cands == [] {
        NobodyVotesOnNothing(ranks);
        return -1, [];
      }
      if IsWeighted(cands) {
        pick := SelectWeighted(WeightsOf(cands), hash);
        return pick, [];
      }
      var combined, contributed := CombineRanks(KeysOf(cands), ranks);
      if !contributed {
        pick := cursor.RoundRobin(|cands|);
        return pick, [];
      }
      totals := combined[..];
      assert totals == TotalsOf(cands, ranks);
      pick := BestTotal(totals);
    }
  }

  lemma NobodyVotesOnNothing(ranks: seq<Rank>)
    ensures !Contributed(ranks, KeysOf([]))
  {
    assert KeysOf([]) == [];
  }

  /** What SelectCandidate picks is the session's owner, when session affinity has a say and
      the other opinions together weigh at most a quarter of it. */
  lemma SelectedIsOwner(h: Affinity.Hash, cands: seq<Candidate>, ranks: seq<Rank>, a: nat, pick: nat)
    requires Distinct(KeysOf(cands)) && IsBest(TotalsOf(cands, ranks), pick)
    requires a < |ranks| && ranks[a].scores == Affinity.ScoresFor(h, KeysOf(cands))
    requires Stickiness.AtMostAQuarter(ranks, a, KeysOf(cands))
    ensures Stickiness.IsOwner(h, KeysOf(cands), cands[pick].Key())
  {
    var keys, totals := KeysOf(cands), TotalsOf(cands, ranks);
    forall k | k in keys
      ensures Total(ranks, keys, k) <= Total(ranks, keys, keys[pick])
    {
      var i :| 0 <= i < |keys| && keys[i] == k;
      assert totals[i] <= totals[pick];
    }
    Stickiness.OwnerWins(h, keys, ranks, a, keys[pick]);
  }

  /** And with least-load as the only opinion it is a candidate with minimum effective load. */
  lemma SelectedHasLeastLoad(cands: seq<Candidate>, w: real, pick: nat, i: nat)
    requires Distinct(KeysOf(cands)) && IsBest(TotalsOf(cands, [LeastLoad.LoadRank(w, cands)]), pick)
    requires i < |cands|
    ensures LeastLoad.EffectiveLoad(cands[pick]) <= LeastLoad.EffectiveLoad(cands[i])
  {
    var totals := TotalsOf(cands, [LeastLoad.LoadRank(w, cands)]);
    assert totals[i] <= totals[pick];
    LeastLoad.LeastLoadWins(w, cands, pick, i);
  }

  // ----- where the request ends up -----

  /** Weights or turns leave no choice. */
  lemma OnePreferred(cands: seq<Candidate>, ranks: seq<Rank>, hash: uint64, turn: nat, p: nat, q: nat)
    requires Preferred(cands, ranks, hash, turn, p) && Preferred(cands, ranks, hash, turn, q)
    requires !Scored(cands, ranks)
    ensures p == q
  {
    var ws := WeightsOf(cands);
    if IsWeighted(cands) && 0 < Whole(ws) <= MAX_INT64 {
      OneOwner(ws, p, q, hash % Whole(ws));
    }
  }

  /** The one in turn if it has room, otherwise the first in published order that has. */
  predicate FirstAfterTurn(cands: seq<Candidate>, turn: nat, lists: Lists, now: int, maxAge: int, p: nat) {
    && turn < |cands| && p < |cands| && RoomFor(lists, cands[p], now, maxAge)
    && (p != turn ==> !RoomFor(lists, cands[turn], now, maxAge)
                      && forall c | 0 <= c < p :: !RoomFor(lists, cands[c], now, maxAge))
  }

  /** The request may take a slot at `p`. */
  predicate Granted(cands: seq<Candidate>, ranks: seq<Rank>, hash: uint64, turn: nat, lists: Lists, now: int,
                    maxAge: int, p: nat)
  {
    if IsWeighted(cands) then
      Preferred(cands, ranks, hash, turn, p) && RoomFor(lists, cands[p], now, maxAge)
    else if Scored(cands, ranks) then BestWithRoom(cands, TotalsOf(cands, ranks), lists, now, maxAge, p)
    else cands != [] && FirstAfterTurn(cands, turn % |cands|, lists, now, maxAge, p)
  }

  /** Nobody who may take the request has room: on a weighted set that is the preferred one. */
  predicate Refused(cands: seq<Candidate>, ranks: seq<Rank>, hash: uint64, turn: nat, lists: Lists, now: int,
                    maxAge: int)
  {
    forall p | 0 <= p < |cands| && (IsWeighted(cands) ==> Preferred(cands, ranks, hash, turn, p)) ::
      !RoomFor(lists, cands[p], now, maxAge)
  }

  /** Behind its head a rising walk comes past everything smaller than where it stands. */
  lemma SmallerComesEarlier(out: seq<nat>, n: nat, at: nat, c: nat) returns (i: nat)
    requires Permutation(out, n) && 0 < at < n && Rising(out[1..]) && c < out[at]
    ensures i < at && out[i] == c
  {
    PermutationCovers(out, n, c);
    forall j | at < j < n
      ensures out[at] < out[j]
    {
      assert out[1..][at - 1] < out[1..][j - 1];
    }
    i :| 0 <= i < |out| && out[i] == c;
  }

  /** Behind the one in turn the first with room is the first in published order. */
  lemma FirstInTurn(cands: seq<Candidate>, out: seq<nat>, lists: Lists, now: int, maxAge: int, at: nat)
    requires Permutation(out, |cands|) && at < |out| && Rising(out[1..])
    requires RoomFor(lists, cands[out[at]], now, maxAge)
    requires forall i | 0 <= i < at :: !RoomFor(lists, cands[out[i]], now, maxAge)
    ensures FirstAfterTurn(cands, out[0], lists, now, maxAge, out[at])
  {
    if at > 0 {
      forall c | 0 <= c < out[at]
        ensures !RoomFor(lists, cands[c], now, maxAge)
      {
        var i := SmallerComesEarlier(out, |cands|, at, c);
      }
    }
  }

  /** A walk in published order behind the one in turn stops where it should. */
  lemma RisingWalk(cands: seq<Candidate>, out: seq<nat>, lists: Lists, now: int, maxAge: int, token: string)
    requires Permutation(out, |cands|) && out != [] && Rising(out[1..])
    ensures var d := Decide(cands, out, lists, now, maxAge, token);
      && (d.CapRejected? ==> forall c | 0 <= c < |cands| :: !RoomFor(lists, cands[c], now, maxAge))
      && (d.Routed? ==> d.token == Some(token) && FirstAfterTurn(cands, out[0], lists, now, maxAge, d.position))
  {
    var pick := SharedReserve(lists, TargetsOf(cands, out), now, maxAge).1;
    WalkStops(cands, out, lists, now, maxAge);
    if pick == 0 {
      NobodyHasRoom(cands, out, lists, now, maxAge);
    } else {
      FirstInTurn(cands, out, lists, now, maxAge, pick - 1);
    }
  }

  /** The outcome is one the finisher may give, and the store has changed accordingly. */
  predicate Settles(d: Decision, cands: seq<Candidate>, ranks: seq<Rank>, hash: uint64, turn: nat, before: Lists,
                    after: Lists, now: int, maxAge: int, token: string)
  {
    match d
    case CapRejected =>
      after == before && Refused(cands, ranks, hash, turn, before, now, maxAge)
    case Routed(p, Some(t)) =>
      && t == token && p < |cands| && after == OneMore(before, cands[p].Key(), now, maxAge)
      && Granted(cands, ranks, hash, turn, before, now, maxAge, p)
    case Routed(p, None) =>
      SameEntries(before, after) && Preferred(cands, ranks, hash, turn, p)
  }

  /** What the store holds after the walk. */
  lemma AfterWalk(cands: seq<Candidate>, order: seq<nat>, lists: Lists, now: int, maxAge: int, token: string)
    requires order != [] && Below(order, |cands|)
    ensures var d := Decide(cands, order, lists, now, maxAge, token);
      && (d.CapRejected? || (d.position < |cands| && d.token == Some(token)))
      && SharedReserve(lists, TargetsOf(cands, order), now, maxAge).0
         == if d.CapRejected? then lists else OneMore(lists, cands[d.position].Key(), now, maxAge)
  {
    FirstWithRoom(lists, TargetsOf(cands, order), now, maxAge);
  }

  /** A weighted set: the walk is the preferred one alone. */
  lemma WeightedSettles(cands: seq<Candidate>, ranks: seq<Rank>, hash: uint64, turn: nat, pick: nat,
                        order: seq<nat>, lists: Lists, now: int, maxAge: int, token: string)
    requires Preferred(cands, ranks, hash, turn, pick) && IsWeighted(cands) && order == [pick]
    ensures var d := Decide(cands, order, lists, now, maxAge, token);
      && (d.CapRejected? ==> Refused(cands, ranks, hash, turn, lists, now, maxAge))
      && (d.Routed? ==> d.position < |cands| && Granted(cands, ranks, hash, turn, lists, now, maxAge, d.position))
  {
    WalkStops(cands, order, lists, now, maxAge);
    forall p | 0 <= p < |cands| && Preferred(cands, ranks, hash, turn, p)
      ensures p == pick
    {
      OnePreferred(cands, ranks, hash, turn, p, pick);
    }
  }

  /** An unweighted set: the walk is everybody, by votes or by turns. */
  lemma UnweightedSettles(cands: seq<Candidate>, ranks: seq<Rank>, hash: uint64, turn: nat, pick: nat,
                          order: seq<nat>, lists: Lists, now: int, maxAge: int, token: string)
    requires Distinct(KeysOf(cands)) && Preferred(cands, ranks, hash, turn, pick) && !IsWeighted(cands)
    requires FullWalk(order, pick, KeysOf(cands))
    requires if Scored(cands, ranks) then Falling(order[1..], TotalsOf(cands, ranks)) else Rising(order[1..])
    ensures Below(order, |cands|)
    ensures var d := Decide(cands, order, lists, now, maxAge, token);
      && (d.CapRejected? ==> Refused(cands, ranks, hash, turn, lists, now, maxAge))
      && (d.Routed? ==> d.position < |cands| && Granted(cands, ranks, hash, turn, lists, now, maxAge, d.position))
  {
    FullWalkIsPermutation(order, pick, KeysOf(cands));
    if Scored(cands, ranks) {
      FallingFromBest(order, TotalsOf(cands, ranks));
      RoutedIsBestWithRoom(cands, order, TotalsOf(cands, ranks), lists, now, maxAge, token);
    } else {
      RisingWalk(cands, order, lists, now, maxAge, token);
    }
  }

  /** The walk of SelectCandidate and ReserveOrder, once the store has answered. */
  lemma WalkSettles(cands: seq<Candidate>, ranks: seq<Rank>, hash: uint64, turn: nat, pick: nat, order: seq<nat>,
                    lists: Lists, now: int, maxAge: int, token: string)
    requires Distinct(KeysOf(cands)) && Preferred(cands, ranks, hash, turn, pick)
    requires IsWeighted(cands) ==> order == [pick]
    requires !IsWeighted(cands) ==> FullWalk(order, pick, KeysOf(cands))
    requires !IsWeighted(cands) ==>
      if Scored(cands, ranks) then Falling(order[1..], TotalsOf(cands, ranks)) else Rising(order[1..])
    ensures order != [] && order[0] == pick && Below(order, |cands|)
    ensures Decide(cands, order, lists, now, maxAge, token).Routed?
      ==> Decide(cands, order, lists, now, maxAge, token).token == Some(token)
    ensures Settles(Decide(cands, order, lists, now, maxAge, token), cands, ranks, hash, turn, lists,
                    SharedReserve(lists, TargetsOf(cands, order), now, maxAge).0, now, maxAge, token)
  {
    if IsWeighted(cands) {
      WeightedSettles(cands, ranks, hash, turn, pick, order, lists, now, maxAge, token);
    } else {
      UnweightedSettles(cands, ranks, hash, turn, pick, order, lists, now, maxAge, token);
    }
    AfterWalk(cands, order, lists, now, maxAge, token);
  }

  /** WHERE THE REQUEST ENDS UP, on the shared-data backend with nobody else about. Scored: at the
      best candidate with room. Unweighted without votes: at the one in turn, else the first with
      room. Weighted: where the dice fell. It is refused when nobody of those has room, and only
      a failing host routes it without a slot, to the preferred candidate. */
  method Route(selector: Selector, store: SharedDataStore, cands: seq<Candidate>, ranks: seq<Rank>,
               hash: uint64, now: int, token: string) returns (d: Decision)
    requires cands != [] && Distinct(KeysOf(cands))
    modifies selector.cursor, store
    ensures Settles(d, cands, ranks, hash, old(selector.cursor.next), old(store.lists), store.lists, now, store.maxAge,
                    token)
    ensures store.reliable && d.Routed? ==> d.token == Some(token)
  {
    ghost var turn, lists := selector.cursor.next, store.lists;
    var pick, totals := selector.SelectCandidate(cands, ranks, hash);
    var order := ReserveOrder(cands, pick, totals);
    WalkSettles(cands, ranks, hash, turn, pick, order, lists, now, store.maxAge, token);
    var reserved, _ := store.Reserve(TargetsOf(cands, order), now);
    d := FinalizeSelection(order, reserved, token);
    if reserved == RESERVE_FAIL_OPEN {
      assert d == Routed(pick, None);
    } else {
      assert d == Decide(cands, order, lists, now, store.maxAge, token);
    }
  }

  /** BY WHAT IS PUBLISHED. One weight on any candidate and the dice alone decide; without weights
      a positive score for any candidate makes it a vote; with neither, they take turns. */
  lemma SettledBy(d: Decision, cands: seq<Candidate>, ranks: seq<Rank>, hash: uint64, turn: nat, before: Lists,
                  after: Lists, now: int, maxAge: int, token: string)
    requires Settles(d, cands, ranks, hash, turn, before, after, now, maxAge, token)
    requires d.Routed? && d.token.Some?
    ensures var p, ws := d.position, WeightsOf(cands);
      var scored := exists n | 0 <= n < |ranks| :: HasScore(ranks[n], KeysOf(cands));
      && p < |cands| && RoomFor(before, cands[p], now, maxAge)
      && if exists i | 0 <= i < |cands| :: cands[i].weight.Some? then
           if 0 < Whole(ws) <= MAX_INT64 then Owns(ws, p, hash % Whole(ws)) else p == hash % |cands|
         else if scored then BestWithRoom(cands, TotalsOf(cands, ranks), before, now, maxAge, p)
         else FirstAfterTurn(cands, turn % |cands|, before, now, maxAge, p)
  {
    ContributedExactlyWhen(ranks, KeysOf(cands));
  }

  /** A positive total means that some candidate carries a weight. */
  lemma {:induction false} PositiveIsWeighted(cands: seq<Candidate>)
    ensures 0 < Whole(WeightsOf(cands)) ==> exists i | 0 <= i < |cands| :: cands[i].weight.Some?
  {
    if cands != [] {
      var n := |cands| - 1;
      PositiveIsWeighted(cands[..n]);
      assert WeightsOf(cands)[..n] == WeightsOf(cands[..n]);
      assert forall i | 0 <= i < n :: cands[..n][i] == cands[i];
    }
  }

  /** And a refusal means that whoever may take the request is full: without weights everybody, with
      weights the owner of the point. */
  lemma RefusedBy(d: Decision, cands: seq<Candidate>, ranks: seq<Rank>, hash: uint64, turn: nat, before: Lists,
                  after: Lists, now: int, maxAge: int, token: string, p: nat)
    requires Settles(d, cands, ranks, hash, turn, before, after, now, maxAge, token)
    requires d.CapRejected? && p < |cands|
    ensures (forall i | 0 <= i < |cands| :: cands[i].weight.None?) ==> !RoomFor(before, cands[p], now, maxAge)
    ensures 0 < Whole(WeightsOf(cands)) <= MAX_INT64 && Owns(WeightsOf(cands), p, hash % Whole(WeightsOf(cands))) ==>
      !RoomFor(before, cands[p], now, maxAge)
  {
    PositiveIsWeighted(cands);
  }
}
