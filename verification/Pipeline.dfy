/** One request from the configuration to its slot: publish, select, reserve. */
module Pipeline {
  import opened CandidateFilter
  import opened Dice
  import opened Finisher
  import opened InflightStores
  import opened Publication
  import opened ReserveWalk
  import opened Wire
  import opened Wrappers
  import CandidateConfig

  /** None: nobody is published, and the gateway answers itself. */
  type Outcome = Option<Decision>

  /** `d` is a configured candidate as it is published, one that is not cooling down unless all
      are and failing open is on. */
  ghost predicate Eligible(states: States, specs: seq<Candidate>, now: int, failOpen: bool, d: Candidate) {
    exists i: nat, load ::
      && i < |specs| && Stays(states, specs, now, failOpen, i)
      && Busiest(states, specs, now, load) && Carries(states, specs[i], now, load, d)
  }

  lemma PublishedAreEligible(states: States, specs: seq<Candidate>, now: int, failOpen: bool)
    ensures forall d <- Published(states, specs, now, failOpen) :: Eligible(states, specs, now, failOpen, d)
  {
    var cands := Published(states, specs, now, failOpen);
    var kept, load := PublishedExactly(states, specs, now, failOpen);
    forall d | d in cands
      ensures Eligible(states, specs, now, failOpen, d)
    {
      var p :| 0 <= p < |cands| && cands[p] == d;
      assert kept[p] in kept && Carries(states, specs[kept[p]], now, load, d);
    }
  }

  /** FROM CONFIGURATION TO SLOT. With an accepted configuration and a host that reports no
      error: no answer exactly when nobody may be published; otherwise the request is refused or
      takes one slot, and then its candidate has room, is not cooling down unless everybody is, and
      on a weighted set with any weight at all it owns the request's point. */
  method Serve(selector: Selector, store: SharedDataStore, states: States, specs: seq<Candidate>, failOpen: bool,
               ranks: seq<Rank>, hash: uint64, published: int, now: int, token: string)
    returns (d: Outcome, cands: seq<Candidate>)
    requires CandidateConfig.Accepted(specs) && store.reliable
    modifies selector.cursor, store
    ensures cands == Published(states, specs, published, failOpen)
    ensures d.None? <==> specs == [] || (!failOpen && AllCooling(states, specs, published))
    ensures d.None? ==> store.lists == old(store.lists)
    ensures d.Some? ==> Settles(d.value, cands, ranks, hash, old(selector.cursor.next), old(store.lists), store.lists,
                                now, store.maxAge, token)
    ensures d.Some? && d.value.Routed? ==> d.value.position < |cands| && d.value.token == Some(token)
    ensures d.Some? && d.value.Routed? ==> Eligible(states, specs, published, failOpen, cands[d.value.position])
    ensures d.Some? && d.value.Routed? && 0 < Whole(WeightsOf(cands))
      ==> Owns(WeightsOf(cands), d.value.position, hash % Whole(WeightsOf(cands)))
  {
    cands := BuildCandidateSet(states, specs, published, failOpen);
    NobodyPublished(states, specs, published, failOpen);
    PublishedAreEligible(states, specs, published, failOpen);
    CandidateConfig.PublishedAccepted(states, specs, published, failOpen);
    if cands == [] {
      return None, cands;
    }
    PositiveIsWeighted(cands);
    var decision := Route(selector, store, cands, ranks, hash, now, token);
    return Some(decision), cands;
  }
}
