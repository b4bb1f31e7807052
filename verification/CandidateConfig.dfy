/** The candidate list as configured: what is accepted, the order it is put in, and what of it
    still holds of the candidates that are published. */
module CandidateConfig {
  import opened Bytes
  import opened CandidateFilter
  import opened CandidateOrder
  import opened Dice
  import opened Wire

  predicate NoneNegative(ws: seq<int64>) {
    forall i | 0 <= i < |ws| :: 0 <= ws[i]
  }

  /** What parseLB demands of the whole list. */
  predicate Accepted(cands: seq<Candidate>) {
    && NoneNegative(WeightsOf(cands)) && Whole(WeightsOf(cands)) <= MAX_INT64
    && Distinct(KeysOf(cands))
  }

  // ----- acceptance does not depend on the order -----

  lemma WholeSnoc(cands: seq<Candidate>, c: Candidate)
    ensures Whole(WeightsOf(cands + [c])) == Whole(WeightsOf(cands)) + Share(WeightOf(c))
  {
    var ws := WeightsOf(cands + [c]);
    assert ws[..|cands|] == WeightsOf(cands);
  }

  lemma {:induction false} WholeDropped(cands: seq<Candidate>, i: nat)
    requires i < |cands|
    ensures Whole(WeightsOf(cands)) == Whole(WeightsOf(Dropped(cands, i))) + Share(WeightOf(cands[i]))
    decreases |cands|
  {
    var n := |cands| - 1;
    var front := cands[..n];
    assert cands == front + [cands[n]];
    WholeSnoc(front, cands[n]);
    if i < n {
      WholeDropped(front, i);
      assert Dropped(cands, i) == Dropped(front, i) + [cands[n]];
      WholeSnoc(Dropped(front, i), cands[n]);
    } else {
      assert Dropped(cands, i) == front;
    }
  }

  /** The key is that of none of them. */
  predicate Unlike(cands: seq<Candidate>, key: string) {
    forall i | 0 <= i < |cands| :: cands[i].Key() != key
  }

  lemma DroppedAt<T>(s: seq<T>, i: nat, j: nat)
    requires i < |s| && j < |s| - 1
    ensures Dropped(s, i)[j] == s[if j < i then j else j + 1]
  {
  }

  lemma DroppedAccepted(cands: seq<Candidate>, i: nat)
    requires Accepted(cands) && i < |cands|
    ensures Accepted(Dropped(cands, i)) && Unlike(Dropped(cands, i), cands[i].Key())
  {
    var less, keys := Dropped(cands, i), KeysOf(cands);
    WholeDropped(cands, i);
    forall j | 0 <= j < |less|
      ensures less[j].Key() != cands[i].Key() && 0 <= WeightOf(less[j])
    {
      DroppedAt(cands, i, j);
      var k := if j < i then j else j + 1;
      assert keys[k] != keys[i] && 0 <= WeightsOf(cands)[k];
    }
    forall j, k | 0 <= j < k < |less|
      ensures less[j].Key() != less[k].Key()
    {
      DroppedAt(cands, i, j);
      DroppedAt(cands, i, k);
      assert keys[if j < i then j else j + 1] != keys[if k < i then k else k + 1];
    }
  }

  lemma SnocAccepted(cands: seq<Candidate>, c: Candidate)
    requires Accepted(cands) && 0 <= WeightOf(c) && Unlike(cands, c.Key())
    requires Whole(WeightsOf(cands + [c])) <= MAX_INT64
    ensures Accepted(cands + [c])
  {
    var more, n := cands + [c], |cands|;
    forall j | 0 <= j < n
      ensures 0 <= WeightOf(more[j]) && more[j].Key() != more[n].Key()
    {
      assert more[j] == cands[j] && 0 <= WeightsOf(cands)[j];
    }
    forall j, k | 0 <= j < k < n
      ensures more[j].Key() != more[k].Key()
    {
      assert KeysOf(cands)[j] != KeysOf(cands)[k];
    }
  }

  /** The last of one listing can be taken out of the other. */
  lemma TakeOut(a: seq<Candidate>, b: seq<Candidate>) returns (i: nat)
    requires multiset(a) == multiset(b) && b != []
    ensures i < |a| && a[i] == b[|b| - 1]
    ensures multiset(Dropped(a, i)) == multiset(b[..|b| - 1])
  {
    var n := |b| - 1;
    DroppedCount(b, n);
    assert Dropped(b, n) == b[..n];
    assert b[n] in multiset(a);
    i :| 0 <= i < |a| && a[i] == b[n];
    DroppedCount(a, i);
    Cancel(multiset(Dropped(a, i)), multiset(b[..n]), b[n]);
  }

  lemma Cancel(x: multiset<Candidate>, y: multiset<Candidate>, c: Candidate)
    requires x + multiset{c} == y + multiset{c}
    ensures x == y
  {
    assert x == x + multiset{c} - multiset{c} && y == y + multiset{c} - multiset{c};
  }

  lemma DroppedCount(s: seq<Candidate>, i: nat)
    requires i < |s|
    ensures multiset(s) == multiset(Dropped(s, i)) + multiset{s[i]}
  {
    assert s == s[..i] + ([s[i]] + s[i + 1..]);
  }

  lemma UnlikeAnyOrder(a: seq<Candidate>, b: seq<Candidate>, key: string)
    requires multiset(a) == multiset(b) && Unlike(a, key)
    ensures Unlike(b, key)
  {
    forall i | 0 <= i < |b|
      ensures b[i].Key() != key
    {
      assert b[i] in multiset(a);
      assert b[i] in a;
    }
  }

  /** LISTING DOES NOT MATTER to acceptance, nor to the total weight. */
  lemma {:induction false} AcceptedAnyOrder(a: seq<Candidate>, b: seq<Candidate>)
    requires multiset(a) == multiset(b) && Accepted(a)
    ensures Accepted(b) && Whole(WeightsOf(b)) == Whole(WeightsOf(a))
    decreases |b|
  {
    if b != [] {
      var n := |b| - 1;
      var i := TakeOut(a, b);
      var front, c := b[..n], b[n];
      assert b == front + [c];
      WholeDropped(a, i);
      WholeSnoc(front, c);
      DroppedAccepted(a, i);
      AcceptedAnyOrder(Dropped(a, i), front);
      UnlikeAnyOrder(Dropped(a, i), front, c.Key());
      assert WeightOf(c) == WeightsOf(a)[i];
      SnocAccepted(front, c);
    } else {
      assert |multiset(a)| == |a|;
    }
  }

  /** The end of parseLB: check the weights and the keys, then sort. */
  method AcceptCandidates(cands: array<Candidate>) returns (ok: bool)
    modifies cands
    ensures ok <==> Accepted(old(cands[..]))
    ensures ok ==> Accepted(cands[..]) && Ascending(cands[..], 0, cands.Length)
    ensures multiset(cands[..]) == multiset(old(cands[..]))
  {
    ghost var listed := cands[..];
    ok := AcceptWeights(WeightsOf(cands[..]));
    if ok {
      ok := AcceptKeys(cands[..]);
    }
    if ok {
      KeysDistinctIdsDistinct(cands[..]);
      SortCandidates(cands);
      AcceptedAnyOrder(listed, cands[..]);
    }
  }

  // ----- what publishing keeps -----

  lemma AliveUnlike(states: States, specs: seq<Candidate>, now: int, maxLoad: nat, key: string)
    requires Unlike(specs, key)
    ensures Unlike(Alive(states, specs, now, maxLoad), key)
  {
    var alive := Alive(states, specs, now, maxLoad);
    forall p | 0 <= p < |alive|
      ensures alive[p].Key() != key
    {
      var i := AliveFrom(states, specs, now, maxLoad, p);
    }
  }

  lemma {:induction false} AliveKeepsAccepted(states: States, specs: seq<Candidate>, now: int, maxLoad: nat)
    requires Accepted(specs)
    ensures var alive := Alive(states, specs, now, maxLoad);
      Accepted(alive) && Whole(WeightsOf(alive)) <= Whole(WeightsOf(specs))
    decreases |specs|
  {
    if specs != [] {
      var n := |specs| - 1;
      var front, c := specs[..n], specs[n];
      assert specs == front + [c] && Dropped(specs, n) == front;
      DroppedAccepted(specs, n);
      AliveKeepsAccepted(states, front, now, maxLoad);
      WholeSnoc(front, c);
      var rest, d := Alive(states, front, now, maxLoad), Dressed(states, c, now, maxLoad);
      WholeSnoc(rest, d);
      assert WeightOf(d) == WeightOf(c) == WeightsOf(specs)[n];
      AliveUnlike(states, front, now, maxLoad, c.Key());
      if !VerdictOf(states, c, now).Ejected? {
        SnocAccepted(rest, d);
      }
    }
  }

  /** PUBLISHING KEEPS ACCEPTANCE. From an accepted configuration, whatever is published has
      distinct keys and weights whose sum fits. */
  lemma PublishedAccepted(states: States, specs: seq<Candidate>, now: int, failOpen: bool)
    requires Accepted(specs)
    ensures Accepted(Published(states, specs, now, failOpen))
    ensures Whole(WeightsOf(Published(states, specs, now, failOpen))) <= Whole(WeightsOf(specs))
  {
    var maxLoad := MaxLoad(states, specs, now);
    AliveKeepsAccepted(states, specs, now, maxLoad);
    var all := Everybody(states, specs, now, maxLoad);
    assert WeightsOf(all) == WeightsOf(specs) && KeysOf(all) == KeysOf(specs);
  }
}
