/** The order in which candidates are published: by cluster, then by target. It fixes the
    weighted intervals, so it must not depend on how the configuration lists them. */
module CandidateOrder {
  import opened StringOrder
  import opened Wire

  predicate Less(c: Candidate, d: Candidate) {
    LexLess(c.cluster, d.cluster) || (c.cluster == d.cluster && LexLess(c.targetId, d.targetId))
  }

  predicate SameId(c: Candidate, d: Candidate) {
    c.cluster == d.cluster && c.targetId == d.targetId
  }

  lemma LessTotal(c: Candidate, d: Candidate)
    ensures SameId(c, d) || Less(c, d) || Less(d, c)
    ensures !(Less(c, d) && Less(d, c))
  {
    LexTotal(c.cluster, d.cluster);
    LexTotal(c.targetId, d.targetId);
  }

  lemma LessTransitive(c: Candidate, d: Candidate, e: Candidate)
    requires Less(c, d) && Less(d, e)
    ensures Less(c, e)
  {
    LexTotal(c.cluster, c.cluster);
    if c.cluster == d.cluster == e.cluster {
      LexTransitive(c.targetId, d.targetId, e.targetId);
    } else if c.cluster != d.cluster && d.cluster != e.cluster {
      LexTransitive(c.cluster, d.cluster, e.cluster);
    }
  }

  /** Strictly ascending from `lo` to `hi`. */
  predicate Ascending(cands: seq<Candidate>, lo: nat, hi: nat)
    requires hi <= |cands|
  {
    forall i, j | lo <= i < j < hi :: Less(cands[i], cands[j])
  }

  predicate DistinctIds(cands: seq<Candidate>) {
    forall i, j | 0 <= i < j < |cands| :: !SameId(cands[i], cands[j])
  }

  /** parseLB's duplicate check makes the ids distinct. */
  lemma KeysDistinctIdsDistinct(cands: seq<Candidate>)
    requires Distinct(KeysOf(cands))
    ensures DistinctIds(cands)
  {
    forall i, j | 0 <= i < j < |cands|
      ensures !SameId(cands[i], cands[j])
    {
      assert KeysOf(cands)[i] != KeysOf(cands)[j];
    }
  }

  // ----- the sort, in place -----

  function Swapped(cands: seq<Candidate>, i: nat): (r: seq<Candidate>)
    requires 0 < i < |cands|
  {
    cands[i - 1 := cands[i]][i := cands[i - 1]]
  }

  /** Everything up to `i` ascends once the element at `j` is taken out. */
  predicate AscendingAround(cands: seq<Candidate>, j: nat, i: nat)
    requires j <= i < |cands|
  {
    && Ascending(cands, 0, j) && Ascending(cands, j, i + 1)
    && forall x, y | 0 <= x < j < y <= i :: Less(cands[x], cands[y])
  }

  lemma SwapBack(cands: seq<Candidate>, j: nat, i: nat)
    requires 0 < j <= i < |cands| && DistinctIds(cands)
    requires AscendingAround(cands, j, i) && Less(cands[j], cands[j - 1])
    ensures DistinctIds(Swapped(cands, j)) && AscendingAround(Swapped(cands, j), j - 1, i)
    ensures multiset(Swapped(cands, j)) == multiset(cands)
  {
  }

  lemma InPlace(cands: seq<Candidate>, j: nat, i: nat)
    requires j <= i < |cands| && DistinctIds(cands) && AscendingAround(cands, j, i)
    requires j > 0 ==> !Less(cands[j], cands[j - 1])
    ensures Ascending(cands, 0, i + 1)
  {
    forall x, y | 0 <= x < y < i + 1
      ensures Less(cands[x], cands[y])
    {
      if x < j && y == j {
        LessTotal(cands[j - 1], cands[j]);
        assert !SameId(cands[j - 1], cands[j]);
        if x < j - 1 {
          LessTransitive(cands[x], cands[j - 1], cands[j]);
        }
      }
    }
  }

  method SortCandidates(cands: array<Candidate>)
    requires DistinctIds(cands[..])
    modifies cands
    ensures Ascending(cands[..], 0, cands.Length)
    ensures multiset(cands[..]) == old(multiset(cands[..]))
  {
    for i := 0 to cands.Length
      invariant Ascending(cands[..], 0, i) && DistinctIds(cands[..])
      invariant multiset(cands[..]) == old(multiset(cands[..]))
    {
      var j: nat := i;
      while j > 0 && Less(cands[..][j], cands[..][j - 1])
        invariant j <= i && DistinctIds(cands[..]) && AscendingAround(cands[..], j, i)
        invariant multiset(cands[..]) == old(multiset(cands[..]))
      {
        ghost var before := cands[..];
        SwapBack(before, j, i);
        cands[j - 1], cands[j] := cands[j], cands[j - 1];
        assert cands[..] == Swapped(before, j);
        j := j - 1;
      }
      InPlace(cands[..], j, i);
    }
  }

  predicate SameMembers(a: seq<Candidate>, b: seq<Candidate>) {
    (forall c <- a :: c in b) && (forall c <- b :: c in a)
  }

  /** The last of an ascending list is behind all the others. */
  lemma LastIsGreatest(a: seq<Candidate>, c: Candidate)
    requires a != [] && Ascending(a, 0, |a|) && c in a
    ensures c == a[|a| - 1] || Less(c, a[|a| - 1])
  {
  }

  lemma SameLast(a: seq<Candidate>, b: seq<Candidate>)
    requires a != [] && b != [] && Ascending(a, 0, |a|) && Ascending(b, 0, |b|) && SameMembers(a, b)
    ensures a[|a| - 1] == b[|b| - 1]
  {
    var x, y := a[|a| - 1], b[|b| - 1];
    assert x in a && y in b;
    LastIsGreatest(a, y);
    LastIsGreatest(b, x);
    LessTotal(x, y);
  }

  lemma FrontMembers(a: seq<Candidate>, c: Candidate)
    requires a != [] && Ascending(a, 0, |a|)
    ensures c in a[..|a| - 1] <==> c in a && c != a[|a| - 1]
  {
    var n := |a| - 1;
    assert a == a[..n] + [a[n]];
    if c in a[..n] {
      var i :| 0 <= i < n && a[i] == c;
      LessTotal(c, a[n]);
      LessTotal(c, c);
    }
  }

  lemma HeadIsMember(a: seq<Candidate>)
    ensures a != [] ==> a[0] in a
  {
  }

  /** ORDER INDEPENDENCE. Two ascending lists of the same candidates are the same list: the
      published order, and with it every weighted interval, depends only on the set. */
  lemma {:induction false} AscendingIsUnique(a: seq<Candidate>, b: seq<Candidate>)
    requires Ascending(a, 0, |a|) && Ascending(b, 0, |b|) && SameMembers(a, b)
    ensures a == b
    decreases |a|
  {
    if a == [] || b == [] {
      HeadIsMember(a);
      HeadIsMember(b);
    } else {
      var x, y := a[..|a| - 1], b[..|b| - 1];
      SameLast(a, b);
      forall c
        ensures c in x <==> c in y
      {
        FrontMembers(a, c);
        FrontMembers(b, c);
      }
      AscendingIsUnique(x, y);
      assert a == x + [a[|a| - 1]] && b == y + [b[|b| - 1]];
    }
  }

  /** So two configurations that list the same candidates publish the same list. */
  lemma ListingDoesNotMatter(a: seq<Candidate>, b: seq<Candidate>)
    requires Ascending(a, 0, |a|) && Ascending(b, 0, |b|) && multiset(a) == multiset(b)
    ensures a == b
  {
    forall c
      ensures c in a <==> c in b
    {
      assert c in a <==> c in multiset(a);
      assert c in b <==> c in multiset(b);
    }
    AscendingIsUnique(a, b);
  }

  /** By cluster first: along an ascending list no cluster name falls, and within one cluster the
      targets ascend. */
  lemma ClusterThenTarget(cands: seq<Candidate>, i: nat, j: nat)
    requires Ascending(cands, 0, |cands|) && i < j < |cands|
    ensures cands[i].cluster == cands[j].cluster || LexLess(cands[i].cluster, cands[j].cluster)
    ensures cands[i].cluster == cands[j].cluster ==> LexLess(cands[i].targetId, cands[j].targetId)
  {
    LexTotal(cands[i].cluster, cands[j].cluster);
    LexTotal(cands[i].cluster, cands[i].cluster);
    assert Less(cands[i], cands[j]);
  }
}
