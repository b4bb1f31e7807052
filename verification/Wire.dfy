/** What the publisher, the scoring plugins and the finisher exchange. */
module Wire {
  import opened Bytes
  import opened Wrappers

  datatype Kind = Instance | Provider

  /** Scores are real numbers here; rounding is not modelled. */
  datatype Candidate = Candidate(
    cluster: string,
    targetId: string,
    modelName: string,
    weight: Option<int64>,
    kind: Kind,
    maxRunningRequests: int,
    inflight: int,
    penalty: real,
    probation: bool)
  {
    /** The identity of a candidate, in the reserve walk and in every score map. */
    function Key(): string {
      if targetId == "" then cluster else cluster + ['\0'] + targetId
    }
  }

  /** A list of candidates or keys without the one at `i`. */
  function Dropped<T>(s: seq<T>, i: nat): (r: seq<T>)
    requires i < |s|
    ensures |r| == |s| - 1
  {
    s[..i] + s[i + 1..]
  }

  /** One plugin's opinion. */
  datatype Rank = Rank(weight: real, scores: map<string, real>)

  function KeysOf(cands: seq<Candidate>): (keys: seq<string>)
    ensures |keys| == |cands| && forall i | 0 <= i < |cands| :: keys[i] == cands[i].Key()
  {
    seq(|cands|, i requires 0 <= i < |cands| => cands[i].Key())
  }

  /** parseLB accepts no two candidates with the same key. */
  predicate Distinct(keys: seq<string>) {
    forall i, j | 0 <= i < j < |keys| :: keys[i] != keys[j]
  }

  /** A missing weight reads as zero. */
  function WeightOf(c: Candidate): int64 {
    if c.weight.Some? then c.weight.value else 0
  }

  function WeightsOf(cands: seq<Candidate>): (ws: seq<int64>)
    ensures |ws| == |cands| && forall i | 0 <= i < |cands| :: ws[i] == WeightOf(cands[i])
  {
    seq(|cands|, i requires 0 <= i < |cands| => WeightOf(cands[i]))
  }

  function FirstNul(s: string): nat {
    if s == "" || s[0] == '\0' then 0 else 1 + FirstNul(s[1..])
  }

  lemma {:induction false} FirstNulAt(a: string, x: string)
    requires '\0' !in a
    ensures FirstNul(a + ['\0'] + x) == |a|
  {
    if a != "" {
      assert a[0] in a && (a + ['\0'] + x)[1..] == a[1..] + ['\0'] + x;
      FirstNulAt(a[1..], x);
    }
  }

  lemma SplitAtNul(a: string, b: string, x: string, y: string)
    requires '\0' !in a && '\0' !in b && a + ['\0'] + x == b + ['\0'] + y
    ensures a == b && x == y
  {
    var s, t := a + ['\0'] + x, b + ['\0'] + y;
    FirstNulAt(a, x);
    FirstNulAt(b, y);
    assert a == s[..|a|] && b == t[..|b|];
    assert x == s[|a| + 1..] && y == t[|b| + 1..];
  }

  /** Keys tell candidates apart by cluster and target, as long as no cluster name holds a NUL. */
  lemma KeyInjective(c: Candidate, d: Candidate)
    requires '\0' !in c.cluster && '\0' !in d.cluster && c.Key() == d.Key()
    ensures c.cluster == d.cluster && c.targetId == d.targetId
  {
    NulInKey(c);
    NulInKey(d);
    if c.targetId != "" && d.targetId != "" {
      SplitAtNul(c.cluster, d.cluster, c.targetId, d.targetId);
    }
  }

  lemma NulInKey(c: Candidate)
    requires '\0' !in c.cluster
    ensures '\0' in c.Key() <==> c.targetId != ""
  {
    if c.targetId != "" {
      assert c.Key()[|c.cluster|] == '\0';
    }
  }

  /** parseLB's duplicate check over the configured candidates. */
  method AcceptKeys(cands: seq<Candidate>) returns (ok: bool)
    ensures ok <==> Distinct(KeysOf(cands))
  {
    var keys := KeysOf(cands);
    var seen: set<string> := {};
    for i := 0 to |keys|
      invariant forall k :: k in seen <==> k in keys[..i]
      invariant Distinct(keys[..i])
    {
      assert keys[..i + 1] == keys[..i] + [keys[i]];
      if keys[i] in seen {
        var j :| 0 <= j < i && keys[..i][j] == keys[i];
        assert keys[j] == keys[i];
        return false;
      }
      seen := seen + {keys[i]};
    }
    assert keys[..|keys|] == keys;
    ok := true;
  }
}
