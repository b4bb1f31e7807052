/** The model name a request is rewritten to when it goes to one target: an exact entry of the
    target's mapping group, else the first matching prefix pattern, else the catch-all. */
module ModelNames {
  import opened StringOrder

  /** From model names and patterns, such as "legacy-*" and "*", to names; one group a target. */
  type Group = map<string, string>
  type Mappers = map<string, Group>

  /** A prefix pattern that applies to the model: a text and a star, not the star alone. */
  predicate Matches(pattern: string, model: string) {
    1 < |pattern| && pattern[|pattern| - 1] == '*' && pattern[..|pattern| - 1] <= model
  }

  predicate Applies(group: Group, model: string, k: string) {
    k in group && Matches(k, model)
  }

  /** The pattern that decides: no other that applies sorts before it. */
  ghost predicate IsFirst(group: Group, model: string, k: string) {
    Applies(group, model, k) && forall j | Applies(group, model, j) :: j == k || LexLess(k, j)
  }

  /** The name for the model when `first` is the pattern that decides, if there is one. */
  ghost predicate Names(group: Group, model: string, name: string) {
    if model in group then name == group[model]
    else if exists k :: Applies(group, model, k) then exists k :: IsFirst(group, model, k) && name == group[k]
    else name == if "*" in group then group["*"] else ""
  }

  function GroupOf(mappers: Mappers, targetId: string): Group {
    if targetId in mappers then mappers[targetId] else map[]
  }

  lemma FirstIsUnique(group: Group, model: string, a: string, b: string)
    requires IsFirst(group, model, a) && IsFirst(group, model, b)
    ensures a == b
  {
    LexTotal(a, b);
  }

  /** However the map of the group is iterated, there is one answer. */
  lemma OneName(group: Group, model: string, a: string, b: string)
    requires Names(group, model, a) && Names(group, model, b)
    ensures a == b
  {
    if model !in group && exists k :: Applies(group, model, k) {
      var i :| IsFirst(group, model, i) && a == group[i];
      var j :| IsFirst(group, model, j) && b == group[j];
      FirstIsUnique(group, model, i, j);
    }
  }

  /** Every key of the map once, in whatever order the iteration takes. */
  method KeysInAnyOrder(group: Group) returns (keys: seq<string>)
    ensures forall k :: k in keys <==> k in group
  {
    keys := [];
    var left := group.Keys;
    while left != {}
      invariant left <= group.Keys
      invariant forall k :: k in keys <==> k in group.Keys - left
    {
      var k :| k in left;
      left := left - {k};
      keys := keys + [k];
    }
  }

  /** Of ascending keys, the first that matches is the one that decides. */
  lemma FirstOfAscending(group: Group, model: string, keys: seq<string>, i: nat)
    requires Ascends(keys) && forall k :: k in keys <==> k in group
    requires i < |keys| && Matches(keys[i], model) && forall j | 0 <= j < i :: !Matches(keys[j], model)
    ensures IsFirst(group, model, keys[i])
  {
    assert keys[i] in group;
    forall k | Applies(group, model, k)
      ensures k == keys[i] || LexLess(keys[i], k)
    {
      assert k in keys;
      var j :| 0 <= j < |keys| && keys[j] == k;
      LexTotal(keys[i], k);
    }
  }

  method ResolveCandidateModel(mappers: Mappers, targetId: string, clientModel: string) returns (name: string)
    ensures Names(GroupOf(mappers, targetId), clientModel, name)
  {
    var group := GroupOf(mappers, targetId);
    if group == map[] {
      return "";
    }
    if clientModel in group {
      return group[clientModel];
    }
    var listed := KeysInAnyOrder(group);
    var keys := SortStrings(listed);
    SortAscends(listed);
    assert forall k :: k in keys <==> k in multiset(keys);
    for i := 0 to |keys|
      invariant forall j | 0 <= j < i :: !Matches(keys[j], clientModel)
    {
      if Matches(keys[i], clientModel) {
        FirstOfAscending(group, clientModel, keys, i);
        return group[keys[i]];
      }
    }
    assert forall k | k in group :: k in keys;
    return if "*" in group then group["*"] else "";
  }

  /** The rewrite target of a request as a function; OneName says there is no choice. */
  ghost function Rewrite(mappers: Mappers, targetId: string, clientModel: string): (name: string)
    ensures Names(GroupOf(mappers, targetId), clientModel, name)
  {
    NameExists(GroupOf(mappers, targetId), clientModel);
    var name :| Names(GroupOf(mappers, targetId), clientModel, name);
    name
  }

  lemma NameExists(group: Group, model: string)
    ensures exists name :: Names(group, model, name)
  {
    if model in group {
      assert Names(group, model, group[model]);
    } else if exists k :: Applies(group, model, k) {
      var k :| Applies(group, model, k);
      var first := LeastAmong(group, model, group.Keys, k);
      assert Names(group, model, group[first]);
    } else {
      assert Names(group, model, if "*" in group then group["*"] else "");
    }
  }

  /** Some pattern of `pool` that applies sorts before all the others in it. */
  lemma {:induction false} LeastAmong(group: Group, model: string, pool: set<string>, k: string) returns (first: string)
    requires k in pool && Applies(group, model, k)
    ensures first in pool && Applies(group, model, first)
    ensures forall j | j in pool && Applies(group, model, j) :: j == first || LexLess(first, j)
    decreases pool
  {
    if j :| j in pool && Applies(group, model, j) && LexLess(j, k) {
      LexTotal(k, k);
      first := LeastAmong(group, model, pool - {k}, j);
      if first != j {
        LexTransitive(first, j, k);
      }
    } else {
      first := k;
      forall i | i in pool && Applies(group, model, i)
        ensures i == first || LexLess(first, i)
      {
        LexTotal(k, i);
      }
    }
  }

  // ----- which prefix wins -----

  /** FIRST IS NOT LONGEST. Of two patterns that apply, the shorter sorts first exactly when the
      model's next character is not below the star. */
  lemma ShorterFirstExactlyWhen(p: string, q: string, model: string)
    requires Matches(p, model) && Matches(q, model) && |p| < |q|
    ensures LexLess(p, q) <==> '*' <= model[|p| - 1]
  {
    var n := |p| - 1;
    FrontOf(p, model, n);
    FrontOf(q, model, n);
    LexSplit(model[..n], p[n..], q[n..]);
    StarBefore(p[n..], q[n..]);
    assert q[n] == q[..|q| - 1][n] == model[n];
  }

  lemma FrontOf(q: string, model: string, n: nat)
    requires Matches(q, model) && n < |q|
    ensures n <= |model| && q == model[..n] + q[n..]
  {
    assert q[..n] == q[..|q| - 1][..n] == model[..n];
  }

  lemma StarBefore(star: string, t: string)
    requires star == ['*'] && 1 < |t|
    ensures LexLess(star, t) <==> '*' <= t[0]
  {
    assert star[1..] == "" && t[1..] != "";
  }

  /** So for a model name without such a character, letters and digits say, the shortest prefix
      that matches decides, however specific the others are. */
  lemma ShortestPrefixDecides(group: Group, model: string, first: string, k: string)
    requires IsFirst(group, model, first) && Applies(group, model, k)
    requires forall i | 0 <= i < |model| :: '*' <= model[i]
    ensures |first| <= |k|
  {
    if |k| < |first| {
      ShorterFirstExactlyWhen(k, first, model);
      LexTotal(k, first);
    }
  }

  /** A pattern applies exactly when it is some text and a star, and the model starts with it. */
  lemma AppliesExactlyWhen(pattern: string, model: string)
    ensures Matches(pattern, model) <==> StartsModel(pattern, model)
  {
    if Matches(pattern, model) {
      var n := |pattern| - 1;
      assert pattern == pattern[..n] + ['*'] && model == pattern[..n] + model[n..];
    }
    if p, rest :| p != "" && pattern == p + ['*'] && model == p + rest {
      assert pattern[..|pattern| - 1] == p && model[..|p|] == p;
    }
  }

  /** BY THE ENTRIES. The name is that of the model's own entry; else of the text-and-star entry the
      model starts with that sorts first; else of the star; else there is none, as without a group. */
  lemma NamedBy(mappers: Mappers, targetId: string, model: string, name: string)
    requires Names(GroupOf(mappers, targetId), model, name)
    ensures targetId !in mappers ==> name == ""
    ensures targetId in mappers && model in mappers[targetId] ==> name == mappers[targetId][model]
    ensures targetId in mappers && model !in mappers[targetId] ==>
      var group := mappers[targetId];
      if exists k :: k in group && StartsModel(k, model) then
        exists k :: k in group && StartsModel(k, model) && name == group[k] && NoneBefore(group, model, k)
      else name == if "*" in group then group["*"] else ""
  {
    var group := GroupOf(mappers, targetId);
    forall k: string
      ensures Matches(k, model) <==> StartsModel(k, model)
    {
      AppliesExactlyWhen(k, model);
    }
    if model !in group && exists k :: Applies(group, model, k) {
      var k :| IsFirst(group, model, k) && name == group[k];
      assert NoneBefore(group, model, k);
    } else {
      forall k | k in group && model !in group
        ensures !StartsModel(k, model)
      {
        assert !Applies(group, model, k);
      }
    }
  }

  /** A text and a star, and the model starts with the text. */
  ghost predicate StartsModel(k: string, model: string) {
    exists p, rest :: p != "" && k == p + ['*'] && model == p + rest
  }

  ghost predicate NoneBefore(group: Group, model: string, k: string) {
    forall j | j in group && StartsModel(j, model) :: j == k || LexLess(k, j)
  }
}
