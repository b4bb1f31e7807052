/** The byte-wise order of strings. */
module StringOrder {
  predicate LexLess(a: string, b: string) {
    if b == "" then false
    else a == "" || a[0] < b[0] || (a[0] == b[0] && LexLess(a[1..], b[1..]))
  }

  lemma {:induction false} LexTotal(a: string, b: string)
    ensures a == b || LexLess(a, b) || LexLess(b, a)
    ensures !(LexLess(a, b) && LexLess(b, a)) && !LexLess(a, a)
  {
    if a != "" {
      LexTotal(a[1..], a[1..]);
      if b != "" {
        LexTotal(a[1..], b[1..]);
        assert a == [a[0]] + a[1..] && b == [b[0]] + b[1..];
      }
    }
  }

  lemma {:induction false} LexTransitive(a: string, b: string, c: string)
    requires LexLess(a, b) && LexLess(b, c)
    ensures LexLess(a, c)
  {
    if a != "" && a[0] == b[0] == c[0] {
      LexTransitive(a[1..], b[1..], c[1..]);
    }
  }

  /** What two strings share at the front does not matter for their order. */
  lemma {:induction false} LexSplit(front: string, a: string, b: string)
    ensures LexLess(front + a, front + b) <==> LexLess(a, b)
  {
    if front == "" {
      assert front + a == a && front + b == b;
    } else {
      assert (front + a)[1..] == front[1..] + a && (front + b)[1..] == front[1..] + b;
      LexSplit(front[1..], a, b);
    }
  }

  predicate Ascends(keys: seq<string>) {
    forall i, j | 0 <= i < j < |keys| :: !LexLess(keys[j], keys[i])
  }

  function Insert(keys: seq<string>, k: string): (r: seq<string>)
    ensures multiset(r) == multiset(keys) + multiset{k}
  {
    if keys == [] then [k]
    else
      var n := |keys| - 1;
      assert keys == keys[..n] + [keys[n]];
      if LexLess(k, keys[n]) then Insert(keys[..n], k) + [keys[n]] else keys + [k]
  }

  /** sort.Strings. */
  function SortStrings(keys: seq<string>): (r: seq<string>)
    ensures multiset(r) == multiset(keys)
  {
    if keys == [] then []
    else
      var n := |keys| - 1;
      assert keys == keys[..n] + [keys[n]];
      Insert(SortStrings(keys[..n]), keys[n])
  }

  /** Whatever is in `b` is below `top` when that holds of `a` and of the one that was added. */
  lemma BelowTop(a: seq<string>, k: string, b: seq<string>, top: string)
    requires multiset(b) == multiset(a) + multiset{k} && !LexLess(top, k)
    requires forall x <- a :: !LexLess(top, x)
    ensures forall i | 0 <= i < |b| :: !LexLess(top, b[i])
  {
    forall i | 0 <= i < |b|
      ensures !LexLess(top, b[i])
    {
      assert b[i] in multiset(b);
      assert b[i] in multiset(a) ==> b[i] in a;
    }
  }

  lemma {:induction false} InsertAscends(keys: seq<string>, k: string)
    requires Ascends(keys)
    ensures Ascends(Insert(keys, k))
  {
    if keys != [] {
      var n := |keys| - 1;
      var top := keys[n];
      LexTotal(k, top);
      if LexLess(k, top) {
        InsertAscends(keys[..n], k);
        BelowTop(keys[..n], k, Insert(keys[..n], k), top);
      } else {
        forall i | 0 <= i < n
          ensures !LexLess(k, keys[i])
        {
          LexTotal(keys[i], top);
          LexTotal(k, keys[i]);
          if LexLess(k, keys[i]) && keys[i] != top {
            LexTransitive(k, keys[i], top);
          }
        }
      }
    }
  }

  lemma {:induction false} SortAscends(keys: seq<string>)
    ensures Ascends(SortStrings(keys))
  {
    if keys != [] {
      var n := |keys| - 1;
      SortAscends(keys[..n]);
      InsertAscends(SortStrings(keys[..n]), keys[n]);
    }
  }

  /** The first byte that differs decides, the lower first. */
  lemma FirstDifference(front: string, x: char, a: string, y: char, b: string)
    requires x != y
    ensures LexLess(front + ([x] + a), front + ([y] + b)) <==> x < y
  {
    LexSplit(front, [x] + a, [y] + b);
  }

  /** A proper beginning comes first. */
  lemma BeginningFirst(front: string, x: char, a: string)
    ensures LexLess(front, front + ([x] + a))
  {
    assert front == front + "";
    LexSplit(front, "", [x] + a);
  }
}
