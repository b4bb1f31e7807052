/** The bytes that the rendezvous hash reads for a session key and a candidate key. */
module HashInput {
  import opened Bytes

  /** `n` in `size` bytes, the lowest first. */
  function Little(n: nat, size: nat): (b: seq<byte>)
    ensures |b| == size
  {
    if size == 0 then [] else [n % 0x100] + Little(n / 0x100, size - 1)
  }

  /** How many numbers fit `size` bytes. */
  function Range(size: nat): nat {
    if size == 0 then 1 else 0x100 * Range(size - 1)
  }

  lemma {:induction false} LittleInjective(m: nat, n: nat, size: nat)
    requires m < Range(size) && n < Range(size) && Little(m, size) == Little(n, size)
    ensures m == n
  {
    if size > 0 {
      var a, b := Little(m, size), Little(n, size);
      assert a[0] == m % 0x100 && b[0] == n % 0x100;
      assert a[1..] == Little(m / 0x100, size - 1) && b[1..] == Little(n / 0x100, size - 1);
      LittleInjective(m / 0x100, n / 0x100, size - 1);
    }
  }

  const LENGTH_BYTES: nat := 8

  /** Eight bytes of length, the session key, the candidate key. */
  function Input(key: seq<byte>, candKey: seq<byte>): (b: seq<byte>)
    ensures |b| == 8 + |key| + |candKey|
  {
    Little(|key|, LENGTH_BYTES) + key + candKey
  }

  /** UNAMBIGUOUS. Whatever bytes either key holds, NUL included, no two pairs feed the hash the
      same bytes. Lengths are those of Go strings, which fit eight bytes. */
  lemma InputInjective(k: seq<byte>, c: seq<byte>, l: seq<byte>, d: seq<byte>)
    requires |k| < Range(LENGTH_BYTES) && |l| < Range(LENGTH_BYTES)
    requires Input(k, c) == Input(l, d)
    ensures k == l && c == d
  {
    var x, y := Input(k, c), Input(l, d);
    assert x[..LENGTH_BYTES] == Little(|k|, LENGTH_BYTES) && y[..LENGTH_BYTES] == Little(|l|, LENGTH_BYTES);
    LittleInjective(|k|, |l|, LENGTH_BYTES);
    assert x[LENGTH_BYTES..] == k + c && y[LENGTH_BYTES..] == l + d;
    assert (k + c)[..|k|] == k && (l + d)[..|l|] == l;
    assert (k + c)[|k|..] == c && (l + d)[|l|..] == d;
  }

  /** What a delimiter between the keys would have fed. */
  function Delimited(key: seq<byte>, candKey: seq<byte>): seq<byte> {
    key + [0] + candKey
  }

  /** Some longer session key would then read like this pair exactly when the candidate key holds
      a NUL: the delimiter served only as long as candidate keys held none. */
  lemma DelimiterAmbiguousExactlyWhen(k: seq<byte>, c: seq<byte>)
    ensures (exists l, d :: |k| < |l| && Delimited(l, d) == Delimited(k, c)) <==> 0 in c
  {
    if l, d :| |k| < |l| && Delimited(l, d) == Delimited(k, c) {
      var at := |l| - |k| - 1;
      assert Delimited(l, d)[|l|] == 0;
      assert Delimited(k, c)[|l|] == c[at];
    }
    if 0 in c {
      var i :| 0 <= i < |c| && c[i] == 0;
      var l, d := k + [0] + c[..i], c[i + 1..];
      assert c == c[..i] + [0] + c[i + 1..];
      assert Delimited(l, d) == Delimited(k, c);
    }
  }
}
