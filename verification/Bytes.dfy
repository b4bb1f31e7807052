/** Big-endian numbers in byte sequences. */
module Bytes {

  type byte = b: int | 0 <= b < 256

  const WORD: int := 0x1_0000_0000

  type word = w: int | 0 <= w < 0x1_0000_0000

  type int64 = n: int | -0x8000_0000_0000_0000 <= n < 0x8000_0000_0000_0000

  const MAX_U16: nat := 65535

  function U16(b: seq<byte>): nat
    requires |b| == 2
  {
    (b[0] as int) * 0x100 + b[1]
  }

  /** The 32-bit number at offset `i`. */
  function U32At(b: seq<byte>, i: nat): word
    requires i + 4 <= |b|
  {
    (b[i] as int) * 0x100_0000 + (b[i + 1] as int) * 0x1_0000 + (b[i + 2] as int) * 0x100 + b[i + 3]
  }

  function U32(b: seq<byte>): word
    requires |b| == 4
  {
    U32At(b, 0)
  }

  function Put16(n: nat): (b: seq<byte>)
    requires n <= MAX_U16
    ensures |b| == 2 && U16(b) == n
  {
    [n / 0x100, n % 0x100]
  }

  function Put32(n: word): (b: seq<byte>)
    ensures |b| == 4 && U32(b) == n
  {
    var high, low := n / 0x1_0000, n % 0x1_0000;
    assert high < 0x1_0000 && n == high * 0x1_0000 + low;
    [high / 0x100, high % 0x100, low / 0x100, low % 0x100]
  }

  /** int64(binary.BigEndian.Uint64(b)). */
  function I64(b: seq<byte>): int64
    requires |b| == 8
  {
    var u := U32At(b, 0) * 0x1_0000_0000 + U32At(b, 4);
    if u < 0x8000_0000_0000_0000 then u else u - 0x1_0000_0000_0000_0000
  }

  /** The bytes binary.BigEndian.PutUint64 writes for uint64(n): two's complement. */
  function Digits64(n: int64): (b: seq<byte>)
    ensures |b| == 8 && I64(b) == n
  {
    var u := if n < 0 then n + 0x1_0000_0000_0000_0000 else n;
    var high, low := u / WORD, u % WORD;
    assert 0 <= high < WORD && u == high * WORD + low;
    var b := Put32(high) + Put32(low);
    assert U32At(b, 0) == U32(Put32(high)) && U32At(b, 4) == U32(Put32(low));
    b
  }

  /** The eight bytes that read as `n`: what Digits64 computes, as a specification. */
  ghost function Put64(n: int64): (b: seq<byte>)
    ensures |b| == 8 && I64(b) == n
  {
    assert I64(Digits64(n)) == n;
    var b :| |b| == 8 && I64(b) == n;
    b
  }

  lemma SameDigits(a: nat, b: nat, c: nat, d: nat)
    requires b < 0x100 && d < 0x100 && a * 0x100 + b == c * 0x100 + d
    ensures a == c && b == d
  {
  }

  lemma U32AtInjective(a: seq<byte>, b: seq<byte>, i: nat)
    requires i + 4 <= |a| == |b| && U32At(a, i) == U32At(b, i)
    ensures a[i] == b[i] && a[i + 1] == b[i + 1] && a[i + 2] == b[i + 2] && a[i + 3] == b[i + 3]
  {
    SameDigits((a[i] as int) * 0x1_0000 + (a[i + 1] as int) * 0x100 + a[i + 2], a[i + 3],
               (b[i] as int) * 0x1_0000 + (b[i + 1] as int) * 0x100 + b[i + 2], b[i + 3]);
    SameDigits((a[i] as int) * 0x100 + a[i + 1], a[i + 2], (b[i] as int) * 0x100 + b[i + 1], b[i + 2]);
    SameDigits(a[i], a[i + 1], b[i], b[i + 1]);
  }

  lemma I64Injective(b: seq<byte>, c: seq<byte>)
    requires |b| == |c| == 8 && I64(b) == I64(c)
    ensures b == c
  {
    assert U32At(b, 0) * 0x1_0000_0000 + U32At(b, 4) == U32At(c, 0) * 0x1_0000_0000 + U32At(c, 4);
    U32AtInjective(b, c, 0);
    U32AtInjective(b, c, 4);
  }

  /** Any number of bytes as one number, the most significant first. */
  function Number(b: seq<byte>): nat {
    if b == [] then 0 else Number(b[..|b| - 1]) * 256 + b[|b| - 1]
  }

  lemma NumberSnoc(s: seq<byte>, c: byte)
    ensures Number(s + [c]) == Number(s) * 256 + c
  {
    assert (s + [c])[..|s|] == s;
  }

  /** Two more bytes, four more bytes. */
  lemma NumberTwoMore(s: seq<byte>, b: seq<byte>)
    requires |b| == 2
    ensures Number(s + b) == Number(s) * 0x1_0000 + U16(b)
  {
    NumberSnoc(s, b[0]);
    NumberSnoc(s + [b[0]], b[1]);
    assert s + b == s + [b[0]] + [b[1]];
  }

  lemma NumberFourMore(s: seq<byte>, b: seq<byte>)
    requires |b| == 4
    ensures Number(s + b) == Number(s) * 0x1_0000_0000 + U32(b)
  {
    NumberTwoMore(s, b[..2]);
    NumberTwoMore(s + b[..2], b[2..]);
    assert s + b == s + b[..2] + b[2..];
  }

  lemma NumberOfTwo(b: seq<byte>)
    requires |b| == 2
    ensures Number(b) == U16(b)
  {
    NumberTwoMore([], b);
    assert [] + b == b;
  }

  lemma NumberOfFour(b: seq<byte>)
    requires |b| == 4
    ensures Number(b) == U32(b)
  {
    NumberFourMore([], b);
    assert [] + b == b;
  }

  /** Eight bytes, the sign in the first bit. */
  lemma NumberOfEight(b: seq<byte>)
    requires |b| == 8
    ensures I64(b) == if b[0] < 128 then Number(b) else Number(b) - 0x1_0000_0000_0000_0000
  {
    assert b == b[..4] + b[4..];
    NumberOfFour(b[..4]);
    NumberFourMore(b[..4], b[4..]);
    assert U32At(b, 0) == U32(b[..4]) && U32At(b, 4) == U32(b[4..]);
  }
}
