/** The local sliding-window rate limiter: a byte-encoded log per key, checked before it is
    appended to, and pruned at every append. */
module RateLimit {
  import opened Bytes

  datatype WindowEntry = WindowEntry(timestamp: int64, count: int64)

  const LOCAL_MAX_CAS_RETRIES: nat := 10

  // ----- the log as entries -----

  /** Entries newer than the cutoff. */
  function Recent(log: seq<WindowEntry>, cutoff: int): (kept: seq<WindowEntry>)
    ensures |kept| <= |log|
  {
    if log == [] then []
    else
      var n := |log| - 1;
      var kept := Recent(log[..n], cutoff);
      if log[n].timestamp > cutoff then kept + [log[n]] else kept
  }

  /** The sum of the counts newer than the cutoff. */
  function Total(log: seq<WindowEntry>, cutoff: int): int {
    if log == [] then 0
    else
      var n := |log| - 1;
      Total(log[..n], cutoff) + if log[n].timestamp > cutoff then log[n].count else 0
  }

  /** One append of the writer: prune with its own cutoff, then add. */
  function Appended(log: seq<WindowEntry>, window: int, e: WindowEntry): seq<WindowEntry> {
    Recent(log, e.timestamp - window) + [e]
  }

  /** The stored log after appending `es` one after the other. */
  function Stored(window: int, es: seq<WindowEntry>): seq<WindowEntry> {
    if es == [] then [] else Appended(Stored(window, es[..|es| - 1]), window, es[|es| - 1])
  }

  lemma TotalSnoc(log: seq<WindowEntry>, e: WindowEntry, cutoff: int)
    ensures Total(log + [e], cutoff) == Total(log, cutoff) + if e.timestamp > cutoff then e.count else 0
  {
    assert (log + [e])[..|log|] == log;
  }

  /** Pruning at an older cutoff does not change a total taken at a newer one. */
  lemma {:induction false} PruneKeepsTotal(log: seq<WindowEntry>, earlier: int, cutoff: int)
    requires earlier <= cutoff
    ensures Total(Recent(log, earlier), cutoff) == Total(log, cutoff)
  {
    if log != [] {
      var n := |log| - 1;
      PruneKeepsTotal(log[..n], earlier, cutoff);
      TotalSnoc(Recent(log[..n], earlier), log[n], cutoff);
    }
  }

  predicate NoneAfter(es: seq<WindowEntry>, now: int) {
    forall i | 0 <= i < |es| :: es[i].timestamp <= now
  }

  /** PRUNING IS INVISIBLE. Whatever was appended, with one window and no entry stamped later
      than `now`, the pruned log and the complete log give the same total at `now`. */
  lemma {:induction false} PrunedLogRefinesFullLog(window: int, es: seq<WindowEntry>, now: int)
    requires NoneAfter(es, now)
    ensures Total(Stored(window, es), now - window) == Total(es, now - window)
  {
    if es != [] {
      var n := |es| - 1;
      var stored, e := Stored(window, es[..n]), es[n];
      PrunedLogRefinesFullLog(window, es[..n], now);
      PruneKeepsTotal(stored, e.timestamp - window, now - window);
      TotalSnoc(Recent(stored, e.timestamp - window), e, now - window);
    }
  }

  // ----- the log as bytes -----

  ghost function EncodeEntry(e: WindowEntry): (b: seq<byte>)
    ensures |b| == 16
  {
    Put64(e.timestamp) + Put64(e.count)
  }

  function DecodeEntry(b: seq<byte>): WindowEntry
    requires |b| == 16
  {
    WindowEntry(I64(b[..8]), I64(b[8..]))
  }

  ghost function Encoded(log: seq<WindowEntry>): seq<byte> {
    if log == [] then [] else EncodeEntry(log[0]) + Encoded(log[1..])
  }

  /** Trailing bytes that do not fill an entry are dropped. */
  function Decoded(data: seq<byte>): seq<WindowEntry> {
    if |data| < 16 then [] else [DecodeEntry(data[..16])] + Decoded(data[16..])
  }

  lemma {:induction false} DecodedLength(data: seq<byte>)
    ensures |Decoded(data)| == |data| / 16
    decreases |data|
  {
    if |data| >= 16 {
      DecodedLength(data[16..]);
    }
  }

  lemma EntryRoundTrip(e: WindowEntry)
    ensures DecodeEntry(EncodeEntry(e)) == e
  {
    var b := EncodeEntry(e);
    assert b[..8] == Put64(e.timestamp) && b[8..] == Put64(e.count);
  }

  lemma EncodeOfDecoded(b: seq<byte>)
    requires |b| == 16
    ensures EncodeEntry(DecodeEntry(b)) == b
  {
    I64Injective(Put64(I64(b[..8])), b[..8]);
    I64Injective(Put64(I64(b[8..])), b[8..]);
  }

  lemma DecodedCons(b: seq<byte>, rest: seq<byte>)
    requires |b| == 16
    ensures Decoded(b + rest) == [DecodeEntry(b)] + Decoded(rest)
  {
    assert (b + rest)[..16] == b && (b + rest)[16..] == rest;
  }

  /** Decoding gives back every log that was encoded, negative numbers included. */
  lemma {:induction false} LogRoundTrip(log: seq<WindowEntry>)
    ensures Decoded(Encoded(log)) == log
  {
    if log != [] {
      LogRoundTrip(log[1..]);
      EntryRoundTrip(log[0]);
      DecodedCons(EncodeEntry(log[0]), Encoded(log[1..]));
    }
  }

  /** And encoding gives back the bytes that were decoded, up to the last whole entry. */
  lemma {:induction false} BytesRoundTrip(data: seq<byte>, trailing: seq<byte>)
    requires |data| % 16 == 0 && |trailing| < 16
    ensures Encoded(Decoded(data + trailing)) == data
    decreases |data|
  {
    if data == [] {
      assert data + trailing == trailing;
    } else {
      var first, rest := data[..16], data[16..];
      BytesRoundTrip(rest, trailing);
      EncodeOfDecoded(first);
      DecodedCons(first, rest + trailing);
      assert data + trailing == first + (rest + trailing) && data == first + rest;
    }
  }

  /** The entry at byte offset `i`, field by field. */
  function EntryAt(data: seq<byte>, i: nat): WindowEntry
    requires i + 16 <= |data|
  {
    WindowEntry(I64(data[i..i + 8]), I64(data[i + 8..i + 16]))
  }

  lemma DecodedAt(data: seq<byte>, i: nat)
    requires i + 16 <= |data|
    ensures Decoded(data[i..]) == [EntryAt(data, i)] + Decoded(data[i + 16..])
  {
    var rest, b := data[i..], data[i..i + 16];
    assert rest[..16] == b && rest[16..] == data[i + 16..];
    assert b[..8] == data[i..i + 8] && b[8..] == data[i + 8..i + 16];
  }

  lemma {:induction false} DecodedIndex(data: seq<byte>, i: nat)
    requires i * 16 + 16 <= |data|
    ensures i < |Decoded(data)| && Decoded(data)[i] == EntryAt(data, i * 16)
    decreases i
  {
    DecodedAt(data, 0);
    assert data[0..] == data;
    if i > 0 {
      DecodedIndex(data[16..], i - 1);
      EntryShifts(data, i * 16);
    }
  }

  lemma EntryShifts(data: seq<byte>, at: nat)
    requires 16 <= at && at + 16 <= |data|
    ensures EntryAt(data[16..], at - 16) == EntryAt(data, at)
  {
    var rest := data[16..];
    assert rest[at - 16..at - 8] == data[at..at + 8] && rest[at - 8..at] == data[at + 8..at + 16];
  }

  /** One more entry read off the front. */
  lemma ReadOneMore(data: seq<byte>, i: nat, done: seq<WindowEntry>, cutoff: int)
    requires i + 16 <= |data| && Decoded(data) == done + Decoded(data[i..])
    ensures var e := EntryAt(data, i);
      && Decoded(data) == done + [e] + Decoded(data[i + 16..])
      && Total(done + [e], cutoff) == Total(done, cutoff) + if e.timestamp > cutoff then e.count else 0
  {
    DecodedAt(data, i);
    TotalSnoc(done, EntryAt(data, i), cutoff);
    assert done + ([EntryAt(data, i)] + Decoded(data[i + 16..])) == done + [EntryAt(data, i)] + Decoded(data[i + 16..]);
  }

  lemma {:induction false} EncodedSnoc(log: seq<WindowEntry>, e: WindowEntry)
    ensures Encoded(log + [e]) == Encoded(log) + EncodeEntry(e)
  {
    if log != [] {
      assert (log + [e])[1..] == log[1..] + [e];
      EncodedSnoc(log[1..], e);
    }
  }

  // ----- the loops over the bytes -----

  /** localWindowTotal's loop: sum over the raw bytes without building the entries. */
  method LocalWindowTotal(data: seq<byte>, now: int, window: int) returns (total: int)
    ensures total == Total(Decoded(data), now - window)
  {
    var cutoff := now - window;
    total := 0;
    var i := 0;
    ghost var done: seq<WindowEntry> := [];
    assert data[0..] == data && done + Decoded(data) == Decoded(data);
    while i + 16 <= |data|
      invariant 0 <= i <= |data|
      invariant Decoded(data) == done + Decoded(data[i..]) && total == Total(done, cutoff)
    {
      var timestamp := I64(data[i..i + 8]);
      if timestamp > cutoff {
        total := total + I64(data[i + 8..i + 16]);
      }
      ReadOneMore(data, i, done, cutoff);
      done := done + [EntryAt(data, i)];
      i := i + 16;
    }
    assert done + [] == done;
  }

  method DecodeEntries(data: seq<byte>) returns (entries: array<WindowEntry>)
    ensures fresh(entries) && entries[..] == Decoded(data)
  {
    var n := |data| / 16;
    entries := new WindowEntry[n](_ => WindowEntry(0, 0));
    DecodedLength(data);
    for i := 0 to n
      invariant entries[..i] == Decoded(data)[..i]
    {
      DecodedIndex(data, i);
      entries[i] := WindowEntry(I64(data[i * 16..i * 16 + 8]), I64(data[i * 16 + 8..i * 16 + 16]));
    }
  }

  /** PutUint64 at an offset. */
  method PutUint64(buf: array<byte>, off: nat, n: int64)
    requires off + 8 <= buf.Length
    modifies buf
    ensures buf[off..off + 8] == Put64(n)
    ensures buf[..off] == old(buf[..off])
  {
    var b := Digits64(n);
    I64Injective(b, Put64(n));
    for k := 0 to 8
      invariant buf[off..off + k] == b[..k] && buf[..off] == old(buf[..off])
    {
      buf[off + k] := b[k];
    }
  }

  method EncodeEntries(entries: seq<WindowEntry>) returns (data: seq<byte>)
    ensures data == Encoded(entries)
  {
    var buf := new byte[|entries| * 16];
    for i := 0 to |entries|
      invariant buf[..i * 16] == Encoded(entries[..i])
    {
      PutEntry(buf, i * 16, entries[i]);
      EncodedSnoc(entries[..i], entries[i]);
      assert entries[..i + 1] == entries[..i] + [entries[i]];
    }
    assert entries[..|entries|] == entries;
    data := buf[..];
    assert buf[..|entries| * 16] == buf[..];
  }

  method PutEntry(buf: array<byte>, off: nat, e: WindowEntry)
    requires off + 16 <= buf.Length
    modifies buf
    ensures buf[..off + 16] == old(buf[..off]) + EncodeEntry(e)
  {
    PutUint64(buf, off, e.timestamp);
    ghost var first := buf[..off + 8];
    assert first == buf[..off] + buf[off..off + 8];
    PutUint64(buf, off + 8, e.count);
    assert buf[..off + 16] == buf[..off + 8] + buf[off + 8..off + 16];
  }

  /** The prune of localAddEntry: `dst := src[:0]` grown over the slice being read. */
  method PruneInPlace(src: array<WindowEntry>, cutoff: int) returns (n: nat)
    modifies src
    ensures n <= src.Length && src[..n] == Recent(old(src[..]), cutoff)
  {
    n := 0;
    for i := 0 to src.Length
      invariant n <= i && src[..n] == Recent(old(src[..i]), cutoff)
      invariant src[i..] == old(src[i..])
    {
      var e := src[i];
      assert old(src[..i + 1])[..i] == old(src[..i]);
      assert e == old(src[i]) by { assert e == src[i..][0]; }
      ghost var tail := src[i + 1..];
      assert tail == old(src[i + 1..]) by { assert tail == src[i..][1..]; }
      if e.timestamp > cutoff {
        src[n] := e;
        n := n + 1;
      }
      assert src[i + 1..] == tail;
    }
    assert old(src[..src.Length]) == old(src[..]);
  }

  /** The value localAddEntry writes over `data`. */
  method NewValue(data: seq<byte>, now: int64, count: int64, window: int) returns (value: seq<byte>)
    ensures value == Encoded(Appended(Decoded(data), window, WindowEntry(now, count)))
  {
    var src := DecodeEntries(data);
    assert src[..] == Decoded(data);
    var n := PruneInPlace(src, now - window);
    value := EncodeEntries(src[..n] + [WindowEntry(now, count)]);
  }

  /** PRUNED AT EVERY APPEND. Behind the entry just written only entries of its own window are left,
      and of those none is lost. */
  lemma NothingStale(log: seq<WindowEntry>, window: int, e: WindowEntry, x: WindowEntry)
    ensures multiset(Appended(log, window, e))[x]
         == (if x.timestamp > e.timestamp - window then multiset(log)[x] else 0) + if x == e then 1 else 0
  {
    RecentCount(log, e.timestamp - window, x);
  }

  lemma {:induction false} RecentCount(log: seq<WindowEntry>, cutoff: int, x: WindowEntry)
    ensures multiset(Recent(log, cutoff))[x] == if x.timestamp > cutoff then multiset(log)[x] else 0
  {
    if log != [] {
      var n := |log| - 1;
      RecentCount(log[..n], cutoff, x);
      assert log == log[..n] + [log[n]];
    }
  }
}
