/** Putting one large event together again when it arrives in fragments, with a bounded
    buffer. What counts as JSON is uninterpreted. */
module SseFragments {
  import opened Bytes
  import opened SseEvents
  import opened Wrappers

  /** `done`: after trimming, the text is the "[DONE]" terminator. */
  datatype Rules = Rules(blank: Blank, done: seq<byte> -> bool, validJson: seq<byte> -> bool)

  /** The payload of a block; a block without data has none. */
  function PayloadOf(rules: Rules, block: seq<byte>): seq<byte> {
    match Split(rules.blank, block)
    case Verbatim(_) => []
    case Event(_, payload) => payload
  }

  predicate Complete(rules: Rules, block: seq<byte>) {
    rules.validJson(PayloadOf(rules, block))
  }

  /** A first fragment that waits for more: it has data, but not yet a whole JSON text, and it
      is neither an empty payload nor the terminator. */
  predicate Incomplete(rules: Rules, block: seq<byte>) {
    && Split(rules.blank, block).Event? && !Complete(rules, block)
    && !rules.blank(PayloadOf(rules, block)) && !rules.done(PayloadOf(rules, block))
  }

  /** A block to emit, if any, and the buffer to carry on. */
  datatype Step = Step(out: Option<seq<byte>>, buffer: seq<byte>)

  function Merged(rules: Rules, buffered: seq<byte>, chunk: seq<byte>): Step {
    if buffered != [] then
      if Complete(rules, buffered + chunk) then Step(Some(buffered + chunk), []) else Step(None, buffered + chunk)
    else if Incomplete(rules, chunk) then Step(None, chunk)
    else Step(Some(chunk), [])
  }

  /** A cap of 0 or less means no cap; over the cap everything is flushed. */
  predicate Overflows(cap: int, buffered: seq<byte>, chunk: seq<byte>) {
    cap > 0 && |buffered| + |chunk| > cap
  }

  function Bounded(rules: Rules, cap: int, buffered: seq<byte>, chunk: seq<byte>): Step {
    if Overflows(cap, buffered, chunk) then Step(Some(buffered + chunk), []) else Merged(rules, buffered, chunk)
  }

  method MergeSSEEventState(rules: Rules, buffered: seq<byte>, chunk: seq<byte>)
    returns (out: Option<seq<byte>>, buffer: seq<byte>)
    ensures Step(out, buffer) == Merged(rules, buffered, chunk)
  {
    if |buffered| > 0 {
      var combined := buffered + chunk;
      var parts := SplitSSEEvent(rules.blank, combined);
      var payload := if parts.Event? then parts.payload else [];
      if rules.validJson(payload) {
        return Some(combined), [];
      }
      return None, combined;
    }
    var parts := SplitSSEEvent(rules.blank, chunk);
    if parts.Verbatim? {
      return Some(chunk), [];
    }
    var payload := parts.payload;
    if rules.validJson(payload) || rules.blank(payload) || rules.done(payload) {
      return Some(chunk), [];
    }
    return None, chunk;
  }

  class Context {
    const rules: Rules
    const maxBufferBytes: int
    var incomplete: bool
    var buffered: seq<byte>

    ghost predicate Valid()
      reads this
    {
      && (incomplete <==> buffered != [])
      && (maxBufferBytes > 0 ==> |buffered| <= maxBufferBytes)
    }

    constructor (rules: Rules, maxBufferBytes: int)
      ensures Valid() && buffered == [] && this.rules == rules && this.maxBufferBytes == maxBufferBytes
    {
      this.rules, this.maxBufferBytes := rules, maxBufferBytes;
      incomplete, buffered := false, [];
    }

    /** Nothing is lost or invented, and the buffer stays within the cap. */
    method MergeLargeUsageChunks(chunk: seq<byte>) returns (out: Option<seq<byte>>)
      requires Valid()
      modifies this
      ensures Valid() && Step(out, buffered) == Bounded(rules, maxBufferBytes, old(buffered), chunk)
      ensures (if out.Some? then out.value else []) + buffered == old(buffered) + chunk
    {
      if maxBufferBytes > 0 && |buffered| + |chunk| > maxBufferBytes {
        out := Some(if |buffered| == 0 then chunk else buffered + chunk);
        assert [] + chunk == chunk;
        incomplete, buffered := false, [];
        assert out.value + [] == out.value;
        return;
      }
      var rest: seq<byte>;
      out, rest := MergeSSEEventState(rules, buffered, chunk);
      assert [] + chunk == chunk && [] + rest == rest;
      incomplete, buffered := |rest| > 0, rest;
    }
  }

  // ----- whole runs -----

  function Run(rules: Rules, cap: int, chunks: seq<seq<byte>>): (r: (seq<Option<seq<byte>>>, seq<byte>)) {
    if chunks == [] then ([], [])
    else
      var n := |chunks| - 1;
      var before := Run(rules, cap, chunks[..n]);
      var step := Bounded(rules, cap, before.1, chunks[n]);
      (before.0 + [step.out], step.buffer)
  }

  function Emitted(outs: seq<Option<seq<byte>>>): seq<byte> {
    if outs == [] then []
    else
      var last := outs[|outs| - 1];
      Emitted(outs[..|outs| - 1]) + if last.Some? then last.value else []
  }

  function Received(chunks: seq<seq<byte>>): seq<byte> {
    if chunks == [] then [] else Received(chunks[..|chunks| - 1]) + chunks[|chunks| - 1]
  }

  lemma StepConserves(rules: Rules, cap: int, buffered: seq<byte>, chunk: seq<byte>)
    requires cap > 0 ==> |buffered| <= cap
    ensures var s := Bounded(rules, cap, buffered, chunk);
      && (if s.out.Some? then s.out.value else []) + s.buffer == buffered + chunk
      && (cap > 0 ==> |s.buffer| <= cap)
  {
    var s := Bounded(rules, cap, buffered, chunk);
    assert [] + chunk == chunk && [] + s.buffer == s.buffer;
    if s.out.Some? {
      assert s.out.value + [] == s.out.value;
    }
  }

  /** CONSERVATION. Over any run, overflow included, what was emitted plus what is held is
      exactly what came in, and the buffer never exceeds the cap. */
  lemma {:induction false} NothingIsLost(rules: Rules, cap: int, chunks: seq<seq<byte>>)
    ensures var r := Run(rules, cap, chunks);
      && Emitted(r.0) + r.1 == Received(chunks)
      && (cap > 0 ==> |r.1| <= cap)
      && |r.0| == |chunks|
  {
    if chunks == [] {
      assert Received(chunks) == [];
    } else {
      var n := |chunks| - 1;
      var before := Run(rules, cap, chunks[..n]);
      var step := Bounded(rules, cap, before.1, chunks[n]);
      NothingIsLost(rules, cap, chunks[..n]);
      StepConserves(rules, cap, before.1, chunks[n]);
      EmittedSnoc(before.0, step.out);
      Regroup(Emitted(before.0), if step.out.Some? then step.out.value else [], step.buffer, before.1, chunks[n]);
    }
  }

  lemma EmittedSnoc(outs: seq<Option<seq<byte>>>, out: Option<seq<byte>>)
    ensures Emitted(outs + [out]) == Emitted(outs) + if out.Some? then out.value else []
  {
    assert (outs + [out])[..|outs|] == outs;
  }

  lemma Regroup(a: seq<byte>, x: seq<byte>, y: seq<byte>, b: seq<byte>, c: seq<byte>)
    requires x + y == b + c
    ensures (a + x) + y == (a + b) + c
  {
    assert (a + x) + y == a + (x + y);
    assert (a + b) + c == a + (b + c);
  }

  /** The run of fragments of one event: no proper piece from the front is complete. */
  ghost predicate Fragments(rules: Rules, cap: int, chunks: seq<seq<byte>>) {
    && chunks != [] && Incomplete(rules, chunks[0])
    && (forall n | 1 < n < |chunks| :: !Complete(rules, Received(chunks[..n])))
    && (cap > 0 ==> |Received(chunks)| <= cap)
  }

  lemma {:induction false} ReceivedGrows(chunks: seq<seq<byte>>, n: nat)
    requires n <= |chunks|
    ensures |Received(chunks[..n])| <= |Received(chunks)|
    decreases |chunks|
  {
    if n < |chunks| {
      var last := |chunks| - 1;
      ReceivedGrows(chunks[..last], n);
      assert chunks[..last][..n] == chunks[..n];
    } else {
      assert chunks[..n] == chunks;
    }
  }

  /** `n` calls that emit nothing. */
  function Silent(n: nat): seq<Option<seq<byte>>> {
    if n == 0 then [] else Silent(n - 1) + [None]
  }

  lemma OneChunkMore(rules: Rules, cap: int, chunks: seq<seq<byte>>, n: nat)
    requires n < |chunks|
    ensures Received(chunks[..n + 1]) == Received(chunks[..n]) + chunks[n]
    ensures var before := Run(rules, cap, chunks[..n]);
      var step := Bounded(rules, cap, before.1, chunks[n]);
      Run(rules, cap, chunks[..n + 1]) == (before.0 + [step.out], step.buffer)
  {
    assert chunks[..n + 1][..n] == chunks[..n];
  }

  lemma EmptyHasNoData(blank: Blank)
    ensures Split(blank, []).Verbatim?
  {
    var one: seq<seq<byte>> := [[]];
    assert one[..0] == [] && Lines([]) == one && !IsData([]);
  }

  lemma FirstFragment(rules: Rules, cap: int, chunks: seq<seq<byte>>)
    requires Fragments(rules, cap, chunks)
    ensures Run(rules, cap, chunks[..1]) == (Silent(1), chunks[0]) && Received(chunks[..1]) == chunks[0]
    ensures chunks[0] != []
  {
    OneChunkMore(rules, cap, chunks, 0);
    ReceivedGrows(chunks, 1);
    EmptyHasNoData(rules.blank);
    assert chunks[..0] == [] && [] + chunks[0] == chunks[0];
    assert Silent(1) == Silent(0) + [None];
  }

  /** While fragments come in, nothing is emitted and everything is held. */
  lemma {:induction false} Accumulates(rules: Rules, cap: int, chunks: seq<seq<byte>>, n: nat)
    requires Fragments(rules, cap, chunks) && 1 <= n < |chunks|
    ensures Run(rules, cap, chunks[..n]) == (Silent(n), Received(chunks[..n]))
    ensures Received(chunks[..n]) != []
  {
    FirstFragment(rules, cap, chunks);
    if n > 1 {
      Accumulates(rules, cap, chunks, n - 1);
      OneChunkMore(rules, cap, chunks, n - 1);
      ReceivedGrows(chunks, n);
    }
  }

  /** FRAGMENTS BECOME ONE EVENT. When an event arrives in two or more pieces and fits the
      buffer, exactly one block comes out, with the last piece, and it is the whole event. */
  lemma FragmentsBecomeOneEvent(rules: Rules, cap: int, chunks: seq<seq<byte>>)
    requires Fragments(rules, cap, chunks) && 2 <= |chunks| && Complete(rules, Received(chunks))
    ensures Run(rules, cap, chunks) == (Silent(|chunks| - 1) + [Some(Received(chunks))], [])
  {
    var n := |chunks| - 1;
    Accumulates(rules, cap, chunks, n);
    OneChunkMore(rules, cap, chunks, n);
    assert chunks[..n + 1] == chunks;
  }
}
