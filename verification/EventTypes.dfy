/** Which events come out of the frames that were sent, in terms of their headers and payloads. */
module EventTypes {
  import opened EventStream
  import opened EventStreamChunks
  import opened Wrappers
  import opened Bytes

  /** The last field of that name. */
  function LastNamed(fields: seq<Field>, name: seq<byte>): Option<Field> {
    if fields == [] then None
    else
      var n := |fields| - 1;
      if fields[n].name == name then Some(fields[n]) else LastNamed(fields[..n], name)
  }

  /** The event type is what the last field of that name says: it is `stop`. */
  predicate Stops(o: Outgoing, name: seq<byte>, stop: seq<byte>) {
    var f := LastNamed(o.fields, name);
    f.Some? && f.value.Text? && f.value.value == stop
  }

  /** The event of one frame: none when the payload is no event, a block stop when it says so. */
  function EventSent<E>(unmarshal: seq<byte> -> Option<E>, asBlockStop: E -> E, o: Outgoing, name: seq<byte>,
                        stop: seq<byte>): seq<E>
  {
    if unmarshal(o.payload).None? then []
    else if Stops(o, name, stop) then [asBlockStop(unmarshal(o.payload).value)]
    else [unmarshal(o.payload).value]
  }

  function EventsSent<E>(unmarshal: seq<byte> -> Option<E>, asBlockStop: E -> E, os: seq<Outgoing>, name: seq<byte>,
                         stop: seq<byte>): seq<E>
  {
    if os == [] then []
    else
      EventSent(unmarshal, asBlockStop, os[0], name, stop)
      + EventsSent(unmarshal, asBlockStop, os[1..], name, stop)
  }

  /** The payload is an event and the event type is there, but no string. */
  predicate Breaks<E>(unmarshal: seq<byte> -> Option<E>, o: Outgoing, name: seq<byte>) {
    var f := LastNamed(o.fields, name);
    unmarshal(o.payload).Some? && f.Some? && f.value.Odd?
  }

  predicate NoneBreaks<E>(unmarshal: seq<byte> -> Option<E>, os: seq<Outgoing>, name: seq<byte>) {
    forall o <- os :: !Breaks(unmarshal, o, name)
  }

  function EventBy<E>(k: Codec<E>, o: Outgoing): seq<E> {
    EventSent(k.unmarshal, k.asBlockStop, o, k.eventType, k.blockStop)
  }

  function EventsBy<E>(k: Codec<E>, os: seq<Outgoing>): seq<E> {
    EventsSent(k.unmarshal, k.asBlockStop, os, k.eventType, k.blockStop)
  }

  // ----- looking up a header -----

  function ValueIn(hs: seq<Header>, name: seq<byte>): Option<Option<seq<byte>>> {
    if hs == [] then None else if hs[0].name == name then Some(hs[0].value) else ValueIn(hs[1..], name)
  }

  lemma {:induction false} SetThenLook(hs: seq<Header>, h: Header, name: seq<byte>)
    ensures ValueIn(SetHeader(hs, h), name) == if h.name == name then Some(h.value) else ValueIn(hs, name)
  {
    if hs != [] {
      SetThenLook(hs[1..], h, name);
    }
  }

  lemma {:induction false} HeadersSnoc(fields: seq<Field>, f: Field, acc: seq<Header>)
    ensures HeadersOf(fields + [f], acc) == SetHeader(HeadersOf(fields, acc), HeaderOf(f))
  {
    if fields != [] {
      assert (fields + [f])[1..] == fields[1..] + [f];
      HeadersSnoc(fields[1..], f, SetHeader(acc, HeaderOf(fields[0])));
    }
  }

  lemma {:induction false} LastIsFound(fields: seq<Field>, name: seq<byte>)
    ensures ValueIn(HeadersOf(fields, []), name)
         == var f := LastNamed(fields, name); if f.Some? then Some(HeaderOf(f.value).value) else None
  {
    if fields != [] {
      var n := |fields| - 1;
      assert fields == fields[..n] + [fields[n]];
      LastIsFound(fields[..n], name);
      HeadersSnoc(fields[..n], fields[n], []);
      SetThenLook(HeadersOf(fields[..n], []), HeaderOf(fields[n]), name);
    }
  }

  lemma {:induction false} TypeIsFound(name: seq<byte>, hs: seq<Header>)
    ensures EventType(name, hs) == var v := ValueIn(hs, name); if v.Some? then v.value else None
    ensures NilEventType(name, hs) <==> ValueIn(hs, name) == Some(None)
  {
    if hs != [] {
      TypeIsFound(name, hs[1..]);
    }
  }

  // ----- one frame, and all of them -----

  /** THE EVENT OF A FRAME. */
  lemma FrameGivesEvent<E>(k: Codec<E>, o: Outgoing)
    ensures !Breaks(k.unmarshal, o, k.eventType) ==> EventOf(k, Received(o)) == EventBy(k, o)
    ensures Fails(k, Received(o)) <==> Breaks(k.unmarshal, o, k.eventType)
  {
    LastIsFound(o.fields, k.eventType);
    TypeIsFound(k.eventType, Received(o).headers);
  }

  lemma {:induction false} FramesGiveEvents<E>(k: Codec<E>, os: seq<Outgoing>)
    ensures AllRead(k, ReceivedAll(os)) <==> NoneBreaks(k.unmarshal, os, k.eventType)
    ensures NoneBreaks(k.unmarshal, os, k.eventType) ==> EventsOf(k, ReceivedAll(os)) == EventsBy(k, os)
  {
    if os != [] {
      var first, rest := Received(os[0]), ReceivedAll(os[1..]);
      FrameGivesEvent(k, os[0]);
      FramesGiveEvents(k, os[1..]);
      EventsAppend(k, [first], rest);
      AllReadAppend(k, [first], rest);
      assert ReceivedAll(os) == [first] + rest && os == [os[0]] + os[1..];
      OneMessage(k, first);
    }
  }

  lemma OneMessage<E>(k: Codec<E>, m: Message)
    ensures EventsOf(k, [m]) == EventOf(k, m) && (AllRead(k, [m]) <==> !Fails(k, m))
  {
    assert [m][..0] == [];
  }

  /** WHAT IS SENT COMES OUT. Any frames and part of another, cut anywhere: reading fails exactly
      when a frame with an event has an event type that is no string, and otherwise gives one
      event for every payload that is one, a block stop where the last field ":event-type" says
      "contentBlockStop". */
  method ReceiveFrames<E>(crc: Crc, unmarshal: seq<byte> -> Option<E>, asBlockStop: E -> E, ghost os: seq<Outgoing>,
                          ghost next: Outgoing, ghost n: nat, chunks: seq<seq<byte>>)
    returns (events: seq<E>, rest: seq<byte>, ok: bool)
    requires (forall o <- os :: OutgoingOk(o)) && OutgoingOk(next) && n < |Encode(crc, next)|
    requires Joined(chunks) == EncodeAll(crc, os) + Encode(crc, next)[..n]
    ensures ok <==> NoneBreaks(unmarshal, os, [58, 101, 118, 101, 110, 116, 45, 116, 121, 112, 101])
    ensures ok ==>
      events == EventsSent(unmarshal, asBlockStop, os,
                           [58, 101, 118, 101, 110, 116, 45, 116, 121, 112, 101],
                           [99, 111, 110, 116, 101, 110, 116, 66, 108, 111, 99, 107, 83, 116, 111, 112])
    ensures ok ==> rest == Encode(crc, next)[..n]
  {
    var k := AmazonCodec(crc, unmarshal, asBlockStop);
    FramesReceived(k, os, next, n, chunks);
    events, rest, ok := ExtractAll(k, chunks);
  }

  lemma FramesReceived<E>(k: Codec<E>, os: seq<Outgoing>, next: Outgoing, n: nat, chunks: seq<seq<byte>>)
    requires (forall o <- os :: OutgoingOk(o)) && OutgoingOk(next) && n < |Encode(k.crc, next)|
    requires Joined(chunks) == EncodeAll(k.crc, os) + Encode(k.crc, next)[..n]
    ensures var p := Parse(k.crc, Joined(chunks));
      && (AllRead(k, p.messages) <==> NoneBreaks(k.unmarshal, os, k.eventType))
      && (AllRead(k, p.messages) ==> EventsOf(k, p.messages) == EventsBy(k, os))
      && p.rest == Encode(k.crc, next)[..n]
  {
    ReceivesWhatWasSent(k, os, next, n, chunks);
    ChunksDoNotMatter(k, chunks);
    FramesGiveEvents(k, os);
  }

  // ----- header sections that break off -----

  lemma {:induction false} FieldsThen(fields: seq<Field>, acc: seq<Header>, tail: seq<byte>)
    requires FieldsOk(fields)
    ensures Headers(EncodeFields(fields) + tail, acc) == Headers(tail, HeadersOf(fields, acc))
  {
    if fields == [] {
      assert EncodeFields(fields) + tail == tail;
    } else {
      var rest := EncodeFields(fields[1..]) + tail;
      assert EncodeFields(fields) + tail == EncodeField(fields[0]) + rest;
      FieldDecodes(fields[0], rest);
      FieldsThen(fields[1..], SetHeader(acc, HeaderOf(fields[0])), tail);
    }
  }

  /** Any headers and then a length byte: with nothing behind it that is the end, with less than a
      whole name the section is malformed. */
  lemma NameBreaksOff(fields: seq<Field>, length: byte, part: seq<byte>)
    requires FieldsOk(fields) && |part| < length as int
    ensures Headers(EncodeFields(fields) + ([length] + part), [])
         == if part == [] then Some(HeadersOf(fields, [])) else None
  {
    FieldsThen(fields, [], [length] + part);
  }

  /** No type, or a string that is shorter than it says. */
  predicate ShortValue(part: seq<byte>) {
    part == [] || (part[0] == 7 && (|part| < 3 || |part| - 3 < (part[1] as int) * 256 + part[2]))
  }

  lemma ShortValueIsBad(part: seq<byte>)
    requires ShortValue(part)
    ensures NextValue(part) == BadValue
  {
    if |part| >= 3 {
      assert part[1..][..2] == [part[1], part[2]];
    }
  }

  lemma NameThen(name: seq<byte>, part: seq<byte>)
    requires |name| < 256
    ensures NextName([|name|] + name + part) == Name(name, part)
  {
    var s := [|name|] + name + part;
    assert s[1..] == name + part && (name + part)[..|name|] == name && (name + part)[|name|..] == part;
  }

  /** And a name without a type, or a string shorter than it says, is malformed too. */
  lemma ValueBreaksOff(fields: seq<Field>, name: seq<byte>, part: seq<byte>)
    requires FieldsOk(fields) && |name| < 256 && ShortValue(part)
    ensures Headers(EncodeFields(fields) + ([|name|] + name + part), []) == None
  {
    var s := [|name|] + name + part;
    FieldsThen(fields, [], s);
    NameThen(name, part);
    ShortValueIsBad(part);
    BadValueEnds(s, name, part, HeadersOf(fields, []));
  }

  lemma BadValueEnds(s: seq<byte>, name: seq<byte>, part: seq<byte>, acc: seq<Header>)
    requires NextName(s) == Name(name, part) && NextValue(part) == BadValue
    ensures Headers(s, acc) == None
  {
    assert NextHeader(s) == Broken;
  }

  // ----- which bytes are a frame -----

  function Smaller(a: int, b: int): int {
    if a <= b then a else b
  }

  /** Where headers and payload end, by the two lengths at the front. */
  predicate Bounds(b: seq<byte>, total: nat, headersLen: nat, h: nat, end: nat) {
    && 12 <= |b| && total == Number(b[..4]) && headersLen == Number(b[4..8])
    && h == Smaller(12 + headersLen, |b|)
    && end == Smaller(h + (total - headersLen - 16) % 0x1_0000_0000, |b|)
  }

  lemma BoundsFound(b: seq<byte>, total: nat, headersLen: nat, h: nat, end: nat)
    requires Bounds(b, total, headersLen, h, end)
    ensures total == U32(b[..4]) && h == HeadersEnd(b) && end == PayloadEnd(b) && h <= end <= |b|
  {
    NumberOfFour(b[..4]);
    NumberOfFour(b[4..8]);
  }

  lemma ChecksumAt(b: seq<byte>, at: nat)
    requires at + 4 <= |b|
    ensures U32(b[at..at + 4]) == Number(b[at..at + 4])
  {
    NumberOfFour(b[at..at + 4]);
  }

  /** A FRAME, EXACTLY. Bytes decode if and only if the announced total is not zero, the
      checksums behind the two lengths and behind the payload are those of everything before
      them, and the headers can be read; lengths that do not add up wrap at 32 bits. */
  lemma DecodesExactlyWhen(crc: Crc, b: seq<byte>, total: nat, headersLen: nat, h: nat, end: nat)
    requires Bounds(b, total, headersLen, h, end)
    ensures 12 <= h <= end <= |b|
    ensures if total != 0 && Number(b[8..12]) == crc(b[..8]) && Headers(b[12..h], []).Some?
               && end + 4 <= |b| && Number(b[end..end + 4]) == crc(b[..end])
      then Decode(crc, b) == Some(Frame(Message(Headers(b[12..h], []).value, b[h..end]), end + 4))
      else Decode(crc, b) == None
  {
    BoundsFound(b, total, headersLen, h, end);
    ChecksumAt(b, 8);
    if end + 4 <= |b| {
      ChecksumAt(b, end);
    }
    if PreludeOk(crc, b) {
      DecodeBehindPrelude(crc, b, b[12..h], b[h..end], end);
    }
  }
}
