/** How the bytes are cut into chunks does not matter, and decoding inverts encoding. */
module EventStreamChunks {
  import opened Bytes
  import opened EventStream
  import opened Wrappers

  type Crc = seq<byte> -> word

  // ----- chunking -----

  lemma PreludeMonotone(crc: Crc, body: seq<byte>, more: seq<byte>)
    requires |body| >= 12
    ensures PreludeOk(crc, body + more) <==> PreludeOk(crc, body)
  {
    var all := body + more;
    assert all[..4] == body[..4] && all[8..12] == body[8..12] && all[..8] == body[..8];
  }

  /** A frame that ends inside `body` ends at the same place with more bytes behind. */
  lemma EndsMonotone(body: seq<byte>, more: seq<byte>)
    requires |body| >= 12 && PayloadEnd(body) < |body|
    ensures HeadersEnd(body + more) == HeadersEnd(body) && PayloadEnd(body + more) == PayloadEnd(body)
  {
    var all := body + more;
    assert all[..4] == body[..4] && all[4..8] == body[4..8];
  }

  /** What decodes from the front of some bytes decodes the same with more bytes behind. */
  lemma DecodeMonotone(crc: Crc, body: seq<byte>, more: seq<byte>)
    requires Decode(crc, body).Some?
    ensures Decode(crc, body + more) == Decode(crc, body)
  {
    var all := body + more;
    PreludeMonotone(crc, body, more);
    EndsMonotone(body, more);
    var end := PayloadEnd(body);
    assert HeaderSection(all) == HeaderSection(body) && Payload(all) == Payload(body);
    assert all[..end] == body[..end] && all[end..end + 4] == body[end..end + 4];
    DecodeUnfolds(crc, body);
    DecodeUnfolds(crc, all);
  }

  lemma DecodeUnfolds(crc: Crc, b: seq<byte>)
    requires PreludeOk(crc, b) && Headers(HeaderSection(b), []).Some? && ClosedBy(crc, b, PayloadEnd(b))
    ensures Decode(crc, b) == Some(Frame(Message(Headers(HeaderSection(b), []).value, Payload(b)), PayloadEnd(b) + 4))
  {
  }

  /** Decoding with more bytes is decoding on from the bytes left over. */
  lemma {:induction false} ParseMore(crc: Crc, body: seq<byte>, more: seq<byte>)
    ensures Parse(crc, body + more) == Prepend(Parse(crc, body).messages, Parse(crc, Parse(crc, body).rest + more))
    decreases |body|
  {
    match Decode(crc, body)
    case None =>
      PrependNothing(Parse(crc, body + more));
    case Some(f) =>
      var rest := body[f.size..];
      DecodeMonotone(crc, body, more);
      assert (body + more)[f.size..] == rest + more;
      ParseSome(crc, body, f);
      ParseSome(crc, body + more, f);
      ParseMore(crc, rest, more);
      PrependTwice([f.message], Parse(crc, rest).messages, Parse(crc, Parse(crc, rest).rest + more));
  }

  lemma ParseSome(crc: Crc, body: seq<byte>, f: Frame)
    requires Decode(crc, body) == Some(f)
    ensures Parse(crc, body) == Prepend([f.message], Parse(crc, body[f.size..]))
  {
  }

  lemma PrependNothing(p: Parsed)
    ensures Prepend([], p) == p
  {
    assert [] + p.messages == p.messages;
  }

  lemma PrependTwice(x: seq<Message>, y: seq<Message>, p: Parsed)
    ensures Prepend(x, Prepend(y, p)) == Prepend(x + y, p)
  {
    assert x + (y + p.messages) == x + y + p.messages;
  }

  function Joined(chunks: seq<seq<byte>>): seq<byte> {
    if chunks == [] then [] else Joined(chunks[..|chunks| - 1]) + chunks[|chunks| - 1]
  }

  /** The buffer after each chunk went through extractAmazonEventStreamEvents. */
  function BufferAfter(crc: Crc, chunks: seq<seq<byte>>): seq<byte> {
    if chunks == [] then []
    else Parse(crc, BufferAfter(crc, chunks[..|chunks| - 1]) + chunks[|chunks| - 1]).rest
  }

  /** All events of all calls, in order. */
  function EventsAfter<E>(k: Codec<E>, chunks: seq<seq<byte>>): seq<E> {
    if chunks == [] then []
    else
      var before := chunks[..|chunks| - 1];
      EventsAfter(k, before)
      + EventsOf(k, Parse(k.crc, BufferAfter(k.crc, before) + chunks[|chunks| - 1]).messages)
  }

  lemma {:induction false} EventsAppend<E>(k: Codec<E>, a: seq<Message>, b: seq<Message>)
    ensures EventsOf(k, a + b) == EventsOf(k, a) + EventsOf(k, b)
  {
    if b == [] {
      assert a + b == a;
    } else {
      var n := |b| - 1;
      EventsAppend(k, a, b[..n]);
      assert b == b[..n] + [b[n]];
      EventsAppendOne(k, a, b[..n], b[n]);
    }
  }

  lemma EventsAppendOne<E>(k: Codec<E>, a: seq<Message>, b: seq<Message>, m: Message)
    requires EventsOf(k, a + b) == EventsOf(k, a) + EventsOf(k, b)
    ensures EventsOf(k, a + (b + [m])) == EventsOf(k, a) + EventsOf(k, b + [m])
  {
    assert a + (b + [m]) == a + b + [m];
    EventsSnoc(k, a + b, m);
    EventsSnoc(k, b, m);
    Regroup(EventsOf(k, a), EventsOf(k, b), EventOf(k, m));
  }

  lemma Regroup<T>(x: seq<T>, y: seq<T>, z: seq<T>)
    ensures x + (y + z) == (x + y) + z
  {
  }

  /** CHUNK INDEPENDENCE. For any bytes whatever, well formed or not, and any way of cutting
      them: the events of all calls together are those of one call on the whole, and the
      buffer is the undecoded suffix of the whole. */
  lemma {:induction false} ChunksDoNotMatter<E>(k: Codec<E>, chunks: seq<seq<byte>>)
    ensures EventsAfter(k, chunks) == EventsOf(k, Parse(k.crc, Joined(chunks)).messages)
    ensures BufferAfter(k.crc, chunks) == Parse(k.crc, Joined(chunks)).rest
  {
    if chunks != [] {
      var before, last := chunks[..|chunks| - 1], chunks[|chunks| - 1];
      ChunksDoNotMatter(k, before);
      var p := Parse(k.crc, Joined(before));
      ParseMore(k.crc, Joined(before), last);
      EventsAppend(k, p.messages, Parse(k.crc, p.rest + last).messages);
    }
  }

  /** The first `i` chunks hold no complete frame whose event type is no string. */
  predicate ReadableUpTo<E>(k: Codec<E>, chunks: seq<seq<byte>>, i: nat)
    requires i <= |chunks|
  {
    AllRead(k, Parse(k.crc, Joined(chunks[..i])).messages)
  }

  /** What decodes from the front is read whenever what decodes from all is. */
  lemma FrontRead<E>(k: Codec<E>, front: seq<byte>, last: seq<byte>)
    ensures AllRead(k, Parse(k.crc, front + last).messages) ==> AllRead(k, Parse(k.crc, front).messages)
  {
    ParseMore(k.crc, front, last);
    AllReadAppend(k, Parse(k.crc, front).messages, Parse(k.crc, Parse(k.crc, front).rest + last).messages);
  }

  lemma {:induction false} JoinedSplit(chunks: seq<seq<byte>>, i: nat)
    requires i <= |chunks|
    ensures Joined(chunks) == Joined(chunks[..i]) + Joined(chunks[i..])
  {
    var n := |chunks| - 1;
    if i <= n {
      JoinedSplit(chunks[..n], i);
      assert chunks[..n][..i] == chunks[..i] && chunks[..n][i..] == chunks[i..][..n - i];
    } else {
      assert chunks[..i] == chunks;
    }
  }

  /** Reading a part of the chunks fails only if reading all of them does. */
  lemma PartRead<E>(k: Codec<E>, chunks: seq<seq<byte>>, i: nat)
    requires i <= |chunks|
    ensures AllRead(k, Parse(k.crc, Joined(chunks)).messages) ==> ReadableUpTo(k, chunks, i)
  {
    JoinedSplit(chunks, i);
    FrontRead(k, Joined(chunks[..i]), Joined(chunks[i..]));
  }

  /** The call that gets chunk `i`. */
  function Call(crc: Crc, chunks: seq<seq<byte>>, i: nat): Parsed
    requires i < |chunks|
  {
    Parse(crc, BufferAfter(crc, chunks[..i]) + chunks[i])
  }

  lemma OneMoreChunk<E>(k: Codec<E>, chunks: seq<seq<byte>>, i: nat)
    requires i < |chunks|
    ensures EventsAfter(k, chunks[..i + 1])
         == EventsAfter(k, chunks[..i]) + EventsOf(k, Call(k.crc, chunks, i).messages)
    ensures BufferAfter(k.crc, chunks[..i + 1]) == Call(k.crc, chunks, i).rest
  {
    assert chunks[..i + 1][..i] == chunks[..i];
  }

  /** One more chunk is read exactly when all up to it are. */
  lemma OneMoreRead<E>(k: Codec<E>, chunks: seq<seq<byte>>, i: nat)
    requires i < |chunks| && ReadableUpTo(k, chunks, i)
    ensures AllRead(k, Call(k.crc, chunks, i).messages) <==> ReadableUpTo(k, chunks, i + 1)
  {
    var before := chunks[..i];
    assert chunks[..i + 1][..i] == before;
    ChunksDoNotMatter(k, before);
    ParseMore(k.crc, Joined(before), chunks[i]);
    AllReadAppend(k, Parse(k.crc, Joined(before)).messages, Call(k.crc, chunks, i).messages);
  }

  lemma NothingReadYet<E>(k: Codec<E>, chunks: seq<seq<byte>>)
    ensures ReadableUpTo(k, chunks, 0)
  {
    assert Parse(k.crc, []).messages == [];
  }

  /** One StreamContext fed chunk by chunk does what EventsAfter says, and fails exactly when some
      complete frame of the whole has an event type that is no string. */
  method ExtractAll<E>(k: Codec<E>, chunks: seq<seq<byte>>) returns (events: seq<E>, rest: seq<byte>, ok: bool)
    ensures ok <==> AllRead(k, Parse(k.crc, Joined(chunks)).messages)
    ensures ok ==> events == EventsOf(k, Parse(k.crc, Joined(chunks)).messages)
    ensures ok ==> rest == Parse(k.crc, Joined(chunks)).rest
  {
    var ctx := new StreamContext(k);
    events := [];
    NothingReadYet(k, chunks);
    for i := 0 to |chunks|
      invariant fresh(ctx) && ctx.codec == k
      invariant ReadableUpTo(k, chunks, i)
      invariant events == EventsAfter(k, chunks[..i]) && ctx.buffered == BufferAfter(k.crc, chunks[..i])
    {
      OneMoreChunk(k, chunks, i);
      OneMoreRead(k, chunks, i);
      var found, read := ctx.Extract(chunks[i]);
      if !read {
        PartRead(k, chunks, i + 1);
        return [], [], false;
      }
      events := events + found;
    }
    rest, ok := ctx.buffered, true;
    WholeRead(k, chunks, |chunks|);
  }

  lemma WholeRead<E>(k: Codec<E>, chunks: seq<seq<byte>>, n: nat)
    requires n == |chunks| && ReadableUpTo(k, chunks, n)
    ensures AllRead(k, Parse(k.crc, Joined(chunks)).messages)
    ensures EventsAfter(k, chunks[..n]) == EventsOf(k, Parse(k.crc, Joined(chunks)).messages)
    ensures BufferAfter(k.crc, chunks[..n]) == Parse(k.crc, Joined(chunks)).rest
  {
    assert chunks[..n] == chunks;
    ChunksDoNotMatter(k, chunks);
  }

  // ----- encoding -----

  /** A header as it is sent: a string, or a value of another type, of which the decoder reads the
      type only. */
  datatype Field = Text(name: seq<byte>, value: seq<byte>) | Odd(name: seq<byte>, kind: byte)

  datatype Outgoing = Outgoing(fields: seq<Field>, payload: seq<byte>)

  predicate FieldOk(f: Field) {
    |f.name| < 256 && if f.Text? then |f.value| < 65536 else f.kind != 7
  }

  /** Length and name; type 7 is a string and has a length of two bytes. */
  function EncodeField(f: Field): seq<byte>
    requires FieldOk(f)
  {
    [|f.name| as byte] + f.name + if f.Text? then [7, |f.value| / 256, |f.value| % 256] + f.value else [f.kind]
  }

  predicate FieldsOk(fields: seq<Field>) {
    forall f <- fields :: FieldOk(f)
  }

  function EncodeFields(fields: seq<Field>): seq<byte>
    requires FieldsOk(fields)
  {
    if fields == [] then [] else EncodeField(fields[0]) + EncodeFields(fields[1..])
  }

  predicate OutgoingOk(o: Outgoing) {
    FieldsOk(o.fields) && 16 + |EncodeFields(o.fields)| + |o.payload| < WORD
  }

  function Prelude(o: Outgoing): (b: seq<byte>)
    requires OutgoingOk(o)
    ensures |b| == 8
  {
    Put32(16 + |EncodeFields(o.fields)| + |o.payload|) + Put32(|EncodeFields(o.fields)|)
  }

  function Checked(crc: Crc, o: Outgoing): seq<byte>
    requires OutgoingOk(o)
  {
    Prelude(o) + Put32(crc(Prelude(o))) + EncodeFields(o.fields) + o.payload
  }

  function Encode(crc: Crc, o: Outgoing): (b: seq<byte>)
    requires OutgoingOk(o)
    ensures |b| == 16 + |EncodeFields(o.fields)| + |o.payload|
  {
    Checked(crc, o) + Put32(crc(Checked(crc, o)))
  }

  function EncodeAll(crc: Crc, os: seq<Outgoing>): seq<byte>
    requires forall o <- os :: OutgoingOk(o)
  {
    if os == [] then [] else Encode(crc, os[0]) + EncodeAll(crc, os[1..])
  }

  function HeaderOf(f: Field): Header {
    Header(f.name, if f.Text? then Some(f.value) else None)
  }

  /** What a receiver sees: a repeated header name keeps its last value. */
  function HeadersOf(fields: seq<Field>, acc: seq<Header>): seq<Header> {
    if fields == [] then acc else HeadersOf(fields[1..], SetHeader(acc, HeaderOf(fields[0])))
  }

  function Received(o: Outgoing): Message {
    Message(HeadersOf(o.fields, []), o.payload)
  }

  function ReceivedAll(os: seq<Outgoing>): seq<Message> {
    if os == [] then [] else [Received(os[0])] + ReceivedAll(os[1..])
  }

  lemma NameDecodes(name: seq<byte>, more: seq<byte>)
    requires |name| < 256 && more != []
    ensures NextName([|name|] + name + more) == Name(name, more)
  {
    var s := [|name|] + name + more;
    assert s[1..] == name + more;
    assert s[1..][..|name|] == name && s[1..][|name|..] == more;
  }

  lemma ValueDecodes(value: seq<byte>, more: seq<byte>)
    requires |value| < 65536
    ensures NextValue([7, |value| / 256, |value| % 256] + value + more) == Value(Some(value), more)
  {
    var s := [7, |value| / 256, |value| % 256] + value + more;
    var v := s[1..];
    assert v[..2] == Put16(|value|) && v[2..] == value + more;
    assert v[2..][..|value|] == value && v[2..][|value|..] == more;
  }

  lemma FieldDecodes(f: Field, more: seq<byte>)
    requires FieldOk(f)
    ensures NextHeader(EncodeField(f) + more) == Got(HeaderOf(f), more)
  {
    if f.Text? {
      var value := [7, |f.value| / 256, |f.value| % 256] + f.value + more;
      assert EncodeField(f) + more == [|f.name|] + f.name + value;
      NameDecodes(f.name, value);
      ValueDecodes(f.value, more);
    } else {
      assert EncodeField(f) + more == [|f.name|] + f.name + ([f.kind] + more);
      NameDecodes(f.name, [f.kind] + more);
      assert ([f.kind] + more)[1..] == more;
    }
  }

  lemma {:induction false} FieldsDecode(fields: seq<Field>, acc: seq<Header>)
    requires FieldsOk(fields)
    ensures Headers(EncodeFields(fields), acc) == Some(HeadersOf(fields, acc))
  {
    if fields != [] {
      FieldDecodes(fields[0], EncodeFields(fields[1..]));
      FieldsDecode(fields[1..], SetHeader(acc, HeaderOf(fields[0])));
    }
  }

  lemma PreludeDecodes(crc: Crc, o: Outgoing)
    requires OutgoingOk(o)
    ensures var b := Encode(crc, o);
      && U32(b[..4]) == 16 + |EncodeFields(o.fields)| + |o.payload|
      && U32(b[4..8]) == |EncodeFields(o.fields)|
      && PreludeOk(crc, b)
  {
    var b, p := Encode(crc, o), Prelude(o);
    assert b[..8] == p && b[8..12] == Put32(crc(p));
    assert b[..4] == p[..4] && b[4..8] == p[4..8];
    assert p[..4] == Put32(16 + |EncodeFields(o.fields)| + |o.payload|) && p[4..8] == Put32(|EncodeFields(o.fields)|);
  }

  /** The parts of an encoded frame. */
  lemma BodyDecodes(crc: Crc, o: Outgoing)
    requires OutgoingOk(o)
    ensures var b, h := Encode(crc, o), 12 + |EncodeFields(o.fields)|;
      var end := h + |o.payload|;
      && b[12..h] == EncodeFields(o.fields) && b[h..end] == o.payload
      && ClosedBy(crc, b, end)
  {
    var b, end := Encode(crc, o), 12 + |EncodeFields(o.fields)| + |o.payload|;
    assert b[..end] == Checked(crc, o) && b[end..end + 4] == Put32(crc(Checked(crc, o)));
  }

  lemma FrameEnds(crc: Crc, o: Outgoing)
    requires OutgoingOk(o)
    ensures var b, h := Encode(crc, o), 12 + |EncodeFields(o.fields)|;
      PreludeOk(crc, b) && HeadersEnd(b) == h && PayloadEnd(b) == h + |o.payload|
  {
    PreludeDecodes(crc, o);
    EndsByLengths(Encode(crc, o), |EncodeFields(o.fields)|, |o.payload|);
  }

  lemma EndsByLengths(b: seq<byte>, headersLen: nat, payloadLen: nat)
    requires |b| == 16 + headersLen + payloadLen < WORD
    requires U32(b[..4]) == 16 + headersLen + payloadLen && U32(b[4..8]) == headersLen
    ensures HeadersEnd(b) == 12 + headersLen && PayloadEnd(b) == 12 + headersLen + payloadLen
  {
  }

  /** All parts of an encoded frame, where the decoder looks for them. */
  lemma FrameParts(crc: Crc, o: Outgoing, b: seq<byte>)
    requires OutgoingOk(o) && b == Encode(crc, o)
    ensures PreludeOk(crc, b) && PayloadEnd(b) + 4 == |b| && ClosedBy(crc, b, PayloadEnd(b))
    ensures HeaderSection(b) == EncodeFields(o.fields) && Payload(b) == o.payload
  {
    FrameEnds(crc, o);
    BodyDecodes(crc, o);
  }

  lemma DecodeByParts(crc: Crc, b: seq<byte>, section: seq<byte>, m: Message)
    requires PreludeOk(crc, b) && PayloadEnd(b) + 4 == |b| && ClosedBy(crc, b, PayloadEnd(b))
    requires HeaderSection(b) == section && Headers(section, []) == Some(m.headers) && Payload(b) == m.payload
    ensures Decode(crc, b) == Some(Frame(m, |b|))
  {
    DecodeBehindPrelude(crc, b, section, m.payload, PayloadEnd(b));
  }

  lemma FrameDecodes(crc: Crc, o: Outgoing)
    requires OutgoingOk(o)
    ensures Decode(crc, Encode(crc, o)) == Some(Frame(Received(o), |Encode(crc, o)|))
  {
    FrameParts(crc, o, Encode(crc, o));
    FieldsDecode(o.fields, []);
    DecodeByParts(crc, Encode(crc, o), EncodeFields(o.fields), Received(o));
  }

  /** A frame that has not arrived completely does not decode. */
  lemma PartialDoesNotDecode(crc: Crc, o: Outgoing, n: nat)
    requires OutgoingOk(o) && n < |Encode(crc, o)|
    ensures Decode(crc, Encode(crc, o)[..n]).None?
  {
    var b := Encode(crc, o);
    FrameDecodes(crc, o);
    PrefixOfFrame(crc, b[..n], b[n..], b);
  }

  lemma PrefixOfFrame(crc: Crc, front: seq<byte>, back: seq<byte>, all: seq<byte>)
    requires front + back == all && back != []
    requires Decode(crc, all).Some? && Decode(crc, all).value.size == |all|
    ensures Decode(crc, front).None?
  {
    if Decode(crc, front).Some? {
      DecodeMonotone(crc, front, back);
    }
  }

  lemma {:induction false} StreamDecodes(crc: Crc, os: seq<Outgoing>, tail: seq<byte>)
    requires (forall o <- os :: OutgoingOk(o)) && Decode(crc, tail).None?
    ensures Parse(crc, EncodeAll(crc, os) + tail) == Parsed(ReceivedAll(os), tail)
  {
    if os == [] {
      assert [] + tail == tail;
    } else {
      var b, rest := Encode(crc, os[0]), EncodeAll(crc, os[1..]) + tail;
      assert EncodeAll(crc, os) + tail == b + rest;
      FrameDecodes(crc, os[0]);
      StreamDecodes(crc, os[1..], tail);
      OneFrameThen(crc, b, rest, Received(os[0]));
    }
  }

  lemma OneFrameThen(crc: Crc, b: seq<byte>, rest: seq<byte>, m: Message)
    requires Decode(crc, b) == Some(Frame(m, |b|))
    ensures Parse(crc, b + rest) == Prepend([m], Parse(crc, rest))
  {
    DecodeMonotone(crc, b, rest);
    assert (b + rest)[|b|..] == rest;
  }

  /** DECODING INVERTS ENCODING. Send any frames and part of another, cut the bytes anywhere:
      the events are those of the complete frames, and the buffer is the partial frame. */
  lemma ReceivesWhatWasSent<E>(k: Codec<E>, os: seq<Outgoing>, next: Outgoing, n: nat, chunks: seq<seq<byte>>)
    requires (forall o <- os :: OutgoingOk(o)) && OutgoingOk(next) && n < |Encode(k.crc, next)|
    requires Joined(chunks) == EncodeAll(k.crc, os) + Encode(k.crc, next)[..n]
    ensures Parse(k.crc, Joined(chunks)).messages == ReceivedAll(os)
    ensures EventsAfter(k, chunks) == EventsOf(k, ReceivedAll(os))
    ensures BufferAfter(k.crc, chunks) == Encode(k.crc, next)[..n]
  {
    ChunksDoNotMatter(k, chunks);
    PartialDoesNotDecode(k.crc, next, n);
    StreamDecodes(k.crc, os, Encode(k.crc, next)[..n]);
  }
}
