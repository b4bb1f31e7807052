/** Framing of application/vnd.amazon.eventstream: an incremental decoder that carries the
    undecoded bytes from one chunk to the next. */
module EventStream {

  import opened Bytes
  import opened Wrappers

  const STRING_VALUE: byte := 7

  /** A header value of a type the decoder does not know is None. */
  datatype Header = Header(name: seq<byte>, value: Option<seq<byte>>)

  datatype Message = Message(headers: seq<Header>, payload: seq<byte>)

  /** The checksum and the JSON decoder, both uninterpreted, and the header that tells a block
      stop: its name and its value. */
  datatype Codec<!E> = Codec(
    crc: seq<byte> -> word,
    unmarshal: seq<byte> -> Option<E>,
    asBlockStop: E -> E,
    eventType: seq<byte>,
    blockStop: seq<byte>)

  /** With the names of the service, ":event-type" and "contentBlockStop". */
  function AmazonCodec<E>(crc: seq<byte> -> word, unmarshal: seq<byte> -> Option<E>, asBlockStop: E -> E): Codec<E> {
    Codec(crc, unmarshal, asBlockStop,
          [58, 101, 118, 101, 110, 116, 45, 116, 121, 112, 101],
          [99, 111, 110, 116, 101, 110, 116, 66, 108, 111, 99, 107, 83, 116, 111, 112])
  }

  /** PayloadLen in 32-bit arithmetic: lengths that do not add up wrap around. */
  function PayloadLen(length: word, headersLen: word): word {
    (length - headersLen - 16) % WORD
  }

  // ----- decoding, as a function of the bytes -----

  /** headers.Set: replace the first header of that name, or append. */
  function SetHeader(hs: seq<Header>, h: Header): seq<Header> {
    if hs == [] then [h]
    else if hs[0].name == h.name then [h] + hs[1..]
    else [hs[0]] + SetHeader(hs[1..], h)
  }

  datatype NameStep = NoMore | BadName | Name(name: seq<byte>, rest: seq<byte>)
  datatype ValueStep = BadValue | Value(value: Option<seq<byte>>, rest: seq<byte>)
  datatype HeaderStep = End | Broken | Got(header: Header, rest: seq<byte>)

  /** Running out of bytes where a name starts means there are no more headers, even right
      after a length byte; running out inside a name is an error. */
  function NextName(s: seq<byte>): (r: NameStep)
    ensures r.Name? ==> |r.rest| < |s|
  {
    if s == [] || (s[0] > 0 && |s| == 1) then NoMore
    else if |s| - 1 < s[0] as int then BadName
    else Name(s[1..][..s[0]], s[1..][s[0]..])
  }

  /** Running out of bytes is an error here. A value of an unknown type takes no bytes. */
  function NextValue(s: seq<byte>): (r: ValueStep)
    ensures r.Value? ==> |r.rest| < |s|
  {
    if s == [] then BadValue
    else
      var v := s[1..];
      if s[0] != STRING_VALUE then Value(None, v)
      else if |v| < 2 || |v[2..]| < U16(v[..2]) then BadValue
      else Value(Some(v[2..][..U16(v[..2])]), v[2..][U16(v[..2])..])
  }

  function NextHeader(s: seq<byte>): (r: HeaderStep)
    ensures r.Got? ==> |r.rest| < |s|
  {
    match NextName(s)
    case NoMore => End
    case BadName => Broken
    case Name(name, rest) =>
      match NextValue(rest)
      case BadValue => Broken
      case Value(v, left) => Got(Header(name, v), left)
  }

  /** The whole header section. */
  function Headers(s: seq<byte>, acc: seq<Header>): Option<seq<Header>>
    decreases |s|
  {
    match NextHeader(s)
    case End => Some(acc)
    case Broken => None
    case Got(h, rest) => Headers(rest, SetHeader(acc, h))
  }

  function Min(a: int, b: int): int {
    if a <= b then a else b
  }

  /** Where the header section and the payload end, cut short by the end of the bytes. */
  function HeadersEnd(body: seq<byte>): nat
    requires |body| >= 12
  {
    Min(12 + U32(body[4..8]), |body|)
  }

  function PayloadEnd(body: seq<byte>): nat
    requires |body| >= 12
  {
    Min(HeadersEnd(body) + PayloadLen(U32(body[..4]), U32(body[4..8])), |body|)
  }

  predicate PreludeOk(crc: seq<byte> -> word, body: seq<byte>) {
    |body| >= 12 && U32(body[..4]) != 0 && U32(body[8..12]) == crc(body[..8])
  }

  function HeaderSection(body: seq<byte>): seq<byte>
    requires |body| >= 12
  {
    body[12..HeadersEnd(body)]
  }

  function Payload(body: seq<byte>): seq<byte>
    requires |body| >= 12
  {
    body[HeadersEnd(body)..PayloadEnd(body)]
  }

  /** The checksum after the payload is there and matches everything before it. */
  predicate ClosedBy(crc: seq<byte> -> word, body: seq<byte>, end: nat) {
    |body| >= end + 4 && U32(body[end..end + 4]) == crc(body[..end])
  }

  datatype Frame = Frame(message: Message, size: nat)

  /** The first message of `body`, or None when it is incomplete or malformed. */
  function Decode(crc: seq<byte> -> word, body: seq<byte>): (r: Option<Frame>)
    ensures r.Some? ==> 16 <= r.value.size <= |body|
  {
    if !PreludeOk(crc, body) then None
    else
      var hs := Headers(HeaderSection(body), []);
      if hs.None? || !ClosedBy(crc, body, PayloadEnd(body)) then None
      else Some(Frame(Message(hs.value, Payload(body)), PayloadEnd(body) + 4))
  }

  /** All messages from the front of `body`, and the bytes left over. */
  datatype Parsed = Parsed(messages: seq<Message>, rest: seq<byte>)

  function Parse(crc: seq<byte> -> word, body: seq<byte>): Parsed
    decreases |body|
  {
    match Decode(crc, body)
    case None => Parsed([], body)
    case Some(f) =>
      var p := Parse(crc, body[f.size..]);
      Parsed([f.message] + p.messages, p.rest)
  }

  function Prepend(ms: seq<Message>, p: Parsed): Parsed {
    Parsed(ms + p.messages, p.rest)
  }

  lemma ParseOne(crc: seq<byte> -> word, done: seq<Message>, body: seq<byte>)
    ensures var d := Decode(crc, body);
      Prepend(done, Parse(crc, body)) ==
        if d.None? then Parsed(done, body)
        else Prepend(done + [d.value.message], Parse(crc, body[d.value.size..]))
  {
    var d := Decode(crc, body);
    if d.Some? {
      var p := Parse(crc, body[d.value.size..]);
      assert done + ([d.value.message] + p.messages) == done + [d.value.message] + p.messages;
    } else {
      assert done + [] == done;
    }
  }

  // ----- events -----

  /** amazonEventType: the value of the first header of that name, if it is a string. */
  function EventType(name: seq<byte>, hs: seq<Header>): Option<seq<byte>> {
    if hs == [] then None
    else if hs[0].name == name then hs[0].value
    else EventType(name, hs[1..])
  }

  /** The event of a message: none when the payload does not decode. */
  function EventOf<E>(k: Codec<E>, m: Message): seq<E> {
    match k.unmarshal(m.payload)
    case None => []
    case Some(e) => [if EventType(k.eventType, m.headers) == Some(k.blockStop) then k.asBlockStop(e) else e]
  }

  /** The header that amazonEventType finds has a value of another type than string. */
  predicate NilEventType(name: seq<byte>, hs: seq<Header>) {
    hs != [] && if hs[0].name == name then hs[0].value.None? else NilEventType(name, hs[1..])
  }

  /** Asking such a header for its value fails on a nil interface and ends the plugin's call. */
  predicate Fails<E>(k: Codec<E>, m: Message) {
    k.unmarshal(m.payload).Some? && NilEventType(k.eventType, m.headers)
  }

  predicate AllRead<E>(k: Codec<E>, ms: seq<Message>) {
    ms == [] || (AllRead(k, ms[..|ms| - 1]) && !Fails(k, ms[|ms| - 1]))
  }

  function EventsOf<E>(k: Codec<E>, ms: seq<Message>): seq<E> {
    if ms == [] then [] else EventsOf(k, ms[..|ms| - 1]) + EventOf(k, ms[|ms| - 1])
  }

  lemma EventsSnoc<E>(k: Codec<E>, ms: seq<Message>, m: Message)
    ensures EventsOf(k, ms + [m]) == EventsOf(k, ms) + EventOf(k, m)
  {
    assert (ms + [m])[..|ms|] == ms;
  }

  lemma ReadSnoc<E>(k: Codec<E>, ms: seq<Message>, m: Message)
    ensures AllRead(k, ms + [m]) <==> AllRead(k, ms) && !Fails(k, m)
  {
    assert (ms + [m])[..|ms|] == ms;
  }

  lemma {:induction false} AllReadAppend<E>(k: Codec<E>, a: seq<Message>, b: seq<Message>)
    ensures AllRead(k, a + b) <==> AllRead(k, a) && AllRead(k, b)
  {
    if b == [] {
      assert a + b == a;
    } else {
      var n := |b| - 1;
      AllReadAppend(k, a, b[..n]);
      ReadSnoc(k, a + b[..n], b[n]);
      assert a + b == a + b[..n] + [b[n]];
    }
  }

  // ----- decoding, step by step -----

  datatype Status = Fine | EOF | UnexpectedEOF

  /** A bytes.Reader; a limit plays the part of io.LimitReader. */
  class Reader {
    const data: seq<byte>
    var pos: nat

    predicate Valid()
      reads this
    {
      pos <= |data|
    }

    constructor (data: seq<byte>)
      ensures Valid() && pos == 0 && this.data == data
    {
      this.data, pos := data, 0;
    }

    /** What can still be read below `limit`. */
    function Left(limit: nat): seq<byte>
      requires Valid() && pos <= limit
      reads this
    {
      data[pos..Min(limit, |data|)]
    }

    /** io.ReadFull up to `limit`: all `n` bytes, or EOF when there was none to read, or
        UnexpectedEOF with what there was consumed. */
    method ReadFull(limit: nat, n: nat) returns (b: seq<byte>, st: Status)
      requires Valid() && pos <= limit
      modifies this
      ensures Valid() && pos <= limit && old(pos) <= pos
      ensures st == Fine <==> n <= |old(Left(limit))|
      ensures st == EOF <==> n > 0 && old(Left(limit)) == []
      ensures st == Fine ==> b == old(Left(limit))[..n] && Left(limit) == old(Left(limit))[n..] && pos == old(pos) + n
      ensures st != Fine ==> Left(limit) == []
    {
      var end := if limit <= |data| then limit else |data|;
      if n <= end - pos {
        b, st := data[pos..pos + n], Fine;
        pos := pos + n;
      } else {
        b, st := [], if pos == end then EOF else UnexpectedEOF;
        pos := end;
      }
    }
  }

  method DecodeHeaderName(r: Reader, limit: nat) returns (name: NameStep)
    requires r.Valid() && r.pos <= limit
    modifies r
    ensures r.Valid() && r.pos <= limit && old(r.pos) <= r.pos
    ensures name == NextName(old(r.Left(limit)))
    ensures name.Name? ==> r.Left(limit) == name.rest
    ensures name.NoMore? ==> r.Left(limit) == []
  {
    var lenByte, st := r.ReadFull(limit, 1);
    if st != Fine {
      return NoMore;
    }
    var b: seq<byte>;
    b, st := r.ReadFull(limit, lenByte[0]);
    if st == EOF {
      return NoMore;
    }
    if st != Fine {
      return BadName;
    }
    return Name(b, r.Left(limit));
  }

  method DecodeHeaderValue(r: Reader, limit: nat) returns (value: ValueStep)
    requires r.Valid() && r.pos <= limit
    modifies r
    ensures r.Valid() && r.pos <= limit && old(r.pos) <= r.pos
    ensures value == NextValue(old(r.Left(limit)))
    ensures value.Value? ==> r.Left(limit) == value.rest
  {
    var typ, st := r.ReadFull(limit, 1);
    if st != Fine {
      return BadValue;
    }
    if typ[0] != STRING_VALUE {
      return Value(None, r.Left(limit));
    }
    var size: seq<byte>;
    size, st := r.ReadFull(limit, 2);
    if st != Fine {
      return BadValue;
    }
    var b: seq<byte>;
    b, st := r.ReadFull(limit, U16(size));
    if st != Fine {
      return BadValue;
    }
    return Value(Some(b), r.Left(limit));
  }

  /** decodeHeaders over a limited reader. */
  method DecodeHeaders(r: Reader, limit: nat) returns (hs: Option<seq<Header>>)
    requires r.Valid() && r.pos <= limit
    modifies r
    ensures r.Valid() && r.pos <= limit && old(r.pos) <= r.pos
    ensures hs == Headers(old(r.Left(limit)), [])
    ensures hs.Some? ==> r.Left(limit) == []
  {
    var acc: seq<Header> := [];
    while true
      invariant r.Valid() && r.pos <= limit && old(r.pos) <= r.pos
      invariant Headers(old(r.Left(limit)), []) == Headers(r.Left(limit), acc)
      decreases |r.Left(limit)|
    {
      var name := DecodeHeaderName(r, limit);
      if name.NoMore? {
        return Some(acc);
      }
      if name.BadName? {
        return None;
      }
      var value := DecodeHeaderValue(r, limit);
      if value.BadValue? {
        return None;
      }
      acc := SetHeader(acc, Header(name.name, value.value));
    }
  }

  /** decodeUint32 against an expected checksum. */
  method ValidateCRC(r: Reader, want: word) returns (ok: bool)
    requires r.Valid()
    modifies r
    ensures r.Valid() && old(r.pos) <= r.pos
    ensures ok <==> |r.data| - old(r.pos) >= 4 && U32(r.data[old(r.pos)..old(r.pos) + 4]) == want
    ensures ok ==> r.pos == old(r.pos) + 4
  {
    var b, st := r.ReadFull(|r.data|, 4);
    if st != Fine {
      return false;
    }
    assert b == r.data[old(r.pos)..old(r.pos) + 4];
    return U32(b) == want;
  }

  method DecodePrelude(r: Reader, crc: seq<byte> -> word) returns (length: word, headersLen: word, ok: bool)
    requires r.Valid()
    modifies r
    ensures r.Valid() && old(r.pos) <= r.pos
    ensures var body := r.data[old(r.pos)..];
      && (ok <==> PreludeOk(crc, body))
      && (ok ==> r.pos == old(r.pos) + 12 && length == U32(body[..4]) && headersLen == U32(body[4..8]))
  {
    ghost var start := r.pos;
    length, headersLen, ok := 0, 0, false;
    var b, st := r.ReadFull(|r.data|, 4);
    if st != Fine {
      return;
    }
    Window(r.data, start, 0, 4);
    length := U32(b);
    b, st := r.ReadFull(|r.data|, 4);
    if st != Fine {
      return;
    }
    Window(r.data, start, 4, 8);
    headersLen := U32(b);
    if length == 0 {
      return;
    }
    Window(r.data, start, 0, 8);
    if start + 12 <= |r.data| {
      Window(r.data, start, 8, 12);
    }
    ok := ValidateCRC(r, crc(r.data[r.pos - 8..r.pos]));
  }

  /** The front of what is left behind `i` more bytes. */
  lemma Behind(data: seq<byte>, start: nat, i: nat, j: nat)
    requires i <= j && start + j <= |data|
    ensures data[start + i..][..j - i] == data[start..][i..j]
  {
  }

  /** A window of what is left to read is a window of the whole. */
  lemma Window(data: seq<byte>, start: nat, i: nat, j: nat)
    requires i <= j && start + j <= |data|
    ensures data[start..][i..j] == data[start + i..start + j]
  {
  }

  method DecodeHeaderSection(r: Reader, n: nat) returns (hs: Option<seq<Header>>)
    requires r.Valid()
    modifies r
    ensures r.Valid()
    ensures var rest := r.data[old(r.pos)..];
      && hs == Headers(rest[..Min(n, |rest|)], [])
      && (hs.Some? ==> r.pos == old(r.pos) + Min(n, |rest|))
  {
    ghost var rest := r.data[r.pos..];
    assert r.Left(r.pos + n) == rest[..Min(n, |rest|)];
    if n == 0 {
      return Some([]);
    }
    hs := DecodeHeaders(r, r.pos + n);
  }

  /** io.Copy from a limited reader: a short source is no error here. */
  method DecodePayload(r: Reader, n: nat) returns (payload: seq<byte>)
    requires r.Valid()
    modifies r
    ensures r.Valid()
    ensures var rest := r.data[old(r.pos)..];
      payload == rest[..Min(n, |rest|)] && r.pos == old(r.pos) + Min(n, |rest|)
  {
    ghost var rest := r.data[r.pos..];
    var end := if n <= |r.data| - r.pos then r.pos + n else |r.data|;
    payload := r.data[r.pos..end];
    assert payload == rest[..Min(n, |rest|)];
    r.pos := end;
  }

  /** decodeMessage: the checksum runs over every byte read since the message began. */
  method DecodeMessage(r: Reader, crc: seq<byte> -> word) returns (m: Option<Message>)
    requires r.Valid()
    modifies r
    ensures r.Valid()
    ensures var d := Decode(crc, r.data[old(r.pos)..]);
      && (d.None? <==> m.None?)
      && (d.Some? ==> m == Some(d.value.message) && r.pos == old(r.pos) + d.value.size)
  {
    var start := r.pos;
    ghost var body := r.data[start..];
    var length, headersLen, ok := DecodePrelude(r, crc);
    if !ok {
      return None;
    }
    m := DecodeRest(r, start, length, headersLen, crc);
    DecodeBehindPrelude(crc, body, HeaderSection(body), Payload(body), PayloadEnd(body));
  }

  /** Behind the prelude: headers, payload and the closing checksum. */
  method DecodeRest(r: Reader, start: nat, length: word, headersLen: word, crc: seq<byte> -> word)
    returns (m: Option<Message>)
    requires r.Valid() && r.pos == start + 12
    requires var body := r.data[start..];
      length == U32(body[..4]) && headersLen == U32(body[4..8])
    modifies r
    ensures r.Valid()
    ensures var body := r.data[start..];
      && (m.Some? <==> Headers(HeaderSection(body), []).Some? && ClosedBy(crc, body, PayloadEnd(body)))
      && (m.Some? ==>
            && m.value == Message(Headers(HeaderSection(body), []).value, Payload(body))
            && r.pos == start + (PayloadEnd(body) + 4))
  {
    var headers, payload := DecodeContents(r, start, length, headersLen);
    if headers.None? {
      return None;
    }
    var ok := ValidateClosing(r, start, crc);
    return if ok then Some(Message(headers.value, payload)) else None;
  }

  /** Behind a good prelude it is up to the headers and the closing checksum. */
  lemma DecodeBehindPrelude(crc: seq<byte> -> word, b: seq<byte>, section: seq<byte>, payload: seq<byte>, end: nat)
    requires PreludeOk(crc, b) && section == HeaderSection(b) && payload == Payload(b) && end == PayloadEnd(b)
    ensures Decode(crc, b)
         == if Headers(section, []).Some? && ClosedBy(crc, b, end)
            then Some(Frame(Message(Headers(section, []).value, payload), end + 4)) else None
  {
  }

  method DecodeContents(r: Reader, ghost start: nat, length: word, headersLen: word)
    returns (headers: Option<seq<Header>>, payload: seq<byte>)
    requires r.Valid() && r.pos == start + 12
    requires var body := r.data[start..];
      length == U32(body[..4]) && headersLen == U32(body[4..8])
    modifies r
    ensures r.Valid()
    ensures var body := r.data[start..];
      && headers == Headers(HeaderSection(body), [])
      && (headers.Some? ==> payload == Payload(body) && r.pos == start + PayloadEnd(body))
  {
    SectionLeft(r.data, start, r.pos);
    headers := DecodeHeaderSection(r, headersLen);
    if headers.None? {
      return headers, [];
    }
    PayloadLeft(r.data, start, r.pos);
    payload := DecodePayload(r, PayloadLen(length, headersLen));
  }

  /** What is left behind the prelude starts with the header section. */
  lemma SectionLeft(data: seq<byte>, start: nat, pos: nat)
    requires start + 12 == pos <= |data|
    ensures var body, rest := data[start..], data[pos..];
      var n := Min(U32(body[4..8]), |rest|);
      rest[..n] == HeaderSection(body) && pos + n == start + HeadersEnd(body)
  {
    Behind(data, start, 12, HeadersEnd(data[start..]));
  }

  /** And what is left behind that with the payload. */
  lemma PayloadLeft(data: seq<byte>, start: nat, pos: nat)
    requires start + 12 <= |data| && pos == start + HeadersEnd(data[start..])
    ensures var body, rest := data[start..], data[pos..];
      var n := Min(PayloadLen(U32(body[..4]), U32(body[4..8])), |rest|);
      rest[..n] == Payload(body) && pos + n == start + PayloadEnd(body)
  {
    var body := data[start..];
    Behind(data, start, HeadersEnd(body), PayloadEnd(body));
  }

  method ValidateClosing(r: Reader, start: nat, crc: seq<byte> -> word) returns (ok: bool)
    requires r.Valid() && start <= r.pos
    modifies r
    ensures r.Valid()
    ensures ok <==> ClosedBy(crc, r.data[start..], old(r.pos) - start)
    ensures ok ==> r.pos == old(r.pos) + 4
  {
    ghost var body, end := r.data[start..], r.pos - start;
    assert r.data[start..r.pos] == body[..end];
    assert |body| >= end + 4 ==> r.data[r.pos..r.pos + 4] == body[end..end + 4];
    ok := ValidateCRC(r, crc(r.data[start..r.pos]));
  }

  /** `done` are the messages in front of `left`, all of them read. */
  ghost predicate ReadUpTo<E>(k: Codec<E>, body: seq<byte>, done: seq<Message>, left: seq<byte>) {
    AllRead(k, done) && Parse(k.crc, body) == Prepend(done, Parse(k.crc, left))
  }

  lemma NothingRead<E>(k: Codec<E>, body: seq<byte>)
    ensures ReadUpTo(k, body, [], body)
  {
    assert [] + Parse(k.crc, body).messages == Parse(k.crc, body).messages;
  }

  /** What the next message, or its absence, means for the whole. */
  lemma ReadNext<E>(k: Codec<E>, body: seq<byte>, done: seq<Message>, left: seq<byte>, m: Option<Message>, size: nat)
    requires ReadUpTo(k, body, done, left)
    requires var d := Decode(k.crc, left);
      (d.None? <==> m.None?) && (d.Some? ==> m == Some(d.value.message) && size == d.value.size)
    ensures m.None? ==> Parse(k.crc, body) == Parsed(done, left) && AllRead(k, Parse(k.crc, body).messages)
    ensures m.Some? ==> 0 < size <= |left|
    ensures m.Some? && !Fails(k, m.value) ==> ReadUpTo(k, body, done + [m.value], left[size..])
    ensures m.Some? && Fails(k, m.value) ==> !AllRead(k, Parse(k.crc, body).messages)
  {
    ParseOne(k.crc, done, left);
    if m.Some? {
      ReadSnoc(k, done, m.value);
      AllReadAppend(k, done + [m.value], Parse(k.crc, left[size..]).messages);
    }
  }

  /** One turn of the decode loop. */
  method ReadOne<E>(r: Reader, codec: Codec<E>, ghost body: seq<byte>, ghost done: seq<Message>)
    returns (m: Option<Message>)
    requires r.Valid() && r.data == body && ReadUpTo(codec, body, done, body[r.pos..])
    modifies r
    ensures r.Valid()
    ensures m.None? ==>
      && Parse(codec.crc, body) == Parsed(done, body[old(r.pos)..]) && AllRead(codec, Parse(codec.crc, body).messages)
    ensures m.Some? && !Fails(codec, m.value) ==>
      old(r.pos) < r.pos && ReadUpTo(codec, body, done + [m.value], body[r.pos..])
    ensures m.Some? && Fails(codec, m.value) ==> !AllRead(codec, Parse(codec.crc, body).messages)
  {
    ghost var start, left := r.pos, body[r.pos..];
    m := DecodeMessage(r, codec.crc);
    if m.Some? {
      assert left[r.pos - start..] == body[r.pos..];
    }
    ReadNext(codec, body, done, left, m, if m.Some? then r.pos - start else 0);
  }

  /** The decode loop: events as long as messages decode, and how far it got; or the failure of
      the first event type that is no string. */
  method DecodeEvents<E>(codec: Codec<E>, body: seq<byte>) returns (events: seq<E>, lastRead: nat, ok: bool)
    ensures lastRead <= |body|
    ensures ok <==> AllRead(codec, Parse(codec.crc, body).messages)
    ensures var p := Parse(codec.crc, body);
      ok ==> events == EventsOf(codec, p.messages) && body[lastRead..] == p.rest
  {
    var r := new Reader(body);
    events, lastRead, ok := [], 0, true;
    ghost var done: seq<Message> := [];
    NothingRead(codec, body);
    assert body[0..] == body;
    while true
      invariant r.data == body && r.Valid() && r.pos == lastRead
      invariant events == EventsOf(codec, done) && ReadUpTo(codec, body, done, body[lastRead..])
      decreases |body| - lastRead
    {
      var m := ReadOne(r, codec, body, done);
      if m.None? {
        break;
      }
      if Fails(codec, m.value) {
        return [], lastRead, false;
      }
      EventsSnoc(codec, done, m.value);
      events, done, lastRead := events + EventOf(codec, m.value), done + [m.value], r.pos;
    }
  }

  /** The streaming context of one response: what is left over from earlier chunks. */
  class StreamContext<E> {
    const codec: Codec<E>
    var buffered: seq<byte>

    constructor (codec: Codec<E>)
      ensures buffered == [] && this.codec == codec
    {
      this.codec, buffered := codec, [];
    }

    /** extractAmazonEventStreamEvents: decode what the buffer and the chunk hold, keep the
        undecoded suffix; or fail, and leave the buffer. */
    method Extract(chunk: seq<byte>) returns (events: seq<E>, ok: bool)
      modifies this
      ensures ok <==> AllRead(codec, Parse(codec.crc, old(buffered) + chunk).messages)
      ensures var p := Parse(codec.crc, old(buffered) + chunk);
        if ok then events == EventsOf(codec, p.messages) && buffered == p.rest else buffered == old(buffered)
    {
      var body := buffered + chunk;
      var lastRead: nat;
      events, lastRead, ok := DecodeEvents(codec, body);
      if ok {
        buffered := body[lastRead..];
      }
    }
  }
}
