/** Server-sent event blocks: splitting one into its prefix lines and data payload, and
    building a block from them again. Sections "Parsing an event stream" and "Interpreting an
    event stream" (9.2.5 and 9.2.6) of the WHATWG HTML Living Standard describe the format. */
module SseEvents {
  import opened Bytes

  const NL: byte := 10
  const SPACE: byte := 32
  /** "data:" */
  const DATA: seq<byte> := [100, 97, 116, 97, 58]

  /** Which lines consist of white space only; the empty one does. */
  type Blank = seq<byte> -> bool

  // ----- lines -----

  /** One more byte: a line break starts a new line, any other byte extends the last one. */
  function Grown(lines: seq<seq<byte>>, c: byte): (r: seq<seq<byte>>)
    requires lines != []
    ensures r != []
  {
    var n := |lines| - 1;
    if c == NL then lines + [[]] else lines[..n] + [lines[n] + [c]]
  }

  /** bytes.Split(s, "\n"): at least one line, none of them with a line break. */
  function Lines(s: seq<byte>): (lines: seq<seq<byte>>)
    ensures lines != []
  {
    if s == [] then [[]] else Grown(Lines(s[..|s| - 1]), s[|s| - 1])
  }

  /** bytes.Join(lines, "\n"). */
  function Join(lines: seq<seq<byte>>): seq<byte> {
    if lines == [] then []
    else if |lines| == 1 then lines[0]
    else Join(lines[..|lines| - 1]) + [NL] + lines[|lines| - 1]
  }

  predicate OneLine(s: seq<byte>) {
    forall i | 0 <= i < |s| :: s[i] != NL
  }

  predicate AllOneLine(lines: seq<seq<byte>>) {
    forall i | 0 <= i < |lines| :: OneLine(lines[i])
  }

  lemma LinesSnoc(s: seq<byte>, c: byte)
    ensures Lines(s + [c]) == Grown(Lines(s), c)
  {
    assert (s + [c])[..|s|] == s;
  }

  lemma {:induction false} LinesAreLines(s: seq<byte>)
    ensures AllOneLine(Lines(s))
  {
    if s != [] {
      LinesAreLines(s[..|s| - 1]);
    }
  }

  lemma JoinSnoc(lines: seq<seq<byte>>, last: seq<byte>)
    ensures Join(lines + [last]) == if lines == [] then last else Join(lines) + [NL] + last
  {
    assert (lines + [last])[..|lines|] == lines;
  }

  lemma {:induction false} JoinOfLines(s: seq<byte>)
    ensures Join(Lines(s)) == s
  {
    if s != [] {
      var front, c := Lines(s[..|s| - 1]), s[|s| - 1];
      var n := |front| - 1;
      JoinOfLines(s[..|s| - 1]);
      assert s == s[..|s| - 1] + [c];
      if c == NL {
        JoinSnoc(front, []);
      } else {
        assert front == front[..n] + [front[n]];
        JoinSnoc(front[..n], front[n]);
        JoinSnoc(front[..n], front[n] + [c]);
        MoreBehind(Join(front[..n]), front[n], c);
      }
    }
  }

  lemma {:induction false} LinesOfOne(s: seq<byte>)
    requires OneLine(s)
    ensures Lines(s) == [s]
  {
    if s != [] {
      var n := |s| - 1;
      LinesOfOne(s[..n]);
      LinesSnoc(s[..n], s[n]);
      assert s == s[..n] + [s[n]];
    }
  }

  lemma GrownBehind(a: seq<seq<byte>>, b: seq<seq<byte>>, c: byte)
    requires b != []
    ensures Grown(a + b, c) == a + Grown(b, c)
  {
    assert (a + b)[..|a + b| - 1] == a + b[..|b| - 1];
  }

  lemma BothGrow(all: seq<byte>, a: seq<byte>, b: seq<byte>, c: byte)
    requires Lines(all) == Lines(a) + Lines(b)
    ensures Lines(all + [c]) == Lines(a) + Lines(b + [c])
  {
    LinesSnoc(all, c);
    LinesSnoc(b, c);
    GrownBehind(Lines(a), Lines(b), c);
  }

  lemma BreakAtEnd(a: seq<byte>)
    ensures Lines(a + [NL] + []) == Lines(a) + Lines([])
  {
    LinesSnoc(a, NL);
    assert a + [NL] + [] == a + [NL];
  }

  /** A line break separates. */
  lemma {:induction false} LinesAppend(a: seq<byte>, b: seq<byte>)
    ensures Lines(a + [NL] + b) == Lines(a) + Lines(b)
    decreases |b|
  {
    if b == [] {
      BreakAtEnd(a);
    } else {
      var front, c := b[..|b| - 1], b[|b| - 1];
      assert b == front + [c];
      LinesAppend(a, front);
      LinesAppendMore(a, front, c);
    }
  }

  lemma MoreBehind(a: seq<byte>, b: seq<byte>, c: byte)
    ensures a + [NL] + (b + [c]) == a + [NL] + b + [c]
  {
  }

  lemma LinesAppendMore(a: seq<byte>, b: seq<byte>, c: byte)
    requires Lines(a + [NL] + b) == Lines(a) + Lines(b)
    ensures Lines(a + [NL] + (b + [c])) == Lines(a) + Lines(b + [c])
  {
    BothGrow(a + [NL] + b, a, b, c);
    MoreBehind(a, b, c);
  }

  lemma {:induction false} LinesOfJoin(lines: seq<seq<byte>>)
    requires lines != [] && AllOneLine(lines)
    ensures Lines(Join(lines)) == lines
  {
    var n := |lines| - 1;
    LinesOfOne(lines[n]);
    if n > 0 {
      LinesOfJoin(lines[..n]);
      LinesAppend(Join(lines[..n]), lines[n]);
    }
  }

  // ----- splitting a block -----

  predicate IsData(line: seq<byte>) {
    DATA <= line
  }

  /** The value of a data line: one leading space is optional. */
  function Value(line: seq<byte>): seq<byte>
    requires IsData(line)
  {
    var v := line[|DATA|..];
    if v != [] && v[0] == SPACE then v[1..] else v
  }

  function DataLines(lines: seq<seq<byte>>): seq<seq<byte>> {
    if lines == [] then []
    else
      var rest, line := DataLines(lines[..|lines| - 1]), lines[|lines| - 1];
      if IsData(line) then rest + [Value(line)] else rest
  }

  function PrefixLines(blank: Blank, lines: seq<seq<byte>>): seq<seq<byte>> {
    if lines == [] then []
    else
      var rest, line := PrefixLines(blank, lines[..|lines| - 1]), lines[|lines| - 1];
      if IsData(line) || blank(line) then rest else rest + [line]
  }

  datatype Parts = Verbatim(block: seq<byte>) | Event(prefix: seq<byte>, payload: seq<byte>)

  function Split(blank: Blank, block: seq<byte>): Parts {
    var lines := Lines(block);
    if DataLines(lines) == [] then Verbatim(block)
    else Event(Join(PrefixLines(blank, lines)), Join(DataLines(lines)))
  }

  method SplitSSEEvent(blank: Blank, block: seq<byte>) returns (parts: Parts)
    ensures parts == Split(blank, block)
  {
    var lines := Lines(block);
    var prefixLines: seq<seq<byte>>, dataLines: seq<seq<byte>> := [], [];
    for i := 0 to |lines|
      invariant prefixLines == PrefixLines(blank, lines[..i]) && dataLines == DataLines(lines[..i])
    {
      assert lines[..i + 1][..i] == lines[..i];
      var line := lines[i];
      if DATA <= line {
        dataLines := dataLines + [Value(line)];
      } else if !blank(line) {
        prefixLines := prefixLines + [line];
      }
    }
    assert lines[..|lines|] == lines;
    if dataLines == [] {
      return Verbatim(block);
    }
    return Event(Join(prefixLines), Join(dataLines));
  }

  // ----- building a block -----

  function DataLine(v: seq<byte>): seq<byte> {
    DATA + [SPACE] + v
  }

  function Prefixed(lines: seq<seq<byte>>): (r: seq<seq<byte>>)
    ensures |r| == |lines|
  {
    seq(|lines|, i requires 0 <= i < |lines| => DataLine(lines[i]))
  }

  function Reassembled(prefix: seq<byte>, payload: seq<byte>): seq<byte> {
    var data := Join(Prefixed(Lines(payload)));
    if prefix == [] then data else prefix + [NL] + data
  }

  method ReassembleSSEEvent(prefix: seq<byte>, payload: seq<byte>) returns (block: seq<byte>)
    ensures block == Reassembled(prefix, payload)
  {
    var data: seq<byte>;
    if NL in payload {
      var lines := Lines(payload);
      var dataLines: seq<seq<byte>> := [];
      for i := 0 to |lines|
        invariant |dataLines| == i && forall j | 0 <= j < i :: dataLines[j] == DataLine(lines[j])
      {
        dataLines := dataLines + [DataLine(lines[i])];
      }
      assert dataLines == Prefixed(lines);
      data := Join(dataLines);
    } else {
      LinesOfOne(payload);
      assert Prefixed([payload]) == [DataLine(payload)];
      data := DataLine(payload);
    }
    if prefix == [] {
      return data;
    }
    return prefix + [NL] + data;
  }

  // ----- round trip -----

  /** A prefix as splitting leaves it: empty, or lines that are neither data nor blank. */
  predicate PlainLines(blank: Blank, lines: seq<seq<byte>>) {
    AllOneLine(lines) && forall i | 0 <= i < |lines| :: !IsData(lines[i]) && !blank(lines[i])
  }

  lemma {:induction false} PrefixIsPlain(blank: Blank, lines: seq<seq<byte>>)
    requires AllOneLine(lines)
    ensures PlainLines(blank, PrefixLines(blank, lines))
  {
    if lines != [] {
      PrefixIsPlain(blank, lines[..|lines| - 1]);
    }
  }

  lemma {:induction false} SplitConcat(blank: Blank, a: seq<seq<byte>>, b: seq<seq<byte>>)
    ensures DataLines(a + b) == DataLines(a) + DataLines(b)
    ensures PrefixLines(blank, a + b) == PrefixLines(blank, a) + PrefixLines(blank, b)
  {
    if b == [] {
      assert a + b == a;
    } else {
      var n := |b| - 1;
      SplitConcat(blank, a, b[..n]);
      assert (a + b)[..|a + b| - 1] == a + b[..n];
    }
  }

  lemma {:induction false} PlainStays(blank: Blank, lines: seq<seq<byte>>)
    requires PlainLines(blank, lines)
    ensures DataLines(lines) == [] && PrefixLines(blank, lines) == lines
  {
    if lines != [] {
      PlainStays(blank, lines[..|lines| - 1]);
    }
  }

  lemma DataLineValue(v: seq<byte>)
    ensures IsData(DataLine(v)) && Value(DataLine(v)) == v
  {
    assert DataLine(v)[|DATA|..] == [SPACE] + v;
  }

  lemma {:induction false} DataStays(blank: Blank, lines: seq<seq<byte>>)
    ensures DataLines(Prefixed(lines)) == lines && PrefixLines(blank, Prefixed(lines)) == []
  {
    if lines != [] {
      var n := |lines| - 1;
      DataStays(blank, lines[..n]);
      DataLineValue(lines[n]);
      assert Prefixed(lines)[..n] == Prefixed(lines[..n]);
    }
  }

  lemma PrefixedAreLines(lines: seq<seq<byte>>)
    requires AllOneLine(lines)
    ensures AllOneLine(Prefixed(lines))
  {
  }

  /** The lines of a reassembled block. */
  lemma ReassembledLines(plain: seq<seq<byte>>, payload: seq<byte>)
    requires AllOneLine(plain) && (plain != [] ==> Join(plain) != [])
    ensures Lines(Reassembled(Join(plain), payload)) == plain + Prefixed(Lines(payload))
  {
    var data := Prefixed(Lines(payload));
    LinesAreLines(payload);
    PrefixedAreLines(Lines(payload));
    LinesOfJoin(data);
    if plain == [] {
      assert plain + data == data;
    } else {
      LinesOfJoin(plain);
      LinesAppend(Join(plain), Join(data));
    }
  }

  lemma PlainIsNotEmpty(blank: Blank, plain: seq<seq<byte>>)
    requires blank([]) && PlainLines(blank, plain) && plain != []
    ensures Join(plain) != []
  {
    if |plain| > 1 {
      assert |Join(plain)| >= 1;
    }
  }

  /** PRINT, THEN PARSE. Any payload at all, several lines included, put behind any plain
      prefix splits into that prefix and that payload again. */
  lemma PrintParse(blank: Blank, plain: seq<seq<byte>>, payload: seq<byte>)
    requires blank([]) && PlainLines(blank, plain)
    ensures Split(blank, Reassembled(Join(plain), payload)) == Event(Join(plain), payload)
  {
    var data := Prefixed(Lines(payload));
    if plain != [] {
      PlainIsNotEmpty(blank, plain);
    }
    ReassembledLines(plain, payload);
    SplitConcat(blank, plain, data);
    PlainStays(blank, plain);
    DataStays(blank, Lines(payload));
    JoinOfLines(payload);
    assert [] + Lines(payload) == Lines(payload) && plain + [] == plain;
  }

  /** ROUND TRIP. Splitting the reassembly of what a block was split into gives the same prefix
      and payload, whatever the block. */
  lemma SplitRoundTrip(blank: Blank, block: seq<byte>)
    requires blank([]) && Split(blank, block).Event?
    ensures var e := Split(blank, block); Split(blank, Reassembled(e.prefix, e.payload)) == e
  {
    LinesAreLines(block);
    PrefixIsPlain(blank, Lines(block));
    PrintParse(blank, PrefixLines(blank, Lines(block)), Split(blank, block).payload);
  }
}
