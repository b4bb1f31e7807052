/** Event blocks line by line, in bytes: what any block splits into, and when it is held back. */
module SseBlocks {
  import opened Bytes
  import opened SseEvents
  import opened SseFragments
  import opened Wrappers

  /** A line of a block: the field name "data:" with or without the optional space, a line of
      white space, or any other line. */
  datatype Line = Spaced(v: seq<byte>) | Tight(v: seq<byte>) | Empty(text: seq<byte>) | Plain(text: seq<byte>)

  function Raw(l: Line): seq<byte> {
    match l
    case Spaced(v) => [100, 97, 116, 97, 58, 32] + v
    case Tight(v) => [100, 97, 116, 97, 58] + v
    case Empty(text) => text
    case Plain(text) => text
  }

  /** Every line has one reading: without the space the value does not start with one. */
  predicate Proper(blank: Blank, l: Line) {
    && 10 !in Raw(l)
    && match l
       case Spaced(v) => true
       case Tight(v) => v == [] || v[0] != 32
       case Empty(text) => blank(text) && !([100, 97, 116, 97, 58] <= text)
       case Plain(text) => !blank(text) && !([100, 97, 116, 97, 58] <= text)
  }

  predicate AllProper(blank: Blank, ls: seq<Line>) {
    forall i | 0 <= i < |ls| :: Proper(blank, ls[i])
  }

  function Raws(ls: seq<Line>): seq<seq<byte>> {
    if ls == [] then [] else Raws(ls[..|ls| - 1]) + [Raw(ls[|ls| - 1])]
  }

  function Values(ls: seq<Line>): seq<seq<byte>> {
    if ls == [] then []
    else
      var rest, l := Values(ls[..|ls| - 1]), ls[|ls| - 1];
      if l.Spaced? || l.Tight? then rest + [l.v] else rest
  }

  function Plains(ls: seq<Line>): seq<seq<byte>> {
    if ls == [] then []
    else
      var rest, l := Plains(ls[..|ls| - 1]), ls[|ls| - 1];
      if l.Plain? then rest + [l.text] else rest
  }

  /** Parts with a line feed between any two. */
  function Glued(parts: seq<seq<byte>>): seq<byte> {
    if parts == [] then []
    else if |parts| == 1 then parts[0]
    else parts[0] + [10] + Glued(parts[1..])
  }

  // ----- the parts of a block -----

  lemma {:induction false} GluedSnoc(parts: seq<seq<byte>>, last: seq<byte>)
    requires parts != []
    ensures Glued(parts + [last]) == Glued(parts) + [10] + last
  {
    assert (parts + [last])[1..] == parts[1..] + [last];
    if |parts| > 1 {
      GluedSnoc(parts[1..], last);
    }
  }

  lemma {:induction false} GluedIsJoin(parts: seq<seq<byte>>)
    ensures Glued(parts) == Join(parts)
  {
    if |parts| > 1 {
      var n := |parts| - 1;
      GluedIsJoin(parts[..n]);
      GluedSnoc(parts[..n], parts[n]);
      assert parts == parts[..n] + [parts[n]];
    }
  }

  lemma RawReads(blank: Blank, l: Line)
    requires Proper(blank, l)
    ensures IsData(Raw(l)) <==> l.Spaced? || l.Tight?
    ensures l.Spaced? || l.Tight? ==> Value(Raw(l)) == l.v
    ensures l.Empty? <==> !IsData(Raw(l)) && blank(Raw(l))
    ensures OneLine(Raw(l))
  {
    match l
    case Spaced(v) =>
      assert Raw(l)[..5] == [100, 97, 116, 97, 58] && Raw(l)[5..] == [32] + v;
    case Tight(v) =>
      assert Raw(l)[..5] == [100, 97, 116, 97, 58] && Raw(l)[5..] == v;
    case Empty(_) =>
    case Plain(_) =>
  }

  lemma {:induction false} LinesRead(blank: Blank, ls: seq<Line>)
    requires AllProper(blank, ls)
    ensures DataLines(Raws(ls)) == Values(ls) && PrefixLines(blank, Raws(ls)) == Plains(ls)
    ensures AllOneLine(Raws(ls)) && |Raws(ls)| == |ls|
  {
    if ls != [] {
      var n := |ls| - 1;
      LinesRead(blank, ls[..n]);
      RawReads(blank, ls[n]);
      assert Raws(ls)[..n] == Raws(ls[..n]);
    }
  }

  /** WHAT A BLOCK SPLITS INTO. The lines that are neither data nor blank are the prefix, the
      values of the data lines are the payload, both in order; without data the block stays. */
  lemma SplitsInto(blank: Blank, ls: seq<Line>)
    requires ls != [] && AllProper(blank, ls)
    ensures Split(blank, Glued(Raws(ls)))
         == if Values(ls) == [] then Verbatim(Glued(Raws(ls))) else Event(Glued(Plains(ls)), Glued(Values(ls)))
  {
    LinesRead(blank, ls);
    GluedIsJoin(Raws(ls));
    LinesOfJoin(Raws(ls));
    GluedIsJoin(Plains(ls));
    GluedIsJoin(Values(ls));
  }

  function ReadLine(blank: Blank, line: seq<byte>): Line {
    if [100, 97, 116, 97, 58, 32] <= line then Spaced(line[6..])
    else if [100, 97, 116, 97, 58] <= line then Tight(line[5..])
    else if blank(line) then Empty(line)
    else Plain(line)
  }

  lemma ReadLineRaw(blank: Blank, line: seq<byte>)
    requires OneLine(line)
    ensures Raw(ReadLine(blank, line)) == line && Proper(blank, ReadLine(blank, line))
  {
    if [100, 97, 116, 97, 58] <= line {
      assert line == [100, 97, 116, 97, 58] + line[5..];
      if line[5..] != [] && line[5..][0] == 32 {
        assert line[..6] == [100, 97, 116, 97, 58, 32];
      }
    }
  }

  lemma {:induction false} ReadLines(blank: Blank, lines: seq<seq<byte>>) returns (ls: seq<Line>)
    requires AllOneLine(lines)
    ensures Raws(ls) == lines && AllProper(blank, ls) && |ls| == |lines|
  {
    ls := [];
    if lines != [] {
      var n := |lines| - 1;
      var front := ReadLines(blank, lines[..n]);
      ReadLineRaw(blank, lines[n]);
      ls := front + [ReadLine(blank, lines[n])];
      assert ls[..n] == front && lines == lines[..n] + [lines[n]];
    }
  }

  /** Every block is made of such lines, so SplitsInto speaks of all blocks. */
  lemma EveryBlock(blank: Blank, block: seq<byte>) returns (ls: seq<Line>)
    ensures ls != [] && AllProper(blank, ls) && Glued(Raws(ls)) == block
  {
    LinesAreLines(block);
    ls := ReadLines(blank, Lines(block));
    JoinOfLines(block);
    GluedIsJoin(Lines(block));
  }

  // ----- what is held back -----

  /** HELD BACK, EXACTLY. With nothing buffered a block that fits is held if and only if it has
      data and its payload is not yet JSON, not white space and not the terminator. */
  lemma HeldExactlyWhen(rules: Rules, cap: int, ls: seq<Line>)
    requires ls != [] && AllProper(rules.blank, ls) && (cap <= 0 || |Glued(Raws(ls))| <= cap)
    ensures var block, p := Glued(Raws(ls)), Glued(Values(ls));
      Bounded(rules, cap, [], block)
      == if Values(ls) != [] && !rules.validJson(p) && !rules.blank(p) && !rules.done(p) then Step(None, block)
         else Step(Some(block), [])
  {
    SplitsInto(rules.blank, ls);
  }

  /** Behind a fragment the two go out together if and only if their payload is JSON, or they
      outgrow a positive cap. */
  lemma CompletedExactlyWhen(rules: Rules, cap: int, buffered: seq<byte>, chunk: seq<byte>, ls: seq<Line>)
    requires buffered != [] && ls != [] && AllProper(rules.blank, ls) && Glued(Raws(ls)) == buffered + chunk
    ensures Bounded(rules, cap, buffered, chunk)
         == if rules.validJson(Glued(Values(ls))) || 0 < cap < |buffered + chunk| then Step(Some(buffered + chunk), [])
            else Step(None, buffered + chunk)
  {
    SplitsInto(rules.blank, ls);
  }
}
