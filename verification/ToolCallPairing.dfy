/** The one-pass check that every tool call of a chat request is answered: the scan, the
    grammar of conversations it stands for, and how the two are related. */
module ToolCallPairing {

  import opened Wrappers

  /** A JSON value where a string id is expected: anything but a string is Other. */
  datatype Json = Str(s: string) | Other

  datatype ToolCalls = NotArray | Array(ids: seq<Json>)

  /** The three fields of a message the check looks at. */
  datatype Message = Message(role: string, toolCallId: Json, toolCalls: ToolCalls)

  datatype Rule =
    | OrphanToolMessage | UnansweredToolCalls | DuplicateToolCallId
    | DuplicateToolCallsId | InvalidToolCallId | InvalidToolCallsId

  /** `index` is the message that broke the rule, or the number of messages at the end. */
  datatype Violation = Violation(rule: Rule, index: nat, ids: seq<string>)

  const ASSISTANT := "assistant"
  const TOOL := "tool"

  function NonEmptyJSONString(v: Json): Option<string> {
    if v.Str? && v.s != "" then Some(v.s) else None
  }

  // ----- the grammar -----

  predicate IsTool(m: Message) {
    m.role == TOOL
  }

  predicate IssuesCalls(m: Message) {
    m.role == ASSISTANT && m.toolCalls.Array?
  }

  predicate ValidId(v: Json) {
    v.Str? && v.s != ""
  }

  /** A message without tool calls, or an assistant turn with the tool messages after it. */
  datatype Block = Plain(m: Message) | Turn(m: Message, answers: seq<Message>)

  function Id(v: Json): string {
    if v.Str? then v.s else ""
  }

  function Ids(calls: seq<Json>): (r: seq<string>) {
    if calls == [] then [] else [Id(calls[0])] + Ids(calls[1..])
  }

  /** The ids a run of tool messages answers. */
  function Answered(ms: seq<Message>): (r: seq<string>) {
    if ms == [] then [] else [Id(ms[0].toolCallId)] + Answered(ms[1..])
  }

  /** In a turn the answers are the issued ids in any order, and all ids are proper. */
  predicate WellFormed(b: Block) {
    match b
    case Plain(m) => !IsTool(m) && !IssuesCalls(m)
    case Turn(m, answers) =>
      && IssuesCalls(m)
      && (forall v <- m.toolCalls.ids :: ValidId(v))
      && (forall a <- answers :: IsTool(a) && ValidId(a.toolCallId))
      && multiset(Ids(m.toolCalls.ids)) == multiset(Answered(answers))
  }

  function Issued(b: Block): seq<string> {
    if b.Turn? && b.m.toolCalls.Array? then Ids(b.m.toolCalls.ids) else []
  }

  function AllIssued(bs: seq<Block>): seq<string> {
    if bs == [] then [] else Issued(bs[0]) + AllIssued(bs[1..])
  }

  function MessagesOf(b: Block): seq<Message> {
    if b.Plain? then [b.m] else [b.m] + b.answers
  }

  function Messages(bs: seq<Block>): seq<Message> {
    if bs == [] then [] else MessagesOf(bs[0]) + Messages(bs[1..])
  }

  predicate NoDuplicates(s: seq<string>) {
    forall i, j | 0 <= i < j < |s| :: s[i] != s[j]
  }

  predicate Derives(bs: seq<Block>, ms: seq<Message>) {
    && (forall b <- bs :: WellFormed(b))
    && Messages(bs) == ms
    && NoDuplicates(AllIssued(bs))
  }

  /** Conversations of plain messages and fully answered turns, no id issued twice. */
  ghost predicate Conversation(ms: seq<Message>) {
    exists bs :: Derives(bs, ms)
  }

  // ----- the scan -----

  datatype State = State(pending: set<string>, order: seq<string>, answered: set<string>, issued: set<string>)

  const START := State({}, [], {}, {})

  datatype Result<+T> = Ok(value: T) | Err(rule: Rule, ids: seq<string>)

  /** The ids of `order` that are still pending. */
  function Remaining(pending: set<string>, order: seq<string>): (r: seq<string>) {
    if order == [] then []
    else
      var n := |order| - 1;
      var r := Remaining(pending, order[..n]);
      if order[n] in pending then r + [order[n]] else r
  }

  function IssueOne(st: State, call: Json): Result<State> {
    match NonEmptyJSONString(call)
    case None => Err(InvalidToolCallsId, [])
    case Some(id) =>
      if id in st.issued then Err(DuplicateToolCallsId, [id])
      else Ok(State(st.pending + {id}, st.order + [id], st.answered, st.issued + {id}))
  }

  function IssueAll(st: State, calls: seq<Json>): Result<State>
    decreases calls
  {
    if calls == [] then Ok(st)
    else
      match IssueOne(st, calls[0])
      case Err(rule, ids) => Err(rule, ids)
      case Ok(next) => IssueAll(next, calls[1..])
  }

  function Next(st: State, m: Message): Result<State> {
    if IsTool(m) then
      match NonEmptyJSONString(m.toolCallId)
      case None => Err(InvalidToolCallId, [])
      case Some(id) =>
        if id in st.answered then Err(DuplicateToolCallId, [id])
        else if id !in st.pending then Err(OrphanToolMessage, [id])
        else Ok(st.(pending := st.pending - {id}, answered := st.answered + {id}))
    else if st.pending != {} then Err(UnansweredToolCalls, Remaining(st.pending, st.order))
    else if IssuesCalls(m) then IssueAll(st.(order := []), m.toolCalls.ids)
    else Ok(st.(order := []))
  }

  /** Scan the messages from position `i` on. */
  function Scan(st: State, ms: seq<Message>, i: nat): Option<Violation>
    requires i <= |ms|
    decreases |ms| - i
  {
    if i == |ms| then
      if st.pending != {} then Some(Violation(UnansweredToolCalls, i, Remaining(st.pending, st.order))) else None
    else
      match Next(st, ms[i])
      case Err(rule, ids) => Some(Violation(rule, i, ids))
      case Ok(next) => Scan(next, ms, i + 1)
  }

  function Check(ms: seq<Message>): Option<Violation> {
    Scan(START, ms, 0)
  }

  // ----- the check as it runs -----

  /** joinPending: the unanswered ids, in the order they were issued. */
  method JoinPending(pending: set<string>, order: seq<string>) returns (remaining: seq<string>)
    ensures remaining == Remaining(pending, order)
  {
    remaining := [];
    for i := 0 to |order|
      invariant remaining == Remaining(pending, order[..i])
    {
      assert order[..i + 1][..i] == order[..i];
      if order[i] in pending {
        remaining := remaining + [order[i]];
      }
    }
    assert order[..|order|] == order;
  }

  method ValidateToolCallPairing(messages: seq<Message>) returns (v: Option<Violation>)
    ensures v == Check(messages)
  {
    var pending: set<string>, pendingOrder: seq<string> := {}, [];
    var answered: set<string>, issued: set<string> := {}, {};
    for i := 0 to |messages|
      invariant Check(messages) == Scan(State(pending, pendingOrder, answered, issued), messages, i)
    {
      var msg := messages[i];
      ghost var st := State(pending, pendingOrder, answered, issued);
      if msg.role == TOOL {
        var id := NonEmptyJSONString(msg.toolCallId);
        if id.None? {
          return Some(Violation(InvalidToolCallId, i, []));
        }
        if id.value in answered {
          return Some(Violation(DuplicateToolCallId, i, [id.value]));
        }
        if id.value !in pending {
          return Some(Violation(OrphanToolMessage, i, [id.value]));
        }
        pending := pending - {id.value};
        answered := answered + {id.value};
      } else {
        if pending != {} {
          var remaining := JoinPending(pending, pendingOrder);
          return Some(Violation(UnansweredToolCalls, i, remaining));
        }
        pendingOrder := [];
        if msg.role == ASSISTANT && msg.toolCalls.Array? {
          var calls := msg.toolCalls.ids;
          ghost var before := State(pending, pendingOrder, answered, issued);
          for k := 0 to |calls|
            invariant IssueAll(before, calls) == IssueAll(State(pending, pendingOrder, answered, issued), calls[k..])
          {
            assert calls[k..][0] == calls[k] && calls[k..][1..] == calls[k + 1..];
            var id := NonEmptyJSONString(calls[k]);
            if id.None? {
              return Some(Violation(InvalidToolCallsId, i, []));
            }
            if id.value in issued {
              return Some(Violation(DuplicateToolCallsId, i, [id.value]));
            }
            issued := issued + {id.value};
            pending := pending + {id.value};
            pendingOrder := pendingOrder + [id.value];
          }
        }
      }
      assert Next(st, msg) == Ok(State(pending, pendingOrder, answered, issued));
    }
    if pending != {} {
      var remaining := JoinPending(pending, pendingOrder);
      return Some(Violation(UnansweredToolCalls, |messages|, remaining));
    }
    return None;
  }

  // ----- the scan as an automaton -----

  /** The state after all of `ms`, or the first rule broken. */
  function Steps(st: State, ms: seq<Message>): Result<State>
    decreases ms
  {
    if ms == [] then Ok(st)
    else
      match Next(st, ms[0])
      case Err(rule, ids) => Err(rule, ids)
      case Ok(next) => Steps(next, ms[1..])
  }

  predicate Accepts(st: State, ms: seq<Message>) {
    var r := Steps(st, ms);
    r.Ok? && r.value.pending == {}
  }

  lemma {:induction false} ScanIsSteps(st: State, ms: seq<Message>, i: nat)
    requires i <= |ms|
    ensures Scan(st, ms, i).None? <==> Accepts(st, ms[i..])
    decreases |ms| - i
  {
    if i < |ms| {
      assert ms[i..][0] == ms[i] && ms[i..][1..] == ms[i + 1..];
      var r := Next(st, ms[i]);
      if r.Ok? {
        ScanIsSteps(r.value, ms, i + 1);
      }
    }
  }

  lemma {:induction false} StepsAppend(st: State, a: seq<Message>, b: seq<Message>)
    ensures Steps(st, a + b) == if Steps(st, a).Ok? then Steps(Steps(st, a).value, b) else Steps(st, a)
    decreases a
  {
    if a == [] {
      assert a + b == b;
    } else {
      assert (a + b)[0] == a[0] && (a + b)[1..] == a[1..] + b;
      var r := Next(st, a[0]);
      if r.Ok? {
        StepsAppend(r.value, a[1..], b);
      }
    }
  }

  // ----- ids without repetition -----

  lemma {:induction false} NoDuplicatesCount(s: seq<string>, x: string)
    requires NoDuplicates(s)
    ensures multiset(s)[x] == if x in s then 1 else 0
  {
    if s != [] {
      assert s == [s[0]] + s[1..];
      NoDuplicatesCount(s[1..], x);
      if x == s[0] {
        assert x !in s[1..];
      }
    }
  }

  /** A rearrangement of distinct ids is distinct and has the same members. */
  lemma PermutationDistinct(a: seq<string>, b: seq<string>)
    requires NoDuplicates(a) && multiset(a) == multiset(b)
    ensures NoDuplicates(b) && (forall x :: x in a <==> x in b)
  {
    forall x
      ensures x in a <==> x in b
    {
      assert x in a <==> x in multiset(a);
      assert x in b <==> x in multiset(b);
    }
    forall i, j | 0 <= i < j < |b|
      ensures b[i] != b[j]
    {
      NoDuplicatesCount(a, b[j]);
      assert b == b[..j] + [b[j]] + b[j + 1..];
      assert b[..j] == b[..i] + [b[i]] + b[i + 1..j];
    }
  }

  lemma SameMembersSamePermutation(a: seq<string>, b: seq<string>)
    requires NoDuplicates(a) && NoDuplicates(b) && SetOf(a) == SetOf(b)
    ensures multiset(a) == multiset(b)
  {
    forall x
      ensures multiset(a)[x] == multiset(b)[x]
    {
      assert x in a <==> x in SetOf(a);
      assert x in b <==> x in SetOf(b);
      NoDuplicatesCount(a, x);
      NoDuplicatesCount(b, x);
    }
  }

  function SetOf(s: seq<string>): set<string> {
    set x | x in s
  }

  // ----- issuing the calls of one turn -----

  /** Issuing succeeds exactly on proper, distinct ids that were never issued, and then they
      are what is pending, in issue order. */
  lemma {:induction false} IssueAllExact(st: State, calls: seq<Json>)
    ensures IssueAll(st, calls).Ok? <==>
      (forall v <- calls :: ValidId(v)) && NoDuplicates(Ids(calls)) && SetOf(Ids(calls)) !! st.issued
    ensures IssueAll(st, calls).Ok? ==>
      IssueAll(st, calls).value
        == State(st.pending + SetOf(Ids(calls)), st.order + Ids(calls), st.answered, st.issued + SetOf(Ids(calls)))
    decreases calls
  {
    if calls != [] {
      var id, rest := Id(calls[0]), calls[1..];
      assert calls == [calls[0]] + rest && Ids(calls) == [id] + Ids(rest);
      assert SetOf(Ids(calls)) == {id} + SetOf(Ids(rest));
      var r := IssueOne(st, calls[0]);
      if r.Ok? {
        IssueAllExact(r.value, rest);
        assert st.order + [id] + Ids(rest) == st.order + Ids(calls);
        assert NoDuplicates(Ids(calls)) <==> NoDuplicates(Ids(rest)) && id !in Ids(rest) by {
          ConsDistinct(id, Ids(rest));
        }
      } else if ValidId(calls[0]) {
        assert id in SetOf(Ids(calls)) * st.issued;
      }
    }
  }

  lemma ConsDistinct(x: string, s: seq<string>)
    ensures NoDuplicates([x] + s) <==> NoDuplicates(s) && x !in s
  {
    var t := [x] + s;
    if NoDuplicates(t) {
      assert forall i | 0 <= i < |s| :: s[i] == t[i + 1] && t[0] != t[i + 1];
    }
  }

  // ----- answering the calls of one turn -----

  /** Between turns nothing is pending, and what was issued was answered. */
  predicate AtBoundary(st: State) {
    st.pending == {} && st.answered == st.issued
  }

  /** A run of tool messages that answers exactly the pending ids, each once, closes the turn. */
  lemma {:induction false} AnswersClose(st: State, answers: seq<Message>)
    requires forall a <- answers :: IsTool(a) && ValidId(a.toolCallId)
    requires NoDuplicates(Answered(answers)) && SetOf(Answered(answers)) == st.pending && st.pending !! st.answered
    ensures Steps(st, answers) == Ok(st.(pending := {}, answered := st.answered + st.pending))
    decreases answers
  {
    if answers == [] {
      assert SetOf([]) == {} && st.answered + {} == st.answered;
    } else {
      var id, rest := Id(answers[0].toolCallId), answers[1..];
      ConsDistinct(id, Answered(rest));
      assert Answered(answers) == [id] + Answered(rest);
      assert SetOf(Answered(answers)) == {id} + SetOf(Answered(rest));
      var next := st.(pending := st.pending - {id}, answered := st.answered + {id});
      assert Next(st, answers[0]) == Ok(next);
      AnswersClose(next, rest);
      assert next.answered + next.pending == st.answered + st.pending;
    }
  }

  /** Conversely an accepted continuation starts with such a run. */
  lemma {:induction false} TakeAnswers(st: State, ms: seq<Message>) returns (n: nat)
    requires Accepts(st, ms) && st.pending !! st.answered
    ensures n <= |ms|
    ensures forall a <- ms[..n] :: IsTool(a) && ValidId(a.toolCallId)
    ensures NoDuplicates(Answered(ms[..n])) && SetOf(Answered(ms[..n])) == st.pending
    ensures Accepts(st.(pending := {}, answered := st.answered + st.pending), ms[n..])
    decreases ms
  {
    if st.pending == {} {
      n := 0;
      assert ms[0..] == ms && st.answered + st.pending == st.answered;
    } else {
      var id, rest := Id(ms[0].toolCallId), ms[1..];
      var next := st.(pending := st.pending - {id}, answered := st.answered + {id});
      assert Next(st, ms[0]) == Ok(next);
      var k := TakeAnswers(next, rest);
      n := k + 1;
      assert ms[..n] == [ms[0]] + rest[..k] && ms[n..] == rest[k..];
      assert Answered(ms[..n]) == [id] + Answered(rest[..k]);
      ConsDistinct(id, Answered(rest[..k]));
      assert SetOf(Answered(ms[..n])) == {id} + SetOf(Answered(rest[..k]));
      assert next.answered + next.pending == st.answered + st.pending;
    }
  }

  // ----- completeness: every conversation passes -----

  lemma BlockSteps(st: State, b: Block)
    requires AtBoundary(st) && WellFormed(b) && NoDuplicates(Issued(b)) && SetOf(Issued(b)) !! st.issued
    ensures Steps(st, MessagesOf(b)).Ok?
    ensures var e := Steps(st, MessagesOf(b)).value;
      AtBoundary(e) && e.issued == st.issued + SetOf(Issued(b))
  {
    var open := st.(order := []);
    match b
    case Plain(m) =>
      assert Next(st, m) == Ok(open);
      assert SetOf([]) == {};
    case Turn(m, answers) =>
      var calls := m.toolCalls.ids;
      IssueAllExact(open, calls);
      PermutationDistinct(Ids(calls), Answered(answers));
      assert SetOf(Answered(answers)) == SetOf(Ids(calls));
      var next := IssueAll(open, calls).value;
      AnswersClose(next, answers);
      assert MessagesOf(b)[1..] == answers;
  }

  lemma DistinctParts(a: seq<string>, b: seq<string>)
    requires NoDuplicates(a + b)
    ensures NoDuplicates(a) && NoDuplicates(b) && SetOf(a) !! SetOf(b)
  {
    var s := a + b;
    assert forall i | 0 <= i < |a| :: a[i] == s[i];
    assert forall i | 0 <= i < |b| :: b[i] == s[|a| + i];
  }

  lemma {:induction false} BlocksPass(st: State, bs: seq<Block>)
    requires AtBoundary(st) && (forall b <- bs :: WellFormed(b))
    requires NoDuplicates(AllIssued(bs)) && SetOf(AllIssued(bs)) !! st.issued
    ensures Accepts(st, Messages(bs))
    decreases bs
  {
    if bs != [] {
      var b, rest := bs[0], bs[1..];
      var here, later := Issued(b), AllIssued(rest);
      DistinctParts(here, later);
      SetOfSum(here, later);
      assert b in bs;
      BlockSteps(st, b);
      var mid := Steps(st, MessagesOf(b)).value;
      BlocksPass(mid, rest);
      StepsAppend(st, MessagesOf(b), Messages(rest));
    }
  }

  lemma SetOfSum(a: seq<string>, b: seq<string>)
    ensures SetOf(a + b) == SetOf(a) + SetOf(b)
  {
  }

  // ----- soundness: whatever passes is a conversation -----

  lemma TurnWellFormed(m: Message, answers: seq<Message>)
    requires IssuesCalls(m) && (forall v <- m.toolCalls.ids :: ValidId(v)) && NoDuplicates(Ids(m.toolCalls.ids))
    requires forall a <- answers :: IsTool(a) && ValidId(a.toolCallId)
    requires NoDuplicates(Answered(answers)) && SetOf(Answered(answers)) == SetOf(Ids(m.toolCalls.ids))
    ensures WellFormed(Turn(m, answers))
  {
    SameMembersSamePermutation(Ids(m.toolCalls.ids), Answered(answers));
  }

  /** An accepted list that starts with tool calls starts with a whole turn. */
  lemma ParseTurn(st: State, m: Message, rest: seq<Message>) returns (n: nat, next: State)
    requires AtBoundary(st) && Accepts(st, [m] + rest) && IssuesCalls(m)
    ensures n <= |rest| && WellFormed(Turn(m, rest[..n]))
    ensures NoDuplicates(Ids(m.toolCalls.ids)) && SetOf(Ids(m.toolCalls.ids)) !! st.issued
    ensures AtBoundary(next) && next.issued == st.issued + SetOf(Ids(m.toolCalls.ids)) && Accepts(next, rest[n..])
  {
    var calls := m.toolCalls.ids;
    var open := st.(order := []);
    assert ([m] + rest)[1..] == rest && Next(st, m) == IssueAll(open, calls);
    IssueAllExact(open, calls);
    var issuing := IssueAll(open, calls).value;
    n := TakeAnswers(issuing, rest);
    TurnWellFormed(m, rest[..n]);
    next := issuing.(pending := {}, answered := issuing.answered + issuing.pending);
  }

  /** The first block of an accepted list, and the state behind it. */
  lemma ParseBlock(st: State, ms: seq<Message>) returns (b: Block, left: seq<Message>, next: State)
    requires AtBoundary(st) && Accepts(st, ms) && ms != []
    ensures WellFormed(b) && NoDuplicates(Issued(b)) && SetOf(Issued(b)) !! st.issued
    ensures ms == MessagesOf(b) + left && |left| < |ms|
    ensures AtBoundary(next) && next.issued == st.issued + SetOf(Issued(b)) && Accepts(next, left)
  {
    var m, rest := ms[0], ms[1..];
    assert ms == [m] + rest;
    if IssuesCalls(m) {
      var n;
      n, next := ParseTurn(st, m, rest);
      b, left := Turn(m, rest[..n]), rest[n..];
      assert MessagesOf(b) + left == [m] + (rest[..n] + rest[n..]);
    } else {
      b, left := Plain(m), rest;
      next := ParsePlain(st, m, rest);
    }
  }

  lemma ParsePlain(st: State, m: Message, rest: seq<Message>) returns (next: State)
    requires AtBoundary(st) && Accepts(st, [m] + rest) && !IssuesCalls(m)
    ensures var b := Plain(m);
      && WellFormed(b) && Issued(b) == [] && SetOf(Issued(b)) == {}
      && AtBoundary(next) && next.issued == st.issued && Accepts(next, rest)
  {
    next := st.(order := []);
    assert ([m] + rest)[0] == m && ([m] + rest)[1..] == rest;
    assert Next(st, m) == Ok(next);
  }

  lemma {:induction false} Parse(st: State, ms: seq<Message>) returns (bs: seq<Block>)
    requires AtBoundary(st) && Accepts(st, ms)
    ensures Derives(bs, ms) && SetOf(AllIssued(bs)) !! st.issued
    decreases |ms|
  {
    if ms == [] {
      bs := [];
    } else {
      var b, left, next := ParseBlock(st, ms);
      var tail := Parse(next, left);
      bs := [b] + tail;
      assert bs[1..] == tail;
      JoinDistinct(Issued(b), AllIssued(tail));
      SetOfSum(Issued(b), AllIssued(tail));
    }
  }

  lemma JoinDistinct(a: seq<string>, b: seq<string>)
    requires NoDuplicates(a) && NoDuplicates(b) && SetOf(a) !! SetOf(b)
    ensures NoDuplicates(a + b)
  {
    var s := a + b;
    forall i, j | 0 <= i < j < |s|
      ensures s[i] != s[j]
    {
      if i < |a| <= j {
        assert s[i] in SetOf(a) && s[j] in SetOf(b);
      }
    }
  }

  /** THE CHECK DECIDES THE GRAMMAR: a message list passes exactly when it is a conversation. */
  lemma CheckDecidesConversation(ms: seq<Message>)
    ensures Check(ms).None? <==> Conversation(ms)
  {
    ScanIsSteps(START, ms, 0);
    assert ms[0..] == ms;
    if Check(ms).None? {
      var bs := Parse(START, ms);
      assert Derives(bs, ms);
    }
    if Conversation(ms) {
      var bs :| Derives(bs, ms);
      BlocksPass(START, bs);
    }
  }

  // ----- the verdict comes at the earliest message -----

  /** What holds after every accepted prefix: `order` lists the pending ids among others, all
      issued ids are proper, and nothing pending was answered. */
  predicate Reachable(st: State) {
    && st.pending !! st.answered && st.issued == st.pending + st.answered
    && st.pending <= SetOf(st.order) && NoDuplicates(st.order)
    && "" !in st.pending
  }

  lemma NextReachable(st: State, m: Message)
    requires Reachable(st) && Next(st, m).Ok?
    ensures Reachable(Next(st, m).value)
  {
    if !IsTool(m) && IssuesCalls(m) {
      var calls := m.toolCalls.ids;
      IssueAllExact(st.(order := []), calls);
      assert [] + Ids(calls) == Ids(calls);
      ProperIds(calls);
    }
  }

  lemma {:induction false} ProperIds(calls: seq<Json>)
    requires forall v <- calls :: ValidId(v)
    ensures "" !in Ids(calls)
  {
    if calls != [] {
      assert calls[0] in calls;
      ProperIds(calls[1..]);
    }
  }

  lemma {:induction false} StepsReachable(st: State, ms: seq<Message>)
    requires Reachable(st) && Steps(st, ms).Ok?
    ensures Reachable(Steps(st, ms).value)
    decreases ms
  {
    if ms != [] {
      NextReachable(st, ms[0]);
      StepsReachable(Next(st, ms[0]).value, ms[1..]);
    }
  }

  /** joinPending names every pending id once, in the order of issue. */
  lemma {:induction false} RemainingExact(pending: set<string>, order: seq<string>)
    requires NoDuplicates(order)
    ensures var r := Remaining(pending, order);
      SetOf(r) == pending * SetOf(order) && NoDuplicates(r)
  {
    if order != [] {
      var n := |order| - 1;
      RemainingExact(pending, order[..n]);
      assert order == order[..n] + [order[n]];
      assert order[n] !in order[..n];
      SetOfSum(order[..n], [order[n]]);
      var r := Remaining(pending, order[..n]);
      SetOfSum(r, [order[n]]);
      assert SetOf([order[n]]) == {order[n]};
      if order[n] in pending {
        assert order[n] !in SetOf(r);
        JoinDistinct(r, [order[n]]);
      }
    }
  }

  /** One tool message per id. */
  function AnswerAll(ids: seq<string>): (ms: seq<Message>)
    ensures Answered(ms) == ids
    ensures "" !in ids ==> forall m <- ms :: IsTool(m) && ValidId(m.toolCallId)
  {
    if ids == [] then [] else [Message(TOOL, Str(ids[0]), NotArray)] + AnswerAll(ids[1..])
  }

  /** Every accepted prefix can be completed: answer what is pending. */
  lemma PrefixCompletes(ms: seq<Message>)
    requires Steps(START, ms).Ok?
    ensures exists all :: ms <= all && Conversation(all)
  {
    var st := Steps(START, ms).value;
    StepsReachable(START, ms);
    RemainingExact(st.pending, st.order);
    var ids := Remaining(st.pending, st.order);
    assert SetOf(ids) == st.pending;
    assert "" !in ids by { assert "" in ids <==> "" in SetOf(ids); }
    var c := AnswerAll(ids);
    AnswersClose(st, c);
    StepsAppend(START, ms, c);
    ScanIsSteps(START, ms + c, 0);
    assert (ms + c)[0..] == ms + c;
    CheckDecidesConversation(ms + c);
    assert ms <= ms + c;
  }

  /** The scan stops at message i exactly when the messages before it pass and it does not. */
  lemma {:induction false} ScanStopsAt(st: State, ms: seq<Message>, i: nat)
    requires i <= |ms| && Scan(st, ms, i).Some?
    ensures var v := Scan(st, ms, i).value;
      && i <= v.index <= |ms|
      && Steps(st, ms[i..v.index]).Ok?
      && (v.index < |ms| ==> Next(Steps(st, ms[i..v.index]).value, ms[v.index]) == Err(v.rule, v.ids))
      && (v.index == |ms| ==>
            var e := Steps(st, ms[i..v.index]).value;
            e.pending != {} && v.rule == UnansweredToolCalls && v.ids == Remaining(e.pending, e.order))
    decreases |ms| - i
  {
    if i < |ms| && Next(st, ms[i]).Ok? {
      var next := Next(st, ms[i]).value;
      ScanStopsAt(next, ms, i + 1);
      var v := Scan(next, ms, i + 1).value;
      assert ms[i..v.index][0] == ms[i] && ms[i..v.index][1..] == ms[i + 1..v.index];
    }
  }

  /** VIABLE PREFIX. When the check rejects at message i, what came before i can still become
      a conversation, and nothing that continues through message i can. Rejection at the end
      of the list means only that answers are missing. */
  lemma RejectionIsEarliest(ms: seq<Message>)
    requires Check(ms).Some?
    ensures var i := Check(ms).value.index;
      && i <= |ms|
      && (exists all :: ms[..i] <= all && Conversation(all))
      && (i < |ms| ==> forall all :: ms[..i + 1] <= all ==> !Conversation(all))
      && (i == |ms| ==> !Conversation(ms))
  {
    ScanStopsAt(START, ms, 0);
    var i := Check(ms).value.index;
    assert ms[0..i] == ms[..i];
    PrefixCompletes(ms[..i]);
    if i < |ms| {
      forall all | ms[..i + 1] <= all
        ensures !Conversation(all)
      {
        var rest := all[i + 1..];
        assert all == ms[..i] + ([ms[i]] + rest);
        StepsAppend(START, ms[..i], [ms[i]] + rest);
        ScanIsSteps(START, all, 0);
        assert all[0..] == all;
        CheckDecidesConversation(all);
      }
    } else {
      CheckDecidesConversation(ms);
    }
  }

  /** The ids an UnansweredToolCalls rejection lists are exactly the open ones, each once. */
  lemma RejectionNamesOpenCalls(ms: seq<Message>)
    requires Check(ms).Some? && Check(ms).value.rule == UnansweredToolCalls
    ensures var v := Check(ms).value;
      && v.index <= |ms| && Steps(START, ms[..v.index]).Ok?
      && SetOf(v.ids) == Steps(START, ms[..v.index]).value.pending && NoDuplicates(v.ids)
  {
    ScanStopsAt(START, ms, 0);
    var v := Check(ms).value;
    assert ms[0..v.index] == ms[..v.index];
    StepsReachable(START, ms[..v.index]);
    var st := Steps(START, ms[..v.index]).value;
    RemainingExact(st.pending, st.order);
    if v.index < |ms| && st.pending == {} {
      IssueAllRule(st.(order := []), if ms[v.index].toolCalls.Array? then ms[v.index].toolCalls.ids else []);
    }
  }

  lemma {:induction false} IssueAllRule(st: State, calls: seq<Json>)
    ensures IssueAll(st, calls).Err? ==> IssueAll(st, calls).rule != UnansweredToolCalls
    decreases calls
  {
    if calls != [] && IssueOne(st, calls[0]).Ok? {
      IssueAllRule(IssueOne(st, calls[0]).value, calls[1..]);
    }
  }

  // ----- uniqueness within one array is enough -----

  /** The same step, forgetting at each turn which ids earlier turns issued. */
  function NextLocal(st: State, m: Message): Result<State> {
    Next(if IsTool(m) then st else st.(issued := {}), m)
  }

  predicate AcceptsLocal(st: State, ms: seq<Message>)
    decreases ms
  {
    if ms == [] then st.pending == {}
    else NextLocal(st, ms[0]).Ok? && AcceptsLocal(NextLocal(st, ms[0]).value, ms[1..])
  }

  /** A pending id that was answered before can never be answered again. */
  lemma {:induction false} ReissuedIsDoomed(st: State, ms: seq<Message>, id: string)
    requires id in st.pending && id in st.answered
    ensures !AcceptsLocal(st, ms)
    decreases ms
  {
    if ms != [] && NextLocal(st, ms[0]).Ok? {
      ReissuedIsDoomed(NextLocal(st, ms[0]).value, ms[1..], id);
    }
  }

  lemma {:induction false} LocalAgrees(st: State, local: State, ms: seq<Message>)
    requires Reachable(st) && local.pending == st.pending && local.answered == st.answered
    ensures Accepts(st, ms) <==> AcceptsLocal(local, ms)
    decreases ms
  {
    if ms != [] {
      var m, rest := ms[0], ms[1..];
      if !IsTool(m) && st.pending == {} && IssuesCalls(m) {
        var calls := m.toolCalls.ids;
        var s, l := st.(order := []), local.(issued := {}, order := []);
        IssueAllExact(s, calls);
        IssueAllExact(l, calls);
        if IssueAll(s, calls).Ok? {
          NextReachable(st, m);
          LocalAgrees(IssueAll(s, calls).value, IssueAll(l, calls).value, rest);
        } else if IssueAll(l, calls).Ok? {
          var id :| id in SetOf(Ids(calls)) && id in st.issued;
          ReissuedIsDoomed(IssueAll(l, calls).value, rest, id);
        }
      } else if Next(st, m).Ok? {
        NextReachable(st, m);
        LocalAgrees(Next(st, m).value, NextLocal(local, m).value, rest);
      }
    }
  }

  /** Enforcing fresh ids over the whole request instead of within one tool_calls array
      changes no verdict: a reissued id would have to be answered twice or never. */
  lemma RequestWideUniquenessIsFree(ms: seq<Message>)
    ensures Check(ms).None? <==> AcceptsLocal(START, ms)
  {
    ScanIsSteps(START, ms, 0);
    assert ms[0..] == ms;
    LocalAgrees(START, START, ms);
  }
}
