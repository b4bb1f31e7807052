/** Which rule a rejected conversation is told to have broken, from its messages alone. */
module PairingRules {
  import opened ToolCallPairing

  function TextOf(v: Json): string {
    if v.Str? then v.s else ""
  }

  function Texts(calls: seq<Json>): seq<string> {
    if calls == [] then [] else Texts(calls[..|calls| - 1]) + [TextOf(calls[|calls| - 1])]
  }

  /** The ids that the assistant's turns issued. */
  function IssuedBefore(ms: seq<Message>): seq<string> {
    if ms == [] then []
    else
      var m, front := ms[|ms| - 1], IssuedBefore(ms[..|ms| - 1]);
      if m.role == "assistant" && m.toolCalls.Array? then front + Texts(m.toolCalls.ids) else front
  }

  /** The ids that tool messages answered. */
  function AnsweredBefore(ms: seq<Message>): seq<string> {
    if ms == [] then []
    else
      var m, front := ms[|ms| - 1], AnsweredBefore(ms[..|ms| - 1]);
      if m.role == "tool" then front + [TextOf(m.toolCallId)] else front
  }

  function OpenBefore(ms: seq<Message>): set<string> {
    SetOf(IssuedBefore(ms)) - SetOf(AnsweredBefore(ms))
  }

  // ----- the state of the scan, from the messages -----

  lemma {:induction false} TextsAreIds(calls: seq<Json>)
    ensures Texts(calls) == Ids(calls)
  {
    if calls != [] {
      var n := |calls| - 1;
      TextsAreIds(calls[..n]);
      IdsSnoc(calls[..n], calls[n]);
      assert calls == calls[..n] + [calls[n]];
    }
  }

  lemma {:induction false} IdsSnoc(calls: seq<Json>, call: Json)
    ensures Ids(calls + [call]) == Ids(calls) + [Id(call)]
  {
    if calls != [] {
      assert (calls + [call])[1..] == calls[1..] + [call];
      IdsSnoc(calls[1..], call);
    }
  }

  /** One call more issues its id. */
  lemma {:induction false} IssueAllSets(st: State, calls: seq<Json>)
    requires IssueAll(st, calls).Ok?
    ensures var e := IssueAll(st, calls).value;
      && e.issued == st.issued + SetOf(Ids(calls)) && e.answered == st.answered
    decreases calls
  {
    if calls != [] {
      IssueAllSets(IssueOne(st, calls[0]).value, calls[1..]);
      assert SetOf(Ids(calls)) == {Id(calls[0])} + SetOf(Ids(calls[1..]));
    }
  }

  lemma NextSets(st: State, m: Message)
    requires Next(st, m).Ok?
    ensures var e := Next(st, m).value;
      && e.issued == st.issued + (if m.role == "assistant" && m.toolCalls.Array? then SetOf(Texts(m.toolCalls.ids))
                                  else {})
      && e.answered == st.answered + (if m.role == "tool" then {TextOf(m.toolCallId)} else {})
  {
    if m.role == "assistant" && m.toolCalls.Array? {
      TextsAreIds(m.toolCalls.ids);
      IssueAllSets(st.(order := []), m.toolCalls.ids);
    }
  }

  lemma {:induction false} StateSets(ms: seq<Message>)
    requires Steps(START, ms).Ok?
    ensures var st := Steps(START, ms).value;
      && st.issued == SetOf(IssuedBefore(ms)) && st.answered == SetOf(AnsweredBefore(ms))
      && st.pending == OpenBefore(ms)
  {
    if ms != [] {
      var n := |ms| - 1;
      assert ms == ms[..n] + [ms[n]];
      StepsAppend(START, ms[..n], [ms[n]]);
      var before := Steps(START, ms[..n]).value;
      assert Steps(before, [ms[n]]) == Next(before, ms[n]) by {
        assert [ms[n]][1..] == [];
      }
      StateSets(ms[..n]);
      NextSets(before, ms[n]);
    }
    StepsReachable(START, ms);
  }

  /** `a` is part of `b`, in the same order. */
  predicate InOrderOf(a: seq<string>, b: seq<string>)
    decreases |b|
  {
    a == []
    || (b != []
        && ((a[|a| - 1] == b[|b| - 1] && InOrderOf(a[..|a| - 1], b[..|b| - 1])) || InOrderOf(a, b[..|b| - 1])))
  }

  lemma {:induction false} RemainingInOrder(pending: set<string>, order: seq<string>)
    ensures InOrderOf(Remaining(pending, order), order)
  {
    if order != [] {
      var n := |order| - 1;
      RemainingInOrder(pending, order[..n]);
      assert order[n] in pending ==> Remaining(pending, order)[..|Remaining(pending, order)| - 1]
                                     == Remaining(pending, order[..n]);
    }
  }

  lemma {:induction false} MoreInFront(x: seq<string>, a: seq<string>, b: seq<string>)
    requires InOrderOf(a, b)
    ensures InOrderOf(a, x + b)
    decreases |b|
  {
    if a != [] {
      var n := |b| - 1;
      assert (x + b)[..|x + b| - 1] == x + b[..n];
      if InOrderOf(a, b[..n]) {
        MoreInFront(x, a, b[..n]);
      } else {
        MoreInFront(x, a[..|a| - 1], b[..n]);
      }
    }
  }

  /** The order the scan keeps is that of the ids issued last. */
  lemma {:induction false} OrderIsTail(ms: seq<Message>) returns (x: seq<string>)
    requires Steps(START, ms).Ok?
    ensures IssuedBefore(ms) == x + Steps(START, ms).value.order
  {
    x := [];
    if ms != [] {
      var n := |ms| - 1;
      assert ms == ms[..n] + [ms[n]] && [ms[n]][1..] == [];
      StepsAppend(START, ms[..n], [ms[n]]);
      var before := Steps(START, ms[..n]).value;
      assert Steps(before, [ms[n]]) == Next(before, ms[n]);
      if ms[n].role == "tool" {
        x := OrderIsTail(ms[..n]);
      } else {
        x := IssuedBefore(ms[..n]);
        if IssuesCalls(ms[n]) {
          TextsAreIds(ms[n].toolCalls.ids);
          IssueAllExact(before.(order := []), ms[n].toolCalls.ids);
          assert [] + Ids(ms[n].toolCalls.ids) == Ids(ms[n].toolCalls.ids);
        } else {
          assert x + [] == x;
        }
      }
    }
  }

  // ----- the rule -----

  /** A proper id that neither an earlier turn nor an earlier call of this one issued. */
  predicate Fresh(prior: set<string>, calls: seq<Json>, j: nat)
    requires j < |calls|
  {
    calls[j].Str? && calls[j].s != "" && calls[j].s !in prior && forall i | 0 <= i < j :: calls[i] != calls[j]
  }

  /** The first call of the array that may not be issued, and why. */
  predicate FirstBadCall(prior: set<string>, calls: seq<Json>, k: nat, v: Violation) {
    && k < |calls| && !Fresh(prior, calls, k) && (forall j | 0 <= j < k :: Fresh(prior, calls, j))
    && if calls[k].Str? && calls[k].s != "" then v.rule == DuplicateToolCallsId && v.ids == [calls[k].s]
       else v.rule == InvalidToolCallsId && v.ids == []
  }

  lemma FreshBehind(prior: set<string>, calls: seq<Json>, j: nat)
    requires j + 1 < |calls| && calls[0].Str?
    ensures Fresh(prior, calls, j + 1) <==> Fresh(prior + {calls[0].s}, calls[1..], j)
  {
    var rest := calls[1..];
    assert forall i | 0 <= i <= j :: rest[i] == calls[i + 1];
    if Fresh(prior, calls, j + 1) {
      assert calls[0] != calls[j + 1];
      forall i | 0 <= i < j
        ensures rest[i] != rest[j]
      {
        assert calls[i + 1] != calls[j + 1];
      }
    }
    if Fresh(prior + {calls[0].s}, rest, j) {
      forall i | 0 <= i < j + 1
        ensures calls[i] != calls[j + 1]
      {
        if i > 0 {
          assert rest[i - 1] != rest[j];
        }
      }
    }
  }

  lemma {:induction false} IssueAllStops(st: State, calls: seq<Json>, index: nat) returns (k: nat)
    requires IssueAll(st, calls).Err?
    ensures FirstBadCall(st.issued, calls, k, Violation(IssueAll(st, calls).rule, index, IssueAll(st, calls).ids))
    decreases calls
  {
    var first := IssueOne(st, calls[0]);
    if first.Err? {
      k := 0;
    } else {
      var i := IssueAllStops(first.value, calls[1..], index);
      k := i + 1;
      FreshBehind(st.issued, calls, i);
      forall j | 0 <= j < k
        ensures Fresh(st.issued, calls, j)
      {
        if j > 0 {
          FreshBehind(st.issued, calls, j - 1);
        }
      }
    }
  }

  /** What a rejection at message `m` behind the messages `prior` says about it. */
  ghost predicate RuleFits(prior: seq<Message>, m: Message, v: Violation) {
    if m.role == "tool" then ToolRuleFits(prior, m, v)
    else if OpenBefore(prior) != {} then NamesOpen(prior, v)
    else
      && m.role == "assistant" && m.toolCalls.Array?
      && exists k :: FirstBadCall(SetOf(IssuedBefore(prior)), m.toolCalls.ids, k, v)
  }

  predicate ToolRuleFits(prior: seq<Message>, m: Message, v: Violation) {
    var answered, issued := AnsweredBefore(prior), IssuedBefore(prior);
    if !m.toolCallId.Str? || m.toolCallId.s == "" then v.rule == InvalidToolCallId && v.ids == []
    else
      && v.ids == [m.toolCallId.s]
      && if m.toolCallId.s in answered then v.rule == DuplicateToolCallId
         else v.rule == OrphanToolMessage && m.toolCallId.s !in issued
  }

  /** The ids still open, in the order of issue. */
  predicate NamesOpen(prior: seq<Message>, v: Violation) {
    v.rule == UnansweredToolCalls && SetOf(v.ids) == OpenBefore(prior) && InOrderOf(v.ids, IssuedBefore(prior))
  }

  lemma ToolRule(prior: seq<Message>, m: Message, v: Violation)
    requires Steps(START, prior).Ok? && m.role == "tool"
    requires Next(Steps(START, prior).value, m) == Err(v.rule, v.ids)
    ensures ToolRuleFits(prior, m, v)
  {
    StateSets(prior);
    StepsReachable(START, prior);
  }

  lemma OpenRule(prior: seq<Message>, v: Violation)
    requires Steps(START, prior).Ok?
    requires var st := Steps(START, prior).value;
      v.rule == UnansweredToolCalls && v.ids == Remaining(st.pending, st.order)
    ensures NamesOpen(prior, v)
  {
    var st := Steps(START, prior).value;
    StateSets(prior);
    StepsReachable(START, prior);
    RemainingExact(st.pending, st.order);
    RemainingInOrder(st.pending, st.order);
    var x := OrderIsTail(prior);
    MoreInFront(x, Remaining(st.pending, st.order), st.order);
  }

  lemma TurnRule(prior: seq<Message>, m: Message, v: Violation)
    requires Steps(START, prior).Ok? && m.role != "tool" && OpenBefore(prior) == {}
    requires Next(Steps(START, prior).value, m) == Err(v.rule, v.ids)
    ensures m.role == "assistant" && m.toolCalls.Array?
    ensures exists k :: FirstBadCall(SetOf(IssuedBefore(prior)), m.toolCalls.ids, k, v)
  {
    var st := Steps(START, prior).value;
    StateSets(prior);
    var k := IssueAllStops(st.(order := []), m.toolCalls.ids, v.index);
    assert v == Violation(v.rule, v.index, v.ids);
  }

  /** THE RULE BROKEN. The rejection names the rule that the offending message breaks, and the ids
      concerned; at the end of the list it names the calls still open. */
  lemma RejectionNamesRule(ms: seq<Message>)
    requires Check(ms).Some?
    ensures var v := Check(ms).value;
      if v.index < |ms| then RuleFits(ms[..v.index], ms[v.index], v) else NamesOpen(ms, v) && OpenBefore(ms) != {}
  {
    ScanStopsAt(START, ms, 0);
    var v := Check(ms).value;
    var prior := ms[..v.index];
    assert ms[0..v.index] == prior;
    StateSets(prior);
    if v.index == |ms| {
      assert prior == ms;
      OpenRule(prior, v);
    } else if ms[v.index].role == "tool" {
      ToolRule(prior, ms[v.index], v);
    } else if OpenBefore(prior) != {} {
      OpenRule(prior, v);
    } else {
      TurnRule(prior, ms[v.index], v);
    }
  }
}
