/** The publisher's health filter: which configured candidates are published, and with what
    model name, load and recovery penalty. */
module CandidateFilter {
  import opened Health
  import opened HealthStores
  import opened ModelNames
  import opened Wire

  /** The loaded state of one target; a missing one reads as idle and clean. */
  datatype State = State(inflight: nat, health: Health)

  /** What is known about one request when its candidates are published: the loaded states, the
      mappings of model names and the name the client sent. */
  datatype States = States(targets: map<string, State>, mappers: Mappers, clientModel: string)

  function StateOf(states: States, c: Candidate): State {
    if c.Key() in states.targets then states.targets[c.Key()] else State(0, CLEAN)
  }

  ghost function NameOf(states: States, c: Candidate): string {
    Rewrite(states.mappers, c.targetId, states.clientModel)
  }

  /** Provider candidates take no part in passive health. */
  function VerdictOf(states: States, c: Candidate, now: int): Verdict {
    if c.kind == Provider then Normal else Judge(StateOf(states, c).health, now)
  }

  lemma JudgedWindow(states: States, c: Candidate, now: int)
    ensures var v := VerdictOf(states, c, now); v.Recovering? ==> 0 < v.left && 0 < v.window
  {
  }

  /** The part of the recovery window that is left. */
  function FractionOf(states: States, c: Candidate, now: int): (f: real)
    ensures f > 0.0 <==> VerdictOf(states, c, now).Recovering?
    ensures f >= 0.0
  {
    JudgedWindow(states, c, now);
    match VerdictOf(states, c, now)
    case Recovering(left, window) =>
      PositiveFraction(left, window);
      left as real / window as real
    case _ => 0.0
  }

  lemma PositiveFraction(left: int, window: int)
    requires 0 < left && 0 < window
    ensures left as real / window as real > 0.0
  {
  }

  /** The highest load among the candidates that are not ejected. */
  function MaxLoad(states: States, specs: seq<Candidate>, now: int): (m: nat)
  {
    if specs == [] then 0
    else
      var rest, c := MaxLoad(states, specs[..|specs| - 1], now), specs[|specs| - 1];
      if VerdictOf(states, c, now).Ejected? || StateOf(states, c).inflight <= rest then rest
      else StateOf(states, c).inflight
  }

  /** A candidate as it is published when the busiest one has `maxLoad` requests. */
  ghost function Dressed(states: States, c: Candidate, now: int, maxLoad: nat): Candidate {
    c.(modelName := NameOf(states, c),
       inflight := StateOf(states, c).inflight,
       penalty := FractionOf(states, c, now) * (maxLoad as real + 1.0),
       probation := VerdictOf(states, c, now).Recovering?)
  }

  /** The candidates that are not ejected, in configured order. */
  ghost function Alive(states: States, specs: seq<Candidate>, now: int, maxLoad: nat): seq<Candidate> {
    if specs == [] then []
    else
      var rest, c := Alive(states, specs[..|specs| - 1], now, maxLoad), specs[|specs| - 1];
      if VerdictOf(states, c, now).Ejected? then rest else rest + [Dressed(states, c, now, maxLoad)]
  }

  ghost function Everybody(states: States, specs: seq<Candidate>, now: int, maxLoad: nat): (all: seq<Candidate>)
    ensures |all| == |specs|
  {
    seq(|specs|, i requires 0 <= i < |specs| => Dressed(states, specs[i], now, maxLoad))
  }

  ghost function Published(states: States, specs: seq<Candidate>, now: int, failOpen: bool): seq<Candidate> {
    var maxLoad := MaxLoad(states, specs, now);
    var alive := Alive(states, specs, now, maxLoad);
    if alive == [] && failOpen then Everybody(states, specs, now, maxLoad) else alive
  }

  // ----- the loops -----

  datatype Item = Item(c: Candidate, ejected: bool)

  ghost function ItemOf(states: States, c: Candidate, now: int): Item {
    Item(c.(modelName := NameOf(states, c), inflight := StateOf(states, c).inflight,
            penalty := FractionOf(states, c, now), probation := VerdictOf(states, c, now).Recovering?),
         VerdictOf(states, c, now).Ejected?)
  }

  ghost predicate Inspected(s: Item, states: States, c: Candidate, now: int) {
    s == ItemOf(states, c, now)
  }

  lemma MaxLoadSnoc(states: States, specs: seq<Candidate>, i: nat, now: int)
    requires i < |specs|
    ensures var m, c := MaxLoad(states, specs[..i], now), specs[i];
      MaxLoad(states, specs[..i + 1], now)
      == if VerdictOf(states, c, now).Ejected? || StateOf(states, c).inflight <= m then m
         else StateOf(states, c).inflight
  {
    assert specs[..i + 1][..i] == specs[..i];
  }

  /** One candidate with its state; the penalty is still a fraction. */
  method InspectOne(states: States, c: Candidate, now: int) returns (s: Item)
    ensures s == ItemOf(states, c, now)
    ensures s.ejected == VerdictOf(states, c, now).Ejected? && s.c.inflight == StateOf(states, c).inflight
  {
    var name := ResolveCandidateModel(states.mappers, c.targetId, states.clientModel);
    OneName(GroupOf(states.mappers, c.targetId), states.clientModel, name, NameOf(states, c));
    var state := StateOf(states, c);
    s := Item(c.(modelName := name, inflight := state.inflight, penalty := 0.0, probation := false), false);
    if c.kind != Provider {
      var h := state.health;
      if now < h.ejectedUntil {
        s := s.(ejected := true);
      } else if h.rampUntil > h.ejectedUntil && now < h.rampUntil {
        var left := (h.rampUntil - now) as real / (h.rampUntil - h.ejectedUntil) as real;
        s := s.(c := s.c.(penalty := left, probation := true));
      }
    }
  }

  /** First loop: read the state of every candidate and track the maximum. */
  method Inspect(states: States, specs: seq<Candidate>, now: int) returns (items: array<Item>, maxLoad: nat)
    ensures fresh(items) && items.Length == |specs|
    ensures forall i | 0 <= i < |specs| :: Inspected(items[i], states, specs[i], now)
    ensures maxLoad == MaxLoad(states, specs, now)
  {
    items := new Item[|specs|](i requires 0 <= i < |specs| => Item(specs[i], false));
    maxLoad := 0;
    for i := 0 to |specs|
      invariant forall j | 0 <= j < i :: Inspected(items[j], states, specs[j], now)
      invariant maxLoad == MaxLoad(states, specs[..i], now)
    {
      var s := InspectOne(states, specs[i], now);
      MaxLoadSnoc(states, specs, i, now);
      if !s.ejected && s.c.inflight > maxLoad {
        maxLoad := s.c.inflight;
      }
      items[i] := s;
      assert Inspected(s, states, specs[i], now);
    }
    assert specs[..|specs|] == specs;
  }

  /** Second loop: turn fractions into load, in place. */
  method Rescale(items: array<Item>, maxLoad: nat)
    modifies items
    ensures forall i | 0 <= i < items.Length :: items[i] == Rescaled(old(items[i]), maxLoad)
  {
    for i := 0 to items.Length
      invariant forall j | 0 <= j < i :: items[j] == Rescaled(old(items[j]), maxLoad)
      invariant forall j | i <= j < items.Length :: items[j] == old(items[j])
    {
      if items[i].c.penalty > 0.0 {
        items[i] := items[i].(c := items[i].c.(penalty := items[i].c.penalty * (maxLoad as real + 1.0)));
      }
    }
  }

  function Rescaled(s: Item, maxLoad: nat): Item {
    if s.c.penalty > 0.0 then s.(c := s.c.(penalty := s.c.penalty * (maxLoad as real + 1.0))) else s
  }

  lemma RescaledIsDressed(states: States, c: Candidate, now: int, maxLoad: nat)
    ensures Rescaled(ItemOf(states, c, now), maxLoad)
         == Item(Dressed(states, c, now, maxLoad), VerdictOf(states, c, now).Ejected?)
  {
    if FractionOf(states, c, now) == 0.0 {
      assert 0.0 * (maxLoad as real + 1.0) == 0.0;
    }
  }

  /** The items after both loops. */
  ghost predicate Ready(items: array<Item>, states: States, specs: seq<Candidate>, now: int, maxLoad: nat)
    reads items
  {
    && items.Length == |specs|
    && forall i | 0 <= i < |specs| ::
         items[i] == Item(Dressed(states, specs[i], now, maxLoad), VerdictOf(states, specs[i], now).Ejected?)
  }

  method DropEjected(items: array<Item>, ghost states: States, ghost specs: seq<Candidate>, ghost now: int,
                     ghost maxLoad: nat)
    returns (alive: seq<Candidate>)
    requires Ready(items, states, specs, now, maxLoad)
    ensures alive == Alive(states, specs, now, maxLoad)
  {
    alive := [];
    for i := 0 to items.Length
      invariant alive == Alive(states, specs[..i], now, maxLoad)
    {
      assert specs[..i + 1][..i] == specs[..i];
      if !items[i].ejected {
        alive := alive + [items[i].c];
      }
    }
    assert specs[..|specs|] == specs;
  }

  method KeepAll(items: array<Item>, ghost states: States, ghost specs: seq<Candidate>, ghost now: int,
                 ghost maxLoad: nat)
    returns (all: seq<Candidate>)
    requires Ready(items, states, specs, now, maxLoad)
    ensures all == Everybody(states, specs, now, maxLoad)
  {
    all := [];
    for i := 0 to items.Length
      invariant |all| == i && forall j | 0 <= j < i :: all[j] == items[j].c
    {
      all := all + [items[i].c];
    }
  }

  method BuildCandidateSet(states: States, specs: seq<Candidate>, now: int, failOpen: bool)
    returns (out: seq<Candidate>)
    ensures out == Published(states, specs, now, failOpen)
  {
    var items, maxLoad := Inspect(states, specs, now);
    Rescale(items, maxLoad);
    forall i | 0 <= i < |specs|
      ensures items[i] == Item(Dressed(states, specs[i], now, maxLoad), VerdictOf(states, specs[i], now).Ejected?)
    {
      RescaledIsDressed(states, specs[i], now, maxLoad);
    }
    out := DropEjected(items, states, specs, now, maxLoad);
    if out == [] && failOpen {
      out := KeepAll(items, states, specs, now, maxLoad);
    }
  }

  // ----- who is published -----

  /** Everybody who is not ejected is published. */
  lemma {:induction false} AliveHas(states: States, specs: seq<Candidate>, now: int, maxLoad: nat, i: nat)
    requires i < |specs| && !VerdictOf(states, specs[i], now).Ejected?
    ensures Dressed(states, specs[i], now, maxLoad) in Alive(states, specs, now, maxLoad)
  {
    var n := |specs| - 1;
    if i < n {
      AliveHas(states, specs[..n], now, maxLoad, i);
    }
  }

  lemma {:induction false} AliveFrom(states: States, specs: seq<Candidate>, now: int, maxLoad: nat, p: nat)
    returns (i: nat)
    requires p < |Alive(states, specs, now, maxLoad)|
    ensures i < |specs| && !VerdictOf(states, specs[i], now).Ejected?
    ensures Alive(states, specs, now, maxLoad)[p] == Dressed(states, specs[i], now, maxLoad)
  {
    var n := |specs| - 1;
    var rest := Alive(states, specs[..n], now, maxLoad);
    if p < |rest| {
      i := AliveFrom(states, specs[..n], now, maxLoad, p);
    } else {
      i := n;
    }
  }

  predicate AllEjected(states: States, specs: seq<Candidate>, now: int) {
    forall i | 0 <= i < |specs| :: VerdictOf(states, specs[i], now).Ejected?
  }

  /** NO EJECTED CANDIDATE IS PUBLISHED unless all are ejected and failing open is on; then
      everybody is. Every published candidate stems from a configured one. */
  lemma PublishedFrom(states: States, specs: seq<Candidate>, now: int, failOpen: bool, p: nat) returns (i: nat)
    requires p < |Published(states, specs, now, failOpen)|
    ensures i < |specs|
    ensures Published(states, specs, now, failOpen)[p] == Dressed(states, specs[i], now, MaxLoad(states, specs, now))
    ensures VerdictOf(states, specs[i], now).Ejected? ==> failOpen && AllEjected(states, specs, now)
  {
    var maxLoad := MaxLoad(states, specs, now);
    if Alive(states, specs, now, maxLoad) == [] && failOpen {
      i := p;
      forall j | 0 <= j < |specs|
        ensures VerdictOf(states, specs[j], now).Ejected?
      {
        if !VerdictOf(states, specs[j], now).Ejected? {
          AliveHas(states, specs, now, maxLoad, j);
        }
      }
    } else {
      i := AliveFrom(states, specs, now, maxLoad, p);
    }
  }

  /** And nobody who is healthy, or may fail open, is left out. */
  lemma PublishedHas(states: States, specs: seq<Candidate>, now: int, failOpen: bool, i: nat)
    requires i < |specs|
    requires !VerdictOf(states, specs[i], now).Ejected? || (failOpen && AllEjected(states, specs, now))
    ensures Dressed(states, specs[i], now, MaxLoad(states, specs, now)) in Published(states, specs, now, failOpen)
  {
    var maxLoad := MaxLoad(states, specs, now);
    var alive := Alive(states, specs, now, maxLoad);
    if VerdictOf(states, specs[i], now).Ejected? {
      if alive != [] {
        var _ := AliveFrom(states, specs, now, maxLoad, 0);
      }
      assert Everybody(states, specs, now, maxLoad)[i] == Dressed(states, specs[i], now, maxLoad);
    } else {
      AliveHas(states, specs, now, maxLoad, i);
    }
  }

  lemma {:induction false} LoadBelowMax(states: States, specs: seq<Candidate>, now: int, i: nat)
    requires i < |specs| && !VerdictOf(states, specs[i], now).Ejected?
    ensures StateOf(states, specs[i]).inflight <= MaxLoad(states, specs, now)
  {
    var n := |specs| - 1;
    if i < n {
      LoadBelowMax(states, specs[..n], now, i);
    }
  }

  // ----- the recovery penalty over time -----

  /** What the filter adds to a candidate with record `h` when the busiest has `maxLoad`. */
  function PenaltyAt(h: Health, now: int, maxLoad: nat): real {
    var v := Judge(h, now);
    if v.Recovering? && v.window != 0 then v.left as real / v.window as real * (maxLoad as real + 1.0) else 0.0
  }

  lemma DressedPenalty(states: States, c: Candidate, now: int, maxLoad: nat)
    requires c.kind != Provider
    ensures Dressed(states, c, now, maxLoad).penalty == PenaltyAt(StateOf(states, c).health, now, maxLoad)
  {
    if !VerdictOf(states, c, now).Recovering? {
      assert 0.0 * (maxLoad as real + 1.0) == 0.0;
    }
  }

  /** LINEAR RECOVERY. For fixed loads the penalty starts at the highest load plus one when the
      ejection ends, is zero from the end of the ramp on, and in between every stretch of `d`
      milliseconds takes off the same amount. */
  lemma PenaltyFallsLinearly(h: Health, t: int, d: nat, maxLoad: nat)
    requires h.ejectedUntil < h.rampUntil && h.ejectedUntil <= t && t + d <= h.rampUntil
    ensures var p0 := maxLoad as real + 1.0;
      && PenaltyAt(h, h.ejectedUntil, maxLoad) == p0
      && PenaltyAt(h, h.rampUntil, maxLoad) == 0.0
      && PenaltyAt(h, t, maxLoad) - PenaltyAt(h, t + d, maxLoad)
         == d as real / (h.rampUntil - h.ejectedUntil) as real * p0
  {
    var window := (h.rampUntil - h.ejectedUntil) as real;
    var p0 := maxLoad as real + 1.0;
    Ends(window, p0);
    Slope(h, h.ejectedUntil, maxLoad);
    Slope(h, h.rampUntil, maxLoad);
    Slope(h, t, maxLoad);
    Slope(h, t + d, maxLoad);
    SplitFraction((h.rampUntil - t) as real, (h.rampUntil - t - d) as real, window, p0);
    assert (h.rampUntil - t) as real - (h.rampUntil - t - d) as real == d as real;
  }

  lemma Ends(window: real, p0: real)
    requires window > 0.0
    ensures window / window * p0 == p0 && 0.0 / window * p0 == 0.0
  {
    assert window / window == 1.0 && 0.0 / window == 0.0;
  }

  lemma Slope(h: Health, t: int, maxLoad: nat)
    requires h.ejectedUntil < h.rampUntil && h.ejectedUntil <= t <= h.rampUntil
    ensures PenaltyAt(h, t, maxLoad)
         == (h.rampUntil - t) as real / (h.rampUntil - h.ejectedUntil) as real * (maxLoad as real + 1.0)
  {
  }

  lemma SplitFraction(a: real, b: real, window: real, p0: real)
    requires window > 0.0
    ensures a / window * p0 - b / window * p0 == (a - b) / window * p0
  {
    assert a / window - b / window == (a - b) / window;
  }
}
