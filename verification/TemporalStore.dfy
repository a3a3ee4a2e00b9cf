/**
  The temporal fact store: a registry of temporal predicates, each under the snapshot or
  the versioned data model, and a table of facts with validity intervals.
  */
module TemporalStore {
  import opened Prelude

  type Time = int

  datatype DataModel = Snapshot | Versioned

  /** Valid from `start` on, before `end` if there is one. */
  datatype Fact = Fact(s: int, p: int, o: int, g: int, start: Time, end: Option<Time>) {
    predicate ValidAt(t: Time) {
      start <= t && (end.None? || end.value > t)
    }

    predicate About(s': int, p': int, g': int) {
      s == s' && p == p' && g == g'
    }

    predicate OpenFor(s': int, p': int, g': int) {
      About(s', p', g') && end.None?
    }
  }

  datatype State = State(registry: map<int, DataModel>, facts: seq<Fact>)

  datatype Error = OtherModel(model: DataModel) | HasFacts(n: nat) | NotTemporal(p: int)

  datatype Command =
    | Mark(p: int, model: DataModel)
    | Unmark(p: int)
    | Insert(s: int, p: int, o: int, g: int, start: Time, end: Option<Time>)
    | Retract(s: int, p: int, g: int, now: Time)

  const EMPTY: State := State(map[], [])

  // ------------------------------------------------------------------------------
  // Steps
  // ------------------------------------------------------------------------------

  function CloseOne(f: Fact, s: int, p: int, g: int, t: Time): Fact {
    if f.OpenFor(s, p, g) then Fact(f.s, f.p, f.o, f.g, f.start, Some(t)) else f
  }

  /** Ends every open row of the subject, predicate and graph. */
  function Close(facts: seq<Fact>, s: int, p: int, g: int, t: Time): (r: seq<Fact>)
    ensures |r| == |facts| && forall i :: 0 <= i < |facts| ==> r[i] == CloseOne(facts[i], s, p, g, t)
  {
    if facts == [] then [] else Close(facts[..|facts| - 1], s, p, g, t) + [CloseOne(facts[|facts| - 1], s, p, g, t)]
  }

  function CountAbout(facts: seq<Fact>, p: int): nat {
    if facts == [] then 0 else CountAbout(facts[..|facts| - 1], p) + if facts[|facts| - 1].p == p then 1 else 0
  }

  function CountOpen(facts: seq<Fact>, s: int, p: int, g: int): nat {
    if facts == [] then 0 else
      CountOpen(facts[..|facts| - 1], s, p, g) + if facts[|facts| - 1].OpenFor(s, p, g) then 1 else 0
  }

  function Outcome(st: State, c: Command): Result<State, Error> {
    match c
    case Mark(p, model) =>
      if p in st.registry && st.registry[p] != model then Err(OtherModel(st.registry[p]))
      else Ok(State(st.registry[p := model], st.facts))
    case Unmark(p) =>
      if CountAbout(st.facts, p) > 0 then Err(HasFacts(CountAbout(st.facts, p)))
      else Ok(State(st.registry - {p}, st.facts))
    case Insert(s, p, o, g, start, end) =>
      if p !in st.registry then Err(NotTemporal(p)) else
        var closed := if st.registry[p].Snapshot? then Close(st.facts, s, p, g, start) else st.facts;
        Ok(State(st.registry, closed + [Fact(s, p, o, g, start, end)]))
    case Retract(s, p, g, now) =>
      if p !in st.registry then Err(NotTemporal(p)) else Ok(State(st.registry, Close(st.facts, s, p, g, now)))
  }

  function Step(st: State, c: Command): State {
    if Outcome(st, c).Ok? then Outcome(st, c).value else st
  }

  function Run(st: State, commands: seq<Command>): State {
    if commands == [] then st else Step(Run(st, commands[..|commands| - 1]), commands[|commands| - 1])
  }

  // ------------------------------------------------------------------------------
  // The table
  // ------------------------------------------------------------------------------

  class FactTable {
    var registry: map<int, DataModel>
    var facts: seq<Fact>

    ghost function Current(): State
      reads this
    {
      State(registry, facts)
    }

    constructor ()
      ensures Current() == EMPTY
    {
      registry, facts := map[], [];
    }

    /** UPDATE ... SET valid_to = t WHERE the row is open; returns the number of rows. */
    method CloseOpen(s: int, p: int, g: int, t: Time) returns (n: nat)
      modifies this`facts
      ensures facts == Close(old(facts), s, p, g, t) && n == CountOpen(old(facts), s, p, g)
    {
      var rows: seq<Fact> := [];
      n := 0;
      for i := 0 to |facts|
        invariant facts == old(facts)
        invariant rows == Close(facts[..i], s, p, g, t) && n == CountOpen(facts[..i], s, p, g)
      {
        assert facts[..i + 1][..i] == facts[..i];
        rows := rows + [CloseOne(facts[i], s, p, g, t)];
        n := n + if facts[i].OpenFor(s, p, g) then 1 else 0;
      }
      assert facts[..|facts|] == facts;
      facts := rows;
    }

    method MarkTemporal(p: int, model: DataModel) returns (error: Option<Error>)
      modifies this
      ensures Current() == Step(old(Current()), Mark(p, model))
      ensures error.None? <==> Outcome(old(Current()), Mark(p, model)).Ok?
    {
      if p in registry {
        if registry[p] != model {
          return Some(OtherModel(registry[p]));
        }
        assert registry[p := model] == registry;
        return None;
      }
      registry := registry[p := model];
      error := None;
    }

    method UnmarkTemporal(p: int) returns (error: Option<Error>)
      modifies this
      ensures Current() == Step(old(Current()), Unmark(p))
      ensures error.None? <==> Outcome(old(Current()), Unmark(p)).Ok?
    {
      var count := 0;
      for i := 0 to |facts|
        invariant Current() == old(Current()) && count == CountAbout(facts[..i], p)
      {
        assert facts[..i + 1][..i] == facts[..i];
        count := count + if facts[i].p == p then 1 else 0;
      }
      assert facts[..|facts|] == facts;
      if count > 0 {
        return Some(HasFacts(count));
      }
      registry := registry - {p};
      error := None;
    }

    method InsertTripleTemporal(s: int, p: int, o: int, g: int, start: Time, end: Option<Time>) returns (error: Option<Error>)
      modifies this
      ensures Current() == Step(old(Current()), Insert(s, p, o, g, start, end))
      ensures error.None? <==> Outcome(old(Current()), Insert(s, p, o, g, start, end)).Ok?
    {
      if p !in registry {
        return Some(NotTemporal(p));
      }
      if registry[p].Snapshot? {
        var _ := CloseOpen(s, p, g, start);
      }
      facts := facts + [Fact(s, p, o, g, start, end)];
      error := None;
    }

    method RetractTripleTemporal(s: int, p: int, g: int, now: Time) returns (r: Result<nat, Error>)
      modifies this
      ensures Current() == Step(old(Current()), Retract(s, p, g, now))
      ensures r.Ok? <==> Outcome(old(Current()), Retract(s, p, g, now)).Ok?
      ensures r.Ok? ==> r.value == CountOpen(old(facts), s, p, g)
    {
      if p !in registry {
        return Err(NotTemporal(p));
      }
      var n := CloseOpen(s, p, g, now);
      r := Ok(n);
    }
  }

  // ------------------------------------------------------------------------------
  // What every run keeps
  // ------------------------------------------------------------------------------

  /** A predicate with facts is registered; under the snapshot model it has one open row per subject and graph. */
  ghost predicate Consistent(st: State) {
    && (forall i :: 0 <= i < |st.facts| ==> st.facts[i].p in st.registry)
    && forall i, j :: 0 <= i < j < |st.facts| && st.registry[st.facts[j].p].Snapshot? ==>
         !(st.facts[j].end.None? && st.facts[i].OpenFor(st.facts[j].s, st.facts[j].p, st.facts[j].g))
  }

  lemma {:induction false} NoFactsCounted(facts: seq<Fact>, p: int)
    ensures CountAbout(facts, p) == 0 <==> forall i :: 0 <= i < |facts| ==> facts[i].p != p
  {
    if facts != [] {
      NoFactsCounted(facts[..|facts| - 1], p);
      assert forall i :: 0 <= i < |facts| - 1 ==> facts[..|facts| - 1][i] == facts[i];
    }
  }

  lemma StepKeepsConsistent(st: State, c: Command)
    requires Consistent(st)
    ensures Consistent(Step(st, c))
    ensures forall i :: 0 <= i < |st.facts| ==>
              st.facts[i].p in Step(st, c).registry && Step(st, c).registry[st.facts[i].p] == st.registry[st.facts[i].p]
  {
    if c.Unmark? {
      NoFactsCounted(st.facts, c.p);
    }
  }

  lemma {:induction false} RunsStayConsistent(st: State, commands: seq<Command>)
    requires Consistent(st)
    ensures Consistent(Run(st, commands))
  {
    if commands != [] {
      RunsStayConsistent(st, commands[..|commands| - 1]);
      StepKeepsConsistent(Run(st, commands[..|commands| - 1]), commands[|commands| - 1]);
    }
  }

  lemma StepKeepsRows(st: State, c: Command)
    ensures |st.facts| <= |Step(st, c).facts|
    ensures forall i :: 0 <= i < |st.facts| ==> Step(st, c).facts[i].p == st.facts[i].p
  {}

  /** Once a predicate has facts, no run changes its data model or unregisters it. */
  lemma {:induction false} DataModelIsFixed(st: State, commands: seq<Command>, i: nat)
    requires Consistent(st) && i < |st.facts|
    ensures |st.facts| <= |Run(st, commands).facts| && Run(st, commands).facts[i].p == st.facts[i].p
    ensures var p := st.facts[i].p;
            p in st.registry && p in Run(st, commands).registry && Run(st, commands).registry[p] == st.registry[p]
  {
    if commands != [] {
      var before := commands[..|commands| - 1];
      DataModelIsFixed(st, before, i);
      RunsStayConsistent(st, before);
      StepKeepsConsistent(Run(st, before), commands[|commands| - 1]);
      StepKeepsRows(Run(st, before), commands[|commands| - 1]);
    }
  }

  // ------------------------------------------------------------------------------
  // History is immutable
  // ------------------------------------------------------------------------------

  datatype Triple = Triple(s: int, p: int, o: int)

  /** The bag of triples of graph `g` valid at time `t`. */
  function View(facts: seq<Fact>, g: int, t: Time): multiset<Triple> {
    if facts == [] then multiset{} else View(facts[..|facts| - 1], g, t) + Shown(facts[|facts| - 1], g, t)
  }

  function Shown(f: Fact, g: int, t: Time): multiset<Triple> {
    if f.g == g && f.ValidAt(t) then multiset{Triple(f.s, f.p, f.o)} else multiset{}
  }

  lemma {:induction false} CloseKeepsPast(facts: seq<Fact>, s: int, p: int, g: int, t0: Time, graph: int, t: Time)
    requires t < t0
    ensures View(Close(facts, s, p, g, t0), graph, t) == View(facts, graph, t)
  {
    if facts != [] {
      CloseKeepsPast(facts[..|facts| - 1], s, p, g, t0, graph, t);
      var closed := Close(facts, s, p, g, t0);
      assert closed[..|facts| - 1] == Close(facts[..|facts| - 1], s, p, g, t0);
    }
  }

  /** The step takes effect at time `t` or later. */
  predicate DatedAfter(c: Command, t: Time) {
    match c
    case Insert(_, _, _, _, start, _) => start > t
    case Retract(_, _, _, now) => now > t
    case _ => true
  }

  lemma StepKeepsPast(st: State, c: Command, graph: int, t: Time)
    requires DatedAfter(c, t)
    ensures View(Step(st, c).facts, graph, t) == View(st.facts, graph, t)
  {
    match c
    case Insert(s, p, o, g, start, end) =>
      CloseKeepsPast(st.facts, s, p, g, start, graph, t);
      if Outcome(st, c).Ok? {
        var closed := if st.registry[p].Snapshot? then Close(st.facts, s, p, g, start) else st.facts;
        assert Step(st, c).facts[..|closed|] == closed;
      }
    case Retract(s, p, g, now) => CloseKeepsPast(st.facts, s, p, g, now, graph, t);
    case _ =>
  }

  /** Whatever happens later, the view of a past moment stays the same, for both data models. */
  lemma {:induction false} HistoryIsImmutable(st: State, commands: seq<Command>, graph: int, t: Time)
    requires forall i :: 0 <= i < |commands| ==> DatedAfter(commands[i], t)
    ensures View(Run(st, commands).facts, graph, t) == View(st.facts, graph, t)
  {
    if commands != [] {
      HistoryIsImmutable(st, commands[..|commands| - 1], graph, t);
      StepKeepsPast(Run(st, commands[..|commands| - 1]), commands[|commands| - 1], graph, t);
    }
  }

  // ------------------------------------------------------------------------------
  // What a command changes
  // ------------------------------------------------------------------------------

  /** The triples of the open rows of the key that hold at time `t`. */
  function OpenAt(facts: seq<Fact>, s: int, p: int, g: int, t: Time): multiset<Triple> {
    if facts == [] then multiset{} else OpenAt(facts[..|facts| - 1], s, p, g, t) + OpenShown(facts[|facts| - 1], s, p, g, t)
  }

  function OpenShown(f: Fact, s: int, p: int, g: int, t: Time): multiset<Triple> {
    if f.OpenFor(s, p, g) then Shown(f, g, t) else multiset{}
  }

  lemma {:induction false} OpenIsInView(facts: seq<Fact>, s: int, p: int, g: int, t: Time)
    ensures OpenAt(facts, s, p, g, t) <= View(facts, g, t)
    ensures forall x :: x in OpenAt(facts, s, p, g, t) ==> x.s == s && x.p == p
  {
    if facts != [] {
      OpenIsInView(facts[..|facts| - 1], s, p, g, t);
    }
  }

  /** What closing the open rows of the key at `t0` ends. */
  function Ended(facts: seq<Fact>, s: int, p: int, g: int, t0: Time, graph: int, t: Time): multiset<Triple> {
    if graph == g && t >= t0 then OpenAt(facts, s, p, g, t) else multiset{}
  }

  /** Closing takes the open rows of the key out of the view from `t0` on, and changes nothing else. */
  lemma CloseEnds(facts: seq<Fact>, s: int, p: int, g: int, t0: Time, graph: int, t: Time)
    ensures View(Close(facts, s, p, g, t0), graph, t) == View(facts, graph, t) - Ended(facts, s, p, g, t0, graph, t)
  {
    if t < t0 {
      CloseKeepsPast(facts, s, p, g, t0, graph, t);
    } else if graph != g {
      CloseKeepsGraph(facts, s, p, g, t0, graph, t);
    } else {
      CloseTakes(facts, s, p, g, t0, t);
    }
  }

  lemma {:induction false} CloseKeepsGraph(facts: seq<Fact>, s: int, p: int, g: int, t0: Time, graph: int, t: Time)
    requires graph != g
    ensures View(Close(facts, s, p, g, t0), graph, t) == View(facts, graph, t)
  {
    if facts != [] {
      var n := |facts| - 1;
      CloseKeepsGraph(facts[..n], s, p, g, t0, graph, t);
      CloseLast(facts, s, p, g, t0);
    }
  }

  lemma CloseLast(facts: seq<Fact>, s: int, p: int, g: int, t0: Time)
    requires facts != []
    ensures var n := |facts| - 1;
            && Close(facts, s, p, g, t0)[..n] == Close(facts[..n], s, p, g, t0)
            && Close(facts, s, p, g, t0)[n] == CloseOne(facts[n], s, p, g, t0)
  {
  }

  lemma {:induction false} CloseTakes(facts: seq<Fact>, s: int, p: int, g: int, t0: Time, t: Time)
    requires t >= t0
    ensures View(Close(facts, s, p, g, t0), g, t) == View(facts, g, t) - OpenAt(facts, s, p, g, t)
  {
    if facts != [] {
      var n := |facts| - 1;
      CloseTakes(facts[..n], s, p, g, t0, t);
      CloseLast(facts, s, p, g, t0);
      OpenIsInView(facts[..n], s, p, g, t);
      CloseShown(facts[n], s, p, g, t0, t);
      TakenTogether(View(facts[..n], g, t), OpenAt(facts[..n], s, p, g, t), Shown(facts[n], g, t), OpenShown(facts[n], s, p, g, t));
    }
  }

  lemma CloseShown(f: Fact, s: int, p: int, g: int, t0: Time, t: Time)
    requires t >= t0
    ensures OpenShown(f, s, p, g, t) <= Shown(f, g, t)
    ensures Shown(CloseOne(f, s, p, g, t0), g, t) == Shown(f, g, t) - OpenShown(f, s, p, g, t)
  {
  }

  lemma TakenTogether(view: multiset<Triple>, open: multiset<Triple>, row: multiset<Triple>, taken: multiset<Triple>)
    requires open <= view && taken <= row
    ensures (view + row) - (open + taken) == (view - open) + (row - taken)
  {
  }

  /** The triple, at the moments and in the graph in which it was inserted. */
  function Holding(s: int, p: int, o: int, g: int, start: Time, end: Option<Time>, graph: int, t: Time): multiset<Triple> {
    if graph == g && start <= t && (end.None? || t < end.value) then multiset{Triple(s, p, o)} else multiset{}
  }

  /**
    An insertion adds its triple to the views of its graph from `start` to `end`.  Under the
    snapshot model the rows of the key that were open are gone from `start` on; nothing else
    changes, at any moment, in any graph.
    */
  lemma InsertShows(st: State, s: int, p: int, o: int, g: int, start: Time, end: Option<Time>, graph: int, t: Time)
    requires p in st.registry
    ensures var after := Step(st, Insert(s, p, o, g, start, end));
            var ended := if st.registry[p].Snapshot? then Ended(st.facts, s, p, g, start, graph, t) else multiset{};
            && View(after.facts, graph, t) == (View(st.facts, graph, t) - ended) + Holding(s, p, o, g, start, end, graph, t)
            && after.registry == st.registry
  {
    var after := Step(st, Insert(s, p, o, g, start, end));
    if st.registry[p].Snapshot? {
      CloseEnds(st.facts, s, p, g, start, graph, t);
      ViewOneMore(Close(st.facts, s, p, g, start), after.facts, Fact(s, p, o, g, start, end), graph, t);
    } else {
      ViewOneMore(st.facts, after.facts, Fact(s, p, o, g, start, end), graph, t);
    }
  }

  lemma ViewOneMore(facts: seq<Fact>, more: seq<Fact>, f: Fact, graph: int, t: Time)
    requires more == facts + [f]
    ensures View(more, graph, t) == View(facts, graph, t) + Holding(f.s, f.p, f.o, f.g, f.start, f.end, graph, t)
  {
    assert more[..|facts|] == facts;
  }

  /** A retraction leaves no row of the key open, and takes those that were out of the views from then on. */
  lemma RetractEnds(st: State, s: int, p: int, g: int, now: Time, graph: int, t: Time)
    requires p in st.registry
    ensures var after := Step(st, Retract(s, p, g, now));
            && (forall f :: f in after.facts ==> !f.OpenFor(s, p, g))
            && View(after.facts, graph, t) == View(st.facts, graph, t) - Ended(st.facts, s, p, g, now, graph, t)
            && after.registry == st.registry
  {
    var closed := Close(st.facts, s, p, g, now);
    assert Step(st, Retract(s, p, g, now)) == State(st.registry, closed);
    CloseEnds(st.facts, s, p, g, now, graph, t);
    NoneOpen(st.facts, s, p, g, now);
  }

  lemma NoneOpen(facts: seq<Fact>, s: int, p: int, g: int, t0: Time)
    ensures forall f :: f in Close(facts, s, p, g, t0) ==> !f.OpenFor(s, p, g)
  {
  }

  /** A retraction reports the number of rows that were open. */
  lemma {:induction false} CountOpenCounts(facts: seq<Fact>, s: int, p: int, g: int)
    ensures CountOpen(facts, s, p, g) == |set i | 0 <= i < |facts| && facts[i].OpenFor(s, p, g)|
  {
    if facts != [] {
      var n := |facts| - 1;
      CountOpenCounts(facts[..n], s, p, g);
      var before := set i | 0 <= i < n && facts[..n][i].OpenFor(s, p, g);
      var all := set i | 0 <= i < |facts| && facts[i].OpenFor(s, p, g);
      assert all == before + if facts[n].OpenFor(s, p, g) then {n} else {};
    }
  }

  /** Registration decides what insertions are accepted and how: a predicate is registered under its model until it is removed. */
  lemma RegistryChanges(st: State, p: int, model: DataModel, other: int)
    ensures var after := Step(st, Mark(p, model));
            && (Outcome(st, Mark(p, model)).Err? <==> p in st.registry && st.registry[p] != model)
            && (Outcome(st, Mark(p, model)).Ok? ==> p in after.registry && after.registry[p] == model)
            && after.facts == st.facts
            && (other != p ==> (other in after.registry <==> other in st.registry))
            && (other != p && other in st.registry ==> after.registry[other] == st.registry[other])
    ensures var after := Step(st, Unmark(p));
            && (Outcome(st, Unmark(p)).Err? <==> exists i :: 0 <= i < |st.facts| && st.facts[i].p == p)
            && (Outcome(st, Unmark(p)).Ok? ==> p !in after.registry)
            && after.facts == st.facts
            && (other != p ==> (other in after.registry <==> other in st.registry))
            && (other != p && other in st.registry ==> after.registry[other] == st.registry[other])
  {
    NoFactsCounted(st.facts, p);
  }

  // ------------------------------------------------------------------------------
  // One value at a time
  // ------------------------------------------------------------------------------

  ghost predicate Overlap(f: Fact, h: Fact) {
    exists t :: f.ValidAt(t) && h.ValidAt(t)
  }

  /** At most one row about the subject, predicate and graph is valid at any moment. */
  ghost predicate OneAtATime(facts: seq<Fact>, s: int, p: int, g: int) {
    forall i, j :: 0 <= i < j < |facts| && facts[i].About(s, p, g) && facts[j].About(s, p, g) ==> !Overlap(facts[i], facts[j])
  }

  /** Rows about the key that are over, and were ever valid, end by `t`. */
  ghost predicate OverBy(facts: seq<Fact>, s: int, p: int, g: int, t: Time) {
    forall i :: 0 <= i < |facts| && facts[i].About(s, p, g) && facts[i].end.Some? && facts[i].start < facts[i].end.value
      ==> facts[i].end.value <= t
  }

  lemma CloseKeepsOneAtATime(facts: seq<Fact>, s: int, p: int, g: int, t0: Time)
    requires OneAtATime(facts, s, p, g)
    ensures OneAtATime(Close(facts, s, p, g, t0), s, p, g)
  {
    var closed := Close(facts, s, p, g, t0);
    forall i, j | 0 <= i < j < |closed| && closed[i].About(s, p, g) && closed[j].About(s, p, g)
      ensures !Overlap(closed[i], closed[j])
    {
      assert !Overlap(facts[i], facts[j]);
      assert forall t :: closed[i].ValidAt(t) ==> facts[i].ValidAt(t);
      assert forall t :: closed[j].ValidAt(t) ==> facts[j].ValidAt(t);
    }
  }

  /**
    An open-ended insertion for a snapshot predicate keeps one value at a time exactly when
    every row that is over ends by the start of the new one.
    */
  lemma InsertKeepsOneAtATimeExactlyWhen(st: State, s: int, p: int, o: int, g: int, start: Time)
    requires p in st.registry && st.registry[p].Snapshot? && OneAtATime(st.facts, s, p, g)
    ensures OneAtATime(Step(st, Insert(s, p, o, g, start, None)).facts, s, p, g) <==> OverBy(st.facts, s, p, g, start)
  {
    var closed := Close(st.facts, s, p, g, start);
    var new' := Fact(s, p, o, g, start, None);
    var after := closed + [new'];
    CloseKeepsOneAtATime(st.facts, s, p, g, start);
    if OverBy(st.facts, s, p, g, start) {
      forall i | 0 <= i < |closed| && closed[i].About(s, p, g)
        ensures !Overlap(closed[i], new')
      {
        assert closed[i].end.Some? && (closed[i].start < closed[i].end.value ==> closed[i].end.value <= start);
      }
      assert OneAtATime(after, s, p, g);
    } else {
      var i :| 0 <= i < |st.facts| && st.facts[i].About(s, p, g) && st.facts[i].end.Some?
            && st.facts[i].start < st.facts[i].end.value && st.facts[i].end.value > start;
      var f := st.facts[i];
      var t := if f.start < start then start else f.start;
      assert closed[i] == f && f.ValidAt(t) && new'.ValidAt(t);
      assert Overlap(after[i], after[|closed|]);
    }
  }

  /** The latest moment mentioned so far. */
  ghost predicate Before(facts: seq<Fact>, t: Time) {
    forall i :: 0 <= i < |facts| && facts[i].end.Some? ==> facts[i].end.value <= t
  }

  function Stamp(c: Command, previous: Time): Time {
    match c
    case Insert(_, _, _, _, start, _) => start
    case Retract(_, _, _, now) => now
    case _ => previous
  }

  /** The date of the last dated command. */
  function Clock(commands: seq<Command>, t0: Time): Time {
    if commands == [] then t0 else Stamp(commands[|commands| - 1], Clock(commands[..|commands| - 1], t0))
  }

  /** Commands come in the order of their dates, and insertions are open-ended. */
  ghost predicate Chronological(commands: seq<Command>, t0: Time) {
    forall j :: 0 <= j < |commands| ==>
      && Stamp(commands[j], Clock(commands[..j], t0)) >= Clock(commands[..j], t0)
      && (commands[j].Insert? ==> commands[j].end.None?)
  }

  ghost predicate SnapshotsSingle(st: State) {
    forall s, p, g :: p in st.registry && st.registry[p].Snapshot? ==> OneAtATime(st.facts, s, p, g)
  }

  lemma OtherKeyUntouched(facts: seq<Fact>, s: int, p: int, g: int, t0: Time, s': int, p': int, g': int)
    requires OneAtATime(facts, s', p', g') && (s, p, g) != (s', p', g')
    ensures OneAtATime(Close(facts, s, p, g, t0), s', p', g')
  {
  }

  lemma ChronologicalStep(st: State, c: Command, t0: Time)
    requires Consistent(st) && SnapshotsSingle(st) && Before(st.facts, t0)
    requires Stamp(c, t0) >= t0 && (c.Insert? ==> c.end.None?)
    ensures SnapshotsSingle(Step(st, c)) && Before(Step(st, c).facts, Stamp(c, t0))
  {
    var n := Step(st, c);
    if c.Unmark? {
      NoFactsCounted(st.facts, c.p);
    }
    forall s, p, g | p in n.registry && n.registry[p].Snapshot?
      ensures OneAtATime(n.facts, s, p, g)
    {
      if p !in st.registry {
        assert forall i :: 0 <= i < |n.facts| ==> n.facts[i].p != p;
      } else if c.Insert? && Outcome(st, c).Ok? {
        if (s, p, g) == (c.s, c.p, c.g) {
          InsertKeepsOneAtATimeExactlyWhen(st, s, p, c.o, g, c.start);
        } else {
          var closed := if st.registry[c.p].Snapshot? then Close(st.facts, c.s, c.p, c.g, c.start) else st.facts;
          OtherKeyUntouched(st.facts, c.s, c.p, c.g, c.start, s, p, g);
          assert n.facts == closed + [Fact(c.s, c.p, c.o, c.g, c.start, None)];
        }
      } else if c.Retract? && Outcome(st, c).Ok? {
        if (s, p, g) == (c.s, c.p, c.g) {
          CloseKeepsOneAtATime(st.facts, s, p, g, c.now);
        } else {
          OtherKeyUntouched(st.facts, c.s, c.p, c.g, c.now, s, p, g);
        }
      }
    }
  }

  /** In every chronological run a snapshot predicate has at most one value at any moment. */
  lemma {:induction false} ChronologicalRunsAreSingleValued(commands: seq<Command>, t0: Time)
    requires Chronological(commands, t0)
    ensures SnapshotsSingle(Run(EMPTY, commands)) && Before(Run(EMPTY, commands).facts, Clock(commands, t0))
  {
    if commands != [] {
      var before := commands[..|commands| - 1];
      assert forall j :: 0 <= j < |before| ==> before[..j] == commands[..j];
      ChronologicalRunsAreSingleValued(before, t0);
      RunsStayConsistent(EMPTY, before);
      ChronologicalStep(Run(EMPTY, before), commands[|commands| - 1], Clock(before, t0));
    }
  }

  /** Out of order, two values can hold at once: 7 from 5 on, 8 from 9 on, then 9 from 6 on. */
  lemma OutOfOrderOverlaps()
    ensures
      var s1 := Step(EMPTY, Mark(1, Snapshot));
      var s2 := Step(s1, Insert(0, 1, 7, 0, 5, None));
      var s3 := Step(s2, Insert(0, 1, 8, 0, 9, None));
      var s4 := Step(s3, Insert(0, 1, 9, 0, 6, None));
      !OneAtATime(s4.facts, 0, 1, 0)
  {
    var s1 := Step(EMPTY, Mark(1, Snapshot));
    var s2 := Step(s1, Insert(0, 1, 7, 0, 5, None));
    assert s2.facts == [Fact(0, 1, 7, 0, 5, None)];
    var s3 := Step(s2, Insert(0, 1, 8, 0, 9, None));
    assert s3.facts == [Fact(0, 1, 7, 0, 5, Some(9)), Fact(0, 1, 8, 0, 9, None)];
    var s4 := Step(s3, Insert(0, 1, 9, 0, 6, None));
    assert s4.facts[0] == Fact(0, 1, 7, 0, 5, Some(9)) && s4.facts[2] == Fact(0, 1, 9, 0, 6, None);
    assert s4.facts[0].ValidAt(7) && s4.facts[2].ValidAt(7);
    assert Overlap(s4.facts[0], s4.facts[2]);
  }
}
