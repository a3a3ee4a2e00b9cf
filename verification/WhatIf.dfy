/**
  What-if inference: the hypotheses are written into the store inside a sub-transaction, the
  facts of all head predicates are cleared, inference runs again, and the head facts before
  and after are compared once everything has been rolled back.  What the answer says is stated
  for any inference, and then for one pass of rules.
  */
module WhatIf {
  import opened Prelude
  import opened TripleStore
  import Datalog
  import RuleSql
  import CompiledRules
  import SinglePass

  datatype Diff = Diff(derived: set<Quad>, retracted: set<Quad>)

  function On(v: set<Quad>, preds: set<int>): set<Quad> {
    set q | q in v && q.p in preds
  }

  function Off(v: set<Quad>, preds: set<int>): set<Quad> {
    set q | q in v && q.p !in preds
  }

  /** The entries that parse; the others are ignored. */
  function Parsed(entries: seq<Option<Quad>>): seq<Quad> {
    if entries == [] then []
    else
      var rest := Parsed(entries[..|entries| - 1]);
      match entries[|entries| - 1]
      case None => rest
      case Some(q) => rest + [q]
  }

  // ------------------------------------------------------------------------------
  // The steps, on tables
  // ------------------------------------------------------------------------------

  function InsertAll(t: Tables, qs: seq<Quad>): Tables {
    if qs == [] then t else Inserted(InsertAll(t, qs[..|qs| - 1]), qs[|qs| - 1])
  }

  function DeleteAll(t: Tables, qs: seq<Quad>): Tables {
    if qs == [] then t else Deleted(DeleteAll(t, qs[..|qs| - 1]), qs[|qs| - 1])
  }

  /** Clearing removes delta, main and rare rows and leaves the tombstones. */
  function Cleared(t: Tables, preds: set<int>): Tables {
    t.(main := Off(t.main, preds), delta := Off(t.delta, preds), rare := Off(t.rare, preds))
  }

  /** Every head predicate has dedicated tables, and what is inferred goes to their delta. */
  function Written(t: Tables, preds: set<int>, inferred: set<Quad>): Tables {
    t.(dedicated := t.dedicated + preds, delta := t.delta + On(inferred, preds))
  }

  function Materialized(t: Tables, preds: set<int>, infer: set<Quad> -> set<Quad>): Tables {
    Written(t, preds, infer(t.View()))
  }

  function Speculated(t: Tables, asserts: seq<Quad>, retracts: seq<Quad>, preds: set<int>, infer: set<Quad> -> set<Quad>): Tables {
    Materialized(Cleared(DeleteAll(InsertAll(t, asserts), retracts), preds), preds, infer)
  }

  function Compared(before: set<Quad>, after: set<Quad>, asserted: set<Quad>): Diff {
    Diff(after - before - asserted, before - after)
  }

  // ------------------------------------------------------------------------------
  // The steps, on one set of facts
  // ------------------------------------------------------------------------------

  /** Retractions that have no effect: present in two tables and retracted only once. */
  function Stuck(t: Tables, asserts: seq<Quad>, retracts: seq<Quad>): set<Quad> {
    set q | q in retracts && q in t.main - t.tombs && (q in t.delta || q in asserts) && multiset(retracts)[q] == 1
  }

  /** The facts inference starts from. */
  function Base(t: Tables, asserts: seq<Quad>, retracts: seq<Quad>, preds: set<int>): set<Quad> {
    Off((t.View() + Elements(asserts)) - (Elements(retracts) - Stuck(t, asserts, retracts)), preds)
  }

  lemma {:induction false} InsertAllAdds(t: Tables, qs: seq<Quad>)
    requires t.Valid()
    ensures InsertAll(t, qs).Valid() && InsertAll(t, qs).View() == t.View() + Elements(qs)
    ensures InsertAll(t, qs).main == t.main && InsertAll(t, qs).tombs == t.tombs
    ensures InsertAll(t, qs).dedicated == t.dedicated
    ensures forall q :: q in InsertAll(t, qs).delta <==> q in t.delta || (q in qs && q.p in t.dedicated)
  {
    if qs != [] {
      var n := |qs| - 1;
      InsertAllAdds(t, qs[..n]);
      InsertAdds(InsertAll(t, qs[..n]), qs[n]);
      assert forall q :: q in qs <==> q in qs[..n] || q == qs[n];
    }
  }

  lemma {:induction false} DeleteAllHides(t: Tables, qs: seq<Quad>)
    requires t.Valid()
    ensures DeleteAll(t, qs).Valid()
    ensures forall q :: DeleteAll(t, qs).Doubled(q) <==> t.Doubled(q) && q !in qs
    ensures forall q :: q in DeleteAll(t, qs).View() <==>
              q in t.View() && (q in qs ==> t.Doubled(q) && multiset(qs)[q] == 1)
  {
    if qs != [] {
      var n := |qs| - 1;
      DeleteAllHides(t, qs[..n]);
      DeleteHidesExactlyWhen(DeleteAll(t, qs[..n]), qs[n]);
      assert forall q :: q in qs <==> q in qs[..n] || q == qs[n];
      assert qs == qs[..n] + [qs[n]];
      assert multiset(qs) == multiset(qs[..n]) + multiset{qs[n]};
    }
  }

  lemma ClearedView(t: Tables, preds: set<int>)
    requires t.Valid()
    ensures Cleared(t, preds).Valid() && Cleared(t, preds).View() == Off(t.View(), preds)
    ensures Cleared(t, preds).tombs == t.tombs && Cleared(t, preds).dedicated == t.dedicated
    ensures forall q :: q in Cleared(t, preds).main + Cleared(t, preds).delta + Cleared(t, preds).rare <==>
              q in t.main + t.delta + t.rare && q.p !in preds
  {
  }

  /** Whatever tables hold the facts, the speculative store holds the base and its inferences. */
  lemma SpeculationIsFlat(t: Tables, asserts: seq<Quad>, retracts: seq<Quad>, preds: set<int>, infer: set<Quad> -> set<Quad>)
    requires t.Valid()
    ensures var base := Base(t, asserts, retracts, preds);
            Speculated(t, asserts, retracts, preds, infer).View() == base + On(infer(base), preds)
    ensures On(Speculated(t, asserts, retracts, preds, infer).View(), preds)
         == On(infer(Base(t, asserts, retracts, preds)), preds)
  {
    InsertAllAdds(t, asserts);
    var u := InsertAll(t, asserts);
    DeleteAllHides(u, retracts);
    var w := DeleteAll(u, retracts);
    ClearedView(w, preds);
    forall q: Quad
      ensures q in Cleared(w, preds).View() <==> q in Base(t, asserts, retracts, preds)
    {
    }
    assert Cleared(w, preds).View() == Base(t, asserts, retracts, preds);
  }

  // ------------------------------------------------------------------------------
  // The procedure
  // ------------------------------------------------------------------------------

  method SnapshotAllTriples(t: Tables, heads: seq<int>) returns (result: set<Quad>)
    requires t.Valid()
    ensures result == On(t.View(), Elements(heads))
  {
    result := {};
    for i := 0 to |heads|
      invariant result == On(t.View(), Elements(heads[..i]))
    {
      var p := heads[i];
      if p in t.dedicated {
        result := result + set q | q in (t.main - t.tombs) + t.delta && q.p == p;
      }
      result := result + set q | q in t.rare && q.p == p;
      assert Elements(heads[..i + 1]) == Elements(heads[..i]) + {p};
      assert On(t.View(), {p}) == (set q | q in t.View() && q.p == p);
    }
    assert heads[..|heads|] == heads;
  }

  method ParseAll(entries: seq<Option<Quad>>) returns (qs: seq<Quad>)
    ensures qs == Parsed(entries)
  {
    qs := [];
    for i := 0 to |entries|
      invariant qs == Parsed(entries[..i])
    {
      assert entries[..i + 1][..i] == entries[..i];
      if entries[i].Some? {
        qs := qs + [entries[i].value];
      }
    }
    assert entries[..|entries|] == entries;
  }

  /** Hypotheses applied to the store, in order. */
  method Speculate(store: Store, asserts: seq<Quad>, retracts: seq<Quad>)
    requires store.tables.Valid()
    modifies store
    ensures store.tables == DeleteAll(InsertAll(old(store.tables), asserts), retracts) && store.tables.Valid()
  {
    ghost var t := store.tables;
    for i := 0 to |asserts|
      invariant store.tables.Valid() && store.tables == InsertAll(t, asserts[..i])
    {
      assert asserts[..i + 1][..i] == asserts[..i];
      store.InsertEncodedTriple(asserts[i]);
    }
    assert asserts[..|asserts|] == asserts;
    ghost var u := store.tables;
    for i := 0 to |retracts|
      invariant store.tables.Valid() && store.tables == DeleteAll(u, retracts[..i])
    {
      assert retracts[..i + 1][..i] == retracts[..i];
      var _ := store.DeleteTriple(retracts[i]);
    }
    assert retracts[..|retracts|] == retracts;
  }

  method ClearAllForPredicates(store: Store, heads: seq<int>)
    requires store.tables.Valid()
    modifies store
    ensures store.tables == Cleared(old(store.tables), Elements(heads)) && store.tables.Valid()
  {
    ghost var t := store.tables;
    for i := 0 to |heads|
      invariant store.tables.Valid() && store.tables == Cleared(t, Elements(heads[..i]))
    {
      var p := heads[i];
      assert Elements(heads[..i + 1]) == Elements(heads[..i]) + {p};
      if p in store.tables.dedicated {
        store.tables := store.tables.(delta := (set q | q in store.tables.delta && q.p != p),
                                      main := (set q | q in store.tables.main && q.p != p));
      }
      store.tables := store.tables.(rare := (set q | q in store.tables.rare && q.p != p));
    }
    assert heads[..|heads|] == heads;
  }

  /** The pass of the simple engine, as a function. */
  function PassOf(rules: seq<Datalog.Clause>): set<Quad> -> set<Quad> {
    base => SinglePass.Pass(rules, base)
  }

  /** The head predicates; the id 0 stands for none. */
  function Heads(rules: seq<Datalog.Clause>): set<int> {
    Datalog.Derived(rules) - {0}
  }

  method HeadPreds(rules: seq<Datalog.Clause>) returns (heads: seq<int>)
    ensures Elements(heads) == Heads(rules) && Distinct(heads)
  {
    heads := [];
    for i := 0 to |rules|
      invariant Distinct(heads) && forall p :: p in heads <==> p != 0 && exists k :: 0 <= k < i && Datalog.HeadPred(rules[k]) == p
    {
      var p := Datalog.HeadPred(rules[i]);
      if p != 0 && p !in heads {
        heads := heads + [p];
      }
    }
    forall p
      ensures p in Elements(heads) <==> p in Heads(rules)
    {
      if p in Heads(rules) {
        var k: nat :| k < |rules| && Datalog.HeadPred(rules[k]) == p;
      }
    }
  }

  /** The whole procedure: its answer in terms of facts, and a store left as it was found. */
  method HypotheticalInference(store: Store, asserts: seq<Option<Quad>>, retracts: seq<Option<Quad>>,
                               rules: seq<Datalog.Clause>, maxAssertions: nat)
    returns (r: Result<Diff, string>)
    requires store.tables.Valid() && Datalog.ValidRules(rules)
    modifies store
    ensures store.tables == old(store.tables)
    ensures r.Err? <==> |asserts| > maxAssertions
    ensures r.Ok? ==> r.value == Answer(store.tables, Parsed(asserts), Parsed(retracts), Heads(rules), PassOf(rules))
    ensures r.Ok? ==> var inferred := SinglePass.Pass(rules, Base(store.tables, Parsed(asserts), Parsed(retracts), Heads(rules)));
                      forall q: Quad ::
                        && (q in r.value.derived <==> && q.p in Heads(rules) && q in inferred && q !in store.tables.View()
                                                      && Some(q) !in asserts)
                        && (q in r.value.retracted <==> q.p in Heads(rules) && q in store.tables.View() && q !in inferred)
  {
    if |asserts| > maxAssertions {
      return Err("PT0450");
    }
    var heads := HeadPreds(rules);
    AnswerSays(store.tables, asserts, retracts, Heads(rules), PassOf(rules));
    if heads == [] {
      assert Elements(heads) == {};
      EmptyOn(store.tables, Parsed(asserts), Parsed(retracts), PassOf(rules));
      return Ok(Diff({}, {}));
    }
    var saved := store.tables;
    var before := SnapshotAllTriples(store.tables, heads);
    var parsed := ParseAll(asserts);
    var asserted := set q | q in parsed && q.p in heads;
    var dropped := ParseAll(retracts);
    Speculate(store, parsed, dropped);
    ClearAllForPredicates(store, heads);
    var inferred := SinglePass.RunInference(rules, store.tables.View());
    store.tables := Written(store.tables, Elements(heads), inferred);
    assert store.tables == Speculated(saved, parsed, dropped, Elements(heads), PassOf(rules));
    var after := SnapshotAllTriples(store.tables, heads);
    store.tables := saved;
    SpeculationIsFlat(saved, parsed, dropped, Elements(heads), PassOf(rules));
    assert asserted == On(Elements(parsed), Elements(heads));
    r := Ok(Compared(before, after, asserted));
  }

  /** The answer of a what-if question, on one set of facts. */
  function Answer(t: Tables, asserts: seq<Quad>, retracts: seq<Quad>, preds: set<int>, infer: set<Quad> -> set<Quad>): Diff {
    Compared(On(t.View(), preds), On(infer(Base(t, asserts, retracts, preds)), preds), On(Elements(asserts), preds))
  }

  /** Fact by fact, from the entries as they were given. */
  lemma AnswerSays(t: Tables, asserts: seq<Option<Quad>>, retracts: seq<Option<Quad>>, preds: set<int>, infer: set<Quad> -> set<Quad>)
    ensures var d := Answer(t, Parsed(asserts), Parsed(retracts), preds, infer);
            var inferred := infer(Base(t, Parsed(asserts), Parsed(retracts), preds));
            && (forall q: Quad :: q in d.derived <==> q.p in preds && q in inferred && q !in t.View() && Some(q) !in asserts)
            && (forall q: Quad :: q in d.retracted <==> q.p in preds && q in t.View() && q !in inferred)
  {
    forall q
      ensures q in Parsed(asserts) <==> Some(q) in asserts
    {
      ParsedKeepsAll(asserts, q);
    }
  }

  /** Parsing keeps every entry that parses, as often as it is given. */
  lemma {:induction false} ParsedKeepsAll(entries: seq<Option<Quad>>, q: Quad)
    ensures multiset(Parsed(entries))[q] == multiset(entries)[Some(q)]
    ensures q in Parsed(entries) <==> Some(q) in entries
  {
    if entries != [] {
      var n := |entries| - 1;
      ParsedKeepsAll(entries[..n], q);
      assert entries == entries[..n] + [entries[n]];
    }
  }

  lemma EmptyOn(t: Tables, asserts: seq<Quad>, retracts: seq<Quad>, infer: set<Quad> -> set<Quad>)
    ensures Answer(t, asserts, retracts, {}, infer) == Diff({}, {})
  {
  }

  // ------------------------------------------------------------------------------
  // What the answer says
  // ------------------------------------------------------------------------------

  /** The head facts after the hypotheses. */
  function After(t: Tables, asserts: seq<Quad>, retracts: seq<Quad>, preds: set<int>, infer: set<Quad> -> set<Quad>): set<Quad> {
    On(infer(Base(t, asserts, retracts, preds)), preds)
  }

  /** Nothing is lost between before and after: the diff and the asserted heads that came back account for all of it. */
  lemma DiffBalances(t: Tables, asserts: seq<Quad>, retracts: seq<Quad>, preds: set<int>, infer: set<Quad> -> set<Quad>)
    ensures var d := Answer(t, asserts, retracts, preds, infer);
            var before := On(t.View(), preds);
            var after := After(t, asserts, retracts, preds, infer);
            && (before - d.retracted) + d.derived + (On(Elements(asserts), preds) * after) == after
            && d.retracted <= before && d.derived !! before && d.derived !! d.retracted
            && d.derived !! On(Elements(asserts), preds)
  {
  }

  /**
    Two stores with the same facts outside the head predicates, however these are split over
    tables, give the same facts afterwards, and hypotheses about head predicates do not
    matter, unless a retraction is stuck.
    */
  lemma OnlyOtherFactsMatter(t: Tables, asserts: seq<Quad>, retracts: seq<Quad>,
                             t': Tables, asserts': seq<Quad>, retracts': seq<Quad>,
                             preds: set<int>, infer: set<Quad> -> set<Quad>)
    requires Off(t.View(), preds) == Off(t'.View(), preds)
    requires Off(Elements(asserts), preds) == Off(Elements(asserts'), preds)
    requires Off(Elements(retracts), preds) == Off(Elements(retracts'), preds)
    requires Off(Stuck(t, asserts, retracts), preds) == Off(Stuck(t', asserts', retracts'), preds)
    ensures After(t, asserts, retracts, preds, infer) == After(t', asserts', retracts', preds, infer)
  {
    forall q: Quad
      ensures q in Base(t, asserts, retracts, preds) <==> q in Base(t', asserts', retracts', preds)
    {
      if q.p !in preds {
        assert q in Off(t.View(), preds) <==> q in Off(t'.View(), preds);
        assert q in Off(Elements(asserts), preds) <==> q in Off(Elements(asserts'), preds);
        assert q in Off(Elements(retracts), preds) <==> q in Off(Elements(retracts'), preds);
        assert q in Off(Stuck(t, asserts, retracts), preds) <==> q in Off(Stuck(t', asserts', retracts'), preds);
      }
    }
    assert Base(t, asserts, retracts, preds) == Base(t', asserts', retracts', preds);
  }

  /** The head facts are exactly what inference gives on the others. */
  predicate Saturated(t: Tables, preds: set<int>, infer: set<Quad> -> set<Quad>) {
    On(t.View(), preds) == On(infer(Off(t.View(), preds)), preds)
  }

  /** Asking with no hypotheses reports no change exactly when the store is saturated. */
  lemma NoHypothesesNoChangeExactlyWhen(t: Tables, preds: set<int>, infer: set<Quad> -> set<Quad>)
    ensures Answer(t, [], [], preds, infer) == Diff({}, {}) <==> Saturated(t, preds, infer)
  {
    assert Elements<Quad>([]) == {} && Stuck(t, [], []) == {};
    assert Base(t, [], [], preds) == Off(t.View(), preds);
    var before, after := On(t.View(), preds), On(infer(Off(t.View(), preds)), preds);
    assert Answer(t, [], [], preds, infer) == Diff(after - before - {}, before - after);
    if after - before - {} == {} && before - after == {} {
      forall q: Quad
        ensures q in before <==> q in after
      {
        assert q !in after - before - {} && q !in before - after;
      }
    }
  }

  /** A head fact entered by hand, not inferred, is reported as retracted although nothing is hypothesised. */
  lemma HandWrittenHeadFactIsRetracted(q: Quad)
    ensures var t := Tables({}, {}, {}, {}, {q});
            Answer(t, [], [], {q.p}, v => v).retracted == {q}
  {
  }

  // ------------------------------------------------------------------------------
  // Monotone inference
  // ------------------------------------------------------------------------------

  ghost predicate Monotone(infer: set<Quad> -> set<Quad>) {
    forall a, b :: a <= b ==> infer(a) <= infer(b)
  }

  /** From a saturated store, asserting only retracts nothing. */
  lemma AssertingRetractsNothing(t: Tables, asserts: seq<Quad>, preds: set<int>, infer: set<Quad> -> set<Quad>)
    requires Monotone(infer) && Saturated(t, preds, infer)
    ensures Answer(t, asserts, [], preds, infer).retracted == {}
  {
    assert Off(t.View(), preds) <= Base(t, asserts, [], preds);
  }

  /** From a saturated store, retracting only derives nothing. */
  lemma RetractingDerivesNothing(t: Tables, retracts: seq<Quad>, preds: set<int>, infer: set<Quad> -> set<Quad>)
    requires Monotone(infer) && Saturated(t, preds, infer)
    ensures Answer(t, [], retracts, preds, infer).derived == {}
  {
    assert Base(t, [], retracts, preds) <= Off(t.View(), preds);
  }

  // ------------------------------------------------------------------------------
  // One pass of positive rules
  // ------------------------------------------------------------------------------

  ghost predicate PositiveRules(rules: seq<Datalog.Clause>) {
    forall c :: c in rules ==> c.negated == []
  }

  lemma PositiveQueryGrows(c: Datalog.Clause, a: set<Quad>, b: set<Quad>, n: nat)
    requires c.negated == [] && a <= b
    ensures Datalog.Query(c, a, Datalog.Same(a, n)) <= Datalog.Query(c, b, Datalog.Same(b, n))
  {
    forall f | f in Datalog.Query(c, a, Datalog.Same(a, n))
      ensures f in Datalog.Query(c, b, Datalog.Same(b, n))
    {
      var fs := Datalog.QueryOrigin(c, a, Datalog.Same(a, n), f);
      assert Datalog.Fire(c, a, fs) == Datalog.Fire(c, b, fs);
      Datalog.QueryMember(c, b, Datalog.Same(b, n), fs);
    }
  }

  lemma {:induction false} LevelGrows(c: Datalog.Clause, a: set<Quad>, b: set<Quad>, n: nat)
    requires a <= b
    ensures Datalog.Level(c, a, n) <= Datalog.Level(c, b, n)
  {
    if n > 0 {
      LevelGrows(c, a, b, n - 1);
    }
  }

  lemma RecursiveQueryGrows(c: Datalog.Clause, a: set<Quad>, b: set<Quad>)
    requires a <= b
    ensures Datalog.RecursiveQuery(c, a) <= Datalog.RecursiveQuery(c, b)
  {
    Datalog.Subset(a, b);
    forall f | f in Datalog.RecursiveQuery(c, a)
      ensures f in Datalog.RecursiveQuery(c, b)
    {
      var n: nat, r :| n <= |a| && r in Datalog.Level(c, a, n) && f == Datalog.HeadRow(c, r);
      LevelGrows(c, a, b, n);
    }
  }

  lemma PositiveRuleGrows(c: Datalog.Clause, a: set<Quad>, b: set<Quad>)
    requires c.negated == [] && a <= b
    ensures CompiledRules.Derive(c, a) <= CompiledRules.Derive(c, b)
  {
    if Datalog.SelfRecursive(c) {
      RecursiveQueryGrows(c, a, b);
    } else if RuleSql.Seeded(c).Some? {
      PositiveQueryGrows(RuleSql.Seeded(c).value, a, b, |c.body|);
    }
  }

  lemma {:induction false} PassGrowsWithStore(rules: seq<Datalog.Clause>, a: set<Quad>, b: set<Quad>)
    requires PositiveRules(rules) && a <= b
    ensures SinglePass.Pass(rules, a) <= SinglePass.Pass(rules, b)
  {
    if rules != [] {
      var n := |rules| - 1;
      PassGrowsWithStore(rules[..n], a, b);
      PositiveRuleGrows(rules[n], SinglePass.Pass(rules[..n], a), SinglePass.Pass(rules[..n], b));
    }
  }

  /**
    Positive rules in any order, recursive or not, and a store saturated by one pass of them:
    assertions retract nothing and retractions derive nothing.
    */
  lemma OneSidedHypotheses(t: Tables, rules: seq<Datalog.Clause>, preds: set<int>, asserts: seq<Quad>, retracts: seq<Quad>)
    requires PositiveRules(rules) && Saturated(t, preds, PassOf(rules))
    ensures Answer(t, asserts, [], preds, PassOf(rules)).retracted == {}
    ensures Answer(t, [], retracts, preds, PassOf(rules)).derived == {}
  {
    forall a: set<Quad>, b: set<Quad> | a <= b
      ensures PassOf(rules)(a) <= PassOf(rules)(b)
    {
      PassGrowsWithStore(rules, a, b);
    }
    AssertingRetractsNothing(t, asserts, preds, PassOf(rules));
    RetractingDerivesNothing(t, retracts, preds, PassOf(rules));
  }

  /** The least set that contains the base and is closed under one round of rules. */
  ghost predicate IsLeastClosed(rules: seq<Datalog.Clause>, base: set<Quad>, m: set<Quad>) {
    && base <= m && Datalog.FirstRound(rules, m) <= m
    && forall other: set<Quad> :: base <= other && Datalog.FirstRound(rules, other) <= other ==> m <= other
  }

  lemma {:induction false} PassInside(rules: seq<Datalog.Clause>, all: seq<Datalog.Clause>, base: set<Quad>, other: set<Quad>)
    requires PositiveRules(all) && Datalog.ValidRules(all) && CompiledRules.PlainRules(all)
    requires forall c :: c in rules ==> c in all && !Datalog.SelfRecursive(c)
    requires base <= other && Datalog.FirstRound(all, other) <= other
    ensures SinglePass.Pass(rules, base) <= other
    decreases |rules|
  {
    if rules != [] {
      var n := |rules| - 1;
      PassInside(rules[..n], all, base, other);
      var before, c := SinglePass.Pass(rules[..n], base), rules[n];
      CompiledRules.PlainRuns(c, before);
      PositiveQueryGrows(c, before, other, |c.body|);
      var i: nat :| i < |all| && all[i] == c;
      assert Datalog.Query(all[i], other, Datalog.Same(other, |all[i].body|)) <= Datalog.FirstRound(all, other);
    }
  }

  /** In order of dependency one pass of plain positive rules infers least models. */
  lemma PassInfersLeastModels(rules: seq<Datalog.Clause>, base: set<Quad>)
    requires Datalog.ValidRules(rules) && CompiledRules.PlainRules(rules) && SinglePass.Ordered(rules) && PositiveRules(rules)
    ensures IsLeastClosed(rules, base, PassOf(rules)(base))
  {
    var m := SinglePass.Pass(rules, base);
    SinglePass.OrderedPassIsModel(rules, base);
    SinglePass.PlainAsRun(rules);
    Datalog.ModelClosesRound(rules, m);
    SinglePass.PassGrows(rules, base, 0);
    assert rules[..0] == [];
    forall other: set<Quad> | base <= other && Datalog.FirstRound(rules, other) <= other
      ensures m <= other
    {
      forall c | c in rules
        ensures !Datalog.SelfRecursive(c)
      {
        SinglePass.OrderedIsPlain(rules, c);
      }
      PassInside(rules, rules, base, other);
    }
  }
}
