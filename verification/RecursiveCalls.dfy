/**
  Calls of the semi-naive engine with rules that mention their own head, or negate what the call
  derives.
  */
module RecursiveCalls {
  import opened Prelude
  import opened RuleSafety
  import opened Datalog
  import opened RuleSql
  import opened CompiledRules
  import opened Subsumption
  import opened SemiNaive
  import opened FreshCalls
  import opened CallCases

  /** A call in which no rule is dropped. */
  lemma ApartCall(rules: seq<Clause>, before: set<Quad>, after: set<Quad>)
    requires Apart(rules) && Called(rules, before, after)
    ensures Active(rules) == rules
    ensures exists d :: LeastSettled(rules, Derived(rules), before, AllOnce(rules, before), d) && after == before + d
  {
    ActiveIsAllExactlyWhen(rules);
  }

  lemma NotNested(x: int, a: seq<int>)
    requires x !in a && |a| == 2
    ensures !(multiset([x]) <= multiset(a)) && !(multiset(a) <= multiset([x]))
  {
    assert multiset([x])[x] == 1 && multiset(a)[x] == 0;
    assert a[0] in multiset(a) && multiset([x])[a[0]] == 0;
  }

  lemma EmptyVariants(run: seq<Clause>, preds: set<int>, store: set<Quad>)
    requires ValidRules(run)
    ensures Variants(run, preds, store, {}) == {}
  {
    forall i: nat, k: nat | i < |run| && k < |run[i].body|
      ensures Variant(run[i], k, store, {}) == {}
    {
      assert run[i] in run;
      NothingNew(run[i], k, store);
    }
  }

  lemma NothingNew(c: Clause, k: nat, store: set<Quad>)
    requires c.Valid() && k < |c.body|
    ensures Variant(c, k, store, {}) == {}
  {
    RunKeepsPreds(c);
    var tables := Same(store, |c.body|)[k := {}];
    assert tables[k] == {};
    forall fs
      ensures fs !in Tuples(tables)
    {
      TupleMembers(tables, fs);
    }
  }

  // ------------------------------------------------------------------------------
  // The joining rule alone
  // ------------------------------------------------------------------------------

  /** The recursive query starts by inserting every row of the other table. */
  lemma JoinPlantsCopies(e: int, p: int, base: set<Quad>, f: Quad)
    requires e != p && f in base && f.p == e
    ensures Quad(f.s, p, f.o, f.g) in RecursiveQuery(JoinRule(e, p), base)
  {
    JoinRuleTables(e, p);
    var c := JoinRule(e, p);
    assert f in StartTable(c, base);
    var r := CteRow(f.s, f.o, f.g, {CycleMark(c, f)});
    assert r in Level(c, base, 0) && HeadRow(c, r) == Quad(f.s, p, f.o, f.g);
  }

  /**
    The rule `?x p ?z :- ?x e ?y, ?y p ?z` alone, on a store without p, derives nothing.  The
    call agrees exactly when the store has no e either; otherwise it inserts every row of e
    as a fact of p.
    */
  lemma ClosureAloneExactlyWhen(e: int, p: int, base: set<Quad>, after: set<Quad>)
    requires e != p && Fresh([JoinRule(e, p)], base) && Called([JoinRule(e, p)], base, after)
    ensures IsMeaning([JoinRule(e, p)], base, base)
    ensures IsMeaning([JoinRule(e, p)], base, after) <==> forall f :: f in base ==> f.p != e
    ensures forall f :: f in base && f.p == e ==> Quad(f.s, p, f.o, f.g) in after - base
  {
    var rules := [JoinRule(e, p)];
    JoinIsPlain(e, p);
    assert rules[0] == JoinRule(e, p) && ValidRules(rules) && Derived(rules) == {HeadPred(rules[0])};
    ApartCall(rules, base, after);
    JoinSleeps(e, p, base);
    FirstRoundIsModel(rules, base);
    var d :| LeastSettled(rules, {p}, base, AllOnce(rules, base), d) && after == base + d;
    forall f | f in base && f.p == e
      ensures Quad(f.s, p, f.o, f.g) in after - base
    {
      JoinPlantsCopies(e, p, base, f);
      assert Quad(f.s, p, f.o, f.g) in Derive(rules[0], base);
      assert Quad(f.s, p, f.o, f.g) in AllOnce(rules, base);
    }
    if forall f :: f in base ==> f.p != e {
      NothingPlanted(e, p, base);
      EmptyVariants(rules, {p}, base);
      assert Settled(rules, {p}, base, {});
    }
  }

  lemma NothingPlanted(e: int, p: int, base: set<Quad>)
    requires e != p && forall f :: f in base ==> f.p != e
    ensures AllOnce([JoinRule(e, p)], base) == {}
  {
    var rules := [JoinRule(e, p)];
    JoinIsPlain(e, p);
    JoinRuleTables(e, p);
    assert StartTable(rules[0], base) == {};
    EmptyStart(rules[0], base);
  }

  lemma JoinSleeps(e: int, p: int, base: set<Quad>)
    requires Lacks(base, {p})
    ensures FirstRound([JoinRule(e, p)], base) == {}
  {
    var rules := [JoinRule(e, p)];
    JoinIsPlain(e, p);
    assert rules[0].body[1] == Pattern("y", p, "z");
    NothingToRead(rules[0], {p}, base, Same(base, 2), 1);
  }

  // ------------------------------------------------------------------------------
  // Reaching: start from b, go back along e
  // ------------------------------------------------------------------------------

  /** `?x p ?y :- ?x b ?y` and `?x p ?z :- ?x e ?y, ?y p ?z` */
  function ReachRules(b: int, e: int, p: int): seq<Clause> {
    [CopyRule(b, p), JoinRule(e, p)]
  }

  ghost predicate Edge(base: set<Quad>, e: int, x: int, y: int) {
    exists f :: f in base && f.p == e && f.s == x && f.o == y
  }

  /** From x along e to a node from which b leads to z. */
  ghost predicate LeadsBy(base: set<Quad>, b: int, e: int, path: seq<int>, x: int, z: int) {
    && path != [] && path[0] == x && Edge(base, b, path[|path| - 1], z)
    && forall i :: 0 <= i < |path| - 1 ==> Edge(base, e, path[i], path[i + 1])
  }

  ghost predicate Leads(base: set<Quad>, b: int, e: int, x: int, z: int) {
    exists path :: LeadsBy(base, b, e, path, x, z)
  }

  lemma ReachFacts(b: int, e: int, p: int)
    requires b != e && b != p && e != p
    ensures var rules := ReachRules(b, e, p);
            && ValidRules(rules) && PlainRules(rules) && SemiPositive(rules) && Linear(rules) && Apart(rules) && Derived(rules) == {p}
  {
    var rules := ReachRules(b, e, p);
    CopyIsPlain(b, p);
    JoinIsPlain(e, p);
    TwoDerivedPreds(rules, p, p);
    ReachIsApart(b, e, p);
    ReachIsLinear(b, e, p);
    assert forall c :: c in rules ==> c == rules[0] || c == rules[1];
  }

  lemma ReachIsApart(b: int, e: int, p: int)
    requires b != e && b != p
    ensures Apart(ReachRules(b, e, p))
  {
    BodiesOfTwo(b, p);
    BodiesOfTwo(e, p);
    NotNested(b, [e, p]);
  }

  lemma ReachIsLinear(b: int, e: int, p: int)
    requires b != p && e != p
    ensures LinearIn(ReachRules(b, e, p), {p})
  {
    var copy, join := CopyRule(b, p).body, JoinRule(e, p).body;
    assert copy == [Pattern("x", b, "y")] && join == [Pattern("x", e, "y"), Pattern("y", p, "z")];
    assert join[0].p == Const(e);
  }

  /** The meaning of the rules: everything b reaches backwards along e, in the default graph. */
  ghost function Reached(base: set<Quad>, b: int, e: int, p: int): set<Quad> {
    set x, y | x in base && y in base && Leads(base, b, e, x.s, y.o) :: Quad(x.s, p, y.o, 0)
  }

  lemma LeadsIsReached(base: set<Quad>, b: int, e: int, p: int, x: int, z: int)
    requires Leads(base, b, e, x, z)
    ensures Quad(x, p, z, 0) in Reached(base, b, e, p)
  {
    var path :| LeadsBy(base, b, e, path, x, z);
    var last :| last in base && last.p == b && last.s == path[|path| - 1] && last.o == z;
    if |path| > 1 {
      assert Edge(base, e, path[0], path[1]);
      var first :| first in base && first.s == x;
    }
  }

  lemma LeadsOneMore(base: set<Quad>, b: int, e: int, x: int, y: int, z: int)
    requires Edge(base, e, x, y) && Leads(base, b, e, y, z)
    ensures Leads(base, b, e, x, z)
  {
    var path :| LeadsBy(base, b, e, path, y, z);
    var longer := [x] + path;
    forall i | 0 <= i < |longer| - 1
      ensures Edge(base, e, longer[i], longer[i + 1])
    {
      if i > 0 {
        assert Edge(base, e, path[i - 1], path[i]);
      }
    }
    assert LeadsBy(base, b, e, longer, x, z);
  }

  lemma ReachedIsModel(base: set<Quad>, b: int, e: int, p: int)
    requires b != e && b != p && e != p && Lacks(base, {p})
    ensures IsModel(ReachRules(b, e, p), base + Reached(base, b, e, p))
    ensures Extends({p}, base, base + Reached(base, b, e, p))
  {
    var rules, m := ReachRules(b, e, p), base + Reached(base, b, e, p);
    forall c: Clause, fs: seq<Quad>, f: Quad | c in rules && Fires(c, m, m, fs, f)
      ensures f in m
    {
      if c == CopyRule(b, p) {
        CopyReaches(base, b, e, p, fs, f);
      } else {
        JoinShape(e, p, m, fs, f);
        JoinReaches(base, b, e, p, fs[0], fs[1]);
      }
    }
  }

  lemma CopyReaches(base: set<Quad>, b: int, e: int, p: int, fs: seq<Quad>, f: Quad)
    requires b != p
    requires Fires(CopyRule(b, p), base + Reached(base, b, e, p), base + Reached(base, b, e, p), fs, f)
    ensures f in Reached(base, b, e, p)
  {
    var m := base + Reached(base, b, e, p);
    CopyIsPlain(b, p);
    FiredHead(CopyRule(b, p), m, fs);
    assert CopyRule(b, p).body[0].p == Const(b) && fs == [fs[0]];
    CopyFires(b, p, m, fs[0]);
    assert fs[0] in base && LeadsBy(base, b, e, [fs[0].s], fs[0].s, fs[0].o);
    LeadsIsReached(base, b, e, p, fs[0].s, fs[0].o);
  }

  lemma JoinReaches(base: set<Quad>, b: int, e: int, p: int, f: Quad, g: Quad)
    requires e != p && Lacks(base, {p}) && f in base + Reached(base, b, e, p) && g in base + Reached(base, b, e, p)
    requires f.p == e && g.p == p && f.o == g.s
    ensures Quad(f.s, p, g.o, 0) in Reached(base, b, e, p)
  {
    assert f in base && g in Reached(base, b, e, p);
    assert Edge(base, e, f.s, g.s) && Leads(base, b, e, g.s, g.o);
    LeadsOneMore(base, b, e, f.s, g.s, g.o);
    LeadsIsReached(base, b, e, p, f.s, g.o);
  }

  /** Whatever b reaches is in every model. */
  lemma {:induction false} ModelsReach(base: set<Quad>, b: int, e: int, p: int, m: set<Quad>, path: seq<int>, x: int, z: int)
    requires base <= m && IsModel(ReachRules(b, e, p), m) && LeadsBy(base, b, e, path, x, z)
    ensures Quad(x, p, z, 0) in m
    decreases |path|
  {
    var rules := ReachRules(b, e, p);
    assert rules[0] in rules && rules[1] in rules;
    if |path| == 1 {
      var f :| f in base && f.p == b && f.s == x && f.o == z;
      CopyFires(b, p, m, f);
      assert Fires(rules[0], m, m, [f], Quad(x, p, z, 0));
    } else {
      assert Edge(base, e, path[0], path[1]);
      var f :| f in base && f.p == e && f.s == x && f.o == path[1];
      var rest := path[1..];
      forall i | 0 <= i < |rest| - 1
        ensures Edge(base, e, rest[i], rest[i + 1])
      {
        var j := i + 1;
        assert Edge(base, e, path[j], path[j + 1]);
      }
      ModelsReach(base, b, e, p, m, rest, path[1], z);
      JoinFires(e, p, m, f, Quad(path[1], p, z, 0));
      assert Fires(rules[1], m, m, [f, Quad(path[1], p, z, 0)], Quad(x, p, z, 0));
    }
  }

  /** Every row of e is in the default graph and reaches, so that the rules derive it as a fact of p. */
  ghost predicate AllReach(base: set<Quad>, b: int, e: int) {
    forall f :: f in base && f.p == e ==> f.g == 0 && Leads(base, b, e, f.s, f.o)
  }

  lemma {:induction false} LevelReaches(base: set<Quad>, b: int, e: int, p: int, n: nat, r: CteRow)
    requires e != p && AllReach(base, b, e) && r in Level(JoinRule(e, p), base, n)
    ensures r.g == 0 && Leads(base, b, e, r.s, r.o)
  {
    var c := JoinRule(e, p);
    JoinRuleTables(e, p);
    if n == 0 {
      var q :| q in StartTable(c, base) && r == CteRow(q.s, q.o, q.g, {CycleMark(c, q)});
    } else {
      var l, f := StepBack(c, base, n, r);
      LevelReaches(base, b, e, p, n - 1, l);
      assert f.p == e && Edge(base, e, f.s, l.s);
      LeadsOneMore(base, b, e, f.s, l.s, l.o);
    }
  }

  lemma PlantedReaches(base: set<Quad>, b: int, e: int, p: int, m: set<Quad>)
    requires b != e && b != p && e != p && AllReach(base, b, e) && base <= m && IsModel(ReachRules(b, e, p), m)
    ensures Planted(ReachRules(b, e, p), base) <= m
  {
    forall f | f in Planted(ReachRules(b, e, p), base)
      ensures f in m
    {
      OnlyJoinPlants(b, e, p, base, f);
      QueryReaches(base, b, e, p, m, f);
    }
  }

  lemma OnlyJoinPlants(b: int, e: int, p: int, base: set<Quad>, f: Quad)
    requires b != p && f in Planted(ReachRules(b, e, p), base)
    ensures f in RecursiveQuery(JoinRule(e, p), base)
  {
    var rules := ReachRules(b, e, p);
    CopyIsPlain(b, p);
    var i: nat :| i < |rules| && SelfRecursive(rules[i]) && f in RecursiveQuery(rules[i], base);
  }

  lemma QueryReaches(base: set<Quad>, b: int, e: int, p: int, m: set<Quad>, f: Quad)
    requires e != p && AllReach(base, b, e) && base <= m && IsModel(ReachRules(b, e, p), m)
    requires f in RecursiveQuery(JoinRule(e, p), base)
    ensures f in m
  {
    var c := JoinRule(e, p);
    var n: nat, r :| n <= |base| && r in Level(c, base, n) && f == HeadRow(c, r);
    LevelReaches(base, b, e, p, n, r);
    assert f == Quad(r.s, p, r.o, 0);
    var path :| LeadsBy(base, b, e, path, r.s, r.o);
    ModelsReach(base, b, e, p, m, path, r.s, r.o);
  }

  /** A seed with a fact that some model lacks is not fair, and the call goes wrong. */
  lemma UnsoundSeed(rules: seq<Clause>, base: set<Quad>, after: set<Quad>, other: set<Quad>, f: Quad)
    requires Active(rules) == rules && Called(rules, base, after) && f in AllOnce(rules, base)
    requires Extends(Derived(rules), base, other) && IsModel(rules, other) && f !in other
    ensures !FairSeed(rules, Derived(rules), base, AllOnce(rules, base)) && !IsMeaning(rules, base, after)
  {
    var d :| LeastSettled(rules, Derived(rules), base, AllOnce(rules, base), d) && after == base + d;
    assert f in after;
  }

  /**
    On a store without p the two rules are seeded fairly, and a call gives their meaning, exactly
    when every row of e is in the default graph and leads to its object over b: the recursive
    query inserts the rows of e and keeps their graph, the rules do not.
    */
  lemma ReachExactlyWhen(b: int, e: int, p: int, base: set<Quad>, after: set<Quad>)
    requires b != e && b != p && e != p && Fresh(ReachRules(b, e, p), base) && Called(ReachRules(b, e, p), base, after)
    ensures FairSeed(ReachRules(b, e, p), {p}, base, AllOnce(ReachRules(b, e, p), base)) <==> AllReach(base, b, e)
    ensures IsMeaning(ReachRules(b, e, p), base, after) <==> AllReach(base, b, e)
  {
    var rules := ReachRules(b, e, p);
    ReachFacts(b, e, p);
    ApartCall(rules, base, after);
    FreshSeedIsFairExactlyWhen(rules, base);
    if AllReach(base, b, e) {
      forall m | Extends({p}, base, m) && IsModel(rules, m)
        ensures Planted(rules, base) <= m
      {
        PlantedReaches(base, b, e, p, m);
      }
      var d :| LeastSettled(rules, {p}, base, AllOnce(rules, base), d) && after == base + d;
      LinearRulesAreExact(rules, {p}, base, AllOnce(rules, base), d);
    } else {
      var f :| f in base && f.p == e && !(f.g == 0 && Leads(base, b, e, f.s, f.o));
      ReachedIsModel(base, b, e, p);
      JoinPlantsCopies(e, p, base, f);
      JoinIsPlain(e, p);
      assert Quad(f.s, p, f.o, f.g) in Derive(rules[1], base);
      assert Quad(f.s, p, f.o, f.g) in AllOnce(rules, base);
      UnsoundSeed(rules, base, after, base + Reached(base, b, e, p), Quad(f.s, p, f.o, f.g));
    }
  }

  // ------------------------------------------------------------------------------
  // Two new facts
  // ------------------------------------------------------------------------------

  /** Edges are copied to paths; the rule that joins two paths finds nothing in the whole call. */
  lemma TransitivityIsLost(s: int, m: int, o: int, e: int, p: int, after: set<Quad>)
    requires e != p && s != m && m != o
    requires Called([CopyRule(e, p), JoinRule(p, p)], {Quad(s, e, m, 0), Quad(m, e, o, 0)}, after)
    ensures after == {Quad(s, e, m, 0), Quad(m, e, o, 0), Quad(s, p, m, 0), Quad(m, p, o, 0)}
    ensures !IsMeaning([CopyRule(e, p), JoinRule(p, p)], {Quad(s, e, m, 0), Quad(m, e, o, 0)}, after)
  {
    var rules, base := [CopyRule(e, p), JoinRule(p, p)], {Quad(s, e, m, 0), Quad(m, e, o, 0)};
    var copies := {Quad(s, p, m, 0), Quad(m, p, o, 0)};
    PathFacts(e, p);
    ApartCall(rules, base, after);
    OnlyCopyFires(e, p, base, AllOnce(rules, base));
    TwoCopies(s, m, o, e, p);
    assert Settled(rules, {p}, base, AllOnce(rules, base));
    assert after == base + copies;
    PathsNotClosed(s, m, o, e, p, after);
  }

  lemma TwoCopies(s: int, m: int, o: int, e: int, p: int)
    ensures Copies(e, p, {Quad(s, e, m, 0), Quad(m, e, o, 0)}) == {Quad(s, p, m, 0), Quad(m, p, o, 0)}
  {
    var base := {Quad(s, e, m, 0), Quad(m, e, o, 0)};
    assert Quad(s, e, m, 0) in base && Quad(m, e, o, 0) in base;
  }

  lemma PathsNotClosed(s: int, m: int, o: int, e: int, p: int, all: set<Quad>)
    requires Quad(s, p, m, 0) in all && Quad(m, p, o, 0) in all && Quad(s, p, o, 0) !in all
    ensures !IsModel([CopyRule(e, p), JoinRule(p, p)], all)
  {
    var rules := [CopyRule(e, p), JoinRule(p, p)];
    JoinFires(p, p, all, Quad(s, p, m, 0), Quad(m, p, o, 0));
    assert rules[1] == JoinRule(p, p) && rules[1] in rules;
    assert Fires(rules[1], all, all, [Quad(s, p, m, 0), Quad(m, p, o, 0)], Quad(s, p, o, 0));
  }

  lemma PathFacts(e: int, p: int)
    requires e != p
    ensures var rules := [CopyRule(e, p), JoinRule(p, p)]; Derived(rules) == {p} && ValidRules(rules) && Apart(rules)
  {
    var rules := [CopyRule(e, p), JoinRule(p, p)];
    CopyIsPlain(e, p);
    JoinIsPlain(p, p);
    TwoDerivedPreds(rules, p, p);
    PathsApart(e, p);
  }

  lemma PathsApart(e: int, p: int)
    requires e != p
    ensures Apart([CopyRule(e, p), JoinRule(p, p)])
  {
    BodiesOfTwo(e, p);
    BodiesOfTwo(p, p);
    NotNested(e, [p, p]);
  }

  /** On a store of edges only the copying rule contributes, and only to the seed. */
  lemma OnlyCopyFires(e: int, p: int, base: set<Quad>, x: set<Quad>)
    requires e != p && forall f :: f in base ==> f.p == e
    ensures var rules := [CopyRule(e, p), JoinRule(p, p)];
            AllOnce(rules, base) == Copies(e, p, base) && Variants(rules, {p}, base, x) == {}
  {
    var rules := [CopyRule(e, p), JoinRule(p, p)];
    CopyIsPlain(e, p);
    JoinIsPlain(p, p);
    var copy := rules[0];
    assert !DerivedAtom(copy.body[0], {p});
    PathsSleep(p, base, x);
    PlainRuns(copy, base);
    CopyQuery(e, p, base);
    forall f
      ensures f in AllOnce(rules, base) <==> f in Copies(e, p, base)
    {
      if f in Copies(e, p, base) {
        assert f in Derive(rules[0], base);
      }
    }
  }

  lemma PathsSleep(p: int, base: set<Quad>, x: set<Quad>)
    requires Lacks(base, {p})
    ensures var trans := JoinRule(p, p);
            Derive(trans, base) == {} && Variant(trans, 0, base, x) == {} && Variant(trans, 1, base, x) == {}
  {
    var trans := JoinRule(p, p);
    JoinIsPlain(p, p);
    assert DerivedAtom(trans.body[0], {p}) && DerivedAtom(trans.body[1], {p});
    TwoDerivedNeverFires(trans, {p}, base, 0, x);
    TwoDerivedNeverFires(trans, {p}, base, 1, x);
    JoinRuleTables(p, p);
    assert StartTable(trans, base) == {};
    EmptyStart(trans, base);
  }

  // ------------------------------------------------------------------------------
  // Negation of what the call derives
  // ------------------------------------------------------------------------------

  /** `?x to ?y :- ?x from ?y, NOT ?x unless ?y` */
  function UnlessRule(from: int, unless: int, to: int): Clause {
    Clause([3, from, unless, to], Pattern("x", to, "y"), [Pattern("x", from, "y")], [Pattern("x", unless, "y")], [1], [], [0])
  }

  lemma UnlessIsPlain(from: int, unless: int, to: int)
    ensures Plain(UnlessRule(from, unless, to)) && UnlessRule(from, unless, to).Valid()
    ensures HeadPred(UnlessRule(from, unless, to)) == to && (SelfRecursive(UnlessRule(from, unless, to)) <==> from == to)
  {
    var c := UnlessRule(from, unless, to);
    PatternVars(c.body, 0, "x", from, "y");
    assert c.body[..1] == c.body && c.body[0].p == Const(from);
  }

  lemma UnlessFires(from: int, unless: int, to: int, store: set<Quad>, f: Quad)
    requires f.p == from
    ensures Fire(UnlessRule(from, unless, to), store, [f])
         == if exists g :: g in store && g.p == unless && g.s == f.s && g.o == f.o then None else Some(Quad(f.s, to, f.o, 0))
  {
    var c := UnlessRule(from, unless, to);
    assert c.body[..0] == [] && [f][..0] == [];
    assert MatchBody(c.body[..0], [f][..0]) == Some(map[]);
    MatchPattern("x", from, "y", f, map[]);
    var v: Valuation := map[]["x" := f.s]["y" := f.o];
    assert MatchBody(c.body, [f]) == Some(v);
    forall g | g in store
      ensures MatchAtom(Pattern("x", unless, "y"), g, v).Some? <==> g.p == unless && g.s == f.s && g.o == f.o
    {
      BoundPattern(unless, g, v);
    }
    assert c.negated == [Pattern("x", unless, "y")] && c.negated[0] in c.negated;
  }

  lemma BoundPattern(p: int, g: Quad, v: Valuation)
    requires "x" in v && "y" in v
    ensures MatchAtom(Pattern("x", p, "y"), g, v).Some? <==> g.p == p && g.s == v["x"] && g.o == v["y"]
  {
    var a := Pattern("x", p, "y");
    var ts, xs := a.Terms(), g.Values();
    AtomMatches(a, g, v, v);
    assert Agrees(a, g, v) <==> TermAgrees(ts[0], xs[0], v) && TermAgrees(ts[1], xs[1], v) && TermAgrees(ts[2], xs[2], v)
                                && TermAgrees(ts[3], xs[3], v);
    if MatchAtom(a, g, v).Some? {
      var u := MatchAtom(a, g, v).value;
      assert TermAgrees(ts[0], xs[0], u) && TermAgrees(ts[1], xs[1], u) && TermAgrees(ts[2], xs[2], u);
    }
  }

  /**
    Negation of a derived predicate is answered before that predicate is derived: the call
    keeps a fact that no rule supports once it is over.
    */
  lemma NegationIsAskedTooEarly(a: int, b: int, c: int, s: int, o: int, after: set<Quad>)
    requires a != b && b != c && a != c
    requires Called([CopyRule(a, b), UnlessRule(a, b, c)], {Quad(s, a, o, 0)}, after)
    ensures Quad(s, c, o, 0) in after
    ensures forall k, fs :: k in [CopyRule(a, b), UnlessRule(a, b, c)] ==> !Fires(k, after, after, fs, Quad(s, c, o, 0))
  {
    var rules, base := [CopyRule(a, b), UnlessRule(a, b, c)], {Quad(s, a, o, 0)};
    CopyIsPlain(a, b);
    UnlessIsPlain(a, b, c);
    ApartCall(rules, base, after);
    OnceIsRound(rules, base);
    BothInFirstRound(a, b, c, s, o);
    Unsupported(a, b, c, s, o, after);
  }

  lemma BothInFirstRound(a: int, b: int, c: int, s: int, o: int)
    requires a != b
    ensures var rules, base := [CopyRule(a, b), UnlessRule(a, b, c)], {Quad(s, a, o, 0)};
            Quad(s, b, o, 0) in FirstRound(rules, base) && Quad(s, c, o, 0) in FirstRound(rules, base)
  {
    var rules, base := [CopyRule(a, b), UnlessRule(a, b, c)], {Quad(s, a, o, 0)};
    var start := Quad(s, a, o, 0);
    CopyFires(a, b, base, start);
    UnlessFires(a, b, c, base, start);
    QueryMember(rules[0], base, Same(base, |rules[0].body|), [start]);
    QueryMember(rules[1], base, Same(base, |rules[1].body|), [start]);
  }

  lemma Unsupported(a: int, b: int, c: int, s: int, o: int, m: set<Quad>)
    requires b != c && Quad(s, b, o, 0) in m
    ensures forall k, fs :: k in [CopyRule(a, b), UnlessRule(a, b, c)] ==> !Fires(k, m, m, fs, Quad(s, c, o, 0))
  {
    forall k, fs | k in [CopyRule(a, b), UnlessRule(a, b, c)]
      ensures !Fires(k, m, m, fs, Quad(s, c, o, 0))
    {
      assert k.Valid();
      if Fire(k, m, fs) == Some(Quad(s, c, o, 0)) {
        FiredHead(k, m, fs);
        assert k == UnlessRule(a, b, c) && fs == [fs[0]];
        UnlessFires(a, b, c, m, fs[0]);
      }
    }
  }
}
