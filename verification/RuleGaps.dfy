/**
  Rules whose statements do not insert what the rules say, and on which stores that shows.
  */
module RuleGaps {
  import opened Prelude
  import opened RuleSafety
  import opened Datalog
  import opened RuleSql
  import opened CompiledRules
  import opened CallCases

  // ------------------------------------------------------------------------------
  // A variable repeated in the first atom
  // ------------------------------------------------------------------------------

  /** `?x p ?x :- ?x e ?x` */
  function LoopRule(e: int, p: int): Clause {
    Clause([4, e, p], Pattern("x", p, "x"), [Pattern("x", e, "x")], [], [], [], [0])
  }

  function SubjectOf(e: int, obj: Term): Atom {
    Atom(Var("x"), Const(e), obj, DefaultGraph)
  }

  lemma MatchSubject(e: int, obj: Term, f: Quad)
    requires obj == Var("x") || obj == Wildcard
    ensures var m := MatchAtom(SubjectOf(e, obj), f, map[]);
            && (m.Some? <==> f.p == e && (obj == Var("x") ==> f.o == f.s))
            && (m.Some? ==> "x" in m.value && m.value["x"] == f.s)
  {
    var a, u := SubjectOf(e, obj), map["x" := f.s];
    var ts, xs := a.Terms(), f.Values();
    AtomMatches(a, f, map[], u);
    assert Agrees(a, f, u) <==> TermAgrees(ts[0], xs[0], u) && TermAgrees(ts[1], xs[1], u) && TermAgrees(ts[2], xs[2], u)
                                && TermAgrees(ts[3], xs[3], u);
    if MatchAtom(a, f, map[]).Some? {
      var w := MatchAtom(a, f, map[]).value;
      assert TermAgrees(ts[0], xs[0], w) && TermAgrees(ts[1], xs[1], w) && TermAgrees(ts[2], xs[2], w);
    }
  }

  /** The rule, or the rule that runs for it, on one fact. */
  lemma LoopFires(e: int, p: int, obj: Term, store: set<Quad>, f: Quad)
    requires obj == Var("x") || obj == Wildcard
    ensures Fire(LoopRule(e, p).(body := [SubjectOf(e, obj)]), store, [f])
         == if f.p == e && (obj == Var("x") ==> f.o == f.s) then Some(Quad(f.s, p, f.s, 0)) else None
  {
    var c := LoopRule(e, p).(body := [SubjectOf(e, obj)]);
    assert c.body[..0] == [] && [f][..0] == [];
    assert MatchBody(c.body[..0], [f][..0]) == Some(map[]);
    MatchSubject(e, obj, f);
    assert MatchBody(c.body, [f]) == MatchAtom(SubjectOf(e, obj), f, map[]);
  }

  lemma LoopQuery(e: int, p: int, obj: Term, store: set<Quad>, x: Quad)
    requires obj == Var("x") || obj == Wildcard
    ensures x in Query(LoopRule(e, p).(body := [SubjectOf(e, obj)]), store, Same(store, 1))
       <==> exists f :: f in store && f.p == e && (obj == Var("x") ==> f.o == f.s) && x == Quad(f.s, p, f.s, 0)
  {
    var c := LoopRule(e, p).(body := [SubjectOf(e, obj)]);
    if x in Query(c, store, Same(store, 1)) {
      var fs := QueryOrigin(c, store, Same(store, 1), x);
      assert fs == [fs[0]];
      LoopFires(e, p, obj, store, fs[0]);
    }
    if f :| f in store && f.p == e && (obj == Var("x") ==> f.o == f.s) && x == Quad(f.s, p, f.s, 0) {
      LoopFires(e, p, obj, store, f);
      QueryMember(c, store, Same(store, 1), [f]);
    }
  }

  lemma LoopRuns(e: int, p: int)
    ensures Seeded(LoopRule(e, p)) == Some(LoopRule(e, p).(body := [SubjectOf(e, Wildcard)]))
    ensures LoopRule(e, p) == LoopRule(e, p).(body := [SubjectOf(e, Var("x"))])
  {
    var c := LoopRule(e, p);
    PatternVars(c.body, 0, "x", e, "x");
    assert Loose(c.body[0]) == SubjectOf(e, Wildcard);
    assert LooseAt(c.body, 0) == [SubjectOf(e, Wildcard)];
    assert Stands(c, c.order, true);
    var run := Seeded(c).value;
    assert run.body == [SubjectOf(e, Wildcard)] && run.negated == [] && c.body == [SubjectOf(e, Var("x"))];
  }

  /** The rows of e, or the loops among them, as loops of p. */
  function AsLoops(e: int, p: int, store: set<Quad>): set<Quad> {
    set f | f in store && f.p == e :: Quad(f.s, p, f.s, 0)
  }

  function Loops(e: int, p: int, store: set<Quad>): set<Quad> {
    set f | f in store && f.p == e && f.o == f.s :: Quad(f.s, p, f.s, 0)
  }

  ghost predicate HasLoop(e: int, store: set<Quad>, s: int) {
    exists h :: h in store && h.p == e && h.s == s && h.o == s
  }

  /** Every row of e counts as a loop.  The rule is met exactly when its subject has a loop as well. */
  lemma RepeatedVariableExactlyWhen(e: int, p: int, store: set<Quad>)
    ensures Inserted(LoopRule(e, p), store) == AsLoops(e, p, store)
    ensures Query(LoopRule(e, p), store, Same(store, 1)) == Loops(e, p, store)
    ensures Inserted(LoopRule(e, p), store) == Query(LoopRule(e, p), store, Same(store, 1))
       <==> forall f :: f in store && f.p == e ==> HasLoop(e, store, f.s)
  {
    var c := LoopRule(e, p);
    LoopRuns(e, p);
    forall x
      ensures x in Inserted(c, store) <==> x in AsLoops(e, p, store)
    {
      LoopQuery(e, p, Wildcard, store, x);
    }
    forall x
      ensures x in Query(c, store, Same(store, 1)) <==> x in Loops(e, p, store)
    {
      LoopQuery(e, p, Var("x"), store, x);
    }
    forall f | f in store && f.p == e
      ensures Quad(f.s, p, f.s, 0) in AsLoops(e, p, store)
      ensures Quad(f.s, p, f.s, 0) in Loops(e, p, store) <==> HasLoop(e, store, f.s)
    {
      LoopsHave(e, p, store, f.s);
    }
    SameLoops(e, p, store);
  }

  lemma LoopsHave(e: int, p: int, store: set<Quad>, s: int)
    ensures Quad(s, p, s, 0) in Loops(e, p, store) <==> HasLoop(e, store, s)
  {
    if h :| h in store && h.p == e && h.s == s && h.o == s {
      assert Quad(h.s, p, h.s, 0) in Loops(e, p, store);
    }
  }

  lemma SameLoops(e: int, p: int, store: set<Quad>)
    ensures (forall f :: f in store && f.p == e ==> HasLoop(e, store, f.s)) ==> AsLoops(e, p, store) == Loops(e, p, store)
  {
    if forall f :: f in store && f.p == e ==> HasLoop(e, store, f.s) {
      forall x | x in AsLoops(e, p, store)
        ensures x in Loops(e, p, store)
      {
        var f :| f in store && f.p == e && x == Quad(f.s, p, f.s, 0);
        LoopsHave(e, p, store, f.s);
      }
    }
  }

  // ------------------------------------------------------------------------------
  // A graph variable in the head
  // ------------------------------------------------------------------------------

  /** The statement names a column that does not exist: it is right exactly when there is nothing to insert. */
  lemma GraphVariableExactlyWhen(c: Clause, store: set<Quad>, k: nat, derived: set<Quad>)
    requires c.head.g.Var? && k < |c.body|
    ensures Inserted(c, store) == {} && Variant(c, k, store, derived) == {}
    ensures Inserted(c, store) == Query(c, store, Same(store, |c.body|)) <==> Query(c, store, Same(store, |c.body|)) == {}
  {
  }

  /** `GRAPH ?g { ?x p ?y } :- GRAPH ?g { ?x e ?y }` */
  function GraphCopyRule(e: int, p: int): Clause {
    Clause([5, e, p], Pattern("x", p, "y").(g := Var("g")), [Pattern("x", e, "y").(g := Var("g"))], [], [], [], [0])
  }

  /** Copying within graphs copies nothing, though each row of e calls for a copy. */
  lemma GraphCopyIsLost(e: int, p: int, store: set<Quad>, f: Quad)
    requires f in store && f.p == e
    ensures Quad(f.s, p, f.o, f.g) in Query(GraphCopyRule(e, p), store, Same(store, 1)) && Inserted(GraphCopyRule(e, p), store) == {}
  {
    var c := GraphCopyRule(e, p);
    var a, u := c.body[0], map["x" := f.s, "y" := f.o, "g" := f.g];
    var ts, xs := a.Terms(), f.Values();
    assert c.body[..0] == [] && [f][..0] == [];
    assert MatchBody(c.body[..0], [f][..0]) == Some(map[]);
    AtomMatches(a, f, map[], u);
    assert TermAgrees(ts[0], xs[0], u) && TermAgrees(ts[1], xs[1], u) && TermAgrees(ts[2], xs[2], u) && TermAgrees(ts[3], xs[3], u);
    var w := MatchAtom(a, f, map[]).value;
    assert TermAgrees(ts[0], xs[0], w) && TermAgrees(ts[2], xs[2], w) && TermAgrees(ts[3], xs[3], w);
    assert MatchBody(c.body, [f]) == Some(w);
    QueryMember(c, store, Same(store, 1), [f]);
  }

  // ------------------------------------------------------------------------------
  // Negation
  // ------------------------------------------------------------------------------

  /** `?x p ?y :- ?x e ?y, NOT n`, the negated atom written before or after the positive one. */
  function NotRule(e: int, p: int, n: Atom, place: nat): Clause {
    Clause([6, e, p, place], Pattern("x", p, "y"), [Pattern("x", e, "y")], [n], [place], [], [0])
  }

  function Row(f: Quad): Valuation {
    map["x" := f.s, "y" := f.o]
  }

  lemma NotFires(e: int, p: int, n: Atom, place: nat, store: set<Quad>, f: Quad)
    ensures Fire(NotRule(e, p, n, place), store, [f])
         == if f.p == e && !Refuted(n, store, Row(f)) then Some(Quad(f.s, p, f.o, 0)) else None
  {
    var c := NotRule(e, p, n, place);
    assert c.body[..0] == [] && [f][..0] == [];
    assert MatchBody(c.body[..0], [f][..0]) == Some(map[]);
    assert c.negated[0] == n && c.negated[0] in c.negated;
    if f.p == e {
      MatchPattern("x", e, "y", f, map[]);
      assert map[]["x" := f.s]["y" := f.o] == Row(f);
      assert MatchBody(c.body, [f]) == Some(Row(f));
    }
  }

  lemma NotQuery(e: int, p: int, n: Atom, place: nat, store: set<Quad>, d: set<Quad>)
    ensures forall x :: x in Query(NotRule(e, p, n, place), store, [d])
                   <==> exists f :: f in d && f.p == e && !Refuted(n, store, Row(f)) && x == Quad(f.s, p, f.o, 0)
  {
    var c := NotRule(e, p, n, place);
    forall x
      ensures x in Query(c, store, [d])
         <==> exists f :: f in d && f.p == e && !Refuted(n, store, Row(f)) && x == Quad(f.s, p, f.o, 0)
    {
      if x in Query(c, store, [d]) {
        var fs := QueryOrigin(c, store, [d], x);
        assert fs == [fs[0]];
        NotFires(e, p, n, place, store, fs[0]);
      }
      if f :| f in d && f.p == e && !Refuted(n, store, Row(f)) && x == Quad(f.s, p, f.o, 0) {
        NotFires(e, p, n, place, store, f);
        QueryMember(c, store, [d], [f]);
      }
    }
  }

  /** Two negated atoms make a difference exactly when they do so for a fact that is matched. */
  lemma NotRulesDiffer(e: int, p: int, n: Atom, k: Atom, place: nat, store: set<Quad>, d: set<Quad>)
    requires forall v :: Refuted(n, store, v) ==> Refuted(k, store, v)
    ensures Query(NotRule(e, p, k, place), store, [d]) == Query(NotRule(e, p, n, place), store, [d])
       <==> forall f :: f in d && f.p == e && Refuted(k, store, Row(f)) ==> Refuted(n, store, Row(f))
  {
    NotQuery(e, p, n, place, store, d);
    NotQuery(e, p, k, place, store, d);
    if Query(NotRule(e, p, k, place), store, [d]) == Query(NotRule(e, p, n, place), store, [d]) {
      forall f | f in d && f.p == e && Refuted(k, store, Row(f))
        ensures Refuted(n, store, Row(f))
      {
        if !Refuted(n, store, Row(f)) {
          OnlyOneInserts(e, p, n, k, place, store, d, f);
          assert false;
        }
      }
    }
  }

  lemma OnlyOneInserts(e: int, p: int, n: Atom, k: Atom, place: nat, store: set<Quad>, d: set<Quad>, f: Quad)
    requires f in d && f.p == e && Refuted(k, store, Row(f)) && !Refuted(n, store, Row(f))
    ensures var x := Quad(f.s, p, f.o, 0);
            x in Query(NotRule(e, p, n, place), store, [d]) && x !in Query(NotRule(e, p, k, place), store, [d])
  {
    var x := Quad(f.s, p, f.o, 0);
    NotQuery(e, p, n, place, store, d);
    NotQuery(e, p, k, place, store, d);
    forall h | h in d && x == Quad(h.s, p, h.o, 0)
      ensures Refuted(k, store, Row(h))
    {
      assert Row(h) == Row(f);
    }
  }

  lemma NotRuns(e: int, p: int, n: Atom, place: nat)
    ensures Seeded(NotRule(e, p, n, place)) == Some(NotRule(e, p, Visible(n, {"x", "y"}), place))
    ensures Varied(NotRule(e, p, n, 0)) == Some(NotRule(e, p, Visible(n, {}), 0))
  {
    var c, early := NotRule(e, p, n, place), NotRule(e, p, n, 0);
    CopyIsPlain(e, p);
    OnePatternVars(e);
    assert Stands(c, c.order, true) && Stands(early, Written(1), false);
    assert LooseAt(c.body, 0) == c.body;
    assert early.body[..0] == [] && Vars([]) == {};
    var full, variant := Seeded(c).value, Varied(early).value;
    assert full.body == c.body && full.negated == [Visible(n, {"x", "y"})];
    assert variant.body == c.body && variant.negated == [Visible(n, {})];
  }

  lemma OnePatternVars(e: int)
    ensures Vars([Pattern("x", e, "y")]) == {"x", "y"}
  {
    PatternVars([Pattern("x", e, "y")], 0, "x", e, "y");
    forall n | n in Vars([Pattern("x", e, "y")])
      ensures n in {"x", "y"}
    {
      VarsOfAtom(Pattern("x", e, "y"), n);
    }
  }

  // What the negated atoms of these rules match: a fact of q, a loop of q, or a fact of q with
  // the subject and object of the row.

  lemma AnyMatches(q: int, g: Quad, v: Valuation)
    ensures MatchAtom(Atom(Wildcard, Const(q), Wildcard, DefaultGraph), g, v).Some? <==> g.p == q
  {
    var a := Atom(Wildcard, Const(q), Wildcard, DefaultGraph);
    var ts, xs := a.Terms(), g.Values();
    AtomMatches(a, g, v, v);
    assert Agrees(a, g, v) <==> TermAgrees(ts[0], xs[0], v) && TermAgrees(ts[1], xs[1], v) && TermAgrees(ts[2], xs[2], v)
                                && TermAgrees(ts[3], xs[3], v);
  }

  lemma LoopMatches(q: int, g: Quad, v: Valuation)
    requires "z" !in v
    ensures MatchAtom(Atom(Var("z"), Const(q), Var("z"), DefaultGraph), g, v).Some? <==> g.p == q && g.s == g.o
  {
    var a, u := Atom(Var("z"), Const(q), Var("z"), DefaultGraph), v["z" := g.s];
    var ts, xs := a.Terms(), g.Values();
    AtomMatches(a, g, v, u);
    assert Agrees(a, g, u) <==> TermAgrees(ts[0], xs[0], u) && TermAgrees(ts[1], xs[1], u) && TermAgrees(ts[2], xs[2], u)
                                && TermAgrees(ts[3], xs[3], u);
    if MatchAtom(a, g, v).Some? {
      var w := MatchAtom(a, g, v).value;
      assert TermAgrees(ts[0], xs[0], w) && TermAgrees(ts[1], xs[1], w) && TermAgrees(ts[2], xs[2], w);
    }
  }

  lemma RowMatches(q: int, graph: Term, g: Quad, f: Quad)
    requires graph == Wildcard || graph == DefaultGraph || graph.Const?
    ensures MatchAtom(Atom(Var("x"), Const(q), Var("y"), graph), g, Row(f)).Some?
       <==> g.p == q && g.s == f.s && g.o == f.o && (graph.Const? ==> g.g == graph.id)
  {
    var a, v := Atom(Var("x"), Const(q), Var("y"), graph), Row(f);
    var ts, xs := a.Terms(), g.Values();
    AtomMatches(a, g, v, v);
    assert Agrees(a, g, v) <==> TermAgrees(ts[0], xs[0], v) && TermAgrees(ts[1], xs[1], v) && TermAgrees(ts[2], xs[2], v)
                                && TermAgrees(ts[3], xs[3], v);
    if MatchAtom(a, g, v).Some? {
      var w := MatchAtom(a, g, v).value;
      assert TermAgrees(ts[0], xs[0], w) && TermAgrees(ts[1], xs[1], w) && TermAgrees(ts[2], xs[2], w) && TermAgrees(ts[3], xs[3], w);
    }
  }

  /** `NOT ?z q ?z`: NOT EXISTS compares nothing, so that any fact of q stops the rule where a loop should. */
  lemma UnboundNegationExactlyWhen(e: int, q: int, p: int, store: set<Quad>)
    ensures var c := NotRule(e, p, Atom(Var("z"), Const(q), Var("z"), DefaultGraph), 1);
            (Inserted(c, store) == Query(c, store, [store])
             <==> ((forall f :: f in store ==> f.p != e) || (forall f :: f in store ==> f.p != q)
                   || exists f :: f in store && f.p == q && f.s == f.o))
  {
    var n, k := Atom(Var("z"), Const(q), Var("z"), DefaultGraph), Atom(Wildcard, Const(q), Wildcard, DefaultGraph);
    NotRuns(e, p, n, 1);
    assert Visible(n, {"x", "y"}) == k && Same(store, 1) == [store];
    forall v, g | "z" !in v
      ensures MatchAtom(n, g, v).Some? <==> g.p == q && g.s == g.o
    {
      LoopMatches(q, g, v);
    }
    forall v: Valuation, g
      ensures MatchAtom(k, g, v).Some? <==> g.p == q
      ensures MatchAtom(n, g, v).Some? ==> g.p == q
    {
      AnyMatches(q, g, v);
    }
    NotRulesDiffer(e, p, n, k, 1, store, store);
  }

  /** `NOT GRAPH <graph> { ?x q ?y }`: a fact in any other graph stops the rule as well. */
  lemma NegatedGraphExactlyWhen(e: int, q: int, p: int, graph: int, store: set<Quad>)
    ensures var c := NotRule(e, p, Atom(Var("x"), Const(q), Var("y"), Const(graph)), 1);
            (Inserted(c, store) == Query(c, store, [store])
             <==> forall f, g :: (f in store && f.p == e && g in store && g.p == q && g.s == f.s && g.o == f.o)
                                 ==> Quad(f.s, q, f.o, graph) in store)
  {
    var n, k := Atom(Var("x"), Const(q), Var("y"), Const(graph)), Atom(Var("x"), Const(q), Var("y"), Wildcard);
    NotRuns(e, p, n, 1);
    assert Visible(n, {"x", "y"}) == k && Same(store, 1) == [store];
    forall f, g: Quad
      ensures MatchAtom(n, g, Row(f)).Some? <==> g == Quad(f.s, q, f.o, graph)
      ensures MatchAtom(k, g, Row(f)).Some? <==> g.p == q && g.s == f.s && g.o == f.o
    {
      RowMatches(q, Const(graph), g, f);
      RowMatches(q, Wildcard, g, f);
    }
    forall v | Refuted(n, store, v)
      ensures Refuted(k, store, v)
    {
      var g :| g in store && MatchAtom(n, g, v).Some?;
      GraphDropped(n, k, g, v);
    }
    NotRulesDiffer(e, p, n, k, 1, store, store);
  }

  lemma GraphDropped(n: Atom, k: Atom, g: Quad, v: Valuation)
    requires n.p.Const? && k == n.(g := Wildcard) && MatchAtom(n, g, v).Some?
    ensures MatchAtom(k, g, v).Some?
  {
    var u := MatchAtom(n, g, v).value;
    AtomMatches(n, g, v, v);
    var ts, xs, ks := n.Terms(), g.Values(), k.Terms();
    assert TermAgrees(ts[0], xs[0], u) && TermAgrees(ts[1], xs[1], u) && TermAgrees(ts[2], xs[2], u);
    assert Agrees(k, g, u);
    AtomMatches(k, g, v, u);
  }

  /**
    `?x p ?y :- NOT ?x q ?y, ?x e ?y`: in a variant the negation is compiled before its variables
    are bound, and any fact of q stops the rule.
    */
  lemma EarlyNegationExactlyWhen(e: int, q: int, p: int, store: set<Quad>, d: set<Quad>)
    ensures var c := NotRule(e, p, Pattern("x", q, "y"), 0);
            (Variant(c, 0, store, d) == Query(c, store, [d])
             <==> ((forall g :: g in store ==> g.p != q)
                   || forall f :: f in d && f.p == e ==> exists g :: g in store && g.p == q && g.s == f.s && g.o == f.o))
  {
    var n, k := Pattern("x", q, "y"), Atom(Wildcard, Const(q), Wildcard, DefaultGraph);
    NotRuns(e, p, n, 0);
    assert Visible(n, {}) == k && Same(store, 1)[0 := d] == [d];
    forall f, g: Quad
      ensures MatchAtom(n, g, Row(f)).Some? <==> g.p == q && g.s == f.s && g.o == f.o
    {
      RowMatches(q, DefaultGraph, g, f);
    }
    forall v: Valuation, g
      ensures MatchAtom(k, g, v).Some? <==> g.p == q
      ensures MatchAtom(n, g, v).Some? ==> g.p == q
    {
      AnyMatches(q, g, v);
    }
    NotRulesDiffer(e, p, n, k, 0, store, d);
  }

  // ------------------------------------------------------------------------------
  // An atom that mentions nothing
  // ------------------------------------------------------------------------------

  /** Two atoms, the second without variable or constant, are two tables without JOIN: the statement does not parse. */
  lemma NothingToJoinExactlyWhen(c: Clause, store: set<Quad>, k: nat, derived: set<Quad>)
    requires |c.body| == 2 && c.order == [0, 1] && !Joinable(c.body[1]) && k < 2
    ensures Inserted(c, store) == {} && Variant(c, k, store, derived) == {}
    ensures Inserted(c, store) == Query(c, store, Same(store, 2)) <==> Query(c, store, Same(store, 2)) == {}
  {
    var written := Written(2);
    assert c.order[1] == 1 && written[1] == 1;
    assert !Stands(c, c.order, true) && !Stands(c, written, false);
  }
}
