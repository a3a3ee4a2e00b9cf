/**
  Programs of two rules, and what a call of the semi-naive engine makes of them.
  */
module CallCases {
  import opened Prelude
  import opened RuleSafety
  import opened Datalog
  import opened RuleSql
  import opened CompiledRules
  import opened Subsumption
  import opened SemiNaive
  import opened FreshCalls

  lemma BodiesOfTwo(e: int, p: int)
    ensures BodyPreds(CopyRule(e, p)) == [e] && BodyPreds(JoinRule(e, p)) == [e, p]
  {
  }

  lemma TwoDerivedPreds(rules: seq<Clause>, p: int, q: int)
    requires |rules| == 2 && HeadPred(rules[0]) == p && HeadPred(rules[1]) == q
    ensures Derived(rules) == {p, q}
  {
    assert p in Derived(rules) && q in Derived(rules);
  }

  // ------------------------------------------------------------------------------
  // Dropped rules
  // ------------------------------------------------------------------------------

  /** The second of two rules goes. */
  lemma OnlyFirstActive(rules: seq<Clause>)
    requires |rules| == 2 && Subsumes(rules, 0, 1) && rules[0].text != rules[1].text
    ensures Active(rules) == [rules[0]]
  {
    var texts := EliminatedTexts(rules);
    assert Subsumed(rules, 1);
    assert rules[1].text in texts;
    assert !Subsumes(rules, 1, 0) && !Subsumes(rules, 0, 0);
    assert !Subsumed(rules, 0);
    assert rules[0].text !in texts;
    assert rules[..1] == [rules[0]] && rules[..1][..0] == [];
    assert Keep(rules[..1][..0], texts) == [];
    assert Keep(rules[..1], texts) == [rules[0]];
  }

  /** All rows of e as facts of p. */
  function Copies(e: int, p: int, store: set<Quad>): set<Quad> {
    set h | h in store && h.p == e :: Quad(h.s, p, h.o, 0)
  }

  lemma CopiesAreRound(e: int, p: int, store: set<Quad>)
    ensures FirstRound([CopyRule(e, p)], store) == Copies(e, p, store)
  {
    var rules := [CopyRule(e, p)];
    CopyQuery(e, p, store);
    assert rules[0] == CopyRule(e, p) && |rules[0].body| == 1;
    forall f
      ensures f in FirstRound(rules, store) <==> f in Copies(e, p, store)
    {
      if f in Copies(e, p, store) {
        assert f in Query(rules[0], store, Same(store, |rules[0].body|));
      }
    }
  }

  /** When only a copying rule is active a call adds the copies, the least model of that rule. */
  lemma CopyCall(e: int, p: int, rules: seq<Clause>, before: set<Quad>, after: set<Quad>)
    requires e != p && Active(rules) == [CopyRule(e, p)] && Derived(rules) == {p} && Called(rules, before, after)
    ensures after == before + Copies(e, p, before)
    ensures IsLeastModel({p}, [CopyRule(e, p)], before, after)
  {
    var run := [CopyRule(e, p)];
    CopyIsPlain(e, p);
    assert run[0] == CopyRule(e, p) && Derived(run) == {HeadPred(run[0])};
    assert CopyRule(e, p).body == [Pattern("x", e, "y")];
    assert Regular(run, {p}) && LinearIn(run, {p}) && NoSelfRecursion(run);
    OnceIsRound(run, before);
    CopiesAreRound(e, p, before);
    FirstRoundIsFair(run, {p}, before);
    var d :| LeastSettled(run, {p}, before, AllOnce(run, before), d) && after == before + d;
    LinearRulesAreExact(run, {p}, before, AllOnce(run, before), d);
    assert !DerivedAtom(run[0].body[0], {p});
    assert Variants(run, {p}, before, AllOnce(run, before)) == {};
    assert Settled(run, {p}, before, AllOnce(run, before));
  }

  /** `?x p ?y :- ?x e ?y` and `?x p ?z :- ?x e ?y, ?y p ?z`: the usual closure. */
  function ClosureRules(e: int, p: int): seq<Clause> {
    [CopyRule(e, p), JoinRule(e, p)]
  }

  ghost predicate Transitive(e: int, store: set<Quad>) {
    forall f, g :: f in store && g in store && f.p == e && g.p == e && f.o == g.s ==>
      exists h :: h in store && h.p == e && h.s == f.s && h.o == g.o
  }

  /**
    The recursive rule is dropped before anything runs, and the call only copies e to p.  That
    is the closure exactly when e is transitive already.
    */
  lemma ClosureExactlyWhen(e: int, p: int, base: set<Quad>, after: set<Quad>)
    requires e != p && Fresh(ClosureRules(e, p), base) && Called(ClosureRules(e, p), base, after)
    ensures Active(ClosureRules(e, p)) == [CopyRule(e, p)] && after == base + Copies(e, p, base)
    ensures IsMeaning(ClosureRules(e, p), base, after) <==> Transitive(e, base)
  {
    var rules := ClosureRules(e, p);
    CopyIsPlain(e, p);
    JoinIsPlain(e, p);
    TwoDerivedPreds(rules, p, p);
    BodiesOfTwo(e, p);
    assert multiset([e]) <= multiset([e, p]);
    OnlyFirstActive(rules);
    CopyCall(e, p, rules, base, after);
    DroppingIsHarmlessExactlyWhen(rules, base, after);
    CopiedJoin(e, p, base, after);
    if FirstRound(rules, after) <= after {
      RoundHasRule(rules, 1, after);
    }
    if Transitive(e, base) {
      ClosedRound(e, p, base, after);
    }
  }

  lemma RoundHasRule(rules: seq<Clause>, i: nat, m: set<Quad>)
    requires i < |rules|
    ensures Query(rules[i], m, Same(m, |rules[i].body|)) <= FirstRound(rules, m)
  {
  }

  lemma CopyOf(e: int, p: int, base: set<Quad>, f: Quad)
    requires e != p && (forall q :: q in base ==> q.p != p) && f.p == p
    ensures f in base + Copies(e, p, base) <==> f.g == 0 && exists h :: h in base && h.p == e && h.s == f.s && h.o == f.o
  {
    if h :| h in base && h.p == e && h.s == f.s && h.o == f.o && f.g == 0 {
      assert f == Quad(h.s, p, h.o, 0);
    }
  }

  /** On the copies the joining rule closes exactly a transitive relation. */
  lemma CopiedJoin(e: int, p: int, base: set<Quad>, after: set<Quad>)
    requires e != p && (forall q :: q in base ==> q.p != p) && after == base + Copies(e, p, base)
    ensures Query(JoinRule(e, p), after, Same(after, 2)) <= after <==> Transitive(e, base)
  {
    var c, tables := JoinRule(e, p), Same(after, 2);
    JoinIsPlain(e, p);
    if Query(c, after, tables) <= after {
      forall f, g | f in base && g in base && f.p == e && g.p == e && f.o == g.s
        ensures exists h :: h in base && h.p == e && h.s == f.s && h.o == g.o
      {
        var copy, x := Quad(g.s, p, g.o, 0), Quad(f.s, p, g.o, 0);
        assert copy in Copies(e, p, base);
        JoinFires(e, p, after, f, copy);
        QueryMember(c, after, tables, [f, copy]);
        CopyOf(e, p, base, x);
      }
    }
    if Transitive(e, base) {
      forall x | x in Query(c, after, tables)
        ensures x in after
      {
        var fs := QueryOrigin(c, after, tables, x);
        JoinShape(e, p, after, fs, x);
        JoinedCopies(e, p, base, fs[0], fs[1]);
      }
    }
  }

  lemma JoinedCopies(e: int, p: int, base: set<Quad>, a: Quad, b: Quad)
    requires e != p && (forall q :: q in base ==> q.p != p) && Transitive(e, base)
    requires a in base + Copies(e, p, base) && b in base + Copies(e, p, base) && a.p == e && b.p == p && a.o == b.s
    ensures Quad(a.s, p, b.o, 0) in Copies(e, p, base)
  {
    CopyOf(e, p, base, b);
    var h :| h in base && h.p == e && h.s == b.s && h.o == b.o;
    assert a in base;
    var k :| k in base && k.p == e && k.s == a.s && k.o == h.o;
  }

  lemma JoinShape(e: int, p: int, m: set<Quad>, fs: seq<Quad>, f: Quad)
    requires Fires(JoinRule(e, p), m, m, fs, f)
    ensures |fs| == 2 && fs[0] in m && fs[1] in m && fs[0].p == e && fs[1].p == p && f == Quad(fs[0].s, p, fs[1].o, 0)
    ensures fs[0].o == fs[1].s
  {
    JoinIsPlain(e, p);
    FiredHead(JoinRule(e, p), m, fs);
    assert JoinRule(e, p).body[0].p == Const(e) && JoinRule(e, p).body[1].p == Const(p);
    assert fs == [fs[0], fs[1]];
    JoinFires(e, p, m, fs[0], fs[1]);
  }

  lemma ClosedRound(e: int, p: int, base: set<Quad>, after: set<Quad>)
    requires e != p && (forall q :: q in base ==> q.p != p) && after == base + Copies(e, p, base) && Transitive(e, base)
    ensures FirstRound(ClosureRules(e, p), after) <= after
  {
    var rules := ClosureRules(e, p);
    CopiedJoin(e, p, base, after);
    CopyQuery(e, p, after);
    forall f | f in FirstRound(rules, after)
      ensures f in after
    {
      var i: nat :| i < |rules| && f in Query(rules[i], after, Same(after, |rules[i].body|));
      if i == 0 {
        var h :| h in after && h.p == e && f == Quad(h.s, p, h.o, 0);
        assert h in base;
      }
    }
  }

  /** `?y p ?x :- ?x e ?y` */
  function InverseRule(e: int, p: int): Clause {
    Clause([2, e, p], Pattern("y", p, "x"), [Pattern("x", e, "y")], [], [], [], [0])
  }

  /** The symmetric closure of e. */
  function BothWays(e: int, p: int): seq<Clause> {
    [CopyRule(e, p), InverseRule(e, p)]
  }

  lemma InverseIsPlain(e: int, p: int)
    ensures Plain(InverseRule(e, p)) && InverseRule(e, p).Valid()
    ensures HeadPred(InverseRule(e, p)) == p && (SelfRecursive(InverseRule(e, p)) <==> e == p)
  {
    PatternVars(InverseRule(e, p).body, 0, "x", e, "y");
    assert InverseRule(e, p).body[0].p == Const(e);
  }

  lemma InverseFires(e: int, p: int, store: set<Quad>, f: Quad)
    requires f.p == e
    ensures Fire(InverseRule(e, p), store, [f]) == Some(Quad(f.o, p, f.s, 0))
  {
    var c := InverseRule(e, p);
    assert c.body[..0] == [] && [f][..0] == [];
    assert MatchBody(c.body[..0], [f][..0]) == Some(map[]);
    MatchPattern("x", e, "y", f, map[]);
  }

  /**
    The rule for the other direction is dropped as if it were the same rule, whatever is in the
    store.  The call is exact exactly when that rule would have added nothing.
    */
  lemma BothWaysExactlyWhen(e: int, p: int, before: set<Quad>, after: set<Quad>)
    requires e != p && Called(BothWays(e, p), before, after)
    ensures Active(BothWays(e, p)) == [CopyRule(e, p)] && after == before + Copies(e, p, before)
    ensures IsMeaning(BothWays(e, p), before, after)
       <==> forall f :: f in before && f.p == e ==> Quad(f.o, p, f.s, 0) in after
  {
    var rules := BothWays(e, p);
    CopyIsPlain(e, p);
    InverseIsPlain(e, p);
    TwoDerivedPreds(rules, p, p);
    OnlyFirstActive(rules);
    CopyCall(e, p, rules, before, after);
    DroppingIsHarmlessExactlyWhen(rules, before, after);
    if FirstRound(rules, after) <= after {
      forall f | f in before && f.p == e
        ensures Quad(f.o, p, f.s, 0) in after
      {
        InverseFires(e, p, after, f);
        QueryMember(rules[1], after, Same(after, |rules[1].body|), [f]);
        RoundHasRule(rules, 1, after);
      }
    }
    if forall f :: f in before && f.p == e ==> Quad(f.o, p, f.s, 0) in after {
      forall x | x in FirstRound(rules, after)
        ensures x in after
      {
        BothWaysClosed(e, p, before, after, x);
      }
    }
  }

  lemma BothWaysClosed(e: int, p: int, before: set<Quad>, after: set<Quad>, x: Quad)
    requires e != p && after == before + Copies(e, p, before) && x in FirstRound(BothWays(e, p), after)
    requires forall f :: f in before && f.p == e ==> Quad(f.o, p, f.s, 0) in after
    ensures x in after
  {
    var rules := BothWays(e, p);
    var i: nat :| i < |rules| && x in Query(rules[i], after, Same(after, |rules[i].body|));
    var f := ReadsEdge(e, p, rules[i], after, x);
    assert f in before;
    assert Quad(f.s, p, f.o, 0) in Copies(e, p, before);
  }

  lemma ReadsEdge(e: int, p: int, c: Clause, store: set<Quad>, x: Quad) returns (f: Quad)
    requires c in BothWays(e, p) && x in Query(c, store, Same(store, |c.body|))
    ensures f in store && f.p == e && (x == Quad(f.s, p, f.o, 0) || x == Quad(f.o, p, f.s, 0))
  {
    var fs := QueryOrigin(c, store, Same(store, |c.body|), x);
    assert c.Valid() && c.body == [Pattern("x", e, "y")];
    FiredHead(c, store, fs);
    f := fs[0];
    assert fs == [f];
    CopyFires(e, p, store, f);
    InverseFires(e, p, store, f);
  }

  /** A chain of two edges: the closure of it is missed. */
  lemma ChainIsLost(e: int, p: int, s: int, m: int, o: int, after: set<Quad>)
    requires e != p && s != m && m != o && s != o
    requires Called(ClosureRules(e, p), {Quad(s, e, m, 0), Quad(m, e, o, 0)}, after)
    ensures Quad(s, p, o, 0) !in after && !IsMeaning(ClosureRules(e, p), {Quad(s, e, m, 0), Quad(m, e, o, 0)}, after)
  {
    var base := {Quad(s, e, m, 0), Quad(m, e, o, 0)};
    CopyIsPlain(e, p);
    JoinIsPlain(e, p);
    TwoDerivedPreds(ClosureRules(e, p), p, p);
    ClosureExactlyWhen(e, p, base, after);
    CopyOf(e, p, base, Quad(s, p, o, 0));
    TwoEdges(e, s, m, o);
  }

  lemma TwoEdges(e: int, s: int, m: int, o: int)
    requires s != m && m != o && s != o
    ensures var base := {Quad(s, e, m, 0), Quad(m, e, o, 0)};
            !Transitive(e, base) && !(exists h :: h in base && h.p == e && h.s == s && h.o == o)
  {
    var base, f, g := {Quad(s, e, m, 0), Quad(m, e, o, 0)}, Quad(s, e, m, 0), Quad(m, e, o, 0);
    assert f in base && g in base && f.o == g.s;
    forall h | h in base
      ensures h.s != s || h.o != o
    {
    }
  }

  /** A rule that is listed twice runs not at all. */
  lemma ListedTwiceDisappears(c: Clause, before: set<Quad>, after: set<Quad>)
    requires Called([c, c], before, after)
    ensures Active([c, c]) == [] && after == before
  {
    var rules := [c, c];
    assert Subsumes(rules, 0, 1) && Subsumed(rules, 1);
    var texts, run := EliminatedTexts(rules), Active(rules);
    assert rules[1].text in texts;
    assert rules[..1] == [c] && rules[..1][..0] == [];
    assert Keep(rules[..1][..0], texts) == [] && Keep(rules[..1], texts) == [];
    assert AllOnce(run, before) == {} && Variants(run, Derived(rules), before, {}) == {};
    assert Settled(run, Derived(rules), before, {});
  }
}
