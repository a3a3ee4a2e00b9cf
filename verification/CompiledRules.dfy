/**
  What running a rule inserts, when that is what the rule says, and rules for which it is not.
  */
module CompiledRules {
  import opened Prelude
  import opened RuleSafety
  import opened Datalog
  import opened RuleSql

  /** The full query of a rule on the store. */
  function Inserted(c: Clause, store: set<Quad>): set<Quad> {
    Asked(Seeded(c), store, Same(store, |c.body|))
  }

  /** What running a rule inserts. */
  function Derive(c: Clause, store: set<Quad>): set<Quad> {
    if SelfRecursive(c) then RecursiveQuery(c, store) else Inserted(c, store)
  }

  /** The table of one atom replaced by the facts derived so far. */
  function Variant(c: Clause, k: nat, store: set<Quad>, derived: set<Quad>): set<Quad>
    requires k < |c.body|
  {
    Asked(Varied(c), store, Same(store, |c.body|)[k := derived])
  }

  method RunRule(c: Clause, store: set<Quad>) returns (out: set<Quad>)
    requires c.Valid()
    ensures out == Derive(c, store)
  {
    if SelfRecursive(c) {
      out := RecursiveQuery(c, store);
    } else {
      var st := CompileNonrecursive(c);
      out := Rows(st, store, Same(store, |c.body|));
    }
  }

  /** What all rules insert, each on the store as it is. */
  function AllOnce(run: seq<Clause>, store: set<Quad>): set<Quad> {
    set i: nat, f | i < |run| && f in Derive(run[i], store) :: f
  }

  lemma OnceMore(run: seq<Clause>, store: set<Quad>)
    requires run != []
    ensures AllOnce(run, store) == AllOnce(run[..|run| - 1], store) + Derive(run[|run| - 1], store)
  {
    var n := |run| - 1;
    forall f
      ensures f in AllOnce(run, store) <==> f in AllOnce(run[..n], store) || f in Derive(run[n], store)
    {
      if f in AllOnce(run, store) {
        var i: nat :| i < |run| && f in Derive(run[i], store);
        assert i < n ==> run[..n][i] == run[i];
      }
      if f in AllOnce(run[..n], store) {
        var i: nat :| i < n && f in Derive(run[..n][i], store);
        assert run[..n][i] == run[i];
      }
    }
  }

  // ------------------------------------------------------------------------------
  // Rules that run as written
  // ------------------------------------------------------------------------------

  predicate BoundIn(t: Term, names: set<string>) {
    t.Var? ==> t.name in names
  }

  predicate PlainHead(c: Clause) {
    && (c.head.s.Var? || c.head.s.Const?) && BoundIn(c.head.s, Vars(c.body))
    && (c.head.o.Var? || c.head.o.Const?) && BoundIn(c.head.o, Vars(c.body))
    && !c.head.g.Var?
  }

  /** The first atom, as written and by cost, repeats no variable; all others mention a variable or a constant. */
  predicate PlainBody(c: Clause) {
    && c.body != [] && |c.order| == |c.body| && c.order[0] < |c.body|
    && Loose(c.body[0]) == c.body[0] && Loose(c.body[c.order[0]]) == c.body[c.order[0]]
    && forall i :: 0 <= i < |c.body| && (i != 0 || i != c.order[0]) ==> Joinable(c.body[i])
  }

  /** What is negated or tested is bound by then, and no graph is negated. */
  predicate PlainLiterals(c: Clause) {
    && (forall i :: 0 <= i < |c.negated| ==>
          var a, names := c.negated[i], Vars(c.body[..c.Place(i)]);
          BoundIn(a.s, names) && BoundIn(a.o, names) && !a.g.Var? && !a.g.Const?)
    && forall i: nat :: i < |c.tests| ==> c.tests[i].vars <= Vars(c.body[..TestPlace(c, i)])
  }

  predicate Plain(c: Clause) {
    PlainHead(c) && PlainBody(c) && PlainLiterals(c)
  }

  ghost predicate PlainRules(rules: seq<Clause>) {
    forall c :: c in rules ==> Plain(c)
  }

  lemma PrefixVars(body: seq<Atom>, n: nat)
    requires n <= |body|
    ensures Vars(body[..n]) <= Vars(body)
  {
    forall x | x in Vars(body[..n])
      ensures x in Vars(body)
    {
      var i: nat, t :| i < n && t in body[..n][i].Terms() && t.Var? && t.name == x;
      assert t in body[i].Terms();
    }
  }

  /** Both statements of a rule run the rule as it is written exactly when it is plain. */
  lemma RunsAsWrittenExactlyWhen(c: Clause)
    requires c.Valid()
    ensures Plain(c) <==> Seeded(c) == Some(c) && Varied(c) == Some(c)
  {
    if Plain(c) {
      PlainStands(c);
      PlainNegated(c);
    }
    if Seeded(c) == Some(c) && Varied(c) == Some(c) {
      WrittenIsPlain(c);
    }
  }

  lemma PlainStands(c: Clause)
    requires c.Valid() && PlainHead(c) && PlainBody(c)
    ensures Stands(c, c.order, true) && Stands(c, Written(|c.body|), false)
    ensures LooseAt(c.body, 0) == c.body && LooseAt(c.body, c.order[0]) == c.body
  {
    forall i | 0 < i < |c.order|
      ensures Joinable(c.body[c.order[i]])
    {
      assert c.order[i] != c.order[0];
    }
  }

  lemma PlainNegated(c: Clause)
    requires c.Valid() && Plain(c) && Stands(c, c.order, true) && Stands(c, Written(|c.body|), false)
    requires LooseAt(c.body, 0) == c.body && LooseAt(c.body, c.order[0]) == c.body
    ensures Seeded(c) == Some(c) && Varied(c) == Some(c)
  {
    forall i | 0 <= i < |c.negated|
      ensures Visible(c.negated[i], Vars(c.body)) == c.negated[i] == Visible(c.negated[i], Vars(c.body[..c.Place(i)]))
    {
      PrefixVars(c.body, c.Place(i));
    }
    assert seq(|c.negated|, i requires 0 <= i < |c.negated| => Visible(c.negated[i], Vars(c.body))) == c.negated;
    assert seq(|c.negated|, i requires 0 <= i < |c.negated| => Visible(c.negated[i], Vars(c.body[..c.Place(i)]))) == c.negated;
  }

  lemma WrittenIsPlain(c: Clause)
    requires c.Valid() && Seeded(c) == Some(c) && Varied(c) == Some(c)
    ensures Plain(c)
  {
    var written := Written(|c.body|);
    assert Stands(c, c.order, true) && Stands(c, written, false);
    assert LooseAt(c.body, c.order[0])[c.order[0]] == Loose(c.body[c.order[0]]);
    assert LooseAt(c.body, 0)[0] == Loose(c.body[0]);
    forall i | 0 <= i < |c.body| && (i != 0 || i != c.order[0])
      ensures Joinable(c.body[i])
    {
      if i != 0 {
        assert written[i] == i;
      } else {
        assert i in c.order;
        var j :| 0 <= j < |c.order| && c.order[j] == i;
      }
    }
    forall i | 0 <= i < |c.negated|
      ensures Visible(c.negated[i], Vars(c.body[..c.Place(i)])) == c.negated[i]
    {
      assert Varied(c).value.negated[i] == c.negated[i];
    }
  }

  lemma PlainRuns(c: Clause, store: set<Quad>)
    requires c.Valid() && Plain(c)
    ensures Inserted(c, store) == Query(c, store, Same(store, |c.body|))
    ensures forall k: nat, d :: k < |c.body| ==> Variant(c, k, store, d) == Query(c, store, Same(store, |c.body|)[k := d])
  {
    RunsAsWrittenExactlyWhen(c);
  }

  ghost predicate NoSelfRecursion(rules: seq<Clause>) {
    forall c :: c in rules ==> !SelfRecursive(c)
  }

  /** Without rules that mention their own head all at once is one round. */
  lemma OnceIsRound(run: seq<Clause>, store: set<Quad>)
    requires ValidRules(run) && PlainRules(run) && NoSelfRecursion(run)
    ensures AllOnce(run, store) == FirstRound(run, store)
  {
    forall i: nat | i < |run|
      ensures Derive(run[i], store) == Query(run[i], store, Same(store, |run[i].body|))
    {
      assert run[i] in run;
      PlainRuns(run[i], store);
    }
  }

  // ------------------------------------------------------------------------------
  // The predicates of what runs
  // ------------------------------------------------------------------------------

  /** The rule that runs differs in details of its atoms, not in its predicates. */
  ghost predicate SamePreds(c: Clause, k: Clause) {
    && k.head == c.head && |k.body| == |c.body| && |k.negated| == |c.negated|
    && (forall i :: 0 <= i < |c.body| ==> k.body[i].p == c.body[i].p)
    && forall i :: 0 <= i < |c.negated| ==> k.negated[i].p == c.negated[i].p
  }

  lemma RunKeepsPreds(c: Clause)
    requires c.Valid()
    ensures Seeded(c).Some? ==> SamePreds(c, Seeded(c).value) && Seeded(c).value.Valid()
    ensures Varied(c).Some? ==> SamePreds(c, Varied(c).value) && Varied(c).value.Valid()
  {
    if Seeded(c).Some? {
      SamePredsValid(c, Seeded(c).value);
    }
    if Varied(c).Some? {
      SamePredsValid(c, Varied(c).value);
    }
  }

  lemma SamePredsValid(c: Clause, k: Clause)
    requires c.Valid() && SamePreds(c, k) && k.order == c.order
    ensures k.Valid()
  {
    forall a | a in k.body
      ensures a.p.Const?
    {
      var i :| 0 <= i < |k.body| && k.body[i] == a;
      assert c.body[i] in c.body;
    }
    forall a | a in k.negated
      ensures a.p.Const?
    {
      var i :| 0 <= i < |k.negated| && k.negated[i] == a;
      assert c.negated[i] in c.negated;
    }
  }

  lemma DeriveHead(c: Clause, store: set<Quad>, f: Quad)
    requires c.Valid() && f in Derive(c, store)
    ensures f.p == HeadPred(c)
  {
    if !SelfRecursive(c) {
      RunKeepsPreds(c);
      QueryHead(Seeded(c).value, store, f);
    }
  }

  lemma VariantHead(c: Clause, k: nat, store: set<Quad>, d: set<Quad>, f: Quad)
    requires c.Valid() && k < |c.body| && f in Variant(c, k, store, d)
    ensures f.p == HeadPred(c)
  {
    RunKeepsPreds(c);
    var fs := QueryOrigin(Varied(c).value, store, Same(store, |c.body|)[k := d], f);
    FiredHead(Varied(c).value, store, fs);
  }

  // ------------------------------------------------------------------------------
  // Simple rules are plain
  // ------------------------------------------------------------------------------

  lemma PatternVars(body: seq<Atom>, i: nat, x: string, p: int, y: string)
    requires i < |body| && body[i] == Pattern(x, p, y)
    ensures x in Vars(body) && y in Vars(body)
  {
    var ts := body[i].Terms();
    assert ts[0] == Var(x) && ts[2] == Var(y);
    assert Var(x) in ts && Var(y) in ts;
  }

  lemma CopyIsPlain(e: int, p: int)
    ensures Plain(CopyRule(e, p)) && CopyRule(e, p).Valid()
    ensures HeadPred(CopyRule(e, p)) == p && (SelfRecursive(CopyRule(e, p)) <==> e == p)
  {
    PatternVars(CopyRule(e, p).body, 0, "x", e, "y");
    CopyRuleTables(e, p);
  }

  lemma JoinIsPlain(e: int, p: int)
    ensures Plain(JoinRule(e, p)) && JoinRule(e, p).Valid()
    ensures HeadPred(JoinRule(e, p)) == p && SelfRecursive(JoinRule(e, p))
  {
    PatternVars(JoinRule(e, p).body, 0, "x", e, "y");
    PatternVars(JoinRule(e, p).body, 1, "y", p, "z");
    JoinRuleTables(e, p);
  }
}
