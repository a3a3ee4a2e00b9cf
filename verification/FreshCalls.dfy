/**
  Calls of the semi-naive engine on a store without derived facts: which program a call runs.
  */
module FreshCalls {
  import opened Prelude
  import opened RuleSafety
  import opened Datalog
  import opened RuleSql
  import opened CompiledRules
  import opened Subsumption
  import opened SemiNaive

  /** No fact of these predicates. */
  ghost predicate Lacks(store: set<Quad>, preds: set<int>) {
    forall f :: f in store ==> f.p !in preds
  }

  /** The store has no fact of a derived predicate, as before the first call. */
  ghost predicate Fresh(rules: seq<Clause>, store: set<Quad>) {
    Lacks(store, Derived(rules))
  }

  ghost predicate TwoDerived(c: Clause, preds: set<int>) {
    exists i, j :: 0 <= i < j < |c.body| && DerivedAtom(c.body[i], preds) && DerivedAtom(c.body[j], preds)
  }

  ghost predicate ReadsDerived(c: Clause, preds: set<int>) {
    exists i :: 0 <= i < |c.body| && DerivedAtom(c.body[i], preds)
  }

  /** A query that reads a derived predicate from a fresh store finds nothing. */
  lemma NothingToRead(c: Clause, preds: set<int>, store: set<Quad>, tables: seq<set<Quad>>, i: nat)
    requires c.Valid() && Lacks(store, preds) && |tables| == |c.body| && i < |c.body|
    requires DerivedAtom(c.body[i], preds) && tables[i] == store
    ensures Query(c, store, tables) == {}
  {
    forall f
      ensures f !in Query(c, store, tables)
    {
      if f in Query(c, store, tables) {
        var fs := QueryOrigin(c, store, tables, f);
        FiredHead(c, store, fs);
        assert false;
      }
    }
  }

  /** On a fresh store a rule with two derived atoms never fires, in no round. */
  lemma TwoDerivedNeverFires(c: Clause, preds: set<int>, store: set<Quad>, k: nat, d: set<Quad>)
    requires c.Valid() && Lacks(store, preds) && TwoDerived(c, preds) && k < |c.body|
    ensures Inserted(c, store) == {} && Variant(c, k, store, d) == {}
  {
    var i, j :| 0 <= i < j < |c.body| && DerivedAtom(c.body[i], preds) && DerivedAtom(c.body[j], preds);
    RunKeepsPreds(c);
    var other := if k == i then j else i;
    if Seeded(c).Some? {
      NothingToRead(Seeded(c).value, preds, store, Same(store, |c.body|), i);
    }
    if Varied(c).Some? {
      NothingToRead(Varied(c).value, preds, store, Same(store, |c.body|)[k := d], other);
    }
  }

  // ------------------------------------------------------------------------------
  // The program a call runs
  // ------------------------------------------------------------------------------

  /** Negated atoms of other predicates. */
  function StoredOnly(atoms: seq<Atom>, preds: set<int>): seq<Atom> {
    if atoms == [] then []
    else
      var rest := StoredOnly(atoms[..|atoms| - 1], preds);
      var a := atoms[|atoms| - 1];
      if DerivedAtom(a, preds) then rest else rest + [a]
  }

  /** The clause without its negated derived atoms. */
  function Dropped(c: Clause, preds: set<int>): Clause {
    c.(negated := StoredOnly(c.negated, preds), places := [])
  }

  /** What the engine runs of a rule: its variants when it reads a derived predicate, its full query otherwise. */
  ghost function RunOf(c: Clause, preds: set<int>): Option<Clause> {
    if ReadsDerived(c, preds) then Varied(c) else Seeded(c)
  }

  ghost predicate Reduced(k: Clause, c: Clause, preds: set<int>) {
    !TwoDerived(c, preds) && RunOf(c, preds).Some? && k == Dropped(RunOf(c, preds).value, preds)
  }

  /** The rules as they run, those with two derived atoms and all negated derived atoms left out. */
  ghost function Effective(run: seq<Clause>, preds: set<int>): seq<Clause> {
    if run == [] then []
    else
      var rest := Effective(run[..|run| - 1], preds);
      var c := run[|run| - 1];
      if TwoDerived(c, preds) || RunOf(c, preds).None? then rest else rest + [Dropped(RunOf(c, preds).value, preds)]
  }

  /** What the recursive queries insert, whatever the rules say. */
  function Planted(run: seq<Clause>, store: set<Quad>): set<Quad> {
    set i: nat, f | i < |run| && SelfRecursive(run[i]) && f in RecursiveQuery(run[i], store) :: f
  }

  lemma {:induction false} StoredOnlyMembers(atoms: seq<Atom>, preds: set<int>)
    ensures forall a :: a in StoredOnly(atoms, preds) <==> a in atoms && !DerivedAtom(a, preds)
  {
    if atoms != [] {
      var n := |atoms| - 1;
      StoredOnlyMembers(atoms[..n], preds);
      assert atoms == atoms[..n] + [atoms[n]];
    }
  }

  lemma {:induction false} EffectiveMembers(run: seq<Clause>, preds: set<int>)
    ensures forall k :: k in Effective(run, preds) <==> exists c :: c in run && Reduced(k, c, preds)
  {
    if run != [] {
      var n := |run| - 1;
      EffectiveMembers(run[..n], preds);
      assert run == run[..n] + [run[n]];
      assert forall c :: c in run <==> c in run[..n] || c == run[n];
      forall k
        ensures k in Effective(run, preds) <==> k in Effective(run[..n], preds) || Reduced(k, run[n], preds)
      {
      }
    }
  }

  lemma DroppedRefutes(c: Clause, preds: set<int>, base: set<Quad>, m: set<Quad>, v: Valuation)
    requires c.Valid() && Lacks(base, preds) && Extends(preds, base, m)
    ensures (forall a :: a in c.negated ==> !Refuted(a, base, v)) <==> forall a :: a in Dropped(c, preds).negated ==> !Refuted(a, m, v)
  {
    StoredOnlyMembers(c.negated, preds);
    forall a | a in c.negated
      ensures DerivedAtom(a, preds) ==> !Refuted(a, base, v)
      ensures !DerivedAtom(a, preds) ==> (Refuted(a, base, v) <==> Refuted(a, m, v))
    {
    }
  }

  /** On a fresh store the clause fires as the one without negated derived atoms does on any extension. */
  lemma DroppedFires(c: Clause, preds: set<int>, base: set<Quad>, m: set<Quad>, fs: seq<Quad>)
    requires c.Valid() && Lacks(base, preds) && Extends(preds, base, m)
    ensures Fire(c, base, fs) == Fire(Dropped(c, preds), m, fs)
  {
    if |fs| == |c.body| && MatchBody(c.body, fs).Some? {
      DroppedRefutes(c, preds, base, m, MatchBody(c.body, fs).value);
    }
  }

  // ------------------------------------------------------------------------------
  // What a call on a fresh store computes
  // ------------------------------------------------------------------------------

  lemma SeedHeads(run: seq<Clause>, base: set<Quad>)
    requires ValidRules(run)
    ensures forall f :: f in AllOnce(run, base) ==> f.p in Derived(run)
  {
    forall f | f in AllOnce(run, base)
      ensures f.p in Derived(run)
    {
      var i: nat :| i < |run| && f in Derive(run[i], base);
      assert run[i] in run;
      DeriveHead(run[i], base, f);
    }
  }

  /** What the theorems below assume of the rules that run, the store and the result. */
  ghost predicate FreshRun(run: seq<Clause>, preds: set<int>, base: set<Quad>, d: set<Quad>) {
    ValidRules(run) && Derived(run) <= preds && Lacks(base, preds) && LeastSettled(run, preds, base, AllOnce(run, base), d)
  }

  lemma RunExtends(run: seq<Clause>, preds: set<int>, base: set<Quad>, d: set<Quad>)
    requires FreshRun(run, preds, base, d)
    ensures Extends(preds, base, base + d) && forall f :: f in d ==> f.p in preds
  {
    SeedHeads(run, base);
    OnlyDerived(run, preds, base, AllOnce(run, base), d);
  }

  /** The result is closed under the reduced rules. */
  lemma ResultIsModel(run: seq<Clause>, preds: set<int>, base: set<Quad>, d: set<Quad>)
    requires FreshRun(run, preds, base, d)
    ensures IsModel(Effective(run, preds), base + d)
  {
    RunExtends(run, preds, base, d);
    EffectiveMembers(run, preds);
    var m := base + d;
    forall k: Clause, fs: seq<Quad>, f: Quad | k in Effective(run, preds) && Fires(k, m, m, fs, f)
      ensures f in m
    {
      var c :| c in run && Reduced(k, c, preds);
      RunKeepsPreds(c);
      DroppedFires(RunOf(c, preds).value, preds, base, m, fs);
      ReducedFires(run, preds, base, d, c, fs, f);
    }
  }

  lemma ReducedFires(run: seq<Clause>, preds: set<int>, base: set<Quad>, d: set<Quad>, c: Clause, fs: seq<Quad>, f: Quad)
    requires FreshRun(run, preds, base, d) && c in run && !TwoDerived(c, preds) && RunOf(c, preds).Some?
    requires Fire(RunOf(c, preds).value, base, fs) == Some(f) && forall i :: 0 <= i < |fs| ==> fs[i] in base + d
    ensures f in d
  {
    RunExtends(run, preds, base, d);
    RunKeepsPreds(c);
    var k := RunOf(c, preds).value;
    FiredHead(k, base, fs);
    assert forall i :: 0 <= i < |fs| ==> c.body[i] in c.body;
    if a: nat :| a < |c.body| && DerivedAtom(c.body[a], preds) {
      OthersStored(c, preds, base, d, fs, a);
      VariantFinds(run, preds, base, d, c, a, fs, f);
    } else {
      FullQueryFinds(run, preds, base, d, c, fs, f);
    }
  }

  /** Only the one derived atom is matched by a new fact. */
  lemma OthersStored(c: Clause, preds: set<int>, base: set<Quad>, d: set<Quad>, fs: seq<Quad>, a: nat)
    requires c.Valid() && !TwoDerived(c, preds) && a < |c.body| && DerivedAtom(c.body[a], preds) && |fs| == |c.body|
    requires Lacks(base, preds) && (forall f :: f in d ==> f.p in preds)
    requires forall i :: 0 <= i < |fs| ==> fs[i] in base + d && Const(fs[i].p) == c.body[i].p
    ensures forall i :: 0 <= i < |fs| ==> fs[i] in if i == a then d else base
  {
    forall i | 0 <= i < |fs|
      ensures fs[i] in if i == a then d else base
    {
      if i != a {
        assert i < a || a < i;
        assert !DerivedAtom(c.body[i], preds);
      }
    }
  }

  lemma VariantFinds(run: seq<Clause>, preds: set<int>, base: set<Quad>, d: set<Quad>, c: Clause, a: nat, fs: seq<Quad>, f: Quad)
    requires LeastSettled(run, preds, base, AllOnce(run, base), d) && c in run && Varied(c).Some? && a < |c.body| == |fs|
    requires |Varied(c).value.body| == |c.body| && DerivedAtom(c.body[a], preds)
    requires Fire(Varied(c).value, base, fs) == Some(f) && forall i :: 0 <= i < |fs| ==> fs[i] in if i == a then d else base
    ensures f in d
  {
    QueryMember(Varied(c).value, base, Same(base, |c.body|)[a := d], fs);
    var i: nat :| i < |run| && run[i] == c;
    assert f in Variant(run[i], a, base, d);
    assert f in Variants(run, preds, base, d);
  }

  lemma FullQueryFinds(run: seq<Clause>, preds: set<int>, base: set<Quad>, d: set<Quad>, c: Clause, fs: seq<Quad>, f: Quad)
    requires FreshRun(run, preds, base, d) && c in run && !ReadsDerived(c, preds) && Seeded(c).Some?
    requires |fs| == |c.body| && (forall i :: 0 <= i < |fs| ==> fs[i] in base + d && Const(fs[i].p) == c.body[i].p)
    requires Fire(Seeded(c).value, base, fs) == Some(f)
    ensures f in d
  {
    RunExtends(run, preds, base, d);
    RunKeepsPreds(c);
    forall i | 0 <= i < |fs|
      ensures fs[i] in base
    {
      assert !DerivedAtom(c.body[i], preds);
    }
    QueryMember(Seeded(c).value, base, Same(base, |c.body|), fs);
    var i: nat :| i < |run| && run[i] == c;
    assert HeadPred(run[i]) in Derived(run);
    assert !SelfRecursive(c);
    assert f in Derive(run[i], base);
    assert f in AllOnce(run, base);
  }

  /** Every extension with the planted facts that is closed under the reduced rules contains the result. */
  lemma ResultIsLeast(run: seq<Clause>, preds: set<int>, base: set<Quad>, d: set<Quad>, m: set<Quad>)
    requires FreshRun(run, preds, base, d) && Extends(preds, base, m)
    requires Planted(run, base) <= m && IsModel(Effective(run, preds), m)
    ensures base + d <= m
  {
    forall f | f in AllOnce(run, base)
      ensures f in m
    {
      var i: nat :| i < |run| && f in Derive(run[i], base);
      assert run[i] in run;
      if SelfRecursive(run[i]) {
        assert f in Planted(run, base);
      } else {
        InsertedStays(run, preds, base, m, run[i], f);
      }
    }
    forall f | f in Variants(run, preds, base, m)
      ensures f in m
    {
      var i: nat, k: nat :| i < |run| && k < |run[i].body| && DerivedAtom(run[i].body[k], preds) && f in Variant(run[i], k, base, m);
      assert run[i] in run;
      VariantStays(run, preds, base, m, run[i], k, f);
    }
    assert Settled(run, preds, base, m);
  }

  lemma InsertedStays(run: seq<Clause>, preds: set<int>, base: set<Quad>, m: set<Quad>, c: Clause, f: Quad)
    requires c.Valid() && c in run && Lacks(base, preds) && Extends(preds, base, m) && IsModel(Effective(run, preds), m)
    requires f in Inserted(c, base)
    ensures f in m
  {
    RunKeepsPreds(c);
    var k := Seeded(c).value;
    if i: nat :| i < |c.body| && DerivedAtom(c.body[i], preds) {
      NothingToRead(k, preds, base, Same(base, |c.body|), i);
      assert false;
    }
    var fs := QueryOrigin(k, base, Same(base, |c.body|), f);
    ReducedStays(run, preds, base, m, c, fs, f);
  }

  lemma VariantStays(run: seq<Clause>, preds: set<int>, base: set<Quad>, m: set<Quad>, c: Clause, k: nat, f: Quad)
    requires c.Valid() && c in run && Lacks(base, preds) && Extends(preds, base, m) && IsModel(Effective(run, preds), m)
    requires k < |c.body| && DerivedAtom(c.body[k], preds) && f in Variant(c, k, base, m)
    ensures f in m
  {
    if TwoDerived(c, preds) {
      TwoDerivedNeverFires(c, preds, base, k, m);
      assert false;
    }
    RunKeepsPreds(c);
    var fs := QueryOrigin(Varied(c).value, base, Same(base, |c.body|)[k := m], f);
    ReducedStays(run, preds, base, m, c, fs, f);
  }

  lemma ReducedStays(run: seq<Clause>, preds: set<int>, base: set<Quad>, m: set<Quad>, c: Clause, fs: seq<Quad>, f: Quad)
    requires c.Valid() && c in run && Lacks(base, preds) && Extends(preds, base, m) && IsModel(Effective(run, preds), m)
    requires !TwoDerived(c, preds) && RunOf(c, preds).Some? && Fire(RunOf(c, preds).value, base, fs) == Some(f)
    requires forall i :: 0 <= i < |fs| ==> fs[i] in m
    ensures f in m
  {
    EffectiveMembers(run, preds);
    RunKeepsPreds(c);
    var k := RunOf(c, preds).value;
    DroppedFires(k, preds, base, m, fs);
    assert Reduced(Dropped(k, preds), c, preds);
    assert Fires(Dropped(k, preds), m, m, fs, f);
  }

  /**
    On a fresh store a call computes exactly the least model of another program: of the active
    rules as they run, those with two derived atoms are gone, negated derived atoms are dropped,
    and what the recursive queries insert is given.
    */
  lemma FreshCallComputes(rules: seq<Clause>, base: set<Quad>, after: set<Quad>)
    requires ValidRules(rules) && Fresh(rules, base) && Called(rules, base, after)
    ensures var run, preds := Active(rules), Derived(rules);
            IsLeastModel(preds, Effective(run, preds), base + Planted(run, base), after)
  {
    var run, preds := Active(rules), Derived(rules);
    ActiveMembers(rules);
    var d :| LeastSettled(run, preds, base, AllOnce(run, base), d) && after == base + d;
    PlantedIsSeed(run, base);
    RunExtends(run, preds, base, d);
    ResultIsModel(run, preds, base, d);
    forall m | Extends(preds, base + Planted(run, base), m) && IsModel(Effective(run, preds), m)
      ensures after <= m
    {
      ResultIsLeast(run, preds, base, d, m);
    }
  }

  lemma PlantedIsSeed(run: seq<Clause>, base: set<Quad>)
    requires ValidRules(run)
    ensures Planted(run, base) <= AllOnce(run, base) && forall f :: f in Planted(run, base) ==> f.p in Derived(run)
  {
    forall f | f in Planted(run, base)
      ensures f in AllOnce(run, base)
    {
      var i: nat :| i < |run| && SelfRecursive(run[i]) && f in RecursiveQuery(run[i], base);
      assert f in Derive(run[i], base);
    }
    SeedHeads(run, base);
  }

  /** So the call is exact exactly when the meaning of the program is also the least model of that other one. */
  lemma FreshCallIsExactExactlyWhen(rules: seq<Clause>, base: set<Quad>, after: set<Quad>, meaning: set<Quad>)
    requires ValidRules(rules) && Fresh(rules, base) && Called(rules, base, after) && IsMeaning(rules, base, meaning)
    ensures var run, preds := Active(rules), Derived(rules);
            after == meaning <==> IsLeastModel(preds, Effective(run, preds), base + Planted(run, base), meaning)
  {
    FreshCallComputes(rules, base, after);
  }

  /** The seed on a fresh store is fair exactly when every model has the planted facts. */
  lemma FreshSeedIsFairExactlyWhen(rules: seq<Clause>, base: set<Quad>)
    requires ValidRules(rules) && PlainRules(rules) && SemiPositive(rules) && Fresh(rules, base)
    ensures var run, preds := Active(rules), Derived(rules);
            (FairSeed(run, preds, base, AllOnce(run, base))
             <==> forall m :: Extends(preds, base, m) && IsModel(run, m) ==> Planted(run, base) <= m)
  {
    var run, preds := Active(rules), Derived(rules);
    ActiveMembers(rules);
    ActiveIsRegular(rules);
    SeedHeads(run, base);
    FirstRoundIsFair(run, preds, base);
    forall f
      ensures f in AllOnce(run, base) <==> f in FirstRound(run, base) || f in Planted(run, base)
    {
      SeedParts(run, preds, base, f);
    }
    FairUnion(run, preds, base, FirstRound(run, base), Planted(run, base), AllOnce(run, base));
  }

  lemma FairUnion(run: seq<Clause>, preds: set<int>, base: set<Quad>, round: set<Quad>, planted: set<Quad>, seed: set<Quad>)
    requires round == FirstRound(run, base) && FairSeed(run, preds, base, round) && seed == round + planted
    requires forall f :: f in seed ==> f.p in preds
    ensures FairSeed(run, preds, base, seed) <==> forall m :: Extends(preds, base, m) && IsModel(run, m) ==> planted <= m
  {
  }

  lemma SeedParts(run: seq<Clause>, preds: set<int>, base: set<Quad>, f: Quad)
    requires ValidRules(run) && PlainRules(run) && Derived(run) <= preds && Lacks(base, preds)
    ensures f in AllOnce(run, base) <==> f in FirstRound(run, base) || f in Planted(run, base)
  {
    PlantedIsSeed(run, base);
    if f in AllOnce(run, base) {
      var i: nat :| i < |run| && f in Derive(run[i], base);
      assert run[i] in run;
      PlainRuns(run[i], base);
      assert !SelfRecursive(run[i]) ==> f in Query(run[i], base, Same(base, |run[i].body|));
    }
    if f in FirstRound(run, base) {
      var i: nat :| i < |run| && f in Query(run[i], base, Same(base, |run[i].body|));
      assert run[i] in run;
      PlainRuns(run[i], base);
      if SelfRecursive(run[i]) {
        SelfRecursiveSleeps(run, preds, base, run[i]);
      }
      assert f in Derive(run[i], base);
    }
  }

  /** A rule that mentions its own head finds nothing on a fresh store. */
  lemma SelfRecursiveSleeps(run: seq<Clause>, preds: set<int>, base: set<Quad>, c: Clause)
    requires ValidRules(run) && Derived(run) <= preds && Lacks(base, preds) && c in run && SelfRecursive(c)
    ensures Query(c, base, Same(base, |c.body|)) == {}
  {
    var k :| 0 <= k < |c.body| && c.body[k].p.Const? && c.body[k].p.id == HeadPred(c);
    var i: nat :| i < |run| && run[i] == c;
    assert HeadPred(run[i]) in Derived(run);
    NothingToRead(c, preds, base, Same(base, |c.body|), k);
  }
}
