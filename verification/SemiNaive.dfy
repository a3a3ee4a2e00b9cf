/**
  The semi-naive engine.  Rules that another rule seems to make redundant are dropped.  One table
  per derived predicate is seeded and then, until nothing new appears, that table is joined at
  one body atom with the stored tables at all others; the stored tables do not change before the
  end.
  */
module SemiNaive {
  import opened Prelude
  import opened RuleSafety
  import opened Datalog
  import opened RuleSql
  import opened CompiledRules
  import opened Subsumption

  predicate DerivedAtom(a: Atom, preds: set<int>) {
    a.p.Const? && a.p.id in preds
  }

  function Variants(run: seq<Clause>, preds: set<int>, store: set<Quad>, derived: set<Quad>): set<Quad> {
    set i: nat, k: nat, f | i < |run| && k < |run[i].body| && DerivedAtom(run[i].body[k], preds)
                            && f in Variant(run[i], k, store, derived) :: f
  }

  /** The variants of one clause. */
  method ClauseVariants(c: Clause, preds: set<int>, store: set<Quad>, derived: set<Quad>) returns (out: set<Quad>)
    requires c.Valid()
    ensures out == Variants([c], preds, store, derived)
  {
    out := {};
    var st := CompileVariant(c);
    for k := 0 to |c.body|
      invariant forall f :: f in out <==>
                  exists j: nat :: j < k && DerivedAtom(c.body[j], preds) && f in Variant(c, j, store, derived)
    {
      if DerivedAtom(c.body[k], preds) {
        out := out + Rows(st, store, Same(store, |c.body|)[k := derived]);
      }
    }
    assert [c][0] == c;
    forall f: Quad
      ensures f in out <==> f in Variants([c], preds, store, derived)
    {
      if f in out {
        var j: nat :| j < |c.body| && DerivedAtom(c.body[j], preds) && f in Variant([c][0], j, store, derived);
      }
    }
  }

  method AllVariants(run: seq<Clause>, preds: set<int>, store: set<Quad>, derived: set<Quad>) returns (out: set<Quad>)
    requires ValidRules(run)
    ensures out == Variants(run, preds, store, derived)
  {
    out := {};
    for i := 0 to |run|
      invariant out == Variants(run[..i], preds, store, derived)
    {
      var more := ClauseVariants(run[i], preds, store, derived);
      assert run[..i + 1] == run[..i] + [run[i]];
      out := out + more;
    }
    assert run[..|run|] == run;
  }

  const MAX_ITERATIONS: nat := 10_000

  /** Closed under the variants. */
  ghost predicate Settled(run: seq<Clause>, preds: set<int>, store: set<Quad>, derived: set<Quad>) {
    Variants(run, preds, store, derived) <= derived
  }

  /** One round: what the variants find is added. */
  function Round(run: seq<Clause>, preds: set<int>, store: set<Quad>): set<Quad> -> set<Quad> {
    derived => derived + Variants(run, preds, store, derived)
  }

  /** The facts after `n` rounds. */
  function After(round: set<Quad> -> set<Quad>, seed: set<Quad>, n: nat): set<Quad> {
    if n == 0 then seed else round(After(round, seed, n - 1))
  }

  /** Round `n` finds something that was not there. */
  predicate Adds(round: set<Quad> -> set<Quad>, seed: set<Quad>, n: nat)
    requires n > 0
  {
    !(After(round, seed, n) <= After(round, seed, n - 1))
  }

  lemma {:induction false} AddingRoundsGrow(round: set<Quad> -> set<Quad>, seed: set<Quad>, n: nat)
    requires (forall x :: x <= round(x)) && forall k: nat :: 1 <= k <= n ==> Adds(round, seed, k)
    ensures |After(round, seed, n)| >= |seed| + n
  {
    if n > 0 {
      AddingRoundsGrow(round, seed, n - 1);
      var before, after := After(round, seed, n - 1), After(round, seed, n);
      assert Adds(round, seed, n);
      var f :| f in after && f !in before;
      Subset(before + {f}, after);
    }
  }

  /** After `n` rounds, each of which added something. */
  ghost predicate DerivedIn(round: set<Quad> -> set<Quad>, seed: set<Quad>, n: nat, derived: set<Quad>) {
    derived == After(round, seed, n) && forall k: nat :: 1 <= k <= n ==> Adds(round, seed, k)
  }

  /** How the loop can end: after the first round that adds nothing, or at the limit. */
  ghost predicate Ended(round: set<Quad> -> set<Quad>, seed: set<Quad>, derived: set<Quad>, iterations: nat, gaveUp: bool) {
    if gaveUp then iterations == MAX_ITERATIONS && DerivedIn(round, seed, iterations - 1, derived)
    else 2 <= iterations <= MAX_ITERATIONS && DerivedIn(round, seed, iterations - 2, derived) && round(derived) == derived
  }

  lemma RoundDone(round: set<Quad> -> set<Quad>, seed: set<Quad>, n: nat, derived: set<Quad>)
    requires 0 < n < MAX_ITERATIONS && DerivedIn(round, seed, n - 1, derived) && derived <= round(derived)
    ensures if round(derived) == derived then Ended(round, seed, derived, n + 1, false)
            else DerivedIn(round, seed, n, round(derived))
  {
    assert After(round, seed, n) == round(derived);
    if round(derived) != derived {
      assert Adds(round, seed, n);
    }
  }

  /** What the end says about the rounds. */
  lemma EndedMeans(round: set<Quad> -> set<Quad>, seed: set<Quad>, derived: set<Quad>, iterations: nat, gaveUp: bool)
    requires Ended(round, seed, derived, iterations, gaveUp) && iterations > 0 && forall x :: x <= round(x)
    ensures derived == After(round, seed, iterations - 1)
    ensures gaveUp <==> forall n: nat :: 1 <= n < MAX_ITERATIONS ==> Adds(round, seed, n)
    ensures gaveUp ==> |derived| >= |seed| + MAX_ITERATIONS - 1
    ensures !gaveUp ==> iterations >= 2 && !Adds(round, seed, iterations - 1)
    ensures forall n: nat :: 1 <= n < iterations - 1 ==> Adds(round, seed, n)
  {
    if gaveUp {
      AddingRoundsGrow(round, seed, iterations - 1);
    } else {
      var n := iterations - 1;
      assert After(round, seed, n) == round(After(round, seed, n - 1));
      assert !Adds(round, seed, n);
    }
  }

  /** Every settled set with the seed contains these facts. */
  ghost predicate InAllSettled(run: seq<Clause>, preds: set<int>, store: set<Quad>, seed: set<Quad>, derived: set<Quad>) {
    forall x {:trigger Settled(run, preds, store, x)} :: seed <= x && Settled(run, preds, store, x) ==> derived <= x
  }

  /**
    The fixpoint loop stops after the first round that adds nothing, or gives up when the first
    9999 rounds have all added something.  Unless it gives up, it ends with the least set that
    contains the seed and is closed under the variants.
    */
  method Fixpoint(run: seq<Clause>, preds: set<int>, store: set<Quad>, seed: set<Quad>)
    returns (derived: set<Quad>, iterations: nat, gaveUp: bool)
    requires ValidRules(run)
    ensures 1 <= iterations <= MAX_ITERATIONS && derived == After(Round(run, preds, store), seed, iterations - 1)
    ensures gaveUp <==> forall n: nat :: 1 <= n < MAX_ITERATIONS ==> Adds(Round(run, preds, store), seed, n)
    ensures gaveUp ==> iterations == 10_000 && |derived| >= |seed| + 9_999
    ensures !gaveUp ==> iterations >= 2 && !Adds(Round(run, preds, store), seed, iterations - 1)
    ensures forall n: nat :: 1 <= n < iterations - 1 ==> Adds(Round(run, preds, store), seed, n)
    ensures !gaveUp ==> Settled(run, preds, store, derived)
    ensures seed <= derived && InAllSettled(run, preds, store, seed, derived)
  {
    derived, iterations, gaveUp := RunRounds(run, preds, store, seed);
    LoopMeans(run, preds, store, seed, derived, iterations, gaveUp);
  }

  method RunRounds(run: seq<Clause>, preds: set<int>, store: set<Quad>, seed: set<Quad>)
    returns (derived: set<Quad>, iterations: nat, gaveUp: bool)
    requires ValidRules(run)
    ensures LoopState(run, preds, store, seed, derived, iterations, gaveUp, true)
  {
    derived, iterations, gaveUp := seed, 1, false;
    var over := false;
    while !over
      invariant LoopState(run, preds, store, seed, derived, iterations, gaveUp, over)
      decreases !over, MAX_ITERATIONS - iterations
    {
      if iterations >= MAX_ITERATIONS {
        gaveUp, over := true, true;
      } else {
        var found := AllVariants(run, preds, store, derived);
        var added := found - derived;
        LoopStep(run, preds, store, seed, derived, iterations, found, added);
        iterations, derived, over := iterations + 1, derived + found, added == {};
      }
    }
  }

  ghost predicate LoopState(run: seq<Clause>, preds: set<int>, store: set<Quad>, seed: set<Quad>, derived: set<Quad>, iterations: nat,
                            gaveUp: bool, over: bool)
  {
    && seed <= derived && InAllSettled(run, preds, store, seed, derived) && 1 <= iterations <= MAX_ITERATIONS
    && if over then Ended(Round(run, preds, store), seed, derived, iterations, gaveUp)
       else !gaveUp && DerivedIn(Round(run, preds, store), seed, iterations - 1, derived)
  }

  lemma LoopStep(run: seq<Clause>, preds: set<int>, store: set<Quad>, seed: set<Quad>, derived: set<Quad>, iterations: nat,
                 found: set<Quad>, added: set<Quad>)
    requires LoopState(run, preds, store, seed, derived, iterations, false, false) && iterations < MAX_ITERATIONS
    requires found == Variants(run, preds, store, derived) && added == found - derived
    ensures LoopState(run, preds, store, seed, derived + found, iterations + 1, false, added == {})
  {
    RoundIs(run, preds, store, derived, found, added);
    RoundDone(Round(run, preds, store), seed, iterations, derived);
    StaysInside(run, preds, store, seed, derived, found);
  }

  lemma LoopMeans(run: seq<Clause>, preds: set<int>, store: set<Quad>, seed: set<Quad>, derived: set<Quad>, iterations: nat, gaveUp: bool)
    requires LoopState(run, preds, store, seed, derived, iterations, gaveUp, true)
    ensures 1 <= iterations <= MAX_ITERATIONS && derived == After(Round(run, preds, store), seed, iterations - 1)
    ensures gaveUp <==> forall n: nat :: 1 <= n < MAX_ITERATIONS ==> Adds(Round(run, preds, store), seed, n)
    ensures gaveUp ==> iterations == MAX_ITERATIONS && |derived| >= |seed| + MAX_ITERATIONS - 1
    ensures !gaveUp ==> iterations >= 2 && !Adds(Round(run, preds, store), seed, iterations - 1)
    ensures forall n: nat :: 1 <= n < iterations - 1 ==> Adds(Round(run, preds, store), seed, n)
    ensures !gaveUp ==> Settled(run, preds, store, derived)
    ensures seed <= derived && InAllSettled(run, preds, store, seed, derived)
  {
    RoundsGrow(run, preds, store);
    EndedMeans(Round(run, preds, store), seed, derived, iterations, gaveUp);
    SettledEnd(run, preds, store, derived);
  }

  lemma RoundIs(run: seq<Clause>, preds: set<int>, store: set<Quad>, derived: set<Quad>, found: set<Quad>, added: set<Quad>)
    requires found == Variants(run, preds, store, derived) && added == found - derived
    ensures Round(run, preds, store)(derived) == derived + found
    ensures added == {} <==> derived + found == derived
  {
    assert forall f :: f in found ==> f in derived + added;
    if derived + found == derived {
      assert added == {};
    }
  }

  lemma RoundsGrow(run: seq<Clause>, preds: set<int>, store: set<Quad>)
    ensures forall x :: x <= Round(run, preds, store)(x)
  {
  }

  lemma SettledEnd(run: seq<Clause>, preds: set<int>, store: set<Quad>, derived: set<Quad>)
    ensures Round(run, preds, store)(derived) == derived ==> Settled(run, preds, store, derived)
  {
  }

  lemma StaysInside(run: seq<Clause>, preds: set<int>, store: set<Quad>, seed: set<Quad>, derived: set<Quad>, found: set<Quad>)
    requires found == Variants(run, preds, store, derived) && InAllSettled(run, preds, store, seed, derived)
    ensures InAllSettled(run, preds, store, seed, derived + found)
  {
    forall x | seed <= x && Settled(run, preds, store, x)
      ensures derived + found <= x
    {
      VariantsGrow(run, preds, store, derived, x);
    }
  }

  lemma VariantsGrow(run: seq<Clause>, preds: set<int>, store: set<Quad>, a: set<Quad>, b: set<Quad>)
    requires a <= b
    ensures Variants(run, preds, store, a) <= Variants(run, preds, store, b)
  {
    forall i: nat, k: nat | i < |run| && k < |run[i].body|
      ensures Variant(run[i], k, store, a) <= Variant(run[i], k, store, b)
    {
      var c := run[i];
      var ta, tb := Same(store, |c.body|)[k := a], Same(store, |c.body|)[k := b];
      forall fs | fs in Tuples(ta)
        ensures fs in Tuples(tb)
      {
        TupleMembers(ta, fs);
        TupleMembers(tb, fs);
      }
    }
  }

  /** What the loop guarantees about its result. */
  ghost predicate LeastSettled(run: seq<Clause>, preds: set<int>, base: set<Quad>, seed: set<Quad>, d: set<Quad>) {
    && seed <= d && Settled(run, preds, base, d)
    && forall x :: seed <= x && Settled(run, preds, base, x) ==> d <= x
  }

  // ------------------------------------------------------------------------------
  // A call
  // ------------------------------------------------------------------------------

  method SeedTables(run: seq<Clause>, store: set<Quad>) returns (seed: set<Quad>)
    requires ValidRules(run)
    ensures seed == AllOnce(run, store)
  {
    seed := {};
    for i := 0 to |run|
      invariant seed == AllOnce(run[..i], store)
    {
      assert run[i] in run;
      var more := RunRule(run[i], store);
      OnceMore(run[..i + 1], store);
      assert run[..i + 1][..i] == run[..i];
      seed := seed + more;
    }
    assert run[..|run|] == run;
  }

  /** What a call that does not give up makes of a store. */
  ghost predicate Called(rules: seq<Clause>, before: set<Quad>, after: set<Quad>) {
    var run := Active(rules);
    exists d :: LeastSettled(run, Derived(rules), before, AllOnce(run, before), d) && after == before + d
  }

  /** The rules as they are after constants have been replaced along owl:sameAs. */
  method RunInferenceSeminaive(rules: seq<Clause>, store: set<Quad>)
    returns (after: set<Quad>, iterations: nat, gaveUp: bool)
    requires ValidRules(rules)
    ensures 1 <= iterations <= MAX_ITERATIONS
    ensures after == store + After(Round(Active(rules), Derived(rules), store), AllOnce(Active(rules), store), iterations - 1)
    ensures gaveUp <==> forall n: nat :: 1 <= n < MAX_ITERATIONS ==>
                          Adds(Round(Active(rules), Derived(rules), store), AllOnce(Active(rules), store), n)
    ensures !gaveUp ==> iterations >= 2 && !Adds(Round(Active(rules), Derived(rules), store), AllOnce(Active(rules), store), iterations - 1)
    ensures gaveUp ==> iterations == 10_000 && |after| >= 9_999
    ensures !gaveUp ==> Called(rules, store, after)
    ensures InAllSettled(Active(rules), Derived(rules), store, AllOnce(Active(rules), store), after - store)
  {
    var run := ActiveRules(rules);
    ActiveMembers(rules);
    var seed := SeedTables(run, store);
    var derived;
    derived, iterations, gaveUp := Fixpoint(run, Derived(rules), store, seed);
    after := store + derived;
    if gaveUp {
      Subset(derived, after);
    } else {
      CallEnds(rules, store, derived);
    }
  }

  lemma CallEnds(rules: seq<Clause>, store: set<Quad>, derived: set<Quad>)
    requires var seed := AllOnce(Active(rules), store);
             && seed <= derived && Settled(Active(rules), Derived(rules), store, derived)
             && InAllSettled(Active(rules), Derived(rules), store, seed, derived)
    ensures Called(rules, store, store + derived)
  {
    assert LeastSettled(Active(rules), Derived(rules), store, AllOnce(Active(rules), store), derived);
  }

  // ------------------------------------------------------------------------------
  // What the loop computes
  // ------------------------------------------------------------------------------

  /** Rules that run as written, and negate none of the predicates they may derive. */
  ghost predicate Regular(run: seq<Clause>, preds: set<int>) {
    ValidRules(run) && PlainRules(run) && Derived(run) <= preds && NegatesOthers(run, preds)
  }

  /** Every model that extends the store absorbs the first round and every variant. */
  lemma ModelsAbsorb(run: seq<Clause>, preds: set<int>, base: set<Quad>, m: set<Quad>)
    requires Regular(run, preds) && Extends(preds, base, m) && IsModel(run, m)
    ensures FirstRound(run, base) <= m && Settled(run, preds, base, m)
  {
    forall i: nat | i < |run|
      ensures Query(run[i], base, Same(base, |run[i].body|)) <= m
      ensures forall k: nat :: k < |run[i].body| ==> Variant(run[i], k, base, m) <= m
    {
      assert run[i] in run;
      QueryStays(run, preds, base, m, run[i], Same(base, |run[i].body|));
      PlainRuns(run[i], base);
      forall k: nat | k < |run[i].body|
        ensures Variant(run[i], k, base, m) <= m
      {
        QueryStays(run, preds, base, m, run[i], Same(base, |run[i].body|)[k := m]);
      }
    }
  }

  /** The seed holds the first round, and nothing that is not in every model. */
  ghost predicate FairSeed(run: seq<Clause>, preds: set<int>, base: set<Quad>, seed: set<Quad>) {
    && FirstRound(run, base) <= seed
    && (forall f :: f in seed ==> f.p in preds)
    && forall m :: Extends(preds, base, m) && IsModel(run, m) ==> seed <= m
  }

  lemma VariantHeads(run: seq<Clause>, preds: set<int>, base: set<Quad>, x: set<Quad>, f: Quad)
    requires ValidRules(run) && Derived(run) <= preds && f in Variants(run, preds, base, x)
    ensures f.p in preds
  {
    var i: nat, k: nat :| i < |run| && k < |run[i].body| && f in Variant(run[i], k, base, x);
    assert run[i] in run && HeadPred(run[i]) in Derived(run);
    VariantHead(run[i], k, base, x, f);
  }

  lemma OnlyDerived(run: seq<Clause>, preds: set<int>, base: set<Quad>, seed: set<Quad>, d: set<Quad>)
    requires ValidRules(run) && Derived(run) <= preds && LeastSettled(run, preds, base, seed, d)
    requires forall f :: f in seed ==> f.p in preds
    ensures Extends(preds, base, base + d) && forall f :: f in d ==> f.p in preds
  {
    var x := set f | f in d && f.p in preds;
    VariantsGrow(run, preds, base, x, d);
    forall f | f in Variants(run, preds, base, x)
      ensures f in x
    {
      VariantHeads(run, preds, base, x, f);
    }
    assert seed <= x && Settled(run, preds, base, x);
  }

  /** Nothing is derived that is not in every model. */
  lemma LoopIsSound(run: seq<Clause>, preds: set<int>, base: set<Quad>, seed: set<Quad>, d: set<Quad>, m: set<Quad>)
    requires Regular(run, preds) && FairSeed(run, preds, base, seed) && LeastSettled(run, preds, base, seed, d)
    requires Extends(preds, base, m) && IsModel(run, m)
    ensures base + d <= m
  {
    ModelsAbsorb(run, preds, base, m);
  }

  /** The clause matches two facts that are not in the store. */
  ghost predicate NeedsTwoNew(base: set<Quad>, fs: seq<Quad>) {
    exists i, j :: 0 <= i < j < |fs| && fs[i] !in base && fs[j] !in base
  }

  /** The loop finds every conclusion from at most one new fact. */
  lemma OneNewFactIsFound(run: seq<Clause>, preds: set<int>, base: set<Quad>, seed: set<Quad>, d: set<Quad>,
                          c: Clause, fs: seq<Quad>, f: Quad)
    requires Regular(run, preds) && FairSeed(run, preds, base, seed) && LeastSettled(run, preds, base, seed, d)
    requires c in run && Fires(c, base + d, base + d, fs, f) && !NeedsTwoNew(base, fs)
    ensures f in d
  {
    OnlyDerived(run, preds, base, seed, d);
    FireSame(run, preds, base, base + d, c, fs);
    FiredHead(c, base, fs);
    PlainRuns(c, base);
    var i: nat :| i < |run| && run[i] == c;
    if k: nat :| k < |fs| && fs[k] !in base {
      assert fs[k] in (base + d) - base;
      assert DerivedAtom(c.body[k], preds);
      QueryMember(c, base, Same(base, |c.body|)[k := d], fs);
      assert f in Variant(run[i], k, base, d);
      assert f in Variants(run, preds, base, d);
    } else {
      QueryMember(c, base, Same(base, |c.body|), fs);
      assert f in Query(run[i], base, Same(base, |run[i].body|));
      assert f in FirstRound(run, base);
    }
  }

  /**
    The result is the least model exactly when no rule draws a further conclusion from two facts
    that are both new.
    */
  lemma LoopIsExactWhen(run: seq<Clause>, preds: set<int>, base: set<Quad>, seed: set<Quad>, d: set<Quad>)
    requires Regular(run, preds) && FairSeed(run, preds, base, seed) && LeastSettled(run, preds, base, seed, d)
    ensures IsLeastModel(preds, run, base, base + d)
       <==> forall c, fs, f :: c in run && Fires(c, base + d, base + d, fs, f) && NeedsTwoNew(base, fs) ==> f in base + d
  {
    OnlyDerived(run, preds, base, seed, d);
    forall m | Extends(preds, base, m) && IsModel(run, m)
      ensures base + d <= m
    {
      LoopIsSound(run, preds, base, seed, d, m);
    }
    forall c: Clause, fs: seq<Quad>, f: Quad | c in run && Fires(c, base + d, base + d, fs, f) && !NeedsTwoNew(base, fs)
      ensures f in d
    {
      OneNewFactIsFound(run, preds, base, seed, d, c, fs, f);
    }
  }

  /** For linear rules it always is. */
  lemma LinearRulesAreExact(run: seq<Clause>, preds: set<int>, base: set<Quad>, seed: set<Quad>, d: set<Quad>)
    requires Regular(run, preds) && FairSeed(run, preds, base, seed) && LeastSettled(run, preds, base, seed, d)
    requires LinearIn(run, preds)
    ensures IsLeastModel(preds, run, base, base + d)
  {
    OnlyDerived(run, preds, base, seed, d);
    forall c: Clause, fs: seq<Quad>, f: Quad | c in run && Fires(c, base + d, base + d, fs, f)
      ensures !NeedsTwoNew(base, fs)
    {
      FiredHead(c, base + d, fs);
      forall i, j | 0 <= i < j < |fs| && fs[i] !in base
        ensures fs[j] in base
      {
        assert fs[i] in (base + d) - base;
        assert c.body[i] in c.body && c.body[j] in c.body;
        assert fs[j].p !in preds;
      }
    }
    LoopIsExactWhen(run, preds, base, seed, d);
  }

  // ------------------------------------------------------------------------------
  // Programs without rules that mention their own head
  // ------------------------------------------------------------------------------

  /** The first round is a fair seed. */
  lemma FirstRoundIsFair(run: seq<Clause>, preds: set<int>, store: set<Quad>)
    requires Regular(run, preds)
    ensures FairSeed(run, preds, store, FirstRound(run, store))
  {
    forall f | f in FirstRound(run, store)
      ensures f.p in preds
    {
      var i: nat :| i < |run| && f in Query(run[i], store, Same(store, |run[i].body|));
      assert run[i] in run && HeadPred(run[i]) in Derived(run);
      QueryHead(run[i], store, f);
    }
    forall m | Extends(preds, store, m) && IsModel(run, m)
      ensures FirstRound(run, store) <= m
    {
      ModelsAbsorb(run, preds, store, m);
    }
  }

  /** Rules that run as written, without negation of derived predicates, and none that mentions its own head. */
  ghost predicate Simple(rules: seq<Clause>) {
    ValidRules(rules) && PlainRules(rules) && SemiPositive(rules) && NoSelfRecursion(rules)
  }

  lemma ActiveIsRegular(rules: seq<Clause>)
    requires ValidRules(rules) && PlainRules(rules) && SemiPositive(rules)
    ensures Regular(Active(rules), Derived(rules))
    ensures NoSelfRecursion(rules) ==> NoSelfRecursion(Active(rules))
    ensures Linear(rules) ==> LinearIn(Active(rules), Derived(rules))
  {
    ActiveMembers(rules);
  }

  /** The least model of the active rules is the meaning of all rules exactly when it is closed under the dropped ones. */
  lemma DroppingIsHarmlessExactlyWhen(rules: seq<Clause>, base: set<Quad>, m: set<Quad>)
    requires IsLeastModel(Derived(rules), Active(rules), base, m)
    ensures IsMeaning(rules, base, m) <==> FirstRound(rules, m) <= m
    ensures Apart(rules) ==> IsMeaning(rules, base, m)
  {
    ActiveMembers(rules);
    ActiveIsAllExactlyWhen(rules);
    if FirstRound(rules, m) <= m {
      FirstRoundIsModel(rules, m);
      forall other | Extends(Derived(rules), base, other) && IsModel(rules, other)
        ensures m <= other
      {
        assert IsModel(Active(rules), other);
      }
    }
    if IsMeaning(rules, base, m) {
      ModelClosesRound(rules, m);
    }
  }

  /**
    A call with linear rules gives the least model of the active rules.  It is the meaning of all
    rules exactly when the dropped ones would add nothing to it, and so whenever no two rules are
    nested.
    */
  lemma PlainLinearCallsAreExact(rules: seq<Clause>, before: set<Quad>, after: set<Quad>)
    requires Simple(rules) && Linear(rules) && Called(rules, before, after)
    ensures IsLeastModel(Derived(rules), Active(rules), before, after)
    ensures IsMeaning(rules, before, after) <==> FirstRound(rules, after) <= after
    ensures Apart(rules) ==> IsMeaning(rules, before, after)
  {
    var run, preds := Active(rules), Derived(rules);
    var d :| LeastSettled(run, preds, before, AllOnce(run, before), d) && after == before + d;
    ActiveIsRegular(rules);
    OnceIsRound(run, before);
    FirstRoundIsFair(run, preds, before);
    LinearRulesAreExact(run, preds, before, AllOnce(run, before), d);
    DroppingIsHarmlessExactlyWhen(rules, before, after);
  }

  // ------------------------------------------------------------------------------
  // Repeated calls
  // ------------------------------------------------------------------------------

  ghost predicate FairCall(rules: seq<Clause>, before: set<Quad>, after: set<Quad>) {
    FairSeed(Active(rules), Derived(rules), before, AllOnce(Active(rules), before)) && Called(rules, before, after)
  }

  lemma CallExtends(rules: seq<Clause>, base: set<Quad>, before: set<Quad>, after: set<Quad>)
    requires Regular(Active(rules), Derived(rules)) && Extends(Derived(rules), base, before) && FairCall(rules, before, after)
    ensures Extends(Derived(rules), base, after)
    ensures forall m :: Extends(Derived(rules), base, m) && IsModel(Active(rules), m) && before <= m ==> after <= m
  {
    var run, preds := Active(rules), Derived(rules);
    var seed := AllOnce(run, before);
    var d :| LeastSettled(run, preds, before, seed, d) && after == before + d;
    OnlyDerived(run, preds, before, seed, d);
    assert forall f :: f in after - base ==> f in before - base || f in after - before;
    forall m | Extends(preds, base, m) && IsModel(run, m) && before <= m
      ensures after <= m
    {
      assert Extends(preds, before, m);
      LoopIsSound(run, preds, before, seed, d, m);
    }
  }

  lemma {:induction false} CallsExtend(rules: seq<Clause>, stores: seq<set<Quad>>)
    requires Regular(Active(rules), Derived(rules)) && stores != []
    requires forall i :: 0 <= i < |stores| - 1 ==> FairCall(rules, stores[i], stores[i + 1])
    ensures Extends(Derived(rules), stores[0], stores[|stores| - 1])
    ensures forall m :: Extends(Derived(rules), stores[0], m) && IsModel(Active(rules), m) ==> stores[|stores| - 1] <= m
  {
    if |stores| > 1 {
      var n := |stores| - 1;
      forall i | 0 <= i < n - 1
        ensures FairCall(rules, stores[..n][i], stores[..n][i + 1])
      {
        assert stores[..n][i] == stores[i] && stores[..n][i + 1] == stores[i + 1];
      }
      CallsExtend(rules, stores[..n]);
      assert FairCall(rules, stores[n - 1], stores[n - 1 + 1]);
      CallExtends(rules, stores[0], stores[n - 1], stores[n]);
    }
  }

  lemma FairCallsReachTheMeaning(rules: seq<Clause>, stores: seq<set<Quad>>)
    requires Regular(Active(rules), Derived(rules)) && |stores| >= 2
    requires forall i :: 0 <= i < |stores| - 1 ==> FairCall(rules, stores[i], stores[i + 1])
    requires stores[|stores| - 2] == stores[|stores| - 1]
    ensures IsLeastModel(Derived(rules), Active(rules), stores[0], stores[|stores| - 1])
  {
    CallsExtend(rules, stores);
    var n := |stores| - 1;
    var m := stores[n];
    assert FairCall(rules, stores[n - 1], stores[n - 1 + 1]);
    assert FirstRound(Active(rules), m) <= m;
    FirstRoundIsModel(Active(rules), m);
  }

  /**
    Linear or not: once a further call adds nothing, the calls together have reached the least
    model of the active rules, and with it the meaning of all rules exactly when the dropped ones
    would add nothing.
    */
  lemma RepeatedCallsReachTheMeaning(rules: seq<Clause>, stores: seq<set<Quad>>)
    requires Simple(rules) && |stores| >= 2
    requires forall i :: 0 <= i < |stores| - 1 ==> Called(rules, stores[i], stores[i + 1])
    requires stores[|stores| - 2] == stores[|stores| - 1]
    ensures var last := stores[|stores| - 1];
            && IsLeastModel(Derived(rules), Active(rules), stores[0], last)
            && (IsMeaning(rules, stores[0], last) <==> FirstRound(rules, last) <= last)
            && (Apart(rules) ==> IsMeaning(rules, stores[0], last))
  {
    ActiveIsRegular(rules);
    forall i | 0 <= i < |stores| - 1
      ensures FairCall(rules, stores[i], stores[i + 1])
    {
      OnceIsRound(Active(rules), stores[i]);
      FirstRoundIsFair(Active(rules), Derived(rules), stores[i]);
    }
    FairCallsReachTheMeaning(rules, stores);
    DroppingIsHarmlessExactlyWhen(rules, stores[0], stores[|stores| - 1]);
  }
}
