/**
  The simple engine: every rule once, in order, on a store that grows.
  */
module SinglePass {
  import opened Prelude
  import opened RuleSafety
  import opened Datalog
  import opened RuleSql
  import opened CompiledRules

  /** One step for each item, from left to right. */
  function Through<C, S>(step: (C, S) -> S, items: seq<C>, s: S): S {
    if items == [] then s else step(items[|items| - 1], Through(step, items[..|items| - 1], s))
  }

  lemma {:induction false} ThroughInParts<C, S>(step: (C, S) -> S, items: seq<C>, s: S, n: nat)
    requires n <= |items|
    ensures Through(step, items, s) == Through(step, items[n..], Through(step, items[..n], s))
    decreases |items|
  {
    if n == |items| {
      assert items[..n] == items && items[n..] == [];
    } else {
      var last := |items| - 1;
      ThroughInParts(step, items[..last], s, n);
      assert items[..last][..n] == items[..n] && items[..last][n..] == items[n..][..last - n];
    }
  }

  /** Every rule once, in order, each on what the ones before it left. */
  function Pass(rules: seq<Clause>, store: set<Quad>): set<Quad> {
    Through(Extended, rules, store)
  }

  function Extended(c: Clause, store: set<Quad>): set<Quad> {
    store + Derive(c, store)
  }

  method RunInference(rules: seq<Clause>, store: set<Quad>) returns (after: set<Quad>)
    requires ValidRules(rules)
    ensures after == Pass(rules, store)
  {
    after := store;
    for i := 0 to |rules|
      invariant after == Pass(rules[..i], store)
    {
      assert rules[..i + 1][..i] == rules[..i];
      var more := RunRule(rules[i], after);
      after := after + more;
    }
    assert rules[..|rules|] == rules;
  }

  /** No rule reads a predicate that it or a later rule derives. */
  ghost predicate Ordered(rules: seq<Clause>) {
    forall i, j, a :: 0 <= i <= j < |rules| && a in rules[i].body + rules[i].negated && a.p.Const? ==>
      a.p.id != HeadPred(rules[j])
  }

  lemma {:induction false} PassGrows(rules: seq<Clause>, store: set<Quad>, n: nat)
    requires n <= |rules|
    ensures store <= Pass(rules[..n], store) <= Pass(rules, store)
    decreases |rules|
  {
    if n == |rules| {
      assert rules[..n] == rules;
      if n > 0 {
        PassGrows(rules[..n - 1], store, 0);
        assert rules[..n - 1][..0] == [];
      }
    } else {
      PassGrows(rules[..|rules| - 1], store, n);
      assert rules[..|rules| - 1][..n] == rules[..n];
    }
  }

  lemma PassLast(rules: seq<Clause>, store: set<Quad>)
    requires rules != []
    ensures Pass(rules, store) == Extended(rules[|rules| - 1], Pass(rules[..|rules| - 1], store))
  {
  }

  lemma LastHead(rules: seq<Clause>, store: set<Quad>, f: Quad)
    requires rules != [] && rules[|rules| - 1].Valid()
    requires f in Pass(rules, store) && f !in Pass(rules[..|rules| - 1], store)
    ensures f.p == HeadPred(rules[|rules| - 1])
  {
    DeriveHead(rules[|rules| - 1], Pass(rules[..|rules| - 1], store), f);
  }

  /** A new fact has the head of one of the rules. */
  lemma {:induction false} NewFactHead(rules: seq<Clause>, store: set<Quad>, f: Quad) returns (j: nat)
    requires ValidRules(rules) && f in Pass(rules, store) && f !in store
    ensures j < |rules| && f.p == HeadPred(rules[j])
    decreases |rules|
  {
    var last := |rules| - 1;
    if f in Pass(rules[..last], store) {
      j := NewFactHead(rules[..last], store, f);
    } else {
      assert rules[last] in rules;
      LastHead(rules, store, f);
      j := last;
    }
  }

  /** A fact that is new after the first `n` rules has the head of one of the others. */
  lemma LaterFactHead(rules: seq<Clause>, store: set<Quad>, n: nat, f: Quad) returns (j: nat)
    requires ValidRules(rules) && n <= |rules| && f in Pass(rules, store) && f !in Pass(rules[..n], store)
    ensures n <= j < |rules| && f.p == HeadPred(rules[j])
  {
    ThroughInParts(Extended, rules, store, n);
    assert forall c :: c in rules[n..] ==> c in rules;
    j := NewFactHead(rules[n..], Pass(rules[..n], store), f);
    j := j + n;
  }

  // ------------------------------------------------------------------------------
  // Rules in order of dependency
  // ------------------------------------------------------------------------------

  /** The rules as their full queries run them, without those whose statements fail. */
  ghost function AsRun(rules: seq<Clause>): seq<Clause> {
    if rules == [] then []
    else
      var rest := AsRun(rules[..|rules| - 1]);
      match Seeded(rules[|rules| - 1])
      case None => rest
      case Some(k) => rest + [k]
  }

  lemma {:induction false} AsRunMembers(rules: seq<Clause>)
    requires ValidRules(rules)
    ensures forall k :: k in AsRun(rules) <==> exists c :: c in rules && Seeded(c) == Some(k)
  {
    if rules != [] {
      var n := |rules| - 1;
      assert rules == rules[..n] + [rules[n]] && rules[n] in rules;
      AsRunMembers(rules[..n]);
      assert forall c :: c in rules <==> c in rules[..n] || c == rules[n];
    }
  }

  lemma {:induction false} PlainAsRun(rules: seq<Clause>)
    requires ValidRules(rules) && PlainRules(rules)
    ensures AsRun(rules) == rules
  {
    if rules != [] {
      var n := |rules| - 1;
      assert rules == rules[..n] + [rules[n]] && rules[n] in rules;
      PlainAsRun(rules[..n]);
      RunsAsWrittenExactlyWhen(rules[n]);
    }
  }

  lemma InAsRun(rules: seq<Clause>, c: Clause)
    requires ValidRules(rules) && c in rules && Seeded(c).Some?
    ensures Seeded(c).value in AsRun(rules)
  {
    AsRunMembers(rules);
  }

  lemma AsRunOrigin(rules: seq<Clause>, k: Clause) returns (i: nat)
    requires ValidRules(rules) && k in AsRun(rules)
    ensures i < |rules| && Seeded(rules[i]) == Some(k)
  {
    AsRunMembers(rules);
    var c :| c in rules && Seeded(c) == Some(k);
    i :| i < |rules| && rules[i] == c;
  }

  lemma AsRunFacts(rules: seq<Clause>)
    requires ValidRules(rules)
    ensures ValidRules(AsRun(rules))
    ensures SemiPositive(rules) ==> NegatesOthers(AsRun(rules), Derived(rules))
  {
    forall k | k in AsRun(rules)
      ensures k.Valid() && (SemiPositive(rules) ==> forall a :: a in k.negated ==> a.p.id !in Derived(rules))
    {
      var i := AsRunOrigin(rules, k);
      AsRunFact(rules, rules[i]);
    }
  }

  lemma AsRunFact(rules: seq<Clause>, c: Clause)
    requires ValidRules(rules) && c in rules && Seeded(c).Some?
    ensures var k := Seeded(c).value;
            k.Valid() && (SemiPositive(rules) ==> forall a :: a in k.negated ==> a.p.id !in Derived(rules))
  {
    RunKeepsPreds(c);
    if SemiPositive(rules) {
      NegatesSame(c, Seeded(c).value, Derived(rules));
    }
  }

  lemma NegatesSame(c: Clause, k: Clause, preds: set<int>)
    requires c.Valid() && SamePreds(c, k) && forall a :: a in c.negated ==> a.p.id !in preds
    ensures forall a :: a in k.negated ==> a.p.Const? && a.p.id !in preds
  {
    forall a | a in k.negated
      ensures a.p.Const? && a.p.id !in preds
    {
      var i :| 0 <= i < |k.negated| && k.negated[i] == a;
      assert c.negated[i] in c.negated;
    }
  }

  /** With the rules in order of dependency one pass closes the store under the rules as they run, negation included. */
  lemma OrderedPassIsModel(rules: seq<Clause>, store: set<Quad>)
    requires ValidRules(rules) && Ordered(rules)
    ensures IsModel(AsRun(rules), Pass(rules, store))
  {
    var m := Pass(rules, store);
    forall k: Clause, fs: seq<Quad>, f: Quad | k in AsRun(rules) && Fires(k, m, m, fs, f)
      ensures f in m
    {
      var i := AsRunOrigin(rules, k);
      OrderedRuleDone(rules, store, i, fs, f);
    }
  }

  lemma OrderedIsPlain(rules: seq<Clause>, c: Clause)
    requires Ordered(rules) && c in rules
    ensures !SelfRecursive(c)
  {
    var i :| 0 <= i < |rules| && rules[i] == c;
    forall k | 0 <= k < |c.body| && c.body[k].p.Const?
      ensures c.body[k].p.id != HeadPred(c)
    {
      assert c.body[k] in rules[i].body + rules[i].negated;
    }
  }

  lemma OrderedRuleDone(rules: seq<Clause>, store: set<Quad>, i: nat, fs: seq<Quad>, f: Quad)
    requires ValidRules(rules) && Ordered(rules) && i < |rules| && Seeded(rules[i]).Some?
    requires Fires(Seeded(rules[i]).value, Pass(rules, store), Pass(rules, store), fs, f)
    ensures f in Pass(rules, store)
  {
    var c, k, m, before := rules[i], Seeded(rules[i]).value, Pass(rules, store), Pass(rules[..i], store);
    assert c in rules;
    RunKeepsPreds(c);
    PassGrows(rules, store, i);
    LaterFactsUnread(rules, store, i);
    SameReads(c, k, before, m);
    FireUnaffected(k, before, m, fs);
    FiredHead(k, m, fs);
    forall j | 0 <= j < |fs|
      ensures fs[j] in before
    {
      assert k.body[j] in k.body + k.negated;
    }
    RuleRan(rules, store, i, fs, f);
  }

  /** What a rule does not read, it does not read when it runs. */
  lemma SameReads(c: Clause, k: Clause, before: set<Quad>, m: set<Quad>)
    requires c.Valid() && SamePreds(c, k)
    requires forall q, a :: q in m - before && a in c.body + c.negated ==> q.p != a.p.id
    ensures forall q, a :: q in m - before && a in k.body + k.negated ==> a.p.Const? && q.p != a.p.id
  {
    forall q, a | q in m - before && a in k.body + k.negated
      ensures a.p.Const? && q.p != a.p.id
    {
      if a in k.body {
        var j :| 0 <= j < |k.body| && k.body[j] == a;
        assert c.body[j] in c.body && c.body[j] in c.body + c.negated;
      } else {
        var j :| 0 <= j < |k.negated| && k.negated[j] == a;
        assert c.negated[j] in c.negated && c.negated[j] in c.body + c.negated;
      }
    }
  }

  lemma LaterFactsUnread(rules: seq<Clause>, store: set<Quad>, i: nat)
    requires ValidRules(rules) && Ordered(rules) && i < |rules|
    ensures var m, before := Pass(rules, store), Pass(rules[..i], store);
            forall q, a :: q in m - before && a in rules[i].body + rules[i].negated ==> a.p.Const? && q.p != a.p.id
  {
    var m, before := Pass(rules, store), Pass(rules[..i], store);
    assert rules[i] in rules;
    forall q, a | q in m - before && a in rules[i].body + rules[i].negated
      ensures a.p.Const? && q.p != a.p.id
    {
      var j := LaterFactHead(rules, store, i, q);
    }
  }

  /** What a rule draws from the facts before it is there after it, and stays. */
  lemma RuleRan(rules: seq<Clause>, store: set<Quad>, i: nat, fs: seq<Quad>, f: Quad)
    requires Ordered(rules) && i < |rules| && Seeded(rules[i]).Some?
    requires Fires(Seeded(rules[i]).value, Pass(rules[..i], store), Pass(rules[..i], store), fs, f) && |fs| == |rules[i].body|
    ensures f in Pass(rules, store)
  {
    var c, before := rules[i], Pass(rules[..i], store);
    OrderedIsPlain(rules, c);
    QueryMember(Seeded(c).value, before, Same(before, |c.body|), fs);
    PassLast(rules[..i + 1], store);
    assert rules[..i + 1][..i] == rules[..i];
    PassGrows(rules, store, i + 1);
  }

  lemma {:induction false} PassExtends(rules: seq<Clause>, all: seq<Clause>, store: set<Quad>)
    requires ValidRules(all) && forall c :: c in rules ==> c in all
    ensures Extends(Derived(all), store, Pass(rules, store))
    decreases |rules|
  {
    if rules != [] {
      var n := |rules| - 1;
      PassExtends(rules[..n], all, store);
      var before := Pass(rules[..n], store);
      var c := rules[n];
      forall f | f in Derive(c, before)
        ensures f.p in Derived(all)
      {
        DeriveHead(c, before, f);
        var i: nat :| i < |all| && all[i] == c;
      }
    }
  }

  lemma {:induction false} PassIsSound(rules: seq<Clause>, all: seq<Clause>, store: set<Quad>, m: set<Quad>)
    requires ValidRules(all) && SemiPositive(all) && (forall c :: c in rules ==> c in all && !SelfRecursive(c))
    requires Extends(Derived(all), store, m) && IsModel(AsRun(all), m)
    ensures Pass(rules, store) <= m
    decreases |rules|
  {
    if rules != [] {
      var n := |rules| - 1;
      PassIsSound(rules[..n], all, store, m);
      PassExtends(rules[..n], all, store);
      InsertedIsSound(rules[n], all, Pass(rules[..n], store), m);
    }
  }

  lemma InsertedIsSound(c: Clause, all: seq<Clause>, before: set<Quad>, m: set<Quad>)
    requires ValidRules(all) && SemiPositive(all) && c in all
    requires Extends(Derived(all), before, m) && IsModel(AsRun(all), m)
    ensures Inserted(c, before) <= m
  {
    AsRunFacts(all);
    if Seeded(c).Some? {
      InAsRun(all, c);
      QueryStays(AsRun(all), Derived(all), before, m, Seeded(c).value, Same(before, |c.body|));
    }
  }

  /** One pass in order of dependency gives the least model of the rules as they run, and the meaning of plain rules. */
  lemma OrderedPassIsExact(rules: seq<Clause>, store: set<Quad>)
    requires ValidRules(rules) && Ordered(rules) && SemiPositive(rules)
    ensures IsLeastModel(Derived(rules), AsRun(rules), store, Pass(rules, store))
    ensures PlainRules(rules) ==> IsMeaning(rules, store, Pass(rules, store))
  {
    if PlainRules(rules) {
      PlainAsRun(rules);
    }
    OrderedPassIsModel(rules, store);
    PassExtends(rules, rules, store);
    forall m | Extends(Derived(rules), store, m) && IsModel(AsRun(rules), m)
      ensures Pass(rules, store) <= m
    {
      forall c | c in rules
        ensures !SelfRecursive(c)
      {
        OrderedIsPlain(rules, c);
      }
      PassIsSound(rules, rules, store, m);
    }
  }

  lemma ReversedPass(a: int, b: int, c: int, s: int, o: int)
    requires a != b && b != c && a != c
    ensures Pass([CopyRule(b, c), CopyRule(a, b)], {Quad(s, a, o, 0)}) == {Quad(s, a, o, 0), Quad(s, b, o, 0)}
  {
    var rules := [CopyRule(b, c), CopyRule(a, b)];
    var store := {Quad(s, a, o, 0)};
    NothingToCopy(b, c, store);
    OneToCopy(a, b, s, o);
    assert rules[..1] == [rules[0]] && rules[..1][..0] == [];
    PassLast(rules[..1], store);
    PassLast(rules, store);
  }

  lemma NothingToCopy(e: int, p: int, store: set<Quad>)
    requires e != p && forall h :: h in store ==> h.p != e
    ensures Extended(CopyRule(e, p), store) == store
  {
    CopyOnce(e, p, store);
  }

  lemma OneToCopy(e: int, p: int, s: int, o: int)
    requires e != p
    ensures Extended(CopyRule(e, p), {Quad(s, e, o, 0)}) == {Quad(s, e, o, 0), Quad(s, p, o, 0)}
  {
    var store := {Quad(s, e, o, 0)};
    CopyOnce(e, p, store);
    assert Quad(s, e, o, 0) in store;
  }

  lemma CopyOnce(e: int, p: int, store: set<Quad>)
    requires e != p
    ensures forall f :: f in Extended(CopyRule(e, p), store)
                   <==> f in store || exists h :: h in store && h.p == e && f == Quad(h.s, p, h.o, 0)
  {
    CopyIsPlain(e, p);
    PlainRuns(CopyRule(e, p), store);
    CopyQuery(e, p, store);
  }

  /** In the wrong order one pass misses the end of every chain of two rules. */
  lemma ReversedPassMisses(a: int, b: int, c: int, s: int, o: int)
    requires a != b && b != c && a != c
    ensures var rules := [CopyRule(b, c), CopyRule(a, b)];
            var store := {Quad(s, a, o, 0)};
            && Pass(rules, store) == {Quad(s, a, o, 0), Quad(s, b, o, 0)}
            && !IsMeaning(rules, store, Pass(rules, store))
  {
    ReversedPass(a, b, c, s, o);
    CopyMissing(a, b, c, s, o, {Quad(s, a, o, 0), Quad(s, b, o, 0)});
  }

  lemma CopyMissing(a: int, b: int, c: int, s: int, o: int, m: set<Quad>)
    requires Quad(s, b, o, 0) in m && Quad(s, c, o, 0) !in m
    ensures !IsModel([CopyRule(b, c), CopyRule(a, b)], m)
  {
    var rules := [CopyRule(b, c), CopyRule(a, b)];
    CopyFires(b, c, m, Quad(s, b, o, 0));
    assert rules[0] in rules;
    assert Fires(rules[0], m, m, [Quad(s, b, o, 0)], Quad(s, c, o, 0));
  }
}
