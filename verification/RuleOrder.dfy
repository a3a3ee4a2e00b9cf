/**
  The order in which stored rules run.  Rules are stored under the stratum of their head and
  run by rising stratum, each once.
  */
module RuleOrder {
  import opened Prelude
  import opened RuleSafety
  import opened Datalog
  import opened RuleSql
  import opened CompiledRules
  import opened SinglePass
  import S = Stratification

  // ------------------------------------------------------------------------------
  // The dependency graph of rules
  // ------------------------------------------------------------------------------

  predicate Uses(c: Clause, p: int, negative: bool) {
    exists a :: a in (if negative then c.negated else c.body) && a.p.Const? && a.p.id == p
  }

  /** Edges from heads to the predicates of the bodies. */
  ghost predicate IsGraph(rules: seq<Clause>, edges: seq<S.Edge>) {
    forall e :: e in edges <==> exists c :: c in rules && e.from == HeadPred(c) && Uses(c, e.to, e.negative)
  }

  method AtomEdges(head: int, atoms: seq<Atom>, negative: bool) returns (edges: seq<S.Edge>)
    ensures forall e :: e in edges <==>
              (&& e.from == head && e.negative == negative
               && exists a :: a in atoms && a.p.Const? && a.p.id == e.to)
  {
    edges := [];
    for i := 0 to |atoms|
      invariant forall e :: e in edges <==>
                  (&& e.from == head && e.negative == negative
                   && exists k :: 0 <= k < i && atoms[k].p.Const? && atoms[k].p.id == e.to)
    {
      if atoms[i].p.Const? {
        edges := edges + [S.Edge(head, atoms[i].p.id, negative)];
      }
    }
  }

  method BuildDependencyGraph(rules: seq<Clause>) returns (edges: seq<S.Edge>)
    ensures IsGraph(rules, edges)
  {
    edges := [];
    for i := 0 to |rules|
      invariant IsGraph(rules[..i], edges)
    {
      var c := rules[i];
      assert rules[..i + 1] == rules[..i] + [c];
      var positive := AtomEdges(HeadPred(c), c.body, false);
      var negative := AtomEdges(HeadPred(c), c.negated, true);
      ghost var before := edges;
      edges := edges + positive + negative;
      forall e
        ensures e in edges <==> exists d :: d in rules[..i + 1] && e.from == HeadPred(d) && Uses(d, e.to, e.negative)
      {
        assert e in edges <==> e in before || e in positive || e in negative;
        assert e in positive || e in negative <==> e.from == HeadPred(c) && Uses(c, e.to, e.negative);
        assert forall d :: d in rules[..i + 1] <==> d in rules[..i] || d == c;
      }
    }
    assert rules[..|rules|] == rules;
  }

  // ------------------------------------------------------------------------------
  // Storing rules
  // ------------------------------------------------------------------------------

  function Stratum(strata: map<int, nat>, c: Clause): nat {
    if HeadPred(c) in strata then strata[HeadPred(c)] else 0
  }

  /** By rising stratum. */
  ghost predicate Rising(rules: seq<Clause>, strata: map<int, nat>) {
    forall i, j :: 0 <= i < j < |rules| ==> Stratum(strata, rules[i]) <= Stratum(strata, rules[j])
  }

  /** The rules of one stratum, in their given order. */
  function InStratum(rules: seq<Clause>, strata: map<int, nat>, k: nat): seq<Clause> {
    if rules == [] then []
    else
      var rest := InStratum(rules[..|rules| - 1], strata, k);
      var c := rules[|rules| - 1];
      if Stratum(strata, c) == k then rest + [c] else rest
  }

  lemma {:induction false} InStratumOnly(rules: seq<Clause>, strata: map<int, nat>, k: nat)
    ensures forall c :: c in InStratum(rules, strata, k) ==> Stratum(strata, c) == k
    ensures forall c :: c in InStratum(rules, strata, k) <==> c in rules && Stratum(strata, c) == k
  {
    if rules != [] {
      var n := |rules| - 1;
      InStratumOnly(rules[..n], strata, k);
      assert rules == rules[..n] + [rules[n]];
    }
  }

  /** The rules of the strata below `k`. */
  ghost function Below(rules: seq<Clause>, strata: map<int, nat>, k: nat): seq<Clause> {
    if rules == [] then []
    else
      var rest := Below(rules[..|rules| - 1], strata, k);
      var c := rules[|rules| - 1];
      if Stratum(strata, c) < k then rest + [c] else rest
  }

  lemma {:induction false} OneStratumMore(rules: seq<Clause>, strata: map<int, nat>, k: nat)
    ensures multiset(Below(rules, strata, k + 1)) == multiset(Below(rules, strata, k)) + multiset(InStratum(rules, strata, k))
  {
    if rules != [] {
      OneStratumMore(rules[..|rules| - 1], strata, k);
    }
  }

  lemma {:induction false} NothingBelow(rules: seq<Clause>, strata: map<int, nat>)
    ensures Below(rules, strata, 0) == []
  {
    if rules != [] {
      NothingBelow(rules[..|rules| - 1], strata);
    }
  }

  lemma {:induction false} EverythingBelow(rules: seq<Clause>, strata: map<int, nat>, k: nat)
    requires forall c :: c in rules ==> Stratum(strata, c) < k
    ensures Below(rules, strata, k) == rules
  {
    if rules != [] {
      var n := |rules| - 1;
      assert rules == rules[..n] + [rules[n]];
      EverythingBelow(rules[..n], strata, k);
    }
  }

  ghost predicate StrataBelow(rules: seq<Clause>, strata: map<int, nat>, k: nat) {
    forall i :: 0 <= i < |rules| ==> Stratum(strata, rules[i]) < k
  }

  lemma RisingAppend(stored: seq<Clause>, rules: seq<Clause>, strata: map<int, nat>, k: nat)
    requires Rising(stored, strata) && StrataBelow(stored, strata, k)
    ensures Rising(stored + InStratum(rules, strata, k), strata)
    ensures StrataBelow(stored + InStratum(rules, strata, k), strata, k + 1)
  {
    InStratumOnly(rules, strata, k);
    var more := InStratum(rules, strata, k);
    assert forall i :: 0 <= i < |more| ==> more[i] in more;
  }

  /** The rules bucket by bucket, as they are stored and later read. */
  method StoreOrder(rules: seq<Clause>, strata: map<int, nat>, highest: nat) returns (stored: seq<Clause>)
    requires forall c :: c in rules ==> Stratum(strata, c) <= highest
    ensures Rising(stored, strata)
    ensures multiset(stored) == multiset(rules)
    ensures forall k: nat :: InStratum(stored, strata, k) == InStratum(rules, strata, k)
  {
    stored := [];
    NothingBelow(rules, strata);
    for k := 0 to highest + 1
      invariant Rising(stored, strata) && StrataBelow(stored, strata, k)
      invariant multiset(stored) == multiset(Below(rules, strata, k))
      invariant forall j: nat :: InStratum(stored, strata, j) == if j < k then InStratum(rules, strata, j) else []
    {
      OneStratumMore(rules, strata, k);
      RisingAppend(stored, rules, strata, k);
      BucketAppended(stored, rules, strata, k);
      stored := stored + InStratum(rules, strata, k);
    }
    EverythingBelow(rules, strata, highest + 1);
    forall k: nat | k > highest
      ensures InStratum(rules, strata, k) == []
    {
      EmptyBucket(rules, strata, k);
    }
  }

  lemma {:induction false} EmptyBucket(rules: seq<Clause>, strata: map<int, nat>, k: nat)
    requires forall c :: c in rules ==> Stratum(strata, c) < k
    ensures InStratum(rules, strata, k) == []
  {
    if rules != [] {
      EmptyBucket(rules[..|rules| - 1], strata, k);
    }
  }

  lemma {:induction false} BucketOfConcat(a: seq<Clause>, b: seq<Clause>, strata: map<int, nat>, k: nat)
    ensures InStratum(a + b, strata, k) == InStratum(a, strata, k) + InStratum(b, strata, k)
  {
    if b == [] {
      assert a + b == a;
    } else {
      var n := |b| - 1;
      assert (a + b)[..|a + b| - 1] == a + b[..n];
      BucketOfConcat(a, b[..n], strata, k);
    }
  }

  lemma {:induction false} BucketOfBucket(rules: seq<Clause>, strata: map<int, nat>, k: nat, j: nat)
    ensures InStratum(InStratum(rules, strata, k), strata, j) == if j == k then InStratum(rules, strata, k) else []
  {
    if rules != [] {
      var n := |rules| - 1;
      BucketOfBucket(rules[..n], strata, k, j);
      if Stratum(strata, rules[n]) == k {
        BucketOfConcat(InStratum(rules[..n], strata, k), [rules[n]], strata, j);
        assert [rules[n]][..0] == [];
      }
    }
  }

  lemma BucketAppended(stored: seq<Clause>, rules: seq<Clause>, strata: map<int, nat>, k: nat)
    requires forall j: nat :: InStratum(stored, strata, j) == if j < k then InStratum(rules, strata, j) else []
    ensures forall j: nat :: InStratum(stored + InStratum(rules, strata, k), strata, j)
                          == if j < k + 1 then InStratum(rules, strata, j) else []
  {
    forall j: nat
      ensures InStratum(stored + InStratum(rules, strata, k), strata, j) == if j < k + 1 then InStratum(rules, strata, j) else []
    {
      BucketOfConcat(stored, InStratum(rules, strata, k), strata, j);
      BucketOfBucket(rules, strata, k, j);
    }
  }

  /** The predicates of heads and bodies. */
  method CollectPredicates(rules: seq<Clause>) returns (preds: seq<int>)
    ensures forall c :: c in rules ==> HeadPred(c) in preds
  {
    preds := [];
    for i := 0 to |rules|
      invariant forall k :: 0 <= k < i ==> HeadPred(rules[k]) in preds
    {
      preds := preds + [HeadPred(rules[i])];
      var atoms := rules[i].body + rules[i].negated;
      for k := 0 to |atoms|
        invariant forall k :: 0 <= k <= i ==> HeadPred(rules[k]) in preds
      {
        if atoms[k].p.Const? {
          preds := preds + [atoms[k].p.id];
        }
      }
    }
  }

  function Highest(rules: seq<Clause>, strata: map<int, nat>): (n: nat)
    ensures forall c :: c in rules ==> Stratum(strata, c) <= n
  {
    if rules == [] then 0
    else
      var rest := Highest(rules[..|rules| - 1], strata);
      var k := Stratum(strata, rules[|rules| - 1]);
      assert rules == rules[..|rules| - 1] + [rules[|rules| - 1]];
      if k > rest then k else rest
  }

  /** Rules are stored by rising stratum, or as given when a negative edge lies on a cycle. */
  method StoreRules(rules: seq<Clause>) returns (stored: seq<Clause>, ghost edges: seq<S.Edge>, ghost strata: map<int, nat>)
    ensures IsGraph(rules, edges)
    ensures S.NegativeCycle(edges) ==> stored == rules
    ensures !S.NegativeCycle(edges) ==> AsStored(rules, edges, strata, stored)
    ensures !S.NegativeCycle(edges) ==> forall k: nat :: InStratum(stored, strata, k) == InStratum(rules, strata, k)
    ensures multiset(stored) == multiset(rules)
  {
    var preds := CollectPredicates(rules);
    var graph := BuildDependencyGraph(rules);
    edges := graph;
    var found := S.PredicateStrata(preds, graph);
    if found.Err? {
      return rules, graph, map[];
    }
    strata := found.value;
    stored := StoreOrder(rules, found.value, Highest(rules, found.value));
  }

  // ------------------------------------------------------------------------------
  // The order and the single pass
  // ------------------------------------------------------------------------------

  /** No predicate depends on itself. */
  ghost predicate NonRecursive(edges: seq<S.Edge>) {
    forall e :: e in edges ==> !S.Reach(edges, e.to, e.from)
  }

  /** A rule that uses what another derives, without a cycle, has the lower stratum and runs before it. */
  lemma UsersRunFirst(rules: seq<Clause>, edges: seq<S.Edge>, strata: map<int, nat>, stored: seq<Clause>,
                      i: nat, j: nat, negative: bool)
    requires IsGraph(rules, edges) && S.AreStrata(edges, strata) && Rising(stored, strata)
    requires forall c :: c in stored ==> c in rules
    requires i < |stored| && j < |stored| && Uses(stored[i], HeadPred(stored[j]), negative)
    requires !S.Reach(edges, HeadPred(stored[j]), HeadPred(stored[i]))
    ensures Stratum(strata, stored[i]) < Stratum(strata, stored[j]) && i < j
  {
    var e := S.Edge(HeadPred(stored[i]), HeadPred(stored[j]), negative);
    assert stored[i] in rules && e in edges;
    assert !S.SameComponent(edges, e.from, e.to);
  }

  lemma UseRises(rules: seq<Clause>, edges: seq<S.Edge>, strata: map<int, nat>, c: Clause, p: int, negative: bool)
    requires IsGraph(rules, edges) && S.AreStrata(edges, strata) && NonRecursive(edges)
    requires c in rules && Uses(c, p, negative)
    ensures HeadPred(c) in strata && p in strata && strata[HeadPred(c)] < strata[p]
  {
    var e := S.Edge(HeadPred(c), p, negative);
    assert e in edges;
    assert !S.SameComponent(edges, e.from, e.to);
  }

  /** What storing rules without a negative cycle gives. */
  ghost predicate AsStored(rules: seq<Clause>, edges: seq<S.Edge>, strata: map<int, nat>, stored: seq<Clause>) {
    IsGraph(rules, edges) && S.AreStrata(edges, strata) && Rising(stored, strata) && multiset(stored) == multiset(rules)
  }

  lemma SameMembers(rules: seq<Clause>, stored: seq<Clause>)
    requires multiset(stored) == multiset(rules)
    ensures forall c :: c in stored <==> c in rules
    ensures Derived(stored) == Derived(rules)
    ensures forall store :: AllOnce(stored, store) == AllOnce(rules, store)
  {
    forall c
      ensures c in stored <==> c in rules
    {
      assert c in multiset(stored) <==> c in multiset(rules);
    }
    forall store
      ensures AllOnce(stored, store) == AllOnce(rules, store)
    {
      SameRound(rules, stored, store);
      SameRound(stored, rules, store);
    }
    SameHeads(rules, stored);
    SameHeads(stored, rules);
  }

  lemma SameRound(a: seq<Clause>, b: seq<Clause>, store: set<Quad>)
    requires forall c :: c in a ==> c in b
    ensures AllOnce(a, store) <= AllOnce(b, store)
  {
    forall f | f in AllOnce(a, store)
      ensures f in AllOnce(b, store)
    {
      var i: nat :| i < |a| && f in Derive(a[i], store);
      assert a[i] in b;
      var j: nat :| j < |b| && b[j] == a[i];
      assert f in Derive(b[j], store);
    }
  }

  lemma SameHeads(a: seq<Clause>, b: seq<Clause>)
    requires forall c :: c in a ==> c in b
    ensures Derived(a) <= Derived(b)
  {
    forall p | p in Derived(a)
      ensures p in Derived(b)
    {
      var i: nat :| i < |a| && p == HeadPred(a[i]);
      assert a[i] in b;
      var j: nat :| j < |b| && b[j] == a[i];
      assert HeadPred(b[j]) in Derived(b);
    }
  }

  /** No stored rule reads what an earlier one derives. */
  lemma EarlierUnread(rules: seq<Clause>, edges: seq<S.Edge>, strata: map<int, nat>, stored: seq<Clause>, n: nat, j: nat, a: Atom)
    requires ValidRules(rules) && AsStored(rules, edges, strata, stored) && NonRecursive(edges)
    requires j <= n < |stored| && a in stored[n].body + stored[n].negated
    ensures a.p.Const? && a.p.id != HeadPred(stored[j])
  {
    SameMembers(rules, stored);
    var negative := a !in stored[n].body;
    assert stored[n] in stored && stored[j] in stored && stored[n].Valid();
    assert Uses(stored[n], a.p.id, negative);
    UseRises(rules, edges, strata, stored[n], a.p.id, negative);
  }

  lemma {:induction false} PrefixIsOneRound(rules: seq<Clause>, edges: seq<S.Edge>, strata: map<int, nat>, stored: seq<Clause>,
                                            store: set<Quad>, n: nat)
    requires ValidRules(rules) && AsStored(rules, edges, strata, stored) && NonRecursive(edges) && n <= |stored|
    ensures Pass(stored[..n], store) == store + AllOnce(stored[..n], store)
  {
    if n > 0 {
      PrefixIsOneRound(rules, edges, strata, stored, store, n - 1);
      assert stored[..n][..n - 1] == stored[..n - 1];
      RuleSeesOnlyStore(rules, edges, strata, stored, store, n - 1);
      PassLast(stored[..n], store);
      OnceMore(stored[..n], store);
      AddUp(Pass(stored[..n - 1], store), Derive(stored[n - 1], store), store, AllOnce(stored[..n - 1], store));
    }
  }

  lemma AddUp(before: set<Quad>, more: set<Quad>, store: set<Quad>, round: set<Quad>)
    requires before == store + round
    ensures before + more == store + (round + more)
  {
  }

  lemma StoredIsPlain(rules: seq<Clause>, edges: seq<S.Edge>, strata: map<int, nat>, stored: seq<Clause>, n: nat)
    requires ValidRules(rules) && AsStored(rules, edges, strata, stored) && NonRecursive(edges) && n < |stored|
    ensures stored[n].Valid() && !SelfRecursive(stored[n])
  {
    var c := stored[n];
    SameMembers(rules, stored);
    assert c in stored;
    forall k | 0 <= k < |c.body|
      ensures c.body[k].p.id != HeadPred(c)
    {
      EarlierUnread(rules, edges, strata, stored, n, n, c.body[k]);
    }
  }

  lemma RuleSeesOnlyStore(rules: seq<Clause>, edges: seq<S.Edge>, strata: map<int, nat>, stored: seq<Clause>, store: set<Quad>, n: nat)
    requires ValidRules(rules) && AsStored(rules, edges, strata, stored) && NonRecursive(edges) && n < |stored|
    ensures var before := Pass(stored[..n], store);
            Extended(stored[n], before) == before + Derive(stored[n], store)
  {
    var c, before := stored[n], Pass(stored[..n], store);
    SameMembers(rules, stored);
    StoredIsPlain(rules, edges, strata, stored, n);
    PassGrows(stored[..n], store, 0);
    assert stored[..n][..0] == [];
    forall f, a | f in before - store && a in c.body + c.negated
      ensures f.p != a.p.id
    {
      var j := NewFactHead(stored[..n], store, f);
      EarlierUnread(rules, edges, strata, stored, n, j, a);
    }
    InsertedUnaffected(c, store, before);
  }

  lemma InsertedUnaffected(c: Clause, store: set<Quad>, before: set<Quad>)
    requires c.Valid() && store <= before
    requires forall f, a :: f in before - store && a in c.body + c.negated ==> f.p != a.p.id
    ensures Inserted(c, before) == Inserted(c, store)
  {
    RunKeepsPreds(c);
    if Seeded(c).Some? {
      SameReads(c, Seeded(c).value, store, before);
      QueryUnaffected(Seeded(c).value, store, before);
    }
  }

  /** Without recursion, running the rules as they are stored is running all of them once on the store as it was. */
  lemma StoredPassIsOneRound(rules: seq<Clause>, edges: seq<S.Edge>, strata: map<int, nat>, stored: seq<Clause>, store: set<Quad>)
    requires ValidRules(rules) && AsStored(rules, edges, strata, stored) && NonRecursive(edges)
    ensures Pass(stored, store) == store + AllOnce(rules, store)
  {
    PrefixIsOneRound(rules, edges, strata, stored, store, |stored|);
    assert stored[..|stored|] == stored;
    SameMembers(rules, stored);
  }

  /** So it gives the meaning of plain rules exactly when a second round adds nothing. */
  lemma StoredPassIsExactExactlyWhen(rules: seq<Clause>, edges: seq<S.Edge>, strata: map<int, nat>, stored: seq<Clause>, store: set<Quad>)
    requires ValidRules(rules) && PlainRules(rules) && SemiPositive(rules)
    requires AsStored(rules, edges, strata, stored) && NonRecursive(edges)
    ensures var once := store + FirstRound(rules, store);
            IsMeaning(rules, store, Pass(stored, store)) <==> FirstRound(rules, once) <= once
  {
    var once := store + FirstRound(rules, store);
    StoredPassIsOneRound(rules, edges, strata, stored, store);
    SameMembers(rules, stored);
    forall c | c in rules
      ensures !SelfRecursive(c)
    {
      var n: nat :| n < |stored| && stored[n] == c;
      StoredIsPlain(rules, edges, strata, stored, n);
    }
    OnceIsRound(rules, store);
    RoundInModels(rules, store);
    if IsModel(rules, once) {
      ModelClosesRound(rules, once);
    }
    if FirstRound(rules, once) <= once {
      FirstRoundIsModel(rules, once);
    }
  }

  lemma RoundInModels(rules: seq<Clause>, store: set<Quad>)
    requires ValidRules(rules) && SemiPositive(rules)
    ensures Extends(Derived(rules), store, store + FirstRound(rules, store))
    ensures forall m :: Extends(Derived(rules), store, m) && IsModel(rules, m) ==> store + FirstRound(rules, store) <= m
  {
    forall f | f in FirstRound(rules, store)
      ensures f.p in Derived(rules)
      ensures forall m :: Extends(Derived(rules), store, m) && IsModel(rules, m) ==> f in m
    {
      var i: nat :| i < |rules| && f in Query(rules[i], store, Same(store, |rules[i].body|));
      assert rules[i] in rules;
      QueryHead(rules[i], store, f);
      forall m | Extends(Derived(rules), store, m) && IsModel(rules, m)
        ensures f in m
      {
        QueryStays(rules, Derived(rules), store, m, rules[i], Same(store, |rules[i].body|));
      }
    }
  }

  /** On every store at once: the stored order follows the dependencies exactly when no rule reads a derived predicate. */
  lemma StoredIsOrderedExactlyWhen(rules: seq<Clause>, edges: seq<S.Edge>, strata: map<int, nat>, stored: seq<Clause>)
    requires ValidRules(rules) && AsStored(rules, edges, strata, stored) && NonRecursive(edges)
    ensures Ordered(stored) <==> forall c, a :: c in rules && a in c.body + c.negated ==> a.p.id !in Derived(rules)
  {
    SameMembers(rules, stored);
    if Ordered(stored) {
      forall c, a | c in rules && a in c.body + c.negated
        ensures a.p.id !in Derived(rules)
      {
        var n: nat :| n < |stored| && stored[n] == c;
        forall j: nat | j < |stored|
          ensures a.p.id != HeadPred(stored[j])
        {
          assert c.Valid();
          if j <= n {
            EarlierUnread(rules, edges, strata, stored, n, j, a);
          }
        }
      }
    }
    if forall c, a :: c in rules && a in c.body + c.negated ==> a.p.id !in Derived(rules) {
      forall i, j, a | 0 <= i <= j < |stored| && a in stored[i].body + stored[i].negated && a.p.Const?
        ensures a.p.id != HeadPred(stored[j])
      {
        assert stored[i] in rules && HeadPred(stored[j]) in Derived(stored);
      }
    }
  }

  /** However two copying rules in a chain are given, they are stored so that one pass misses the second copy. */
  lemma StoredChainIsIncomplete(a: int, b: int, c: int, s: int, o: int, rules: seq<Clause>,
                                edges: seq<S.Edge>, strata: map<int, nat>, stored: seq<Clause>)
    requires a != b && b != c && a != c
    requires rules == [CopyRule(a, b), CopyRule(b, c)] || rules == [CopyRule(b, c), CopyRule(a, b)]
    requires AsStored(rules, edges, strata, stored)
    ensures stored == [CopyRule(b, c), CopyRule(a, b)]
    ensures !IsMeaning(stored, {Quad(s, a, o, 0)}, Pass(stored, {Quad(s, a, o, 0)}))
  {
    ChainEdges(a, b, c, rules, edges);
    var upper, lower := CopyRule(b, c), CopyRule(a, b);
    assert HeadPred(lower) == b && HeadPred(upper) == c && upper != lower;
    assert S.Edge(c, b, false) in edges;
    assert strata[c] < strata[b];
    TwoRules(rules, stored, upper, lower);
    assert |stored| == 2 && Stratum(strata, stored[0]) <= Stratum(strata, stored[1]);
    assert stored == [upper, lower];
    ReversedPassMisses(a, b, c, s, o);
  }

  lemma TwoRules(rules: seq<Clause>, stored: seq<Clause>, x: Clause, y: Clause)
    requires x != y && (rules == [x, y] || rules == [y, x]) && multiset(stored) == multiset(rules)
    ensures stored == [x, y] || stored == [y, x]
  {
    assert |stored| == |multiset(stored)| == |multiset(rules)| == 2;
    assert multiset(rules) == multiset{x, y};
    assert stored == [stored[0], stored[1]];
    assert multiset(stored) == multiset{stored[0], stored[1]};
    assert stored[0] in multiset(stored) && stored[1] in multiset(stored);
    assert multiset(stored)[stored[0]] == 1;
  }

  /** The graph of the two rules has no cycle. */
  lemma ChainEdges(a: int, b: int, c: int, rules: seq<Clause>, edges: seq<S.Edge>)
    requires a != b && b != c && a != c
    requires rules == [CopyRule(a, b), CopyRule(b, c)] || rules == [CopyRule(b, c), CopyRule(a, b)]
    requires IsGraph(rules, edges)
    ensures S.Edge(c, b, false) in edges && !S.Reach(edges, b, c)
  {
    var upper, lower := CopyRule(b, c), CopyRule(a, b);
    assert upper in rules && lower in rules;
    assert upper.body[0] in upper.body && upper.body[0].p == Const(b);
    assert Uses(upper, b, false) && HeadPred(upper) == c;
    forall x, y | x in {a, b} && S.Linked(edges, x, y)
      ensures y in {a, b}
    {
      var e :| e in edges && e.from == x && e.to == y;
      var d :| d in rules && e.from == HeadPred(d) && Uses(d, e.to, e.negative);
      assert d == lower && d.body == [Pattern("x", a, "y")];
    }
    if S.Reach(edges, b, c) {
      S.ReachStays(edges, b, c, {a, b});
      assert false;
    }
  }
}
