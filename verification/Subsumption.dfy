/**
  Rules dropped before evaluation.  A rule goes when another rule has the same head predicate and
  a part of its body predicates; variables, constants, negation and tests are not looked at, and
  rules are dropped by their text.
  */
module Subsumption {
  import opened Prelude
  import opened RuleSafety
  import opened Datalog

  function BodyPreds(c: Clause): seq<int> {
    seq(|c.body|, i requires 0 <= i < |c.body| => if c.body[i].p.Const? then c.body[i].p.id else 0)
  }

  function Count(counts: map<int, nat>, x: int): nat {
    if x in counts then counts[x] else 0
  }

  method IsMultisetSubset(a: seq<int>, b: seq<int>) returns (r: bool)
    ensures r <==> multiset(a) <= multiset(b)
  {
    var counts: map<int, nat> := map[];
    for i := 0 to |b|
      invariant forall x :: Count(counts, x) == multiset(b[..i])[x]
    {
      assert b[..i + 1] == b[..i] + [b[i]];
      counts := counts[b[i] := Count(counts, b[i]) + 1];
    }
    assert b[..|b|] == b;
    for i := 0 to |a|
      invariant forall x :: multiset(a[..i])[x] + Count(counts, x) == multiset(b)[x]
    {
      assert a[..i + 1] == a[..i] + [a[i]];
      var count := Count(counts, a[i]);
      if count == 0 {
        CountMore(a, i);
        var x := a[i];
        assert multiset(b)[x] == multiset(a[..i])[x] < multiset(a)[x];
        return false;
      }
      counts := counts[a[i] := count - 1];
    }
    assert a[..|a|] == a;
    CountsWithin(a, b, counts);
    return true;
  }

  lemma CountsWithin(a: seq<int>, b: seq<int>, counts: map<int, nat>)
    requires forall x :: multiset(a)[x] + Count(counts, x) == multiset(b)[x]
    ensures multiset(a) <= multiset(b)
  {
    forall x | x in multiset(a)
      ensures multiset(a)[x] <= multiset(b)[x]
    {
      assert multiset(a)[x] + Count(counts, x) == multiset(b)[x];
    }
  }

  lemma CountMore(a: seq<int>, i: nat)
    requires i < |a|
    ensures multiset(a)[a[i]] > multiset(a[..i])[a[i]]
  {
    assert a == a[..i] + ([a[i]] + a[i + 1..]);
    assert multiset(a) == multiset(a[..i]) + multiset([a[i]] + a[i + 1..]);
  }

  /** Rule `i` makes rule `j` redundant, as far as the check looks. */
  predicate Subsumes(rules: seq<Clause>, i: nat, j: nat)
    requires i < |rules| && j < |rules|
  {
    var a, b := BodyPreds(rules[i]), BodyPreds(rules[j]);
    && i != j && HeadPred(rules[i]) == HeadPred(rules[j])
    && (|| (|a| < |b| && multiset(a) <= multiset(b))
        || (i < j && |a| == |b| && multiset(a) <= multiset(b) && multiset(b) <= multiset(a)))
  }

  predicate Subsumed(rules: seq<Clause>, j: nat)
    requires j < |rules|
  {
    exists i: nat :: i < |rules| && Subsumes(rules, i, j)
  }

  function EliminatedTexts(rules: seq<Clause>): set<seq<int>> {
    set j: nat | j < |rules| && Subsumed(rules, j) :: rules[j].text
  }

  method CheckPair(rules: seq<Clause>, i: nat, j: nat) returns (r: bool)
    requires i < |rules| && j < |rules|
    ensures r <==> Subsumes(rules, i, j)
  {
    if i == j || HeadPred(rules[i]) != HeadPred(rules[j]) {
      return false;
    }
    var a, b := BodyPreds(rules[i]), BodyPreds(rules[j]);
    var part := IsMultisetSubset(a, b);
    if |a| < |b| && part {
      return true;
    }
    var whole := IsMultisetSubset(b, a);
    return i < j && |a| == |b| && part && whole;
  }

  /** The texts of the rules to drop. */
  method CheckSubsumption(rules: seq<Clause>) returns (eliminated: seq<seq<int>>)
    ensures Elements(eliminated) == EliminatedTexts(rules)
    ensures eliminated == [] <==> forall j :: 0 <= j < |rules| ==> !Subsumed(rules, j)
  {
    eliminated := [];
    for j := 0 to |rules|
      invariant forall t :: t in eliminated <==> exists k: nat :: k < j && Subsumed(rules, k) && rules[k].text == t
    {
      var i, found := 0, false;
      while i < |rules| && !found
        invariant i <= |rules| && (found ==> Subsumed(rules, j))
        invariant !found ==> forall k: nat :: k < i ==> !Subsumes(rules, k, j)
      {
        found := CheckPair(rules, i, j);
        i := i + 1;
      }
      if found {
        eliminated := eliminated + [rules[j].text];
      }
    }
    forall t
      ensures t in Elements(eliminated) <==> t in EliminatedTexts(rules)
    {
      if t in EliminatedTexts(rules) {
        var k: nat :| k < |rules| && Subsumed(rules, k) && rules[k].text == t;
      }
    }
    if eliminated != [] {
      assert eliminated[0] in eliminated;
    } else {
      forall j | 0 <= j < |rules|
        ensures !Subsumed(rules, j)
      {
        assert rules[j].text !in eliminated;
      }
    }
  }

  /** The rules whose text is not among those. */
  function Keep(rules: seq<Clause>, texts: set<seq<int>>): seq<Clause> {
    if rules == [] then []
    else
      var rest := Keep(rules[..|rules| - 1], texts);
      var c := rules[|rules| - 1];
      if c.text in texts then rest else rest + [c]
  }

  function Active(rules: seq<Clause>): seq<Clause> {
    Keep(rules, EliminatedTexts(rules))
  }

  method ActiveRules(rules: seq<Clause>) returns (active: seq<Clause>)
    ensures active == Active(rules)
  {
    var eliminated := CheckSubsumption(rules);
    active := [];
    for i := 0 to |rules|
      invariant active == Keep(rules[..i], EliminatedTexts(rules))
    {
      assert rules[..i + 1][..i] == rules[..i];
      assert rules[i].text in eliminated <==> rules[i].text in Elements(eliminated);
      if rules[i].text !in eliminated {
        active := active + [rules[i]];
      }
    }
    assert rules[..|rules|] == rules;
  }

  lemma {:induction false} KeepMembers(rules: seq<Clause>, texts: set<seq<int>>)
    ensures forall c :: c in Keep(rules, texts) <==> c in rules && c.text !in texts
  {
    if rules != [] {
      var n := |rules| - 1;
      KeepMembers(rules[..n], texts);
      assert rules == rules[..n] + [rules[n]];
    }
  }

  lemma {:induction false} KeepAll(rules: seq<Clause>, texts: set<seq<int>>)
    ensures |Keep(rules, texts)| <= |rules|
    ensures Keep(rules, texts) == rules <==> forall c :: c in rules ==> c.text !in texts
  {
    if rules != [] {
      var n := |rules| - 1;
      KeepAll(rules[..n], texts);
      assert rules == rules[..n] + [rules[n]] && rules[n] in rules;
      if rules[n].text !in texts && Keep(rules, texts) == rules {
        assert Keep(rules, texts)[..n] == Keep(rules[..n], texts);
      }
      assert forall c :: c in rules <==> c in rules[..n] || c == rules[n];
    }
  }

  // ------------------------------------------------------------------------------
  // When nothing is dropped
  // ------------------------------------------------------------------------------

  /** No two rules with one head predicate have body predicates of which one list is part of the other. */
  predicate Apart(rules: seq<Clause>) {
    forall i, j :: 0 <= i < j < |rules| && HeadPred(rules[i]) == HeadPred(rules[j]) ==>
      var a, b := multiset(BodyPreds(rules[i])), multiset(BodyPreds(rules[j]));
      !(a <= b) && !(b <= a)
  }

  lemma Smaller(a: seq<int>, b: seq<int>)
    requires multiset(a) <= multiset(b)
    ensures |a| <= |b| && (|a| == |b| ==> multiset(a) == multiset(b))
  {
    var rest := multiset(b) - multiset(a);
    assert multiset(b) == multiset(a) + rest;
    assert |multiset(a)| == |a| && |multiset(b)| == |b|;
    if |a| == |b| {
      assert |rest| == 0;
    }
  }

  lemma NestedIsSubsumed(rules: seq<Clause>, i: nat, j: nat)
    requires i < j < |rules| && HeadPred(rules[i]) == HeadPred(rules[j])
    ensures var a, b := multiset(BodyPreds(rules[i])), multiset(BodyPreds(rules[j]));
            (a <= b || b <= a) <==> Subsumes(rules, i, j) || Subsumes(rules, j, i)
  {
    var a, b := BodyPreds(rules[i]), BodyPreds(rules[j]);
    if multiset(a) <= multiset(b) {
      Smaller(a, b);
    }
    if multiset(b) <= multiset(a) {
      Smaller(b, a);
    }
  }

  lemma ApartMeansNoneSubsumed(rules: seq<Clause>)
    ensures Apart(rules) <==> forall j :: 0 <= j < |rules| ==> !Subsumed(rules, j)
  {
    if Apart(rules) {
      forall i, j | 0 <= i < |rules| && 0 <= j < |rules|
        ensures !Subsumes(rules, i, j)
      {
        if i < j && HeadPred(rules[i]) == HeadPred(rules[j]) {
          NestedIsSubsumed(rules, i, j);
        } else if j < i && HeadPred(rules[i]) == HeadPred(rules[j]) {
          NestedIsSubsumed(rules, j, i);
        }
      }
    }
    if forall j :: 0 <= j < |rules| ==> !Subsumed(rules, j) {
      forall i, j | 0 <= i < j < |rules| && HeadPred(rules[i]) == HeadPred(rules[j])
        ensures var a, b := multiset(BodyPreds(rules[i])), multiset(BodyPreds(rules[j])); !(a <= b) && !(b <= a)
      {
        NestedIsSubsumed(rules, i, j);
        assert !Subsumed(rules, i) && !Subsumed(rules, j);
      }
    }
  }

  /** All rules are active exactly when no two of them are nested. */
  lemma ActiveIsAllExactlyWhen(rules: seq<Clause>)
    ensures Active(rules) == rules <==> Apart(rules)
  {
    ApartMeansNoneSubsumed(rules);
    KeepAll(rules, EliminatedTexts(rules));
    if Active(rules) == rules {
      forall j: nat | j < |rules|
        ensures !Subsumed(rules, j)
      {
        assert rules[j] in rules;
      }
    }
  }

  // ------------------------------------------------------------------------------
  // What dropping rules does to the meaning
  // ------------------------------------------------------------------------------

  lemma ActiveMembers(rules: seq<Clause>)
    ensures forall c :: c in Active(rules) ==> c in rules
    ensures Derived(Active(rules)) <= Derived(rules)
  {
    KeepMembers(rules, EliminatedTexts(rules));
    var active := Active(rules);
    forall p | p in Derived(active)
      ensures p in Derived(rules)
    {
      var i: nat :| i < |active| && HeadPred(active[i]) == p;
      assert active[i] in rules;
      var j: nat :| j < |rules| && rules[j] == active[i];
    }
  }

  /** What the check looks at: head predicates and body predicates. */
  type Shape = seq<(int, seq<int>)>

  function ShapeOf(rules: seq<Clause>): Shape {
    seq(|rules|, i requires 0 <= i < |rules| => (HeadPred(rules[i]), BodyPreds(rules[i])))
  }

  predicate ApartShape(shape: Shape) {
    forall i, j :: 0 <= i < j < |shape| && shape[i].0 == shape[j].0 ==>
      !(multiset(shape[i].1) <= multiset(shape[j].1)) && !(multiset(shape[j].1) <= multiset(shape[i].1))
  }

  /** Dropping rules of these shapes leaves every meaning on every store as it was. */
  ghost predicate SafeShape(shape: Shape) {
    forall rules, base, m, n ::
      (ShapeOf(rules) == shape && ValidRules(rules) && IsMeaning(rules, base, m)
       && IsLeastModel(Derived(rules), Active(rules), base, n)) ==> m == n
  }

  /** The guard is exact for whatever sees no more of the rules than the check does. */
  lemma ShapeIsSafeExactlyWhen(shape: Shape)
    ensures SafeShape(shape) <==> ApartShape(shape)
  {
    if ApartShape(shape) {
      forall rules, base, m, n | ShapeOf(rules) == shape && ValidRules(rules) && IsMeaning(rules, base, m)
                                 && IsLeastModel(Derived(rules), Active(rules), base, n)
        ensures m == n
      {
        ShapeApart(rules, shape);
        ActiveIsAllExactlyWhen(rules);
      }
    } else {
      var i, j :| 0 <= i < j < |shape| && shape[i].0 == shape[j].0
                  && (multiset(shape[i].1) <= multiset(shape[j].1) || multiset(shape[j].1) <= multiset(shape[i].1));
      var lost := if Loses(shape, i, j) then j else i;
      LosesOne(shape, i, j);
      LosingProgram(shape, if lost == j then i else j, lost);
    }
  }

  lemma ShapeApart(rules: seq<Clause>, shape: Shape)
    requires ShapeOf(rules) == shape
    ensures ApartShape(shape) <==> Apart(rules)
  {
    assert |shape| == |rules| && forall i :: 0 <= i < |rules| ==> shape[i] == (HeadPred(rules[i]), BodyPreds(rules[i]));
    if ApartShape(shape) {
      forall i, j | 0 <= i < j < |rules| && HeadPred(rules[i]) == HeadPred(rules[j])
        ensures var a, b := multiset(BodyPreds(rules[i])), multiset(BodyPreds(rules[j])); !(a <= b) && !(b <= a)
      {
        assert shape[i].0 == shape[j].0;
      }
    }
  }

  /** A rule of shape `j` is dropped because of one of shape `i`. */
  predicate Loses(shape: Shape, i: nat, j: nat)
    requires i < |shape| && j < |shape|
  {
    var a, b := shape[i].1, shape[j].1;
    && i != j && shape[i].0 == shape[j].0
    && (|| (|a| < |b| && multiset(a) <= multiset(b))
        || (i < j && |a| == |b| && multiset(a) <= multiset(b) && multiset(b) <= multiset(a)))
  }

  lemma LosesOne(shape: Shape, i: nat, j: nat)
    requires i < j < |shape| && shape[i].0 == shape[j].0
    requires multiset(shape[i].1) <= multiset(shape[j].1) || multiset(shape[j].1) <= multiset(shape[i].1)
    ensures Loses(shape, i, j) || Loses(shape, j, i)
  {
    if multiset(shape[i].1) <= multiset(shape[j].1) {
      Smaller(shape[i].1, shape[j].1);
    } else {
      Smaller(shape[j].1, shape[i].1);
    }
  }

  // A program of the shape that loses a fact.

  function Never(): Test {
    Test({}, 0, _ => false)
  }

  function Ground0(p: int, n: int): Atom {
    Atom(Const(n), Const(p), Const(n), DefaultGraph)
  }

  /** All rules of constants; only the rule that will be dropped can fire. */
  function ConstRule(shape: Shape, k: nat, live: nat): (c: Clause)
    requires k < |shape|
    ensures HeadPred(c) == shape[k].0 && BodyPreds(c) == shape[k].1
  {
    var body := seq(|shape[k].1|, i requires 0 <= i < |shape[k].1| => Ground0(shape[k].1[i], 0));
    var c := Clause([k], Ground0(shape[k].0, 1), body, [], [], if k == live then [] else [Never()], Written(|body|));
    assert BodyPreds(c) == shape[k].1;
    c
  }

  function ConstRules(shape: Shape, live: nat): (rules: seq<Clause>)
    ensures |rules| == |shape| && forall k :: 0 <= k < |shape| ==> rules[k] == ConstRule(shape, k, live)
  {
    seq(|shape|, k requires 0 <= k < |shape| => ConstRule(shape, k, live))
  }

  function ConstStore(preds: seq<int>): set<Quad> {
    set p | p in preds :: Quad(0, p, 0, 0)
  }

  lemma ConstValid(shape: Shape, live: nat)
    ensures ValidRules(ConstRules(shape, live)) && ShapeOf(ConstRules(shape, live)) == shape
  {
    var rules := ConstRules(shape, live);
    forall c | c in rules
      ensures c.Valid()
    {
      var k :| 0 <= k < |rules| && rules[k] == c;
    }
  }

  lemma LosingProgram(shape: Shape, i: nat, j: nat)
    requires i < |shape| && j < |shape| && Loses(shape, i, j)
    ensures !SafeShape(shape)
  {
    var rules, base := ConstRules(shape, j), ConstStore(shape[j].1);
    var lost := Quad(1, shape[j].0, 1, 0);
    ConstValid(shape, j);
    LiveFires(shape, j, base);
    OthersSleep(shape, j);
    assert HeadPred(rules[j]) in Derived(rules);
    assert IsMeaning(rules, base, base + {lost}) by {
      OnlyLostFires(shape, j, base + {lost}, lost);
      forall other | Extends(Derived(rules), base, other) && IsModel(rules, other)
        ensures base + {lost} <= other
      {
        LiveFires(shape, j, other);
        assert rules[j] in rules;
      }
    }
    assert IsLeastModel(Derived(rules), Active(rules), base, base) by {
      LiveIsDropped(shape, i, j);
    }
    assert lost !in base;
  }

  lemma LiveFires(shape: Shape, j: nat, m: set<Quad>)
    requires j < |shape| && ConstStore(shape[j].1) <= m
    ensures exists fs :: Fires(ConstRules(shape, j)[j], m, m, fs, Quad(1, shape[j].0, 1, 0))
  {
    var c, preds := ConstRule(shape, j, j), shape[j].1;
    var fs := seq(|preds|, k requires 0 <= k < |preds| => Quad(0, preds[k], 0, 0));
    ConstMatches(preds, c.body, fs);
    forall k | 0 <= k < |fs|
      ensures fs[k] in m
    {
      assert preds[k] in preds;
    }
    assert Fires(c, m, m, fs, Quad(1, shape[j].0, 1, 0)) && ConstRules(shape, j)[j] == c;
  }

  lemma {:induction false} ConstMatches(preds: seq<int>, body: seq<Atom>, fs: seq<Quad>)
    requires |body| == |fs| == |preds|
    requires forall k :: 0 <= k < |preds| ==> body[k] == Ground0(preds[k], 0) && fs[k] == Quad(0, preds[k], 0, 0)
    ensures MatchBody(body, fs) == Some(map[])
  {
    if body != [] {
      var n := |body| - 1;
      ConstMatches(preds[..n], body[..n], fs[..n]);
      ConstMatch(preds[n]);
    }
  }

  lemma ConstMatch(p: int)
    ensures MatchAtom(Ground0(p, 0), Quad(0, p, 0, 0), map[]) == Some(map[])
  {
    var ts, xs := Ground0(p, 0).Terms(), Quad(0, p, 0, 0).Values();
    assert ts[1..] == [Const(p), Const(0), DefaultGraph] && xs[1..] == [p, 0, 0];
    assert ts[1..][1..] == [Const(0), DefaultGraph] && xs[1..][1..] == [0, 0];
    assert ts[1..][1..][1..] == [DefaultGraph] && xs[1..][1..][1..] == [0];
    assert MatchAll([DefaultGraph], [0], map[]) == Some(map[]);
    assert MatchAll(ts[1..][1..], xs[1..][1..], map[]) == Some(map[]);
    assert MatchAll(ts[1..], xs[1..], map[]) == Some(map[]);
  }

  lemma OthersSleep(shape: Shape, j: nat)
    ensures forall k: nat, store, fs :: k < |shape| && k != j ==> Fire(ConstRule(shape, k, j), store, fs) == None
  {
    forall k: nat, store: set<Quad>, fs: seq<Quad> | k < |shape| && k != j
      ensures Fire(ConstRule(shape, k, j), store, fs) == None
    {
      var c := ConstRule(shape, k, j);
      assert c.tests[0] == Never() && forall v :: !Passes(c.tests[0], v);
    }
  }

  lemma OnlyLostFires(shape: Shape, j: nat, m: set<Quad>, lost: Quad)
    requires j < |shape| && lost == Quad(1, shape[j].0, 1, 0) && lost in m
    ensures IsModel(ConstRules(shape, j), m)
  {
    var rules := ConstRules(shape, j);
    OthersSleep(shape, j);
    forall c: Clause, fs: seq<Quad>, f: Quad | c in rules && Fires(c, m, m, fs, f)
      ensures f in m
    {
      var k: nat :| k < |rules| && rules[k] == c;
      assert k == j;
      assert f == lost;
    }
  }

  lemma LiveIsDropped(shape: Shape, i: nat, j: nat)
    requires i < |shape| && j < |shape| && Loses(shape, i, j)
    ensures forall m :: IsModel(Active(ConstRules(shape, j)), m)
  {
    var rules := ConstRules(shape, j);
    assert Subsumes(rules, i, j) && Subsumed(rules, j);
    assert [j] == rules[j].text;
    assert rules[j].text in EliminatedTexts(rules);
    KeepMembers(rules, EliminatedTexts(rules));
    OthersSleep(shape, j);
    forall m, c: Clause, fs: seq<Quad>, f: Quad | c in Active(rules)
      ensures !Fires(c, m, m, fs, f)
    {
      var k: nat :| k < |rules| && rules[k] == c;
      assert c.text == [k];
    }
  }
}
