/**
  Datalog rules with constant predicates: what a rule says, its models, and the recursive
  query that is run for rules that mention their own head.
  */
module Datalog {
  import opened Prelude
  import opened RuleSafety

  /** A comparison or a built-in: what it says of the variables it mentions. */
  datatype Test = Test(vars: set<string>, place: nat, holds: Valuation -> bool)

  /**
    A rule with constant predicates.  `text` is the rule as written, as token ids.  Each negated
    atom and each test has a place, the number of positive atoms written before it; a negated
    atom without a place stands last.  `order` is the order of estimated costs.
    */
  datatype Clause = Clause(text: seq<int>, head: Atom, body: seq<Atom>, negated: seq<Atom>, places: seq<nat>,
                           tests: seq<Test>, order: seq<nat>) {
    ghost predicate Valid() {
      && head.p.Const? && (forall a :: a in body ==> a.p.Const?) && (forall a :: a in negated ==> a.p.Const?)
      && IsOrder(order, |body|)
    }

    function Place(i: nat): nat {
      if i < |places| then Min(places[i], |body|) else |body|
    }
  }

  /** Each of the first `n` numbers once. */
  ghost predicate IsOrder(order: seq<nat>, n: nat) {
    && |order| == n && Distinct(order)
    && (forall i :: 0 <= i < n ==> order[i] < n) && forall k: nat :: k < n ==> k in order
  }

  lemma HasAll(order: seq<nat>, n: nat)
    requires |order| == n && forall i :: 0 <= i < n ==> order[i] == i
    ensures forall k: nat :: k < n ==> k in order
  {
    forall k: nat | k < n
      ensures k in order
    {
      assert order[k] == k;
    }
  }

  function Written(n: nat): (order: seq<nat>)
    ensures IsOrder(order, n) && forall i :: 0 <= i < n ==> order[i] == i
  {
    var order := seq(n, i => i);
    HasAll(order, n);
    order
  }

  // ------------------------------------------------------------------------------
  // One rule on given tables
  // ------------------------------------------------------------------------------

  function MatchTerm(t: Term, x: int, v: Valuation): Option<Valuation> {
    match t
    case Var(n) => if n !in v then Some(v[n := x]) else if v[n] == x then Some(v) else None
    case Const(c) => if c == x then Some(v) else None
    case _ => Some(v)
  }

  function MatchAll(ts: seq<Term>, xs: seq<int>, v: Valuation): Option<Valuation>
    requires |ts| == |xs|
  {
    if ts == [] then Some(v)
    else match MatchTerm(ts[0], xs[0], v)
      case None => None
      case Some(w) => MatchAll(ts[1..], xs[1..], w)
  }

  function MatchAtom(a: Atom, f: Quad, v: Valuation): Option<Valuation> {
    if a.p.Const? && a.p.id != f.p then None else MatchAll(a.Terms(), f.Values(), v)
  }

  function MatchBody(body: seq<Atom>, fs: seq<Quad>): Option<Valuation>
    requires |body| == |fs|
  {
    if body == [] then Some(map[])
    else match MatchBody(body[..|body| - 1], fs[..|fs| - 1])
      case None => None
      case Some(v) => MatchAtom(body[|body| - 1], fs[|fs| - 1], v)
  }

  /** Some fact matches; a variable that no positive atom binds stands for anything. */
  predicate Refuted(a: Atom, store: set<Quad>, v: Valuation) {
    exists f :: f in store && MatchAtom(a, f, v).Some?
  }

  predicate Passes(t: Test, v: Valuation) {
    t.vars <= v.Keys && t.holds(Restricted(v, t.vars))
  }

  function Restricted(v: Valuation, names: set<string>): Valuation {
    map n | n in names && n in v :: v[n]
  }

  function Ground(head: Atom, v: Valuation): Option<Quad> {
    var s, p, o, g := Eval(head.s, v), Eval(head.p, v), Eval(head.o, v), Eval(if head.g.Wildcard? then DefaultGraph else head.g, v);
    if s.Some? && p.Some? && o.Some? && g.Some? then Some(Quad(s.value, p.value, o.value, g.value)) else None
  }

  /** What a clause derives from one fact per body atom, with negation checked against `store`. */
  function Fire(c: Clause, store: set<Quad>, fs: seq<Quad>): Option<Quad> {
    if |fs| != |c.body| then None
    else match MatchBody(c.body, fs)
      case None => None
      case Some(v) =>
        if (forall i :: 0 <= i < |c.tests| ==> Passes(c.tests[i], v)) && forall a :: a in c.negated ==> !Refuted(a, store, v)
        then Ground(c.head, v) else None
  }

  function Tuples(tables: seq<set<Quad>>): set<seq<Quad>> {
    if tables == [] then {[]}
    else set fs, f | fs in Tuples(tables[..|tables| - 1]) && f in tables[|tables| - 1] :: fs + [f]
  }

  /** INSERT ... SELECT: one table for each body atom. */
  function Query(c: Clause, store: set<Quad>, tables: seq<set<Quad>>): set<Quad> {
    set fs | fs in Tuples(tables) && Fire(c, store, fs).Some? :: Fire(c, store, fs).value
  }

  lemma {:induction false} TupleMembers(tables: seq<set<Quad>>, fs: seq<Quad>)
    ensures fs in Tuples(tables) <==> |fs| == |tables| && forall i :: 0 <= i < |fs| ==> fs[i] in tables[i]
  {
    if tables != [] {
      var n := |tables| - 1;
      if |fs| == |tables| {
        TupleMembers(tables[..n], fs[..n]);
        assert fs == fs[..n] + [fs[n]];
      }
      if fs in Tuples(tables) {
        var gs, f :| gs in Tuples(tables[..n]) && f in tables[n] && fs == gs + [f];
        TupleMembers(tables[..n], gs);
      }
    }
  }

  lemma {:induction false} BodyPredicates(body: seq<Atom>, fs: seq<Quad>, i: nat)
    requires |body| == |fs| && i < |body| && MatchBody(body, fs).Some? && body[i].p.Const?
    ensures fs[i].p == body[i].p.id
  {
    if i < |body| - 1 {
      BodyPredicates(body[..|body| - 1], fs[..|fs| - 1], i);
    }
  }

  // ------------------------------------------------------------------------------
  // Models
  // ------------------------------------------------------------------------------

  function HeadPred(c: Clause): int {
    if c.head.p.Const? then c.head.p.id else 0
  }

  function Derived(rules: seq<Clause>): set<int> {
    set i: nat | i < |rules| :: HeadPred(rules[i])
  }

  ghost predicate ValidRules(rules: seq<Clause>) {
    forall c :: c in rules ==> c.Valid()
  }

  /** None of the predicates is negated. */
  ghost predicate NegatesOthers(rules: seq<Clause>, preds: set<int>) {
    forall c, a :: c in rules && a in c.negated && a.p.Const? ==> a.p.id !in preds
  }

  /** Negation only of predicates that no rule derives. */
  ghost predicate SemiPositive(rules: seq<Clause>) {
    NegatesOthers(rules, Derived(rules))
  }

  /** At most one atom of each body has one of the predicates. */
  ghost predicate LinearIn(rules: seq<Clause>, preds: set<int>) {
    forall c, i, j :: c in rules && 0 <= i < j < |c.body| && c.body[i].p.Const? && c.body[j].p.Const? ==>
      c.body[i].p.id !in preds || c.body[j].p.id !in preds
  }

  ghost predicate Linear(rules: seq<Clause>) {
    LinearIn(rules, Derived(rules))
  }

  ghost predicate Fires(c: Clause, store: set<Quad>, m: set<Quad>, fs: seq<Quad>, f: Quad) {
    (forall i :: 0 <= i < |fs| ==> fs[i] in m) && Fire(c, store, fs) == Some(f)
  }

  /** Closed under the rules, negation read from the set itself. */
  ghost predicate IsModel(rules: seq<Clause>, m: set<Quad>) {
    forall c, fs, f :: c in rules && Fires(c, m, m, fs, f) ==> f in m
  }

  /** A superset of the base that differs from it in these predicates only. */
  ghost predicate Extends(preds: set<int>, base: set<Quad>, m: set<Quad>) {
    base <= m && forall f :: f in m - base ==> f.p in preds
  }

  /** The least extension of the base by these predicates that is a model. */
  ghost predicate IsLeastModel(preds: set<int>, rules: seq<Clause>, base: set<Quad>, m: set<Quad>) {
    && Extends(preds, base, m) && IsModel(rules, m)
    && forall other :: Extends(preds, base, other) && IsModel(rules, other) ==> m <= other
  }

  /** The meaning of a semi-positive program: the least extension of the base that is a model. */
  ghost predicate IsMeaning(rules: seq<Clause>, base: set<Quad>, m: set<Quad>) {
    IsLeastModel(Derived(rules), rules, base, m)
  }

  lemma FiredHead(c: Clause, store: set<Quad>, fs: seq<Quad>)
    requires c.Valid() && Fire(c, store, fs).Some?
    ensures Fire(c, store, fs).value.p == HeadPred(c)
    ensures |fs| == |c.body| && forall i :: 0 <= i < |fs| ==> fs[i].p == c.body[i].p.id
  {
    forall i | 0 <= i < |fs|
      ensures fs[i].p == c.body[i].p.id
    {
      BodyPredicates(c.body, fs, i);
    }
  }

  /** When only other predicates are negated the frozen base answers negation as the extension would. */
  lemma FireSame(rules: seq<Clause>, preds: set<int>, base: set<Quad>, m: set<Quad>, c: Clause, fs: seq<Quad>)
    requires ValidRules(rules) && NegatesOthers(rules, preds) && Extends(preds, base, m) && c in rules
    ensures Fire(c, base, fs) == Fire(c, m, fs)
  {
    forall a, v | a in c.negated
      ensures Refuted(a, base, v) <==> Refuted(a, m, v)
    {
    }
  }

  // ------------------------------------------------------------------------------
  // Rounds
  // ------------------------------------------------------------------------------

  function Same<T>(x: T, n: nat): seq<T> {
    seq(n, _ => x)
  }

  /** All rules once on the store. */
  function FirstRound(rules: seq<Clause>, store: set<Quad>): set<Quad> {
    set i: nat, f | i < |rules| && f in Query(rules[i], store, Same(store, |rules[i].body|)) :: f
  }

  lemma QueryHead(c: Clause, store: set<Quad>, f: Quad)
    requires c.Valid() && f in Query(c, store, Same(store, |c.body|))
    ensures f.p == HeadPred(c)
  {
  }

  lemma QueryMember(c: Clause, store: set<Quad>, tables: seq<set<Quad>>, fs: seq<Quad>)
    requires |fs| == |tables| && (forall i :: 0 <= i < |fs| ==> fs[i] in tables[i]) && Fire(c, store, fs).Some?
    ensures Fire(c, store, fs).value in Query(c, store, tables)
  {
    TupleMembers(tables, fs);
  }

  lemma QueryOrigin(c: Clause, store: set<Quad>, tables: seq<set<Quad>>, f: Quad) returns (fs: seq<Quad>)
    requires f in Query(c, store, tables)
    ensures |fs| == |tables| && (forall i :: 0 <= i < |fs| ==> fs[i] in tables[i]) && Fire(c, store, fs) == Some(f)
  {
    fs :| fs in Tuples(tables) && Fire(c, store, fs).Some? && f == Fire(c, store, fs).value;
    TupleMembers(tables, fs);
  }

  /** A query over tables inside a model stays in the model. */
  lemma QueryStays(rules: seq<Clause>, preds: set<int>, base: set<Quad>, m: set<Quad>, c: Clause, tables: seq<set<Quad>>)
    requires ValidRules(rules) && NegatesOthers(rules, preds) && Extends(preds, base, m) && IsModel(rules, m) && c in rules
    requires forall i :: 0 <= i < |tables| ==> tables[i] <= m
    ensures Query(c, base, tables) <= m
  {
    forall f | f in Query(c, base, tables)
      ensures f in m
    {
      var fs := QueryOrigin(c, base, tables, f);
      FireSame(rules, preds, base, m, c, fs);
      assert Fires(c, m, m, fs, f);
    }
  }

  lemma FirstRoundIsModel(rules: seq<Clause>, m: set<Quad>)
    requires FirstRound(rules, m) <= m
    ensures IsModel(rules, m)
  {
    forall c: Clause, fs: seq<Quad>, f: Quad | c in rules && Fires(c, m, m, fs, f)
      ensures f in m
    {
      var i: nat :| i < |rules| && rules[i] == c;
      QueryMember(c, m, Same(m, |c.body|), fs);
      assert f in Query(rules[i], m, Same(m, |rules[i].body|));
    }
  }

  /** New facts of predicates that a rule does not read make no difference to it. */
  lemma QueryUnaffected(c: Clause, store: set<Quad>, before: set<Quad>)
    requires c.Valid() && store <= before
    requires forall f, a :: f in before - store && a in c.body + c.negated ==> f.p != a.p.id
    ensures Query(c, before, Same(before, |c.body|)) == Query(c, store, Same(store, |c.body|))
  {
    forall fs: seq<Quad>
      ensures Fire(c, before, fs) == Fire(c, store, fs)
    {
      FireUnaffected(c, store, before, fs);
    }
    forall f
      ensures f in Query(c, before, Same(before, |c.body|)) <==> f in Query(c, store, Same(store, |c.body|))
    {
      if f in Query(c, before, Same(before, |c.body|)) {
        var fs := QueryOrigin(c, before, Same(before, |c.body|), f);
        FiredHead(c, before, fs);
        forall i | 0 <= i < |fs|
          ensures fs[i] in store
        {
          assert c.body[i] in c.body + c.negated;
        }
        QueryMember(c, store, Same(store, |c.body|), fs);
      }
      if f in Query(c, store, Same(store, |c.body|)) {
        var fs := QueryOrigin(c, store, Same(store, |c.body|), f);
        QueryMember(c, before, Same(before, |c.body|), fs);
      }
    }
  }

  lemma FireUnaffected(c: Clause, store: set<Quad>, before: set<Quad>, fs: seq<Quad>)
    requires c.Valid() && store <= before
    requires forall f, a :: f in before - store && a in c.body + c.negated ==> f.p != a.p.id
    ensures Fire(c, store, fs) == Fire(c, before, fs)
  {
    forall a, v | a in c.negated
      ensures Refuted(a, before, v) <==> Refuted(a, store, v)
    {
      assert a in c.body + c.negated;
    }
  }

  lemma ModelClosesRound(rules: seq<Clause>, m: set<Quad>)
    requires IsModel(rules, m)
    ensures FirstRound(rules, m) <= m
  {
    forall f | f in FirstRound(rules, m)
      ensures f in m
    {
      var i: nat :| i < |rules| && f in Query(rules[i], m, Same(m, |rules[i].body|));
      var fs := QueryOrigin(rules[i], m, Same(m, |rules[i].body|), f);
      assert rules[i] in rules && Fires(rules[i], m, m, fs, f);
    }
  }

  // ------------------------------------------------------------------------------
  // Rules that mention their own head
  // ------------------------------------------------------------------------------

  predicate SelfRecursive(c: Clause) {
    exists k :: 0 <= k < |c.body| && c.body[k].p.Const? && c.body[k].p.id == HeadPred(c)
  }

  function Table(store: set<Quad>, p: int): set<Quad> {
    set q | q in store && q.p == p
  }

  /** The predicates of the body other than the one of the head, in order. */
  function OtherPreds(body: seq<Atom>, head: int): seq<int> {
    if body == [] then []
    else
      var rest := OtherPreds(body[..|body| - 1], head);
      var a := body[|body| - 1];
      if a.p.Const? && a.p.id != head then rest + [a.p.id] else rest
  }

  /** The rows the query starts with: all rows of the other tables, or of the head's own table. */
  function StartTable(c: Clause, store: set<Quad>): set<Quad> {
    var others := OtherPreds(c.body, HeadPred(c));
    if others == [] then Table(store, HeadPred(c)) else set q | q in store && q.p in others
  }

  /** The table it extends them with on the left. */
  function StepTable(c: Clause, store: set<Quad>): set<Quad> {
    var others := OtherPreds(c.body, HeadPred(c));
    Table(store, if others == [] then HeadPred(c) else others[0])
  }

  /** A row of the query, with the marks of the rows it came from. */
  datatype CteRow = CteRow(s: int, o: int, g: int, seen: set<(int, int)>)

  /** The columns of the CYCLE clause; the object is the same all along. */
  function CycleMark(c: Clause, q: Quad): (int, int) {
    (q.s, if c.head.g.Var? then q.g else 0)
  }

  /** The rows after `n` steps of the recursion.  The variables of the rule play no part in it. */
  function Level(c: Clause, store: set<Quad>, n: nat): set<CteRow> {
    if n == 0 then set q | q in StartTable(c, store) :: CteRow(q.s, q.o, q.g, {CycleMark(c, q)})
    else set r, b | && r in Level(c, store, n - 1) && b in StepTable(c, store) && r.s == b.o
                    && (c.head.g.Var? ==> r.g == b.g) && CycleMark(c, b) !in r.seen
           :: CteRow(b.s, r.o, b.g, r.seen + {CycleMark(c, b)})
  }

  function HeadRow(c: Clause, r: CteRow): Quad {
    Quad(if c.head.s.Const? then c.head.s.id else r.s, HeadPred(c), if c.head.o.Const? then c.head.o.id else r.o, r.g)
  }

  /** WITH RECURSIVE ... INSERT: what is run for a rule that mentions its own head. */
  function RecursiveQuery(c: Clause, store: set<Quad>): set<Quad> {
    set n: nat, r | n <= |store| && r in Level(c, store, n) :: HeadRow(c, r)
  }

  /** The recursion is over by then: every row has used up one more mark. */
  lemma LevelsEnd(c: Clause, store: set<Quad>, n: nat)
    requires n >= |store|
    ensures Level(c, store, n) == {}
  {
    var marks := set q | q in store :: CycleMark(c, q);
    MarksAreFew(c, store, marks);
    forall r | r in Level(c, store, n)
      ensures false
    {
      LevelMarks(c, store, n, r);
      Subset(r.seen, marks);
    }
  }

  ghost predicate MarksFrom(c: Clause, store: set<Quad>, seen: set<(int, int)>) {
    forall x :: x in seen ==> exists q :: q in store && x == CycleMark(c, q)
  }

  lemma MarksOneMore(c: Clause, store: set<Quad>, seen: set<(int, int)>, b: Quad)
    requires MarksFrom(c, store, seen) && b in store && CycleMark(c, b) !in seen
    ensures MarksFrom(c, store, seen + {CycleMark(c, b)}) && |seen + {CycleMark(c, b)}| == |seen| + 1
  {
  }

  lemma {:induction false} LevelMarks(c: Clause, store: set<Quad>, n: nat, r: CteRow)
    requires r in Level(c, store, n)
    ensures |r.seen| == n + 1 && MarksFrom(c, store, r.seen)
  {
    if n == 0 {
      var q :| q in StartTable(c, store) && r == CteRow(q.s, q.o, q.g, {CycleMark(c, q)});
      assert q in store;
    } else {
      var p, b := StepBack(c, store, n, r);
      LevelMarks(c, store, n - 1, p);
      MarksOneMore(c, store, p.seen, b);
    }
  }

  lemma StepBack(c: Clause, store: set<Quad>, n: nat, r: CteRow) returns (p: CteRow, b: Quad)
    requires n > 0 && r in Level(c, store, n)
    ensures p in Level(c, store, n - 1) && b in StepTable(c, store) && b in store && p.s == b.o
    ensures CycleMark(c, b) !in p.seen && r == CteRow(b.s, p.o, b.g, p.seen + {CycleMark(c, b)})
    ensures c.head.g.Var? ==> p.g == b.g
  {
    p, b :| && p in Level(c, store, n - 1) && b in StepTable(c, store) && p.s == b.o && CycleMark(c, b) !in p.seen
            && (c.head.g.Var? ==> p.g == b.g) && r == CteRow(b.s, p.o, b.g, p.seen + {CycleMark(c, b)});
  }

  lemma {:induction false} MarksAreFew(c: Clause, store: set<Quad>, marks: set<(int, int)>)
    requires marks == set q | q in store :: CycleMark(c, q)
    ensures |marks| <= |store|
    decreases |store|
  {
    if q :| q in store {
      var rest := store - {q};
      var less := set r | r in rest :: CycleMark(c, r);
      MarksAreFew(c, rest, less);
      assert marks == less + {CycleMark(c, q)};
    } else {
      assert marks == {};
    }
  }

  lemma Subset<T>(a: set<T>, b: set<T>)
    requires a <= b
    ensures |a| <= |b|
  {
    assert b == a + (b - a);
  }

  lemma {:induction false} EmptyStart(c: Clause, store: set<Quad>)
    requires StartTable(c, store) == {}
    ensures RecursiveQuery(c, store) == {}
  {
    forall n: nat
      ensures Level(c, store, n) == {}
    {
      EmptyLevel(c, store, n);
    }
  }

  lemma {:induction false} EmptyLevel(c: Clause, store: set<Quad>, n: nat)
    requires StartTable(c, store) == {}
    ensures Level(c, store, n) == {}
  {
    if n > 0 {
      EmptyLevel(c, store, n - 1);
    }
  }

  // ------------------------------------------------------------------------------
  // What the recursive query computes
  // ------------------------------------------------------------------------------

  /** Atom `k` of the body reads a table other than the head's. */
  predicate ReadsOther(c: Clause, k: int) {
    0 <= k < |c.body| && c.body[k].p.Const? && c.body[k].p.id != HeadPred(c)
  }

  ghost predicate OnlyOwn(c: Clause) {
    forall k :: !ReadsOther(c, k)
  }

  /** A row of any other table the body reads, or of the head's own table when there is none. */
  ghost predicate Starts(c: Clause, q: Quad) {
    (OnlyOwn(c) && q.p == HeadPred(c)) || exists k :: ReadsOther(c, k) && q.p == c.body[k].p.id
  }

  /** A row of the first other table the body reads, or of the head's own table when there is none. */
  ghost predicate Continues(c: Clause, q: Quad) {
    || (OnlyOwn(c) && q.p == HeadPred(c))
    || exists k :: ReadsOther(c, k) && q.p == c.body[k].p.id && forall j :: 0 <= j < k ==> !ReadsOther(c, j)
  }

  /**
    A walk through the store that visits no subject twice: its last row starts it and every other row
    continues it on the left.  With a graph variable in the head it stays in one graph.
    */
  ghost predicate Walk(c: Clause, store: set<Quad>, w: seq<Quad>) {
    && w != [] && (forall q :: q in w ==> q in store)
    && Starts(c, w[|w| - 1]) && (forall i :: 0 <= i < |w| - 1 ==> Continues(c, w[i]))
    && (forall i :: 0 <= i < |w| - 1 ==> w[i].o == w[i + 1].s)
    && (forall i, j :: 0 <= i < j < |w| ==> w[i].s != w[j].s)
    && (c.head.g.Var? ==> forall i :: 0 <= i < |w| ==> w[i].g == w[0].g)
  }

  /** The fact about the ends of a walk, in the graph of its first row; constants of the head replace the ends. */
  ghost predicate Spans(c: Clause, w: seq<Quad>, f: Quad)
    requires w != []
  {
    && f.p == HeadPred(c) && f.g == w[0].g
    && (if c.head.s.Const? then f.s == c.head.s.id else f.s == w[0].s)
    && (if c.head.o.Const? then f.o == c.head.o.id else f.o == w[|w| - 1].o)
  }

  lemma {:induction false} OthersAre(body: seq<Atom>, head: int)
    ensures forall p :: p in OtherPreds(body, head) <==> exists k :: 0 <= k < |body| && body[k].p == Const(p) && p != head
  {
    if body != [] {
      OthersAre(body[..|body| - 1], head);
    }
  }

  lemma {:induction false} FirstIsFirst(body: seq<Atom>, head: int) returns (k: nat)
    requires OtherPreds(body, head) != []
    ensures k < |body| && body[k].p == Const(OtherPreds(body, head)[0]) && body[k].p.id != head
    ensures forall j :: 0 <= j < k && body[j].p.Const? ==> body[j].p.id == head
  {
    var n := |body| - 1;
    if OtherPreds(body[..n], head) != [] {
      k := FirstIsFirst(body[..n], head);
    } else {
      k := n;
      NoneBefore(body[..n], head);
    }
  }

  lemma NoneBefore(body: seq<Atom>, head: int)
    requires OtherPreds(body, head) == []
    ensures forall j :: 0 <= j < |body| && body[j].p.Const? ==> body[j].p.id == head
  {
    OthersAre(body, head);
    forall j | 0 <= j < |body| && body[j].p.Const?
      ensures body[j].p.id == head
    {
      assert body[j].p == Const(body[j].p.id);
    }
  }

  lemma TablesAre(c: Clause, store: set<Quad>, q: Quad)
    ensures q in StartTable(c, store) <==> q in store && Starts(c, q)
    ensures q in StepTable(c, store) <==> q in store && Continues(c, q)
  {
    OthersAre(c.body, HeadPred(c));
    if OtherPreds(c.body, HeadPred(c)) == [] {
      NoneBefore(c.body, HeadPred(c));
    } else {
      var k := FirstIsFirst(c.body, HeadPred(c));
      assert ReadsOther(c, k);
      assert forall i :: ReadsOther(c, i) && (forall j :: 0 <= j < i ==> !ReadsOther(c, j)) ==> i == k;
    }
  }

  function Marks(c: Clause, w: seq<Quad>): set<(int, int)> {
    set q | q in w :: CycleMark(c, q)
  }

  /** The row of the query that a walk stands for. */
  ghost function WalkRow(c: Clause, w: seq<Quad>): CteRow
    requires w != []
  {
    CteRow(w[0].s, w[|w| - 1].o, w[0].g, Marks(c, w))
  }

  lemma WalkGrows(c: Clause, store: set<Quad>, w: seq<Quad>, b: Quad)
    requires Walk(c, store, w) && b in store && Continues(c, b) && b.o == w[0].s
    requires (c.head.g.Var? ==> b.g == w[0].g) && CycleMark(c, b) !in Marks(c, w)
    ensures Walk(c, store, [b] + w)
  {
    var v := [b] + w;
    assert forall i :: 0 <= i < |w| ==> v[i + 1] == w[i];
    assert forall q :: q in v <==> q == b || q in w;
    NewSubject(c, w, b);
  }

  lemma MarksGrow(c: Clause, w: seq<Quad>, b: Quad)
    ensures Marks(c, [b] + w) == Marks(c, w) + {CycleMark(c, b)}
  {
    assert forall q :: q in [b] + w <==> q == b || q in w;
  }

  lemma NewSubject(c: Clause, w: seq<Quad>, b: Quad)
    requires w != [] && CycleMark(c, b) !in Marks(c, w)
    requires c.head.g.Var? ==> b.g == w[0].g && forall i :: 0 <= i < |w| ==> w[i].g == w[0].g
    ensures forall i :: 0 <= i < |w| ==> w[i].s != b.s
  {
    forall i | 0 <= i < |w|
      ensures w[i].s != b.s
    {
      assert CycleMark(c, w[i]) in Marks(c, w);
    }
  }

  lemma WalkTail(c: Clause, store: set<Quad>, v: seq<Quad>)
    requires |v| > 1 && Walk(c, store, v)
    ensures Walk(c, store, v[1..])
  {
    var w := v[1..];
    assert forall i :: 0 <= i < |w| ==> w[i] == v[i + 1];
    assert forall q :: q in w ==> q in v;
  }

  lemma WalkHead(c: Clause, store: set<Quad>, v: seq<Quad>)
    requires |v| > 1 && Walk(c, store, v)
    ensures v[0] in store && Continues(c, v[0]) && v[0].o == v[1].s && (c.head.g.Var? ==> v[1].g == v[0].g)
    ensures CycleMark(c, v[0]) !in Marks(c, v[1..])
  {
    var w := v[1..];
    forall q | q in w
      ensures q.s != v[0].s
    {
      var i :| 0 <= i < |w| && w[i] == q;
      assert q == v[i + 1];
    }
  }

  lemma LevelGrows(c: Clause, store: set<Quad>, n: nat, r: CteRow, b: Quad)
    requires n > 0 && r in Level(c, store, n - 1) && b in StepTable(c, store) && r.s == b.o
    requires (c.head.g.Var? ==> r.g == b.g) && CycleMark(c, b) !in r.seen
    ensures CteRow(b.s, r.o, b.g, r.seen + {CycleMark(c, b)}) in Level(c, store, n)
  {
  }

  lemma {:induction false} LevelHasWalks(c: Clause, store: set<Quad>, w: seq<Quad>)
    requires Walk(c, store, w)
    ensures WalkRow(c, w) in Level(c, store, |w| - 1)
    decreases |w|
  {
    TablesAre(c, store, w[0]);
    if |w| == 1 {
      assert w == [w[0]] && Marks(c, w) == {CycleMark(c, w[0])};
    } else {
      var b, v := w[0], w[1..];
      assert w == [b] + v;
      WalkTail(c, store, w);
      WalkHead(c, store, w);
      MarksGrow(c, v, b);
      LevelHasWalks(c, store, v);
      LevelGrows(c, store, |v|, WalkRow(c, v), b);
    }
  }

  lemma {:induction false} LevelIsWalks(c: Clause, store: set<Quad>, n: nat, r: CteRow) returns (w: seq<Quad>)
    requires r in Level(c, store, n)
    ensures Walk(c, store, w) && r == WalkRow(c, w)
  {
    if n == 0 {
      var q :| q in StartTable(c, store) && r == CteRow(q.s, q.o, q.g, {CycleMark(c, q)});
      TablesAre(c, store, q);
      w := [q];
      assert Marks(c, w) == {CycleMark(c, q)};
    } else {
      var p, b := StepBack(c, store, n, r);
      var v := LevelIsWalks(c, store, n - 1, p);
      TablesAre(c, store, b);
      WalkGrows(c, store, v, b);
      MarksGrow(c, v, b);
      w := [b] + v;
    }
  }

  lemma WalkIsAnswered(c: Clause, store: set<Quad>, w: seq<Quad>, f: Quad)
    requires Walk(c, store, w) && Spans(c, w, f)
    ensures f in RecursiveQuery(c, store)
  {
    LevelHasWalks(c, store, w);
    if |w| - 1 > |store| {
      LevelsEnd(c, store, |w| - 1);
    }
    assert f == HeadRow(c, WalkRow(c, w));
  }

  /** The query answers exactly the walks; the rest of the rule, its other atoms and variables, plays no part. */
  lemma RecursiveQueryIsWalks(c: Clause, store: set<Quad>, f: Quad)
    ensures f in RecursiveQuery(c, store) <==> exists w :: Walk(c, store, w) && Spans(c, w, f)
  {
    if f in RecursiveQuery(c, store) {
      var n: nat, r :| n <= |store| && r in Level(c, store, n) && f == HeadRow(c, r);
      var w := LevelIsWalks(c, store, n, r);
      assert Spans(c, w, f);
    }
    if w :| Walk(c, store, w) && Spans(c, w, f) {
      WalkIsAnswered(c, store, w, f);
    }
  }

  // ------------------------------------------------------------------------------
  // Rules of simple shapes
  // ------------------------------------------------------------------------------

  /** `?x p ?y` in any graph. */
  function Pattern(x: string, p: int, y: string): Atom {
    Atom(Var(x), Const(p), Var(y), DefaultGraph)
  }

  /** `?x to ?y :- ?x from ?y` */
  function CopyRule(from: int, to: int): Clause {
    Clause([0, from, to], Pattern("x", to, "y"), [Pattern("x", from, "y")], [], [], [], [0])
  }

  /** `?x p ?z :- ?x e ?y, ?y p ?z` */
  function JoinRule(e: int, p: int): Clause {
    Clause([1, e, p], Pattern("x", p, "z"), [Pattern("x", e, "y"), Pattern("y", p, "z")], [], [], [], [0, 1])
  }

  lemma MatchPattern(x: string, p: int, y: string, f: Quad, v: Valuation)
    requires x != y && f.p == p && (x in v ==> v[x] == f.s) && y !in v
    ensures MatchAtom(Pattern(x, p, y), f, v) == Some(v[x := f.s][y := f.o])
  {
    var a := Pattern(x, p, y);
    var ts, xs := a.Terms(), f.Values();
    var w := v[x := f.s];
    assert x in v ==> w == v;
    assert MatchTerm(ts[0], xs[0], v) == Some(w);
    assert ts[1..] == [Const(p), Var(y), DefaultGraph] && xs[1..] == [f.p, f.o, f.g];
    assert ts[1..][1..] == [Var(y), DefaultGraph] && xs[1..][1..] == [f.o, f.g];
    assert ts[1..][1..][1..] == [DefaultGraph] && xs[1..][1..][1..] == [f.g];
    assert MatchAll([DefaultGraph], [f.g], w[y := f.o]) == Some(w[y := f.o]);
    assert MatchAll(ts[1..][1..], xs[1..][1..], w) == Some(w[y := f.o]);
    assert MatchAll(ts[1..], xs[1..], w) == Some(w[y := f.o]);
  }

  lemma CopyFires(from: int, to: int, store: set<Quad>, f: Quad)
    requires f.p == from
    ensures Fire(CopyRule(from, to), store, [f]) == Some(Quad(f.s, to, f.o, 0))
  {
    var c := CopyRule(from, to);
    assert c.body[..0] == [] && [f][..0] == [];
    assert MatchBody(c.body[..0], [f][..0]) == Some(map[]);
    MatchPattern("x", from, "y", f, map[]);
  }

  lemma MismatchedPattern(x: string, p: int, y: string, f: Quad, v: Valuation)
    requires f.p == p && x in v && v[x] != f.s
    ensures MatchAtom(Pattern(x, p, y), f, v) == None
  {
    var ts, xs := Pattern(x, p, y).Terms(), f.Values();
    assert MatchTerm(ts[0], xs[0], v) == None;
  }

  lemma JoinFires(e: int, p: int, store: set<Quad>, f: Quad, g: Quad)
    requires f.p == e && g.p == p
    ensures Fire(JoinRule(e, p), store, [f, g]) == if f.o == g.s then Some(Quad(f.s, p, g.o, 0)) else None
  {
    var c := JoinRule(e, p);
    assert c.body[..1] == [Pattern("x", e, "y")] && [f, g][..1] == [f];
    assert c.body[..1][..0] == [] && [f][..0] == [];
    assert MatchBody(c.body[..1][..0], [f][..0]) == Some(map[]);
    MatchPattern("x", e, "y", f, map[]);
    var v: Valuation := map[]["x" := f.s]["y" := f.o];
    assert MatchBody(c.body[..1], [f]) == Some(v);
    if f.o == g.s {
      MatchPattern("y", p, "z", g, v);
    } else {
      MismatchedPattern("y", p, "z", g, v);
    }
  }

  lemma JoinRuleTables(e: int, p: int)
    ensures JoinRule(e, p).Valid() && SelfRecursive(JoinRule(e, p)) && HeadPred(JoinRule(e, p)) == p
    ensures OtherPreds(JoinRule(e, p).body, p) == if e == p then [] else [e]
  {
    var body := JoinRule(e, p).body;
    assert body[1].p == Const(p);
    assert body[..1] == [body[0]] && body[..1][..0] == [];
    assert OtherPreds(body[..1][..0], p) == [];
    assert OtherPreds(body[..1], p) == if e == p then [] else [e];
  }

  lemma CopyRuleTables(e: int, p: int)
    ensures CopyRule(e, p).Valid() && HeadPred(CopyRule(e, p)) == p && (SelfRecursive(CopyRule(e, p)) <==> e == p)
  {
    var body := CopyRule(e, p).body;
    assert body[0].p == Const(e);
  }

  lemma CopyQuery(e: int, p: int, store: set<Quad>)
    ensures forall f :: f in Query(CopyRule(e, p), store, Same(store, 1))
                   <==> exists h :: h in store && h.p == e && f == Quad(h.s, p, h.o, 0)
  {
    var c := CopyRule(e, p);
    forall f
      ensures f in Query(c, store, Same(store, 1)) <==> exists h :: h in store && h.p == e && f == Quad(h.s, p, h.o, 0)
    {
      if f in Query(c, store, Same(store, 1)) {
        var fs := QueryOrigin(c, store, Same(store, 1), f);
        assert c.Valid();
        FiredHead(c, store, fs);
        assert fs == [fs[0]];
        CopyFires(e, p, store, fs[0]);
      }
      if h :| h in store && h.p == e && f == Quad(h.s, p, h.o, 0) {
        CopyFires(e, p, store, h);
        QueryMember(c, store, Same(store, 1), [h]);
      }
    }
  }
}
