/**
  Static safety of Datalog rules.  `validate_rule` collects the variables bound by the
  positive part of a rule body and complains about head variables and variables of negated
  atoms outside of it.  The theorem behind the check is domain independence: what an
  accepted rule derives does not depend on the universe its variables range over.
  */
module RuleSafety {
  import opened Prelude

  datatype Term = Var(name: string) | Const(id: int) | Wildcard | DefaultGraph

  datatype Atom = Atom(s: Term, p: Term, o: Term, g: Term) {
    function Terms(): seq<Term> {
      [s, p, o, g]
    }
  }

  datatype CompareOp = Gt | Gte | Lt | Lte | Eq | Neq

  datatype ArithOp = Add | Sub | Mul | Div

  /** `StringTest` stands for every string built-in; `kind` tells them apart. */
  datatype Literal =
    | Positive(atom: Atom)
    | Negated(atom: Atom)
    | Compare(left: Term, cmp: CompareOp, right: Term)
    | Assign(result: string, lhs: Term, arith: ArithOp, rhs: Term)
    | StringTest(kind: int, args: seq<Term>)
    | Aggregate(result: string, aggregated: string, pattern: Atom)
    | TemporalFilter

  datatype Rule = Rule(head: Option<Atom>, body: seq<Literal>)

  datatype Issue = UnboundHeadVariable(v: string) | UnsafeNegation(v: string)

  // ------------------------------------------------------------------------------
  // Variables
  // ------------------------------------------------------------------------------

  function TermsVars(terms: seq<Term>): set<string> {
    set t | t in terms && t.Var? :: t.name
  }

  /** What a literal adds to the variables counted as bound. */
  function Binds(lit: Literal): set<string> {
    match lit
    case Positive(atom) => TermsVars(atom.Terms())
    case Assign(result, _, _, _) => {result}
    case Aggregate(result, _, _) => {result}
    case _ => {}
  }

  function Bound(body: seq<Literal>): set<string> {
    if body == [] then {} else Bound(body[..|body| - 1]) + Binds(body[|body| - 1])
  }

  function UnboundIn(terms: seq<Term>, bound: set<string>): seq<string> {
    if terms == [] then [] else
      var rest := UnboundIn(terms[..|terms| - 1], bound);
      var t := terms[|terms| - 1];
      if t.Var? && t.name !in bound then rest + [t.name] else rest
  }

  function HeadIssues(names: seq<string>): seq<Issue> {
    seq(|names|, i requires 0 <= i < |names| => UnboundHeadVariable(names[i]))
  }

  function NegationIssues(body: seq<Literal>, bound: set<string>): seq<Issue> {
    if body == [] then [] else
      var rest := NegationIssues(body[..|body| - 1], bound);
      var lit := body[|body| - 1];
      if lit.Negated? then rest + Unsafe(UnboundIn(lit.atom.Terms(), bound)) else rest
  }

  function Unsafe(names: seq<string>): seq<Issue> {
    seq(|names|, i requires 0 <= i < |names| => UnsafeNegation(names[i]))
  }

  function Issues(rule: Rule): seq<Issue> {
    var bound := Bound(rule.body);
    (if rule.head.Some? then HeadIssues(UnboundIn(rule.head.value.Terms(), bound)) else [])
    + NegationIssues(rule.body, bound)
  }

  /** The classical condition: head variables and variables of negated atoms are bound. */
  ghost predicate RangeRestricted(rule: Rule) {
    && (rule.head.Some? ==> TermsVars(rule.head.value.Terms()) <= Bound(rule.body))
    && forall lit :: lit in rule.body && lit.Negated? ==> TermsVars(lit.atom.Terms()) <= Bound(rule.body)
  }

  lemma {:induction false} UnboundInEmpty(terms: seq<Term>, bound: set<string>)
    ensures UnboundIn(terms, bound) == [] <==> TermsVars(terms) <= bound
  {
    if terms != [] {
      var most, last := terms[..|terms| - 1], terms[|terms| - 1];
      UnboundInEmpty(most, bound);
      assert terms == most + [last];
      if last.Var? && last.name !in bound {
        assert last in terms;
        assert last.name in TermsVars(terms);
      } else {
        assert forall t :: t in terms <==> t in most || t == last;
      }
    }
  }

  lemma {:induction false} NegationIssuesEmpty(body: seq<Literal>, bound: set<string>)
    ensures NegationIssues(body, bound) == []
       <==> forall lit :: lit in body && lit.Negated? ==> TermsVars(lit.atom.Terms()) <= bound
  {
    if body != [] {
      var most, last := body[..|body| - 1], body[|body| - 1];
      NegationIssuesEmpty(most, bound);
      assert body == most + [last];
      assert forall lit :: lit in body <==> lit in most || lit == last;
      if last.Negated? {
        UnboundInEmpty(last.atom.Terms(), bound);
      }
    }
  }

  /** A rule has no issue exactly when it is range restricted. */
  lemma NoIssuesMeansRestricted(rule: Rule)
    ensures Issues(rule) == [] <==> RangeRestricted(rule)
  {
    var bound := Bound(rule.body);
    if rule.head.Some? {
      UnboundInEmpty(rule.head.value.Terms(), bound);
    }
    NegationIssuesEmpty(rule.body, bound);
  }

  /** The literal is a positive atom with the variable in one of its places, or it computes it. */
  predicate Sets(lit: Literal, x: string) {
    match lit
    case Positive(a) => Var(x) in {a.s, a.p, a.o, a.g}
    case Assign(result, _, _, _) => result == x
    case Aggregate(result, _, _) => result == x
    case _ => false
  }

  /** The variables counted as bound: those of positive atoms, and the results of assignments and aggregates. */
  lemma {:induction false} BoundExactlyWhen(body: seq<Literal>, x: string)
    ensures x in Bound(body) <==> exists lit :: lit in body && Sets(lit, x)
  {
    if body != [] {
      var most, last := body[..|body| - 1], body[|body| - 1];
      BoundExactlyWhen(most, x);
      assert forall lit :: lit in body <==> lit in most || lit == last;
      BindsExactly(last, x);
    }
  }

  lemma BindsExactly(lit: Literal, x: string)
    ensures x in Binds(lit) <==> Sets(lit, x)
  {
    if lit.Positive? {
      VarInPlaces(lit.atom, x);
    }
  }

  lemma VarInPlaces(a: Atom, x: string)
    ensures x in TermsVars(a.Terms()) <==> Var(x) in {a.s, a.p, a.o, a.g}
  {
    assert forall t :: t in a.Terms() <==> t in {a.s, a.p, a.o, a.g};
  }

  lemma {:induction false} UnboundInHas(terms: seq<Term>, bound: set<string>, x: string)
    ensures x in UnboundIn(terms, bound) <==> Var(x) in terms && x !in bound
  {
    if terms != [] {
      var most, last := terms[..|terms| - 1], terms[|terms| - 1];
      UnboundInHas(most, bound, x);
      assert terms == most + [last];
    }
  }

  lemma {:induction false} NegationIssuesHave(body: seq<Literal>, bound: set<string>, x: string)
    ensures UnboundHeadVariable(x) !in NegationIssues(body, bound)
    ensures UnsafeNegation(x) in NegationIssues(body, bound) <==>
      x !in bound && exists lit :: lit in body && lit.Negated? && Var(x) in lit.atom.Terms()
  {
    if body != [] {
      var most, last := body[..|body| - 1], body[|body| - 1];
      NegationIssuesHave(most, bound, x);
      assert forall lit :: lit in body <==> lit in most || lit == last;
      if last.Negated? {
        UnboundInHas(last.atom.Terms(), bound, x);
        NamesKept(UnboundIn(last.atom.Terms(), bound), x);
      }
    }
  }

  lemma NamesKept(names: seq<string>, x: string)
    ensures UnsafeNegation(x) in Unsafe(names) <==> x in names
    ensures UnboundHeadVariable(x) in HeadIssues(names) <==> x in names
    ensures UnboundHeadVariable(x) !in Unsafe(names) && UnsafeNegation(x) !in HeadIssues(names)
  {
    if x in names {
      var i :| 0 <= i < |names| && names[i] == x;
      assert Unsafe(names)[i] == UnsafeNegation(x) && HeadIssues(names)[i] == UnboundHeadVariable(x);
    }
  }

  /** Which issues a rule has: one kind for the head, one for the negated atoms, each naming the variable. */
  lemma IssuesExactlyWhen(rule: Rule, x: string)
    ensures UnboundHeadVariable(x) in Issues(rule) <==>
      x !in Bound(rule.body) && rule.head.Some? && Var(x) in rule.head.value.Terms()
    ensures UnsafeNegation(x) in Issues(rule) <==>
      x !in Bound(rule.body) && exists lit :: lit in rule.body && lit.Negated? && Var(x) in lit.atom.Terms()
  {
    var bound := Bound(rule.body);
    NegationIssuesHave(rule.body, bound, x);
    if rule.head.Some? {
      UnboundInHas(rule.head.value.Terms(), bound, x);
      NamesKept(UnboundIn(rule.head.value.Terms(), bound), x);
    }
  }

  // ------------------------------------------------------------------------------
  // The validator
  // ------------------------------------------------------------------------------

  method CollectVars(terms: seq<Term>, out0: set<string>) returns (out: set<string>)
    ensures out == out0 + TermsVars(terms)
  {
    out := out0;
    for i := 0 to |terms|
      invariant out == out0 + TermsVars(terms[..i])
    {
      assert terms[..i + 1] == terms[..i] + [terms[i]];
      assert forall t :: t in terms[..i + 1] <==> t in terms[..i] || t == terms[i];
      if terms[i].Var? {
        out := out + {terms[i].name};
      }
    }
    assert terms[..|terms|] == terms;
  }

  method CheckTerms(terms: seq<Term>, bound: set<string>) returns (missing: seq<string>)
    ensures missing == UnboundIn(terms, bound)
  {
    missing := [];
    for i := 0 to |terms|
      invariant missing == UnboundIn(terms[..i], bound)
    {
      assert terms[..i + 1][..i] == terms[..i];
      if terms[i].Var? && terms[i].name !in bound {
        missing := missing + [terms[i].name];
      }
    }
    assert terms[..|terms|] == terms;
  }

  method CollectBound(body: seq<Literal>) returns (bound: set<string>)
    ensures bound == Bound(body)
  {
    bound := {};
    for i := 0 to |body|
      invariant bound == Bound(body[..i])
    {
      assert body[..i + 1][..i] == body[..i];
      match body[i] {
        case Positive(atom) => bound := CollectVars([atom.s, atom.p, atom.o, atom.g], bound);
        case Assign(result, _, _, _) => bound := bound + {result};
        case Aggregate(result, _, _) => bound := bound + {result};
        case _ =>
      }
    }
    assert body[..|body|] == body;
  }

  method CheckRule(rule: Rule) returns (errors: seq<Issue>)
    ensures errors == Issues(rule)
  {
    var bound := CollectBound(rule.body);
    errors := [];
    if rule.head.Some? {
      var head := rule.head.value;
      var missing := CheckTerms([head.s, head.p, head.o, head.g], bound);
      errors := HeadIssues(missing);
    }
    var headErrors := errors;
    for i := 0 to |rule.body|
      invariant errors == headErrors + NegationIssues(rule.body[..i], bound)
    {
      assert rule.body[..i + 1][..i] == rule.body[..i];
      if rule.body[i].Negated? {
        var atom := rule.body[i].atom;
        var missing := CheckTerms([atom.s, atom.p, atom.o, atom.g], bound);
        errors := errors + Unsafe(missing);
      }
    }
    assert rule.body[..|rule.body|] == rule.body;
  }

  /** The verdict on a parsed input: a nonempty list of rules, each range restricted. */
  method ValidateRules(rules: seq<Rule>) returns (valid: bool, errors: seq<Issue>)
    ensures valid <==> rules != [] && forall r :: r in rules ==> RangeRestricted(r)
    ensures errors == [] <==> forall r :: r in rules ==> RangeRestricted(r)
    ensures forall e :: e in errors <==> exists r :: r in rules && e in Issues(r)
  {
    errors := [];
    for i := 0 to |rules|
      invariant errors == [] <==> forall r :: r in rules[..i] ==> RangeRestricted(r)
      invariant forall e :: e in errors <==> exists r :: r in rules[..i] && e in Issues(r)
    {
      var found := CheckRule(rules[i]);
      NoIssuesMeansRestricted(rules[i]);
      assert forall r :: r in rules[..i + 1] <==> r in rules[..i] || r == rules[i];
      errors := errors + found;
    }
    assert rules[..|rules|] == rules;
    valid := rules != [] && errors == [];
  }

  // ------------------------------------------------------------------------------
  // Semantics
  // ------------------------------------------------------------------------------

  type Database = set<Quad>
  type Valuation = map<string, int>

  /** The built-ins, and whether an atom without GRAPH clause is confined to the default graph. */
  datatype Builtins = Builtins(compare: (CompareOp, int, int) -> bool, compute: (ArithOp, int, int) -> int,
                               test: (int, seq<int>) -> bool, temporal: bool, scoped: bool)

  ghost function ActiveDomain(db: Database): set<int> {
    set f, x | f in db && x in f.Values() :: x
  }

  ghost predicate Fits(b: Builtins, t: Term, x: int, v: Valuation) {
    match t
    case Var(name) => name in v && v[name] == x
    case Const(id) => x == id
    case Wildcard => true
    case DefaultGraph => !b.scoped || x == 0
  }

  ghost predicate FitsFact(b: Builtins, a: Atom, f: Quad, v: Valuation) {
    Fits(b, a.s, f.s, v) && Fits(b, a.p, f.p, v) && Fits(b, a.o, f.o, v) && Fits(b, a.g, f.g, v)
  }

  ghost predicate AtomHolds(b: Builtins, a: Atom, db: Database, v: Valuation) {
    exists f :: f in db && FitsFact(b, a, f, v)
  }

  function Eval(t: Term, v: Valuation): Option<int> {
    match t
    case Var(name) => if name in v then Some(v[name]) else None
    case Const(id) => Some(id)
    case Wildcard => None
    case DefaultGraph => Some(0)
  }

  ghost predicate TestHolds(b: Builtins, kind: int, args: seq<Term>, v: Valuation) {
    && (forall t :: t in args ==> Eval(t, v).Some?)
    && b.test(kind, seq(|args|, i requires 0 <= i < |args| => if Eval(args[i], v).Some? then Eval(args[i], v).value else 0))
  }

  ghost predicate Holds(b: Builtins, lit: Literal, db: Database, v: Valuation) {
    match lit
    case Positive(a) => AtomHolds(b, a, db, v)
    case Negated(a) => !AtomHolds(b, a, db, v)
    case Compare(l, op, r) => Eval(l, v).Some? && Eval(r, v).Some? && b.compare(op, Eval(l, v).value, Eval(r, v).value)
    case Assign(z, l, op, r) =>
      z in v && Eval(l, v).Some? && Eval(r, v).Some? && v[z] == b.compute(op, Eval(l, v).value, Eval(r, v).value)
    case StringTest(kind, args) => TestHolds(b, kind, args, v)
    case Aggregate(_, _, _) => false
    case TemporalFilter => b.temporal
  }

  function LiteralVars(lit: Literal): set<string> {
    match lit
    case Positive(a) => TermsVars(a.Terms())
    case Negated(a) => TermsVars(a.Terms())
    case Compare(l, _, r) => TermsVars([l, r])
    case Assign(z, l, _, r) => {z} + TermsVars([l, r])
    case StringTest(_, args) => TermsVars(args)
    case Aggregate(z, x, a) => {z, x} + TermsVars(a.Terms())
    case TemporalFilter => {}
  }

  function BodyVars(body: seq<Literal>): set<string> {
    if body == [] then {} else BodyVars(body[..|body| - 1]) + LiteralVars(body[|body| - 1])
  }

  function RuleVars(rule: Rule): set<string> {
    BodyVars(rule.body) + if rule.head.Some? then TermsVars(rule.head.value.Terms()) else {}
  }

  function Assigned(body: seq<Literal>): set<string> {
    set lit | lit in body && lit.Assign? :: lit.result
  }

  /** A valuation of the rule whose variables range over the universe, except those computed by an assignment. */
  ghost predicate Over(rule: Rule, universe: set<int>, v: Valuation) {
    v.Keys == RuleVars(rule) && forall x :: x in v && x !in Assigned(rule.body) ==> v[x] in universe
  }

  ghost predicate BodyHolds(b: Builtins, body: seq<Literal>, db: Database, v: Valuation) {
    forall lit :: lit in body ==> Holds(b, lit, db, v)
  }

  ghost predicate HeadFits(head: Atom, f: Quad, v: Valuation) {
    Eval(head.s, v) == Some(f.s) && Eval(head.p, v) == Some(f.p) && Eval(head.o, v) == Some(f.o) && Eval(head.g, v) == Some(f.g)
  }

  ghost predicate DerivesBy(b: Builtins, rule: Rule, db: Database, universe: set<int>, f: Quad, v: Valuation) {
    rule.head.Some? && Over(rule, universe, v) && BodyHolds(b, rule.body, db, v) && HeadFits(rule.head.value, f, v)
  }

  ghost predicate Derives(b: Builtins, rule: Rule, db: Database, universe: set<int>, f: Quad) {
    exists v :: DerivesBy(b, rule, db, universe, f, v)
  }

  ghost predicate DomainIndependent(b: Builtins, rule: Rule) {
    forall db: Database, u1: set<int>, u2: set<int>, f: Quad ::
      ActiveDomain(db) <= u1 && ActiveDomain(db) <= u2 && Derives(b, rule, db, u1, f) ==> Derives(b, rule, db, u2, f)
  }

  // ------------------------------------------------------------------------------
  // Accepted rules are domain independent
  // ------------------------------------------------------------------------------

  /** The operands of comparisons, assignments and string tests are bound; there is no aggregate. */
  ghost predicate OperandsBound(rule: Rule) {
    forall lit :: lit in rule.body ==>
      && (lit.Compare? || lit.Assign? || lit.StringTest? ==> LiteralVars(lit) <= Bound(rule.body))
      && !lit.Aggregate?
  }

  lemma {:induction false} BodyVarsBound(body: seq<Literal>, bound: set<string>)
    requires forall lit :: lit in body ==> LiteralVars(lit) <= bound
    ensures BodyVars(body) <= bound
  {
    if body != [] {
      assert body[|body| - 1] in body && forall lit :: lit in body[..|body| - 1] ==> lit in body;
      BodyVarsBound(body[..|body| - 1], bound);
    }
  }

  lemma {:induction false} BoundOrigin(body: seq<Literal>, x: string)
    ensures x in Bound(body) <==> exists lit :: lit in body && x in Binds(lit)
  {
    if body != [] {
      var most, last := body[..|body| - 1], body[|body| - 1];
      BoundOrigin(most, x);
      assert body == most + [last];
      assert forall lit :: lit in body <==> lit in most || lit == last;
    }
  }

  lemma LiteralsBound(rule: Rule)
    requires RangeRestricted(rule) && OperandsBound(rule)
    ensures RuleVars(rule) <= Bound(rule.body)
  {
    forall lit | lit in rule.body
      ensures LiteralVars(lit) <= Bound(rule.body)
    {
      if lit.Positive? {
        forall x | x in LiteralVars(lit)
          ensures x in Bound(rule.body)
        {
          BoundOrigin(rule.body, x);
          assert x in Binds(lit);
        }
      }
    }
    BodyVarsBound(rule.body, Bound(rule.body));
  }

  /** A variable of a positive atom takes a value of the active domain. */
  lemma AtomValueActive(b: Builtins, a: Atom, db: Database, v: Valuation, x: string)
    requires AtomHolds(b, a, db, v) && x in TermsVars(a.Terms())
    ensures x in v && v[x] in ActiveDomain(db)
  {
    var f :| f in db && FitsFact(b, a, f, v);
    assert forall y :: y in f.Values() ==> y in ActiveDomain(db);
    assert f.s in f.Values() && f.p in f.Values() && f.o in f.Values() && f.g in f.Values() by {
      assert f.Values()[0] == f.s && f.Values()[1] == f.p && f.Values()[2] == f.o && f.Values()[3] == f.g;
    }
  }

  lemma BoundValueActive(b: Builtins, rule: Rule, db: Database, v: Valuation, x: string)
    requires OperandsBound(rule) && BodyHolds(b, rule.body, db, v) && x in Bound(rule.body) && x !in Assigned(rule.body)
    ensures x in v && v[x] in ActiveDomain(db)
  {
    BoundOrigin(rule.body, x);
    var lit :| lit in rule.body && x in Binds(lit);
    assert lit.Positive? by {
      if lit.Assign? {
        assert false;
      }
    }
    AtomValueActive(b, lit.atom, db, v, x);
  }

  /** For every database and any two universes that contain its active domain. */
  lemma AcceptedRulesAreDomainIndependent(b: Builtins, rule: Rule)
    requires Issues(rule) == [] && OperandsBound(rule)
    ensures DomainIndependent(b, rule)
  {
    NoIssuesMeansRestricted(rule);
    LiteralsBound(rule);
    forall db: Database, u1: set<int>, u2: set<int>, f: Quad
      | ActiveDomain(db) <= u1 && ActiveDomain(db) <= u2 && Derives(b, rule, db, u1, f)
      ensures Derives(b, rule, db, u2, f)
    {
      var v :| DerivesBy(b, rule, db, u1, f, v);
      forall x | x in v && x !in Assigned(rule.body)
        ensures v[x] in u2
      {
        BoundValueActive(b, rule, db, v, x);
      }
      assert DerivesBy(b, rule, db, u2, f, v);
    }
  }

  /** Without assignments a derived fact holds only values of the database, constants of the head, and 0. */
  lemma DerivedValuesAreActive(b: Builtins, rule: Rule, db: Database, universe: set<int>, f: Quad, x: int)
    requires Issues(rule) == [] && OperandsBound(rule) && Assigned(rule.body) == {}
    requires Derives(b, rule, db, universe, f) && x in f.Values()
    ensures x in ActiveDomain(db) || x == 0 || Const(x) in rule.head.value.Terms()
  {
    NoIssuesMeansRestricted(rule);
    var v :| DerivesBy(b, rule, db, universe, f, v);
    var t := HeadTermOf(rule.head.value, f, v, x);
    if t.Var? {
      assert t.name in TermsVars(rule.head.value.Terms());
      BoundValueActive(b, rule, db, v, t.name);
    }
  }

  lemma HeadTermOf(head: Atom, f: Quad, v: Valuation, x: int) returns (t: Term)
    requires HeadFits(head, f, v) && x in f.Values()
    ensures t in head.Terms() && (t.Const? ==> t.id == x) && (t.Var? && t.name in v ==> v[t.name] == x) && (t.Const? || t.Var? || x == 0)
  {
    var i :| 0 <= i < 4 && f.Values()[i] == x;
    t := head.Terms()[i];
  }

  // ------------------------------------------------------------------------------
  // Assignments in order: the computed values follow from the matched ones
  // ------------------------------------------------------------------------------

  /** The operands of each assignment come from the positive atoms or from earlier assignments. */
  ghost predicate ComputableInOrder(body: seq<Literal>) {
    forall i :: 0 <= i < |body| && body[i].Assign? ==>
      TermsVars([body[i].lhs, body[i].rhs]) <= AtomVars(body) + Assigned(body[..i])
  }

  function AtomVars(body: seq<Literal>): set<string> {
    set lit, x | lit in body && lit.Positive? && x in TermsVars(lit.atom.Terms()) :: x
  }

  lemma SameOperand(t: Term, other: Term, v: Valuation, w: Valuation)
    requires forall x :: x in TermsVars([t, other]) ==> x in v && x in w && v[x] == w[x]
    ensures Eval(t, v) == Eval(t, w)
  {
    assert t in [t, other];
    if t.Var? {
      assert t.name in TermsVars([t, other]);
    }
  }

  /** Two valuations that match the atoms in the same way compute the same values. */
  lemma {:induction false} AssignmentsAgree(b: Builtins, body: seq<Literal>, db: Database, v: Valuation, w: Valuation, i: nat)
    requires ComputableInOrder(body) && BodyHolds(b, body, db, v) && BodyHolds(b, body, db, w) && i <= |body|
    requires forall x :: x in AtomVars(body) ==> x in v && x in w && v[x] == w[x]
    ensures forall x :: x in Assigned(body[..i]) ==> x in v && x in w && v[x] == w[x]
  {
    if i > 0 {
      AssignmentsAgree(b, body, db, v, w, i - 1);
      var lit := body[i - 1];
      assert lit in body && Holds(b, lit, db, v) && Holds(b, lit, db, w);
      assert body[..i] == body[..i - 1] + [lit];
      if lit.Assign? {
        assert TermsVars([lit.rhs, lit.lhs]) == TermsVars([lit.lhs, lit.rhs]) by {
          assert forall t :: t in [lit.rhs, lit.lhs] <==> t in [lit.lhs, lit.rhs];
        }
        SameOperand(lit.lhs, lit.rhs, v, w);
        SameOperand(lit.rhs, lit.lhs, v, w);
      }
    }
  }

  /** So an accepted rule derives one fact from each way to match its positive atoms. */
  lemma OneFactPerMatch(b: Builtins, rule: Rule, db: Database, u1: set<int>, u2: set<int>, f: Quad, g: Quad, v: Valuation, w: Valuation)
    requires Issues(rule) == [] && OperandsBound(rule) && ComputableInOrder(rule.body)
    requires DerivesBy(b, rule, db, u1, f, v) && DerivesBy(b, rule, db, u2, g, w)
    requires forall x :: x in AtomVars(rule.body) && x in v && x in w ==> v[x] == w[x]
    ensures f == g
  {
    NoIssuesMeansRestricted(rule);
    LiteralsBound(rule);
    forall x | x in AtomVars(rule.body)
      ensures x in v && x in w
    {
      var lit :| lit in rule.body && lit.Positive? && x in TermsVars(lit.atom.Terms());
      AtomValueActive(b, lit.atom, db, v, x);
      AtomValueActive(b, lit.atom, db, w, x);
    }
    AssignmentsAgree(b, rule.body, db, v, w, |rule.body|);
    assert rule.body[..|rule.body|] == rule.body;
    forall x | x in v
      ensures x in w && v[x] == w[x]
    {
      BoundOrigin(rule.body, x);
      var lit :| lit in rule.body && x in Binds(lit);
    }
  }

  // ------------------------------------------------------------------------------
  // Positive rules: exactly the accepted ones
  // ------------------------------------------------------------------------------

  ghost predicate PositiveRule(rule: Rule) {
    && (forall lit :: lit in rule.body ==> lit.Positive?)
    && rule.head.Some? && Wildcard !in rule.head.value.Terms()
  }

  function Instance(a: Atom, v: Valuation): Quad {
    Quad(ValueOr(a.s, v), ValueOr(a.p, v), ValueOr(a.o, v), ValueOr(a.g, v))
  }

  function ValueOr(t: Term, v: Valuation): int {
    if Eval(t, v).Some? then Eval(t, v).value else 0
  }

  lemma {:induction false} FreshValue(s: set<int>) returns (x: int)
    ensures forall y :: y in s ==> y < x
  {
    if z :| z in s {
      var rest := s - {z};
      x := FreshValue(rest);
      x := if x <= z then z + 1 else x;
      assert forall y :: y in s ==> y in rest || y == z;
    } else {
      x := 0;
    }
  }

  lemma {:induction false} LiteralVarsInBody(body: seq<Literal>, lit: Literal)
    requires lit in body
    ensures LiteralVars(lit) <= BodyVars(body)
  {
    if lit != body[|body| - 1] {
      LiteralVarsInBody(body[..|body| - 1], lit);
    }
  }

  /** An instance of an atom fits it, and still does when a variable outside of the atom changes. */
  lemma InstanceFits(b: Builtins, a: Atom, v: Valuation, w: Valuation)
    requires forall x :: x in TermsVars(a.Terms()) ==> x in v && x in w && v[x] == w[x]
    ensures FitsFact(b, a, Instance(a, v), w)
  {
    assert forall t :: t in a.Terms() && t.Var? ==> t.name in TermsVars(a.Terms());
    assert a.Terms()[0] == a.s && a.Terms()[1] == a.p && a.Terms()[2] == a.o && a.Terms()[3] == a.g;
  }

  /** The instances of the body under `v` also match when a variable outside of the body changes. */
  lemma InstancesMatch(b: Builtins, rule: Rule, v: Valuation, y: string, x: int)
    requires PositiveRule(rule) && v.Keys == RuleVars(rule) && y !in Bound(rule.body)
    ensures BodyHolds(b, rule.body, set lit | lit in rule.body && lit.Positive? :: Instance(lit.atom, v), v[y := x])
  {
    var db := set lit | lit in rule.body && lit.Positive? :: Instance(lit.atom, v);
    forall lit | lit in rule.body
      ensures Holds(b, lit, db, v[y := x])
    {
      LiteralVarsInBody(rule.body, lit);
      BoundOrigin(rule.body, y);
      assert y !in Binds(lit);
      InstanceFits(b, lit.atom, v, v[y := x]);
      assert Instance(lit.atom, v) in db;
    }
  }

  lemma HeadInstanceFits(head: Atom, v: Valuation)
    requires Wildcard !in head.Terms() && TermsVars(head.Terms()) <= v.Keys
    ensures HeadFits(head, Instance(head, v), v)
  {
    assert forall t :: t in head.Terms() && t.Var? ==> t.name in TermsVars(head.Terms());
    assert head.Terms()[0] == head.s && head.Terms()[1] == head.p && head.Terms()[2] == head.o && head.Terms()[3] == head.g;
  }

  /** A positive rule that the validator rejects derives different facts over different universes. */
  lemma RejectedPositiveRuleIsDependent(b: Builtins, rule: Rule)
    requires PositiveRule(rule) && Issues(rule) != []
    ensures !DomainIndependent(b, rule)
  {
    NoIssuesMeansRestricted(rule);
    var head := rule.head.value;
    var y :| y in TermsVars(head.Terms()) && y !in Bound(rule.body);
    var v: Valuation := map x | x in RuleVars(rule) :: 0;
    var db := set lit | lit in rule.body && lit.Positive? :: Instance(lit.atom, v);
    var small := ActiveDomain(db) + {0};
    var fresh' := FreshValue(small);
    var w := v[y := fresh'];
    var f := Instance(head, w);
    InstancesMatch(b, rule, v, y, fresh');
    HeadInstanceFits(head, w);
    Separates(b, rule, db, small, small + {fresh'}, f, w, y);
  }

  lemma Separates(b: Builtins, rule: Rule, db: Database, small: set<int>, large: set<int>, f: Quad, w: Valuation, y: string)
    requires PositiveRule(rule) && ActiveDomain(db) <= small <= large && DerivesBy(b, rule, db, large, f, w)
    requires y in TermsVars(rule.head.value.Terms()) && y in w && w[y] !in small
    ensures !DomainIndependent(b, rule)
  {
    assert Derives(b, rule, db, large, f);
    NotOverSmaller(b, rule, db, small, f, w, y);
  }

  lemma NotOverSmaller(b: Builtins, rule: Rule, db: Database, universe: set<int>, f: Quad, w: Valuation, y: string)
    requires PositiveRule(rule) && HeadFits(rule.head.value, f, w)
    requires y in TermsVars(rule.head.value.Terms()) && y in w && w[y] !in universe
    ensures !Derives(b, rule, db, universe, f)
  {
    var head := rule.head.value;
    var t :| t in head.Terms() && t.Var? && t.name == y;
    assert Assigned(rule.body) == {};
    forall v
      ensures !DerivesBy(b, rule, db, universe, f, v)
    {
      if HeadFits(head, f, v) {
        assert Eval(t, v) == Eval(t, w);
      }
    }
  }

  /** Hence a positive rule is domain independent exactly when the validator accepts it. */
  lemma ValidatorIsExactForPositiveRules(b: Builtins, rule: Rule)
    requires PositiveRule(rule)
    ensures DomainIndependent(b, rule) <==> Issues(rule) == []
  {
    if Issues(rule) == [] {
      AcceptedRulesAreDomainIndependent(b, rule);
    } else {
      RejectedPositiveRuleIsDependent(b, rule);
    }
  }

  // ------------------------------------------------------------------------------
  // Accepted rules that are not domain independent
  // ------------------------------------------------------------------------------

  /** `<1>(?x, ?x) :- <1>(?x, ?x), ?y < ?x.` is accepted: nothing checks that `?y` is bound. */
  function UnboundComparison(): Rule {
    var a := Atom(Var("x"), Const(1), Var("x"), DefaultGraph);
    Rule(Some(a), [Positive(a), Compare(Var("y"), Lt, Var("x"))])
  }

  lemma UnboundComparisonIsAccepted()
    ensures Issues(UnboundComparison()) == []
  {
    var rule := UnboundComparison();
    var body := rule.body;
    assert body[..1] == [body[0]] && body[..1][..0] == [];
    assert Bound(body) == Bound(body[..1]) + Binds(body[1]) == Binds(body[0]);
    NoIssuesMeansRestricted(rule);
  }

  lemma UnboundComparisonIsDependent(b: Builtins)
    requires forall l, r :: b.compare(Lt, l, r) == (l < r)
    ensures !DomainIndependent(b, UnboundComparison())
  {
    var f := Quad(0, 1, 0, 0);
    SmallDomain(f);
    ComparisonInUniverse(b, f, {-1, 0, 1});
    ComparisonInUniverse(b, f, {0, 1});
  }

  /** The fact supports itself when the universe has something smaller than its value. */
  lemma ComparisonInUniverse(b: Builtins, f: Quad, universe: set<int>)
    requires forall l, r :: b.compare(Lt, l, r) == (l < r)
    requires f == Quad(0, 1, 0, 0) && 0 in universe && forall x :: x in universe ==> x >= -1
    ensures Derives(b, UnboundComparison(), {f}, universe, f) <==> -1 in universe
  {
    var rule := UnboundComparison();
    var db: Database := {f};
    RuleVarsOfTwo(rule, {"x"}, {"x", "y"});
    assert rule.body[1] in rule.body && Assigned(rule.body) == {};
    if -1 in universe {
      var v: Valuation := map["x" := 0, "y" := -1];
      assert FitsFact(b, rule.body[0].atom, f, v) && f in db;
      assert DerivesBy(b, rule, db, universe, f, v);
    } else {
      forall w: Valuation
        ensures !DerivesBy(b, rule, db, universe, f, w)
      {
        if Over(rule, universe, w) && HeadFits(rule.head.value, f, w) {
          assert w["x"] == 0 && "y" in w && w["y"] in universe;
          assert w["y"] > -1;
          assert !Holds(b, rule.body[1], db, w);
        }
      }
    }
  }

  lemma SmallDomain(f: Quad)
    requires f == Quad(0, 1, 0, 0)
    ensures ActiveDomain({f}) == {0, 1}
  {
    assert f.Values()[0] == 0 && f.Values()[1] == 1;
    assert forall x :: x in f.Values() ==> x == 0 || x == 1;
    assert 0 in f.Values() && 1 in f.Values();
  }

  lemma RuleVarsOfTwo(rule: Rule, first: set<string>, both: set<string>)
    requires |rule.body| == 2 && LiteralVars(rule.body[0]) == first && first + LiteralVars(rule.body[1]) == both
    requires rule.head.Some? && TermsVars(rule.head.value.Terms()) <= both
    ensures RuleVars(rule) == both
  {
    assert rule.body[..1][..0] == [] && rule.body[..1][0] == rule.body[0];
    assert BodyVars(rule.body[..1]) == first;
    assert BodyVars(rule.body) == both;
  }

  /** `<1>(?z, ?z) :- <1>(?x, ?x), ?z IS ?y + 0.` is accepted: the assignment counts `?z` as bound. */
  function UnboundOperand(): Rule {
    Rule(Some(Atom(Var("z"), Const(1), Var("z"), DefaultGraph)),
         [Positive(Atom(Var("x"), Const(1), Var("x"), DefaultGraph)), Assign("z", Var("y"), Add, Const(0))])
  }

  lemma UnboundOperandIsAccepted()
    ensures Issues(UnboundOperand()) == []
  {
    var rule := UnboundOperand();
    var body := rule.body;
    assert body[..1] == [body[0]] && body[..1][..0] == [];
    assert Bound(body) == Bound(body[..1]) + Binds(body[1]) == Binds(body[0]) + {"z"};
    assert TermsVars(rule.head.value.Terms()) == {"z"};
    NoIssuesMeansRestricted(rule);
  }

  lemma UnboundOperandIsDependent(b: Builtins)
    requires forall l, r :: b.compute(Add, l, r) == l + r
    ensures !DomainIndependent(b, UnboundOperand())
  {
    SmallDomain(Quad(0, 1, 0, 0));
    OperandInUniverse(b, {Quad(0, 1, 0, 0)}, {0, 1, 2}, 2);
    OperandInUniverse(b, {Quad(0, 1, 0, 0)}, {0, 1}, 2);
  }

  /** Over a universe it derives what the universe holds. */
  lemma OperandInUniverse(b: Builtins, db: Database, universe: set<int>, n: int)
    requires forall l, r :: b.compute(Add, l, r) == l + r
    requires db == {Quad(0, 1, 0, 0)} && 0 in universe
    ensures Derives(b, UnboundOperand(), db, universe, Quad(n, 1, n, 0)) <==> n in universe
  {
    var rule := UnboundOperand();
    RuleVarsOfTwo(rule, {"x"}, {"x", "y", "z"});
    assert rule.body[1] in rule.body;
    assert Assigned(rule.body) == {"z"};
    if n in universe {
      var v: Valuation := map["x" := 0, "y" := n, "z" := n];
      assert FitsFact(b, rule.body[0].atom, Quad(0, 1, 0, 0), v);
      assert DerivesBy(b, rule, db, universe, Quad(n, 1, n, 0), v);
    } else {
      forall w: Valuation
        ensures !DerivesBy(b, rule, db, universe, Quad(n, 1, n, 0), w)
      {
        OperandOutside(b, db, universe, n, w);
      }
    }
  }

  lemma OperandOutside(b: Builtins, db: Database, universe: set<int>, n: int, w: Valuation)
    requires (forall l, r :: b.compute(Add, l, r) == l + r) && n !in universe
    ensures !DerivesBy(b, UnboundOperand(), db, universe, Quad(n, 1, n, 0), w)
  {
    var rule := UnboundOperand();
    RuleVarsOfTwo(rule, {"x"}, {"x", "y", "z"});
    assert rule.body[1] in rule.body && Assigned(rule.body) == {"z"};
    if Over(rule, universe, w) && HeadFits(rule.head.value, Quad(n, 1, n, 0), w) {
      assert w["z"] == n && "y" in w && w["y"] != n;
      assert !Holds(b, rule.body[1], db, w);
    }
  }

  /** `<1>(?z, ?z) :- ?y IS ?z + 0, ?z IS ?y + 0.` has bound operands, and no finite result. */
  function CircularAssignments(): Rule {
    Rule(Some(Atom(Var("z"), Const(1), Var("z"), DefaultGraph)),
         [Assign("y", Var("z"), Add, Const(0)), Assign("z", Var("y"), Add, Const(0))])
  }

  lemma CircularAssignmentsAreAccepted()
    ensures Issues(CircularAssignments()) == [] && OperandsBound(CircularAssignments())
  {
    var rule := CircularAssignments();
    var body := rule.body;
    assert body[..1] == [body[0]] && body[..1][..0] == [];
    assert Bound(body) == Bound(body[..1]) + Binds(body[1]) == {"y", "z"};
    assert LiteralVars(body[0]) == {"y", "z"} == LiteralVars(body[1]);
    assert TermsVars(rule.head.value.Terms()) == {"z"};
    NoIssuesMeansRestricted(rule);
  }

  lemma CircularAssignmentsDeriveEverything(b: Builtins, db: Database, universe: set<int>, n: int)
    requires forall l, r :: b.compute(Add, l, r) == l + r
    ensures Issues(CircularAssignments()) == [] && OperandsBound(CircularAssignments())
    ensures Derives(b, CircularAssignments(), db, universe, Quad(n, 1, n, 0))
  {
    CircularAssignmentsAreAccepted();
    BothAssigned(b, db, n);
    OverAnything(universe, n);
    assert DerivesBy(b, CircularAssignments(), db, universe, Quad(n, 1, n, 0), map["y" := n, "z" := n]);
  }

  lemma OverAnything(universe: set<int>, n: int)
    ensures Over(CircularAssignments(), universe, map["y" := n, "z" := n])
  {
    var rule := CircularAssignments();
    var body := rule.body;
    assert LiteralVars(body[0]) == {"y", "z"} == LiteralVars(body[1]);
    RuleVarsOfTwo(rule, {"y", "z"}, {"y", "z"});
    assert body[0] in body && body[1] in body;
    assert Assigned(body) == {"y", "z"};
  }

  lemma BothAssigned(b: Builtins, db: Database, n: int)
    requires forall l, r :: b.compute(Add, l, r) == l + r
    ensures BodyHolds(b, CircularAssignments().body, db, map["y" := n, "z" := n])
  {
  }
}
