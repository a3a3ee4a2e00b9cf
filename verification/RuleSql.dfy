/**
  The statements compiled for a rule, and what they insert.  The compiler binds each variable to
  the first column that holds it and turns later occurrences into join conditions; the first
  atom of a FROM clause has none.  The theorem is that a statement inserts what another rule
  says, and when that is the rule as written.
  */
module RuleSql {
  import opened Prelude
  import opened RuleSafety
  import opened Datalog

  // ------------------------------------------------------------------------------
  // The rule that a statement runs
  // ------------------------------------------------------------------------------

  function Vars(body: seq<Atom>): set<string> {
    set i: nat, t | i < |body| && t in body[i].Terms() && t.Var? :: t.name
  }

  /** The atom with only the first occurrence of each variable. */
  function Loose(a: Atom): Atom {
    Atom(a.s, a.p,
         if a.o.Var? && a.o == a.s then Wildcard else a.o,
         if a.g.Var? && (a.g == a.s || a.g == a.o) then Wildcard else a.g)
  }

  function LooseAt(body: seq<Atom>, k: nat): seq<Atom> {
    if k < |body| then body[k := Loose(body[k])] else body
  }

  function Known(t: Term, names: set<string>): Term {
    if t.Var? && t.name !in names then Wildcard else t
  }

  /** A negated atom as NOT EXISTS sees it: unbound variables and graphs are not compared. */
  function Visible(a: Atom, names: set<string>): Atom {
    Atom(Known(a.s, names), a.p, Known(a.o, names), if a.g.Var? || a.g.Const? then Wildcard else a.g)
  }

  predicate Joinable(a: Atom) {
    a.s.Var? || a.s.Const? || a.o.Var? || a.o.Const? || a.g.Var? || a.g.Const?
  }

  predicate JoinableBefore(body: seq<Atom>, order: seq<nat>, n: nat)
    requires n <= |order|
  {
    forall i :: 0 < i < n && order[i] < |body| ==> Joinable(body[order[i]])
  }

  /** A column can be selected for the term. */
  predicate Selects(t: Term, names: set<string>, default: bool) {
    match t
    case Var(n) => n in names
    case Const(_) => true
    case DefaultGraph => default
    case Wildcard => false
  }

  /** The statement has a FROM clause that parses, and columns for the head. */
  predicate Stands(c: Clause, order: seq<nat>, default: bool) {
    && c.body != [] && |order| == |c.body|
    && JoinableBefore(c.body, order, |order|)
    && Selects(c.head.s, Vars(c.body), default) && Selects(c.head.o, Vars(c.body), default) && !c.head.g.Var?
  }

  /** What the full query of a rule runs, if anything. */
  function Seeded(c: Clause): Option<Clause> {
    if !Stands(c, c.order, true) then None
    else Some(c.(body := LooseAt(c.body, c.order[0]),
                 negated := seq(|c.negated|, i requires 0 <= i < |c.negated| => Visible(c.negated[i], Vars(c.body)))))
  }

  function TestPlace(c: Clause, i: nat): nat
    requires i < |c.tests|
  {
    Min(c.tests[i].place, |c.body|)
  }

  /** What the variants of a rule run: literals are read in the order in which they are written. */
  function Varied(c: Clause): Option<Clause> {
    if !Stands(c, Written(|c.body|), false)
       || exists i: nat :: i < |c.tests| && !(c.tests[i].vars <= Vars(c.body[..TestPlace(c, i)])) then None
    else Some(c.(body := LooseAt(c.body, 0),
                 negated := seq(|c.negated|, i requires 0 <= i < |c.negated| => Visible(c.negated[i], Vars(c.body[..c.Place(i)])))))
  }

  /** The query of that rule. */
  function Asked(c: Option<Clause>, store: set<Quad>, tables: seq<set<Quad>>): set<Quad> {
    match c
    case None => {}
    case Some(k) => Query(k, store, tables)
  }

  // ------------------------------------------------------------------------------
  // Statements
  // ------------------------------------------------------------------------------

  /** A column of a table in the FROM clause. */
  datatype Column = Column(atom: nat, field: nat)

  datatype Value = Cell(col: Column) | Number(n: int)

  datatype Cond = Cond(col: Column, value: Value)

  /** NOT EXISTS over the table of a predicate. */
  datatype Absence = Absence(p: int, conds: seq<(nat, Value)>)

  datatype Check = Check(test: Test, cols: map<string, Column>)

  /** INSERT ... SELECT; `g` is missing when it names a column that does not exist. */
  datatype Statement = Statement(preds: seq<int>, parses: bool, wheres: seq<Cond>, absences: seq<Absence>, checks: seq<Check>,
                                 s: Value, p: int, o: Value, g: Option<Value>)

  function At(col: Column, fs: seq<Quad>): int {
    if col.atom < |fs| && col.field < 4 then fs[col.atom].Values()[col.field] else 0
  }

  function Of(v: Value, fs: seq<Quad>): int {
    match v
    case Cell(col) => At(col, fs)
    case Number(n) => n
  }

  function Read(cols: map<string, Column>, fs: seq<Quad>): Valuation {
    map n | n in cols :: At(cols[n], fs)
  }

  predicate AllHold(wheres: seq<Cond>, fs: seq<Quad>) {
    forall w :: w in wheres ==> At(w.col, fs) == Of(w.value, fs)
  }

  predicate Tabled(preds: seq<int>, fs: seq<Quad>) {
    |fs| == |preds| && forall k :: 0 <= k < |fs| ==> fs[k].p == preds[k]
  }

  predicate Absent(ab: Absence, store: set<Quad>, fs: seq<Quad>) {
    forall q :: q in store && q.p == ab.p ==> exists w :: w in ab.conds && w.0 < 4 && q.Values()[w.0] != Of(w.1, fs)
  }

  /** A comparison with NULL is not true. */
  predicate Checked(ch: Check, fs: seq<Quad>) {
    ch.test.vars <= ch.cols.Keys && ch.test.holds(Restricted(Read(ch.cols, fs), ch.test.vars))
  }

  predicate Selected(st: Statement, store: set<Quad>, fs: seq<Quad>) {
    && Tabled(st.preds, fs) && AllHold(st.wheres, fs)
    && (forall i :: 0 <= i < |st.absences| ==> Absent(st.absences[i], store, fs))
    && forall i :: 0 <= i < |st.checks| ==> Checked(st.checks[i], fs)
  }

  /** The rows inserted; a statement that fails, or was never compiled, inserts none. */
  function Rows(st: Option<Statement>, store: set<Quad>, tables: seq<set<Quad>>): set<Quad> {
    if st.None? || !st.value.parses || st.value.g.None? then {}
    else
      var x := st.value;
      set fs | fs in Tuples(tables) && Selected(x, store, fs) :: Quad(Of(x.s, fs), x.p, Of(x.o, fs), Of(x.g.value, fs))
  }

  // ------------------------------------------------------------------------------
  // The compiler
  // ------------------------------------------------------------------------------

  /** Only the first binding of a variable is recorded. */
  function Bind(cols: map<string, Column>, t: Term, col: Column): map<string, Column> {
    if t.Var? && t.name !in cols then cols[t.name := col] else cols
  }

  function BindAtom(cols: map<string, Column>, a: Atom, k: nat): map<string, Column> {
    Bind(Bind(Bind(cols, a.s, Column(k, 0)), a.o, Column(k, 2)), a.g, Column(k, 3))
  }

  function ConstCond(t: Term, col: Column): seq<Cond> {
    if t.Const? then [Cond(col, Number(t.id))] else []
  }

  function ConstConds(a: Atom, k: nat): seq<Cond> {
    ConstCond(a.s, Column(k, 0)) + ConstCond(a.o, Column(k, 2)) + ConstCond(a.g, Column(k, 3))
  }

  function JoinCond(t: Term, col: Column, cols: map<string, Column>): seq<Cond> {
    if t.Var? && t.name in cols then [Cond(col, Cell(cols[t.name]))] else ConstCond(t, col)
  }

  function JoinConds(a: Atom, k: nat, cols: map<string, Column>): seq<Cond> {
    JoinCond(a.s, Column(k, 0), cols) + JoinCond(a.o, Column(k, 2), cols) + JoinCond(a.g, Column(k, 3), cols)
  }

  /** The conditions an atom adds; the first one has nothing to be joined with. */
  function Conditions(a: Atom, k: nat, cols: map<string, Column>, first: bool): seq<Cond> {
    ConstConds(a, k) + if first then [] else JoinConds(a, k, cols)
  }

  function FieldCond(t: Term, field: nat, cols: map<string, Column>): seq<(nat, Value)> {
    match t
    case Var(n) => if n in cols then [(field, Cell(cols[n]))] else []
    case Const(id) => [(field, Number(id))]
    case _ => []
  }

  /** The conditions of NOT EXISTS: subject and object, where they are known. */
  function NotExists(a: Atom, cols: map<string, Column>): Absence {
    Absence(if a.p.Const? then a.p.id else 0, FieldCond(a.s, 0, cols) + FieldCond(a.o, 2, cols))
  }

  function Select(t: Term, cols: map<string, Column>, default: bool): Option<Value> {
    match t
    case Var(n) => if n in cols then Some(Cell(cols[n])) else None
    case Const(id) => Some(Number(id))
    case DefaultGraph => if default then Some(Number(0)) else None
    case Wildcard => None
  }

  function GraphColumn(t: Term): Option<Value> {
    match t
    case Var(_) => None
    case Const(id) => Some(Number(id))
    case _ => Some(Number(0))
  }

  function Preds(body: seq<Atom>): seq<int> {
    seq(|body|, i requires 0 <= i < |body| => if body[i].p.Const? then body[i].p.id else 0)
  }

  /** The atoms before the given position are compiled. */
  ghost predicate FromSoFar(body: seq<Atom>, order: seq<nat>, i: nat, wheres: seq<Cond>, cols: map<string, Column>, parses: bool)
    requires i <= |order| && order != []
  {
    && JoinedSoFar(LooseAt(body, order[0]), order[..i], wheres, cols) && (i == 0 ==> wheres == [] && cols == map[])
    && (parses <==> JoinableBefore(body, order, i))
  }

  /** The next atom; the clause goes on to parse when it has conditions to be joined by. */
  method CompileAtom(body: seq<Atom>, order: seq<nat>, i: nat, wheres: seq<Cond>, cols: map<string, Column>, parses: bool)
    returns (wheres': seq<Cond>, cols': map<string, Column>, parses': bool)
    requires IsOrder(order, |body|) && ConstPreds(body) && i < |order| && FromSoFar(body, order, i, wheres, cols, parses)
    ensures FromSoFar(body, order, i + 1, wheres', cols', parses') && cols' == BindAtom(cols, body[order[i]], order[i])
  {
    var k := order[i];
    JoinNext(body, order, i, wheres, cols);
    OneMoreJoinable(body, order, i);
    cols' := BindAtom(cols, body[k], k);
    wheres' := wheres + Conditions(body[k], k, cols', i == 0);
    parses' := parses && (i == 0 || JoinConds(body[k], k, cols') != []);
  }

  /** FROM with atoms joined in the order of their estimated costs. */
  method CompileFrom(body: seq<Atom>, order: seq<nat>) returns (cols: map<string, Column>, wheres: seq<Cond>, parses: bool)
    requires IsOrder(order, |body|) && ConstPreds(body) && body != []
    ensures JoinsAs(LooseAt(body, order[0]), wheres, cols)
    ensures parses <==> JoinableBefore(body, order, |order|)
  {
    cols, wheres, parses := map[], [], true;
    FromStart(body, order);
    for i := 0 to |order|
      invariant FromSoFar(body, order, i, wheres, cols, parses)
    {
      wheres, cols, parses := CompileAtom(body, order, i, wheres, cols, parses);
    }
    FromEnd(body, order, wheres, cols, parses);
  }

  lemma FromEnd(body: seq<Atom>, order: seq<nat>, wheres: seq<Cond>, cols: map<string, Column>, parses: bool)
    requires IsOrder(order, |body|) && ConstPreds(body) && body != [] && FromSoFar(body, order, |order|, wheres, cols, parses)
    ensures JoinsAs(LooseAt(body, order[0]), wheres, cols)
    ensures parses <==> JoinableBefore(body, order, |order|)
  {
    JoinEnd(body, order, wheres, cols);
  }

  lemma OneMoreJoinable(body: seq<Atom>, order: seq<nat>, i: nat)
    requires i < |order| && order[i] < |body|
    ensures JoinableBefore(body, order, i + 1) <==> JoinableBefore(body, order, i) && (i == 0 || Joinable(body[order[i]]))
  {
  }

  lemma FromStart(body: seq<Atom>, order: seq<nat>)
    requires order != []
    ensures FromSoFar(body, order, 0, [], map[], true)
  {
    assert Names(LooseAt(body, order[0]), order[..0]) == {};
  }

  /** The query over full tables. */
  method CompileNonrecursive(c: Clause) returns (st: Option<Statement>)
    requires c.Valid()
    ensures forall store, tables :: |tables| == |c.body| ==> Rows(st, store, tables) == Asked(Seeded(c), store, tables)
  {
    if c.body == [] {
      return None;
    }
    var cols, wheres, parses := CompileFrom(c.body, c.order);
    JoinedKeys(c.body, c.order[0], wheres, cols);
    var absences := seq(|c.negated|, i requires 0 <= i < |c.negated| => NotExists(c.negated[i], cols));
    var checks := seq(|c.tests|, i requires 0 <= i < |c.tests| => Check(c.tests[i], cols));
    var s, o := Select(c.head.s, cols, true), Select(c.head.o, cols, true);
    if s.None? || o.None? {
      return None;
    }
    st := Some(Statement(Preds(c.body), parses, wheres, absences, checks, s.value, c.head.p.id, o.value, GraphColumn(c.head.g)));
    NonrecursiveMeans(c, st.value, cols);
  }

  /** The columns as they stand after each atom. */
  ghost predicate Grows(body: seq<Atom>, after: seq<map<string, Column>>) {
    && 0 < |after| <= |body| + 1
    && forall j :: 0 <= j < |after| ==> after[j].Keys == Vars(body[..j]) && Part(after[j], after[|after| - 1])
  }

  /** FROM with atoms as written. */
  method CompileFromWritten(body: seq<Atom>) returns (after: seq<map<string, Column>>, wheres: seq<Cond>, parses: bool)
    requires ConstPreds(body) && body != []
    ensures |after| == |body| + 1 && JoinsAs(LooseAt(body, 0), wheres, after[|body|]) && Grows(body, after)
    ensures parses <==> JoinableBefore(body, Written(|body|), |body|)
  {
    var cols: map<string, Column> := map[];
    after, wheres, parses := [cols], [], true;
    var order := Written(|body|);
    FromStart(body, order);
    for i := 0 to |order|
      invariant FromSoFar(body, order, i, wheres, cols, parses)
      invariant |after| == i + 1 && after[i] == cols && IsHistory(body, after)
    {
      assert order[i] == i;
      wheres, cols, parses := CompileAtom(body, order, i, wheres, cols, parses);
      HistoryNext(body, after, cols);
      after := after + [cols];
    }
    FromEnd(body, order, wheres, cols, parses);
    HistoryGrows(body, after);
  }

  ghost function ColsAfter(body: seq<Atom>, n: nat): map<string, Column>
    requires n <= |body|
  {
    if n == 0 then map[] else BindAtom(ColsAfter(body, n - 1), body[n - 1], n - 1)
  }

  ghost predicate IsHistory(body: seq<Atom>, after: seq<map<string, Column>>) {
    |after| <= |body| + 1 && forall j :: 0 <= j < |after| ==> after[j] == ColsAfter(body, j)
  }

  lemma HistoryNext(body: seq<Atom>, after: seq<map<string, Column>>, cols: map<string, Column>)
    requires IsHistory(body, after) && 0 < |after| <= |body|
    requires var n := |after| - 1;
             cols == BindAtom(after[n], body[n], n)
    ensures IsHistory(body, after + [cols])
  {
  }

  lemma HistoryGrows(body: seq<Atom>, after: seq<map<string, Column>>)
    requires ConstPreds(body) && after != [] && IsHistory(body, after)
    ensures Grows(body, after)
  {
    var n := |after| - 1;
    forall j | 0 <= j < |after|
      ensures after[j].Keys == Vars(body[..j]) && Part(after[j], after[n])
    {
      ColsAfterKeys(body, j);
      ColsAfterGrows(body, j, n);
    }
  }

  lemma {:induction false} ColsAfterKeys(body: seq<Atom>, n: nat)
    requires ConstPreds(body) && n <= |body|
    ensures ColsAfter(body, n).Keys == Vars(body[..n])
  {
    if n > 0 {
      ColsAfterKeys(body, n - 1);
      LastGrows(body, n);
      VarsBefore(body, n);
    }
  }

  lemma VarsBefore(body: seq<Atom>, n: nat)
    requires 0 < n <= |body|
    ensures Vars(body[..n]) == Vars(body[..n - 1]) + TermsVars(body[n - 1].Terms())
  {
    VarsOneMore(body[..n]);
    assert body[..n][..n - 1] == body[..n - 1];
  }

  lemma {:induction false} ColsAfterGrows(body: seq<Atom>, j: nat, n: nat)
    requires ConstPreds(body) && j <= n <= |body|
    ensures Part(ColsAfter(body, j), ColsAfter(body, n))
    decreases n
  {
    if j < n {
      ColsAfterGrows(body, j, n - 1);
      LastGrows(body, n);
      PartOfPart(ColsAfter(body, j), ColsAfter(body, n - 1), ColsAfter(body, n));
    }
  }

  lemma LastGrows(body: seq<Atom>, n: nat)
    requires ConstPreds(body) && 0 < n <= |body|
    ensures Part(ColsAfter(body, n - 1), ColsAfter(body, n))
    ensures ColsAfter(body, n).Keys == ColsAfter(body, n - 1).Keys + TermsVars(body[n - 1].Terms())
  {
    assert body[n - 1] in body;
    BindKeys(ColsAfter(body, n - 1), body[n - 1], n - 1);
  }

  lemma PartOfPart<T>(a: map<string, T>, b: map<string, T>, c: map<string, T>)
    requires Part(a, b) && Part(b, c)
    ensures Part(a, c)
  {
  }

  /** The query with one table replaced; literals are compiled as they come. */
  method CompileVariant(c: Clause) returns (st: Option<Statement>)
    requires c.Valid()
    ensures forall store, tables :: |tables| == |c.body| ==> Rows(st, store, tables) == Asked(Varied(c), store, tables)
  {
    if c.body == [] {
      return None;
    }
    var after, wheres, parses := CompileFromWritten(c.body);
    var cols := after[|c.body|];
    JoinedKeys(c.body, 0, wheres, cols);
    assert c.body[..|c.body|] == c.body;
    var absences := seq(|c.negated|, i requires 0 <= i < |c.negated| => NotExists(c.negated[i], after[c.Place(i)]));
    var checks := seq(|c.tests|, i requires 0 <= i < |c.tests| => Check(c.tests[i], after[TestPlace(c, i)]));
    var s, o := Select(c.head.s, cols, false), Select(c.head.o, cols, false);
    if s.None? || o.None? {
      return None;
    }
    st := Some(Statement(Preds(c.body), parses, wheres, absences, checks, s.value, c.head.p.id, o.value, GraphColumn(c.head.g)));
    VariantMeans(c, st.value, after);
  }

  // ------------------------------------------------------------------------------
  // Matching, term by term
  // ------------------------------------------------------------------------------

  ghost predicate TermAgrees(t: Term, x: int, v: Valuation) {
    match t
    case Var(n) => n in v && v[n] == x
    case Const(c) => c == x
    case _ => true
  }

  ghost predicate AllAgree(ts: seq<Term>, xs: seq<int>, v: Valuation) {
    |ts| == |xs| && forall i :: 0 <= i < |ts| ==> TermAgrees(ts[i], xs[i], v)
  }

  ghost predicate Agrees(a: Atom, f: Quad, v: Valuation) {
    AllAgree(a.Terms(), f.Values(), v)
  }

  ghost predicate Part<T>(a: map<string, T>, b: map<string, T>) {
    a.Keys <= b.Keys && forall n :: n in a ==> a[n] == b[n]
  }

  /** A match agrees with every term and binds nothing else. */
  lemma {:induction false} MatchAgrees(ts: seq<Term>, xs: seq<int>, v: Valuation)
    requires |ts| == |xs| && MatchAll(ts, xs, v).Some?
    ensures var u := MatchAll(ts, xs, v).value;
            Part(v, u) && AllAgree(ts, xs, u) && u.Keys == v.Keys + TermsVars(ts)
  {
    if ts != [] {
      var w := MatchTerm(ts[0], xs[0], v).value;
      MatchAgrees(ts[1..], xs[1..], w);
      var u := MatchAll(ts, xs, v).value;
      assert forall t :: t in ts <==> t == ts[0] || t in ts[1..];
      forall i | 0 <= i < |ts|
        ensures TermAgrees(ts[i], xs[i], u)
      {
        if i > 0 {
          assert TermAgrees(ts[1..][i - 1], xs[1..][i - 1], u);
        }
      }
    }
  }

  /** Whatever agrees with every term is a match. */
  lemma {:induction false} AgreementMatches(ts: seq<Term>, xs: seq<int>, v: Valuation, u: Valuation)
    requires Part(v, u) && AllAgree(ts, xs, u)
    ensures MatchAll(ts, xs, v).Some? && Part(MatchAll(ts, xs, v).value, u)
  {
    if ts != [] {
      assert TermAgrees(ts[0], xs[0], u);
      var w := MatchTerm(ts[0], xs[0], v).value;
      forall i | 0 <= i < |ts| - 1
        ensures TermAgrees(ts[1..][i], xs[1..][i], u)
      {
        assert TermAgrees(ts[i + 1], xs[i + 1], u);
      }
      AgreementMatches(ts[1..], xs[1..], w, u);
    }
  }

  lemma AtomMatches(a: Atom, f: Quad, v: Valuation, u: Valuation)
    requires Part(v, u) && a.p.Const?
    ensures Agrees(a, f, u) ==> MatchAtom(a, f, v).Some? && Part(MatchAtom(a, f, v).value, u)
    ensures MatchAtom(a, f, v).Some? ==> MatchAtom(a, f, v).value.Keys == v.Keys + TermsVars(a.Terms())
    ensures MatchAtom(a, f, v).Some? ==> Part(v, MatchAtom(a, f, v).value) && Agrees(a, f, MatchAtom(a, f, v).value)
  {
    if Agrees(a, f, u) {
      AgreementMatches(a.Terms(), f.Values(), v, u);
      assert TermAgrees(a.Terms()[1], f.Values()[1], u);
    }
    if MatchAtom(a, f, v).Some? {
      MatchAgrees(a.Terms(), f.Values(), v);
    }
  }

  lemma AgreesStays(a: Atom, f: Quad, v: Valuation, u: Valuation)
    requires Part(v, u) && TermsVars(a.Terms()) <= v.Keys
    ensures Agrees(a, f, v) <==> Agrees(a, f, u)
  {
    forall i | 0 <= i < 4
      ensures TermAgrees(a.Terms()[i], f.Values()[i], v) <==> TermAgrees(a.Terms()[i], f.Values()[i], u)
    {
      var t := a.Terms()[i];
      assert t in a.Terms();
      assert t.Var? ==> t.name in TermsVars(a.Terms());
    }
  }

  ghost predicate BodyAgrees(body: seq<Atom>, fs: seq<Quad>, v: Valuation) {
    |body| == |fs| && forall k :: 0 <= k < |body| ==> Agrees(body[k], fs[k], v)
  }

  ghost predicate ConstPreds(body: seq<Atom>) {
    forall a :: a in body ==> a.p.Const?
  }

  lemma VarsOneMore(body: seq<Atom>)
    requires body != []
    ensures Vars(body) == Vars(body[..|body| - 1]) + TermsVars(body[|body| - 1].Terms())
  {
    var n := |body| - 1;
    forall x
      ensures x in Vars(body) <==> x in Vars(body[..n]) || x in TermsVars(body[n].Terms())
    {
      if x in Vars(body) {
        var i: nat, t :| i < |body| && t in body[i].Terms() && t.Var? && t.name == x;
        assert i < n ==> body[..n][i] == body[i];
      }
      if x in Vars(body[..n]) {
        var i: nat, t :| i < n && t in body[..n][i].Terms() && t.Var? && t.name == x;
        assert t in body[i].Terms();
      }
      if x in TermsVars(body[n].Terms()) {
        var t :| t in body[n].Terms() && t.Var? && t.name == x;
      }
    }
  }

  /** A body matches a tuple of facts with the one valuation of its variables that agrees with all of them. */
  lemma {:induction false} BodyMatch(body: seq<Atom>, fs: seq<Quad>)
    requires |body| == |fs| && ConstPreds(body) && MatchBody(body, fs).Some?
    ensures MatchBody(body, fs).value.Keys == Vars(body) && BodyAgrees(body, fs, MatchBody(body, fs).value)
  {
    if body != [] {
      var n := |body| - 1;
      assert body[n] in body && forall a :: a in body[..n] ==> a in body;
      BodyMatch(body[..n], fs[..n]);
      var w := MatchBody(body[..n], fs[..n]).value;
      AtomMatches(body[n], fs[n], w, w);
      OneMoreAgrees(body, fs, w, MatchBody(body, fs).value);
    }
  }

  lemma OneMoreAgrees(body: seq<Atom>, fs: seq<Quad>, w: Valuation, u: Valuation)
    requires |body| == |fs| > 0
    requires var n := |body| - 1;
             && w.Keys == Vars(body[..n]) && BodyAgrees(body[..n], fs[..n], w)
             && Part(w, u) && u.Keys == w.Keys + TermsVars(body[n].Terms()) && Agrees(body[n], fs[n], u)
    ensures u.Keys == Vars(body) && BodyAgrees(body, fs, u)
  {
    var n := |body| - 1;
    VarsOneMore(body);
    AgreementGrows(body[..n], fs[..n], w, u);
    forall k | 0 <= k < |body|
      ensures Agrees(body[k], fs[k], u)
    {
      assert k < n ==> body[..n][k] == body[k] && fs[..n][k] == fs[k];
    }
  }

  lemma AgreementGrows(body: seq<Atom>, fs: seq<Quad>, v: Valuation, u: Valuation)
    requires BodyAgrees(body, fs, v) && Part(v, u) && v.Keys == Vars(body)
    ensures BodyAgrees(body, fs, u)
  {
    forall k | 0 <= k < |body|
      ensures Agrees(body[k], fs[k], u)
    {
      TermsAmongVars(body, k);
      AgreesStays(body[k], fs[k], v, u);
    }
  }

  lemma TermsAmongVars(body: seq<Atom>, k: nat)
    requires k < |body|
    ensures TermsVars(body[k].Terms()) <= Vars(body)
  {
  }

  lemma {:induction false} BodyAgreementMatches(body: seq<Atom>, fs: seq<Quad>, u: Valuation)
    requires ConstPreds(body) && BodyAgrees(body, fs, u)
    ensures MatchBody(body, fs).Some? && Part(MatchBody(body, fs).value, u)
  {
    if body != [] {
      var n := |body| - 1;
      assert body[n] in body && forall a :: a in body[..n] ==> a in body;
      forall k | 0 <= k < n
        ensures Agrees(body[..n][k], fs[..n][k], u)
      {
        assert Agrees(body[k], fs[k], u);
      }
      BodyAgreementMatches(body[..n], fs[..n], u);
      AtomMatches(body[n], fs[n], MatchBody(body[..n], fs[..n]).value, u);
    }
  }

  // ------------------------------------------------------------------------------
  // The FROM clause matches the body
  // ------------------------------------------------------------------------------

  function Names(body: seq<Atom>, done: seq<nat>): set<string> {
    set j, t | j in done && j < |body| && t in body[j].Terms() && t.Var? :: t.name
  }

  ghost predicate Fit(body: seq<Atom>, done: seq<nat>, wheres: seq<Cond>, cols: map<string, Column>, fs: seq<Quad>)
    requires |fs| == |body|
  {
    (AllHold(wheres, fs) && forall j :: j in done && j < |body| && body[j].p.Const? ==> fs[j].p == body[j].p.id)
    <==> forall j :: j in done && j < |body| ==> Agrees(body[j], fs[j], Read(cols, fs))
  }

  /** The atoms compiled so far are matched by the conditions so far, and bound to columns of theirs. */
  ghost predicate JoinedSoFar(body: seq<Atom>, done: seq<nat>, wheres: seq<Cond>, cols: map<string, Column>) {
    && cols.Keys == Names(body, done)
    && (forall n :: n in cols ==> cols[n].atom in done && Shows(body, cols[n], n))
    && forall fs: seq<Quad> {:trigger Fit(body, done, wheres, cols, fs)} :: |fs| == |body| ==> Fit(body, done, wheres, cols, fs)
  }

  ghost predicate Shows(body: seq<Atom>, col: Column, n: string) {
    col.atom < |body| && col.field < 4 && body[col.atom].Terms()[col.field] == Var(n)
  }

  lemma AtomFits(a: Atom, k: nat, cols: map<string, Column>, first: bool, fs: seq<Quad>)
    requires k < |fs| && a.p.Const? && (first ==> cols == map[])
    ensures var bound := BindAtom(cols, a, k);
            (AllHold(Conditions(a, k, bound, first), fs) && fs[k].p == a.p.id)
            <==> Agrees(if first then Loose(a) else a, fs[k], Read(bound, fs))
  {
    var bound, b := BindAtom(cols, a, k), if first then Loose(a) else a;
    var v := Read(bound, fs);
    var ts, xs := b.Terms(), fs[k].Values();
    assert Agrees(b, fs[k], v) <==> TermAgrees(ts[0], xs[0], v) && TermAgrees(ts[1], xs[1], v) && TermAgrees(ts[2], xs[2], v)
                                    && TermAgrees(ts[3], xs[3], v);
    FieldFits(a.s, Column(k, 0), b.s, bound, first, fs);
    FieldFits(a.o, Column(k, 2), b.o, bound, first, fs);
    FieldFits(a.g, Column(k, 3), b.g, bound, first, fs);
    HoldSplit(ConstConds(a, k), if first then [] else JoinConds(a, k, bound), fs);
    HoldSplit3(ConstCond(a.s, Column(k, 0)), ConstCond(a.o, Column(k, 2)), ConstCond(a.g, Column(k, 3)), fs);
    HoldSplit3(JoinCond(a.s, Column(k, 0), bound), JoinCond(a.o, Column(k, 2), bound), JoinCond(a.g, Column(k, 3), bound), fs);
  }

  lemma HoldSplit(x: seq<Cond>, y: seq<Cond>, fs: seq<Quad>)
    ensures AllHold(x + y, fs) <==> AllHold(x, fs) && AllHold(y, fs)
  {
  }

  lemma HoldSplit3(x: seq<Cond>, y: seq<Cond>, z: seq<Cond>, fs: seq<Quad>)
    ensures AllHold(x + y + z, fs) <==> AllHold(x, fs) && AllHold(y, fs) && AllHold(z, fs)
  {
    HoldSplit(x + y, z, fs);
    HoldSplit(x, y, fs);
  }

  /** One field: its conditions say that the term agrees with the column. */
  lemma FieldFits(t: Term, col: Column, loose: Term, cols: map<string, Column>, first: bool, fs: seq<Quad>)
    requires col.atom < |fs| && col.field < 4 && (t.Var? ==> t.name in cols)
    requires if first && t.Var? && cols[t.name] != col then loose == Wildcard else loose == t
    ensures (AllHold(ConstCond(t, col), fs) && (!first ==> AllHold(JoinCond(t, col, cols), fs)))
       <==> TermAgrees(loose, fs[col.atom].Values()[col.field], Read(cols, fs))
  {
    match t
    case Var(n) =>
      assert AllHold(ConstCond(t, col), fs);
      var w := Cond(col, Cell(cols[n]));
      assert JoinCond(t, col, cols) == [w];
    case Const(c) =>
      var w := Cond(col, Number(c));
      assert ConstCond(t, col) == [w] && JoinCond(t, col, cols) == [w];
    case _ =>
  }

  lemma NamesOneMore(body: seq<Atom>, done: seq<nat>, k: nat)
    requires k < |body|
    ensures Names(body, done + [k]) == Names(body, done) + TermsVars(body[k].Terms())
  {
    forall x
      ensures x in Names(body, done + [k]) <==> x in Names(body, done) || x in TermsVars(body[k].Terms())
    {
      if x in Names(body, done + [k]) {
        var j, t :| j in done + [k] && j < |body| && t in body[j].Terms() && t.Var? && t.name == x;
      }
      if x in Names(body, done) {
        var j, t :| j in done && j < |body| && t in body[j].Terms() && t.Var? && t.name == x;
        assert j in done + [k];
      }
      if x in TermsVars(body[k].Terms()) {
        assert k in done + [k];
      }
    }
  }

  lemma VarsOfAtom(a: Atom, x: string)
    ensures x in TermsVars(a.Terms()) <==> Var(x) == a.s || Var(x) == a.p || Var(x) == a.o || Var(x) == a.g
  {
    var ts := a.Terms();
    assert ts[0] == a.s && ts[1] == a.p && ts[2] == a.o && ts[3] == a.g;
    if t :| t in ts && t == Var(x) {
      assert t.name in TermsVars(ts);
    }
  }

  lemma LooseVars(a: Atom)
    ensures TermsVars(Loose(a).Terms()) == TermsVars(a.Terms())
  {
    forall x
      ensures x in TermsVars(Loose(a).Terms()) <==> x in TermsVars(a.Terms())
    {
      VarsOfAtom(a, x);
      VarsOfAtom(Loose(a), x);
    }
  }

  lemma BindKeys(cols: map<string, Column>, a: Atom, k: nat)
    requires a.p.Const?
    ensures BindAtom(cols, a, k).Keys == cols.Keys + TermsVars(a.Terms())
    ensures Part(cols, BindAtom(cols, a, k))
  {
    var bound := BindAtom(cols, a, k);
    forall x
      ensures x in bound <==> x in cols || x in TermsVars(a.Terms())
    {
      VarsOfAtom(a, x);
    }
  }

  lemma JoinStep(body: seq<Atom>, done: seq<nat>, wheres: seq<Cond>, cols: map<string, Column>, a: Atom, k: nat, first: bool)
    requires JoinedSoFar(body, done, wheres, cols) && k < |body| && a.p.Const?
    requires body[k] == (if first then Loose(a) else a) && (first ==> done == [] && wheres == [] && cols == map[])
    ensures var bound := BindAtom(cols, a, k);
            JoinedSoFar(body, done + [k], wheres + Conditions(a, k, bound, first), bound)
  {
    var bound := BindAtom(cols, a, k);
    var more := Conditions(a, k, bound, first);
    NamesOneMore(body, done, k);
    BindKeys(cols, a, k);
    LooseVars(a);
    ColumnsHold(body, done, cols, a, k, first);
    forall fs: seq<Quad> | |fs| == |body|
      ensures Fit(body, done + [k], wheres + more, bound, fs)
    {
      assert Fit(body, done, wheres, cols, fs);
      FitNext(body, done, wheres, cols, a, k, first, fs);
    }
  }

  lemma FitNext(body: seq<Atom>, done: seq<nat>, wheres: seq<Cond>, cols: map<string, Column>, a: Atom, k: nat, first: bool, fs: seq<Quad>)
    requires cols.Keys == Names(body, done) && k < |body| == |fs| && a.p.Const? && Fit(body, done, wheres, cols, fs)
    requires body[k] == (if first then Loose(a) else a) && (first ==> cols == map[])
    ensures var bound := BindAtom(cols, a, k);
            Fit(body, done + [k], wheres + Conditions(a, k, bound, first), bound, fs)
  {
    var bound := BindAtom(cols, a, k);
    AtomFits(a, k, cols, first, fs);
    HoldSplit(wheres, Conditions(a, k, bound, first), fs);
    BindKeys(cols, a, k);
    EarlierStay(body, done, cols, bound, fs);
    assert forall j :: j in done + [k] <==> j in done || j == k;
  }

  lemma EarlierStay(body: seq<Atom>, done: seq<nat>, cols: map<string, Column>, bound: map<string, Column>, fs: seq<Quad>)
    requires cols.Keys == Names(body, done) && Part(cols, bound) && |fs| == |body|
    ensures forall j :: j in done && j < |body| ==> (Agrees(body[j], fs[j], Read(cols, fs)) <==> Agrees(body[j], fs[j], Read(bound, fs)))
  {
    assert Part(Read(cols, fs), Read(bound, fs));
    forall j | j in done && j < |body|
      ensures Agrees(body[j], fs[j], Read(cols, fs)) <==> Agrees(body[j], fs[j], Read(bound, fs))
    {
      assert TermsVars(body[j].Terms()) <= Names(body, done);
      AgreesStays(body[j], fs[j], Read(cols, fs), Read(bound, fs));
    }
  }

  lemma JoinNext(body: seq<Atom>, order: seq<nat>, i: nat, wheres: seq<Cond>, cols: map<string, Column>)
    requires IsOrder(order, |body|) && ConstPreds(body) && i < |order|
    requires JoinedSoFar(LooseAt(body, order[0]), order[..i], wheres, cols) && (i == 0 ==> wheres == [] && cols == map[])
    ensures var k := order[i]; var bound := BindAtom(cols, body[k], k);
            && JoinedSoFar(LooseAt(body, order[0]), order[..i + 1], wheres + Conditions(body[k], k, bound, i == 0), bound)
            && (JoinConds(body[k], k, bound) != [] <==> Joinable(body[k]))
  {
    var k := order[i];
    assert body[k] in body && order[..i + 1] == order[..i] + [k];
    JoinStep(LooseAt(body, order[0]), order[..i], wheres, cols, body[k], k, i == 0);
    BindKeys(cols, body[k], k);
    JoinCondsEmpty(body[k], k, BindAtom(cols, body[k], k));
  }

  lemma JoinEnd(body: seq<Atom>, order: seq<nat>, wheres: seq<Cond>, cols: map<string, Column>)
    requires IsOrder(order, |body|) && ConstPreds(body) && body != []
    requires JoinedSoFar(LooseAt(body, order[0]), order[..|order|], wheres, cols)
    ensures JoinsAs(LooseAt(body, order[0]), wheres, cols)
  {
    assert order[..|order|] == order;
    VarsOfLoose(body, order[0]);
    AllJoined(LooseAt(body, order[0]), order, wheres, cols);
  }

  lemma ColumnsHold(body: seq<Atom>, done: seq<nat>, cols: map<string, Column>, a: Atom, k: nat, first: bool)
    requires k < |body| && body[k] == (if first then Loose(a) else a) && (first ==> cols == map[])
    requires forall n :: n in cols ==> cols[n].atom in done && Shows(body, cols[n], n)
    ensures var bound := BindAtom(cols, a, k);
            forall n :: n in bound ==> bound[n].atom in done + [k] && Shows(body, bound[n], n)
  {
    var bound := BindAtom(cols, a, k);
    forall n | n in bound
      ensures bound[n].atom in done + [k] && Shows(body, bound[n], n)
    {
      if n in cols {
        assert bound[n] == cols[n] && cols[n].atom in done;
      } else {
        assert bound[n] == if a.s == Var(n) then Column(k, 0) else if a.o == Var(n) then Column(k, 2) else Column(k, 3);
        assert k in done + [k];
      }
    }
  }

  lemma JoinCondsEmpty(a: Atom, k: nat, bound: map<string, Column>)
    requires TermsVars(a.Terms()) <= bound.Keys
    ensures JoinConds(a, k, bound) == [] <==> !Joinable(a)
  {
    assert a.s in a.Terms() && a.o in a.Terms() && a.g in a.Terms();
  }

  /** The conditions and columns of a whole FROM clause. */
  ghost predicate JoinsAs(body: seq<Atom>, wheres: seq<Cond>, cols: map<string, Column>) {
    && cols.Keys == Vars(body)
    && forall fs: seq<Quad> {:trigger MatchBody(body, fs)} :: |fs| == |body| ==>
         MatchBody(body, fs) == if AllHold(wheres, fs) && Tabled(Preds(body), fs) then Some(Read(cols, fs)) else None
  }

  lemma AllJoined(body: seq<Atom>, order: seq<nat>, wheres: seq<Cond>, cols: map<string, Column>)
    requires IsOrder(order, |body|) && ConstPreds(body) && JoinedSoFar(body, order, wheres, cols)
    ensures JoinsAs(body, wheres, cols)
  {
    forall x
      ensures x in Vars(body) <==> x in Names(body, order)
    {
      if x in Vars(body) {
        var i: nat, t :| i < |body| && t in body[i].Terms() && t.Var? && t.name == x;
        assert i in order;
      }
    }
    forall j: nat | j < |body|
      ensures j in order && body[j].p.Const?
    {
      assert body[j] in body;
    }
    forall fs: seq<Quad> | |fs| == |body|
      ensures MatchBody(body, fs) == if AllHold(wheres, fs) && Tabled(Preds(body), fs) then Some(Read(cols, fs)) else None
    {
      assert Fit(body, order, wheres, cols, fs);
      FitWhole(body, order, wheres, cols, fs);
      MatchIsRead(body, cols, fs);
    }
  }

  lemma FitWhole(body: seq<Atom>, order: seq<nat>, wheres: seq<Cond>, cols: map<string, Column>, fs: seq<Quad>)
    requires |fs| == |body| && Fit(body, order, wheres, cols, fs)
    requires (forall j: nat :: j < |body| ==> j in order && body[j].p.Const?)
    ensures (AllHold(wheres, fs) && Tabled(Preds(body), fs)) <==> BodyAgrees(body, fs, Read(cols, fs))
  {
  }

  lemma MatchIsRead(body: seq<Atom>, cols: map<string, Column>, fs: seq<Quad>)
    requires |fs| == |body| && ConstPreds(body) && cols.Keys == Vars(body) && forall n :: n in cols ==> Shows(body, cols[n], n)
    ensures MatchBody(body, fs) == if BodyAgrees(body, fs, Read(cols, fs)) then Some(Read(cols, fs)) else None
  {
    if BodyAgrees(body, fs, Read(cols, fs)) {
      BodyAgreementMatches(body, fs, Read(cols, fs));
    }
    if MatchBody(body, fs).Some? {
      BodyMatch(body, fs);
      ReadIsMatch(body, cols, fs, MatchBody(body, fs).value);
    }
  }

  lemma ReadIsMatch(body: seq<Atom>, cols: map<string, Column>, fs: seq<Quad>, v: Valuation)
    requires BodyAgrees(body, fs, v) && v.Keys == cols.Keys && forall n :: n in cols ==> Shows(body, cols[n], n)
    ensures v == Read(cols, fs)
  {
    forall n | n in cols
      ensures v[n] == At(cols[n], fs)
    {
      var col := cols[n];
      assert Shows(body, col, n) && Agrees(body[col.atom], fs[col.atom], v);
      assert TermAgrees(body[col.atom].Terms()[col.field], fs[col.atom].Values()[col.field], v);
    }
  }

  lemma VariantParts(c: Clause, after: seq<map<string, Column>>)
    requires Grows(c.body, after) && |after| == |c.body| + 1
    ensures forall i :: 0 <= i < |c.negated| ==>
              Part(after[c.Place(i)], after[|c.body|]) && after[c.Place(i)].Keys == Vars(c.body[..c.Place(i)])
    ensures forall i :: 0 <= i < |c.tests| ==>
              Part(after[TestPlace(c, i)], after[|c.body|]) && after[TestPlace(c, i)].Keys == Vars(c.body[..TestPlace(c, i)])
  {
  }

  lemma JoinedKeys(body: seq<Atom>, k: nat, wheres: seq<Cond>, cols: map<string, Column>)
    requires ConstPreds(body) && JoinsAs(LooseAt(body, k), wheres, cols)
    ensures cols.Keys == Vars(body)
  {
    VarsOfLoose(body, k);
  }

  lemma VarsOfLoose(body: seq<Atom>, k: nat)
    requires ConstPreds(body)
    ensures Vars(LooseAt(body, k)) == Vars(body) && Preds(LooseAt(body, k)) == Preds(body) && ConstPreds(LooseAt(body, k))
  {
    if k < |body| {
      var loose := LooseAt(body, k);
      assert body[k] in body;
      LooseVars(body[k]);
      forall i | 0 <= i < |body|
        ensures TermsVars(loose[i].Terms()) == TermsVars(body[i].Terms())
        ensures loose[i].p == body[i].p
      {
      }
      forall x
        ensures x in Vars(loose) <==> x in Vars(body)
      {
        if x in Vars(loose) {
          var i: nat, t :| i < |loose| && t in loose[i].Terms() && t.Var? && t.name == x;
          assert x in TermsVars(body[i].Terms());
        }
        if x in Vars(body) {
          var i: nat, t :| i < |body| && t in body[i].Terms() && t.Var? && t.name == x;
          assert x in TermsVars(loose[i].Terms());
        }
      }
    }
  }

  // ------------------------------------------------------------------------------
  // The statement means the rule
  // ------------------------------------------------------------------------------

  lemma AbsentMeans(a: Atom, part: map<string, Column>, cols: map<string, Column>, store: set<Quad>, fs: seq<Quad>)
    requires a.p.Const? && Part(part, cols)
    ensures Absent(NotExists(a, part), store, fs) <==> !Refuted(Visible(a, part.Keys), store, Read(cols, fs))
  {
    var b, v, ab := Visible(a, part.Keys), Read(cols, fs), NotExists(a, part);
    forall q | q in store
      ensures MatchAtom(b, q, v).Some?
         <==> (q.p == ab.p && forall w :: w in ab.conds && w.0 < 4 ==> q.Values()[w.0] == Of(w.1, fs))
    {
      MatchesConds(a, part, cols, q, fs);
    }
  }

  lemma MatchesConds(a: Atom, part: map<string, Column>, cols: map<string, Column>, q: Quad, fs: seq<Quad>)
    requires a.p.Const? && Part(part, cols)
    ensures var ab := NotExists(a, part);
            (MatchAtom(Visible(a, part.Keys), q, Read(cols, fs)).Some?
             <==> (q.p == ab.p && forall w :: w in ab.conds && w.0 < 4 ==> q.Values()[w.0] == Of(w.1, fs)))
  {
    var b, v, ab := Visible(a, part.Keys), Read(cols, fs), NotExists(a, part);
    AtomMatches(b, q, v, v);
    if MatchAtom(b, q, v).Some? {
      assert b.Terms() == [b.s, b.p, b.o, b.g];
      assert TermsVars(b.Terms()) <= v.Keys;
      AgreesStays(b, q, v, MatchAtom(b, q, v).value);
    }
    FieldSays(a.s, 0, part, cols, q, fs);
    FieldSays(a.o, 2, part, cols, q, fs);
    var ts, xs := b.Terms(), q.Values();
    assert Agrees(b, q, v) <==> TermAgrees(ts[0], xs[0], v) && TermAgrees(ts[1], xs[1], v) && TermAgrees(ts[2], xs[2], v)
                                && TermAgrees(ts[3], xs[3], v);
    assert forall w :: w in ab.conds <==> w in FieldCond(a.s, 0, part) || w in FieldCond(a.o, 2, part);
  }

  lemma FieldSays(t: Term, field: nat, part: map<string, Column>, cols: map<string, Column>, q: Quad, fs: seq<Quad>)
    requires field < 4 && Part(part, cols)
    ensures (forall w :: w in FieldCond(t, field, part) && w.0 < 4 ==> q.Values()[w.0] == Of(w.1, fs))
       <==> TermAgrees(Known(t, part.Keys), q.Values()[field], Read(cols, fs))
  {
    match t
    case Var(n) =>
      if n in part {
        assert FieldCond(t, field, part) == [(field, Cell(part[n]))];
        assert (field, Cell(part[n])) in FieldCond(t, field, part);
      }
    case Const(c) =>
      assert FieldCond(t, field, part) == [(field, Number(c))];
      assert (field, Number(c)) in FieldCond(t, field, part);
    case _ =>
  }

  lemma StatementMeans(st: Statement, k: Clause, cols: map<string, Column>, seen: seq<map<string, Column>>,
                       read: seq<map<string, Column>>, atoms: seq<Atom>, default: bool)
    requires JoinsAs(k.body, st.wheres, cols) && st.preds == Preds(k.body) && st.parses
    requires |seen| == |atoms| == |k.negated| == |st.absences|
    requires forall i :: 0 <= i < |atoms| ==> && atoms[i].p.Const? && Part(seen[i], cols) && st.absences[i] == NotExists(atoms[i], seen[i])
                                              && k.negated[i] == Visible(atoms[i], seen[i].Keys)
    requires |read| == |k.tests| == |st.checks|
    requires forall i :: 0 <= i < |read| ==> && Part(read[i], cols) && st.checks[i] == Check(k.tests[i], read[i])
                                             && (k.tests[i].vars <= read[i].Keys || read[i] == cols)
    requires Select(k.head.s, cols, default) == Some(st.s) && Select(k.head.o, cols, default) == Some(st.o)
    requires k.head.p == Const(st.p) && !k.head.g.Var? && st.g == GraphColumn(k.head.g)
    ensures forall store, tables :: |tables| == |k.body| ==> Rows(Some(st), store, tables) == Query(k, store, tables)
  {
    forall store: set<Quad>, tables: seq<set<Quad>> | |tables| == |k.body|
      ensures Rows(Some(st), store, tables) == Query(k, store, tables)
    {
      forall fs | fs in Tuples(tables)
        ensures Fire(k, store, fs) == Output(st, store, fs)
      {
        TupleMembers(tables, fs);
        forall i | 0 <= i < |atoms|
          ensures Absent(st.absences[i], store, fs) <==> !Refuted(k.negated[i], store, Read(cols, fs))
        {
          AbsentMeans(atoms[i], seen[i], cols, store, fs);
        }
        forall i | 0 <= i < |read|
          ensures Checked(st.checks[i], fs) <==> Passes(k.tests[i], Read(cols, fs))
        {
          CheckMeans(k.tests[i], read[i], cols, fs);
        }
        FireIsOutput(st, k, cols, default, store, fs);
      }
      RowsAreOutputs(st, k, store, tables);
    }
  }

  function Output(st: Statement, store: set<Quad>, fs: seq<Quad>): Option<Quad>
    requires st.g.Some?
  {
    if Selected(st, store, fs) then Some(Quad(Of(st.s, fs), st.p, Of(st.o, fs), Of(st.g.value, fs))) else None
  }

  lemma RowsAreOutputs(st: Statement, k: Clause, store: set<Quad>, tables: seq<set<Quad>>)
    requires st.parses && st.g.Some? && forall fs :: fs in Tuples(tables) ==> Fire(k, store, fs) == Output(st, store, fs)
    ensures Rows(Some(st), store, tables) == Query(k, store, tables)
  {
  }

  lemma FireIsOutput(st: Statement, k: Clause, cols: map<string, Column>, default: bool, store: set<Quad>, fs: seq<Quad>)
    requires JoinsAs(k.body, st.wheres, cols) && st.preds == Preds(k.body) && |fs| == |k.body|
    requires |k.negated| == |st.absences| && forall i :: 0 <= i < |k.negated| ==>
               (Absent(st.absences[i], store, fs) <==> !Refuted(k.negated[i], store, Read(cols, fs)))
    requires |k.tests| == |st.checks| && forall i :: 0 <= i < |k.tests| ==>
               (Checked(st.checks[i], fs) <==> Passes(k.tests[i], Read(cols, fs)))
    requires Select(k.head.s, cols, default) == Some(st.s) && Select(k.head.o, cols, default) == Some(st.o)
    requires k.head.p == Const(st.p) && !k.head.g.Var? && st.g == GraphColumn(k.head.g)
    ensures Fire(k, store, fs) == Output(st, store, fs)
  {
    if AllHold(st.wheres, fs) && Tabled(st.preds, fs) {
      var v := Read(cols, fs);
      assert MatchBody(k.body, fs) == Some(v);
      assert (forall a :: a in k.negated ==> !Refuted(a, store, v))
        <==> forall i :: 0 <= i < |k.negated| ==> !Refuted(k.negated[i], store, v);
      HeadIsOutput(st, k.head, cols, default, fs);
    }
  }

  lemma HeadIsOutput(st: Statement, head: Atom, cols: map<string, Column>, default: bool, fs: seq<Quad>)
    requires Select(head.s, cols, default) == Some(st.s) && Select(head.o, cols, default) == Some(st.o)
    requires head.p == Const(st.p) && !head.g.Var? && st.g == GraphColumn(head.g)
    ensures Ground(head, Read(cols, fs)) == Some(Quad(Of(st.s, fs), st.p, Of(st.o, fs), Of(st.g.value, fs)))
  {
  }

  /** The parts that both statements of a rule share. */
  ghost predicate Heads(c: Clause, st: Statement, cols: map<string, Column>, default: bool) {
    && st.preds == Preds(c.body) && c.head.p == Const(st.p) && st.g == GraphColumn(c.head.g)
    && Select(c.head.s, cols, default) == Some(st.s) && Select(c.head.o, cols, default) == Some(st.o)
    && |st.absences| == |c.negated| && |st.checks| == |c.tests|
  }

  lemma NonrecursiveMeans(c: Clause, st: Statement, cols: map<string, Column>)
    requires c.Valid() && c.body != [] && JoinsAs(LooseAt(c.body, c.order[0]), st.wheres, cols) && Heads(c, st, cols, true)
    requires st.parses <==> JoinableBefore(c.body, c.order, |c.order|)
    requires forall i :: 0 <= i < |c.negated| ==> st.absences[i] == NotExists(c.negated[i], cols)
    requires forall i :: 0 <= i < |c.tests| ==> st.checks[i] == Check(c.tests[i], cols)
    ensures forall store, tables :: |tables| == |c.body| ==> Rows(Some(st), store, tables) == Asked(Seeded(c), store, tables)
  {
    VarsOfLoose(c.body, c.order[0]);
    if Stands(c, c.order, true) {
      StatementMeans(st, Seeded(c).value, cols, seq(|c.negated|, _ => cols), seq(|c.tests|, _ => cols), c.negated, true);
    }
  }

  lemma VariantMeans(c: Clause, st: Statement, after: seq<map<string, Column>>)
    requires c.Valid() && c.body != [] && |after| == |c.body| + 1 && Grows(c.body, after)
    requires JoinsAs(LooseAt(c.body, 0), st.wheres, after[|c.body|]) && Heads(c, st, after[|c.body|], false)
    requires st.parses <==> JoinableBefore(c.body, Written(|c.body|), |c.body|)
    requires forall i :: 0 <= i < |c.negated| ==> st.absences[i] == NotExists(c.negated[i], after[c.Place(i)])
    requires forall i :: 0 <= i < |c.tests| ==> st.checks[i] == Check(c.tests[i], after[TestPlace(c, i)])
    ensures forall store, tables :: |tables| == |c.body| ==> Rows(Some(st), store, tables) == Asked(Varied(c), store, tables)
  {
    VarsOfLoose(c.body, 0);
    VariantParts(c, after);
    if Varied(c).Some? {
      VariedMeans(c, st, after);
    } else if Stands(c, Written(|c.body|), false) {
      var i: nat :| i < |c.tests| && !(c.tests[i].vars <= Vars(c.body[..TestPlace(c, i)]));
      assert forall fs :: !Checked(st.checks[i], fs);
    }
  }

  lemma VariedMeans(c: Clause, st: Statement, after: seq<map<string, Column>>)
    requires c.Valid() && Varied(c).Some? && |after| == |c.body| + 1 && Grows(c.body, after) && st.parses
    requires JoinsAs(LooseAt(c.body, 0), st.wheres, after[|c.body|]) && Heads(c, st, after[|c.body|], false)
    requires forall i :: 0 <= i < |c.negated| ==> st.absences[i] == NotExists(c.negated[i], after[c.Place(i)])
    requires forall i :: 0 <= i < |c.tests| ==> st.checks[i] == Check(c.tests[i], after[TestPlace(c, i)])
    ensures forall store, tables :: |tables| == |c.body| ==> Rows(Some(st), store, tables) == Asked(Varied(c), store, tables)
  {
    VarsOfLoose(c.body, 0);
    VariantParts(c, after);
    StatementMeans(st, Varied(c).value, after[|c.body|], seq(|c.negated|, i requires 0 <= i < |c.negated| => after[c.Place(i)]),
                   seq(|c.tests|, i requires 0 <= i < |c.tests| => after[TestPlace(c, i)]), c.negated, false);
  }

  lemma CheckMeans(t: Test, part: map<string, Column>, cols: map<string, Column>, fs: seq<Quad>)
    requires Part(part, cols) && (t.vars <= part.Keys || part == cols)
    ensures Checked(Check(t, part), fs) <==> Passes(t, Read(cols, fs))
  {
    if t.vars <= part.Keys {
      assert Restricted(Read(part, fs), t.vars) == Restricted(Read(cols, fs), t.vars);
    }
  }
}
