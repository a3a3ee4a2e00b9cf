/**
  The rules that the validator checks and the rules that the engines run: one meaning.  The
  first is stated by valuations over a universe, the second by matching one fact per atom.
  */
module RuleMeaning {
  import opened Prelude
  import opened RuleSafety
  import opened Datalog
  import opened RuleSql

  /** A clause without tests as a rule. */
  function AsRule(c: Clause): Rule {
    Rule(Some(c.head), Positives(c.body) + Negatives(c.negated))
  }

  function Positives(atoms: seq<Atom>): seq<Literal> {
    seq(|atoms|, i requires 0 <= i < |atoms| => Positive(atoms[i]))
  }

  function Negatives(atoms: seq<Atom>): seq<Literal> {
    seq(|atoms|, i requires 0 <= i < |atoms| => Negated(atoms[i]))
  }

  lemma BodyLiterals(c: Clause)
    ensures forall lit :: lit in AsRule(c).body <==> (lit.Positive? && lit.atom in c.body) || (lit.Negated? && lit.atom in c.negated)
  {
    var body := AsRule(c).body;
    forall lit
      ensures lit in body <==> (lit.Positive? && lit.atom in c.body) || (lit.Negated? && lit.atom in c.negated)
    {
      if lit.Positive? && lit.atom in c.body {
        var i :| 0 <= i < |c.body| && c.body[i] == lit.atom;
        assert body[i] == lit;
      }
      if lit.Negated? && lit.atom in c.negated {
        var i :| 0 <= i < |c.negated| && c.negated[i] == lit.atom;
        assert body[|c.body| + i] == lit;
      }
    }
  }

  lemma BoundIsVars(c: Clause)
    ensures Bound(AsRule(c).body) == Vars(c.body)
  {
    var body := AsRule(c).body;
    BodyLiterals(c);
    forall x
      ensures x in Bound(body) <==> x in Vars(c.body)
    {
      BoundOrigin(body, x);
      if x in Bound(body) {
        var lit :| lit in body && x in Binds(lit);
        var k :| 0 <= k < |c.body| && c.body[k] == lit.atom;
        TermsAmongVars(c.body, k);
      }
      if x in Vars(c.body) {
        var k: nat, t :| k < |c.body| && t in c.body[k].Terms() && t.Var? && t.name == x;
        assert Positive(c.body[k]) in body && x in Binds(Positive(c.body[k]));
      }
    }
  }

  lemma RuleVarsAreVars(c: Clause)
    requires RangeRestricted(AsRule(c))
    ensures RuleVars(AsRule(c)) == Vars(c.body)
  {
    var rule := AsRule(c);
    BodyLiterals(c);
    BoundIsVars(c);
    LiteralsBound(rule);
    forall x | x in Vars(c.body)
      ensures x in BodyVars(rule.body)
    {
      var k: nat, t :| k < |c.body| && t in c.body[k].Terms() && t.Var? && t.name == x;
      assert Positive(c.body[k]) in rule.body;
      LiteralVarsInBody(rule.body, Positive(c.body[k]));
    }
  }

  lemma FitsIsAgreement(b: Builtins, a: Atom, f: Quad, v: Valuation)
    requires !b.scoped
    ensures FitsFact(b, a, f, v) <==> Agrees(a, f, v)
  {
    var ts, xs := a.Terms(), f.Values();
    assert Agrees(a, f, v) <==> TermAgrees(ts[0], xs[0], v) && TermAgrees(ts[1], xs[1], v) && TermAgrees(ts[2], xs[2], v)
                                && TermAgrees(ts[3], xs[3], v);
  }

  /** A fact for each atom that holds. */
  lemma {:induction false} ChooseFacts(b: Builtins, body: seq<Atom>, db: Database, v: Valuation) returns (fs: seq<Quad>)
    requires !b.scoped && forall a :: a in body ==> AtomHolds(b, a, db, v)
    ensures BodyAgrees(body, fs, v) && forall i :: 0 <= i < |fs| ==> fs[i] in db
  {
    if body == [] {
      fs := [];
    } else {
      var n := |body| - 1;
      assert body[n] in body && forall a :: a in body[..n] ==> a in body;
      var rest := ChooseFacts(b, body[..n], db, v);
      var f :| f in db && FitsFact(b, body[n], f, v);
      FitsIsAgreement(b, body[n], f, v);
      fs := rest + [f];
      forall k | 0 <= k < |body|
        ensures Agrees(body[k], fs[k], v)
      {
        assert k < n ==> body[..n][k] == body[k] && Agrees(body[..n][k], rest[k], v);
      }
    }
  }

  /** With its variables bound a negated atom is refuted exactly when it holds. */
  lemma RefutedIsHolding(b: Builtins, a: Atom, db: Database, v: Valuation)
    requires !b.scoped && a.p.Const? && TermsVars(a.Terms()) <= v.Keys
    ensures Refuted(a, db, v) <==> AtomHolds(b, a, db, v)
  {
    forall f | f in db
      ensures MatchAtom(a, f, v).Some? <==> FitsFact(b, a, f, v)
    {
      FitsIsAgreement(b, a, f, v);
      AtomMatches(a, f, v, v);
      if MatchAtom(a, f, v).Some? {
        AgreesStays(a, f, v, MatchAtom(a, f, v).value);
      }
    }
  }

  lemma NegationsAgree(b: Builtins, c: Clause, db: Database, v: Valuation)
    requires !b.scoped && c.Valid() && RangeRestricted(AsRule(c)) && v.Keys == Vars(c.body)
    ensures forall a :: a in c.negated ==> (Refuted(a, db, v) <==> AtomHolds(b, a, db, v))
  {
    BodyLiterals(c);
    BoundIsVars(c);
    forall a | a in c.negated
      ensures Refuted(a, db, v) <==> AtomHolds(b, a, db, v)
    {
      assert Negated(a) in AsRule(c).body;
      RefutedIsHolding(b, a, db, v);
    }
  }

  lemma HeadAgrees(head: Atom, f: Quad, v: Valuation)
    requires !head.g.Wildcard?
    ensures HeadFits(head, f, v) <==> Ground(head, v) == Some(f)
  {
  }

  lemma DerivedFires(b: Builtins, c: Clause, db: Database, universe: set<int>, f: Quad, v: Valuation)
    requires !b.scoped && c.Valid() && c.tests == [] && RangeRestricted(AsRule(c)) && !c.head.g.Wildcard?
    requires DerivesBy(b, AsRule(c), db, universe, f, v)
    ensures exists fs :: Fires(c, db, db, fs, f)
  {
    BodyLiterals(c);
    RuleVarsAreVars(c);
    forall a | a in c.body
      ensures AtomHolds(b, a, db, v)
    {
      assert Holds(b, Positive(a), db, v);
    }
    var fs := ChooseFacts(b, c.body, db, v);
    BodyAgreementMatches(c.body, fs, v);
    BodyMatch(c.body, fs);
    assert MatchBody(c.body, fs).value == v;
    NegationsAgree(b, c, db, v);
    forall a | a in c.negated
      ensures !Refuted(a, db, v)
    {
      assert Holds(b, Negated(a), db, v);
    }
    HeadAgrees(c.head, f, v);
    assert Fires(c, db, db, fs, f);
  }

  lemma FiredDerives(b: Builtins, c: Clause, db: Database, universe: set<int>, f: Quad, fs: seq<Quad>)
    requires !b.scoped && c.Valid() && c.tests == [] && RangeRestricted(AsRule(c)) && !c.head.g.Wildcard?
    requires ActiveDomain(db) <= universe && Fires(c, db, db, fs, f)
    ensures Derives(b, AsRule(c), db, universe, f)
  {
    var rule, v := AsRule(c), MatchBody(c.body, fs).value;
    BodyLiterals(c);
    RuleVarsAreVars(c);
    BoundIsVars(c);
    BodyMatch(c.body, fs);
    NegationsAgree(b, c, db, v);
    forall lit | lit in rule.body
      ensures Holds(b, lit, db, v)
    {
      if lit.Positive? {
        var k :| 0 <= k < |c.body| && c.body[k] == lit.atom;
        FitsIsAgreement(b, c.body[k], fs[k], v);
      }
    }
    forall x | x in v
      ensures v[x] in universe
    {
      BoundValueActive(b, rule, db, v, x);
    }
    HeadAgrees(c.head, f, v);
    assert DerivesBy(b, rule, db, universe, f, v);
  }

  /**
    For an accepted rule, over any universe with the active domain, both definitions derive the
    same facts.
    */
  lemma FiresExactlyWhenDerived(b: Builtins, c: Clause, db: Database, universe: set<int>, f: Quad)
    requires !b.scoped && c.Valid() && c.tests == [] && Issues(AsRule(c)) == [] && !c.head.g.Wildcard?
    requires ActiveDomain(db) <= universe
    ensures Derives(b, AsRule(c), db, universe, f) <==> exists fs :: Fires(c, db, db, fs, f)
  {
    NoIssuesMeansRestricted(AsRule(c));
    if Derives(b, AsRule(c), db, universe, f) {
      var v :| DerivesBy(b, AsRule(c), db, universe, f, v);
      DerivedFires(b, c, db, universe, f, v);
    }
    if fs :| Fires(c, db, db, fs, f) {
      FiredDerives(b, c, db, universe, f, fs);
    }
  }
}
