/**
  The split storage of triples.  A predicate either lives in the shared `vp_rare` table or
  has dedicated tables: `main` (read-optimised), `delta` (recent writes) and `tombstones`
  (deletions of main rows that are still to be merged).  The abstract value of the store is
  one set of quads.
  */
module TripleStore {
  import opened Prelude

  datatype Tables = Tables(dedicated: set<int>, main: set<Quad>, delta: set<Quad>, tombs: set<Quad>, rare: set<Quad>) {
    /** Rows of dedicated tables belong to predicates that have them. */
    predicate Valid() {
      && (forall q :: q in main ==> q.p in dedicated)
      && (forall q :: q in delta ==> q.p in dedicated)
      && (forall q :: q in tombs ==> q.p in dedicated)
    }

    /** What a reader sees: the view of the dedicated tables and the rare rows. */
    function View(): set<Quad> {
      (main - tombs) + delta + rare
    }

    /** Present twice: in delta and, not tombstoned, in main. */
    predicate Doubled(q: Quad) {
      q in delta && q in main - tombs
    }
  }

  // ------------------------------------------------------------------------------
  // Single operations on tables
  // ------------------------------------------------------------------------------

  function Inserted(t: Tables, q: Quad): Tables {
    if q.p in t.dedicated then t.(delta := t.delta + {q}) else t.(rare := t.rare + {q})
  }

  function Deleted(t: Tables, q: Quad): Tables {
    var u := if q.p !in t.dedicated then t
             else if q in t.delta then t.(delta := t.delta - {q})
             else t.(tombs := t.tombs + {q});
    u.(rare := u.rare - {q})
  }

  /** Merging a predicate: main becomes (main minus tombstones) plus delta. */
  function Merged(t: Tables, p: int): Tables {
    t.(main := (set q | q in t.main && q.p != p) + (set q | q in (t.main - t.tombs) + t.delta && q.p == p),
       delta := (set q | q in t.delta && q.p != p),
       tombs := (set q | q in t.tombs && q.p != p))
  }

  lemma InsertAdds(t: Tables, q: Quad)
    requires t.Valid()
    ensures Inserted(t, q).Valid() && Inserted(t, q).View() == t.View() + {q}
  {
  }

  /** A deletion takes the quad out of the view exactly when it was not present twice. */
  lemma DeleteHidesExactlyWhen(t: Tables, q: Quad)
    requires t.Valid()
    ensures Deleted(t, q).Valid()
    ensures Deleted(t, q).View() == if t.Doubled(q) then t.View() else t.View() - {q}
    ensures q !in Deleted(t, q).View() <==> !t.Doubled(q)
    ensures !Deleted(t, q).Doubled(q)
    ensures forall r :: r != q ==> (Deleted(t, q).Doubled(r) <==> t.Doubled(r))
  {
  }

  lemma MergeKeepsView(t: Tables, p: int)
    requires t.Valid()
    ensures Merged(t, p).Valid() && Merged(t, p).View() == t.View()
    ensures forall q :: Merged(t, p).Doubled(q) ==> q.p != p && t.Doubled(q)
  {
  }

  /** After a merge the predicate's rows are the ones that were visible, all in main; other predicates are left alone. */
  lemma MergeSettles(t: Tables, p: int, q: Quad)
    requires t.Valid()
    ensures var m := Merged(t, p);
            && m.rare == t.rare && m.dedicated == t.dedicated
            && (q.p == p ==> q !in m.delta && q !in m.tombs && (q in m.main <==> (q in t.main && q !in t.tombs) || q in t.delta))
            && (q.p != p ==> (q in m.main <==> q in t.main) && (q in m.delta <==> q in t.delta) && (q in m.tombs <==> q in t.tombs))
  {
  }

  /** An insertion touches the write tables only; a deletion never rewrites main, and leaves a tombstone only for what is not in delta. */
  lemma MainIsOnlyMerged(t: Tables, q: Quad)
    requires t.Valid()
    ensures Inserted(t, q).main == t.main && Inserted(t, q).tombs == t.tombs
    ensures Deleted(t, q).main == t.main
    ensures forall r :: r in Deleted(t, q).tombs <==> r in t.tombs || (r == q && q.p in t.dedicated && q !in t.delta)
  {
  }

  // ------------------------------------------------------------------------------
  // Runs
  // ------------------------------------------------------------------------------

  datatype Op = Insert(q: Quad) | Delete(q: Quad) | Merge(p: int)

  function Step(t: Tables, op: Op): Tables {
    match op
    case Insert(q) => Inserted(t, q)
    case Delete(q) => Deleted(t, q)
    case Merge(p) => Merged(t, p)
  }

  function Run(t: Tables, ops: seq<Op>): Tables {
    if ops == [] then t else Step(Run(t, ops[..|ops| - 1]), ops[|ops| - 1])
  }

  function FlatStep(v: set<Quad>, op: Op): set<Quad> {
    match op
    case Insert(q) => v + {q}
    case Delete(q) => v - {q}
    case Merge(_) => v
  }

  function FlatRun(v: set<Quad>, ops: seq<Op>): set<Quad> {
    if ops == [] then v else FlatStep(FlatRun(v, ops[..|ops| - 1]), ops[|ops| - 1])
  }

  lemma {:induction false} RunsStayValid(t: Tables, ops: seq<Op>)
    requires t.Valid()
    ensures Run(t, ops).Valid() && Run(t, ops).dedicated == t.dedicated
  {
    if ops != [] {
      var u := Run(t, ops[..|ops| - 1]);
      RunsStayValid(t, ops[..|ops| - 1]);
      match ops[|ops| - 1]
      case Insert(q) => InsertAdds(u, q);
      case Delete(q) => DeleteHidesExactlyWhen(u, q);
      case Merge(p) => MergeKeepsView(u, p);
    }
  }

  predicate DeletesMeetSingleRows(t: Tables, ops: seq<Op>) {
    forall i :: 0 <= i < |ops| && ops[i].Delete? ==> !Run(t, ops[..i]).Doubled(ops[i].q)
  }

  /** The tables act as one set throughout a run exactly when no deletion meets a doubled quad. */
  lemma {:induction false} RunRefinesSetExactlyWhen(t: Tables, ops: seq<Op>)
    requires t.Valid()
    ensures (forall n :: 0 <= n <= |ops| ==> Run(t, ops[..n]).View() == FlatRun(t.View(), ops[..n]))
       <==> DeletesMeetSingleRows(t, ops)
  {
    if DeletesMeetSingleRows(t, ops) {
      forall n | 0 <= n <= |ops|
        ensures Run(t, ops[..n]).View() == FlatRun(t.View(), ops[..n])
      {
        PrefixRefines(t, ops, n);
      }
    } else {
      var i :| 0 <= i < |ops| && ops[i].Delete? && Run(t, ops[..i]).Doubled(ops[i].q);
      RunsStayValid(t, ops[..i]);
      assert ops[..i + 1][..i] == ops[..i];
      DeleteHidesExactlyWhen(Run(t, ops[..i]), ops[i].q);
      assert ops[i].q in Run(t, ops[..i + 1]).View() && ops[i].q !in FlatRun(t.View(), ops[..i + 1]);
    }
  }

  lemma {:induction false} PrefixRefines(t: Tables, ops: seq<Op>, n: nat)
    requires t.Valid() && DeletesMeetSingleRows(t, ops) && n <= |ops|
    ensures Run(t, ops[..n]).View() == FlatRun(t.View(), ops[..n])
  {
    if n > 0 {
      var u := Run(t, ops[..n - 1]);
      RunsStayValid(t, ops[..n - 1]);
      PrefixRefines(t, ops, n - 1);
      assert ops[..n][..n - 1] == ops[..n - 1];
      match ops[n - 1]
      case Insert(q) => InsertAdds(u, q);
      case Delete(q) => DeleteHidesExactlyWhen(u, q);
      case Merge(p) => MergeKeepsView(u, p);
    } else {
      assert ops[..0] == [];
    }
  }

  /** The condition above fails as soon as a merged quad is inserted a second time. */
  lemma DeletedQuadStaysVisible(q: Quad)
    ensures var ops := [Insert(q), Merge(q.p), Insert(q), Delete(q)];
            var t := Tables({q.p}, {}, {}, {}, {});
            q in Run(t, ops).View() && q !in FlatRun(t.View(), ops)
  {
    var ops := [Insert(q), Merge(q.p), Insert(q), Delete(q)];
    var t := Tables({q.p}, {}, {}, {}, {});
    assert ops[..3][..2][..1][..0] == [];
    assert ops[..3][..2][..1] == [Insert(q)] && ops[..3][..2] == [Insert(q), Merge(q.p)];
    assert ops[..3] == [Insert(q), Merge(q.p), Insert(q)];
    var one := [Insert(q)];
    var t1 := Run(t, one);
    assert one[..0] == [] && Run(t, one[..0]) == t;
    assert t1 == Inserted(t, q);
    assert t1.delta == {q};
    var t2 := Run(t, [Insert(q), Merge(q.p)]);
    assert t2.main == {q} && t2.delta == {} && t2.tombs == {};
    var t3 := Run(t, ops[..3]);
    assert t3.Doubled(q);
    DeleteHidesExactlyWhen(t3, q);
  }

  // ------------------------------------------------------------------------------
  // The store
  // ------------------------------------------------------------------------------

  class Store {
    var tables: Tables

    constructor (t: Tables)
      ensures tables == t
    {
      tables := t;
    }

    method InsertEncodedTriple(q: Quad)
      requires tables.Valid()
      modifies this
      ensures tables == Inserted(old(tables), q)
      ensures tables.Valid() && tables.View() == old(tables).View() + {q}
    {
      if q.p in tables.dedicated {
        tables := tables.(delta := tables.delta + {q});
      } else {
        tables := tables.(rare := tables.rare + {q});
      }
    }

    /** Returns the number of rows it counts as removed, which includes a main row already tombstoned. */
    method DeleteTriple(q: Quad) returns (deleted: nat)
      requires tables.Valid()
      modifies this
      ensures tables == Deleted(old(tables), q) && tables.Valid()
      ensures tables.View() == if old(tables).Doubled(q) then old(tables).View() else old(tables).View() - {q}
      ensures q in old(tables).View() ==> deleted > 0
      ensures deleted == One(q in old(tables).main + old(tables).delta) + One(q in old(tables).rare)
    {
      DeleteHidesExactlyWhen(tables, q);
      deleted := 0;
      if q.p in tables.dedicated {
        if q in tables.delta {
          tables := tables.(delta := tables.delta - {q});
          deleted := 1;
        } else {
          tables := tables.(tombs := tables.tombs + {q});
          deleted := if q in tables.main then 1 else 0;
        }
      }
      if q in tables.rare {
        deleted := deleted + 1;
      }
      tables := tables.(rare := tables.rare - {q});
    }
  }
}
