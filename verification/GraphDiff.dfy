/**
  Point-in-time views of the temporal facts and the query that compares two of them.  The
  query is written `A EXCEPT B UNION ALL C EXCEPT D`, which SQL reads from the left.
  */
module GraphDiff {
  import opened Prelude
  import opened TemporalStore

  datatype Change = Added | Removed

  datatype Row = Row(t: Triple, change: Change)

  // ------------------------------------------------------------------------------
  // The query
  // ------------------------------------------------------------------------------

  /** SELECT s, p, o, change: one row per valid fact, with repetitions. */
  function Select(facts: seq<Fact>, g: int, t: Time, change: Change): multiset<Row> {
    if facts == [] then multiset{} else
      var f := facts[|facts| - 1];
      Select(facts[..|facts| - 1], g, t, change)
      + if f.g == g && f.ValidAt(t) then multiset{Row(Triple(f.s, f.p, f.o), change)} else multiset{}
  }

  /** EXCEPT removes duplicates and the rows of the second operand. */
  function Except(a: multiset<Row>, b: multiset<Row>): multiset<Row> {
    multiset(set r | r in a && r !in b)
  }

  function Diff(facts: seq<Fact>, g: int, t1: Time, t2: Time): multiset<Row> {
    var a := Select(facts, g, t2, Added);
    var b := Select(facts, g, t1, Added);
    var c := Select(facts, g, t1, Removed);
    var d := Select(facts, g, t2, Removed);
    Except(Except(a, b) + c, d)
  }

  /** The triples of a graph at a moment. */
  function TriplesAt(facts: seq<Fact>, g: int, t: Time): set<Triple> {
    set x | x in View(facts, g, t)
  }

  lemma {:induction false} SelectedRows(facts: seq<Fact>, g: int, t: Time, change: Change, r: Row)
    ensures r in Select(facts, g, t, change) <==> r.change == change && r.t in View(facts, g, t)
  {
    if facts != [] {
      SelectedRows(facts[..|facts| - 1], g, t, change, r);
    }
  }

  /** The tagged symmetric difference of two sets of triples. */
  function Delta(v1: set<Triple>, v2: set<Triple>): set<Row> {
    (set x | x in v2 - v1 :: Row(x, Added)) + (set x | x in v1 - v2 :: Row(x, Removed))
  }

  lemma InDelta(v1: set<Triple>, v2: set<Triple>, r: Row)
    ensures r in Delta(v1, v2) <==> (r.change == Added && r.t in v2 - v1) || (r.change == Removed && r.t in v1 - v2)
  {
  }

  function Rows(m: multiset<Row>): set<Row> {
    set r | r in m
  }

  lemma InExcepts(a: multiset<Row>, b: multiset<Row>, c: multiset<Row>, d: multiset<Row>, r: Row)
    ensures r in Rows(Except(a, b) + c) - Rows(d) <==> ((r in a && r !in b) || r in c) && r !in d
  {
  }

  /** The query yields exactly that, each row once. */
  lemma DiffIsDelta(facts: seq<Fact>, g: int, t1: Time, t2: Time)
    ensures Diff(facts, g, t1, t2) == multiset(Delta(TriplesAt(facts, g, t1), TriplesAt(facts, g, t2)))
    ensures Rows(Diff(facts, g, t1, t2)) == Delta(TriplesAt(facts, g, t1), TriplesAt(facts, g, t2))
  {
    var a, b := Select(facts, g, t2, Added), Select(facts, g, t1, Added);
    var c, d := Select(facts, g, t1, Removed), Select(facts, g, t2, Removed);
    var v1, v2 := TriplesAt(facts, g, t1), TriplesAt(facts, g, t2);
    var rows := Rows(Except(a, b) + c) - Rows(d);
    forall r: Row
      ensures r in rows <==> r in Delta(v1, v2)
    {
      SelectedRows(facts, g, t2, Added, r);
      SelectedRows(facts, g, t1, Added, r);
      SelectedRows(facts, g, t1, Removed, r);
      SelectedRows(facts, g, t2, Removed, r);
      InExcepts(a, b, c, d, r);
      InDelta(v1, v2, r);
    }
    assert rows == Delta(v1, v2);
    assert rows == set r | r in Except(a, b) + c && r !in d;
  }

  // ------------------------------------------------------------------------------
  // Laws of differences
  // ------------------------------------------------------------------------------

  function AddedBy(d: set<Row>): set<Triple> {
    set r | r in d && r.change == Added :: r.t
  }

  function RemovedBy(d: set<Row>): set<Triple> {
    set r | r in d && r.change == Removed :: r.t
  }

  function Apply(v: set<Triple>, d: set<Row>): set<Triple> {
    (v - RemovedBy(d)) + AddedBy(d)
  }

  function Swapped(d: set<Row>): set<Row> {
    set r | r in d :: Row(r.t, if r.change == Added then Removed else Added)
  }

  /** First `d`, then `e`: what the one adds and the other removes cancels. */
  function Then(d: set<Row>, e: set<Row>): set<Row> {
    (set x | x in (AddedBy(d) - RemovedBy(e)) + (AddedBy(e) - RemovedBy(d)) :: Row(x, Added))
    + (set x | x in (RemovedBy(d) - AddedBy(e)) + (RemovedBy(e) - AddedBy(d)) :: Row(x, Removed))
  }

  lemma DeltaParts(v1: set<Triple>, v2: set<Triple>)
    ensures AddedBy(Delta(v1, v2)) == v2 - v1 && RemovedBy(Delta(v1, v2)) == v1 - v2
  {
  }

  /** Applied to the earlier view the difference gives the later one. */
  lemma DiffLeadsToLaterView(facts: seq<Fact>, g: int, t1: Time, t2: Time)
    ensures Apply(TriplesAt(facts, g, t1), Rows(Diff(facts, g, t1, t2))) == TriplesAt(facts, g, t2)
  {
    DiffIsDelta(facts, g, t1, t2);
    DeltaParts(TriplesAt(facts, g, t1), TriplesAt(facts, g, t2));
  }

  lemma DeltaSwaps(v1: set<Triple>, v2: set<Triple>)
    ensures Delta(v2, v1) == Swapped(Delta(v1, v2))
  {
  }

  /** Exchanging the moments exchanges the tags. */
  lemma DiffSwaps(facts: seq<Fact>, g: int, t1: Time, t2: Time)
    ensures Rows(Diff(facts, g, t2, t1)) == Swapped(Rows(Diff(facts, g, t1, t2)))
  {
    DiffIsDelta(facts, g, t1, t2);
    DiffIsDelta(facts, g, t2, t1);
    DeltaSwaps(TriplesAt(facts, g, t1), TriplesAt(facts, g, t2));
  }

  lemma DeltasCompose(v1: set<Triple>, v2: set<Triple>, v3: set<Triple>)
    ensures Delta(v1, v3) == Then(Delta(v1, v2), Delta(v2, v3))
  {
    DeltaParts(v1, v2);
    DeltaParts(v2, v3);
    assert (v2 - v1 - (v2 - v3)) + (v3 - v2 - (v1 - v2)) == v3 - v1;
    assert (v1 - v2 - (v3 - v2)) + (v2 - v3 - (v2 - v1)) == v1 - v3;
  }

  /** Differences compose across a moment in the middle. */
  lemma DiffsCompose(facts: seq<Fact>, g: int, t1: Time, t2: Time, t3: Time)
    ensures Rows(Diff(facts, g, t1, t3)) == Then(Rows(Diff(facts, g, t1, t2)), Rows(Diff(facts, g, t2, t3)))
  {
    DiffIsDelta(facts, g, t1, t2);
    DiffIsDelta(facts, g, t2, t3);
    DiffIsDelta(facts, g, t1, t3);
    DeltasCompose(TriplesAt(facts, g, t1), TriplesAt(facts, g, t2), TriplesAt(facts, g, t3));
  }

  // ------------------------------------------------------------------------------
  // The catalog of snapshots
  // ------------------------------------------------------------------------------

  /** A name in a snapshot IRI: letters, digits, '-', '_' and '.' stay, anything else becomes '_'. */
  function Slug(iri: string, plain: char -> bool): string {
    seq(|iri|, i requires 0 <= i < |iri| => if plain(iri[i]) then iri[i] else '_')
  }

  datatype SnapshotRow = SnapshotRow(graph: string, captured: Time, count: nat, expires: Option<Time>)

  class SnapshotCatalog {
    var rows: map<string, SnapshotRow>

    constructor ()
      ensures rows == map[]
    {
      rows := map[];
    }

    /** Registers the view of a graph; on a name conflict the graph of the row is not updated. */
    method GraphAt(facts: seq<Fact>, graph: string, g: int, t: Time, stamp: string, plain: char -> bool, retention: nat)
      returns (iri: string)
      modifies this
      ensures iri == "urn:snapshot:" + Slug(graph, plain) + ":" + stamp
      ensures rows.Keys == old(rows).Keys + {iri}
      ensures forall k :: k in old(rows) && k != iri ==> rows[k] == old(rows)[k]
      ensures rows[iri].count == |View(facts, g, t)| && rows[iri].captured == t
      ensures rows[iri].expires == if retention > 0 then Some(t + retention * 86400) else None
      ensures rows[iri].graph == if iri in old(rows) then old(rows)[iri].graph else graph
    {
      iri := "urn:snapshot:" + Slug(graph, plain) + ":" + stamp;
      var count := CountValid(facts, g, t);
      var expires := if retention > 0 then Some(t + retention * 86400) else None;
      var owner := if iri in rows then rows[iri].graph else graph;
      rows := rows[iri := SnapshotRow(owner, t, count, expires)];
    }

    /** Drops the rows that have expired. */
    method Prune(now: Time, retention: nat)
      modifies this
      ensures retention == 0 ==> rows == old(rows)
      ensures retention > 0 ==> forall k :: k in rows <==>
                k in old(rows) && (old(rows)[k].expires.None? || old(rows)[k].expires.value > now)
      ensures forall k :: k in rows ==> k in old(rows) && rows[k] == old(rows)[k]
    {
      if retention > 0 {
        rows := map k | k in rows && (rows[k].expires.None? || rows[k].expires.value > now) :: rows[k];
      }
    }
  }

  method CountValid(facts: seq<Fact>, g: int, t: Time) returns (n: nat)
    ensures n == |View(facts, g, t)|
  {
    n := 0;
    for i := 0 to |facts|
      invariant n == |View(facts[..i], g, t)|
    {
      assert facts[..i + 1][..i] == facts[..i];
      if facts[i].g == g && facts[i].ValidAt(t) {
        n := n + 1;
      }
    }
    assert facts[..|facts|] == facts;
  }

  /** A snapshot taken again after any later-dated commands has the same count. */
  lemma SnapshotsAreRepeatable(st: State, commands: seq<Command>, g: int, t: Time)
    requires forall i :: 0 <= i < |commands| ==> DatedAfter(commands[i], t)
    ensures |View(Run(st, commands).facts, g, t)| == |View(st.facts, g, t)|
    ensures TriplesAt(Run(st, commands).facts, g, t) == TriplesAt(st.facts, g, t)
  {
    HistoryIsImmutable(st, commands, g, t);
  }

  /**
    Two graphs share a snapshot name at a moment exactly when they agree wherever either has
    a character other than '_' that the slug keeps.
    */
  lemma NamesCollideExactlyWhen(a: string, b: string, plain: char -> bool)
    ensures Slug(a, plain) == Slug(b, plain)
       <==> |a| == |b| && forall i :: 0 <= i < |a| ==>
              a[i] == b[i] || ((!plain(a[i]) || a[i] == '_') && (!plain(b[i]) || b[i] == '_'))
  {
    if Slug(a, plain) == Slug(b, plain) {
      assert |Slug(a, plain)| == |a| && |Slug(b, plain)| == |b|;
      forall i | 0 <= i < |a|
        ensures a[i] == b[i] || ((!plain(a[i]) || a[i] == '_') && (!plain(b[i]) || b[i] == '_'))
      {
        assert Slug(a, plain)[i] == Slug(b, plain)[i];
      }
    }
  }
}
