/**
  The reference-counted delta filter: 1024 bits with a saturating 8-bit counter each.
  A predicate owns two positions (which may coincide, and which it shares with others);
  marking it sets both bits and counts up, unmarking counts down and clears a bit whose
  counter reaches zero.  A reset clears the bits and leaves the counters.
  */
module BloomModel {
  import opened Prelude

  const POSITIONS: nat := 1024
  const TOP: nat := 255

  datatype Predicate = Predicate(id: bv64, first: nat, second: nat) {
    ghost predicate Valid() {
      first < POSITIONS && second < POSITIONS
    }

    /** How often marking this predicate counts position `i`. */
    function Hits(i: nat): nat {
      One(first == i) + One(second == i)
    }
  }

  datatype Filter = Filter(bits: seq<bool>, counters: seq<nat>) {
    ghost predicate Valid() {
      |bits| == |counters| == POSITIONS && forall i :: 0 <= i < POSITIONS ==> counters[i] <= TOP
    }
  }

  function NoBits(): seq<bool> {
    seq(POSITIONS, i => false)
  }

  function EmptyFilter(): Filter {
    Filter(NoBits(), seq(POSITIONS, i => 0))
  }

  function Up(c: nat): nat {
    if c < TOP then c + 1 else c
  }

  function Down(c: nat): nat {
    if c > 0 then c - 1 else c
  }

  datatype Op = Marked(p: Predicate) | Unmarked(p: Predicate) | Reset

  ghost predicate ValidOps(ops: seq<Op>) {
    forall j :: 0 <= j < |ops| && !ops[j].Reset? ==> ops[j].p.Valid()
  }

  function Mark(f: Filter, p: Predicate): (r: Filter)
    requires f.Valid() && p.Valid()
    ensures r.Valid()
  {
    var counted := f.counters[p.first := Up(f.counters[p.first])];
    Filter(f.bits[p.first := true][p.second := true], counted[p.second := Up(counted[p.second])])
  }

  function Unmark(f: Filter, p: Predicate): (r: Filter)
    requires f.Valid() && p.Valid()
    ensures r.Valid()
  {
    var counted := f.counters[p.first := Down(f.counters[p.first])];
    var counters := counted[p.second := Down(counted[p.second])];
    var bits := if counters[p.first] == 0 then f.bits[p.first := false] else f.bits;
    Filter(if counters[p.second] == 0 then bits[p.second := false] else bits, counters)
  }

  function Step(f: Filter, op: Op): (r: Filter)
    requires f.Valid() && (op.Reset? || op.p.Valid())
    ensures r.Valid()
  {
    match op
    case Marked(p) => Mark(f, p)
    case Unmarked(p) => Unmark(f, p)
    case Reset => Filter(NoBits(), f.counters)
  }

  function MayHaveDelta(f: Filter, p: Predicate): bool
    requires f.Valid() && p.Valid()
  {
    f.bits[p.first] || f.bits[p.second]
  }

  function Run(ops: seq<Op>): (f: Filter)
    requires ValidOps(ops)
    ensures f.Valid()
  {
    if ops == [] then EmptyFilter() else Step(Run(ops[..|ops| - 1]), ops[|ops| - 1])
  }

  // ------------------------------------------------------------------------------
  // What a run still owes
  // ------------------------------------------------------------------------------

  /** Marks of `p` since the last reset that no unmark has taken back. */
  function Outstanding(ops: seq<Op>, p: Predicate): int {
    if ops == [] then 0 else
      var before, op := Outstanding(ops[..|ops| - 1], p), ops[|ops| - 1];
      if op.Reset? then 0
      else if op.p != p then before
      else if op.Marked? then before + 1
      else before - 1
  }

  /** Every unmark takes back a mark. */
  ghost predicate Balanced(ops: seq<Op>) {
    forall j :: 0 <= j < |ops| && ops[j].Unmarked? ==> Outstanding(ops[..j], ops[j].p) > 0
  }

  /** The outstanding marks at position `i`, of all predicates that share it. */
  function Load(ops: seq<Op>, i: nat): int {
    if ops == [] then 0 else
      var before, op := Load(ops[..|ops| - 1], i), ops[|ops| - 1];
      if op.Reset? then 0
      else if op.Marked? then before + op.p.Hits(i)
      else before - op.p.Hits(i)
  }

  ghost predicate WithinRange(ops: seq<Op>) {
    forall j, i :: 0 <= j <= |ops| && 0 <= i < POSITIONS ==> Load(ops[..j], i) <= TOP
  }

  /** The outstanding marks of `p` at position `i`, once for each of its positions there. */
  function Share(ops: seq<Op>, p: Predicate, i: nat): int {
    (if p.first == i then Outstanding(ops, p) else 0) + (if p.second == i then Outstanding(ops, p) else 0)
  }

  function SumOver(ps: seq<Predicate>, ops: seq<Op>, i: nat): int {
    if ps == [] then 0 else Share(ops, ps[0], i) + SumOver(ps[1..], ops, i)
  }

  ghost predicate Covers(ps: seq<Predicate>, ops: seq<Op>) {
    forall j :: 0 <= j < |ops| && !ops[j].Reset? ==> ops[j].p in ps
  }

  lemma {:induction false} SumStep(ps: seq<Predicate>, ops: seq<Op>, op: Op, i: nat)
    requires Distinct(ps) && !op.Reset?
    ensures op.p !in ps ==> SumOver(ps, ops + [op], i) == SumOver(ps, ops, i)
    ensures op.p in ps && op.Marked? ==> SumOver(ps, ops + [op], i) == SumOver(ps, ops, i) + op.p.Hits(i)
    ensures op.p in ps && op.Unmarked? ==> SumOver(ps, ops + [op], i) == SumOver(ps, ops, i) - op.p.Hits(i)
  {
    if ps != [] {
      assert (ops + [op])[..|ops|] == ops;
      assert Distinct(ps[1..]);
      SumStep(ps[1..], ops, op, i);
      if op.p == ps[0] {
        assert op.p !in ps[1..];
      }
    }
  }

  lemma {:induction false} SumAfterReset(ps: seq<Predicate>, ops: seq<Op>, i: nat)
    ensures SumOver(ps, ops + [Reset], i) == 0 == SumOver(ps, [], i)
  {
    if ps != [] {
      SumAfterReset(ps[1..], ops, i);
    }
  }

  /** The load of a position is the sum of the outstanding marks of the predicates that share it. */
  lemma {:induction false} LoadIsSum(ps: seq<Predicate>, ops: seq<Op>, i: nat)
    requires Distinct(ps) && Covers(ps, ops)
    ensures Load(ops, i) == SumOver(ps, ops, i)
  {
    if ops == [] {
      SumAfterReset(ps, [], i);
    } else {
      var before, op := ops[..|ops| - 1], ops[|ops| - 1];
      assert ops == before + [op];
      LoadIsSum(ps, before, i);
      if op.Reset? {
        SumAfterReset(ps, before, i);
      } else {
        SumStep(ps, before, op, i);
      }
    }
  }

  lemma PrefixBalanced(ops: seq<Op>)
    requires Balanced(ops) && ops != []
    ensures Balanced(ops[..|ops| - 1])
  {
    assert forall j :: 0 <= j < |ops| ==> ops[..|ops| - 1][..j] == ops[..j];
  }

  lemma {:induction false} OutstandingNotNegative(ops: seq<Op>, p: Predicate)
    requires Balanced(ops)
    ensures Outstanding(ops, p) >= 0
  {
    if ops != [] {
      PrefixBalanced(ops);
      OutstandingNotNegative(ops[..|ops| - 1], p);
    }
  }

  lemma {:induction false} SumAtLeast(ps: seq<Predicate>, ops: seq<Op>, i: nat, p: Predicate)
    requires Balanced(ops)
    ensures SumOver(ps, ops, i) >= 0
    ensures p in ps ==> SumOver(ps, ops, i) >= Share(ops, p, i)
  {
    if ps != [] {
      OutstandingNotNegative(ops, ps[0]);
      SumAtLeast(ps[1..], ops, i, p);
    }
  }

  /** A duplicate-free list of the predicates of a run, with `p` among them. */
  lemma {:induction false} PredicatesOf(ops: seq<Op>, p: Predicate) returns (ps: seq<Predicate>)
    ensures Distinct(ps) && Covers(ps, ops) && p in ps
  {
    if ops == [] {
      ps := [p];
    } else {
      ps := PredicatesOf(ops[..|ops| - 1], p);
      var op := ops[|ops| - 1];
      if !op.Reset? && op.p !in ps {
        ps := ps + [op.p];
      }
      assert forall j :: 0 <= j < |ops| - 1 ==> ops[j] == ops[..|ops| - 1][j];
    }
  }

  /** A position carries at least the outstanding marks of each predicate that owns it. */
  lemma LoadAtLeast(ops: seq<Op>, p: Predicate, i: nat)
    requires Balanced(ops)
    ensures Load(ops, i) >= Share(ops, p, i) >= 0
  {
    var ps := PredicatesOf(ops, p);
    LoadIsSum(ps, ops, i);
    SumAtLeast(ps, ops, i, p);
    OutstandingNotNegative(ops, p);
  }

  // ------------------------------------------------------------------------------
  // No false negatives
  // ------------------------------------------------------------------------------

  ghost predicate CountersCover(ops: seq<Op>, i: nat)
    requires ValidOps(ops) && i < POSITIONS
  {
    Run(ops).counters[i] >= Load(ops, i) >= 0 && (Load(ops, i) > 0 ==> Run(ops).bits[i])
  }

  lemma PrefixWithinRange(ops: seq<Op>)
    requires WithinRange(ops) && ops != []
    ensures WithinRange(ops[..|ops| - 1])
    ensures forall i :: 0 <= i < POSITIONS ==> Load(ops, i) <= TOP
  {
    var before := ops[..|ops| - 1];
    forall j, i | 0 <= j <= |before| && 0 <= i < POSITIONS
      ensures Load(before[..j], i) <= TOP
    {
      assert before[..j] == ops[..j];
    }
    assert ops[..|ops|] == ops;
  }

  /**
    In every run of marks, unmarks and resets in which an unmark takes back a mark and no
    position carries more than 255 marks, the counters cover the marks; without resets
    they count them exactly.
    */
  lemma {:induction false} CountersCountMarks(ops: seq<Op>, i: nat)
    requires ValidOps(ops) && Balanced(ops) && WithinRange(ops) && i < POSITIONS
    ensures CountersCover(ops, i)
    ensures Reset !in ops ==> Run(ops).counters[i] == Load(ops, i)
  {
    if ops != [] {
      var before, op := ops[..|ops| - 1], ops[|ops| - 1];
      PrefixBalanced(ops);
      PrefixWithinRange(ops);
      CountersCountMarks(before, i);
      if op.Unmarked? {
        assert before == ops[..|before|];
        LoadAtLeast(before, op.p, i);
        assert Load(before, i) >= op.p.Hits(i);
      }
      assert ops[..|ops|] == ops;
      StepCounts(Run(before), op, i, Load(before, i));
    }
  }

  /** One step moves a counter as it moves the load, within range. */
  lemma StepCounts(f: Filter, op: Op, i: nat, load: int)
    requires f.Valid() && (op.Reset? || op.p.Valid()) && i < POSITIONS
    requires f.counters[i] >= load >= 0 && (load > 0 ==> f.bits[i])
    requires op.Marked? ==> load + op.p.Hits(i) <= TOP
    requires op.Unmarked? ==> load >= op.p.Hits(i)
    ensures var after, g := if op.Reset? then 0 else if op.Marked? then load + op.p.Hits(i) else load - op.p.Hits(i), Step(f, op);
            && g.counters[i] >= after >= 0 && (after > 0 ==> g.bits[i])
            && (f.counters[i] == load && !op.Reset? ==> g.counters[i] == after)
  {
  }

  /** A predicate with an outstanding mark is never reported clean. */
  lemma NoFalseNegative(ops: seq<Op>, p: Predicate)
    requires ValidOps(ops) && Balanced(ops) && WithinRange(ops) && p.Valid()
    requires Outstanding(ops, p) > 0
    ensures MayHaveDelta(Run(ops), p)
  {
    LoadAtLeast(ops, p, p.first);
    CountersCountMarks(ops, p.first);
  }

  lemma StepKeepsBits(f: Filter, op: Op, i: nat)
    requires f.Valid() && !op.Reset? && op.p.Valid() && i < POSITIONS
    requires f.bits[i] <==> f.counters[i] > 0
    ensures Step(f, op).bits[i] <==> Step(f, op).counters[i] > 0
  {
    var g, p := Step(f, op), op.p;
    if op.Marked? {
      assert g.bits[i] == (f.bits[i] || i == p.first || i == p.second);
      assert g.counters[i] > 0 <==> f.counters[i] > 0 || i == p.first || i == p.second;
    } else if i != p.first && i != p.second {
      assert g.bits[i] == f.bits[i] && g.counters[i] == f.counters[i];
    } else {
      assert g.bits[i] == (f.bits[i] && g.counters[i] > 0);
      assert g.counters[i] > 0 ==> f.counters[i] > 0;
    }
  }

  /** In every run without a reset, balanced or not, a bit is set exactly when its counter is positive. */
  lemma {:induction false} BitsTrackCounters(ops: seq<Op>, i: nat)
    requires ValidOps(ops) && Reset !in ops && i < POSITIONS
    ensures Run(ops).bits[i] <==> Run(ops).counters[i] > 0
  {
    if ops != [] {
      BitsTrackCounters(ops[..|ops| - 1], i);
      StepKeepsBits(Run(ops[..|ops| - 1]), ops[|ops| - 1], i);
    }
  }

  // ------------------------------------------------------------------------------
  // Where the conditions bite
  // ------------------------------------------------------------------------------

  function Repeat(op: Op, n: nat): (ops: seq<Op>)
    ensures |ops| == n && forall j :: 0 <= j < n ==> ops[j] == op
  {
    seq(n, _ => op)
  }

  lemma {:induction false} MarkedOften(p: Predicate, n: nat)
    requires p.Valid() && p.first != p.second
    ensures var f := Run(Repeat(Marked(p), n));
            f.counters[p.first] == f.counters[p.second] == Min(n, TOP)
  {
    if n > 0 {
      assert Repeat(Marked(p), n)[..n - 1] == Repeat(Marked(p), n - 1);
      MarkedOften(p, n - 1);
    }
  }

  lemma {:induction false} ThenUnmarked(p: Predicate, n: nat, k: nat)
    requires p.Valid() && p.first != p.second
    ensures var f := Run(Repeat(Marked(p), n) + Repeat(Unmarked(p), k));
            f.counters[p.first] == f.counters[p.second] == if k < Min(n, TOP) then Min(n, TOP) - k else 0
  {
    var marks, ops := Repeat(Marked(p), n), Repeat(Marked(p), n) + Repeat(Unmarked(p), k);
    if k == 0 {
      assert ops == marks;
      MarkedOften(p, n);
    } else {
      assert ops[..|ops| - 1] == marks + Repeat(Unmarked(p), k - 1);
      ThenUnmarked(p, n, k - 1);
    }
  }

  /** After `n` marks and `n - 1` unmarks the remaining mark is seen exactly when `n` fits the counter. */
  lemma SaturationIsTheLimit(p: Predicate, n: nat)
    requires p.Valid() && p.first != p.second && n > 0
    ensures MayHaveDelta(Run(Repeat(Marked(p), n) + Repeat(Unmarked(p), n - 1)), p) <==> n <= TOP
  {
    var ops := Repeat(Marked(p), n) + Repeat(Unmarked(p), n - 1);
    ThenUnmarked(p, n, n - 1);
    BitsTrackCounters(ops, p.first);
    BitsTrackCounters(ops, p.second);
  }

  /** An unmark without a mark takes a mark from a predicate that shares both positions. */
  lemma StrayUnmarkHidesAnother(p: Predicate, q: Predicate)
    requires p.Valid() && q.Valid() && p != q
    requires {p.first, p.second} == {q.first, q.second}
    ensures Outstanding([Marked(q), Unmarked(p)], q) == 1
    ensures !MayHaveDelta(Run([Marked(q), Unmarked(p)]), q)
  {
    var ops := [Marked(q), Unmarked(p)];
    assert ops[..1] == [Marked(q)] && ops[..1][..0] == [];
    assert Outstanding(ops[..1], q) == Outstanding(ops[..1][..0], q) + 1 == 1;
    assert p.first in {q.first, q.second} && p.second in {q.first, q.second};
    assert q.first in {p.first, p.second} && q.second in {p.first, p.second};
    var marked := Run(ops[..1]);
    assert marked == Step(Run([]), Marked(q)) == Mark(EmptyFilter(), q);
    assert marked.counters[q.first] == marked.counters[q.second] == One(q.first == q.second) + 1;
    assert Run(ops) == Unmark(marked, p);
    assert Run(ops).counters[q.first] == Run(ops).counters[q.second] == 0;
  }

  // ------------------------------------------------------------------------------
  // Exactly when a marked predicate can be hidden
  // ------------------------------------------------------------------------------

  ghost predicate OnlyUnmarks(more: seq<Op>) {
    forall j :: 0 <= j < |more| ==> more[j].Unmarked? && more[j].p.Valid()
  }

  /** What a series of unmarks takes from position `i`. */
  function Taken(more: seq<Op>, i: nat): nat {
    if more == [] then 0
    else Taken(more[..|more| - 1], i) + if more[|more| - 1].Unmarked? then more[|more| - 1].p.Hits(i) else 0
  }

  lemma UnmarkCountsDown(f: Filter, p: Predicate, i: nat)
    requires f.Valid() && p.Valid() && i < POSITIONS
    ensures Unmark(f, p).counters[i] == if f.counters[i] >= p.Hits(i) then f.counters[i] - p.Hits(i) else 0
  {
  }

  /** Unmarks lower the load by what they take, and the counter likewise, but not below zero. */
  lemma {:induction false} UnmarksCountDown(ops: seq<Op>, more: seq<Op>, i: nat)
    requires ValidOps(ops) && OnlyUnmarks(more) && i < POSITIONS
    ensures ValidOps(ops + more) && Load(ops + more, i) == Load(ops, i) - Taken(more, i)
    ensures Run(ops + more).counters[i]
         == if Run(ops).counters[i] >= Taken(more, i) then Run(ops).counters[i] - Taken(more, i) else 0
  {
    if more == [] {
      assert ops + more == ops;
    } else {
      var n := |more| - 1;
      UnmarksCountDown(ops, more[..n], i);
      assert ops + more == (ops + more[..n]) + [more[n]];
      UnmarkOneMore(ops + more[..n], more[n].p, i);
    }
  }

  lemma UnmarkOneMore(ops: seq<Op>, p: Predicate, i: nat)
    requires ValidOps(ops) && p.Valid() && i < POSITIONS
    ensures var all, c := ops + [Unmarked(p)], Run(ops).counters[i];
            && ValidOps(all) && Load(all, i) == Load(ops, i) - p.Hits(i)
            && Run(all).counters[i] == if c >= p.Hits(i) then c - p.Hits(i) else 0
  {
    assert (ops + [Unmarked(p)])[..|ops|] == ops;
    UnmarkCountsDown(Run(ops), p, i);
  }

  lemma OutstandingOneMore(ops: seq<Op>, op: Op, p: Predicate)
    requires !op.Reset?
    ensures Outstanding(ops + [op], p)
         == Outstanding(ops, p) + if op.p != p then 0 else if op.Marked? then 1 else -1
  {
    assert (ops + [op])[..|ops|] == ops;
  }

  lemma BalancedOneMore(ops: seq<Op>, op: Op)
    requires Balanced(ops) && (op.Unmarked? ==> Outstanding(ops, op.p) > 0)
    ensures Balanced(ops + [op])
  {
    var all := ops + [op];
    forall j | 0 <= j < |all| && all[j].Unmarked?
      ensures Outstanding(all[..j], all[j].p) > 0
    {
      assert all[..j] == ops[..j];
      assert j == |ops| ==> ops[..j] == ops;
    }
  }

  /** Unmarks that leave `k` marks of `q`, and those of all others. */
  lemma {:induction false} UnmarkDownTo(ops: seq<Op>, q: Predicate, k: nat) returns (more: seq<Op>)
    requires Balanced(ops) && q.Valid() && Outstanding(ops, q) >= k
    ensures OnlyUnmarks(more) && Balanced(ops + more)
    ensures forall r :: Outstanding(ops + more, r) == if r == q then k else Outstanding(ops, r)
    decreases Outstanding(ops, q) - k
  {
    if Outstanding(ops, q) == k {
      more := [];
      assert ops + more == ops;
    } else {
      var once := ops + [Unmarked(q)];
      forall r
        ensures Outstanding(once, r) == Outstanding(ops, r) - One(r == q)
      {
        OutstandingOneMore(ops, Unmarked(q), r);
      }
      BalancedOneMore(ops, Unmarked(q));
      var rest := UnmarkDownTo(once, q, k);
      more := [Unmarked(q)] + rest;
      assert ops + more == once + rest;
    }
  }

  /** Unmarks that leave one mark of `p` and none of the others listed. */
  lemma {:induction false} UnmarkAllBut(ops: seq<Op>, p: Predicate, ps: seq<Predicate>) returns (more: seq<Op>)
    requires Balanced(ops) && Distinct(ps) && (forall q :: q in ps ==> q.Valid()) && Outstanding(ops, p) > 0
    ensures OnlyUnmarks(more) && Balanced(ops + more)
    ensures forall q :: Outstanding(ops + more, q) == if q in ps then One(q == p) else Outstanding(ops, q)
    decreases |ps|
  {
    if ps == [] {
      more := [];
      assert ops + more == ops;
    } else {
      OutstandingNotNegative(ops, ps[0]);
      var first := UnmarkDownTo(ops, ps[0], One(ps[0] == p));
      var rest := UnmarkAllBut(ops + first, p, ps[1..]);
      more := first + rest;
      assert ops + more == (ops + first) + rest;
      assert ps[0] !in ps[1..];
    }
  }

  lemma {:induction false} SumOfOne(ps: seq<Predicate>, ops: seq<Op>, p: Predicate, i: nat)
    requires Distinct(ps) && forall q :: q in ps ==> Outstanding(ops, q) == One(q == p)
    ensures SumOver(ps, ops, i) == if p in ps then p.Hits(i) else 0
  {
    if ps != [] {
      assert Distinct(ps[1..]) && ps[0] !in ps[1..] && forall q :: q in ps[1..] ==> q in ps;
      SumOfOne(ps[1..], ops, p, i);
    }
  }

  /** Unmarks down to a single mark of `p`: after them only that mark loads the positions. */
  lemma LeaveOneMark(ops: seq<Op>, p: Predicate) returns (more: seq<Op>)
    requires ValidOps(ops) && Balanced(ops) && p.Valid() && Outstanding(ops, p) > 0
    ensures OnlyUnmarks(more) && Balanced(ops + more) && Outstanding(ops + more, p) == 1
    ensures forall i :: Load(ops + more, i) == p.Hits(i)
  {
    var ps := PredicatesOf(ops, p);
    var valid := ValidOnes(ps);
    forall q | q in ps && !q.Valid()
      ensures Outstanding(ops, q) == 0
    {
      NeverMarked(ops, q);
    }
    more := UnmarkAllBut(ops, p, valid);
    var all := PredicatesOf(ops + more, p);
    forall i
      ensures Load(ops + more, i) == p.Hits(i)
    {
      LoadIsSum(all, ops + more, i);
      forall q | q in all
        ensures Outstanding(ops + more, q) == One(q == p)
      {
        if q !in valid {
          if q in ps {
            assert !q.Valid();
          } else {
            NeverMentioned(ops, q, ps);
          }
        }
      }
      SumOfOne(all, ops + more, p, i);
    }
  }

  lemma {:induction false} ValidOnes(ps: seq<Predicate>) returns (valid: seq<Predicate>)
    requires Distinct(ps)
    ensures Distinct(valid) && forall q :: q in valid <==> q in ps && q.Valid()
  {
    if ps == [] {
      valid := [];
    } else {
      var n := |ps| - 1;
      assert ps == ps[..n] + [ps[n]] && ps[n] !in ps[..n];
      valid := ValidOnes(ps[..n]);
      if ps[n].Valid() {
        valid := valid + [ps[n]];
      }
    }
  }

  lemma {:induction false} NeverMarked(ops: seq<Op>, q: Predicate)
    requires ValidOps(ops) && !q.Valid()
    ensures Outstanding(ops, q) == 0
  {
    if ops != [] {
      NeverMarked(ops[..|ops| - 1], q);
    }
  }

  lemma {:induction false} NeverMentioned(ops: seq<Op>, q: Predicate, ps: seq<Predicate>)
    requires Covers(ps, ops) && q !in ps
    ensures Outstanding(ops, q) == 0
  {
    if ops != [] {
      NeverMentioned(ops[..|ops| - 1], q, ps);
    }
  }

  /** Unmarks that take back marks only, and after which a mark of `p` is left and not seen. */
  ghost predicate Hides(ops: seq<Op>, more: seq<Op>, p: Predicate)
    requires ValidOps(ops) && p.Valid()
  {
    && OnlyUnmarks(more) && Balanced(ops + more) && Outstanding(ops + more, p) > 0
    && ValidOps(ops + more) && !MayHaveDelta(Run(ops + more), p)
  }

  /** The counter at each of its positions is short of the load by what a mark of `p` counts there. */
  predicate Short(ops: seq<Op>, p: Predicate)
    requires ValidOps(ops) && p.Valid()
  {
    && Run(ops).counters[p.first] + p.Hits(p.first) <= Load(ops, p.first)
    && Run(ops).counters[p.second] + p.Hits(p.second) <= Load(ops, p.second)
  }

  lemma HiddenMeansShort(ops: seq<Op>, more: seq<Op>, p: Predicate, i: nat)
    requires ValidOps(ops) && Balanced(ops) && Reset !in ops && p.Valid() && Hides(ops, more, p)
    requires i == p.first || i == p.second
    ensures Run(ops).counters[i] + p.Hits(i) <= Load(ops, i)
  {
    UnmarksCountDown(ops, more, i);
    assert Reset !in ops + more;
    BitsTrackCounters(ops + more, i);
    LoadAtLeast(ops + more, p, i);
    assert Share(ops + more, p, i) >= p.Hits(i);
  }

  /**
    In a balanced run without reset, further unmarks can hide a marked predicate exactly when
    both of its counters have fallen short of their loads.  For two distinct positions that
    is: both counters are below their loads.
    */
  lemma HiddenByUnmarksExactlyWhen(ops: seq<Op>, p: Predicate)
    requires ValidOps(ops) && Balanced(ops) && Reset !in ops && p.Valid() && Outstanding(ops, p) > 0
    ensures (exists more :: Hides(ops, more, p)) <==> Short(ops, p)
    ensures p.first != p.second ==>
              (Short(ops, p) <==> Run(ops).counters[p.first] < Load(ops, p.first) && Run(ops).counters[p.second] < Load(ops, p.second))
  {
    if more :| Hides(ops, more, p) {
      HiddenMeansShort(ops, more, p, p.first);
      HiddenMeansShort(ops, more, p, p.second);
    }
    if Short(ops, p) {
      var more := LeaveOneMark(ops, p);
      UnmarksCountDown(ops, more, p.first);
      UnmarksCountDown(ops, more, p.second);
      assert Reset !in ops + more;
      BitsTrackCounters(ops + more, p.first);
      BitsTrackCounters(ops + more, p.second);
      assert Hides(ops, more, p);
    }
  }

  lemma {:induction false} MarkedMore(ops: seq<Op>, p: Predicate, n: nat)
    requires ValidOps(ops) && Balanced(ops) && Reset !in ops && p.Valid()
    ensures var all := ops + Repeat(Marked(p), n);
            ValidOps(all) && Balanced(all) && Reset !in all && Outstanding(all, p) == Outstanding(ops, p) + n
  {
    var marks := Repeat(Marked(p), n);
    if n == 0 {
      assert ops + marks == ops;
    } else {
      var before := ops + Repeat(Marked(p), n - 1);
      MarkedMore(ops, p, n - 1);
      assert ops + marks == before + [Marked(p)];
      BalancedOneMore(before, Marked(p));
      OutstandingOneMore(before, Marked(p), p);
    }
  }

  /** With marks allowed first, every marked predicate can be hidden: more marks than a counter holds make it short. */
  lemma SaturationHidesAny(ops: seq<Op>, p: Predicate) returns (more: seq<Op>)
    requires ValidOps(ops) && Balanced(ops) && Reset !in ops && p.Valid() && Outstanding(ops, p) > 0
    ensures ValidOps(ops + Repeat(Marked(p), TOP + 1)) && Hides(ops + Repeat(Marked(p), TOP + 1), more, p)
  {
    var all := ops + Repeat(Marked(p), TOP + 1);
    MarkedMore(ops, p, TOP + 1);
    LoadAtLeast(all, p, p.first);
    LoadAtLeast(all, p, p.second);
    HiddenByUnmarksExactlyWhen(all, p);
    more :| Hides(all, more, p);
  }

  // ------------------------------------------------------------------------------
  // Across resets
  // ------------------------------------------------------------------------------

  /** The same run without its resets. */
  function Without(ops: seq<Op>): seq<Op> {
    if ops == [] then []
    else
      var rest, op := Without(ops[..|ops| - 1]), ops[|ops| - 1];
      if op.Reset? then rest else rest + [op]
  }

  lemma {:induction false} WithoutResets(ops: seq<Op>)
    ensures Reset !in Without(ops) && (ValidOps(ops) ==> ValidOps(Without(ops)))
  {
    if ops != [] {
      WithoutResets(ops[..|ops| - 1]);
    }
  }

  lemma WithoutOneMore(ops: seq<Op>)
    requires ops != []
    ensures var op, kept := ops[|ops| - 1], Without(ops);
            && (op.Reset? ==> kept == Without(ops[..|ops| - 1]))
            && (!op.Reset? ==> kept != [] && kept[|kept| - 1] == op && kept[..|kept| - 1] == Without(ops[..|ops| - 1]))
  {
  }

  /** A reset changes no counter, so the marks before it go on counting. */
  lemma {:induction false} CountersOutliveResets(ops: seq<Op>)
    requires ValidOps(ops)
    ensures ValidOps(Without(ops)) && Run(ops).counters == Run(Without(ops)).counters
  {
    WithoutResets(ops);
    if ops != [] {
      var before, op := ops[..|ops| - 1], ops[|ops| - 1];
      CountersOutliveResets(before);
      WithoutOneMore(ops);
      if !op.Reset? {
        SameCounters(Run(before), Run(Without(before)), op);
      }
    }
  }

  lemma SameCounters(f: Filter, g: Filter, op: Op)
    requires f.Valid() && g.Valid() && f.counters == g.counters && !op.Reset? && op.p.Valid()
    ensures Step(f, op).counters == Step(g, op).counters
  {
  }

  /** Some mark of `p` came after the last reset. */
  predicate MarkedSinceReset(ops: seq<Op>, p: Predicate) {
    ops != [] && !ops[|ops| - 1].Reset? && (ops[|ops| - 1] == Marked(p) || MarkedSinceReset(ops[..|ops| - 1], p))
  }

  lemma UnmarkKeepsCounted(f: Filter, q: Predicate, i: nat)
    requires f.Valid() && q.Valid() && i < POSITIONS && f.bits[i] && Unmark(f, q).counters[i] > 0
    ensures Unmark(f, q).bits[i]
  {
  }

  lemma {:induction false} PositionStaysSet(ops: seq<Op>, p: Predicate)
    requires ValidOps(ops) && p.Valid() && MarkedSinceReset(ops, p)
    requires Balanced(Without(ops)) && WithinRange(Without(ops)) && Outstanding(Without(ops), p) > 0
    ensures Run(ops).bits[p.first]
  {
    var before, op := ops[..|ops| - 1], ops[|ops| - 1];
    WithoutOneMore(ops);
    PrefixBalanced(Without(ops));
    PrefixWithinRange(Without(ops));
    if op != Marked(p) {
      PositionStaysSet(before, p);
      if op.Unmarked? {
        CountersOutliveResets(ops);
        CountersCountMarks(Without(ops), p.first);
        LoadAtLeast(Without(ops), p, p.first);
        UnmarkKeepsCounted(Run(before), op.p, p.first);
      }
    }
  }

  /**
    Unmarks may take back marks from before a reset: whoever was marked since then, with marks left over
    the whole run, is still reported.
    */
  lemma NoFalseNegativeAcrossResets(ops: seq<Op>, p: Predicate)
    requires ValidOps(ops) && p.Valid() && MarkedSinceReset(ops, p)
    requires Balanced(Without(ops)) && WithinRange(Without(ops)) && Outstanding(Without(ops), p) > 0
    ensures MayHaveDelta(Run(ops), p)
  {
    PositionStaysSet(ops, p);
  }

  /** After a reset nothing is reported until it shares a position with a new mark. */
  lemma ResetHidesAll(ops: seq<Op>, p: Predicate)
    requires ValidOps(ops) && p.Valid()
    ensures ValidOps(ops + [Reset]) && !MayHaveDelta(Run(ops + [Reset]), p)
  {
    assert (ops + [Reset])[..|ops|] == ops;
  }
}
