/**
  The locks of the shared-memory structures.  Any number of backends run operations; each
  takes its locks one at a time, works, and drops them one at a time in reverse order.
  */
module LockOrder {
  datatype Lock = Bits | Counters | Hashes | Ids

  datatype Request = Request(lock: Lock, exclusive: bool)

  datatype Op = SetDeltaBit | ClearDeltaBit | MayHaveDelta | ResetBloom
              | CacheLookup | CacheInsert | CacheEvict | CacheClearAll | CacheStats

  /** The locks of an operation, in the order it takes them. */
  function Program(op: Op): seq<Request> {
    match op
    case SetDeltaBit => [Request(Bits, true), Request(Counters, true)]
    case ClearDeltaBit => [Request(Counters, true), Request(Bits, true)]
    case MayHaveDelta => [Request(Bits, false)]
    case ResetBloom => [Request(Bits, true)]
    case CacheStats => [Request(Ids, false)]
    case _ => [Request(Hashes, true), Request(Ids, true)]
  }

  /** A backend holds the first `held` locks of its operation. */
  datatype Backend = Idle | Busy(op: Op, held: nat, dropping: bool) {
    predicate Valid() {
      Busy? ==> held <= |Program(op)| && (dropping ==> held < |Program(op)|)
    }

    predicate Holds(r: Request) {
      Busy? && exists k :: 0 <= k < held && k < |Program(op)| && Program(op)[k] == r
    }

    predicate Wants(r: Request) {
      Busy? && !dropping && held < |Program(op)| && Program(op)[held] == r
    }
  }

  type System = seq<Backend>

  predicate Valid(s: System) {
    forall i :: 0 <= i < |s| ==> s[i].Valid()
  }

  predicate Conflict(a: Request, b: Request) {
    a.lock == b.lock && (a.exclusive || b.exclusive)
  }

  /** Backend i waits for a lock that backend j holds. */
  ghost predicate Waits(s: System, i: nat, j: nat)
    requires i < |s| && j < |s|
  {
    i != j && exists a, b :: s[i].Wants(a) && s[j].Holds(b) && Conflict(a, b)
  }

  ghost predicate Blocked(s: System, i: nat)
    requires i < |s|
  {
    exists j: nat :: j < |s| && Waits(s, i, j)
  }

  // ------------------------------------------------------------------------------
  // Runs
  // ------------------------------------------------------------------------------

  datatype Action = Start(op: Op) | Take | Drop

  ghost predicate Enabled(s: System, i: nat, action: Action)
    requires i < |s|
  {
    match action
    case Start(_) => s[i].Idle?
    case Take => s[i].Busy? && !s[i].dropping && s[i].held < |Program(s[i].op)| && !Blocked(s, i)
    case Drop => s[i].Busy? && (s[i].dropping || s[i].held == |Program(s[i].op)|)
  }

  function Next(b: Backend, action: Action): Backend {
    match action
    case Start(op) => Busy(op, 0, false)
    case Take => if b.Idle? then Idle else Busy(b.op, b.held + 1, false)
    case Drop => if b.Idle? || b.held <= 1 then Idle else Busy(b.op, b.held - 1, true)
  }

  datatype Move = Move(i: nat, action: Action)

  /** A run: every move is enabled in the state it is made in. */
  ghost predicate Reaches(s: System, moves: seq<Move>, t: System)
    decreases |moves|
  {
    if moves == [] then s == t
    else
      var n := |moves| - 1;
      exists u :: && Reaches(s, moves[..n], u) && |u| == |t| && moves[n].i < |u|
                  && Enabled(u, moves[n].i, moves[n].action)
                  && t == u[moves[n].i := Next(u[moves[n].i], moves[n].action)]
  }

  predicate AllIdle(s: System) {
    forall i :: 0 <= i < |s| ==> s[i].Idle?
  }

  /** No two backends hold conflicting locks. */
  ghost predicate Exclusive(s: System) {
    forall i, j, a, b :: 0 <= i < |s| && 0 <= j < |s| && i != j && s[i].Holds(a) && s[j].Holds(b) ==> !Conflict(a, b)
  }

  lemma StepKeepsExclusive(s: System, i: nat, action: Action)
    requires Valid(s) && Exclusive(s) && i < |s| && Enabled(s, i, action)
    ensures Valid(s[i := Next(s[i], action)]) && Exclusive(s[i := Next(s[i], action)])
  {
    var t := s[i := Next(s[i], action)];
    forall r: Request | t[i].Holds(r)
      ensures s[i].Holds(r) || s[i].Wants(r)
    {
      var k :| 0 <= k < t[i].held && k < |Program(t[i].op)| && Program(t[i].op)[k] == r;
      if k >= s[i].held {
        assert s[i].Wants(r);
      }
    }
    forall j, a, b | 0 <= j < |s| && j != i && t[i].Holds(a) && t[j].Holds(b)
      ensures !Conflict(a, b)
    {
      if !s[i].Holds(a) {
        assert s[i].Wants(a) && action == Take;
        assert Conflict(a, b) ==> Waits(s, i, j);
      }
    }
  }

  lemma {:induction false} RunsStayExclusive(s: System, moves: seq<Move>, t: System)
    requires AllIdle(s) && Reaches(s, moves, t)
    ensures Valid(t) && Exclusive(t) && |t| == |s|
    decreases |moves|
  {
    if moves != [] {
      var n := |moves| - 1;
      var u: System :| && Reaches(s, moves[..n], u) && |u| == |t| && moves[n].i < |u|
               && Enabled(u, moves[n].i, moves[n].action)
               && t == u[moves[n].i := Next(u[moves[n].i], moves[n].action)];
      RunsStayExclusive(s, moves[..n], u);
      StepKeepsExclusive(u, moves[n].i, moves[n].action);
    }
  }

  // ------------------------------------------------------------------------------
  // Circular waits
  // ------------------------------------------------------------------------------

  /** A closed chain of backends, each waiting for the next. */
  ghost predicate IsCycle(s: System, c: seq<nat>) {
    && |c| >= 2 && c[0] == c[|c| - 1] && (forall n :: 0 <= n < |c| ==> c[n] < |s|)
    && forall n :: 0 <= n < |c| - 1 ==> Waits(s, c[n], c[n + 1])
  }

  ghost predicate CircularWait(s: System) {
    exists c :: IsCycle(s, c)
  }

  /** A backend between the two locks of its operation. */
  predicate HalfWay(b: Backend, op: Op) {
    b == Busy(op, 1, false)
  }

  /** One backend holds the bits and wants the counters, another the other way round. */
  predicate CrossedWriters(s: System) {
    (exists i :: 0 <= i < |s| && HalfWay(s[i], SetDeltaBit)) && (exists j :: 0 <= j < |s| && HalfWay(s[j], ClearDeltaBit))
  }

  /** Positions in an order of the locks; the two filter locks come either way round. */
  function Rank(lock: Lock, countersFirst: bool): nat {
    match lock
    case Hashes => 0
    case Ids => 1
    case Bits => if countersFirst then 1 else 0
    case Counters => if countersFirst then 0 else 1
  }

  function WantRank(b: Backend, countersFirst: bool): int {
    if b.Busy? && !b.dropping && b.held < |Program(b.op)| then Rank(Program(b.op)[b.held].lock, countersFirst) else -1
  }

  ghost predicate Ordered(s: System, countersFirst: bool) {
    forall i :: 0 <= i < |s| ==> !HalfWay(s[i], if countersFirst then SetDeltaBit else ClearDeltaBit)
  }

  lemma UncrossedIsOrdered(s: System)
    requires !CrossedWriters(s)
    ensures Ordered(s, true) || Ordered(s, false)
  {
  }

  /** Along a wait the wanted lock climbs in the order. */
  lemma WaitsClimb(s: System, i: nat, j: nat, countersFirst: bool)
    requires Valid(s) && Ordered(s, countersFirst) && i < |s| && j < |s| && Waits(s, i, j)
    ensures 0 <= WantRank(s[i], countersFirst)
    ensures WantRank(s[j], countersFirst) == -1 || WantRank(s[i], countersFirst) < WantRank(s[j], countersFirst)
  {
    var a, b :| s[i].Wants(a) && s[j].Holds(b) && Conflict(a, b);
    var k :| 0 <= k < s[j].held && k < |Program(s[j].op)| && Program(s[j].op)[k] == b;
    if WantRank(s[j], countersFirst) != -1 {
      assert s[j].held == 1 && k == 0;
      assert HalfWay(s[j], s[j].op);
    }
  }

  lemma {:induction false} CycleClimbs(s: System, c: seq<nat>, n: nat, countersFirst: bool)
    requires Valid(s) && Ordered(s, countersFirst) && IsCycle(s, c) && n < |c| - 1
    ensures WantRank(s[c[0]], countersFirst) + n <= WantRank(s[c[n]], countersFirst)
  {
    if n > 0 {
      CycleClimbs(s, c, n - 1, countersFirst);
      assert Waits(s, c[n - 1], c[n - 1 + 1]) && Waits(s, c[n], c[n + 1]);
      WaitsClimb(s, c[n - 1], c[n], countersFirst);
      WaitsClimb(s, c[n], c[n + 1], countersFirst);
    }
  }

  lemma OrderedHasNoCycle(s: System, c: seq<nat>, countersFirst: bool)
    requires Valid(s) && Ordered(s, countersFirst)
    ensures !IsCycle(s, c)
  {
    if IsCycle(s, c) {
      var n := |c| - 2;
      CycleClimbs(s, c, n, countersFirst);
      assert Waits(s, c[0], c[0 + 1]) && Waits(s, c[n], c[n + 1]);
      WaitsClimb(s, c[0], c[1], countersFirst);
      WaitsClimb(s, c[n], c[0], countersFirst);
      assert false;
    }
  }

  /**
    Backends wait in a circle exactly when one is between the two locks of setting a delta
    bit while another is between the two locks of clearing one.
    */
  lemma CircularWaitExactlyWhen(s: System)
    requires Valid(s)
    ensures CircularWait(s) <==> CrossedWriters(s)
  {
    if CrossedWriters(s) {
      var i: nat :| i < |s| && HalfWay(s[i], SetDeltaBit);
      var j: nat :| j < |s| && HalfWay(s[j], ClearDeltaBit);
      assert s[i].Wants(Request(Counters, true)) && s[j].Wants(Request(Bits, true));
      assert Program(s[i].op)[0] == Request(Bits, true) && Program(s[j].op)[0] == Request(Counters, true);
      assert s[i].Holds(Request(Bits, true)) && s[j].Holds(Request(Counters, true));
      assert Waits(s, i, j) && Waits(s, j, i);
      assert IsCycle(s, [i, j, i]);
    } else {
      UncrossedIsOrdered(s);
      var countersFirst := Ordered(s, true);
      forall c
        ensures !IsCycle(s, c)
      {
        OrderedHasNoCycle(s, c, countersFirst);
      }
    }
  }

  /** Without crossed writers whoever is blocked is blocked, in the end, by someone who can move. */
  lemma {:induction false} SomeoneCanMove(s: System, i: nat, countersFirst: bool) returns (j: nat, action: Action)
    requires Valid(s) && Ordered(s, countersFirst) && i < |s| && s[i].Busy?
    ensures j < |s| && s[j].Busy? && !action.Start? && Enabled(s, j, action)
    decreases 2 - WantRank(s[i], countersFirst)
  {
    if s[i].dropping || s[i].held == |Program(s[i].op)| {
      j, action := i, Drop;
    } else if Blocked(s, i) {
      var k: nat :| k < |s| && Waits(s, i, k);
      WaitsClimb(s, i, k, countersFirst);
      if WantRank(s[k], countersFirst) == -1 {
        assert s[k].Busy?;
        j, action := k, Drop;
      } else {
        j, action := SomeoneCanMove(s, k, countersFirst);
      }
    } else {
      j, action := i, Take;
    }
  }

  /** In every state of every run without crossed writers, some busy backend can move. */
  lemma NoDeadlock(s: System, moves: seq<Move>, t: System)
    requires AllIdle(s) && Reaches(s, moves, t) && !CrossedWriters(t) && !AllIdle(t)
    ensures exists j: nat, action: Action :: j < |t| && t[j].Busy? && !action.Start? && Enabled(t, j, action)
  {
    RunsStayExclusive(s, moves, t);
    UncrossedIsOrdered(t);
    var i: nat :| i < |t| && !t[i].Idle?;
    var j, action := SomeoneCanMove(t, i, Ordered(t, true));
  }

  // ------------------------------------------------------------------------------
  // Mixes of operations
  // ------------------------------------------------------------------------------

  predicate OpsWithin(moves: seq<Move>, mix: set<Op>) {
    forall n :: 0 <= n < |moves| && moves[n].action.Start? ==> moves[n].action.op in mix
  }

  lemma {:induction false} BusyWithin(s: System, moves: seq<Move>, t: System, mix: set<Op>)
    requires AllIdle(s) && Reaches(s, moves, t) && OpsWithin(moves, mix)
    ensures forall i :: 0 <= i < |t| && t[i].Busy? ==> t[i].op in mix
    decreases |moves|
  {
    if moves != [] {
      var n := |moves| - 1;
      var u: System :| && Reaches(s, moves[..n], u) && |u| == |t| && moves[n].i < |u|
               && Enabled(u, moves[n].i, moves[n].action)
               && t == u[moves[n].i := Next(u[moves[n].i], moves[n].action)];
      BusyWithin(s, moves[..n], u, mix);
    }
  }

  function CrossingMoves(): seq<Move> {
    [Move(0, Start(SetDeltaBit)), Move(1, Start(ClearDeltaBit)), Move(0, Take), Move(1, Take)]
  }

  lemma Extend(s: System, moves: seq<Move>, u: System, m: Move)
    requires Reaches(s, moves, u) && m.i < |u| && Enabled(u, m.i, m.action)
    ensures Reaches(s, moves + [m], u[m.i := Next(u[m.i], m.action)])
  {
  }

  ghost predicate Moves(u: System, m: Move, t: System) {
    m.i < |u| && Enabled(u, m.i, m.action) && t == u[m.i := Next(u[m.i], m.action)]
  }

  lemma FourMoves(s: System, a: Move, s1: System, b: Move, s2: System, c: Move, s3: System, d: Move, s4: System)
    requires Moves(s, a, s1) && Moves(s1, b, s2) && Moves(s2, c, s3) && Moves(s3, d, s4)
    ensures Reaches(s, [a, b, c, d], s4)
  {
    Extend(s, [], s, a);
    Extend(s, [] + [a], s1, b);
    Extend(s, [] + [a] + [b], s2, c);
    Extend(s, [] + [a] + [b] + [c], s3, d);
    assert [] + [a] + [b] + [c] + [d] == [a, b, c, d];
  }

  /** Whoever holds no conflicting lock blocks nobody. */
  lemma FreeToTake(s: System, i: nat, r: Request)
    requires i < |s| && s[i].Wants(r)
    requires forall j, b :: 0 <= j < |s| && j != i && s[j].Holds(b) ==> !Conflict(r, b)
    ensures Enabled(s, i, Take)
  {
  }

  /** Two backends, four moves. */
  lemma WritersCanCross()
    ensures Reaches([Idle, Idle], CrossingMoves(), [Busy(SetDeltaBit, 1, false), Busy(ClearDeltaBit, 1, false)])
  {
    var a0, a1 := Busy(SetDeltaBit, 0, false), Busy(SetDeltaBit, 1, false);
    var b0, b1 := Busy(ClearDeltaBit, 0, false), Busy(ClearDeltaBit, 1, false);
    assert [Idle, Idle][0 := a0] == [a0, Idle];
    assert Moves([Idle, Idle], Move(0, Start(SetDeltaBit)), [a0, Idle]);
    assert [a0, Idle][1 := b0] == [a0, b0];
    assert Moves([a0, Idle], Move(1, Start(ClearDeltaBit)), [a0, b0]);
    FreeToTake([a0, b0], 0, Request(Bits, true));
    assert [a0, b0][0 := a1] == [a1, b0];
    assert Moves([a0, b0], Move(0, Take), [a1, b0]);
    FreeToTake([a1, b0], 1, Request(Counters, true));
    assert [a1, b0][1 := b1] == [a1, b1];
    assert Moves([a1, b0], Move(1, Take), [a1, b1]);
    FourMoves([Idle, Idle], Move(0, Start(SetDeltaBit)), [a0, Idle], Move(1, Start(ClearDeltaBit)), [a0, b0],
              Move(0, Take), [a1, b0], Move(1, Take), [a1, b1]);
  }

  ghost predicate CanDeadlock(mix: set<Op>) {
    exists s, moves, t :: AllIdle(s) && OpsWithin(moves, mix) && Reaches(s, moves, t) && CircularWait(t)
  }

  lemma CrossedState(t: System)
    requires t == [Busy(SetDeltaBit, 1, false), Busy(ClearDeltaBit, 1, false)]
    ensures CircularWait(t)
  {
    assert HalfWay(t[0], SetDeltaBit) && HalfWay(t[1], ClearDeltaBit);
    CircularWaitExactlyWhen(t);
  }

  lemma DeadlockFrom(mix: set<Op>, s: System, moves: seq<Move>, t: System)
    requires AllIdle(s) && OpsWithin(moves, mix) && Reaches(s, moves, t) && CircularWait(t)
    ensures CanDeadlock(mix)
  {
  }

  lemma BothWritersDeadlock(mix: set<Op>)
    requires SetDeltaBit in mix && ClearDeltaBit in mix
    ensures CanDeadlock(mix)
  {
    WritersCanCross();
    CrossedState([Busy(SetDeltaBit, 1, false), Busy(ClearDeltaBit, 1, false)]);
    DeadlockFrom(mix, [Idle, Idle], CrossingMoves(), [Busy(SetDeltaBit, 1, false), Busy(ClearDeltaBit, 1, false)]);
  }

  /**
    A mix of operations can reach a circular wait exactly when it has both filter writers.
    In particular the cache operations, in any number, never do.
    */
  lemma MixDeadlocksExactlyWhen(mix: set<Op>)
    ensures CanDeadlock(mix) <==> SetDeltaBit in mix && ClearDeltaBit in mix
  {
    if SetDeltaBit in mix && ClearDeltaBit in mix {
      BothWritersDeadlock(mix);
    } else if CanDeadlock(mix) {
      var s, moves, t :| AllIdle(s) && OpsWithin(moves, mix) && Reaches(s, moves, t) && CircularWait(t);
      RunsStayExclusive(s, moves, t);
      BusyWithin(s, moves, t, mix);
      CircularWaitExactlyWhen(t);
      assert false;
    }
  }

  /** Once crossed, the two writers stay so in every continuation. */
  lemma {:induction false} CrossedForGood(s: System, moves: seq<Move>, t: System, i: nat, j: nat)
    requires Valid(s) && i < |s| && j < |s| && HalfWay(s[i], SetDeltaBit) && HalfWay(s[j], ClearDeltaBit)
    requires Reaches(s, moves, t)
    ensures |t| == |s| && t[i] == s[i] && t[j] == s[j]
    decreases |moves|
  {
    if moves != [] {
      var n := |moves| - 1;
      var u: System :| && Reaches(s, moves[..n], u) && |u| == |t| && moves[n].i < |u|
               && Enabled(u, moves[n].i, moves[n].action)
               && t == u[moves[n].i := Next(u[moves[n].i], moves[n].action)];
      CrossedForGood(s, moves[..n], u, i, j);
      assert u[i].Wants(Request(Counters, true)) && u[j].Wants(Request(Bits, true));
      assert Program(u[i].op)[0] == Request(Bits, true) && Program(u[j].op)[0] == Request(Counters, true);
      assert u[i].Holds(Request(Bits, true)) && u[j].Holds(Request(Counters, true));
      assert Waits(u, i, j) && Waits(u, j, i);
    }
  }

  // ------------------------------------------------------------------------------
  // Atomicity
  // ------------------------------------------------------------------------------

  predicate CacheWriter(op: Op) {
    op == CacheLookup || op == CacheInsert || op == CacheEvict || op == CacheClearAll
  }

  /**
    At most one backend at a time is inside a cache operation, and none while it holds the
    ids reads statistics: the operations take effect one after the other.
    */
  lemma CacheOperationsExclude(s: System, moves: seq<Move>, t: System, i: nat, j: nat)
    requires AllIdle(s) && Reaches(s, moves, t) && i < |t| && j < |t| && i != j
    requires t[i].Busy? && t[i].held > 0 && CacheWriter(t[i].op)
    requires t[j].Busy? && t[j].held > 0
    ensures !CacheWriter(t[j].op)
    ensures t[i].held == 2 ==> t[j].op != CacheStats
  {
    RunsStayExclusive(s, moves, t);
    var p, q := Program(t[i].op), Program(t[j].op);
    assert t[i].Holds(p[0]) && t[j].Holds(q[0]);
    assert p == [Request(Hashes, true), Request(Ids, true)];
    assert !Conflict(p[0], q[0]);
    if t[i].held == 2 {
      assert t[i].Holds(p[1]);
      assert !Conflict(p[1], q[0]);
    }
  }

  /** What an operation reads or writes while it holds its first `held` locks. */
  predicate Touches(op: Op, held: nat, structure: Lock, writes: bool) {
    match op
    case SetDeltaBit => writes && ((held == 1 && structure == Bits) || (held == 2 && structure == Counters))
    case ClearDeltaBit =>
      || (held == 1 && structure == Counters && writes)
      || (held == 2 && ((structure == Counters && !writes) || (structure == Bits && writes)))
    case MayHaveDelta => held == 1 && structure == Bits && !writes
    case ResetBloom => held == 1 && structure == Bits && writes
    case CacheStats => held == 1 && structure == Ids && !writes
    case CacheLookup => held == 2 && (structure == Hashes || (structure == Ids && !writes))
    case _ => held == 2 && (structure == Hashes || structure == Ids)
  }

  lemma TouchedIsHeld(b: Backend, structure: Lock, writes: bool) returns (r: Request)
    requires b.Valid() && b.Busy? && Touches(b.op, b.held, structure, writes)
    ensures b.Holds(r) && r.lock == structure && (writes ==> r.exclusive)
  {
    var p := Program(b.op);
    var k := if b.held == 2 && p[1].lock == structure then 1 else 0;
    r := p[k];
  }

  /** In every run, whoever writes a structure is the only one to touch it. */
  lemma NoDataRace(s: System, moves: seq<Move>, t: System, i: nat, j: nat, structure: Lock, write: bool)
    requires AllIdle(s) && Reaches(s, moves, t) && i < |t| && j < |t| && i != j && t[i].Busy? && t[j].Busy?
    requires Touches(t[i].op, t[i].held, structure, true)
    ensures !Touches(t[j].op, t[j].held, structure, write)
  {
    RunsStayExclusive(s, moves, t);
    if Touches(t[j].op, t[j].held, structure, write) {
      var a := TouchedIsHeld(t[i], structure, true);
      var b := TouchedIsHeld(t[j], structure, write);
      assert Conflict(a, b);
    }
  }

  predicate Reader(op: Op) {
    op == MayHaveDelta || op == CacheStats
  }

  /** Readers never wait for each other. */
  lemma ReadersShare(s: System, i: nat, j: nat)
    requires Valid(s) && i < |s| && j < |s| && s[i].Busy? && s[j].Busy? && Reader(s[i].op) && Reader(s[j].op)
    ensures !Waits(s, i, j)
  {
  }

  /** Locks are given back one at a time, the last one first. */
  lemma LastLockGoesFirst(b: Backend, r: Request)
    requires b.Valid() && b.Busy?
    ensures Next(b, Drop).Holds(r) <==> exists k :: 0 <= k < b.held - 1 && Program(b.op)[k] == r
  {
  }
}
