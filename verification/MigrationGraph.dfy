/**
  The migration-graph validator: one base version, and migration scripts that must form a
  single chain of strictly increasing versions from the base to the target.
  */
module MigrationGraph {
  import opened Prelude

  datatype Version = Version(major: nat, minor: nat, patch: nat) {
    predicate Below(w: Version) {
      || major < w.major
      || (major == w.major && (minor < w.minor || (minor == w.minor && patch < w.patch)))
    }
  }

  datatype Edge = Edge(source: Version, target: Version)

  /** A file name of the migration directory, as the two patterns and the version check see it. */
  datatype File = Unparseable | BadVersion | Base(v: Version) | Migration(edge: Edge)

  datatype Error =
    | UnparseableName | InvalidVersion | DuplicateBase(v: Version) | DuplicateEdge(edge: Edge) | BaseCount(n: nat)
    | CycleAt(v: Version) | NotForward(edge: Edge) | Ambiguous | Gap(v: Version) | Unreachable

  datatype Graph = Graph(base: Version, migrations: seq<Edge>, paths: map<Version, seq<Edge>>)

  type Adjacency = map<Version, seq<Edge>>

  // ------------------------------------------------------------------------------
  // Walks
  // ------------------------------------------------------------------------------

  ghost predicate IsWalk(edges: seq<Edge>, p: seq<Version>) {
    p != [] && forall i :: 0 <= i < |p| - 1 ==> Edge(p[i], p[i + 1]) in edges
  }

  ghost predicate WalkBetween(edges: seq<Edge>, p: seq<Version>, a: Version, b: Version) {
    IsWalk(edges, p) && p[0] == a && p[|p| - 1] == b
  }

  ghost predicate IsCycle(edges: seq<Edge>, p: seq<Version>) {
    IsWalk(edges, p) && |p| >= 2 && p[0] == p[|p| - 1]
  }

  ghost predicate HasCycle(edges: seq<Edge>) {
    exists p :: IsCycle(edges, p)
  }

  ghost predicate OnCycle(edges: seq<Edge>, v: Version) {
    exists p :: IsCycle(edges, p) && p[0] == v
  }

  ghost predicate Forward(edges: seq<Edge>) {
    forall e :: e in edges ==> e.source.Below(e.target)
  }

  function EdgesOf(p: seq<Version>): seq<Edge> {
    if |p| <= 1 then [] else [Edge(p[0], p[1])] + EdgesOf(p[1..])
  }

  /** The edges are exactly the steps of an increasing chain from `start` to `goal`. */
  ghost predicate IsChain(edges: seq<Edge>, start: Version, goal: Version, c: seq<Version>) {
    && WalkBetween(edges, c, start, goal)
    && (forall i :: 0 <= i < |c| - 1 ==> c[i].Below(c[i + 1]))
    && forall e :: e in edges ==> exists i :: 0 <= i < |c| - 1 && e == Edge(c[i], c[i + 1])
  }

  lemma {:induction false} WalkClimbs(edges: seq<Edge>, p: seq<Version>, i: nat, j: nat)
    requires IsWalk(edges, p) && i < j < |p|
    requires forall k :: 0 <= k < |p| - 1 ==> p[k].Below(p[k + 1])
    ensures p[i].Below(p[j])
    decreases j
  {
    if i < j - 1 {
      WalkClimbs(edges, p, i, j - 1);
    }
    assert p[j - 1].Below(p[j - 1 + 1]);
  }

  lemma ForwardHasNoCycle(edges: seq<Edge>)
    requires Forward(edges)
    ensures !HasCycle(edges)
  {
    if p :| IsCycle(edges, p) {
      WalkClimbs(edges, p, 0, |p| - 1);
    }
  }

  // ------------------------------------------------------------------------------
  // Adjacency
  // ------------------------------------------------------------------------------

  function OutOf(edges: seq<Edge>, v: Version): seq<Edge> {
    if edges == [] then [] else
      var e := edges[|edges| - 1];
      OutOf(edges[..|edges| - 1], v) + if e.source == v then [e] else []
  }

  function Into(edges: seq<Edge>, v: Version): seq<Edge> {
    if edges == [] then [] else
      var e := edges[|edges| - 1];
      Into(edges[..|edges| - 1], v) + if e.target == v then [e] else []
  }

  lemma {:induction false} OutOfMembers(edges: seq<Edge>, v: Version, e: Edge)
    ensures e in OutOf(edges, v) <==> e in edges && e.source == v
  {
    if edges != [] {
      OutOfMembers(edges[..|edges| - 1], v, e);
      assert edges == edges[..|edges| - 1] + [edges[|edges| - 1]];
    }
  }

  lemma {:induction false} IntoMembers(edges: seq<Edge>, v: Version, e: Edge)
    ensures e in Into(edges, v) <==> e in edges && e.target == v
  {
    if edges != [] {
      IntoMembers(edges[..|edges| - 1], v, e);
      assert edges == edges[..|edges| - 1] + [edges[|edges| - 1]];
    }
  }

  function Get(m: Adjacency, v: Version): seq<Edge> {
    if v in m then m[v] else []
  }

  ghost predicate Outgoing(m: Adjacency, edges: seq<Edge>) {
    forall v :: Get(m, v) == OutOf(edges, v)
  }

  ghost predicate Incoming(m: Adjacency, edges: seq<Edge>) {
    forall v :: Get(m, v) == Into(edges, v)
  }

  lemma OutgoingStep(m: Adjacency, edges: seq<Edge>, e: Edge)
    requires Outgoing(m, edges)
    ensures Outgoing(m[e.source := Get(m, e.source) + [e]], edges + [e])
  {
    assert (edges + [e])[..|edges|] == edges;
    forall v
      ensures Get(m[e.source := Get(m, e.source) + [e]], v) == OutOf(edges + [e], v)
    {
      assert Get(m, v) == OutOf(edges, v);
    }
  }

  lemma IncomingStep(m: Adjacency, edges: seq<Edge>, e: Edge)
    requires Incoming(m, edges)
    ensures Incoming(m[e.target := Get(m, e.target) + [e]], edges + [e])
  {
    assert (edges + [e])[..|edges|] == edges;
    forall v
      ensures Get(m[e.target := Get(m, e.target) + [e]], v) == Into(edges + [e], v)
    {
      assert Get(m, v) == Into(edges, v);
    }
  }

  method BuildAdjacency(edges: seq<Edge>) returns (outgoing: Adjacency, incoming: Adjacency)
    ensures Outgoing(outgoing, edges) && Incoming(incoming, edges)
  {
    outgoing, incoming := map[], map[];
    for i := 0 to |edges|
      invariant Outgoing(outgoing, edges[..i]) && Incoming(incoming, edges[..i])
    {
      var e := edges[i];
      assert edges[..i + 1] == edges[..i] + [e];
      OutgoingStep(outgoing, edges[..i], e);
      IncomingStep(incoming, edges[..i], e);
      outgoing := outgoing[e.source := Get(outgoing, e.source) + [e]];
      incoming := incoming[e.target := Get(incoming, e.target) + [e]];
    }
    assert edges[..|edges|] == edges;
  }

  // ------------------------------------------------------------------------------
  // Depth-first search
  // ------------------------------------------------------------------------------

  ghost function Nodes(edges: seq<Edge>): set<Version> {
    (set e | e in edges :: e.source) + (set e | e in edges :: e.target)
  }

  /** Every node comes after all of its successors. */
  ghost predicate FinishedInOrder(edges: seq<Edge>, order: seq<Version>) {
    forall i, e :: 0 <= i < |order| && e in edges && e.source == order[i] ==> e.target in order[..i]
  }

  lemma {:induction false} WalkSinks(edges: seq<Edge>, order: seq<Version>, p: seq<Version>, k: nat, j: nat) returns (m: int)
    requires FinishedInOrder(edges, order) && IsWalk(edges, p) && k < |order| && order[k] == p[0] && j < |p|
    ensures 0 <= m <= k - j && order[m] == p[j]
  {
    if j == 0 {
      m := k;
    } else {
      var n := WalkSinks(edges, order, p, k, j - 1);
      var e := Edge(p[j - 1], p[j - 1 + 1]);
      assert e in edges && e.source == order[n];
      assert e.target in order[..n];
      m :| 0 <= m < n && order[..n][m] == p[j];
    }
  }

  lemma {:induction false} FinishedMeansNoCycle(edges: seq<Edge>, order: seq<Version>, p: seq<Version>, k: nat)
    requires FinishedInOrder(edges, order) && IsCycle(edges, p) && k < |order| && order[k] == p[0]
    ensures false
  {
    var m := WalkSinks(edges, order, p, k, |p| - 1);
    FinishedMeansNoCycle(edges, order, p, m);
  }

  class Search {
    var active: set<Version>
    var done: set<Version>
    ghost var order: seq<Version>

    constructor ()
      ensures active == {} && done == {} && order == []
    {
      active, done, order := {}, {}, [];
    }

    ghost predicate Valid(edges: seq<Edge>)
      reads this
    {
      FinishedInOrder(edges, order) && forall v :: v in done <==> v in order
    }

    /** `path` leads through the active nodes to `node`. */
    method Visit(edges: seq<Edge>, outgoing: Adjacency, node: Version, ghost path: seq<Version>) returns (cycle: Option<Version>)
      requires Valid(edges) && Outgoing(outgoing, edges) && node in Nodes(edges) && active <= Nodes(edges)
      requires IsWalk(edges, path + [node]) && forall v :: v in active <==> v in path
      modifies this
      ensures cycle.None? ==> Valid(edges) && active == old(active) && node in done && old(done) <= done
      ensures cycle.Some? ==> OnCycle(edges, cycle.value)
      decreases Nodes(edges) - active, 1
    {
      if node in active {
        ghost var i :| 0 <= i < |path| && path[i] == node;
        assert IsCycle(edges, (path + [node])[i..]);
        return Some(node);
      }
      if node in done {
        return None;
      }
      active := active + {node};
      cycle := VisitAll(edges, outgoing, node, path);
      if cycle.Some? {
        return;
      }
      active := active - {node};
      FinishNode(edges, order, node);
      done := done + {node};
      order := order + [node];
    }

    method VisitAll(edges: seq<Edge>, outgoing: Adjacency, node: Version, ghost path: seq<Version>) returns (cycle: Option<Version>)
      requires Valid(edges) && Outgoing(outgoing, edges) && node in active && active <= Nodes(edges)
      requires IsWalk(edges, path + [node]) && forall v :: v in active <==> v in path + [node]
      modifies this
      ensures cycle.None? ==> Valid(edges) && active == old(active) && old(done) <= done
      ensures cycle.None? ==> forall e :: e in edges && e.source == node ==> e.target in order
      ensures cycle.Some? ==> OnCycle(edges, cycle.value)
      decreases Nodes(edges) - active, 2
    {
      var choices := Get(outgoing, node);
      ghost var stack := active;
      for i := 0 to |choices|
        invariant Valid(edges) && active == stack && old(done) <= done
        invariant forall e :: e in choices[..i] ==> e.target in done
      {
        var e := choices[i];
        assert e in choices;
        WalkFurther(edges, path, node, e);
        cycle := Visit(edges, outgoing, e.target, path + [node]);
        if cycle.Some? {
          return;
        }
      }
      forall e | e in edges && e.source == node
        ensures e.target in order
      {
        OutOfMembers(edges, node, e);
        assert choices[..|choices|] == choices;
      }
      cycle := None;
    }
  }

  lemma WalkFurther(edges: seq<Edge>, path: seq<Version>, node: Version, e: Edge)
    requires IsWalk(edges, path + [node]) && e in OutOf(edges, node)
    ensures IsWalk(edges, path + [node] + [e.target]) && e in edges && e.source == node
  {
    OutOfMembers(edges, node, e);
  }

  lemma FinishNode(edges: seq<Edge>, order: seq<Version>, node: Version)
    requires FinishedInOrder(edges, order) && forall e :: e in edges && e.source == node ==> e.target in order
    ensures FinishedInOrder(edges, order + [node])
  {
    var longer := order + [node];
    assert forall i :: 0 <= i < |order| ==> longer[..i] == order[..i] && longer[i] == order[i];
    assert longer[..|order|] == order;
  }

  /** The search reports a cycle exactly when there is one. */
  method FindCycle(edges: seq<Edge>, outgoing: Adjacency) returns (cycle: Option<Version>)
    requires Outgoing(outgoing, edges)
    ensures cycle.Some? <==> HasCycle(edges)
    ensures cycle.Some? ==> OnCycle(edges, cycle.value)
  {
    var search := new Search();
    var nodes := (set e | e in edges :: e.source) + (set e | e in edges :: e.target);
    var rest := nodes;
    while rest != {}
      invariant rest <= nodes && search.Valid(edges) && search.active == {} && fresh(search)
      invariant forall v :: v in nodes ==> v in rest || v in search.done
      decreases rest
    {
      var node :| node in rest;
      assert [] + [node] == [node];
      cycle := search.Visit(edges, outgoing, node, []);
      if cycle.Some? {
        return;
      }
      rest := rest - {node};
    }
    if HasCycle(edges) {
      ghost var p :| IsCycle(edges, p);
      assert Edge(p[0], p[0 + 1]) in edges;
      assert p[0] in nodes;
      ghost var k :| 0 <= k < |search.order| && search.order[k] == p[0];
      FinishedMeansNoCycle(edges, search.order, p, k);
    }
    cycle := None;
  }

  // ------------------------------------------------------------------------------
  // Following the only way
  // ------------------------------------------------------------------------------

  ghost predicate OneWayOut(edges: seq<Edge>) {
    forall v :: |OutOf(edges, v)| <= 1
  }

  ghost predicate OneWayIn(edges: seq<Edge>) {
    forall v :: |Into(edges, v)| <= 1
  }

  lemma SameSourceSameEdge(edges: seq<Edge>, a: Edge, b: Edge)
    requires OneWayOut(edges) && a in edges && b in edges && a.source == b.source
    ensures a == b
  {
    OutOfMembers(edges, a.source, a);
    OutOfMembers(edges, a.source, b);
    assert |OutOf(edges, a.source)| <= 1;
  }

  lemma SameTargetSameEdge(edges: seq<Edge>, a: Edge, b: Edge)
    requires OneWayIn(edges) && a in edges && b in edges && a.target == b.target
    ensures a == b
  {
    IntoMembers(edges, a.target, a);
    IntoMembers(edges, a.target, b);
    assert |Into(edges, a.target)| <= 1;
  }

  /** A walk cannot leave a set that is closed under the edges. */
  lemma {:induction false} WalkStaysInside(edges: seq<Edge>, inside: set<Version>, p: seq<Version>, i: nat)
    requires IsWalk(edges, p) && p[0] in inside && i < |p|
    requires forall e :: e in edges && e.source in inside ==> e.target in inside
    ensures p[i] in inside
  {
    if i > 0 {
      WalkStaysInside(edges, inside, p, i - 1);
      assert Edge(p[i - 1], p[i - 1 + 1]) in edges;
    }
  }

  lemma {:induction false} EdgesOfSnoc(p: seq<Version>, v: Version)
    requires p != []
    ensures EdgesOf(p + [v]) == EdgesOf(p) + [Edge(p[|p| - 1], v)]
  {
    if |p| == 1 {
      assert (p + [v])[1..] == [v];
    } else {
      assert (p + [v])[1..] == p[1..] + [v];
      EdgesOfSnoc(p[1..], v);
    }
  }

  /** The walk that `path_from` follows; it meets its goal only at the end. */
  ghost predicate Reaches(edges: seq<Edge>, c: seq<Version>, begin: Version, goal: Version) {
    WalkBetween(edges, c, begin, goal) && forall i :: 0 <= i < |c| - 1 ==> c[i] != goal
  }

  /** Under way along the only walk there is. */
  ghost predicate OnTheWay(edges: seq<Edge>, c: seq<Version>, begin: Version, goal: Version, current: Version, visited: set<Version>) {
    && IsWalk(edges, c) && c[0] == begin && c[|c| - 1] == current
    && (forall v :: v in visited <==> v in c[..|c| - 1])
    && goal !in visited && visited <= Nodes(edges)
    && forall e :: e in edges && e.source in visited ==> e.target in visited || e.target == current
  }

  /** The only way out of `begin` runs in a circle or ends before it reaches the goal. */
  ghost predicate PathFails(edges: seq<Edge>, begin: Version, goal: Version, error: Error) {
    match error
    case CycleAt(v) => HasCycle(edges)
    case Gap(v) => v != goal && OutOf(edges, v) == [] && exists p :: WalkBetween(edges, p, begin, v)
    case _ => false
  }

  method PathFrom(edges: seq<Edge>, outgoing: Adjacency, begin: Version, goal: Version)
    returns (r: Result<seq<Edge>, Error>, ghost c: seq<Version>)
    requires Outgoing(outgoing, edges) && OneWayOut(edges)
    ensures r.Ok? ==> Reaches(edges, c, begin, goal) && r.value == EdgesOf(c)
    ensures r.Err? ==> !exists p :: WalkBetween(edges, p, begin, goal)
    ensures r.Err? ==> PathFails(edges, begin, goal, r.error)
  {
    var ordered: seq<Edge> := [];
    var visited: set<Version> := {};
    var current := begin;
    c := [begin];
    while current != goal
      invariant OnTheWay(edges, c, begin, goal, current, visited) && ordered == EdgesOf(c)
      decreases Nodes(edges) - visited
    {
      if current in visited {
        NoWalkOut(edges, visited, begin, goal);
        ClosesCycle(edges, c, begin, goal, current, visited);
        return Err(CycleAt(current)), c;
      }
      var choices := Get(outgoing, current);
      if choices == [] {
        DeadEnd(edges, c, begin, goal, current, visited);
        assert WalkBetween(edges, c, begin, current);
        return Err(Gap(current)), c;
      }
      var edge := choices[0];
      OutOfMembers(edges, current, edge);
      assert edge in choices;
      OneStepOn(edges, c, begin, goal, current, visited, edge);
      EdgesOfSnoc(c, edge.target);
      visited := visited + {current};
      ordered := ordered + [edge];
      c := c + [edge.target];
      current := edge.target;
    }
    GoalMet(edges, c, begin, goal, visited);
    r := Ok(ordered);
  }

  lemma ClosesCycle(edges: seq<Edge>, c: seq<Version>, begin: Version, goal: Version, current: Version, visited: set<Version>)
    requires OnTheWay(edges, c, begin, goal, current, visited) && current in visited
    ensures HasCycle(edges)
  {
    var i :| 0 <= i < |c| - 1 && c[..|c| - 1][i] == current;
    assert IsCycle(edges, c[i..]);
  }

  lemma GoalMet(edges: seq<Edge>, c: seq<Version>, begin: Version, goal: Version, visited: set<Version>)
    requires OnTheWay(edges, c, begin, goal, goal, visited)
    ensures Reaches(edges, c, begin, goal)
  {
    forall i | 0 <= i < |c| - 1
      ensures c[i] != goal
    {
      assert c[..|c| - 1][i] == c[i];
    }
  }

  lemma DeadEnd(edges: seq<Edge>, c: seq<Version>, begin: Version, goal: Version, current: Version, visited: set<Version>)
    requires OnTheWay(edges, c, begin, goal, current, visited) && current != goal && OutOf(edges, current) == []
    ensures !exists p :: WalkBetween(edges, p, begin, goal)
  {
    forall e | e in edges
      ensures e.source != current
    {
      OutOfMembers(edges, current, e);
    }
    assert begin in visited + {current} by {
      assert |c| > 1 ==> c[..|c| - 1][0] == begin;
    }
    NoWalkOut(edges, visited + {current}, begin, goal);
  }

  lemma OneStepOn(edges: seq<Edge>, c: seq<Version>, begin: Version, goal: Version, current: Version, visited: set<Version>, edge: Edge)
    requires OnTheWay(edges, c, begin, goal, current, visited) && current != goal && current !in visited
    requires OneWayOut(edges) && edge in edges && edge.source == current
    ensures OnTheWay(edges, c + [edge.target], begin, goal, edge.target, visited + {current})
  {
    StaysInside(edges, visited + {current}, current, edge);
    var longer := c + [edge.target];
    assert c == c[..|c| - 1] + [current] && longer[..|longer| - 1] == c;
    forall i | 0 <= i < |longer| - 1
      ensures Edge(longer[i], longer[i + 1]) in edges
    {
      if i < |c| - 1 {
        assert Edge(c[i], c[i + 1]) in edges;
      }
    }
  }

  /** The edge just taken is the only one out of the visited versions. */
  lemma StaysInside(edges: seq<Edge>, visited: set<Version>, current: Version, edge: Edge)
    requires OneWayOut(edges) && edge in edges && edge.source == current
    requires forall e :: e in edges && e.source in visited && e.source != current ==> e.target in visited
    ensures forall e :: e in edges && e.source in visited ==> e.target in visited || e.target == edge.target
  {
    forall e | e in edges && e.source == current
      ensures e == edge
    {
      SameSourceSameEdge(edges, e, edge);
    }
  }

  lemma NoWalkOut(edges: seq<Edge>, inside: set<Version>, begin: Version, goal: Version)
    requires begin in inside && goal !in inside
    requires forall e :: e in edges && e.source in inside ==> e.target in inside
    ensures !exists p :: WalkBetween(edges, p, begin, goal)
  {
    if p :| WalkBetween(edges, p, begin, goal) {
      WalkStaysInside(edges, inside, p, |p| - 1);
    }
  }

  /** Two walks from one version agree as far as both go. */
  lemma {:induction false} WalksAgree(edges: seq<Edge>, p: seq<Version>, q: seq<Version>, i: nat)
    requires OneWayOut(edges) && IsWalk(edges, p) && IsWalk(edges, q) && p[0] == q[0] && i < |p| && i < |q|
    ensures p[i] == q[i]
  {
    if i > 0 {
      WalksAgree(edges, p, q, i - 1);
      SameSourceSameEdge(edges, Edge(p[i - 1], p[i - 1 + 1]), Edge(q[i - 1], q[i - 1 + 1]));
    }
  }

  lemma OneWalkToGoal(edges: seq<Edge>, p: seq<Version>, q: seq<Version>, begin: Version, goal: Version)
    requires OneWayOut(edges) && Reaches(edges, p, begin, goal) && Reaches(edges, q, begin, goal)
    ensures p == q
  {
    if |p| < |q| {
      WalksAgree(edges, p, q, |p| - 1);
    } else if |q| < |p| {
      WalksAgree(edges, p, q, |q| - 1);
    }
    forall i | 0 <= i < |p|
      ensures p[i] == q[i]
    {
      WalksAgree(edges, p, q, i);
    }
  }

  // ------------------------------------------------------------------------------
  // Chains
  // ------------------------------------------------------------------------------

  lemma {:induction false} OneOut(edges: seq<Edge>, v: Version)
    requires Distinct(edges)
    requires forall a, b :: a in edges && b in edges && a.source == b.source ==> a == b
    ensures |OutOf(edges, v)| <= 1
  {
    if edges != [] {
      var most, last := edges[..|edges| - 1], edges[|edges| - 1];
      assert last in edges && forall e :: e in most ==> e in edges;
      OneOut(most, v);
      if last.source == v && OutOf(most, v) != [] {
        OutOfMembers(most, v, OutOf(most, v)[0]);
      }
    }
  }

  lemma {:induction false} OneIn(edges: seq<Edge>, v: Version)
    requires Distinct(edges)
    requires forall a, b :: a in edges && b in edges && a.target == b.target ==> a == b
    ensures |Into(edges, v)| <= 1
  {
    if edges != [] {
      var most, last := edges[..|edges| - 1], edges[|edges| - 1];
      assert last in edges && forall e :: e in most ==> e in edges;
      OneIn(most, v);
      if last.target == v && Into(most, v) != [] {
        IntoMembers(most, v, Into(most, v)[0]);
      }
    }
  }

  lemma StepsApart(edges: seq<Edge>, c: seq<Version>, i: nat, j: nat)
    requires IsWalk(edges, c) && i < j < |c| - 1
    requires forall k :: 0 <= k < |c| - 1 ==> c[k].Below(c[k + 1])
    ensures c[i] != c[j] && c[i + 1] != c[j + 1]
  {
    WalkClimbs(edges, c, i, j);
    WalkClimbs(edges, c, i + 1, j + 1);
  }

  lemma ChainStepsApart(edges: seq<Edge>, start: Version, goal: Version, c: seq<Version>, a: Edge, b: Edge)
    requires IsChain(edges, start, goal, c) && a in edges && b in edges
    requires a.source == b.source || a.target == b.target
    ensures a == b
  {
    var i := StepOf(edges, start, goal, c, a);
    var j := StepOf(edges, start, goal, c, b);
    if i < j {
      StepsApart(edges, c, i, j);
    } else if j < i {
      StepsApart(edges, c, j, i);
    }
  }

  lemma StepOf(edges: seq<Edge>, start: Version, goal: Version, c: seq<Version>, a: Edge) returns (i: nat)
    requires IsChain(edges, start, goal, c) && a in edges
    ensures i < |c| - 1 && a == Edge(c[i], c[i + 1])
  {
    i :| i < |c| - 1 && a == Edge(c[i], c[i + 1]);
  }

  lemma ChainIsStraight(edges: seq<Edge>, start: Version, goal: Version, c: seq<Version>)
    requires Distinct(edges) && IsChain(edges, start, goal, c)
    ensures Forward(edges) && OneWayOut(edges) && OneWayIn(edges) && Reaches(edges, c, start, goal)
  {
    forall a, b | a in edges && b in edges && (a.source == b.source || a.target == b.target)
      ensures a == b
    {
      ChainStepsApart(edges, start, goal, c, a, b);
    }
    forall v
      ensures |OutOf(edges, v)| <= 1 && |Into(edges, v)| <= 1
    {
      OneOut(edges, v);
      OneIn(edges, v);
    }
    forall i | 0 <= i < |c| - 1
      ensures c[i] != goal
    {
      WalkClimbs(edges, c, i, |c| - 1);
    }
  }

  /** A straight graph in which the walk from the base meets every node is a chain. */
  lemma StraightIsChain(edges: seq<Edge>, start: Version, goal: Version, c: seq<Version>)
    requires Forward(edges) && OneWayOut(edges) && OneWayIn(edges) && Reaches(edges, c, start, goal)
    requires forall v :: v in Nodes(edges) ==> v in c
    ensures IsChain(edges, start, goal, c)
  {
    forall i | 0 <= i < |c| - 1
      ensures c[i].Below(c[i + 1])
    {
      assert Edge(c[i], c[i + 1]) in edges;
    }
    forall e | e in edges
      ensures exists i :: 0 <= i < |c| - 1 && e == Edge(c[i], c[i + 1])
    {
      assert e.source in c && e.target in c;
      var j :| 0 <= j < |c| && c[j] == e.target;
      var k :| 0 <= k < |c| && c[k] == e.source;
      if j == 0 && k > 0 {
        WalkClimbs(edges, c, 0, k);
      }
      assert j > 0;
      assert Edge(c[j - 1], c[j - 1 + 1]) in edges;
      SameTargetSameEdge(edges, e, Edge(c[j - 1], c[j - 1 + 1]));
    }
  }

  lemma ChainMeetsEveryNode(edges: seq<Edge>, start: Version, goal: Version, c: seq<Version>, v: Version)
    requires IsChain(edges, start, goal, c) && v in Nodes(edges)
    ensures v in c
  {
    var e :| e in edges && (e.source == v || e.target == v);
    var i :| 0 <= i < |c| - 1 && e == Edge(c[i], c[i + 1]);
  }

  // ------------------------------------------------------------------------------
  // The build
  // ------------------------------------------------------------------------------

  ghost predicate Readable(files: seq<File>) {
    && (forall f :: f in files ==> f.Base? || f.Migration?)
    && forall i, j :: 0 <= i < j < |files| ==> files[i] != files[j]
  }

  function Bases(files: seq<File>): seq<Version> {
    if files == [] then [] else
      var f := files[|files| - 1];
      Bases(files[..|files| - 1]) + if f.Base? then [f.v] else []
  }

  function Migrations(files: seq<File>): seq<Edge> {
    if files == [] then [] else
      var f := files[|files| - 1];
      Migrations(files[..|files| - 1]) + if f.Migration? then [f.edge] else []
  }

  lemma {:induction false} FileMembers(files: seq<File>, v: Version, e: Edge)
    ensures v in Bases(files) <==> Base(v) in files
    ensures e in Migrations(files) <==> Migration(e) in files
  {
    if files != [] {
      FileMembers(files[..|files| - 1], v, e);
      assert files == files[..|files| - 1] + [files[|files| - 1]];
    }
  }

  lemma {:induction false} MigrationsDistinct(files: seq<File>)
    requires Readable(files)
    ensures Distinct(Migrations(files))
  {
    if files != [] {
      var most, last := files[..|files| - 1], files[|files| - 1];
      assert forall f :: f in most ==> f in files;
      MigrationsDistinct(most);
      if last.Migration? {
        FileMembers(most, Version(0, 0, 0), last.edge);
        assert last !in most;
      }
    }
  }

  /** Reads the file names; the first bad or repeated one is an error. */
  method ReadFiles(files: seq<File>) returns (r: Result<(seq<Version>, seq<Edge>), Error>)
    ensures r.Ok? <==> Readable(files)
    ensures r.Ok? ==> r.value == (Bases(files), Migrations(files))
    ensures r.Err? ==> exists i :: Refused(files, i, r.error)
  {
    var bases: seq<Version> := [];
    var edges: seq<Edge> := [];
    for i := 0 to |files|
      invariant Readable(files[..i]) && bases == Bases(files[..i]) && edges == Migrations(files[..i])
    {
      var f := files[i];
      ReadOneMore(files, i);
      if f.Unparseable? {
        assert Refused(files, i, UnparseableName);
        return Err(UnparseableName);
      }
      if f.BadVersion? {
        assert Refused(files, i, InvalidVersion);
        return Err(InvalidVersion);
      }
      if f.Base? {
        if f.v in bases {
          FileMembers(files[..i], f.v, Edge(f.v, f.v));
          assert Refused(files, i, DuplicateBase(f.v));
          return Err(DuplicateBase(f.v));
        }
        bases := bases + [f.v];
      } else {
        if f.edge in edges {
          FileMembers(files[..i], f.edge.source, f.edge);
          assert Refused(files, i, DuplicateEdge(f.edge));
          return Err(DuplicateEdge(f.edge));
        }
        edges := edges + [f.edge];
      }
    }
    assert files[..|files|] == files;
    r := Ok((bases, edges));
  }

  /** The next file name is fine, or the whole list is not. */
  lemma ReadOneMore(files: seq<File>, i: nat)
    requires i < |files| && Readable(files[..i])
    ensures var f := files[i];
            var fine := (f.Base? && f.v !in Bases(files[..i])) || (f.Migration? && f.edge !in Migrations(files[..i]));
            (fine ==> Readable(files[..i + 1])) && (!fine ==> !Readable(files))
    ensures Bases(files[..i + 1]) == Bases(files[..i]) + if files[i].Base? then [files[i].v] else []
    ensures Migrations(files[..i + 1]) == Migrations(files[..i]) + if files[i].Migration? then [files[i].edge] else []
  {
    var f := files[i];
    assert f in files && files[..i + 1] == files[..i] + [f] && files[..i + 1][..i] == files[..i];
    if f.Base? {
      FileMembers(files[..i], f.v, Edge(f.v, f.v));
    } else if f.Migration? {
      FileMembers(files[..i], f.edge.source, f.edge);
    }
    if f in files[..i] {
      var j :| 0 <= j < i && files[..i][j] == f;
      assert files[j] == files[i];
    }
  }

  /** What an accepted migration set is. */
  ghost predicate Acceptable(files: seq<File>, goal: Version, c: seq<Version>) {
    Readable(files) && |Bases(files)| == 1 && IsChain(Migrations(files), Bases(files)[0], goal, c)
  }

  /** Why the files are not even read: the first bad or repeated one. */
  ghost predicate Refused(files: seq<File>, i: nat, error: Error) {
    && i < |files| && Readable(files[..i])
    && match files[i]
       case Unparseable => error == UnparseableName
       case BadVersion => error == InvalidVersion
       case Base(v) => error == DuplicateBase(v) && files[i] in files[..i]
       case Migration(e) => error == DuplicateEdge(e) && files[i] in files[..i]
  }

  /** Why the edges are no chain: each reason comes up only when the ones before it do not. */
  ghost predicate Explains(edges: seq<Edge>, start: Version, goal: Version, error: Error) {
    match error
    case CycleAt(v) => OnCycle(edges, v)
    case NotForward(e) => !HasCycle(edges) && e in edges && !e.source.Below(e.target)
    case Ambiguous => Forward(edges) && !(OneWayOut(edges) && OneWayIn(edges))
    case Gap(v) =>
      && Forward(edges) && OneWayOut(edges) && OneWayIn(edges)
      && v != goal && OutOf(edges, v) == [] && exists p :: WalkBetween(edges, p, start, v)
    case Unreachable =>
      && Forward(edges) && OneWayOut(edges) && OneWayIn(edges)
      && exists p, v :: Reaches(edges, p, start, goal) && v in Nodes(edges) && v !in p
    case _ => false
  }

  method CheckForward(edges: seq<Edge>) returns (bad: Option<Edge>)
    ensures bad.None? <==> Forward(edges)
    ensures bad.Some? ==> bad.value in edges && !bad.value.source.Below(bad.value.target)
  {
    for i := 0 to |edges|
      invariant forall e :: e in edges[..i] ==> e.source.Below(e.target)
    {
      if !edges[i].source.Below(edges[i].target) {
        assert edges[i] in edges;
        return Some(edges[i]);
      }
    }
    assert edges[..|edges|] == edges;
    bad := None;
  }

  method IsAmbiguous(edges: seq<Edge>, outgoing: Adjacency, incoming: Adjacency) returns (b: bool)
    requires Outgoing(outgoing, edges) && Incoming(incoming, edges)
    ensures !b <==> OneWayOut(edges) && OneWayIn(edges)
  {
    b := (exists v :: v in outgoing && |outgoing[v]| > 1) || (exists v :: v in incoming && |incoming[v]| > 1);
    forall v
      ensures |OutOf(edges, v)| == |Get(outgoing, v)| && |Into(edges, v)| == |Get(incoming, v)|
    {
      assert Get(outgoing, v) == OutOf(edges, v) && Get(incoming, v) == Into(edges, v);
    }
    if b {
      if v :| v in outgoing && |outgoing[v]| > 1 {
        assert |OutOf(edges, v)| > 1;
      } else {
        ghost var v :| v in incoming && |incoming[v]| > 1;
        assert |Into(edges, v)| > 1;
      }
    }
  }

  lemma {:induction false} EdgesOfSuffix(c: seq<Version>, i: nat)
    requires i < |c|
    ensures |EdgesOf(c)| == |c| - 1 && EdgesOf(c)[i..] == EdgesOf(c[i..])
  {
    if i == 0 {
      assert c[0..] == c;
      if |c| > 1 {
        EdgesOfSuffix(c[1..], 0);
      }
    } else {
      EdgesOfSuffix(c[1..], i - 1);
      assert c[1..][i - 1..] == c[i..];
    }
  }

  lemma SuffixReaches(edges: seq<Edge>, c: seq<Version>, begin: Version, goal: Version, i: nat)
    requires Reaches(edges, c, begin, goal) && i < |c|
    ensures Reaches(edges, c[i..], c[i], goal)
  {
  }

  method PathOnWalk(edges: seq<Edge>, outgoing: Adjacency, goal: Version, v: Version, ghost c: seq<Version>)
    returns (path: seq<Edge>)
    requires Outgoing(outgoing, edges) && OneWayOut(edges) && c != [] && Reaches(edges, c, c[0], goal) && v in c
    ensures forall i :: 0 <= i < |c| && c[i] == v ==> path == EdgesOf(c[i..])
  {
    ghost var k :| 0 <= k < |c| && c[k] == v;
    SuffixReaches(edges, c, c[0], goal, k);
    assert WalkBetween(edges, c[k..], v, goal);
    var r, walk := PathFrom(edges, outgoing, v, goal);
    forall i | 0 <= i < |c| && c[i] == v
      ensures c[i..] == walk
    {
      SuffixReaches(edges, c, c[0], goal, i);
      OneWalkToGoal(edges, walk, c[i..], v, goal);
    }
    path := r.value;
  }

  /** The path from every version of the walk to the goal. */
  method AllPaths(edges: seq<Edge>, outgoing: Adjacency, goal: Version, visited: set<Version>, ghost c: seq<Version>)
    returns (paths: map<Version, seq<Edge>>)
    requires Outgoing(outgoing, edges) && OneWayOut(edges) && c != [] && Reaches(edges, c, c[0], goal)
    requires forall v :: v in visited <==> v in c
    ensures paths.Keys == visited
    ensures forall i :: 0 <= i < |c| ==> c[i] in paths && paths[c[i]] == EdgesOf(c[i..])
  {
    paths := map[];
    var rest := visited;
    while rest != {}
      invariant rest <= visited && paths.Keys == visited - rest
      invariant forall i :: 0 <= i < |c| && c[i] in paths ==> paths[c[i]] == EdgesOf(c[i..])
      decreases rest
    {
      var v :| v in rest;
      var path := PathOnWalk(edges, outgoing, goal, v, c);
      paths := paths[v := path];
      rest := rest - {v};
    }
  }

  /** Accepts exactly the chains, and returns the chain with its suffix from every version. */
  method Build(files: seq<File>, goal: Version) returns (r: Result<Graph, Error>, ghost c: seq<Version>)
    ensures r.Ok? ==> Acceptable(files, goal, c)
    ensures r.Err? ==> !exists d :: Acceptable(files, goal, d)
    ensures r.Err? ==>
      || (exists i :: Refused(files, i, r.error))
      || (Readable(files) && r.error == BaseCount(|Bases(files)|) && |Bases(files)| != 1)
      || (Readable(files) && |Bases(files)| == 1 && Explains(Migrations(files), Bases(files)[0], goal, r.error))
    ensures r.Ok? ==> r.value.base == c[0] && r.value.migrations == EdgesOf(c) && r.value.paths.Keys == (set v | v in c)
    ensures r.Ok? ==> forall i :: 0 <= i < |c| ==> c[i] in r.value.paths && r.value.paths[c[i]] == EdgesOf(c[i..])
  {
    c := [];
    var read := ReadFiles(files);
    if read.Err? {
      return Err(read.error), c;
    }
    var (bases, edges) := read.value;
    if |bases| != 1 {
      return Err(BaseCount(|bases|)), c;
    }
    MigrationsDistinct(files);
    r, c := BuildFrom(edges, bases[0], goal);
  }

  method BuildFrom(edges: seq<Edge>, start: Version, goal: Version) returns (r: Result<Graph, Error>, ghost c: seq<Version>)
    requires Distinct(edges)
    ensures r.Ok? ==> IsChain(edges, start, goal, c)
    ensures r.Err? ==> !exists d :: IsChain(edges, start, goal, d)
    ensures r.Err? ==> Explains(edges, start, goal, r.error)
    ensures r.Ok? ==> r.value.base == c[0] && r.value.migrations == EdgesOf(c) && r.value.paths.Keys == (set v | v in c)
    ensures r.Ok? ==> forall i :: 0 <= i < |c| ==> c[i] in r.value.paths && r.value.paths[c[i]] == EdgesOf(c[i..])
  {
    c := [];
    var outgoing, incoming := BuildAdjacency(edges);
    forall d | IsChain(edges, start, goal, d)
      ensures Forward(edges) && OneWayOut(edges) && OneWayIn(edges) && !HasCycle(edges)
    {
      ChainIsStraight(edges, start, goal, d);
      ForwardHasNoCycle(edges);
    }
    var cycle := FindCycle(edges, outgoing);
    if cycle.Some? {
      return Err(CycleAt(cycle.value)), c;
    }
    var backward := CheckForward(edges);
    if backward.Some? {
      return Err(NotForward(backward.value)), c;
    }
    ForwardHasNoCycle(edges);
    var ambiguous := IsAmbiguous(edges, outgoing, incoming);
    if ambiguous {
      return Err(Ambiguous), c;
    }
    r, c := BuildStraight(edges, outgoing, start, goal);
  }

  method BuildStraight(edges: seq<Edge>, outgoing: Adjacency, start: Version, goal: Version)
    returns (r: Result<Graph, Error>, ghost c: seq<Version>)
    requires Distinct(edges) && Outgoing(outgoing, edges) && Forward(edges) && OneWayOut(edges) && OneWayIn(edges)
    ensures r.Ok? ==> IsChain(edges, start, goal, c)
    ensures r.Err? ==> !exists d :: IsChain(edges, start, goal, d)
    ensures r.Err? ==> Explains(edges, start, goal, r.error)
    ensures r.Ok? ==> r.value.base == c[0] && r.value.migrations == EdgesOf(c) && r.value.paths.Keys == (set v | v in c)
    ensures r.Ok? ==> forall i :: 0 <= i < |c| ==> c[i] in r.value.paths && r.value.paths[c[i]] == EdgesOf(c[i..])
  {
    var ordered;
    ordered, c := PathFrom(edges, outgoing, start, goal);
    if ordered.Err? {
      NoPathNoChain(edges, start, goal, ordered.error);
      return Err(ordered.error), c;
    }
    EdgesOfTargets(c);
    var visited := {start} + (set e | e in ordered.value :: e.target);
    var nodes := {start, goal} + (set e | e in edges :: e.source) + (set e | e in edges :: e.target);
    assert visited == set v | v in c;
    if nodes - visited != {} {
      ghost var v :| v in nodes && v !in visited;
      StrayNodeMeansNoChain(edges, start, goal, c, v);
      return Err(Unreachable), c;
    }
    forall v | v in Nodes(edges)
      ensures v in c
    {
      assert v in nodes - visited || v in visited;
    }
    StraightIsChain(edges, start, goal, c);
    var paths := AllPaths(edges, outgoing, goal, visited, c);
    r := Ok(Graph(start, ordered.value, paths));
  }

  lemma NoPathNoChain(edges: seq<Edge>, start: Version, goal: Version, error: Error)
    requires Forward(edges) && OneWayOut(edges) && OneWayIn(edges) && PathFails(edges, start, goal, error)
    requires !exists p :: WalkBetween(edges, p, start, goal)
    ensures Explains(edges, start, goal, error) && !exists d :: IsChain(edges, start, goal, d)
  {
    ForwardHasNoCycle(edges);
    assert forall d :: IsChain(edges, start, goal, d) ==> WalkBetween(edges, d, start, goal);
  }

  lemma StrayNodeMeansNoChain(edges: seq<Edge>, start: Version, goal: Version, c: seq<Version>, v: Version)
    requires Distinct(edges) && Forward(edges) && OneWayOut(edges) && OneWayIn(edges)
    requires Reaches(edges, c, start, goal) && v in Nodes(edges) && v !in c
    ensures Explains(edges, start, goal, Unreachable) && !exists d :: IsChain(edges, start, goal, d)
  {
    if d :| IsChain(edges, start, goal, d) {
      ChainIsStraight(edges, start, goal, d);
      OneWalkToGoal(edges, c, d, start, goal);
      ChainMeetsEveryNode(edges, start, goal, d, v);
    }
  }

  lemma {:induction false} EdgesOfTargets(c: seq<Version>)
    requires c != []
    ensures forall v :: v in c <==> v == c[0] || exists e :: e in EdgesOf(c) && e.target == v
  {
    if |c| > 1 {
      EdgesOfTargets(c[1..]);
      assert c == [c[0]] + c[1..];
      assert EdgesOf(c) == [Edge(c[0], c[1])] + EdgesOf(c[1..]);
      assert EdgesOf(c)[0].target == c[1];
    }
  }
}
