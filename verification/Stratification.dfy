/**
  Stratification of rules: predicates are nodes, each rule gives edges from its head to the
  predicates of its body.  Two depth-first searches group the nodes into strongly connected
  components, and Kahn's algorithm numbers these.
  */
module Stratification {
  import opened Prelude

  type Node = int

  datatype Edge = Edge(from: Node, to: Node, negative: bool)

  // ------------------------------------------------------------------------------
  // Paths
  // ------------------------------------------------------------------------------

  predicate Linked(edges: seq<Edge>, a: Node, b: Node) {
    exists e :: e in edges && e.from == a && e.to == b
  }

  ghost predicate IsPath(edges: seq<Edge>, p: seq<Node>) {
    p != [] && forall i :: 0 <= i < |p| - 1 ==> Linked(edges, p[i], p[i + 1])
  }

  ghost predicate PathBetween(edges: seq<Edge>, p: seq<Node>, a: Node, b: Node) {
    IsPath(edges, p) && p[0] == a && p[|p| - 1] == b
  }

  ghost predicate Reach(edges: seq<Edge>, a: Node, b: Node) {
    exists p :: PathBetween(edges, p, a, b)
  }

  ghost predicate SameComponent(edges: seq<Edge>, a: Node, b: Node) {
    Reach(edges, a, b) && Reach(edges, b, a)
  }

  lemma ReachSelf(edges: seq<Edge>, a: Node)
    ensures Reach(edges, a, a)
  {
    assert PathBetween(edges, [a], a, a);
  }

  lemma ReachLink(edges: seq<Edge>, a: Node, b: Node)
    requires Linked(edges, a, b)
    ensures Reach(edges, a, b)
  {
    assert PathBetween(edges, [a, b], a, b);
  }

  lemma ReachOn(edges: seq<Edge>, a: Node, b: Node, c: Node)
    requires Reach(edges, a, b) && Reach(edges, b, c)
    ensures Reach(edges, a, c)
  {
    var p :| PathBetween(edges, p, a, b);
    var q :| PathBetween(edges, q, b, c);
    var r := p + q[1..];
    forall i | 0 <= i < |r| - 1
      ensures Linked(edges, r[i], r[i + 1])
    {
      if i < |p| - 1 {
        assert Linked(edges, p[i], p[i + 1]);
      } else {
        var j := i - (|p| - 1);
        assert Linked(edges, q[j], q[j + 1]);
      }
    }
    assert PathBetween(edges, r, a, c);
  }

  /** A path that starts in a set stays in it while no edge leads out. */
  lemma {:induction false} PathStays(edges: seq<Edge>, p: seq<Node>, inside: set<Node>, i: nat)
    requires IsPath(edges, p) && p[0] in inside && i < |p|
    requires forall x, y :: x in inside && Linked(edges, x, y) && Reach(edges, p[0], y) ==> y in inside
    ensures p[i] in inside && Reach(edges, p[0], p[i])
  {
    if i == 0 {
      ReachSelf(edges, p[0]);
    } else {
      PathStays(edges, p, inside, i - 1);
      assert Linked(edges, p[i - 1], p[i - 1 + 1]);
      ReachLink(edges, p[i - 1], p[i]);
      ReachOn(edges, p[0], p[i - 1], p[i]);
    }
  }

  /** What is reachable from a set that no reachable edge leaves lies in the set. */
  lemma ReachStays(edges: seq<Edge>, a: Node, b: Node, inside: set<Node>)
    requires Reach(edges, a, b) && a in inside
    requires forall x, y :: x in inside && Linked(edges, x, y) && Reach(edges, a, y) ==> y in inside
    ensures b in inside
  {
    var p :| PathBetween(edges, p, a, b);
    PathStays(edges, p, inside, |p| - 1);
  }

  /** The same along edges taken backwards. */
  lemma {:induction false} PathCameFrom(edges: seq<Edge>, p: seq<Node>, inside: set<Node>, i: nat)
    requires IsPath(edges, p) && p[|p| - 1] in inside && i < |p|
    requires forall x, y :: y in inside && Linked(edges, x, y) ==> x in inside
    ensures p[i] in inside
    decreases |p| - i
  {
    if i < |p| - 1 {
      PathCameFrom(edges, p, inside, i + 1);
      assert Linked(edges, p[i], p[i + 1]);
    }
  }

  lemma ReachCameFrom(edges: seq<Edge>, a: Node, b: Node, inside: set<Node>)
    requires Reach(edges, a, b) && b in inside
    requires forall x, y :: y in inside && Linked(edges, x, y) ==> x in inside
    ensures a in inside
  {
    var p :| PathBetween(edges, p, a, b);
    PathCameFrom(edges, p, inside, 0);
  }

  // ------------------------------------------------------------------------------
  // First search: nodes in the order in which they are finished
  // ------------------------------------------------------------------------------

  function Universe(nodes: set<Node>, edges: seq<Edge>): set<Node> {
    nodes + set e | e in edges :: e.to
  }

  function Successors(edges: seq<Edge>, a: Node): seq<Node> {
    if edges == [] then []
    else
      var rest := Successors(edges[..|edges| - 1], a);
      var e := edges[|edges| - 1];
      if e.from == a then rest + [e.to] else rest
  }

  lemma {:induction false} SuccessorsAreLinked(edges: seq<Edge>, a: Node)
    ensures forall b :: b in Successors(edges, a) <==> Linked(edges, a, b)
  {
    if edges != [] {
      var most, last := edges[..|edges| - 1], edges[|edges| - 1];
      SuccessorsAreLinked(most, a);
      assert edges == most + [last];
      forall b
        ensures Linked(edges, a, b) <==> Linked(most, a, b) || (last.from == a && last.to == b)
      {
      }
    }
  }

  /** `u` reaches a node whose search is still going on. */
  ghost predicate Escapes(edges: seq<Edge>, u: Node, gray: set<Node>) {
    exists g :: g in gray && Reach(edges, u, g)
  }

  /** All that `u` reaches is finished, and the last of it to finish is in the component of `u`. */
  ghost predicate HasLeader(edges: seq<Edge>, u: Node, finished: seq<Node>) {
    exists k :: 0 <= k < |finished| && Leads(edges, u, finished, k)
  }

  ghost predicate Leads(edges: seq<Edge>, u: Node, finished: seq<Node>, k: nat)
    requires k < |finished|
  {
    && SameComponent(edges, u, finished[k])
    && forall y :: Reach(edges, u, y) ==> y in finished[..k + 1]
  }

  ghost predicate Explained(edges: seq<Edge>, u: Node, finished: seq<Node>, gray: set<Node>) {
    Escapes(edges, u, gray) || HasLeader(edges, u, finished)
  }

  lemma LeaderRemains(edges: seq<Edge>, u: Node, finished: seq<Node>, more: seq<Node>)
    requires HasLeader(edges, u, finished) && finished <= more
    ensures HasLeader(edges, u, more)
  {
    var k :| 0 <= k < |finished| && Leads(edges, u, finished, k);
    assert more[..k + 1] == finished[..k + 1];
    assert Leads(edges, u, more, k);
  }

  /** Edges out of finished nodes lead to visited ones. */
  ghost predicate Closed(edges: seq<Edge>, finished: seq<Node>, visited: set<Node>) {
    forall x, y :: x in finished && Linked(edges, x, y) ==> y in visited
  }

  class Search {
    var visited: set<Node>
    var finished: seq<Node>

    constructor ()
      ensures visited == {} && finished == []
    {
      visited, finished := {}, [];
    }

    /** The state between two steps of the search, with the nodes under way in `gray`. */
    ghost predicate Sound(edges: seq<Edge>, gray: set<Node>)
      reads this
    {
      && visited == Elements(finished) + gray && Distinct(finished) && Elements(finished) !! gray
      && Closed(edges, finished, visited)
      && forall u :: u in finished ==> Explained(edges, u, finished, gray)
    }

    method Dfs1(node: Node, edges: seq<Edge>, ghost universe: set<Node>, ghost gray: set<Node>)
      requires Sound(edges, gray) && visited <= universe && node in universe
      requires forall e :: e in edges ==> e.to in universe
      requires forall g :: g in gray ==> Reach(edges, g, node)
      modifies this
      ensures Sound(edges, gray) && visited <= universe
      ensures node in visited && old(visited) <= visited && old(finished) <= finished
      ensures forall u :: u in finished ==> u in old(finished) || Reach(edges, node, u)
      decreases universe - visited
    {
      if node in visited {
        return;
      }
      ghost var before := finished;
      visited := visited + {node};
      ghost var inner := gray + {node};
      ReachSelf(edges, node);
      SuccessorsAreLinked(edges, node);
      var next := Successors(edges, node);
      for i := 0 to |next|
        invariant Sound(edges, inner) && visited <= universe && old(visited) + {node} <= visited
        invariant before <= finished
        invariant forall j :: 0 <= j < i ==> next[j] in visited
        invariant forall u :: u in finished ==> u in before || Reach(edges, node, u)
      {
        ReachLink(edges, node, next[i]);
        forall g | g in inner
          ensures Reach(edges, g, next[i])
        {
          ReachOn(edges, g, node, next[i]);
        }
        ghost var sofar := finished;
        Dfs1(next[i], edges, universe, inner);
        forall u | u in finished
          ensures u in before || Reach(edges, node, u)
        {
          if u !in sofar {
            ReachOn(edges, node, next[i], u);
          }
        }
      }
      FinishNode(edges, before, finished, node, gray, visited);
      finished := finished + [node];
    }
  }

  /** Finishing a node: what it alone kept under way gets it as its leader. */
  lemma FinishNode(edges: seq<Edge>, before: seq<Node>, finished: seq<Node>, node: Node, gray: set<Node>, visited: set<Node>)
    requires node !in gray && node !in finished && before <= finished
    requires visited == Elements(finished) + gray + {node}
    requires Closed(edges, finished, visited) && forall y :: Linked(edges, node, y) ==> y in visited
    requires forall u :: u in before ==> Explained(edges, u, before, gray)
    requires forall u :: u in finished ==> Explained(edges, u, finished, gray + {node})
    requires forall u :: u in finished ==> u in before || Reach(edges, node, u)
    ensures forall u :: u in finished + [node] ==> Explained(edges, u, finished + [node], gray)
  {
    var after := finished + [node];
    forall u | u in after
      ensures Explained(edges, u, after, gray)
    {
      if u in before {
        if HasLeader(edges, u, before) {
          LeaderRemains(edges, u, before, after);
        }
      } else if !Escapes(edges, u, gray) {
        if u in finished && HasLeader(edges, u, finished) {
          LeaderRemains(edges, u, finished, after);
        } else {
          ReachSelf(edges, node);
          assert Reach(edges, u, node) && Reach(edges, node, u);
          forall y | Reach(edges, u, y)
            ensures y in after
          {
            ReachStays(edges, u, y, Elements(after));
          }
          assert after[..|finished| + 1] == after;
          assert Leads(edges, u, after, |finished|);
        }
      }
    }
  }

  /** The nodes in the order of their finishing; each has a leader. */
  method FinishOrder(roots: seq<Node>, edges: seq<Edge>) returns (finished: seq<Node>)
    requires forall e :: e in edges ==> e.from in roots
    ensures Distinct(finished) && Elements(finished) == Universe(Elements(roots), edges)
    ensures forall u :: u in finished ==> HasLeader(edges, u, finished)
  {
    var search := new Search();
    ghost var universe := Universe(Elements(roots), edges);
    for i := 0 to |roots|
      invariant search.Sound(edges, {}) && search.visited <= universe
      invariant forall j :: 0 <= j < i ==> roots[j] in search.visited
    {
      search.Dfs1(roots[i], edges, universe, {});
    }
    finished := search.finished;
    assert search.visited == Elements(finished);
    forall u | u in finished
      ensures HasLeader(edges, u, finished)
    {
      assert Explained(edges, u, finished, {});
    }
    forall e | e in edges
      ensures e.to in finished
    {
      assert Linked(edges, e.from, e.to);
    }
  }

  // ------------------------------------------------------------------------------
  // Second search: components
  // ------------------------------------------------------------------------------

  function Predecessors(edges: seq<Edge>, a: Node): seq<Node> {
    if edges == [] then []
    else
      var rest := Predecessors(edges[..|edges| - 1], a);
      var e := edges[|edges| - 1];
      if e.to == a then rest + [e.from] else rest
  }

  lemma {:induction false} PredecessorsAreLinked(edges: seq<Edge>, a: Node)
    ensures forall b :: b in Predecessors(edges, a) <==> Linked(edges, b, a)
  {
    if edges != [] {
      var most, last := edges[..|edges| - 1], edges[|edges| - 1];
      PredecessorsAreLinked(most, a);
      assert edges == most + [last];
      forall b
        ensures Linked(edges, b, a) <==> Linked(most, b, a) || (last.to == a && last.from == b)
      {
      }
    }
  }

  class Collector {
    var visited: set<Node>
    var component: seq<Node>

    constructor ()
      ensures visited == {} && component == []
    {
      visited, component := {}, [];
    }

    method Dfs2(node: Node, edges: seq<Edge>, ghost universe: set<Node>)
      requires visited <= universe && node in universe
      requires forall e :: e in edges ==> e.from in universe
      modifies this
      ensures visited <= universe && node in visited && old(visited) <= visited
      ensures old(component) <= component
      ensures Elements(component) == Elements(old(component)) + (visited - old(visited))
      ensures forall u :: u in visited ==> u in old(visited) || Reach(edges, u, node)
      ensures forall x, y :: y in visited - old(visited) && Linked(edges, x, y) ==> x in visited
      decreases universe - visited
    {
      if node in visited {
        return;
      }
      visited := visited + {node};
      component := component + [node];
      ReachSelf(edges, node);
      PredecessorsAreLinked(edges, node);
      var next := Predecessors(edges, node);
      for i := 0 to |next|
        invariant visited <= universe && old(visited) + {node} <= visited
        invariant old(component) <= component
        invariant Elements(component) == Elements(old(component)) + (visited - old(visited))
        invariant forall j :: 0 <= j < i ==> next[j] in visited
        invariant forall u :: u in visited ==> u in old(visited) || Reach(edges, u, node)
        invariant forall x, y :: y in visited - old(visited) - {node} && Linked(edges, x, y) ==> x in visited
      {
        ReachLink(edges, next[i], node);
        ghost var sofar := visited;
        Dfs2(next[i], edges, universe);
        forall u | u in visited
          ensures u in old(visited) || Reach(edges, u, node)
        {
          if u !in sofar {
            ReachOn(edges, u, next[i], node);
          }
        }
      }
    }
  }

  /** The components found so far: each complete, none twice, sources before targets. */
  ghost predicate Components(edges: seq<Edge>, sccs: seq<seq<Node>>, visited: set<Node>) {
    && (forall i :: 0 <= i < |sccs| ==> sccs[i] != [])
    && (forall x :: x in visited <==> exists i :: 0 <= i < |sccs| && x in sccs[i])
    && (forall i, x, y :: 0 <= i < |sccs| && x in sccs[i] ==> (y in sccs[i] <==> SameComponent(edges, x, y)))
    && (forall i, j, x :: 0 <= i < j < |sccs| && x in sccs[i] ==> x !in sccs[j])
    && (forall i, j, x, y :: 0 <= i < |sccs| && 0 <= j < |sccs| && x in sccs[i] && y in sccs[j] && Linked(edges, x, y) ==> i <= j)
  }

  /** Whoever reaches the last unvisited node, unvisited itself, is in its component. */
  lemma LastUnvisited(edges: seq<Edge>, finished: seq<Node>, visited: set<Node>, k: nat, x: Node)
    requires k < |finished| && Distinct(finished)
    requires forall u :: u in finished ==> HasLeader(edges, u, finished)
    requires forall i :: k < i < |finished| ==> finished[i] in visited
    requires forall u, v :: u in visited && SameComponent(edges, u, v) ==> v in visited
    requires x in finished && x !in visited && Reach(edges, x, finished[k])
    ensures Reach(edges, finished[k], x)
  {
    var r := finished[k];
    var l :| 0 <= l < |finished| && Leads(edges, x, finished, l);
    var z := finished[l];
    assert r in finished[..l + 1];
    if l > k {
      assert z in visited && SameComponent(edges, z, x);
      assert false;
    }
    assert l >= k;
  }

  ghost predicate PredecessorClosed(edges: seq<Edge>, visited: set<Node>) {
    forall x, y :: y in visited && Linked(edges, x, y) ==> x in visited
  }

  lemma ComponentsAreWhole(edges: seq<Edge>, sccs: seq<seq<Node>>, visited: set<Node>)
    requires Components(edges, sccs, visited)
    ensures forall u, v :: u in visited && SameComponent(edges, u, v) ==> v in visited
  {
  }

  /** What the second search newly visits from the last unvisited node is exactly its component. */
  lemma NewIsComponent(edges: seq<Edge>, finished: seq<Node>, k: nat, before: set<Node>, after: set<Node>, y: Node)
    requires k < |finished| && Distinct(finished)
    requires forall u :: u in finished ==> HasLeader(edges, u, finished)
    requires forall i :: k < i < |finished| ==> finished[i] in before
    requires forall u, v :: u in before && SameComponent(edges, u, v) ==> v in before
    requires before <= after <= Elements(finished) && finished[k] in after - before
    requires forall u :: u in after ==> u in before || Reach(edges, u, finished[k])
    requires PredecessorClosed(edges, after)
    ensures y in after - before <==> SameComponent(edges, finished[k], y)
  {
    var r := finished[k];
    if y in after - before {
      LastUnvisited(edges, finished, before, k, y);
    }
    if SameComponent(edges, r, y) {
      ReachCameFrom(edges, y, r, after);
      assert SameComponent(edges, y, r);
    }
  }

  lemma SameComponentShared(edges: seq<Edge>, r: Node, x: Node, y: Node)
    requires SameComponent(edges, r, x)
    ensures SameComponent(edges, r, y) <==> SameComponent(edges, x, y)
  {
    if SameComponent(edges, r, y) {
      ReachOn(edges, x, r, y);
      ReachOn(edges, y, r, x);
    }
    if SameComponent(edges, x, y) {
      ReachOn(edges, r, x, y);
      ReachOn(edges, y, x, r);
    }
  }

  lemma ComponentAdded(edges: seq<Edge>, sccs: seq<seq<Node>>, before: set<Node>, after: set<Node>, r: Node, component: seq<Node>)
    requires Components(edges, sccs, before) && PredecessorClosed(edges, before)
    requires before <= after && r in after - before && Elements(component) == after - before
    requires forall y :: y in after - before <==> SameComponent(edges, r, y)
    ensures Components(edges, sccs + [component], after)
  {
    var all := sccs + [component];
    assert r in Elements(component);
    forall x
      ensures x in component <==> x in after - before
    {
      assert x in component <==> x in Elements(component);
    }
    forall x
      ensures x in after <==> exists i :: 0 <= i < |all| && x in all[i]
    {
      if x in before {
        var i :| 0 <= i < |sccs| && x in sccs[i];
        assert x in all[i];
      } else if x in after {
        assert x in all[|sccs|];
      }
      if i :| 0 <= i < |all| && x in all[i] {
        assert i < |sccs| ==> x in sccs[i];
      }
    }
    forall x, y | x in component
      ensures y in component <==> SameComponent(edges, x, y)
    {
      SameComponentShared(edges, r, x, y);
    }
  }

  lemma StepIsComponent(edges: seq<Edge>, finished: seq<Node>, k: nat, sccs: seq<seq<Node>>,
                        before: set<Node>, after: set<Node>, component: seq<Node>)
    requires k < |finished| && Distinct(finished)
    requires forall u :: u in finished ==> HasLeader(edges, u, finished)
    requires forall i :: k < i < |finished| ==> finished[i] in before
    requires Components(edges, sccs, before) && PredecessorClosed(edges, before)
    requires before <= after <= Elements(finished) && finished[k] in after - before
    requires forall u :: u in after ==> u in before || Reach(edges, u, finished[k])
    requires PredecessorClosed(edges, after) && Elements(component) == after - before
    ensures Components(edges, sccs + [component], after)
  {
    ComponentsAreWhole(edges, sccs, before);
    forall y
      ensures y in after - before <==> SameComponent(edges, finished[k], y)
    {
      NewIsComponent(edges, finished, k, before, after, y);
    }
    ComponentAdded(edges, sccs, before, after, finished[k], component);
  }

  /** The component of the last unvisited node. */
  method Collect(collector: Collector, edges: seq<Edge>, node: Node, ghost universe: set<Node>) returns (component: seq<Node>)
    requires collector.visited <= universe && node in universe - collector.visited
    requires PredecessorClosed(edges, collector.visited)
    requires forall e :: e in edges ==> e.from in universe
    modifies collector
    ensures old(collector.visited) <= collector.visited <= universe
    ensures node in collector.visited && PredecessorClosed(edges, collector.visited)
    ensures forall u :: u in collector.visited ==> u in old(collector.visited) || Reach(edges, u, node)
    ensures Elements(component) == collector.visited - old(collector.visited)
  {
    collector.component := [];
    collector.Dfs2(node, edges, universe);
    component := collector.component;
  }

  /** The components of the nodes from `k` on, in the order of finishing. */
  ghost predicate Collected(edges: seq<Edge>, finished: seq<Node>, visited: set<Node>, sccs: seq<seq<Node>>, k: nat) {
    && k <= |finished| && visited <= Elements(finished) && PredecessorClosed(edges, visited)
    && Components(edges, sccs, visited)
    && forall i :: k <= i < |finished| ==> finished[i] in visited
  }

  lemma OneMoreCollected(edges: seq<Edge>, finished: seq<Node>, k: nat, sccs: seq<seq<Node>>,
                         before: set<Node>, after: set<Node>, component: seq<Node>)
    requires k < |finished| && Distinct(finished) && forall u :: u in finished ==> HasLeader(edges, u, finished)
    requires Collected(edges, finished, before, sccs, k + 1)
    requires before <= after <= Elements(finished) && finished[k] in after - before
    requires forall u :: u in after ==> u in before || Reach(edges, u, finished[k])
    requires PredecessorClosed(edges, after) && Elements(component) == after - before
    ensures Collected(edges, finished, after, sccs + [component], k)
  {
    StepIsComponent(edges, finished, k, sccs, before, after, component);
  }

  lemma AllCollected(edges: seq<Edge>, finished: seq<Node>, visited: set<Node>, sccs: seq<seq<Node>>)
    requires Collected(edges, finished, visited, sccs, 0)
    ensures Components(edges, sccs, Elements(finished))
  {
    assert visited == Elements(finished);
  }

  method ComputeSccs(roots: seq<Node>, edges: seq<Edge>) returns (sccs: seq<seq<Node>>)
    requires forall e :: e in edges ==> e.from in roots
    ensures Components(edges, sccs, Universe(Elements(roots), edges))
  {
    var finished := FinishOrder(roots, edges);
    var collector := new Collector();
    sccs := [];
    var k := |finished|;
    while k > 0
      invariant 0 <= k && Collected(edges, finished, collector.visited, sccs, k)
    {
      k := k - 1;
      if finished[k] !in collector.visited {
        ghost var before := collector.visited;
        var component := Collect(collector, edges, finished[k], Elements(finished));
        OneMoreCollected(edges, finished, k, sccs, before, collector.visited, component);
        sccs := sccs + [component];
      }
    }
    AllCollected(edges, finished, collector.visited, sccs);
  }

  // ------------------------------------------------------------------------------
  // Kahn's algorithm
  // ------------------------------------------------------------------------------

  ghost predicate Forward(adj: seq<set<nat>>) {
    forall i, j :: 0 <= i < |adj| && j in adj[i] ==> i < j < |adj|
  }

  /** The sources of edges into `j` that are not done. */
  function Waiting(adj: seq<set<nat>>, done: set<nat>, j: nat): set<nat> {
    set i | 0 <= i < |adj| && i !in done && j in adj[i]
  }

  ghost predicate Numbered(adj: seq<set<nat>>, order: seq<nat>) {
    && (forall a, b :: 0 <= a < b < |order| ==> order[a] != order[b])
    && (forall a :: 0 <= a < |order| ==> order[a] < |adj|)
    && (forall b, i :: 0 <= b < |order| && 0 <= i < |adj| && order[b] in adj[i] ==> i in order[..b])
  }

  predicate Targets(adj: seq<set<nat>>) {
    forall i, j :: 0 <= i < |adj| && j in adj[i] ==> j < |adj|
  }

  ghost predicate Counts(adj: seq<set<nat>>, done: set<nat>, degree: seq<nat>) {
    |degree| == |adj| && forall j :: 0 <= j < |adj| ==> degree[j] == |Waiting(adj, done, j)|
  }

  /** The in-degree of every node. */
  method InDegrees(adj: seq<set<nat>>) returns (degree: seq<nat>)
    requires Targets(adj)
    ensures Counts(adj, {}, degree)
  {
    degree := seq(|adj|, _ => 0);
    assert forall j :: 0 <= j < |adj| ==> Waiting(adj[..0], {}, j) == {};
    for i := 0 to |adj|
      invariant |degree| == |adj|
      invariant forall j :: 0 <= j < |adj| ==> degree[j] == |Waiting(adj[..i], {}, j)|
    {
      degree := AddOne(degree, adj[i]);
      forall j | 0 <= j < |adj|
        ensures degree[j] == |Waiting(adj[..i + 1], {}, j)|
      {
        assert Waiting(adj[..i + 1], {}, j) == Waiting(adj[..i], {}, j) + if j in adj[i] then {i} else {};
      }
    }
    assert adj[..|adj|] == adj;
  }

  method AddOne(degree: seq<nat>, targets: set<nat>) returns (more: seq<nat>)
    requires forall j :: j in targets ==> j < |degree|
    ensures |more| == |degree|
    ensures forall j :: 0 <= j < |degree| ==> more[j] == degree[j] + if j in targets then 1 else 0
  {
    more := degree;
    var left := targets;
    while left != {}
      invariant left <= targets && |more| == |degree|
      invariant forall j :: 0 <= j < |degree| ==> more[j] == degree[j] + if j in targets - left then 1 else 0
    {
      var j :| j in left;
      more := more[j := more[j] + 1];
      left := left - {j};
    }
  }

  /** One less for every target; those that come down to zero are queued. */
  method Relax(degree: seq<nat>, targets: set<nat>, queue: seq<nat>) returns (less: seq<nat>, longer: seq<nat>)
    requires forall j :: j in targets ==> j < |degree| && degree[j] > 0 && j !in queue
    requires forall a, b :: 0 <= a < b < |queue| ==> queue[a] != queue[b]
    ensures |less| == |degree| && queue <= longer
    ensures forall j :: 0 <= j < |degree| ==> less[j] == degree[j] - if j in targets then 1 else 0
    ensures forall j :: j in longer <==> j in queue || (j in targets && degree[j] == 1)
    ensures forall a, b :: 0 <= a < b < |longer| ==> longer[a] != longer[b]
  {
    less, longer := degree, queue;
    var left := targets;
    while left != {}
      invariant left <= targets && |less| == |degree| && queue <= longer
      invariant forall j :: 0 <= j < |degree| ==> less[j] == degree[j] - if j in targets - left then 1 else 0
      invariant forall j :: j in longer <==> j in queue || (j in targets - left && degree[j] == 1)
      invariant forall a, b :: 0 <= a < b < |longer| ==> longer[a] != longer[b]
    {
      var j :| j in left;
      less := less[j := less[j] - 1];
      if less[j] == 0 {
        longer := longer + [j];
      }
      left := left - {j};
    }
  }

  /** Between two steps: what is queued or numbered waits for nothing, everything else for something. */
  ghost predicate KahnState(adj: seq<set<nat>>, order: seq<nat>, queue: seq<nat>, degree: seq<nat>) {
    && Numbered(adj, order) && Counts(adj, Elements(order), degree)
    && (forall a, b :: 0 <= a < b < |queue| ==> queue[a] != queue[b])
    && (forall j :: j in queue ==> j < |adj| && j !in order)
    && forall j :: 0 <= j < |adj| ==> (j in queue || j in order <==> degree[j] == 0)
  }

  lemma WaitingDone(adj: seq<set<nat>>, order: seq<nat>, s: nat, j: nat)
    requires s < |adj| && s !in order
    ensures |Waiting(adj, Elements(order + [s]), j)| == |Waiting(adj, Elements(order), j)| - if j in adj[s] then 1 else 0
  {
    assert Elements(order + [s]) == Elements(order) + {s};
    WaitingLess(adj, Elements(order), s, j);
  }

  lemma WaitingLess(adj: seq<set<nat>>, done: set<nat>, s: nat, j: nat)
    requires s < |adj| && s !in done
    ensures |Waiting(adj, done + {s}, j)| == |Waiting(adj, done, j)| - if j in adj[s] then 1 else 0
  {
    var before := Waiting(adj, done, j);
    assert Waiting(adj, done + {s}, j) == before - {s};
    assert s in before <==> j in adj[s];
  }

  lemma NumberOneMore(adj: seq<set<nat>>, order: seq<nat>, s: nat)
    requires Numbered(adj, order) && s < |adj| && s !in order && |Waiting(adj, Elements(order), s)| == 0
    ensures Numbered(adj, order + [s])
  {
    var more := order + [s];
    forall b, i | 0 <= b < |more| && 0 <= i < |adj| && more[b] in adj[i]
      ensures i in more[..b]
    {
      if b == |order| {
        assert i !in Waiting(adj, Elements(order), s);
        assert more[..b] == order;
      } else {
        assert more[..b] == order[..b];
      }
    }
  }

  method KahnStep(adj: seq<set<nat>>, order: seq<nat>, queue: seq<nat>, degree: seq<nat>)
    returns (order2: seq<nat>, queue2: seq<nat>, degree2: seq<nat>)
    requires Targets(adj) && KahnState(adj, order, queue, degree) && queue != []
    ensures KahnState(adj, order2, queue2, degree2) && order2 == order + [queue[0]]
  {
    var s := queue[0];
    assert s in queue;
    order2 := order + [s];
    NumberOneMore(adj, order, s);
    forall j | j in adj[s]
      ensures degree[j] > 0 && j !in queue
    {
      assert s in Waiting(adj, Elements(order), j);
    }
    assert s !in queue[1..] && s !in adj[s];
    degree2, queue2 := Relax(degree, adj[s], queue[1..]);
    forall j | j in queue2
      ensures j < |adj| && j !in order2
    {
      assert j in queue[1..] ==> j in queue;
      assert j in adj[s] ==> degree[j] > 0;
    }
    forall j | 0 <= j < |adj|
      ensures degree2[j] == |Waiting(adj, Elements(order2), j)|
    {
      WaitingDone(adj, order, s, j);
    }
    assert queue == [s] + queue[1..];
    forall j | 0 <= j < |adj|
      ensures j in queue2 || j in order2 <==> degree2[j] == 0
    {
      if j in adj[s] {
        assert degree[j] > 0;
      }
    }
  }

  lemma {:induction false} AllNumbered(adj: seq<set<nat>>, order: seq<nat>, degree: seq<nat>, j: nat)
    requires Forward(adj) && KahnState(adj, order, [], degree) && j < |adj|
    ensures j in order
    decreases j
  {
    forall i | 0 <= i < |adj| && j in adj[i]
      ensures i in Elements(order)
    {
      AllNumbered(adj, order, degree, i);
    }
    assert Waiting(adj, Elements(order), j) == {};
  }

  lemma {:induction false} DistinctCount(s: seq<nat>)
    requires forall a, b :: 0 <= a < b < |s| ==> s[a] != s[b]
    ensures |Elements(s)| == |s|
  {
    if s != [] {
      var n := |s| - 1;
      DistinctCount(s[..n]);
      assert Elements(s) == Elements(s[..n]) + {s[n]};
    }
  }

  function Below(n: nat): (s: set<nat>)
    ensures |s| == n && forall i: nat :: i in s <==> i < n
  {
    if n == 0 then {} else Below(n - 1) + {n - 1}
  }

  /** Numbers the nodes; without cycles it numbers all of them. */
  method Kahn(adj: seq<set<nat>>) returns (order: seq<nat>)
    requires Targets(adj)
    ensures Numbered(adj, order)
    ensures Forward(adj) ==> |order| == |adj| && forall j :: 0 <= j < |adj| ==> j in order
  {
    var degree := InDegrees(adj);
    var queue: seq<nat> := [];
    for i := 0 to |adj|
      invariant forall a, b :: 0 <= a < b < |queue| ==> queue[a] != queue[b]
      invariant forall j: nat :: j in queue <==> j < i && degree[j] == 0
    {
      if degree[i] == 0 {
        queue := queue + [i];
      }
    }
    order := [];
    assert Elements(order) == {};
    while queue != []
      invariant KahnState(adj, order, queue, degree)
      decreases |adj| - |order|
    {
      order, queue, degree := KahnStep(adj, order, queue, degree);
      NumberedIsShort(adj, order);
    }
    if Forward(adj) {
      forall j: nat | j < |adj|
        ensures j in order
      {
        AllNumbered(adj, order, degree, j);
      }
      assert Elements(order) == Below(|adj|);
      DistinctCount(order);
    }
  }

  lemma NumberedIsShort(adj: seq<set<nat>>, order: seq<nat>)
    requires Numbered(adj, order)
    ensures |order| <= |adj|
  {
    DistinctCount(order);
    assert Elements(order) <= Below(|adj|);
    Fewer(Elements(order), Below(|adj|));
  }

  lemma {:induction false} Fewer(a: set<nat>, b: set<nat>)
    requires a <= b
    ensures |a| <= |b|
  {
    assert b == a + (b - a);
  }

  // ------------------------------------------------------------------------------
  // Strata
  // ------------------------------------------------------------------------------

  /** Equal numbers exactly within a component; along every edge numbers do not fall. */
  ghost predicate AreStrata(edges: seq<Edge>, strata: map<Node, nat>) {
    && (forall x, y :: x in strata && y in strata ==> (strata[x] == strata[y] <==> SameComponent(edges, x, y)))
    && (forall e :: e in edges ==> e.from in strata && e.to in strata && strata[e.from] <= strata[e.to])
  }

  ghost predicate Used(strata: map<Node, nat>, k: nat) {
    exists y :: y in strata && strata[y] == k
  }

  /** Every number below one that is used is used. */
  ghost predicate NoGaps(strata: map<Node, nat>) {
    forall x, k: nat :: x in strata && !Used(strata, k) ==> strata[x] <= k
  }

  /** A negative edge on a cycle. */
  ghost predicate NegativeCycle(edges: seq<Edge>) {
    exists e :: e in edges && e.negative && Reach(edges, e.to, e.from)
  }

  ghost predicate Indexed(sccs: seq<seq<Node>>, index: map<Node, nat>) {
    && (forall x :: x in index <==> exists i :: 0 <= i < |sccs| && x in sccs[i])
    && (forall x :: x in index ==> index[x] < |sccs| && x in sccs[index[x]])
  }

  method IndexComponents(sccs: seq<seq<Node>>) returns (index: map<Node, nat>)
    ensures Indexed(sccs, index)
  {
    index := map[];
    for i := 0 to |sccs|
      invariant forall x :: x in index <==> exists k :: 0 <= k < i && x in sccs[k]
      invariant forall x :: x in index ==> index[x] < |sccs| && x in sccs[index[x]]
    {
      ghost var before := index;
      for j := 0 to |sccs[i]|
        invariant forall x :: x in index <==> x in before || x in sccs[i][..j]
        invariant forall x :: x in index ==> index[x] < |sccs| && x in sccs[index[x]]
      {
        index := index[sccs[i][j] := i];
      }
      assert sccs[i][..|sccs[i]|] == sccs[i];
    }
  }

  ghost predicate ComponentGraph(edges: seq<Edge>, index: map<Node, nat>, adj: seq<set<nat>>) {
    forall i, j :: 0 <= i < |adj| ==>
      (j in adj[i] <==> i != j && exists e :: e in edges && e.from in index && e.to in index && index[e.from] == i && index[e.to] == j)
  }

  /** The graph of the components, unless a negative edge stays inside one. */
  method BuildComponentGraph(count: nat, index: map<Node, nat>, edges: seq<Edge>) returns (r: Option<seq<set<nat>>>)
    requires forall e :: e in edges ==> e.from in index && e.to in index
    requires forall x :: x in index ==> index[x] < count
    ensures r.None? <==> exists e :: e in edges && e.negative && index[e.from] == index[e.to]
    ensures r.Some? ==> |r.value| == count && Targets(r.value) && ComponentGraph(edges, index, r.value)
  {
    var adj: seq<set<nat>> := seq(count, _ => {});
    for k := 0 to |edges|
      invariant |adj| == count && Targets(adj) && ComponentGraph(edges[..k], index, adj)
      invariant forall e :: e in edges[..k] && e.negative ==> index[e.from] != index[e.to]
    {
      var e := edges[k];
      assert e in edges && edges[..k + 1] == edges[..k] + [e];
      var src, dst := index[e.from], index[e.to];
      if src == dst && e.negative {
        return None;
      }
      ghost var before := adj;
      if src != dst {
        adj := adj[src := adj[src] + {dst}];
      }
      GraphOneMore(edges[..k], e, index, before, adj);
    }
    assert edges[..|edges|] == edges;
    r := Some(adj);
  }

  lemma GraphOneMore(edges: seq<Edge>, e: Edge, index: map<Node, nat>, before: seq<set<nat>>, after: seq<set<nat>>)
    requires e.from in index && e.to in index && index[e.from] < |before| && ComponentGraph(edges, index, before)
    requires after == if index[e.from] == index[e.to] then before
                      else before[index[e.from] := before[index[e.from]] + {index[e.to]}]
    ensures ComponentGraph(edges + [e], index, after)
  {
  }

  lemma ComponentGraphIsForward(edges: seq<Edge>, sccs: seq<seq<Node>>, all: set<Node>, index: map<Node, nat>, adj: seq<set<nat>>)
    requires Components(edges, sccs, all) && Indexed(sccs, index) && ComponentGraph(edges, index, adj)
    requires |adj| == |sccs|
    ensures Forward(adj)
  {
    forall i, j | 0 <= i < |adj| && j in adj[i]
      ensures i < j < |adj|
    {
      var e :| e in edges && e.from in index && e.to in index && index[e.from] == i && index[e.to] == j;
      assert Linked(edges, e.from, e.to) && e.from in sccs[i] && e.to in sccs[j];
    }
  }

  lemma SameIndex(edges: seq<Edge>, sccs: seq<seq<Node>>, all: set<Node>, index: map<Node, nat>, x: Node, y: Node)
    requires Components(edges, sccs, all) && Indexed(sccs, index) && x in index && y in index
    ensures index[x] == index[y] <==> SameComponent(edges, x, y)
  {
  }

  /** Positions in Kahn's order. */
  method Positions(order: seq<nat>) returns (position: map<nat, nat>)
    requires forall a, b :: 0 <= a < b < |order| ==> order[a] != order[b]
    ensures forall i :: i in position <==> i in order
    ensures forall i :: i in position ==> position[i] < |order| && order[position[i]] == i
  {
    position := map[];
    for k := 0 to |order|
      invariant forall i :: i in position <==> i in order[..k]
      invariant forall i :: i in position ==> position[i] < |order| && order[position[i]] == i
    {
      position := position[order[k] := k];
    }
    assert order[..|order|] == order;
  }

  lemma EdgeClimbs(edges: seq<Edge>, index: map<Node, nat>, adj: seq<set<nat>>, order: seq<nat>, position: map<nat, nat>, e: Edge)
    requires ComponentGraph(edges, index, adj) && Numbered(adj, order)
    requires forall i :: i in position ==> position[i] < |order| && order[position[i]] == i
    requires e in edges && e.from in index && e.to in index && index[e.from] in position && index[e.to] in position
    ensures position[index[e.from]] <= position[index[e.to]]
  {
    var i, j := index[e.from], index[e.to];
    if i != j {
      assert order[position[i]] == i && i < |adj| && j in adj[i];
      assert i in order[..position[j]];
      var a :| 0 <= a < position[j] && order[a] == i;
    }
  }

  lemma EdgesIndexed(edges: seq<Edge>, sccs: seq<seq<Node>>, all: set<Node>, index: map<Node, nat>)
    requires Components(edges, sccs, all) && Indexed(sccs, index) && forall e :: e in edges ==> e.from in all && e.to in all
    ensures index.Keys == all
    ensures forall e :: e in edges ==> (index[e.from] == index[e.to] <==> Reach(edges, e.to, e.from))
  {
    forall x
      ensures x in index <==> x in all
    {
    }
    forall e | e in edges
      ensures index[e.from] == index[e.to] <==> Reach(edges, e.to, e.from)
    {
      assert Linked(edges, e.from, e.to);
      ReachLink(edges, e.from, e.to);
      SameIndex(edges, sccs, all, index, e.from, e.to);
    }
  }

  /** Kahn's order as a number for every component. */
  method ComponentNumbers(adj: seq<set<nat>>) returns (position: Option<map<nat, nat>>, ghost order: seq<nat>)
    requires Targets(adj)
    ensures Numbered(adj, order)
    ensures Forward(adj) ==> position.Some? && forall j :: 0 <= j < |adj| ==> j in order
    ensures position.Some? ==> forall i :: i in position.value <==> i in order
    ensures position.Some? ==> forall i :: i in position.value ==> position.value[i] < |order| && order[position.value[i]] == i
  {
    var found := Kahn(adj);
    order := found;
    if |found| != |adj| {
      return None, order;
    }
    var numbers := Positions(found);
    position := Some(numbers);
  }

  /**
    The numbering of the predicates: refused exactly when a negative edge lies on a cycle,
    and otherwise equal within components and rising from a head to the predicates it uses.
    */
  method TopoSortSccs(sccs: seq<seq<Node>>, edges: seq<Edge>, ghost all: set<Node>) returns (r: Result<map<Node, nat>, string>)
    requires Components(edges, sccs, all) && forall e :: e in edges ==> e.from in all && e.to in all
    ensures r.Err? <==> NegativeCycle(edges)
    ensures r.Ok? ==> r.value.Keys == all && AreStrata(edges, r.value) && NoGaps(r.value)
  {
    var index := IndexComponents(sccs);
    EdgesIndexed(edges, sccs, all, index);
    var graph := BuildComponentGraph(|sccs|, index, edges);
    if graph.None? {
      return Err("unstratifiable negation cycle");
    }
    var adj := graph.value;
    ComponentGraphIsForward(edges, sccs, all, index, adj);
    ghost var order;
    var position;
    position, order := ComponentNumbers(adj);
    if position.None? {
      assert false;
      return Err("cyclic dependency in SCC DAG");
    }
    var strata := map x | x in index :: position.value[index[x]];
    FinalStrata(edges, sccs, all, index, adj, order, position.value, strata);
    StrataFill(edges, sccs, all, index, order, position.value, strata);
    r := Ok(strata);
  }

  /** How the numbers come about: the position of the component in the order. */
  ghost predicate FromOrder(sccs: seq<seq<Node>>, index: map<Node, nat>, order: seq<nat>, position: map<nat, nat>, strata: map<Node, nat>) {
    && (forall a, b :: 0 <= a < b < |order| ==> order[a] != order[b]) && (forall a :: 0 <= a < |order| ==> order[a] < |sccs|)
    && (forall i :: i in position <==> i in order)
    && (forall i :: i in position ==> position[i] < |order| && order[position[i]] == i)
    && strata.Keys == index.Keys && forall x :: x in index ==> index[x] in position && strata[x] == position[index[x]]
  }

  lemma NumberUsed(edges: seq<Edge>, sccs: seq<seq<Node>>, all: set<Node>, index: map<Node, nat>,
                   order: seq<nat>, position: map<nat, nat>, strata: map<Node, nat>, k: nat)
    requires Components(edges, sccs, all) && Indexed(sccs, index) && FromOrder(sccs, index, order, position, strata) && k < |order|
    ensures Used(strata, k)
  {
    var i := order[k];
    var y := sccs[i][0];
    assert y in sccs[i] && y in index && index[y] == i;
    assert i in order && position[i] == k;
    assert strata[y] == k;
  }

  lemma StrataFill(edges: seq<Edge>, sccs: seq<seq<Node>>, all: set<Node>, index: map<Node, nat>,
                   order: seq<nat>, position: map<nat, nat>, strata: map<Node, nat>)
    requires Components(edges, sccs, all) && Indexed(sccs, index) && FromOrder(sccs, index, order, position, strata)
    ensures NoGaps(strata)
  {
    forall k: nat | k < |order|
      ensures Used(strata, k)
    {
      NumberUsed(edges, sccs, all, index, order, position, strata, k);
    }
  }

  method PredicateStrata(roots: seq<Node>, edges: seq<Edge>) returns (r: Result<map<Node, nat>, string>)
    requires forall e :: e in edges ==> e.from in roots
    ensures r.Err? <==> NegativeCycle(edges)
    ensures r.Ok? ==> r.value.Keys == Universe(Elements(roots), edges) && AreStrata(edges, r.value) && NoGaps(r.value)
  {
    var sccs := ComputeSccs(roots, edges);
    r := TopoSortSccs(sccs, edges, Universe(Elements(roots), edges));
  }

  lemma FinalStrata(edges: seq<Edge>, sccs: seq<seq<Node>>, all: set<Node>, index: map<Node, nat>, adj: seq<set<nat>>,
                    order: seq<nat>, position: map<nat, nat>, strata: map<Node, nat>)
    requires Components(edges, sccs, all) && Indexed(sccs, index) && ComponentGraph(edges, index, adj) && |adj| == |sccs|
    requires Numbered(adj, order) && forall j :: 0 <= j < |adj| ==> j in order
    requires forall i :: i in position <==> i in order
    requires forall i :: i in position ==> position[i] < |order| && order[position[i]] == i
    requires forall e :: e in edges ==> e.from in index && e.to in index
    requires strata.Keys == index.Keys && forall x :: x in index ==> index[x] in position && strata[x] == position[index[x]]
    ensures AreStrata(edges, strata)
  {
    forall x, y | x in strata && y in strata
      ensures strata[x] == strata[y] <==> SameComponent(edges, x, y)
    {
      SameIndex(edges, sccs, all, index, x, y);
      assert order[position[index[x]]] == index[x] && order[position[index[y]]] == index[y];
    }
    forall e | e in edges
      ensures strata[e.from] <= strata[e.to]
    {
      EdgeClimbs(edges, index, adj, order, position, e);
    }
  }
}
