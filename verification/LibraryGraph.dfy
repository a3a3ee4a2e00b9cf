/**
  Installation over one fixed set of sources in which no two have the same name: when it
  succeeds, when it reports a cycle, and what it then has recorded.
  */
module LibraryGraph {
  import opened Prelude
  import opened RuleLibrary

  ghost predicate UniqueNames(w: Sources) {
    forall u, v :: u in w && v in w && w[u].name == w[v].name ==> u == v
  }

  /** The names under which a library's dependencies are recorded. */
  function DepNames(w: Sources, urls: seq<Url>): seq<Name>
    requires forall u :: u in urls ==> u in w
  {
    seq(|urls|, i requires 0 <= i < |urls| => assert urls[i] in urls; w[urls[i]].name)
  }

  /** The row of this name was recorded from this source. */
  ghost predicate RecordedFrom(w: Sources, row: Row, name: Name, u: Url) {
    && u in w && w[u].name == name && row.version == w[u].version && row.source == u
    && (forall d :: d in w[u].deps ==> d in w) && row.deps == DepNames(w, w[u].deps)
  }

  /** Every row of the catalog was recorded from these sources. */
  ghost predicate Matches(w: Sources, st: State) {
    forall n :: n in st.catalog ==> RecordedFrom(w, st.catalog[n], n, st.catalog[n].source)
  }

  ghost predicate Pending(w: Sources, st: State, u: Url) {
    u in w && !Installed(st, w[u])
  }

  lemma PendingMeansAbsent(w: Sources, st: State, u: Url)
    requires UniqueNames(w) && Matches(w, st) && u in w
    ensures Pending(w, st, u) <==> w[u].name !in st.catalog
  {
  }

  // ------------------------------------------------------------------------------
  // Reachability through libraries that are not installed
  // ------------------------------------------------------------------------------

  ghost predicate IsPath(w: Sources, st: State, p: seq<Url>) {
    p != [] && forall i :: 0 <= i < |p| - 1 ==> Pending(w, st, p[i]) && p[i + 1] in w[p[i]].deps
  }

  ghost predicate PathTo(w: Sources, st: State, p: seq<Url>, a: Url, b: Url) {
    IsPath(w, st, p) && p[0] == a && p[|p| - 1] == b
  }

  ghost predicate Reachable(w: Sources, st: State, a: Url, b: Url) {
    exists p :: PathTo(w, st, p, a, b)
  }

  ghost predicate ClosesAt(w: Sources, st: State, p: seq<Url>, a: Url, i: nat) {
    IsPath(w, st, p) && p[0] == a && i < |p| - 1 && p[i] == p[|p| - 1]
  }

  /** A dependency cycle can be reached from `a`. */
  ghost predicate CycleFrom(w: Sources, st: State, a: Url) {
    exists p: seq<Url>, i: nat :: ClosesAt(w, st, p, a, i)
  }

  /** A library that cannot be installed, whatever its dependencies. */
  ghost predicate Blocked(w: Sources, st: State, accept: bool, u: Url) {
    || u !in w
    || w[u].name in BUILTIN_BUNDLES
    || (!accept && w[u].license !in PERMISSIVE_LICENSES)
    || (Pending(w, st, u) && w[u].rules.Unparsable?)
  }

  ghost predicate BlockedFrom(w: Sources, st: State, accept: bool, a: Url) {
    exists u :: Reachable(w, st, a, u) && Blocked(w, st, accept, u)
  }

  /** `st` is `st0` with more rows, all recorded from the same sources. */
  ghost predicate Grown(w: Sources, st0: State, st: State) {
    Matches(w, st0) && Matches(w, st) && st0.catalog.Keys <= st.catalog.Keys
  }

  lemma PendingBefore(w: Sources, st0: State, st: State, u: Url)
    requires UniqueNames(w) && Grown(w, st0, st) && Pending(w, st, u)
    ensures Pending(w, st0, u)
  {
  }

  lemma PathBefore(w: Sources, st0: State, st: State, p: seq<Url>)
    requires UniqueNames(w) && Grown(w, st0, st) && IsPath(w, st, p)
    ensures IsPath(w, st0, p)
  {
  }

  // ------------------------------------------------------------------------------
  // A failure has a cause on the path to it
  // ------------------------------------------------------------------------------

  /** The libraries on the resolution stack: each depends on the next, none was installed. */
  ghost predicate IsTrail(w: Sources, st0: State, trail: seq<Url>, visiting: seq<Name>) {
    && |trail| == |visiting|
    && (forall i :: 0 <= i < |trail| ==> Pending(w, st0, trail[i]) && w[trail[i]].name == visiting[i])
    && (forall i :: 0 <= i < |trail| - 1 ==> trail[i + 1] in w[trail[i]].deps)
  }

  ghost predicate Caused(w: Sources, st0: State, accept: bool, root: Url, f: Failure) {
    if f.DependencyCycle? then CycleFrom(w, st0, root) else BlockedFrom(w, st0, accept, root)
  }

  lemma {:induction false} InstallFailureCaused(
    w: Sources, st0: State, st: State, url: Url, accept: bool, visiting: seq<Name>, trail: seq<Url>)
    requires UniqueNames(w) && Grown(w, st0, st) && IsTrail(w, st0, trail, visiting)
    requires trail != [] ==> url in w[trail[|trail| - 1]].deps
    ensures var r := Install(w, st, url, accept, visiting);
            r.Failed? ==> Caused(w, st0, accept, (trail + [url])[0], r.failure)
    decreases |Unvisited(w, visiting)|, 0
  {
    var p := trail + [url];
    var r := Install(w, st, url, accept, visiting);
    TrailLeads(w, st0, trail, visiting, url);
    if r.Failed? {
      if url !in w || w[url].name in BUILTIN_BUNDLES || (!accept && w[url].license !in PERMISSIVE_LICENSES) {
        assert Reachable(w, st0, p[0], url) && Blocked(w, st0, accept, url);
      } else {
        PendingBefore(w, st0, st, url);
        if w[url].name in visiting {
          TrailCloses(w, st0, trail, visiting, url);
        } else {
          PushShrinks(w, visiting, url);
          TrailGrows(w, st0, trail, visiting, url);
          InstallAllFailureCaused(w, st0, st, w[url].deps, accept, visiting + [w[url].name], p);
          if InstallAll(w, st, w[url].deps, accept, visiting + [w[url].name]).AllDone? {
            assert Reachable(w, st0, p[0], url) && Blocked(w, st0, accept, url);
          }
        }
      }
    }
  }

  lemma TrailGrows(w: Sources, st0: State, trail: seq<Url>, visiting: seq<Name>, url: Url)
    requires IsTrail(w, st0, trail, visiting) && (trail != [] ==> url in w[trail[|trail| - 1]].deps) && Pending(w, st0, url)
    ensures IsTrail(w, st0, trail + [url], visiting + [w[url].name])
  {
  }

  lemma TrailCloses(w: Sources, st0: State, trail: seq<Url>, visiting: seq<Name>, url: Url)
    requires UniqueNames(w) && IsTrail(w, st0, trail, visiting) && (trail != [] ==> url in w[trail[|trail| - 1]].deps)
    requires Pending(w, st0, url) && w[url].name in visiting
    ensures CycleFrom(w, st0, (trail + [url])[0])
  {
    var p := trail + [url];
    TrailLeads(w, st0, trail, visiting, url);
    var i :| 0 <= i < |visiting| && visiting[i] == w[url].name;
    assert trail[i] == url;
    assert ClosesAt(w, st0, p, p[0], i);
  }

  lemma TrailLeads(w: Sources, st0: State, trail: seq<Url>, visiting: seq<Name>, url: Url)
    requires IsTrail(w, st0, trail, visiting) && (trail != [] ==> url in w[trail[|trail| - 1]].deps)
    ensures var p := trail + [url]; IsPath(w, st0, p) && PathTo(w, st0, p, p[0], url) && Reachable(w, st0, p[0], url)
  {
    var p := trail + [url];
    assert IsPath(w, st0, p) && PathTo(w, st0, p, p[0], url);
  }

  lemma {:induction false} InstallAllFailureCaused(
    w: Sources, st0: State, st: State, urls: seq<Url>, accept: bool, visiting: seq<Name>, trail: seq<Url>)
    requires UniqueNames(w) && Grown(w, st0, st) && IsTrail(w, st0, trail, visiting) && trail != []
    requires forall u :: u in urls ==> u in w[trail[|trail| - 1]].deps
    ensures var r := InstallAll(w, st, urls, accept, visiting);
            r.SomeFailed? ==> Caused(w, st0, accept, trail[0], r.failure)
    decreases |Unvisited(w, visiting)|, |urls|
  {
    if urls != [] {
      assert urls[0] in urls && forall u :: u in urls[1..] ==> u in urls;
      InstallFailureCaused(w, st0, st, urls[0], accept, visiting, trail);
      var first := Install(w, st, urls[0], accept, visiting);
      if first.Done? {
        InstallDone(w, st, urls[0], accept, visiting);
        InstallAllFailureCaused(w, st0, first.state, urls[1..], accept, visiting, trail);
      }
    }
  }

  // ------------------------------------------------------------------------------
  // What a success has recorded
  // ------------------------------------------------------------------------------

  function NamesOf(w: Sources, urls: seq<Url>): set<Name>
    requires forall u :: u in urls ==> u in w
  {
    set u | u in urls :: w[u].name
  }

  /** The library passes all checks and is installed already or among `done`. */
  ghost predicate Settled(w: Sources, st: State, accept: bool, u: Url, done: seq<Url>) {
    !Blocked(w, st, accept, u) && (Installed(st, w[u]) || u in done)
  }

  ghost predicate DepsSettled(w: Sources, st: State, accept: bool, u: Url, done: seq<Url>) {
    u in w && forall d :: d in w[u].deps ==> Settled(w, st, accept, d, done)
  }

  /** Recorded libraries were pending, none twice, and each after all of its dependencies. */
  ghost predicate Ordered(w: Sources, st: State, accept: bool, recorded: seq<Url>) {
    && Distinct(recorded)
    && forall i :: 0 <= i < |recorded| ==>
         && Pending(w, st, recorded[i]) && !Blocked(w, st, accept, recorded[i])
         && DepsSettled(w, st, accept, recorded[i], recorded[..i])
  }

  ghost predicate AllKnown(w: Sources, urls: seq<Url>) {
    forall u :: u in urls ==> u in w
  }

  /** `st'` is `st` with exactly the recorded libraries added. */
  ghost predicate Adds(w: Sources, st: State, st': State, recorded: seq<Url>) {
    && Matches(w, st') && AllKnown(w, recorded)
    && st'.catalog.Keys == st.catalog.Keys + NamesOf(w, recorded)
    && forall n :: n in st.catalog ==> st'.catalog[n] == st.catalog[n]
  }

  ghost predicate Avoids(w: Sources, recorded: seq<Url>, visiting: seq<Name>) {
    forall u :: u in recorded ==> u in w && w[u].name !in visiting
  }

  ghost predicate ReachableFromSome(w: Sources, st: State, roots: seq<Url>, u: Url) {
    exists d :: d in roots && Reachable(w, st, d, u)
  }

  /** Everything a successful installation of `roots` has done. */
  ghost predicate Achieved(w: Sources, st: State, st': State, accept: bool, visiting: seq<Name>,
                           roots: seq<Url>, recorded: seq<Url>)
  {
    && Adds(w, st, st', recorded) && Ordered(w, st, accept, recorded) && Avoids(w, recorded, visiting)
    && (forall d :: d in roots ==> Settled(w, st, accept, d, recorded))
    && forall u :: u in recorded ==> ReachableFromSome(w, st, roots, u)
  }

  lemma {:induction false} InstallDone(w: Sources, st: State, url: Url, accept: bool, visiting: seq<Name>)
    requires UniqueNames(w) && Matches(w, st)
    ensures var r := Install(w, st, url, accept, visiting);
            r.Done? ==> url in w && r.name == w[url].name && Achieved(w, st, r.state, accept, visiting, [url], r.recorded)
    decreases |Unvisited(w, visiting)|, 0
  {
    var r := Install(w, st, url, accept, visiting);
    if r.Done? {
      if Installed(st, w[url]) {
        assert NamesOf(w, []) == {};
      } else {
        var m := w[url];
        PushShrinks(w, visiting, url);
        InstallAllDone(w, st, m.deps, accept, visiting + [m.name]);
        var deps := InstallAll(w, st, m.deps, accept, visiting + [m.name]);
        RecordAchieves(w, st, deps.state, url, accept, visiting, deps.recorded);
      }
    }
  }

  lemma RecordAchieves(w: Sources, st: State, st': State, url: Url, accept: bool, visiting: seq<Name>, recorded: seq<Url>)
    requires UniqueNames(w) && Matches(w, st) && Pending(w, st, url) && !Blocked(w, st, accept, url)
    requires w[url].name !in visiting && AllKnown(w, w[url].deps)
    requires Achieved(w, st, st', accept, visiting + [w[url].name], w[url].deps, recorded)
    ensures Achieved(w, st, Record(st', url, w[url], DepNames(w, w[url].deps)), accept, visiting, [url], recorded + [url])
  {
    assert url !in recorded;
    RecordAdds(w, st, st', url, recorded);
    OrderedSnoc(w, st, accept, recorded, url);
    forall u | u in recorded + [url]
      ensures ReachableFromSome(w, st, [url], u)
    {
      if u == url {
        assert PathTo(w, st, [url], url, url);
      } else {
        var d :| d in w[url].deps && Reachable(w, st, d, u);
        ReachableStep(w, st, url, d, u);
      }
      assert url in [url] && Reachable(w, st, url, u);
    }
  }

  lemma ReachableStep(w: Sources, st: State, a: Url, d: Url, u: Url)
    requires Pending(w, st, a) && d in w[a].deps && Reachable(w, st, d, u)
    ensures Reachable(w, st, a, u)
  {
    var p :| PathTo(w, st, p, d, u);
    var q := [a] + p;
    forall i | 0 <= i < |q| - 1
      ensures Pending(w, st, q[i]) && q[i + 1] in w[q[i]].deps
    {
      if i > 0 {
        assert q[i] == p[i - 1] && q[i + 1] == p[i];
      }
    }
    assert PathTo(w, st, q, a, u);
  }

  lemma RecordAdds(w: Sources, st: State, st': State, url: Url, recorded: seq<Url>)
    requires UniqueNames(w) && Matches(w, st) && Adds(w, st, st', recorded)
    requires Pending(w, st, url) && url !in recorded && AllKnown(w, w[url].deps)
    ensures Adds(w, st, Record(st', url, w[url], DepNames(w, w[url].deps)), recorded + [url])
  {
    NameIsNew(w, st, st', url, recorded);
    RecordMatches(w, st', url);
  }

  lemma NameIsNew(w: Sources, st: State, st': State, url: Url, recorded: seq<Url>)
    requires UniqueNames(w) && Matches(w, st) && Adds(w, st, st', recorded)
    requires Pending(w, st, url) && url !in recorded
    ensures w[url].name !in st'.catalog && AllKnown(w, recorded + [url])
    ensures NamesOf(w, recorded + [url]) == NamesOf(w, recorded) + {w[url].name}
  {
    PendingMeansAbsent(w, st, url);
  }

  lemma RecordMatches(w: Sources, st: State, url: Url)
    requires Matches(w, st) && url in w && AllKnown(w, w[url].deps)
    ensures Matches(w, Record(st, url, w[url], DepNames(w, w[url].deps)))
  {
    var m := w[url];
    var after := Record(st, url, m, DepNames(w, m.deps));
    forall n | n in after.catalog
      ensures RecordedFrom(w, after.catalog[n], n, after.catalog[n].source)
    {
      if n != m.name {
        assert RecordedFrom(w, st.catalog[n], n, st.catalog[n].source);
      }
    }
  }

  lemma OrderedSnoc(w: Sources, st: State, accept: bool, recorded: seq<Url>, url: Url)
    requires Ordered(w, st, accept, recorded) && Pending(w, st, url) && !Blocked(w, st, accept, url) && url !in recorded
    requires DepsSettled(w, st, accept, url, recorded)
    ensures Ordered(w, st, accept, recorded + [url])
  {
    var more := recorded + [url];
    forall i | 0 <= i < |more|
      ensures Pending(w, st, more[i]) && !Blocked(w, st, accept, more[i]) && DepsSettled(w, st, accept, more[i], more[..i])
    {
      if i < |recorded| {
        assert more[..i] == recorded[..i] && more[i] == recorded[i];
      } else {
        assert more[..i] == recorded;
      }
    }
  }

  lemma {:induction false} InstallAllDone(w: Sources, st: State, urls: seq<Url>, accept: bool, visiting: seq<Name>)
    requires UniqueNames(w) && Matches(w, st)
    ensures var r := InstallAll(w, st, urls, accept, visiting);
            r.AllDone? ==> AllKnown(w, urls) && r.names == DepNames(w, urls)
                           && Achieved(w, st, r.state, accept, visiting, urls, r.recorded)
    decreases |Unvisited(w, visiting)|, |urls|
  {
    var r := InstallAll(w, st, urls, accept, visiting);
    if urls == [] {
      assert NamesOf(w, []) == {};
    } else if r.AllDone? {
      InstallDone(w, st, urls[0], accept, visiting);
      var first := Install(w, st, urls[0], accept, visiting);
      InstallAllDone(w, first.state, urls[1..], accept, visiting);
      var rest := InstallAll(w, first.state, urls[1..], accept, visiting);
      FirstThenRest(w, st, urls, accept, visiting);
      DoneTogether(w, st, urls, accept, visiting, first, rest);
    }
  }

  lemma DoneTogether(w: Sources, st: State, urls: seq<Url>, accept: bool, visiting: seq<Name>, first: Installation, rest: Installations)
    requires UniqueNames(w) && Matches(w, st) && urls != []
    requires first.Done? && urls[0] in w && first.name == w[urls[0]].name
    requires Achieved(w, st, first.state, accept, visiting, [urls[0]], first.recorded)
    requires rest.AllDone? && AllKnown(w, urls[1..]) && rest.names == DepNames(w, urls[1..])
    requires Achieved(w, first.state, rest.state, accept, visiting, urls[1..], rest.recorded)
    ensures AllKnown(w, urls) && [first.name] + rest.names == DepNames(w, urls)
    ensures Achieved(w, st, rest.state, accept, visiting, urls, first.recorded + rest.recorded)
  {
    assert urls == [urls[0]] + urls[1..];
    AchievedBoth(w, st, first.state, rest.state, accept, visiting, [urls[0]], urls[1..], first.recorded, rest.recorded);
    NamesOfBoth(w, urls[0], urls[1..]);
  }

  lemma FirstThenRest(w: Sources, st: State, urls: seq<Url>, accept: bool, visiting: seq<Name>)
    requires urls != []
    ensures var all, first := InstallAll(w, st, urls, accept, visiting), Install(w, st, urls[0], accept, visiting);
            all.AllDone? ==>
              && first.Done?
              && var rest := InstallAll(w, first.state, urls[1..], accept, visiting);
              && rest.AllDone? && all.state == rest.state
              && all.names == [first.name] + rest.names && all.recorded == first.recorded + rest.recorded
  {
  }

  lemma NamesOfBoth(w: Sources, url: Url, more: seq<Url>)
    requires url in w && AllKnown(w, more)
    ensures AllKnown(w, [url] + more) && DepNames(w, [url] + more) == [w[url].name] + DepNames(w, more)
  {
  }

  lemma AchievedBoth(w: Sources, st: State, st1: State, st2: State, accept: bool, visiting: seq<Name>,
                     roots: seq<Url>, more: seq<Url>, a: seq<Url>, b: seq<Url>)
    requires UniqueNames(w) && Matches(w, st)
    requires Achieved(w, st, st1, accept, visiting, roots, a) && Achieved(w, st1, st2, accept, visiting, more, b)
    ensures Achieved(w, st, st2, accept, visiting, roots + more, a + b)
  {
    OrderedAppend(w, st, st1, accept, a, b);
    AddsBoth(w, st, st1, st2, a, b);
    forall d | d in roots + more
      ensures Settled(w, st, accept, d, a + b)
    {
      if d !in roots {
        SettledBefore(w, st, st1, accept, d, a, b);
      }
    }
    forall u | u in a + b
      ensures ReachableFromSome(w, st, roots + more, u)
    {
      if u in a {
        ReachableFromMore(w, st, st, roots, roots + more, u);
      } else {
        ReachableFromMore(w, st, st1, more, roots + more, u);
      }
    }
  }

  lemma AddsBoth(w: Sources, st: State, st1: State, st2: State, a: seq<Url>, b: seq<Url>)
    requires Adds(w, st, st1, a) && Adds(w, st1, st2, b)
    ensures Adds(w, st, st2, a + b)
  {
  }

  lemma ReachableFromMore(w: Sources, st0: State, st: State, roots: seq<Url>, more: seq<Url>, u: Url)
    requires UniqueNames(w) && Grown(w, st0, st) && (forall d :: d in roots ==> d in more)
    requires ReachableFromSome(w, st, roots, u)
    ensures ReachableFromSome(w, st0, more, u)
  {
    var d :| d in roots && Reachable(w, st, d, u);
    var p :| PathTo(w, st, p, d, u);
    PathBefore(w, st0, st, p);
    assert PathTo(w, st0, p, d, u);
  }

  /** Settled after part of the work is settled from the start. */
  lemma SettledBefore(w: Sources, st: State, st': State, accept: bool, d: Url, recorded: seq<Url>, later: seq<Url>)
    requires UniqueNames(w) && Matches(w, st) && Adds(w, st, st', recorded) && Ordered(w, st, accept, recorded)
    requires Settled(w, st', accept, d, later)
    ensures Settled(w, st, accept, d, recorded + later)
  {
  }

  lemma OrderedAppend(w: Sources, st: State, st': State, accept: bool, a: seq<Url>, b: seq<Url>)
    requires UniqueNames(w) && Matches(w, st) && Adds(w, st, st', a)
    requires Ordered(w, st, accept, a) && Ordered(w, st', accept, b)
    ensures Ordered(w, st, accept, a + b)
  {
    var c := a + b;
    forall i | 0 <= i < |b|
      ensures Pending(w, st, b[i]) && b[i] !in a
    {
      PendingMeansAbsent(w, st, b[i]);
      PendingMeansAbsent(w, st', b[i]);
    }
    forall i | 0 <= i < |c|
      ensures Pending(w, st, c[i]) && !Blocked(w, st, accept, c[i]) && DepsSettled(w, st, accept, c[i], c[..i])
    {
      if i < |a| {
        assert c[..i] == a[..i] && c[i] == a[i];
      } else {
        assert c[..i] == a + b[..i - |a|] && c[i] == b[i - |a|];
        forall d | d in w[c[i]].deps
          ensures Settled(w, st, accept, d, c[..i])
        {
          SettledBefore(w, st, st', accept, d, a, b[..i - |a|]);
        }
      }
    }
  }

  // ------------------------------------------------------------------------------
  // The decision
  // ------------------------------------------------------------------------------

  /** Along a path from a settled library all are settled, each recorded before the one that needs it. */
  lemma {:induction false} PathStaysSettled(w: Sources, st: State, accept: bool, recorded: seq<Url>, p: seq<Url>, i: nat)
    requires Ordered(w, st, accept, recorded) && IsPath(w, st, p) && i < |p|
    requires Settled(w, st, accept, p[0], recorded)
    ensures Settled(w, st, accept, p[i], recorded)
    ensures i > 0 && Pending(w, st, p[i]) ==> exists a, b :: 0 <= a < b < |recorded| && recorded[a] == p[i] && recorded[b] == p[i - 1]
  {
    if i > 0 {
      PathStaysSettled(w, st, accept, recorded, p, i - 1);
      assert Pending(w, st, p[i - 1]) && p[i - 1] in recorded;
      var b :| 0 <= b < |recorded| && recorded[b] == p[i - 1];
      assert DepsSettled(w, st, accept, recorded[b], recorded[..b]);
      assert Settled(w, st, accept, p[i], recorded[..b]);
      if Pending(w, st, p[i]) {
        var a :| 0 <= a < b && recorded[..b][a] == p[i];
        assert recorded[a] == p[i];
      }
    }
  }

  /** So positions in the record fall along the path. */
  lemma {:induction false} PositionsFall(w: Sources, st: State, accept: bool, recorded: seq<Url>, p: seq<Url>, i: nat, j: nat,
                                         a: nat, b: nat)
    requires Ordered(w, st, accept, recorded) && IsPath(w, st, p) && i < j < |p| && Settled(w, st, accept, p[0], recorded)
    requires a < |recorded| && b < |recorded| && recorded[a] == p[j] && recorded[b] == p[i]
    ensures a < b
    decreases j - i
  {
    PathStaysSettled(w, st, accept, recorded, p, j);
    assert Pending(w, st, recorded[a]);
    var a', b' :| 0 <= a' < b' < |recorded| && recorded[a'] == p[j] && recorded[b'] == p[j - 1];
    assert a == a';
    if i < j - 1 {
      PositionsFall(w, st, accept, recorded, p, i, j - 1, b', b);
    }
  }

  lemma SuccessMeansNoCycle(w: Sources, st: State, accept: bool, recorded: seq<Url>, url: Url)
    requires Ordered(w, st, accept, recorded) && Settled(w, st, accept, url, recorded)
    ensures !CycleFrom(w, st, url) && !BlockedFrom(w, st, accept, url)
  {
    if CycleFrom(w, st, url) {
      var p: seq<Url>, i: nat :| ClosesAt(w, st, p, url, i);
      PathStaysSettled(w, st, accept, recorded, p, i);
      var a :| 0 <= a < |recorded| && recorded[a] == p[i];
      PositionsFall(w, st, accept, recorded, p, i, |p| - 1, a, a);
      assert false;
    }
    if BlockedFrom(w, st, accept, url) {
      var u :| Reachable(w, st, url, u) && Blocked(w, st, accept, u);
      var p :| PathTo(w, st, p, url, u);
      PathStaysSettled(w, st, accept, recorded, p, |p| - 1);
      assert false;
    }
  }

  /**
    Over fixed sources with unique names, installation succeeds exactly when no library
    reached through pending ones is blocked and no cycle is reached that way.  If nothing
    is blocked it reports a cycle exactly when there is one.
    */
  lemma InstallDecides(w: Sources, st: State, url: Url, accept: bool)
    requires UniqueNames(w) && Matches(w, st)
    ensures var r := Install(w, st, url, accept, []);
            && (r.Done? <==> !BlockedFrom(w, st, accept, url) && !CycleFrom(w, st, url))
            && (r.Failed? && r.failure.DependencyCycle? ==> CycleFrom(w, st, url))
            && (r.Failed? && !r.failure.DependencyCycle? ==> BlockedFrom(w, st, accept, url))
  {
    var r := Install(w, st, url, accept, []);
    assert ([] + [url])[0] == url;
    InstallFailureCaused(w, st, st, url, accept, [], []);
    if r.Done? {
      InstallDone(w, st, url, accept, []);
      assert url in [url];
      SuccessMeansNoCycle(w, st, accept, r.recorded, url);
    }
  }

  /**
    An upgrade fails exactly when the library is missing or required, or when without it a cycle
    or a library that cannot be installed is reached from its source.
    */
  lemma UpgradeDecides(w: Sources, st: State, name: Name)
    requires UniqueNames(w) && (name in st.catalog ==> Matches(w, Removed(st, name)))
    ensures Outcome(st, UpgradeLibrary(w, name)).Err?
       <==> (|| name !in st.catalog || Required(st, name)
             || BlockedFrom(w, Removed(st, name), true, st.catalog[name].source)
             || CycleFrom(w, Removed(st, name), st.catalog[name].source))
  {
    if name in st.catalog {
      InstallDecides(w, Removed(st, name), st.catalog[name].source, true);
    }
  }

  /** A success records exactly the pending libraries that can be reached, dependencies first. */
  lemma InstallRecordsReachable(w: Sources, st: State, url: Url, accept: bool)
    requires UniqueNames(w) && Matches(w, st) && Install(w, st, url, accept, []).Done?
    ensures var r := Install(w, st, url, accept, []);
            && Adds(w, st, r.state, r.recorded) && Ordered(w, st, accept, r.recorded)
            && forall u :: u in r.recorded <==> Pending(w, st, u) && Reachable(w, st, url, u)
  {
    var r := Install(w, st, url, accept, []);
    InstallDone(w, st, url, accept, []);
    assert url in [url];
    forall u | Pending(w, st, u) && Reachable(w, st, url, u)
      ensures u in r.recorded
    {
      var p :| PathTo(w, st, p, url, u);
      PathStaysSettled(w, st, accept, r.recorded, p, |p| - 1);
    }
  }

  // ------------------------------------------------------------------------------
  // The catalog stays acyclic
  // ------------------------------------------------------------------------------

  /** All rows in an order in which dependencies come first. */
  ghost predicate Topological(catalog: map<Name, Row>, order: seq<Name>) {
    && Distinct(order) && (forall n :: n in order <==> n in catalog)
    && forall i, d :: 0 <= i < |order| && d in catalog[order[i]].deps ==> d in order[..i]
  }

  ghost predicate Acyclic(catalog: map<Name, Row>) {
    exists order :: Topological(catalog, order)
  }

  ghost predicate Consistent(w: Sources, st: State) {
    Sound(st) && Matches(w, st) && Acyclic(st.catalog)
  }

  lemma InstallKeepsConsistent(w: Sources, st: State, url: Url, accept: bool)
    requires UniqueNames(w) && Consistent(w, st)
    ensures var r := Install(w, st, url, accept, []); r.Done? ==> Consistent(w, r.state)
  {
    var r := Install(w, st, url, accept, []);
    InstallKeepsSound(w, st, url, accept, []);
    if r.Done? {
      InstallDone(w, st, url, accept, []);
      var order :| Topological(st.catalog, order);
      TopologicalAfterAdds(w, st, r.state, accept, order, r.recorded);
    }
  }

  /** The new names: not in the old catalog, in the new one, and all that is new. */
  lemma NewNames(w: Sources, st: State, st': State, accept: bool, recorded: seq<Url>)
    requires UniqueNames(w) && Matches(w, st) && Adds(w, st, st', recorded) && Ordered(w, st, accept, recorded)
    ensures var names := DepNames(w, recorded);
            && (forall i :: 0 <= i < |recorded| ==> names[i] == w[recorded[i]].name && names[i] !in st.catalog && names[i] in st'.catalog)
            && forall n :: n in st'.catalog && n !in st.catalog ==> n in names
  {
  }

  lemma NamesStayDistinct(w: Sources, st: State, st': State, accept: bool, order: seq<Name>, recorded: seq<Url>)
    requires UniqueNames(w) && Matches(w, st) && Topological(st.catalog, order)
    requires Adds(w, st, st', recorded) && Ordered(w, st, accept, recorded)
    ensures Distinct(order + DepNames(w, recorded))
  {
  }

  lemma TopologicalAfterAdds(w: Sources, st: State, st': State, accept: bool, order: seq<Name>, recorded: seq<Url>)
    requires UniqueNames(w) && Matches(w, st) && Topological(st.catalog, order)
    requires Adds(w, st, st', recorded) && Ordered(w, st, accept, recorded)
    ensures Topological(st'.catalog, order + DepNames(w, recorded))
  {
    var names := DepNames(w, recorded);
    var longer := order + names;
    NewNames(w, st, st', accept, recorded);
    NamesStayDistinct(w, st, st', accept, order, recorded);
    forall i, d | 0 <= i < |longer| && d in st'.catalog[longer[i]].deps
      ensures d in longer[..i]
    {
      if i < |order| {
        assert longer[..i] == order[..i] && longer[i] == order[i];
        assert d in st.catalog[order[i]].deps;
      } else {
        var k := i - |order|;
        assert longer[..i] == order + names[..k];
        NewRowDepsFirst(w, st, st', accept, recorded, k, d);
      }
    }
  }

  lemma NewRowDepsFirst(w: Sources, st: State, st': State, accept: bool, recorded: seq<Url>, k: nat, d: Name)
    requires UniqueNames(w) && Matches(w, st) && Adds(w, st, st', recorded) && Ordered(w, st, accept, recorded)
    requires k < |recorded| && recorded[k] in w && w[recorded[k]].name in st'.catalog && d in st'.catalog[w[recorded[k]].name].deps
    ensures d in st.catalog || d in DepNames(w, recorded)[..k]
  {
    var u := recorded[k];
    var row := st'.catalog[w[u].name];
    assert RecordedFrom(w, row, w[u].name, row.source);
    assert row.source == u;
    var j :| 0 <= j < |row.deps| && row.deps[j] == d;
    var v := w[u].deps[j];
    assert v in w[u].deps && w[v].name == d;
    assert Settled(w, st, accept, v, recorded[..k]);
    if !Installed(st, w[v]) {
      var a :| 0 <= a < k && recorded[..k][a] == v;
      assert DepNames(w, recorded)[..k][a] == d;
    }
  }

  /** What comes before the name in `order`, as far as it belongs to `s`, comes before it in `rest`. */
  ghost predicate KeepsOrder(order: seq<Name>, s: set<Name>, rest: seq<Name>, i: nat)
    requires i < |rest|
  {
    exists j :: 0 <= j < |order| && order[j] == rest[i] && forall n :: n in order[..j] && n in s ==> n in rest[..i]
  }

  lemma {:induction false} Sublist(order: seq<Name>, s: set<Name>) returns (rest: seq<Name>)
    requires Distinct(order)
    ensures Distinct(rest) && forall n :: n in rest <==> n in order && n in s
    ensures forall i :: 0 <= i < |rest| ==> KeepsOrder(order, s, rest, i)
  {
    if order == [] {
      rest := [];
    } else {
      var most, last := order[..|order| - 1], order[|order| - 1];
      assert order == most + [last] && last !in most;
      var sofar := Sublist(most, s);
      rest := if last in s then sofar + [last] else sofar;
      forall i | 0 <= i < |rest|
        ensures KeepsOrder(order, s, rest, i)
      {
        if i < |sofar| {
          assert KeepsOrder(most, s, sofar, i);
          var j :| 0 <= j < |most| && most[j] == sofar[i] && forall n :: n in most[..j] && n in s ==> n in sofar[..i];
          assert order[..j] == most[..j] && rest[..i] == sofar[..i];
        } else {
          assert order[..|most|] == most && rest[..i] == sofar;
        }
      }
    }
  }

  lemma RemovedKeepsConsistent(w: Sources, st: State, name: Name)
    requires Consistent(w, st) && name in st.catalog && !Required(st, name)
    ensures Consistent(w, Removed(st, name))
  {
    RemovedKeepsSound(st, name);
    var order :| Topological(st.catalog, order);
    var catalog := Removed(st, name).catalog;
    var rest := Sublist(order, catalog.Keys);
    forall i, d | 0 <= i < |rest| && d in catalog[rest[i]].deps
      ensures d in rest[..i]
    {
      assert KeepsOrder(order, catalog.Keys, rest, i);
      var j :| 0 <= j < |order| && order[j] == rest[i] && forall n :: n in order[..j] && n in catalog.Keys ==> n in rest[..i];
      assert d in st.catalog[order[j]].deps && d != name;
    }
    assert Topological(catalog, rest);
  }

  ghost predicate UsesSources(c: Command, w: Sources) {
    c.UninstallLibrary? || c.w == w
  }

  lemma StepKeepsConsistent(w: Sources, st: State, c: Command)
    requires UniqueNames(w) && Consistent(w, st) && UsesSources(c, w)
    ensures Consistent(w, Step(st, c))
  {
    match c
    case InstallLibrary(_, url, accept) => InstallKeepsConsistent(w, st, url, accept);
    case UpgradeLibrary(_, name) =>
      if name in st.catalog && !Required(st, name) {
        RemovedKeepsConsistent(w, st, name);
        InstallKeepsConsistent(w, Removed(st, name), st.catalog[name].source, true);
      }
    case UninstallLibrary(name) =>
      if name in st.catalog && !Required(st, name) {
        RemovedKeepsConsistent(w, st, name);
      }
  }

  /** In every run over one set of sources the catalog's dependency graph is acyclic. */
  lemma {:induction false} RunsStayConsistent(w: Sources, commands: seq<Command>)
    requires UniqueNames(w) && forall i :: 0 <= i < |commands| ==> UsesSources(commands[i], w)
    ensures Consistent(w, Run(EMPTY, commands))
  {
    if commands == [] {
      assert Topological(map[], []);
    } else {
      RunsStayConsistent(w, commands[..|commands| - 1]);
      StepKeepsConsistent(w, Run(EMPTY, commands[..|commands| - 1]), commands[|commands| - 1]);
    }
  }

  lemma FreeLibraryExists(st: State)
    requires Acyclic(st.catalog) && st.catalog != map[]
    ensures exists n :: n in st.catalog && !Required(st, n)
  {
    var order :| Topological(st.catalog, order);
    var n :| n in st.catalog;
    assert n in order;
    LastIsFree(st, order);
  }

  /** Hence some installed library is always free to go. */
  lemma SomethingCanBeUninstalled(w: Sources, commands: seq<Command>) returns (n: Name)
    requires UniqueNames(w) && forall i :: 0 <= i < |commands| ==> UsesSources(commands[i], w)
    requires Run(EMPTY, commands).catalog != map[]
    ensures Outcome(Run(EMPTY, commands), UninstallLibrary(n)).Ok?
  {
    RunsStayConsistent(w, commands);
    FreeLibraryExists(Run(EMPTY, commands));
    n :| n in Run(EMPTY, commands).catalog && !Required(Run(EMPTY, commands), n);
  }

  lemma LastIsFree(st: State, order: seq<Name>)
    requires Topological(st.catalog, order) && order != []
    ensures order[|order| - 1] in st.catalog && !Required(st, order[|order| - 1])
  {
  }

  // ------------------------------------------------------------------------------
  // Exactly when recording a library keeps the catalog acyclic
  // ------------------------------------------------------------------------------

  /** A chain of rows, each requiring the next. */
  ghost predicate IsChain(catalog: map<Name, Row>, p: seq<Name>) {
    p != [] && forall i :: 0 <= i < |p| - 1 ==> p[i] in catalog && p[i + 1] in catalog[p[i]].deps
  }

  ghost predicate ChainTo(catalog: map<Name, Row>, p: seq<Name>, a: Name, b: Name) {
    IsChain(catalog, p) && p[0] == a && p[|p| - 1] == b
  }

  /** The library is the other one or requires it, directly or through others. */
  ghost predicate Requires(catalog: map<Name, Row>, a: Name, b: Name) {
    exists p :: ChainTo(catalog, p, a, b)
  }

  lemma RequiresSelf(catalog: map<Name, Row>, a: Name)
    ensures Requires(catalog, a, a)
  {
    assert ChainTo(catalog, [a], a, a);
  }

  lemma RequiresThrough(catalog: map<Name, Row>, a: Name, d: Name, b: Name)
    requires a in catalog && d in catalog[a].deps && Requires(catalog, d, b)
    ensures Requires(catalog, a, b)
  {
    var p :| ChainTo(catalog, p, d, b);
    var q := [a] + p;
    forall i | 0 <= i < |q| - 1
      ensures q[i] in catalog && q[i + 1] in catalog[q[i]].deps
    {
      if i > 0 {
        assert q[i] == p[i - 1] && q[i + 1] == p[i - 1 + 1];
      }
    }
    assert ChainTo(catalog, q, a, b);
  }

  /** Along a chain of rows the positions in a topological order fall. */
  lemma {:induction false} ChainFalls(catalog: map<Name, Row>, order: seq<Name>, p: seq<Name>, k: nat, i: nat) returns (m: nat)
    requires Topological(catalog, order) && IsChain(catalog, p) && k < |order| && order[k] == p[0] && i < |p|
    ensures m <= k && order[m] == p[i]
  {
    if i == 0 {
      m := k;
    } else {
      var before := ChainFalls(catalog, order, p, k, i - 1);
      assert p[i - 1 + 1] in catalog[p[i - 1]].deps;
      assert p[i] in order[..before];
      m :| 0 <= m < before && order[m] == p[i];
    }
  }

  /** A chain up to its first meeting with `name` does not look at the row of `name`. */
  lemma {:induction false} ChainBeforeName(catalog: map<Name, Row>, row: Row, name: Name, p: seq<Name>, a: Name) returns (q: seq<Name>)
    requires ChainTo(catalog, p, a, name)
    ensures ChainTo(catalog[name := row], q, a, name)
    decreases |p|
  {
    if a == name {
      q := [name];
    } else {
      assert p[0] in catalog && p[0 + 1] in catalog[p[0]].deps;
      forall i | 0 <= i < |p[1..]| - 1
        ensures p[1..][i] in catalog && p[1..][i + 1] in catalog[p[1..][i]].deps
      {
        assert p[1..][i] == p[i + 1] && p[1..][i + 1] == p[i + 1 + 1];
      }
      var rest := ChainBeforeName(catalog, row, name, p[1..], p[1]);
      q := [a] + rest;
      forall i | 0 <= i < |q| - 1
        ensures q[i] in catalog[name := row] && q[i + 1] in catalog[name := row][q[i]].deps
      {
        if i > 0 {
          assert q[i] == rest[i - 1] && q[i + 1] == rest[i - 1 + 1];
        }
      }
    }
  }

  lemma CycleThroughRow(catalog: map<Name, Row>, name: Name, row: Row, d: Name)
    requires d in row.deps && Requires(catalog, d, name)
    ensures !Acyclic(catalog[name := row])
  {
    var after := catalog[name := row];
    var p :| ChainTo(catalog, p, d, name);
    var q := ChainBeforeName(catalog, row, name, p, d);
    forall order
      ensures !Topological(after, order)
    {
      if Topological(after, order) {
        assert name in order;
        var k :| 0 <= k < |order| && order[k] == name;
        assert d in order[..k];
        var m :| 0 <= m < k && order[m] == d;
        var e := ChainFalls(after, order, q, m, |q| - 1);
        assert false;
      }
    }
  }

  /** Dependents of the name go after it, everything else before it. */
  lemma OrderAround(catalog: map<Name, Row>, order: seq<Name>, name: Name, row: Row) returns (longer: seq<Name>)
    requires Topological(catalog, order) && forall d :: d in row.deps ==> d in catalog && !Requires(catalog, d, name)
    ensures Topological(catalog[name := row], longer)
  {
    var above := set n | n in catalog && n != name && Requires(catalog, n, name);
    var below := set n | n in catalog && n != name && !Requires(catalog, n, name);
    var a := Sublist(order, below);
    var b := Sublist(order, above);
    RequiresSelf(catalog, name);
    longer := a + [name] + b;
    var after := catalog[name := row];
    DistinctAround(a, name, b);
    forall n
      ensures n in longer <==> n in after
    {
      assert n in longer <==> n in a || n == name || n in b;
    }
    forall i, d | 0 <= i < |longer| && d in after[longer[i]].deps
      ensures d in longer[..i]
    {
      if i < |a| {
        BelowFirst(catalog, order, name, below, a, i, d);
        assert longer[..i] == a[..i];
      } else if i == |a| {
        assert longer[..i] == a;
      } else {
        var k := i - |a| - 1;
        assert longer[..i] == a + [name] + b[..k];
        assert KeepsOrder(order, above, b, k);
        var j :| 0 <= j < |order| && order[j] == b[k] && forall n :: n in order[..j] && n in above ==> n in b[..k];
        assert d in order[..j] && d in catalog;
      }
    }
  }

  lemma DistinctAround(a: seq<Name>, name: Name, b: seq<Name>)
    requires Distinct(a) && Distinct(b) && name !in a && name !in b && forall n :: n in a ==> n !in b
    ensures Distinct(a + [name] + b)
  {
    var all := a + [name] + b;
    forall i, j | 0 <= i < j < |all|
      ensures all[i] != all[j]
    {
      assert i < |a| ==> all[i] == a[i] && a[i] in a;
      assert j > |a| ==> all[j] == b[j - |a| - 1] && b[j - |a| - 1] in b;
    }
  }

  lemma BelowFirst(catalog: map<Name, Row>, order: seq<Name>, name: Name, below: set<Name>, a: seq<Name>, i: nat, d: Name)
    requires Topological(catalog, order) && i < |a| && KeepsOrder(order, below, a, i)
    requires below == set n | n in catalog && n != name && !Requires(catalog, n, name)
    requires a[i] in below && d in catalog[a[i]].deps
    ensures d in a[..i]
  {
    var j :| 0 <= j < |order| && order[j] == a[i] && forall n :: n in order[..j] && n in below ==> n in a[..i];
    assert d in order[..j];
    assert d in order && d in catalog;
    RequiresSelf(catalog, name);
    if Requires(catalog, d, name) {
      RequiresThrough(catalog, a[i], d, name);
    }
  }

  /**
    Whatever the sources were when the rows were written: recording a library keeps an acyclic
    catalog acyclic exactly when none of its dependencies requires it through the catalog.
    */
  lemma RecordKeepsAcyclicExactlyWhen(st: State, url: Url, m: Meta, deps: seq<Name>)
    requires Acyclic(st.catalog) && forall d :: d in deps ==> d in st.catalog
    ensures Acyclic(Record(st, url, m, deps).catalog) <==> forall d :: d in deps ==> !Requires(st.catalog, d, m.name)
  {
    var row := Record(st, url, m, deps).catalog[m.name];
    if d :| d in deps && Requires(st.catalog, d, m.name) {
      CycleThroughRow(st.catalog, m.name, row, d);
    } else {
      var order :| Topological(st.catalog, order);
      var longer := OrderAround(st.catalog, order, m.name, row);
    }
  }

  // ------------------------------------------------------------------------------
  // Sources that change
  // ------------------------------------------------------------------------------

  function Plain(name: Name, version: string, deps: seq<Url>): Meta {
    Meta(name, version, "https://spdx.org/licenses/MIT.html", deps, NoRules, {})
  }

  lemma PlainInstall(w: Sources, st: State, url: Url, visiting: seq<Name>)
    requires url in w && w[url].name !in BUILTIN_BUNDLES && w[url].license in PERMISSIVE_LICENSES && w[url].rules.NoRules?
    ensures Installed(st, w[url]) ==> Install(w, st, url, false, visiting) == Done(st, w[url].name, [])
    ensures var all := InstallAll(w, st, w[url].deps, false, visiting + [w[url].name]);
            !Installed(st, w[url]) && w[url].name !in visiting && all.AllDone? ==>
              Install(w, st, url, false, visiting)
              == Done(Record(all.state, url, w[url], all.names), w[url].name, all.recorded + [url])
  {
  }

  lemma InstallOne(w: Sources, st: State, url: Url, visiting: seq<Name>)
    ensures var r := Install(w, st, url, false, visiting);
            r.Done? ==> InstallAll(w, st, [url], false, visiting) == AllDone(r.state, [r.name], r.recorded)
  {
    var r := Install(w, st, url, false, visiting);
    assert [url][1..] == [];
    if r.Done? {
      assert InstallAll(w, r.state, [], false, visiting) == AllDone(r.state, [], []);
      assert r.recorded + [] == r.recorded && [r.name] + [] == [r.name];
    }
  }

  function OneRequiresOther(): State {
    Record(Record(EMPTY, "a", Plain("a", "1", []), []), "b", Plain("b", "1", ["a"]), ["a"])
  }

  lemma FirstInstall(w: Sources)
    requires w == map["a" := Plain("a", "1", []), "b" := Plain("b", "1", ["a"])]
    ensures Install(w, EMPTY, "b", false, []) == Done(OneRequiresOther(), "b", ["a"] + ["b"])
  {
    assert InstallAll(w, EMPTY, [], false, ["b"] + ["a"]) == AllDone(EMPTY, [], []);
    PlainInstall(w, EMPTY, "a", ["b"]);
    assert [] + ["a"] == ["a"] && [] + ["b"] == ["b"];
    InstallOne(w, EMPTY, "a", ["b"]);
    PlainInstall(w, EMPTY, "b", []);
  }

  lemma SecondInstall(w: Sources)
    requires w == map["a" := Plain("a", "2", ["b"]), "b" := Plain("b", "1", ["a"])]
    ensures Install(w, OneRequiresOther(), "a", false, [])
         == Done(Record(OneRequiresOther(), "a", Plain("a", "2", ["b"]), ["b"]), "a", [] + ["a"])
  {
    PlainInstall(w, OneRequiresOther(), "b", ["a"]);
    InstallOne(w, OneRequiresOther(), "b", ["a"]);
    assert [] + ["a"] == ["a"];
    PlainInstall(w, OneRequiresOther(), "a", []);
  }

  function RequireEachOther(): State {
    Record(OneRequiresOther(), "a", Plain("a", "2", ["b"]), ["b"])
  }

  lemma TwoInstalls(w1: Sources, w2: Sources)
    requires w1 == map["a" := Plain("a", "1", []), "b" := Plain("b", "1", ["a"])]
    requires w2 == map["a" := Plain("a", "2", ["b"]), "b" := Plain("b", "1", ["a"])]
    ensures Run(EMPTY, [InstallLibrary(w1, "b", false), InstallLibrary(w2, "a", false)]) == RequireEachOther()
  {
    var commands := [InstallLibrary(w1, "b", false), InstallLibrary(w2, "a", false)];
    assert commands[..1] == [commands[0]] && commands[..1][..0] == [];
    FirstInstall(w1);
    assert Run(EMPTY, commands[..1]) == OneRequiresOther();
    SecondInstall(w2);
  }

  lemma EachOtherIsCyclic()
    ensures !Acyclic(RequireEachOther().catalog)
  {
    var before, after := OneRequiresOther().catalog, RequireEachOther().catalog;
    assert "a" in before["b"].deps && "b" in after["a"].deps;
    RequiresSelf(before, "a");
    RequiresThrough(before, "b", "a", "a");
    CycleThroughRow(before, "a", after["a"], "b");
    assert after == before["a" := after["a"]];
  }

  lemma EachOtherIsLocked(w: Sources)
    ensures var st := RequireEachOther();
            && st.catalog.Keys == {"a", "b"} && st.catalog["a"].deps == ["b"] && st.catalog["b"].deps == ["a"]
            && Outcome(st, UninstallLibrary("a")).Err? && Outcome(st, UninstallLibrary("b")).Err?
            && Outcome(st, UpgradeLibrary(w, "a")).Err? && Outcome(st, UpgradeLibrary(w, "b")).Err?
  {
    var st := RequireEachOther();
    assert "b" in st.catalog["a"].deps && "a" in st.catalog["b"].deps;
    assert Required(st, "a") && Required(st, "b");
  }

  /**
    Library b requires a.  The source of a moves on to a version that requires b, and a is
    installed again: the two require each other, and neither can be uninstalled or upgraded.
    At each step every name has one source.
    */
  lemma ChangingVersionsCanLock()
    ensures
      var w1: Sources := map["a" := Plain("a", "1", []), "b" := Plain("b", "1", ["a"])];
      var w2: Sources := map["a" := Plain("a", "2", ["b"]), "b" := Plain("b", "1", ["a"])];
      var st := Run(EMPTY, [InstallLibrary(w1, "b", false), InstallLibrary(w2, "a", false)]);
      && UniqueNames(w1) && UniqueNames(w2)
      && st.catalog.Keys == {"a", "b"} && st.catalog["a"].deps == ["b"] && st.catalog["b"].deps == ["a"]
      && !Acyclic(st.catalog)
      && Outcome(st, UninstallLibrary("a")).Err? && Outcome(st, UninstallLibrary("b")).Err?
      && Outcome(st, UpgradeLibrary(w2, "a")).Err? && Outcome(st, UpgradeLibrary(w2, "b")).Err?
  {
    var w1: Sources := map["a" := Plain("a", "1", []), "b" := Plain("b", "1", ["a"])];
    var w2: Sources := map["a" := Plain("a", "2", ["b"]), "b" := Plain("b", "1", ["a"])];
    TwoInstalls(w1, w2);
    EachOtherIsCyclic();
    EachOtherIsLocked(w2);
  }
}
