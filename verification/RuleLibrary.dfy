/**
  The rule-library package manager: recursive installation with a resolution stack,
  upgrade and uninstallation guarded by reverse-dependency checks, and ownership of the
  SHACL shapes a library brought in.

  A source is what fetching and parsing a URL yields; a URL that cannot be fetched or
  parsed is absent.  A failed command raises an error, and the transaction that ran it
  leaves no trace.
  */
module RuleLibrary {
  import opened Prelude

  type Name = string
  type Url = string
  type Iri = string

  datatype Rules = NoRules | Unparsable | Rules(text: string)

  datatype Meta = Meta(name: Name, version: string, license: Iri, deps: seq<Url>, rules: Rules, shapes: set<Iri>)

  type Sources = map<Url, Meta>

  /** A catalog row; `shapes` are the shapes this library added to the store. */
  datatype Row = Row(version: string, license: Iri, source: Url, deps: seq<Name>, shapes: set<Iri>)

  datatype State = State(catalog: map<Name, Row>, rules: map<Name, string>, shapes: set<Iri>)

  datatype Failure =
    | FetchFailed(url: Url)
    | NameReserved(name: Name)
    | LicenseNotAccepted(name: Name)
    | DependencyCycle(name: Name)
    | RulesUnparsable(name: Name)
    | NotInstalled(name: Name)
    | StillRequired(name: Name)

  const PERMISSIVE_LICENSES: set<Iri> := {
    "https://spdx.org/licenses/MIT.html",
    "https://spdx.org/licenses/Apache-2.0.html",
    "https://spdx.org/licenses/PostgreSQL.html"
  }

  const BUILTIN_BUNDLES: set<Name> := {
    "skos", "skos-transitive", "skos-integrity", "rdfs", "owl-rl", "dcterms",
    "dcterms-integrity", "schema", "schema-integrity", "foaf", "foaf-integrity"
  }

  // ------------------------------------------------------------------------------
  // Installation
  // ------------------------------------------------------------------------------

  /** `recorded` lists the sources written to the catalog, in order. */
  datatype Installation = Done(state: State, name: Name, recorded: seq<Url>) | Failed(failure: Failure)

  datatype Installations = AllDone(state: State, names: seq<Name>, recorded: seq<Url>) | SomeFailed(failure: Failure)

  predicate Installed(st: State, m: Meta) {
    m.name in st.catalog && st.catalog[m.name].version == m.version
  }

  /** Loads rules and shapes and upserts the catalog row. */
  function Record(st: State, url: Url, m: Meta, depNames: seq<Name>): State {
    State(st.catalog[m.name := Row(m.version, m.license, url, depNames, m.shapes - st.shapes)],
          if m.rules.Rules? then st.rules[m.name := m.rules.text] else st.rules,
          st.shapes + m.shapes)
  }

  ghost function Unvisited(w: Sources, visiting: seq<Name>): set<Name> {
    (set u | u in w :: w[u].name) - (set n | n in visiting)
  }

  lemma PushShrinks(w: Sources, visiting: seq<Name>, url: Url)
    requires url in w && w[url].name !in visiting
    ensures |Unvisited(w, visiting + [w[url].name])| < |Unvisited(w, visiting)|
  {
    var name := w[url].name;
    assert Unvisited(w, visiting + [name]) == Unvisited(w, visiting) - {name};
    assert name in Unvisited(w, visiting);
  }

  function Install(w: Sources, st: State, url: Url, accept: bool, visiting: seq<Name>): Installation
    decreases |Unvisited(w, visiting)|, 0
  {
    if url !in w then Failed(FetchFailed(url)) else
      var m := w[url];
      if m.name in BUILTIN_BUNDLES then Failed(NameReserved(m.name))
      else if !accept && m.license !in PERMISSIVE_LICENSES then Failed(LicenseNotAccepted(m.name))
      else if Installed(st, m) then Done(st, m.name, [])
      else if m.name in visiting then Failed(DependencyCycle(m.name))
      else
        PushShrinks(w, visiting, url);
        match InstallAll(w, st, m.deps, accept, visiting + [m.name])
        case SomeFailed(f) => Failed(f)
        case AllDone(st', names, recorded) =>
          if m.rules.Unparsable? then Failed(RulesUnparsable(m.name))
          else Done(Record(st', url, m, names), m.name, recorded + [url])
  }

  function InstallAll(w: Sources, st: State, urls: seq<Url>, accept: bool, visiting: seq<Name>): Installations
    decreases |Unvisited(w, visiting)|, |urls|
  {
    if urls == [] then AllDone(st, [], []) else
      match Install(w, st, urls[0], accept, visiting)
      case Failed(f) => SomeFailed(f)
      case Done(st', name, recorded) => Prepend([name], recorded, InstallAll(w, st', urls[1..], accept, visiting))
  }

  function Prepend(names: seq<Name>, recorded: seq<Url>, rest: Installations): Installations {
    match rest
    case SomeFailed(f) => SomeFailed(f)
    case AllDone(st, more, later) => AllDone(st, names + more, recorded + later)
  }

  // ------------------------------------------------------------------------------
  // Commands
  // ------------------------------------------------------------------------------

  datatype Command =
    | InstallLibrary(w: Sources, url: Url, accept: bool)
    | UpgradeLibrary(w: Sources, name: Name)
    | UninstallLibrary(name: Name)

  predicate Required(st: State, name: Name) {
    exists n :: n in st.catalog && name in st.catalog[n].deps
  }

  /** Removes a library's rules, the shapes it owns and its row. */
  function Removed(st: State, name: Name): State
    requires name in st.catalog
  {
    State(st.catalog - {name}, st.rules - {name}, st.shapes - st.catalog[name].shapes)
  }

  function Outcome(st: State, c: Command): Result<State, Failure> {
    match c
    case InstallLibrary(w, url, accept) => Finish(Install(w, st, url, accept, []))
    case UpgradeLibrary(w, name) =>
      if name !in st.catalog then Err(NotInstalled(name))
      else if Required(st, name) then Err(StillRequired(name))
      else Finish(Install(w, Removed(st, name), st.catalog[name].source, true, []))
    case UninstallLibrary(name) =>
      if name !in st.catalog then Err(NotInstalled(name))
      else if Required(st, name) then Err(StillRequired(name))
      else Ok(Removed(st, name))
  }

  function Finish(i: Installation): Result<State, Failure> {
    if i.Done? then Ok(i.state) else Err(i.failure)
  }

  /** An error aborts the transaction. */
  function Step(st: State, c: Command): State {
    if Outcome(st, c).Ok? then Outcome(st, c).value else st
  }

  function Run(st: State, commands: seq<Command>): State {
    if commands == [] then st else Step(Run(st, commands[..|commands| - 1]), commands[|commands| - 1])
  }

  const EMPTY: State := State(map[], map[], {})

  // ------------------------------------------------------------------------------
  // What every run keeps, whatever the sources are at each step
  // ------------------------------------------------------------------------------

  /** No row names a missing dependency. */
  ghost predicate NoDangling(st: State) {
    forall n, d :: n in st.catalog && d in st.catalog[n].deps ==> d in st.catalog
  }

  /** Libraries own stored shapes, and no shape has two owners. */
  ghost predicate OwnershipSound(st: State) {
    && (forall n :: n in st.catalog ==> st.catalog[n].shapes <= st.shapes)
    && (forall n, k :: n in st.catalog && k in st.catalog && n != k ==> st.catalog[n].shapes !! st.catalog[k].shapes)
  }

  ghost predicate Sound(st: State) {
    NoDangling(st) && OwnershipSound(st)
  }

  lemma RecordKeepsSound(st: State, url: Url, m: Meta, depNames: seq<Name>)
    requires Sound(st) && forall d :: d in depNames ==> d in st.catalog
    ensures Sound(Record(st, url, m, depNames))
  {}

  lemma {:induction false} InstallKeepsSound(w: Sources, st: State, url: Url, accept: bool, visiting: seq<Name>)
    requires Sound(st)
    ensures var r := Install(w, st, url, accept, visiting);
            r.Done? ==> Sound(r.state) && st.catalog.Keys <= r.state.catalog.Keys && r.name in r.state.catalog
    decreases |Unvisited(w, visiting)|, 0
  {
    if url in w && Install(w, st, url, accept, visiting).Done? && !Installed(st, w[url]) {
      var m := w[url];
      PushShrinks(w, visiting, url);
      InstallAllKeepsSound(w, st, m.deps, accept, visiting + [m.name]);
      var deps := InstallAll(w, st, m.deps, accept, visiting + [m.name]);
      RecordKeepsSound(deps.state, url, m, deps.names);
    }
  }

  lemma {:induction false} InstallAllKeepsSound(w: Sources, st: State, urls: seq<Url>, accept: bool, visiting: seq<Name>)
    requires Sound(st)
    ensures var r := InstallAll(w, st, urls, accept, visiting);
            r.AllDone? ==> Sound(r.state) && st.catalog.Keys <= r.state.catalog.Keys
                           && forall d :: d in r.names ==> d in r.state.catalog
    decreases |Unvisited(w, visiting)|, |urls|
  {
    if urls != [] && InstallAll(w, st, urls, accept, visiting).AllDone? {
      InstallKeepsSound(w, st, urls[0], accept, visiting);
      var first := Install(w, st, urls[0], accept, visiting);
      InstallAllKeepsSound(w, first.state, urls[1..], accept, visiting);
    }
  }

  // ------------------------------------------------------------------------------
  // What an installation stores
  // ------------------------------------------------------------------------------

  /** The row was written from the source, with the names of its dependencies in order. */
  ghost predicate RowFrom(w: Sources, row: Row, name: Name, u: Url) {
    && u in w && w[u].name == name && row.version == w[u].version && row.license == w[u].license && row.source == u
    && |row.deps| == |w[u].deps|
    && forall i :: 0 <= i < |row.deps| ==> w[u].deps[i] in w && row.deps[i] == w[w[u].deps[i]].name
  }

  /** The library from the source is stored: its row, its rules and its shapes. */
  ghost predicate Holds(st: State, w: Sources, u: Url) {
    && u in w && w[u].name in st.catalog && RowFrom(w, st.catalog[w[u].name], w[u].name, u)
    && !w[u].rules.Unparsable? && (w[u].rules.Rules? ==> w[u].name in st.rules && st.rules[w[u].name] == w[u].rules.text)
    && w[u].shapes <= st.shapes
  }

  /** Rows and rules are those of before or come from the sources, and no shape is lost. */
  ghost predicate AddsFrom(w: Sources, st: State, after: State) {
    && st.catalog.Keys <= after.catalog.Keys && st.rules.Keys <= after.rules.Keys && st.shapes <= after.shapes
    && (forall n :: n in after.catalog ==>
          (n in st.catalog && after.catalog[n] == st.catalog[n]) || exists u :: RowFrom(w, after.catalog[n], n, u))
    && forall n :: n in after.rules ==>
         || (n in st.rules && after.rules[n] == st.rules[n])
         || exists u :: u in w && w[u].name == n && w[u].rules == Rules(after.rules[n])
  }

  lemma AddsFromTwice(w: Sources, a: State, b: State, c: State)
    requires AddsFrom(w, a, b) && AddsFrom(w, b, c)
    ensures AddsFrom(w, a, c)
  {
    forall n | n in c.catalog
      ensures (n in a.catalog && c.catalog[n] == a.catalog[n]) || exists u :: RowFrom(w, c.catalog[n], n, u)
    {
      if n in b.catalog && c.catalog[n] == b.catalog[n] {
        assert (n in a.catalog && b.catalog[n] == a.catalog[n]) || exists u :: RowFrom(w, b.catalog[n], n, u);
      }
    }
    forall n | n in c.rules
      ensures (n in a.rules && c.rules[n] == a.rules[n]) || exists u :: u in w && w[u].name == n && w[u].rules == Rules(c.rules[n])
    {
    }
  }

  ghost predicate DepsNamed(w: Sources, urls: seq<Url>, names: seq<Name>) {
    |names| == |urls| && forall i :: 0 <= i < |urls| ==> urls[i] in w && names[i] == w[urls[i]].name
  }

  lemma RecordStores(w: Sources, st: State, url: Url, names: seq<Name>)
    requires url in w && DepsNamed(w, w[url].deps, names) && !w[url].rules.Unparsable?
    ensures Holds(Record(st, url, w[url], names), w, url) && AddsFrom(w, st, Record(st, url, w[url], names))
  {
    var m, after := w[url], Record(st, url, w[url], names);
    assert RowFrom(w, after.catalog[m.name], m.name, url);
    assert m.rules.Rules? ==> m.rules == Rules(after.rules[m.name]);
  }

  /**
    A success leaves the version of the source installed.  If it was not, the row, the rules
    and the shapes are those of the source, and everything else is as before or comes from the
    sources as well.
    */
  lemma {:induction false} InstallStores(w: Sources, st: State, url: Url, accept: bool, visiting: seq<Name>)
    ensures var r := Install(w, st, url, accept, visiting);
            r.Done? ==> && url in w && r.name == w[url].name && Installed(r.state, w[url]) && AddsFrom(w, st, r.state)
                        && if Installed(st, w[url]) then r.state == st else Holds(r.state, w, url)
    decreases |Unvisited(w, visiting)|, 0
  {
    if url in w && Install(w, st, url, accept, visiting).Done? && !Installed(st, w[url]) {
      var m := w[url];
      PushShrinks(w, visiting, url);
      InstallAllStores(w, st, m.deps, accept, visiting + [m.name]);
      var deps := InstallAll(w, st, m.deps, accept, visiting + [m.name]);
      RecordStores(w, deps.state, url, deps.names);
      AddsFromTwice(w, st, deps.state, Record(deps.state, url, m, deps.names));
    }
  }

  lemma {:induction false} InstallAllStores(w: Sources, st: State, urls: seq<Url>, accept: bool, visiting: seq<Name>)
    ensures var r := InstallAll(w, st, urls, accept, visiting);
            r.AllDone? ==> DepsNamed(w, urls, r.names) && AddsFrom(w, st, r.state)
    decreases |Unvisited(w, visiting)|, |urls|
  {
    if urls != [] && InstallAll(w, st, urls, accept, visiting).AllDone? {
      var first := Install(w, st, urls[0], accept, visiting);
      InstallStores(w, st, urls[0], accept, visiting);
      InstallAllStores(w, first.state, urls[1..], accept, visiting);
      var rest := InstallAll(w, first.state, urls[1..], accept, visiting);
      AddsFromTwice(w, st, first.state, rest.state);
      FirstNamed(w, urls, first.name, rest.names);
    }
  }

  lemma FirstNamed(w: Sources, urls: seq<Url>, name: Name, rest: seq<Name>)
    requires urls != [] && urls[0] in w && name == w[urls[0]].name && DepsNamed(w, urls[1..], rest)
    ensures DepsNamed(w, urls, [name] + rest)
  {
    forall i | 0 <= i < |urls|
      ensures urls[i] in w && ([name] + rest)[i] == w[urls[i]].name
    {
      assert i > 0 ==> urls[1..][i - 1] == urls[i];
    }
  }

  /**
    A successful upgrade ends with the version its source has now.  Unless the same version came
    back under another row, the library is stored from that source; rows and rules of others are
    as before or come from the sources.
    */
  lemma UpgradeInstalls(w: Sources, st: State, name: Name)
    requires Outcome(st, UpgradeLibrary(w, name)).Ok?
    ensures name in st.catalog && !Required(st, name) && st.catalog[name].source in w
    ensures var u, after := st.catalog[name].source, Outcome(st, UpgradeLibrary(w, name)).value;
            && Installed(after, w[u]) && AddsFrom(w, Removed(st, name), after)
            && (!Installed(Removed(st, name), w[u]) ==> Holds(after, w, u))
            && (w[u].name == name ==> Holds(after, w, u))
  {
    InstallStores(w, Removed(st, name), st.catalog[name].source, true, []);
  }

  lemma RemovedKeepsSound(st: State, name: Name)
    requires Sound(st) && name in st.catalog && !Required(st, name)
    ensures Sound(Removed(st, name))
  {}

  lemma StepKeepsSound(st: State, c: Command)
    requires Sound(st)
    ensures Sound(Step(st, c))
  {
    match c
    case InstallLibrary(w, url, accept) => InstallKeepsSound(w, st, url, accept, []);
    case UpgradeLibrary(w, name) =>
      if name in st.catalog && !Required(st, name) {
        RemovedKeepsSound(st, name);
        InstallKeepsSound(w, Removed(st, name), st.catalog[name].source, true, []);
      }
    case UninstallLibrary(name) =>
      if name in st.catalog && !Required(st, name) {
        RemovedKeepsSound(st, name);
      }
  }

  /** In every run, even with sources that change between commands. */
  lemma {:induction false} RunsStaySound(st: State, commands: seq<Command>)
    requires Sound(st)
    ensures Sound(Run(st, commands))
  {
    if commands != [] {
      RunsStaySound(st, commands[..|commands| - 1]);
      StepKeepsSound(Run(st, commands[..|commands| - 1]), commands[|commands| - 1]);
    }
  }

  /** Uninstalling a library leaves every other row and every shape another library owns. */
  lemma UninstallSparesOthers(commands: seq<Command>, name: Name, other: Name)
    ensures var st := Run(EMPTY, commands);
            var after := Step(st, UninstallLibrary(name));
            other in st.catalog && other != name ==>
              && other in after.catalog && after.catalog[other] == st.catalog[other] && st.catalog[other].shapes <= after.shapes
              && (other in st.rules ==> other in after.rules && after.rules[other] == st.rules[other])
  {
    assert Sound(EMPTY);
    RunsStaySound(EMPTY, commands);
  }

  /** Every stored shape belongs to some library. */
  ghost predicate AllOwned(st: State) {
    forall s :: s in st.shapes ==> exists n :: n in st.catalog && s in st.catalog[n].shapes
  }

  /**
    Recording a library leaves no shape without an owner exactly when the row it replaces, if
    any, owned none: the new row owns only shapes that were not stored.
    */
  lemma RecordKeepsOwnedExactlyWhen(st: State, url: Url, m: Meta, deps: seq<Name>)
    requires Sound(st) && AllOwned(st)
    ensures AllOwned(Record(st, url, m, deps)) <==> m.name !in st.catalog || st.catalog[m.name].shapes == {}
  {
    var after := Record(st, url, m, deps);
    if m.name in st.catalog && st.catalog[m.name].shapes != {} {
      var s :| s in st.catalog[m.name].shapes;
      forall n | n in after.catalog
        ensures s !in after.catalog[n].shapes
      {
        assert n != m.name ==> n in st.catalog && st.catalog[n].shapes !! st.catalog[m.name].shapes;
      }
      assert s in after.shapes;
    } else {
      forall s | s in after.shapes
        ensures exists n :: n in after.catalog && s in after.catalog[n].shapes
      {
        if s in st.shapes {
          var n :| n in st.catalog && s in st.catalog[n].shapes;
          assert n in after.catalog && s in after.catalog[n].shapes;
        } else {
          assert s in after.catalog[m.name].shapes;
        }
      }
    }
  }

  /**
    A shape that a library declared, stored already when it was recorded, outlives the
    uninstallation of another library exactly when that one is not its owner.
    */
  lemma DeclaredShapeSurvivesExactlyWhen(st: State, url: Url, m: Meta, deps: seq<Name>, other: Name, s: Iri)
    requires Sound(st) && AllOwned(st) && s in m.shapes && s in st.shapes
    requires other in st.catalog && other != m.name
    ensures s in Removed(Record(st, url, m, deps), other).shapes
       <==> exists n :: n in st.catalog && n != other && s in st.catalog[n].shapes
  {
    var n :| n in st.catalog && s in st.catalog[n].shapes;
    assert n != other ==> st.catalog[n].shapes !! st.catalog[other].shapes;
  }

  /** Uninstalling a library that brought nothing else restores the state before its installation. */
  lemma UninstallUndoesInstall(w: Sources, st: State, url: Url, accept: bool)
    requires Sound(st)
    requires var r := Install(w, st, url, accept, []);
             r.Done? && r.recorded == [url] && r.name !in st.catalog && r.name !in st.rules
    ensures var r := Install(w, st, url, accept, []); Outcome(r.state, UninstallLibrary(r.name)) == Ok(st)
  {
    var r, m := Install(w, st, url, accept, []), w[url];
    var deps := InstallAll(w, st, m.deps, accept, [m.name]);
    assert [] + [m.name] == [m.name];
    assert deps.recorded == [] by {
      assert |deps.recorded + [url]| == 1;
    }
    NothingRecorded(w, st, m.deps, accept, [m.name]);
    InstallAllKeepsSound(w, st, m.deps, accept, [m.name]);
    assert r.state == Record(st, url, m, deps.names);
    assert r.state.catalog - {m.name} == st.catalog;
    assert r.state.rules - {m.name} == st.rules;
    assert (st.shapes + m.shapes) - (m.shapes - st.shapes) == st.shapes;
    assert !Required(r.state, m.name);
  }

  lemma {:induction false} NothingRecorded(w: Sources, st: State, urls: seq<Url>, accept: bool, visiting: seq<Name>)
    ensures var r := InstallAll(w, st, urls, accept, visiting); r.AllDone? && r.recorded == [] ==> r.state == st
    decreases |urls|
  {
    if urls != [] && InstallAll(w, st, urls, accept, visiting).AllDone? {
      var first := Install(w, st, urls[0], accept, visiting);
      NothingRecorded(w, first.state, urls[1..], accept, visiting);
    }
  }

  // ------------------------------------------------------------------------------
  // The package manager
  // ------------------------------------------------------------------------------

  class LibraryManager {
    var catalog: map<Name, Row>
    var rules: map<Name, string>
    var shapes: set<Iri>
    var visiting: seq<Name>

    ghost function Current(): State
      reads this
    {
      State(catalog, rules, shapes)
    }

    constructor ()
      ensures Current() == EMPTY && visiting == []
    {
      catalog, rules, shapes, visiting := map[], map[], {}, [];
    }

    /** Stores the shapes of a library and returns those that were not there before. */
    method LoadShapes(declared: set<Iri>) returns (added: set<Iri>)
      modifies this`shapes
      ensures shapes == old(shapes) + declared && added == declared - old(shapes)
    {
      var before := shapes;
      shapes := shapes + declared;
      added := set iri | iri in shapes && iri !in before;
    }

    method InstallInner(w: Sources, source: Url, accept: bool) returns (r: Result<Name, Failure>)
      modifies this
      ensures match Install(w, old(Current()), source, accept, old(visiting))
              case Done(st, name, _) => r == Ok(name) && Current() == st && visiting == old(visiting)
              case Failed(f) => r == Err(f)
      decreases |Unvisited(w, visiting)|, 0
    {
      if source !in w {
        return Err(FetchFailed(source));
      }
      var meta := w[source];
      var name := meta.name;
      if name in BUILTIN_BUNDLES {
        return Err(NameReserved(name));
      }
      if !accept && meta.license !in PERMISSIVE_LICENSES {
        return Err(LicenseNotAccepted(name));
      }
      if name in catalog && catalog[name].version == meta.version {
        return Ok(name);
      }
      if name in visiting {
        return Err(DependencyCycle(name));
      }
      PushShrinks(w, visiting, source);
      visiting := visiting + [name];
      var deps := InstallDependencies(w, meta.deps, accept);
      if deps.Err? {
        return Err(deps.error);
      }
      visiting := visiting[..|visiting| - 1];
      if meta.rules.Unparsable? {
        return Err(RulesUnparsable(name));
      }
      RecordLibrary(source, meta, deps.value);
      r := Ok(name);
    }

    method RecordLibrary(source: Url, meta: Meta, deps: seq<Name>)
      modifies this
      ensures Current() == Record(old(Current()), source, meta, deps) && visiting == old(visiting)
    {
      if meta.rules.Rules? {
        rules := rules[meta.name := meta.rules.text];
      }
      var owned := LoadShapes(meta.shapes);
      catalog := catalog[meta.name := Row(meta.version, meta.license, source, deps, owned)];
    }

    method InstallDependencies(w: Sources, deps: seq<Url>, accept: bool) returns (r: Result<seq<Name>, Failure>)
      modifies this
      ensures match InstallAll(w, old(Current()), deps, accept, old(visiting))
              case AllDone(st, names, _) => r == Ok(names) && Current() == st && visiting == old(visiting)
              case SomeFailed(f) => r == Err(f)
      decreases |Unvisited(w, visiting)|, 1
    {
      ghost var stack := visiting;
      ghost var whole := InstallAll(w, Current(), deps, accept, stack);
      var names: seq<Name> := [];
      ghost var recorded: seq<Url> := [];
      var i := 0;
      assert deps[0..] == deps;
      while i < |deps|
        invariant 0 <= i <= |deps| && visiting == stack
        invariant whole == Prepend(names, recorded, InstallAll(w, Current(), deps[i..], accept, stack))
      {
        ghost var first := Install(w, Current(), deps[i], accept, stack);
        assert deps[i..][0] == deps[i] && deps[i..][1..] == deps[i + 1..];
        var dep := InstallInner(w, deps[i], accept);
        if dep.Err? {
          return Err(dep.error);
        }
        PrependTwice(names, recorded, [dep.value], first.recorded, InstallAll(w, Current(), deps[i + 1..], accept, stack));
        names := names + [dep.value];
        recorded := recorded + first.recorded;
        i := i + 1;
      }
      assert deps[i..] == [] && names + [] == names;
      r := Ok(names);
    }

    /** Runs in a transaction: an error restores the state before the call. */
    method InstallRuleLibrary(w: Sources, source: Url, accept: bool) returns (r: Result<Name, Failure>)
      modifies this
      ensures Current() == Step(old(Current()), InstallLibrary(w, source, accept))
      ensures r.Ok? ==> source in w && r.value == w[source].name && Installed(Current(), w[source])
                        && (!Installed(old(Current()), w[source]) ==> Holds(Current(), w, source))
      ensures r.Err? ==> Current() == old(Current())
      ensures r.Ok? <==> Outcome(old(Current()), InstallLibrary(w, source, accept)).Ok?
      ensures r.Err? ==> Outcome(old(Current()), InstallLibrary(w, source, accept)) == Err(r.error)
    {
      var savedCatalog, savedRules, savedShapes := catalog, rules, shapes;
      InstallStores(w, Current(), source, accept, []);
      visiting := [];
      r := InstallInner(w, source, accept);
      if r.Err? {
        catalog, rules, shapes := savedCatalog, savedRules, savedShapes;
      }
    }

    method UpgradeRuleLibrary(w: Sources, name: Name) returns (r: Result<Name, Failure>)
      modifies this
      ensures Current() == Step(old(Current()), UpgradeLibrary(w, name))
      ensures r.Ok? ==> && name in old(catalog) && old(catalog[name].source) in w
                        && Installed(Current(), w[old(catalog[name].source)]) && r.value == w[old(catalog[name].source)].name
                        && (r.value == name ==> Holds(Current(), w, old(catalog[name].source)))
      ensures r.Err? ==> Current() == old(Current())
      ensures r.Ok? <==> Outcome(old(Current()), UpgradeLibrary(w, name)).Ok?
      ensures r.Err? ==> Outcome(old(Current()), UpgradeLibrary(w, name)) == Err(r.error)
    {
      if name !in catalog {
        return Err(NotInstalled(name));
      }
      if exists n :: n in catalog && name in catalog[n].deps {
        return Err(StillRequired(name));
      }
      var savedCatalog, savedRules, savedShapes := catalog, rules, shapes;
      var source := catalog[name].source;
      InstallStores(w, Removed(Current(), name), source, true, []);
      UninstallInner(name);
      visiting := [];
      r := InstallInner(w, source, true);
      if r.Err? {
        catalog, rules, shapes := savedCatalog, savedRules, savedShapes;
      }
    }

    method UninstallRuleLibrary(name: Name) returns (r: Result<Name, Failure>)
      modifies this
      ensures Current() == Step(old(Current()), UninstallLibrary(name))
      ensures r.Ok? <==> name in old(catalog) && forall n :: n in old(catalog) ==> name !in old(catalog[n].deps)
      ensures r.Ok? ==> && catalog == old(catalog) - {name} && rules == old(rules) - {name}
                        && shapes == old(shapes) - old(catalog[name].shapes)
      ensures r.Err? ==> Current() == old(Current())
      ensures r.Ok? <==> Outcome(old(Current()), UninstallLibrary(name)).Ok?
      ensures r.Err? ==> Outcome(old(Current()), UninstallLibrary(name)) == Err(r.error)
    {
      if name !in catalog {
        return Err(NotInstalled(name));
      }
      if exists n :: n in catalog && name in catalog[n].deps {
        return Err(StillRequired(name));
      }
      UninstallInner(name);
      r := Ok(name);
    }

    method UninstallInner(name: Name)
      requires name in catalog
      modifies this`catalog, this`rules, this`shapes
      ensures Current() == Removed(old(Current()), name)
    {
      rules := rules - {name};
      var owned := catalog[name].shapes;
      shapes := shapes - owned;
      catalog := catalog - {name};
    }
  }

  lemma PrependTwice(a: seq<Name>, x: seq<Url>, b: seq<Name>, y: seq<Url>, rest: Installations)
    ensures Prepend(a, x, Prepend(b, y, rest)) == Prepend(a + b, x + y, rest)
  {
    if rest.AllDone? {
      assert a + (b + rest.names) == (a + b) + rest.names;
      assert x + (y + rest.recorded) == (x + y) + rest.recorded;
    }
  }
}
