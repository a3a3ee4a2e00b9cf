/**
  The dictionary's use of the shared encode cache across transactions.

  Any number of sessions of one database look terms up, publish the rows they find or
  insert, and end their transactions, in any interleaving.  A session remembers which keys
  it published in the current transaction and evicts them when it aborts.  Its private
  cache is warmed by hits and by its own publications.
  */
module DictionaryCache {
  import opened Prelude
  import opened CacheModel

  /** Uncommitted rows, the keys published in this transaction, and the private cache. */
  datatype Session = Session(pending: map<Key, int>, tracked: seq<Key>, local: map<Key, int>)

  /** The shared cache is given by the operations on it so far, oldest first. */
  datatype World = World(log: seq<Op>, committed: map<Key, int>, sessions: seq<Session>, nextId: nat) {
    function Ways(key: Key): Ways {
      Run(log, key.home)
    }

    predicate PendingElsewhere(b: nat, key: Key) {
      exists c :: 0 <= c < |sessions| && c != b && key in sessions[c].pending
    }
  }

  datatype Step =
    | Look(b: nat, key: Key)            // encode: probe of the shared cache
    | Publish(b: nat, key: Key)         // encode: upsert of the row, then publication
    | Forget(b: nat, key: Key)          // the private cache drops an entry
    | Commit(b: nat)
    | Abort(b: nat)
    | Flush(b: nat)                     // flush_encode_cache()
    | SubAbort(b: nat, lost: set<Key>)  // ROLLBACK TO SAVEPOINT that takes back these rows

  /** The upsert of a row waits while another transaction holds an uncommitted one for the key. */
  ghost predicate Enabled(w: World, step: Step) {
    step.b < |w.sessions| && (step.Publish? ==> !w.PendingElsewhere(step.b, step.key))
  }

  function Evictions(keys: seq<Key>): seq<Op> {
    seq(|keys|, i requires 0 <= i < |keys| => Evicted(keys[i]))
  }

  function Next(w: World, step: Step): World
    requires step.b < |w.sessions|
  {
    var b, s := step.b, w.sessions[step.b];
    match step
    case Look(_, key) =>
      var answer := Answer(w.Ways(key), key);
      World(w.log + [Looked(key)], w.committed,
            if answer.Some? then w.sessions[b := Session(s.pending, s.tracked, s.local[key := answer.value])] else w.sessions,
            w.nextId)
    case Publish(_, key) =>
      var fresh' := key !in w.committed && key !in s.pending;
      var id := if key in w.committed then w.committed[key] else if key in s.pending then s.pending[key] else w.nextId;
      World(w.log + [Inserted(key, id)], w.committed,
            w.sessions[b := Session(if fresh' then s.pending[key := id] else s.pending, s.tracked + [key], s.local[key := id])],
            if fresh' then w.nextId + 1 else w.nextId)
    case Forget(_, key) =>
      World(w.log, w.committed, w.sessions[b := Session(s.pending, s.tracked, s.local - {key})], w.nextId)
    case Commit(_) =>
      World(w.log, w.committed + s.pending, w.sessions[b := Session(map[], [], s.local)], w.nextId)
    case Abort(_) =>
      World(w.log + Evictions(s.tracked), w.committed, w.sessions[b := Session(map[], [], map[])], w.nextId)
    case Flush(_) =>
      World(w.log + [Cleared] + Evictions(s.tracked), w.committed,
            w.sessions[b := Session(s.pending, [], map[])], w.nextId)
    case SubAbort(_, lost) =>
      World(w.log, w.committed, w.sessions[b := Session(s.pending - lost, s.tracked, map[])], w.nextId)
  }

  function Start(sessions: nat): World {
    World([], map[], seq(sessions, _ => Session(map[], [], map[])), 1)
  }

  // ------------------------------------------------------------------------------
  // Coherence
  // ------------------------------------------------------------------------------

  ghost predicate HasRow(w: World, key: Key, id: int) {
    || (key in w.committed && w.committed[key] == id)
    || exists b :: 0 <= b < |w.sessions| && key in w.sessions[b].pending && w.sessions[b].pending[key] == id
  }

  /** Every entry of the shared cache names a row, committed or of a running transaction. */
  ghost predicate EntriesHaveRows(w: World) {
    forall key: Key, i :: 0 <= i < WAYS && w.Ways(key)[i].Holds(key) ==> HasRow(w, key, w.Ways(key)[i].id)
  }

  function Count(keys: seq<Key>, key: Key): nat {
    if keys == [] then 0 else Count(keys[..|keys| - 1], key) + One(keys[|keys| - 1] == key)
  }

  /** An uncommitted row has no more copies in the cache than its session will evict. */
  ghost predicate CopiesTracked(w: World) {
    forall b, key :: 0 <= b < |w.sessions| && key in w.sessions[b].pending
      ==> Copies(w.Ways(key), key) <= Count(w.sessions[b].tracked, key)
  }

  ghost predicate RowsApart(w: World) {
    && (forall b, key :: 0 <= b < |w.sessions| && key in w.sessions[b].pending ==> key !in w.committed)
    && (forall b, c, key :: 0 <= b < c < |w.sessions| && key in w.sessions[b].pending ==> key !in w.sessions[c].pending)
  }

  ghost predicate Coherent(w: World) {
    EntriesHaveRows(w) && CopiesTracked(w) && RowsApart(w)
  }

  lemma {:induction false} CopiesAfterEvictions(log: seq<Op>, keys: seq<Key>, key: Key)
    ensures Copies(Run(log + Evictions(keys), key.home), key)
         == if Count(keys, key) <= Copies(Run(log, key.home), key) then Copies(Run(log, key.home), key) - Count(keys, key) else 0
  {
    if keys == [] {
      assert log + Evictions(keys) == log;
    } else {
      var most, last := keys[..|keys| - 1], keys[|keys| - 1];
      var all := log + Evictions(keys);
      assert all[..|all| - 1] == log + Evictions(most) && all[|all| - 1] == Evicted(last);
      CopiesAfterEvictions(log, most, key);
      CopiesStep(Run(log + Evictions(most), key.home), Evicted(last), key);
    }
  }

  /** Evictions leave entries as they were or free the way. */
  lemma {:induction false} EntriesAfterEvictions(log: seq<Op>, keys: seq<Key>, i: nat, w: nat)
    requires w < WAYS && Run(log + Evictions(keys), i)[w].Held?
    ensures Run(log + Evictions(keys), i)[w] == Run(log, i)[w]
  {
    if keys == [] {
      assert log + Evictions(keys) == log;
    } else {
      var most, last := keys[..|keys| - 1], keys[|keys| - 1];
      var all := log + Evictions(keys);
      assert all[..|all| - 1] == log + Evictions(most) && all[|all| - 1] == Evicted(last);
      EntriesAfterEvictions(log, most, i, w);
    }
  }

  lemma RunOneMore(log: seq<Op>, op: Op, i: nat)
    ensures Run(log + [op], i) == if Addresses(op, i) then SetStep(Run(log, i), op) else Run(log, i)
  {
    assert (log + [op])[..|log|] == log;
  }

  lemma CountOneMore(keys: seq<Key>, last: Key, key: Key)
    ensures Count(keys + [last], key) == Count(keys, key) + One(last == key)
  {
    assert (keys + [last])[..|keys|] == keys;
  }

  lemma RowSurvives(w: World, n: World, key: Key, id: int)
    requires HasRow(w, key, id) && |n.sessions| == |w.sessions|
    requires key in w.committed ==> key in n.committed && n.committed[key] == w.committed[key]
    requires forall b :: 0 <= b < |w.sessions| && key in w.sessions[b].pending ==>
               || (key in n.sessions[b].pending && n.sessions[b].pending[key] == w.sessions[b].pending[key])
               || (key in n.committed && n.committed[key] == w.sessions[b].pending[key])
    ensures HasRow(n, key, id)
  {
    if b :| 0 <= b < |w.sessions| && key in w.sessions[b].pending && w.sessions[b].pending[key] == id {
      assert key in n.sessions[b].pending || key in n.committed;
    }
  }

  lemma LookKeepsCopies(w: World, step: Step, key: Key)
    requires Enabled(w, step) && step.Look?
    ensures Copies(Next(w, step).Ways(key), key) == Copies(w.Ways(key), key)
  {
    RunOneMore(w.log, Looked(step.key), key.home);
    CopiesStep(w.Ways(key), Looked(step.key), key);
  }

  lemma LookKeepsEntries(w: World, step: Step)
    requires EntriesHaveRows(w) && Enabled(w, step) && step.Look?
    ensures EntriesHaveRows(Next(w, step))
  {
    var n := Next(w, step);
    forall key: Key, i | 0 <= i < WAYS && n.Ways(key)[i].Holds(key)
      ensures HasRow(n, key, n.Ways(key)[i].id)
    {
      LookedEntry(w, step, key, i);
      RowSurvives(w, n, key, w.Ways(key)[i].id);
    }
  }

  lemma LookedEntry(w: World, step: Step, key: Key, i: nat)
    requires Enabled(w, step) && step.Look? && i < WAYS && Next(w, step).Ways(key)[i].Holds(key)
    ensures w.Ways(key)[i].Holds(key) && w.Ways(key)[i].id == Next(w, step).Ways(key)[i].id
  {
    RunOneMore(w.log, Looked(step.key), key.home);
    if Addresses(Looked(step.key), key.home) {
      EntryAfterStep(w.Ways(key), Looked(step.key), i);
    }
  }

  lemma LookKeepsCoherent(w: World, step: Step)
    requires Coherent(w) && Enabled(w, step) && step.Look?
    ensures Coherent(Next(w, step))
  {
    LookKeepsEntries(w, step);
    forall key: Key
      ensures Copies(Next(w, step).Ways(key), key) == Copies(w.Ways(key), key)
    {
      LookKeepsCopies(w, step, key);
    }
  }

  lemma PublishKeepsEntries(w: World, step: Step)
    requires Coherent(w) && Enabled(w, step) && step.Publish?
    ensures EntriesHaveRows(Next(w, step))
  {
    var n, op := Next(w, step), Next(w, step).log[|w.log|];
    forall key: Key, i | 0 <= i < WAYS && n.Ways(key)[i].Holds(key)
      ensures HasRow(n, key, n.Ways(key)[i].id)
    {
      RunOneMore(w.log, op, key.home);
      if Addresses(op, key.home) {
        EntryAfterStep(w.Ways(key), op, i);
      }
      if n.Ways(key)[i] == Held(op.key, op.id, 0) {
        assert key == step.key;
        assert key in n.committed || key in n.sessions[step.b].pending;
      } else {
        assert w.Ways(key)[i].Holds(key) && w.Ways(key)[i].id == n.Ways(key)[i].id;
        RowSurvives(w, n, key, w.Ways(key)[i].id);
      }
    }
  }

  lemma PublishKeepsTracked(w: World, step: Step)
    requires Coherent(w) && Enabled(w, step) && step.Publish?
    ensures CopiesTracked(Next(w, step))
  {
    var n, op := Next(w, step), Next(w, step).log[|w.log|];
    forall b, key | 0 <= b < |n.sessions| && key in n.sessions[b].pending
      ensures Copies(n.Ways(key), key) <= Count(n.sessions[b].tracked, key)
    {
      RunOneMore(w.log, op, key.home);
      CopiesStep(w.Ways(key), op, key);
      CountOneMore(w.sessions[step.b].tracked, step.key, key);
      if key !in w.sessions[b].pending {
        NewRowHasNoCopy(w, key);
      }
    }
  }

  lemma PublishKeepsCoherent(w: World, step: Step)
    requires Coherent(w) && Enabled(w, step) && step.Publish?
    ensures Coherent(Next(w, step))
  {
    PublishKeepsEntries(w, step);
    PublishKeepsTracked(w, step);
  }

  lemma NewRowHasNoCopy(w: World, key: Key)
    requires EntriesHaveRows(w) && key !in w.committed
    requires forall b :: 0 <= b < |w.sessions| ==> key !in w.sessions[b].pending
    ensures Copies(w.Ways(key), key) == 0
  {
    NoCopyWithout(w.Ways(key), key);
  }

  lemma AbortKeepsCoherent(w: World, step: Step)
    requires Coherent(w) && Enabled(w, step) && step.Abort?
    ensures Coherent(Next(w, step))
  {
    var n, s := Next(w, step), w.sessions[step.b];
    forall key: Key
      ensures Copies(n.Ways(key), key) <= Copies(w.Ways(key), key)
      ensures key in s.pending ==> Copies(n.Ways(key), key) == 0
    {
      CopiesAfterEvictions(w.log, s.tracked, key);
    }
    forall key: Key, i | 0 <= i < WAYS && n.Ways(key)[i].Holds(key)
      ensures HasRow(n, key, n.Ways(key)[i].id)
    {
      EntriesAfterEvictions(w.log, s.tracked, key.home, i);
      NoCopyWithout(n.Ways(key), key);
      RowSurvives(w, n, key, w.Ways(key)[i].id);
    }
  }

  lemma FlushKeepsCoherent(w: World, step: Step)
    requires Coherent(w) && Enabled(w, step) && step.Flush?
    ensures Coherent(Next(w, step))
  {
    var n, s := Next(w, step), w.sessions[step.b];
    forall key: Key
      ensures Copies(n.Ways(key), key) == 0
      ensures forall i :: 0 <= i < WAYS ==> !n.Ways(key)[i].Holds(key)
    {
      CopiesAfterEvictions(w.log + [Cleared], s.tracked, key);
      RunOneMore(w.log, Cleared, key.home);
      CopiesStep(w.Ways(key), Cleared, key);
      NoCopyWithout(n.Ways(key), key);
    }
  }

  lemma QuietStepKeepsCoherent(w: World, step: Step)
    requires Coherent(w) && Enabled(w, step) && (step.Forget? || step.Commit?)
    ensures Coherent(Next(w, step))
  {
    var n := Next(w, step);
    forall b, key | 0 <= b < |n.sessions| && key in n.sessions[b].pending
      ensures Copies(n.Ways(key), key) <= Count(n.sessions[b].tracked, key)
    {
      assert key in w.sessions[b].pending && n.Ways(key) == w.Ways(key);
    }
    forall key: Key, i | 0 <= i < WAYS && n.Ways(key)[i].Holds(key)
      ensures HasRow(n, key, n.Ways(key)[i].id)
    {
      RowSurvives(w, n, key, w.Ways(key)[i].id);
    }
  }

  /** A rollback to a savepoint keeps coherence exactly when none of the rows it takes back is cached. */
  lemma SubAbortExactlyWhenUncached(w: World, step: Step)
    requires Coherent(w) && Enabled(w, step) && step.SubAbort?
    ensures Coherent(Next(w, step))
       <==> forall key :: key in step.lost && key in w.sessions[step.b].pending ==> Answer(w.Ways(key), key).None?
  {
    var n, s := Next(w, step), w.sessions[step.b];
    forall b, key | 0 <= b < |n.sessions| && key in n.sessions[b].pending
      ensures Copies(n.Ways(key), key) <= Count(n.sessions[b].tracked, key)
    {
      assert key in w.sessions[b].pending && n.Ways(key) == w.Ways(key);
    }
    if forall key :: key in step.lost && key in s.pending ==> Answer(w.Ways(key), key).None? {
      forall key: Key, i | 0 <= i < WAYS && n.Ways(key)[i].Holds(key)
        ensures HasRow(n, key, n.Ways(key)[i].id)
      {
        RowSurvives(w, n, key, w.Ways(key)[i].id);
      }
    } else {
      var key :| key in step.lost && key in s.pending && Answer(w.Ways(key), key).Some?;
      var i := FindFrom(w.Ways(key), key, 0);
      assert n.Ways(key)[i].Holds(key);
      assert !HasRow(n, key, n.Ways(key)[i].id);
    }
  }

  // ------------------------------------------------------------------------------
  // Every run
  // ------------------------------------------------------------------------------

  ghost predicate IsRun(worlds: seq<World>, steps: seq<Step>) {
    && |worlds| == |steps| + 1 && worlds[0] == Start(|worlds[0].sessions|)
    && forall j :: 0 <= j < |steps| ==> Enabled(worlds[j], steps[j]) && worlds[j + 1] == Next(worlds[j], steps[j])
  }

  lemma StartCoherent(sessions: nat)
    ensures Coherent(Start(sessions))
  {
    forall key: Key
      ensures Start(sessions).Ways(key) == FREE_SET
    {
      assert Run([], key.home) == FREE_SET;
    }
  }

  /** In every interleaving without savepoint rollbacks the shared cache stays coherent. */
  lemma {:induction false} RunsStayCoherent(worlds: seq<World>, steps: seq<Step>, j: nat)
    requires IsRun(worlds, steps) && j < |worlds|
    requires forall i :: 0 <= i < |steps| ==> !steps[i].SubAbort?
    ensures Coherent(worlds[j])
  {
    if j == 0 {
      StartCoherent(|worlds[0].sessions|);
    } else {
      RunsStayCoherent(worlds, steps, j - 1);
      var w, step := worlds[j - 1], steps[j - 1];
      assert worlds[j] == Next(w, step) && Enabled(w, step);
      match step {
        case Look(_, _) => LookKeepsCoherent(w, step);
        case Publish(_, _) => PublishKeepsCoherent(w, step);
        case Abort(_) => AbortKeepsCoherent(w, step);
        case Flush(_) => FlushKeepsCoherent(w, step);
        case _ => QuietStepKeepsCoherent(w, step);
      }
    }
  }

  /** When no transaction is running, whatever the cache answers is the id of a committed row. */
  lemma AtRestOnlyCommittedRows(worlds: seq<World>, steps: seq<Step>, j: nat, key: Key)
    requires IsRun(worlds, steps) && j < |worlds|
    requires forall i :: 0 <= i < |steps| ==> !steps[i].SubAbort?
    requires forall b :: 0 <= b < |worlds[j].sessions| ==> worlds[j].sessions[b].pending == map[]
    requires Answer(worlds[j].Ways(key), key).Some?
    ensures key in worlds[j].committed && worlds[j].committed[key] == Answer(worlds[j].Ways(key), key).value
  {
    RunsStayCoherent(worlds, steps, j);
    assert HasRow(worlds[j], key, Answer(worlds[j].Ways(key), key).value);
  }

  // ------------------------------------------------------------------------------
  // Answers and visible rows
  // ------------------------------------------------------------------------------

  /** The session itself can see the row. */
  ghost predicate VisibleRow(w: World, b: nat, key: Key, id: int)
    requires b < |w.sessions|
  {
    || (key in w.committed && w.committed[key] == id)
    || (key in w.sessions[b].pending && w.sessions[b].pending[key] == id)
  }

  ghost predicate LocalsHaveRows(w: World) {
    forall b, key :: 0 <= b < |w.sessions| && key in w.sessions[b].local
      ==> VisibleRow(w, b, key, w.sessions[b].local[key])
  }

  /** The shared cache answers with the id of a row that another session has not committed yet. */
  predicate Dirty(w: World, b: nat, key: Key) {
    Answer(w.Ways(key), key).Some? && w.PendingElsewhere(b, key)
  }

  /** A shared answer is a row the session can see exactly when it is not dirty. */
  lemma SharedAnswerVisibleExactlyWhen(w: World, b: nat, key: Key)
    requires Coherent(w) && b < |w.sessions| && Answer(w.Ways(key), key).Some?
    ensures VisibleRow(w, b, key, Answer(w.Ways(key), key).value) <==> !Dirty(w, b, key)
  {
    var i := FindFrom(w.Ways(key), key, 0);
    assert HasRow(w, key, w.Ways(key)[i].id);
    if w.PendingElsewhere(b, key) {
      var c :| 0 <= c < |w.sessions| && c != b && key in w.sessions[c].pending;
      assert b < c || c < b;
    }
  }

  /** A lookup keeps the private caches to visible rows exactly when it is not a dirty hit. */
  lemma LookKeepsLocalsExactlyWhen(w: World, step: Step)
    requires Coherent(w) && LocalsHaveRows(w) && Enabled(w, step) && step.Look?
    ensures LocalsHaveRows(Next(w, step)) <==> !Dirty(w, step.b, step.key)
  {
    var n := Next(w, step);
    var b, key := step.b, step.key;
    if Answer(w.Ways(key), key).Some? {
      SharedAnswerVisibleExactlyWhen(w, b, key);
      assert n.sessions[b].local[key] == Answer(w.Ways(key), key).value;
    }
    forall c, k | 0 <= c < |n.sessions| && k in n.sessions[c].local && !(c == b && k == key)
      ensures VisibleRow(n, c, k, n.sessions[c].local[k])
    {
      assert k in w.sessions[c].local && VisibleRow(w, c, k, w.sessions[c].local[k]);
    }
  }

  /** Every other step keeps them, whatever the other sessions have pending. */
  lemma OtherStepsKeepLocals(w: World, step: Step)
    requires Coherent(w) && LocalsHaveRows(w) && Enabled(w, step) && !step.Look? && !step.SubAbort?
    ensures LocalsHaveRows(Next(w, step))
  {
    var n := Next(w, step);
    forall b, key | 0 <= b < |n.sessions| && key in n.sessions[b].local
      ensures VisibleRow(n, b, key, n.sessions[b].local[key])
    {
      if !(step.Publish? && b == step.b && key == step.key) {
        assert key in w.sessions[b].local && VisibleRow(w, b, key, w.sessions[b].local[key]);
      }
    }
  }

  /** No lookup of the first `n` steps was a dirty hit. */
  ghost predicate NoDirtyHit(worlds: seq<World>, steps: seq<Step>, n: nat)
    requires IsRun(worlds, steps) && n <= |steps|
  {
    forall j :: 0 <= j < n && steps[j].Look? ==> !Dirty(worlds[j], steps[j].b, steps[j].key)
  }

  lemma {:induction false} LocalsAfter(worlds: seq<World>, steps: seq<Step>, n: nat)
    requires IsRun(worlds, steps) && n <= |steps| && forall i :: 0 <= i < |steps| ==> !steps[i].SubAbort?
    requires NoDirtyHit(worlds, steps, n)
    ensures LocalsHaveRows(worlds[n])
  {
    if n > 0 {
      LocalsAfter(worlds, steps, n - 1);
      RunsStayCoherent(worlds, steps, n - 1);
      assert worlds[n] == Next(worlds[n - 1], steps[n - 1]);
      if steps[n - 1].Look? {
        LookKeepsLocalsExactlyWhen(worlds[n - 1], steps[n - 1]);
      } else {
        OtherStepsKeepLocals(worlds[n - 1], steps[n - 1]);
      }
    }
  }

  /** The private caches hold only visible rows throughout a run exactly when it has no dirty hit. */
  lemma LocalsHaveRowsExactlyWhen(worlds: seq<World>, steps: seq<Step>)
    requires IsRun(worlds, steps) && forall i :: 0 <= i < |steps| ==> !steps[i].SubAbort?
    ensures (forall n :: 0 <= n <= |steps| ==> LocalsHaveRows(worlds[n])) <==> NoDirtyHit(worlds, steps, |steps|)
  {
    if NoDirtyHit(worlds, steps, |steps|) {
      forall n | 0 <= n <= |steps|
        ensures LocalsHaveRows(worlds[n])
      {
        LocalsAfter(worlds, steps, n);
      }
    }
    if forall n :: 0 <= n <= |steps| ==> LocalsHaveRows(worlds[n]) {
      forall j | 0 <= j < |steps| && steps[j].Look?
        ensures !Dirty(worlds[j], steps[j].b, steps[j].key)
      {
        RunsStayCoherent(worlds, steps, j);
        assert LocalsHaveRows(worlds[j]) && LocalsHaveRows(worlds[j + 1]);
        LookKeepsLocalsExactlyWhen(worlds[j], steps[j]);
      }
    }
  }

  /** What encoding a term answers without touching the dictionary: the shared cache, then the private one. */
  function CachedAnswer(w: World, b: nat, key: Key): Option<int>
    requires b < |w.sessions|
  {
    if Answer(w.Ways(key), key).Some? then Answer(w.Ways(key), key)
    else if key in w.sessions[b].local then Some(w.sessions[b].local[key])
    else None
  }

  /**
    After any interleaving without a dirty hit, an answer from either cache is the id of a
    row that the session can see exactly when it is not a dirty hit itself.
    */
  lemma CachedAnswersAreRows(worlds: seq<World>, steps: seq<Step>, j: nat, b: nat, key: Key)
    requires IsRun(worlds, steps) && j < |worlds| && NoDirtyHit(worlds, steps, j)
    requires forall i :: 0 <= i < |steps| ==> !steps[i].SubAbort?
    requires b < |worlds[j].sessions| && CachedAnswer(worlds[j], b, key).Some?
    ensures VisibleRow(worlds[j], b, key, CachedAnswer(worlds[j], b, key).value) <==> !Dirty(worlds[j], b, key)
  {
    RunsStayCoherent(worlds, steps, j);
    LocalsAfter(worlds, steps, j);
    if Answer(worlds[j].Ways(key), key).Some? {
      SharedAnswerVisibleExactlyWhen(worlds[j], b, key);
    }
  }

  lemma OneInsertion(key: Key, id: int)
    requires id != 0
    ensures Run([Inserted(key, id)], key.home) == [Held(key, id, 0), Free, Free, Free]
    ensures Answer([Held(key, id, 0), Free, Free, Free], key) == Some(id)
  {
    assert [Inserted(key, id)][..0] == [];
    assert FreeFrom(FREE_SET, 0) == 0;
  }

  /** Overlapping transactions: a session keeps the id of a row that another one took back. */
  lemma DirtyHitOutlivesAbort(key: Key)
    ensures
      var w1 := Next(Start(2), Publish(0, key));
      var w2 := Next(w1, Look(1, key));
      var w3 := Next(w2, Abort(0));
      && Enabled(Start(2), Publish(0, key)) && Enabled(w1, Look(1, key)) && Enabled(w2, Abort(0))
      && CachedAnswer(w3, 1, key) == Some(1) && !HasRow(w3, key, 1)
  {
    OneInsertion(key, 1);
    var w1 := Next(Start(2), Publish(0, key));
    assert w1.log == [Inserted(key, 1)];
    var w2 := Next(w1, Look(1, key));
    assert w2.sessions[1].local[key] == 1;
    var w3 := Next(w2, Abort(0));
    assert w3.sessions[1].local == w2.sessions[1].local;
    CopiesAfterEvictions(w2.log, w2.sessions[0].tracked, key);
    assert w2.sessions[0].tracked == [key] && [key][..0] == [];
    assert Count([key], key) == 1;
    RunOneMore(w1.log, Looked(key), key.home);
    CopiesStep(w1.Ways(key), Looked(key), key);
    CopiesAreOutstanding(w1.log, key);
    assert w1.log[..0] == [];
    HitMeansCopy(w3.Ways(key), key);
  }

  /** A rollback to a savepoint leaves the published row in the cache, and the commit forgets about it. */
  lemma SavepointRollbackLeaks(key: Key)
    ensures
      var w1 := Next(Start(1), Publish(0, key));
      var w2 := Next(w1, SubAbort(0, {key}));
      var w3 := Next(w2, Commit(0));
      && Enabled(Start(1), Publish(0, key)) && Enabled(w1, SubAbort(0, {key})) && Enabled(w2, Commit(0))
      && CachedAnswer(w3, 0, key) == Some(1) && !HasRow(w3, key, 1) && w3.sessions[0].tracked == []
  {
    OneInsertion(key, 1);
    assert Next(Start(1), Publish(0, key)).log == [Inserted(key, 1)];
  }

  // ------------------------------------------------------------------------------
  // Ids
  // ------------------------------------------------------------------------------

  /** Ids are positive and were handed out already, and rows of different keys have different ids. */
  ghost predicate IdsApart(w: World) {
    && (forall key, id :: HasRow(w, key, id) ==> 0 < id < w.nextId)
    && forall k, key, id :: HasRow(w, k, id) && HasRow(w, key, id) ==> k == key
  }

  /** A step makes at most one new row, whose id is the next one. */
  lemma RowOrigin(w: World, step: Step, key: Key, id: int)
    requires Enabled(w, step) && HasRow(Next(w, step), key, id)
    ensures HasRow(w, key, id) || (step.Publish? && key == step.key && id == w.nextId && Next(w, step).nextId == w.nextId + 1)
    ensures w.nextId <= Next(w, step).nextId
  {
    var n := Next(w, step);
    if key in n.committed && n.committed[key] == id {
      assert key in w.committed || (step.Commit? && key in w.sessions[step.b].pending);
    } else {
      var b :| 0 <= b < |n.sessions| && key in n.sessions[b].pending && n.sessions[b].pending[key] == id;
      assert (step.Publish? && b == step.b && key == step.key) || key in w.sessions[b].pending;
    }
  }

  lemma StepKeepsIdsApart(w: World, step: Step)
    requires IdsApart(w) && w.nextId > 0 && Enabled(w, step)
    ensures IdsApart(Next(w, step)) && Next(w, step).nextId > 0
  {
    var n := Next(w, step);
    forall key, id | HasRow(n, key, id)
      ensures 0 < id < n.nextId
    {
      RowOrigin(w, step, key, id);
    }
    forall k, key, id | HasRow(n, k, id) && HasRow(n, key, id)
      ensures k == key
    {
      RowOrigin(w, step, k, id);
      RowOrigin(w, step, key, id);
    }
  }

  /** In every run, savepoint rollbacks included, different terms have different ids. */
  lemma {:induction false} RunsKeepIdsApart(worlds: seq<World>, steps: seq<Step>, j: nat)
    requires IsRun(worlds, steps) && j < |worlds|
    ensures IdsApart(worlds[j]) && worlds[j].nextId > 0
  {
    if j > 0 {
      RunsKeepIdsApart(worlds, steps, j - 1);
      StepKeepsIdsApart(worlds[j - 1], steps[j - 1]);
    }
  }

  /** A row whose id was handed out by then was there by then. */
  lemma {:induction false} OldIdsHaveOldRows(worlds: seq<World>, steps: seq<Step>, i: nat, j: nat, key: Key, id: int)
    requires IsRun(worlds, steps) && i <= j < |worlds| && HasRow(worlds[j], key, id) && id < worlds[i].nextId
    ensures HasRow(worlds[i], key, id)
    decreases j
  {
    if i < j {
      IdsGoUp(worlds, steps, i, j - 1);
      RowOrigin(worlds[j - 1], steps[j - 1], key, id);
      OldIdsHaveOldRows(worlds, steps, i, j - 1, key, id);
    }
  }

  lemma {:induction false} IdsGoUp(worlds: seq<World>, steps: seq<Step>, i: nat, j: nat)
    requires IsRun(worlds, steps) && i <= j < |worlds|
    ensures worlds[i].nextId <= worlds[j].nextId
    decreases j
  {
    if i < j {
      IdsGoUp(worlds, steps, i, j - 1);
      assert worlds[j] == Next(worlds[j - 1], steps[j - 1]);
    }
  }

  /** An id that a term once had, also one taken back since, is never given to another term. */
  lemma IdsAreNeverReused(worlds: seq<World>, steps: seq<Step>, i: nat, j: nat, k: Key, key: Key, id: int)
    requires IsRun(worlds, steps) && i < |worlds| && j < |worlds|
    requires HasRow(worlds[i], k, id) && HasRow(worlds[j], key, id)
    ensures k == key
  {
    RunsKeepIdsApart(worlds, steps, i);
    RunsKeepIdsApart(worlds, steps, j);
    if i <= j {
      OldIdsHaveOldRows(worlds, steps, i, j, key, id);
    } else {
      OldIdsHaveOldRows(worlds, steps, j, i, k, id);
    }
  }

  /** Without dirty hits, sessions that are answered from their caches get different ids for different terms. */
  lemma CachedAnswersSeparate(worlds: seq<World>, steps: seq<Step>, j: nat, a: nat, k: Key, b: nat, key: Key)
    requires IsRun(worlds, steps) && j < |worlds| && NoDirtyHit(worlds, steps, j)
    requires forall i :: 0 <= i < |steps| ==> !steps[i].SubAbort?
    requires a < |worlds[j].sessions| && b < |worlds[j].sessions| && !Dirty(worlds[j], a, k) && !Dirty(worlds[j], b, key)
    requires CachedAnswer(worlds[j], a, k).Some? && CachedAnswer(worlds[j], a, k) == CachedAnswer(worlds[j], b, key)
    ensures k == key
  {
    var w, id := worlds[j], CachedAnswer(worlds[j], a, k).value;
    CachedAnswersAreRows(worlds, steps, j, a, k);
    CachedAnswersAreRows(worlds, steps, j, b, key);
    assert HasRow(w, k, id) && HasRow(w, key, id);
    RunsKeepIdsApart(worlds, steps, j);
  }

  /** Once committed, a row stays, with its id, through every step. */
  lemma {:induction false} CommittedRowsStay(worlds: seq<World>, steps: seq<Step>, i: nat, j: nat, key: Key)
    requires IsRun(worlds, steps) && i <= j < |worlds| && key in worlds[i].committed
    requires forall n :: 0 <= n < |steps| ==> !steps[n].SubAbort?
    ensures key in worlds[j].committed && worlds[j].committed[key] == worlds[i].committed[key]
    decreases j
  {
    if i < j {
      CommittedRowsStay(worlds, steps, i, j - 1, key);
      RunsStayCoherent(worlds, steps, j - 1);
      assert worlds[j] == Next(worlds[j - 1], steps[j - 1]) && Enabled(worlds[j - 1], steps[j - 1]);
    }
  }

  /** A publication gives the term a row that the session sees, and both caches answer with it. */
  lemma PublishAnswers(w: World, step: Step)
    requires Coherent(w) && IdsApart(w) && w.nextId > 0 && Enabled(w, step) && step.Publish?
    ensures var n := Next(w, step);
            && step.key in n.sessions[step.b].local && VisibleRow(n, step.b, step.key, n.sessions[step.b].local[step.key])
            && CachedAnswer(n, step.b, step.key) == Some(n.sessions[step.b].local[step.key])
            && Answer(n.Ways(step.key), step.key) == Some(n.sessions[step.b].local[step.key])
  {
    var n, key, b := Next(w, step), step.key, step.b;
    var id := n.sessions[b].local[key];
    StepKeepsIdsApart(w, step);
    PublishKeepsCoherent(w, step);
    assert HasRow(n, key, id);
    RunOneMore(w.log, Inserted(key, id), key.home);
    assert n.Ways(key) == SetStep(w.Ways(key), Inserted(key, id));
    InsertionHits(w.Ways(key), key, id);
    assert !Dirty(n, b, key);
    SharedAnswerVisibleExactlyWhen(n, b, key);
  }

  /** After a commit every session sees the rows, and the session has nothing left to take back. */
  lemma CommitShowsRows(w: World, b: nat, c: nat, key: Key)
    requires b < |w.sessions| && c < |w.sessions| && key in w.sessions[b].pending
    ensures VisibleRow(Next(w, Commit(b)), c, key, w.sessions[b].pending[key])
    ensures Next(w, Commit(b)).sessions[b].pending == map[] && Next(w, Commit(b)).sessions[b].tracked == []
    ensures CachedAnswer(Next(w, Commit(b)), c, key) == CachedAnswer(w, c, key)
  {
  }

  /** After an abort the rows of the transaction are gone, and everyone else's are still there. */
  lemma AbortTakesBack(w: World, b: nat, key: Key, id: int)
    requires RowsApart(w) && b < |w.sessions|
    ensures HasRow(Next(w, Abort(b)), key, id) <==> HasRow(w, key, id) && key !in w.sessions[b].pending
  {
    var n := Next(w, Abort(b));
    if HasRow(w, key, id) && key !in w.sessions[b].pending {
      RowSurvives(w, n, key, id);
    }
    if HasRow(n, key, id) && !(key in n.committed && n.committed[key] == id) {
      var c :| 0 <= c < |n.sessions| && key in n.sessions[c].pending && n.sessions[c].pending[key] == id;
      assert c != b && (b < c || c < b);
    }
  }

  /** A flush empties the shared cache and the private one, and takes no row. */
  lemma FlushEmpties(w: World, b: nat, key: Key, id: int)
    requires b < |w.sessions|
    ensures var n := Next(w, Flush(b));
            && Answer(n.Ways(key), key).None? && n.sessions[b].local == map[]
            && (HasRow(n, key, id) <==> HasRow(w, key, id))
  {
    var n := Next(w, Flush(b));
    CopiesAfterEvictions(w.log + [Cleared], w.sessions[b].tracked, key);
    RunOneMore(w.log, Cleared, key.home);
    CopiesStep(w.Ways(key), Cleared, key);
    HitMeansCopy(n.Ways(key), key);
    if HasRow(w, key, id) {
      RowSurvives(w, n, key, id);
    }
    if HasRow(n, key, id) && !(key in n.committed && n.committed[key] == id) {
      var c :| 0 <= c < |n.sessions| && key in n.sessions[c].pending && n.sessions[c].pending[key] == id;
      assert key in w.sessions[c].pending;
    }
  }

  /** A rollback to a savepoint takes back the rows since then and empties the private cache; the shared cache answers as before. */
  lemma SavepointTakesBack(w: World, b: nat, lost: set<Key>, key: Key, id: int)
    requires RowsApart(w) && b < |w.sessions|
    ensures var n := Next(w, SubAbort(b, lost));
            && (HasRow(n, key, id) <==> HasRow(w, key, id) && !(key in w.sessions[b].pending && key in lost))
            && CachedAnswer(n, b, key) == Answer(w.Ways(key), key)
  {
    var n := Next(w, SubAbort(b, lost));
    if HasRow(w, key, id) && !(key in w.sessions[b].pending && key in lost) {
      RowStays(w, n, key, id);
    }
    if HasRow(n, key, id) && !(key in n.committed && n.committed[key] == id) {
      var c :| 0 <= c < |n.sessions| && key in n.sessions[c].pending && n.sessions[c].pending[key] == id;
      assert key in w.sessions[c].pending && (c != b ==> b < c || c < b);
    }
  }

  lemma RowStays(w: World, n: World, key: Key, id: int)
    requires HasRow(w, key, id) && |n.sessions| == |w.sessions| && n.committed == w.committed
    requires forall b :: 0 <= b < |w.sessions| && key in w.sessions[b].pending ==>
               key in n.sessions[b].pending && n.sessions[b].pending[key] == w.sessions[b].pending[key]
    ensures HasRow(n, key, id)
  {
    if b :| 0 <= b < |w.sessions| && key in w.sessions[b].pending && w.sessions[b].pending[key] == id {
      assert key in n.sessions[b].pending;
    }
  }

  /**
    A lookup changes no answer.  A hit in the shared cache goes to the private one and makes the
    way young; a miss makes every entry of the set one miss older.
    */
  lemma LookTouches(w: World, b: nat, key: Key)
    requires b < |w.sessions|
    ensures var n, hit := Next(w, Look(b, key)), Answer(w.Ways(key), key);
            && CachedAnswer(n, b, key) == CachedAnswer(w, b, key) && Answer(n.Ways(key), key) == hit
            && (hit.Some? ==> key in n.sessions[b].local && n.sessions[b].local[key] == hit.value
                              && n.Ways(key)[FindFrom(w.Ways(key), key, 0)] == Held(key, hit.value, 0))
            && (hit.None? ==> forall i :: 0 <= i < WAYS && w.Ways(key)[i].Held? ==>
                  n.Ways(key)[i] == Held(w.Ways(key)[i].key, w.Ways(key)[i].id, w.Ways(key)[i].idle + 1))
  {
    RunOneMore(w.log, Looked(key), key.home);
    ProbeAnswers(w.Ways(key), key);
  }

  lemma ProbeAnswers(ways: Ways, key: Key)
    requires |ways| == WAYS
    ensures Answer(SetStep(ways, Looked(key)), key) == Answer(ways, key)
  {
    var after, v := SetStep(ways, Looked(key)), FindFrom(ways, key, 0);
    assert forall w :: 0 <= w < WAYS ==> (after[w].Holds(key) <==> ways[w].Holds(key));
    var u := FindFrom(after, key, 0);
    assert u == v;
  }

  /** An entry dropped from the private cache is answered by the shared cache alone; the others are still there. */
  lemma ForgetDropsOne(w: World, b: nat, key: Key, other: Key)
    requires b < |w.sessions|
    ensures CachedAnswer(Next(w, Forget(b, key)), b, other) == if other == key then Answer(w.Ways(key), key) else CachedAnswer(w, b, other)
  {
  }

  // ------------------------------------------------------------------------------
  // The key that encode_batch reads back
  // ------------------------------------------------------------------------------

  /** An i64 widened to 128 bits, here from the low half of a word. */
  function SignExtend(half: bv128): bv128 {
    if Negative(half) then Flood(half) else half
  }

  function ShiftUp(half: bv128): bv128 {
    half << 64
  }

  function LowHalf(hash: bv128): bv128 {
    hash & 0xFFFFFFFFFFFFFFFF
  }

  function HighHalf(hash: bv128): bv128 {
    hash >> 64
  }

  /** A row returns the two halves as i64; the batch encoder puts the hash together again. */
  function Rejoined(hash: bv128): bv128 {
    Or(ShiftUp(SignExtend(HighHalf(hash))), SignExtend(LowHalf(hash)))
  }

  function Or(a: bv128, b: bv128): bv128 {
    a | b
  }

  function Flood(half: bv128): bv128 {
    0xFFFFFFFFFFFFFFFF0000000000000000 | half
  }

  predicate Negative(half: bv128) {
    half & 0x8000000000000000 != 0
  }

  lemma ShiftDropsSign(half: bv128)
    ensures ShiftUp(Flood(half)) == ShiftUp(half)
  {}

  lemma HalvesJoin(hash: bv128)
    ensures Or(ShiftUp(HighHalf(hash)), LowHalf(hash)) == hash
  {}

  lemma SignFloods(hash: bv128)
    ensures Or(ShiftUp(HighHalf(hash)), Flood(LowHalf(hash))) == Flood(hash)
  {}

  lemma FloodIsSame(hash: bv128)
    ensures Flood(hash) == hash <==> HighHalf(hash) == 0xFFFFFFFFFFFFFFFF
  {}

  lemma HighHalfKept(half: bv128)
    ensures ShiftUp(SignExtend(half)) == ShiftUp(half)
  {
    if Negative(half) {
      ShiftDropsSign(half);
    }
  }

  lemma RejoinedFloods(hash: bv128)
    requires Negative(LowHalf(hash))
    ensures Rejoined(hash) == Flood(hash)
  {
    HighHalfKept(HighHalf(hash));
    SignFloods(hash);
  }

  lemma RejoinedJoins(hash: bv128)
    requires !Negative(LowHalf(hash))
    ensures Rejoined(hash) == hash
  {
    HighHalfKept(HighHalf(hash));
    HalvesJoin(hash);
  }

  /** The batch encoder finds its row again exactly when the low half is not negative (or the high half is all ones). */
  lemma RejoinedExactlyWhen(hash: bv128)
    ensures Rejoined(hash) == hash <==> !Negative(LowHalf(hash)) || HighHalf(hash) == 0xFFFFFFFFFFFFFFFF
  {
    if Negative(LowHalf(hash)) {
      RejoinedFloods(hash);
      FloodIsSame(hash);
    } else {
      RejoinedJoins(hash);
    }
  }
}
