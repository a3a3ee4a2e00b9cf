/**
  The ideal encode cache.  Every way keeps a whole key, with the set it belongs to, and an
  unbounded count of the misses its set has seen since the way was last touched.  The sets
  do not interact, so a run is described set by set.
  */
module CacheModel {
  import opened Prelude

  const WAYS: nat := 4

  datatype Key = Key(home: nat, hash: bv128)

  datatype Entry = Free | Held(key: Key, id: int, idle: nat) {
    predicate Holds(k: Key) {
      Held? && key == k
    }

    /** The age that two bits can show. */
    function Age(): nat {
      if Free? then 0 else if idle < 3 then idle else 3
    }
  }

  type Ways = seq<Entry>

  const FREE_SET: Ways := [Free, Free, Free, Free]

  function NewEntry(key: Key, id: int): Entry {
    if id == 0 then Free else Held(key, id, 0)
  }

  /** The first way from `w` on that holds `key`, or the number of ways. */
  function FindFrom(ways: Ways, key: Key, w: nat): (r: nat)
    requires w <= |ways|
    ensures w <= r <= |ways|
    ensures r < |ways| ==> ways[r].Holds(key)
    ensures forall v :: w <= v < r ==> !ways[v].Holds(key)
    decreases |ways| - w
  {
    if w == |ways| || ways[w].Holds(key) then w else FindFrom(ways, key, w + 1)
  }

  function FreeFrom(ways: Ways, w: nat): (r: nat)
    requires w <= |ways|
    ensures w <= r <= |ways|
    ensures r < |ways| ==> ways[r].Free?
    ensures forall v :: w <= v < r ==> ways[v].Held?
    decreases |ways| - w
  {
    if w == |ways| || ways[w].Free? then w else FreeFrom(ways, w + 1)
  }

  /** The ways before `w` are no older than `best`, and those before `best` are younger. */
  ghost predicate OldestBefore(ways: Ways, best: nat, w: nat) {
    && best < w <= |ways|
    && (forall v :: 0 <= v < w ==> ways[v].Age() <= ways[best].Age())
    && (forall v :: 0 <= v < best ==> ways[v].Age() < ways[best].Age())
  }

  function VictimFrom(ways: Ways, best: nat, w: nat): (r: nat)
    requires OldestBefore(ways, best, w)
    ensures OldestBefore(ways, r, |ways|)
    decreases |ways| - w
  {
    if w == |ways| then best
    else VictimFrom(ways, if ways[w].Age() > ways[best].Age() then w else best, w + 1)
  }

  lemma VictimStep(ways: Ways, best: nat, w: nat)
    requires OldestBefore(ways, best, w) && w < |ways|
    ensures var next := if ways[w].Age() > ways[best].Age() then w else best;
            OldestBefore(ways, next, w + 1) && VictimFrom(ways, best, w) == VictimFrom(ways, next, w + 1)
  {
  }

  function InsertSlot(ways: Ways): (r: nat)
    requires |ways| == WAYS
    ensures r < WAYS
    ensures if exists e :: e in ways && e.Free? then ways[r].Free? else OldestBefore(ways, r, WAYS)
  {
    var free := FreeFrom(ways, 0);
    if free < WAYS then assert ways[free] in ways; free else VictimFrom(ways, 0, 1)
  }

  function AgedEntry(e: Entry): Entry {
    if e.Free? then e else e.(idle := e.idle + 1)
  }

  function AgedSet(ways: Ways): Ways {
    seq(|ways|, w requires 0 <= w < |ways| => AgedEntry(ways[w]))
  }

  datatype Op = Looked(key: Key) | Inserted(key: Key, id: int) | Evicted(key: Key) | Cleared

  function Answer(ways: Ways, key: Key): Option<int> {
    var w := FindFrom(ways, key, 0);
    if w < |ways| then Some(ways[w].id) else None
  }

  /** What an operation does to the set it addresses. */
  function SetStep(ways: Ways, op: Op): (r: Ways)
    requires |ways| == WAYS
    ensures |r| == WAYS
  {
    match op
    case Looked(key) =>
      var w := FindFrom(ways, key, 0);
      if w < WAYS then ways[w := ways[w].(idle := 0)] else AgedSet(ways)
    case Inserted(key, id) =>
      ways[InsertSlot(ways) := NewEntry(key, id)]
    case Evicted(key) =>
      var w := FindFrom(ways, key, 0);
      if w < WAYS then ways[w := Free] else ways
    case Cleared => FREE_SET
  }

  predicate Addresses(op: Op, i: nat) {
    op.Cleared? || op.key.home == i
  }

  /** The contents of set `i` after a run that started with an empty cache. */
  function Run(ops: seq<Op>, i: nat): (ways: Ways)
    ensures |ways| == WAYS
  {
    if ops == [] then FREE_SET else
      var before, op := Run(ops[..|ops| - 1], i), ops[|ops| - 1];
      if Addresses(op, i) then SetStep(before, op) else before
  }

  // ------------------------------------------------------------------------------
  // Counting the copies of a key
  // ------------------------------------------------------------------------------

  function Copies(ways: Ways, key: Key): nat {
    if ways == [] then 0 else One(ways[0].Holds(key)) + Copies(ways[1..], key)
  }

  lemma {:induction false} CopiesUpdate(ways: Ways, w: nat, e: Entry, key: Key)
    requires w < |ways|
    ensures Copies(ways[w := e], key) + One(ways[w].Holds(key)) == Copies(ways, key) + One(e.Holds(key))
  {
    if w == 0 {
      assert ways[w := e][1..] == ways[1..];
    } else {
      assert ways[w := e][1..] == ways[1..][w - 1 := e];
      CopiesUpdate(ways[1..], w - 1, e, key);
    }
  }

  lemma {:induction false} CopiesAged(ways: Ways, key: Key)
    ensures Copies(AgedSet(ways), key) == Copies(ways, key)
  {
    if ways != [] {
      assert AgedSet(ways)[1..] == AgedSet(ways[1..]);
      CopiesAged(ways[1..], key);
    }
  }

  lemma {:induction false} NoCopyWithout(ways: Ways, key: Key)
    ensures Copies(ways, key) > 0 <==> exists w :: 0 <= w < |ways| && ways[w].Holds(key)
  {
    if ways != [] {
      NoCopyWithout(ways[1..], key);
      if w :| 0 < w < |ways| && ways[w].Holds(key) {
        assert ways[1..][w - 1].Holds(key);
      }
      if w :| 0 <= w < |ways[1..]| && ways[1..][w].Holds(key) {
        assert ways[w + 1].Holds(key);
      }
    }
  }

  /** A hit is exactly the presence of a copy. */
  lemma HitMeansCopy(ways: Ways, key: Key)
    ensures Answer(ways, key).Some? <==> Copies(ways, key) > 0
  {
  }

  /** Lookups keep every copy, an eviction removes exactly one, an insertion adds at most one. */
  lemma CopiesStep(ways: Ways, op: Op, key: Key)
    requires |ways| == WAYS
    ensures op.Looked? ==> Copies(SetStep(ways, op), key) == Copies(ways, key)
    ensures op.Evicted? && op.key == key && Copies(ways, key) > 0 ==> Copies(SetStep(ways, op), key) == Copies(ways, key) - 1
    ensures op.Evicted? && (op.key != key || Copies(ways, key) == 0) ==> Copies(SetStep(ways, op), key) == Copies(ways, key)
    ensures op.Inserted? && op.key == key && op.id != 0 ==> 1 <= Copies(SetStep(ways, op), key) <= Copies(ways, key) + 1
    ensures op.Inserted? && (op.key != key || op.id == 0) ==> Copies(SetStep(ways, op), key) <= Copies(ways, key)
    ensures op.Cleared? ==> Copies(SetStep(ways, op), key) == 0
  {
    HitMeansCopy(ways, key);
    match op
    case Looked(k) =>
      var w := FindFrom(ways, k, 0);
      if w < WAYS {
        CopiesUpdate(ways, w, ways[w].(idle := 0), key);
      } else {
        CopiesAged(ways, key);
      }
    case Inserted(k, id) =>
      CopiesUpdate(ways, InsertSlot(ways), NewEntry(k, id), key);
      NoCopyWithout(SetStep(ways, op), key);
      assert id != 0 && k == key ==> SetStep(ways, op)[InsertSlot(ways)].Holds(key);
    case Evicted(k) =>
      var w := FindFrom(ways, k, 0);
      if w < WAYS {
        CopiesUpdate(ways, w, Free, key);
      }
    case Cleared =>
      NoCopyWithout(FREE_SET, key);
  }

  // ------------------------------------------------------------------------------
  // Every run
  // ------------------------------------------------------------------------------

  /** Insertions of `key` still to be undone: evictions undo one each, a flush undoes all. */
  function Outstanding(ops: seq<Op>, key: Key): nat {
    if ops == [] then 0 else
      var before, op := Outstanding(ops[..|ops| - 1], key), ops[|ops| - 1];
      if op.Cleared? then 0
      else if op == Evicted(key) then (if before == 0 then 0 else before - 1)
      else if op.Inserted? && op.key == key && op.id != 0 then before + 1
      else before
  }

  /** In every run a key has no more copies than outstanding insertions. */
  lemma {:induction false} CopiesAreOutstanding(ops: seq<Op>, key: Key)
    ensures Copies(Run(ops, key.home), key) <= Outstanding(ops, key)
  {
    if ops == [] {
      NoCopyWithout(FREE_SET, key);
    } else {
      CopiesAreOutstanding(ops[..|ops| - 1], key);
      CopiesStep(Run(ops[..|ops| - 1], key.home), ops[|ops| - 1], key);
    }
  }

  /** An insertion of this key and id at position `j`, with no flush after it. */
  ghost predicate InsertedAt(ops: seq<Op>, key: Key, id: int, j: nat) {
    j < |ops| && ops[j] == Inserted(key, id) && forall i :: j < i < |ops| ==> !ops[i].Cleared?
  }

  /** A step writes an entry or leaves what was there, up to its idle count. */
  lemma EntryAfterStep(ways: Ways, op: Op, w: nat)
    requires |ways| == WAYS && w < WAYS && SetStep(ways, op)[w].Held?
    ensures
      var e := SetStep(ways, op)[w];
      || (op.Inserted? && e == Held(op.key, op.id, 0))
      || (!op.Cleared? && ways[w].Held? && ways[w].key == e.key && ways[w].id == e.id)
  {}

  lemma {:induction false} EntryOrigin(ops: seq<Op>, i: nat, w: nat) returns (j: nat)
    requires w < WAYS && Run(ops, i)[w].Held?
    ensures InsertedAt(ops, Run(ops, i)[w].key, Run(ops, i)[w].id, j)
  {
    var before, op := ops[..|ops| - 1], ops[|ops| - 1];
    if Addresses(op, i) {
      EntryAfterStep(Run(before, i), op, w);
    }
    if Addresses(op, i) && op.Inserted? && Run(ops, i)[w] == Held(op.key, op.id, 0) {
      j := |before|;
    } else {
      j := EntryOrigin(before, i, w);
    }
  }

  /**
    In every run, whatever the order of lookups, insertions, evictions and flushes, a hit
    answers an id that was inserted for that very key after the last flush, and there are
    more insertions of the key than evictions since.
    */
  lemma HitWasInserted(ops: seq<Op>, key: Key)
    requires Answer(Run(ops, key.home), key).Some?
    ensures Outstanding(ops, key) > 0
    ensures exists j: nat :: InsertedAt(ops, key, Answer(Run(ops, key.home), key).value, j)
  {
    HitMeansCopy(Run(ops, key.home), key);
    CopiesAreOutstanding(ops, key);
    var j := EntryOrigin(ops, key.home, FindFrom(Run(ops, key.home), key, 0));
  }

  // ------------------------------------------------------------------------------
  // Runs in which callers insert only after a miss
  // ------------------------------------------------------------------------------

  ghost predicate InsertsAfterMiss(ops: seq<Op>) {
    forall j :: 0 <= j < |ops| && ops[j].Inserted? ==> Answer(Run(ops[..j], ops[j].key.home), ops[j].key) == None
  }

  /** The plain partial map that the cache stands for. */
  function MapOf(ops: seq<Op>): map<Key, int> {
    if ops == [] then map[] else
      var m := MapOf(ops[..|ops| - 1]);
      match ops[|ops| - 1]
      case Looked(_) => m
      case Inserted(key, id) => if id == 0 then m else m[key := id]
      case Evicted(key) => m - {key}
      case Cleared => map[]
  }

  lemma PrefixInsertsAfterMiss(ops: seq<Op>)
    requires InsertsAfterMiss(ops) && ops != []
    ensures InsertsAfterMiss(ops[..|ops| - 1])
  {
    var before := ops[..|ops| - 1];
    assert forall j :: 0 <= j < |before| ==> before[..j] == ops[..j];
  }

  lemma {:induction false} AtMostOneCopy(ops: seq<Op>, key: Key)
    requires InsertsAfterMiss(ops)
    ensures Copies(Run(ops, key.home), key) <= 1
  {
    if ops == [] {
      NoCopyWithout(FREE_SET, key);
    } else {
      var before := ops[..|ops| - 1];
      PrefixInsertsAfterMiss(ops);
      AtMostOneCopy(before, key);
      HitMeansCopy(Run(before, key.home), key);
      CopiesStep(Run(before, key.home), ops[|ops| - 1], key);
    }
  }

  lemma {:induction false} EntryMatchesMap(ops: seq<Op>, i: nat, w: nat)
    requires InsertsAfterMiss(ops)
    requires w < WAYS && Run(ops, i)[w].Held? && Run(ops, i)[w].key.home == i
    ensures Run(ops, i)[w].key in MapOf(ops) && MapOf(ops)[Run(ops, i)[w].key] == Run(ops, i)[w].id
  {
    var before, op, e := ops[..|ops| - 1], ops[|ops| - 1], Run(ops, i)[w];
    PrefixInsertsAfterMiss(ops);
    if Addresses(op, i) {
      EntryAfterStep(Run(before, i), op, w);
    }
    if !(Addresses(op, i) && op.Inserted? && e == Held(op.key, op.id, 0)) {
      EntryMatchesMap(before, i, w);
      AtMostOneCopy(before, e.key);
      NoCopyWithout(Run(before, i), e.key);
      NoCopyWithout(Run(ops, i), e.key);
      CopiesStep(Run(before, i), op, e.key);
    }
  }

  /** Then the cache refines the map: it may forget a key, but a hit is never wrong. */
  lemma CacheRefinesMap(ops: seq<Op>, key: Key)
    requires InsertsAfterMiss(ops) && Answer(Run(ops, key.home), key).Some?
    ensures key in MapOf(ops) && MapOf(ops)[key] == Answer(Run(ops, key.home), key).value
  {
    EntryMatchesMap(ops, key.home, FindFrom(Run(ops, key.home), key, 0));
  }

  /** Otherwise an eviction can leave a second copy behind, and the next lookup answers it. */
  lemma DuplicateSurvivesEviction(key: Key)
    ensures var ops := [Inserted(key, 1), Inserted(key, 2), Evicted(key)];
            Answer(Run(ops, key.home), key) == Some(2) && key !in MapOf(ops)
  {
    var ops := [Inserted(key, 1), Inserted(key, 2), Evicted(key)];
    assert ops[..2] == [Inserted(key, 1), Inserted(key, 2)] && ops[..2][..1] == [Inserted(key, 1)];
    assert Run(ops[..2][..1], key.home) == [Held(key, 1, 0), Free, Free, Free] by {
      assert FreeFrom(FREE_SET, 0) == 0;
    }
    assert Run(ops[..2], key.home) == [Held(key, 1, 0), Held(key, 2, 0), Free, Free] by {
      assert FreeFrom([Held(key, 1, 0), Free, Free, Free], 0) == 1;
    }
    assert Run(ops, key.home) == [Free, Held(key, 2, 0), Free, Free] by {
      assert FindFrom([Held(key, 1, 0), Held(key, 2, 0), Free, Free], key, 0) == 0;
    }
    assert FindFrom([Free, Held(key, 2, 0), Free, Free], key, 0) == 1;
  }

  // ------------------------------------------------------------------------------
  // Exactly when the cache agrees with the map
  // ------------------------------------------------------------------------------

  /** An answer for the key, if there is one, is the one of the map. */
  ghost predicate Agrees(ops: seq<Op>, key: Key) {
    Answer(Run(ops, key.home), key).Some? ==> key in MapOf(ops) && MapOf(ops)[key] == Answer(Run(ops, key.home), key).value
  }

  /** Taking the first copy of the key out of its way shows no other id. */
  predicate NothingElseBehind(ways: Ways, key: Key) {
    var w := FindFrom(ways, key, 0);
    w == |ways| || var v := FindFrom(ways, key, w + 1); v == |ways| || ways[v].id == ways[w].id
  }

  /** What can be told, before an operation, about its effect on the answers for a key. */
  predicate Harmless(ways: Ways, op: Op, key: Key)
    requires |ways| == WAYS
  {
    match op
    case Looked(_) => true
    case Cleared => true
    case Evicted(k) => k == key ==> Copies(ways, key) <= 1
    case Inserted(k, id) =>
      var slot, w := InsertSlot(ways), FindFrom(ways, key, 0);
      if k == key && id != 0 then w == WAYS || slot <= w || ways[w].id == id
      else k.home == key.home && slot == w ==> NothingElseBehind(ways, key)
  }

  /** An eviction ends the hits for its key exactly when the key has no second way. */
  lemma EvictionForgetsExactlyWhen(ops: seq<Op>, key: Key)
    ensures Answer(Run(ops + [Evicted(key)], key.home), key).None? <==> Copies(Run(ops, key.home), key) <= 1
  {
    assert (ops + [Evicted(key)])[..|ops|] == ops;
    HitMeansCopy(Run(ops + [Evicted(key)], key.home), key);
    CopiesStep(Run(ops, key.home), Evicted(key), key);
  }

  /** The first way that holds the key after one way has changed. */
  lemma FirstAfterUpdate(ways: Ways, slot: nat, e: Entry, key: Key)
    requires slot < |ways|
    ensures var w, r := FindFrom(ways, key, 0), FindFrom(ways[slot := e], key, 0);
            && (e.Holds(key) ==> r == if slot <= w then slot else w)
            && (!e.Holds(key) ==> r == if slot == w then FindFrom(ways, key, w + 1) else w)
  {
    var w, after := FindFrom(ways, key, 0), ways[slot := e];
    var first := if e.Holds(key) then (if slot <= w then slot else w)
                 else if slot == w then FindFrom(ways, key, w + 1) else w;
    assert first < |ways| ==> after[first].Holds(key);
    forall v | 0 <= v < first
      ensures !after[v].Holds(key)
    {
      assert v != slot ==> after[v] == ways[v];
    }
  }

  lemma LookupKeepsAnswer(ways: Ways, k: Key, key: Key)
    requires |ways| == WAYS
    ensures Answer(SetStep(ways, Looked(k)), key) == Answer(ways, key)
  {
    var after := SetStep(ways, Looked(k));
    forall v | 0 <= v < WAYS
      ensures after[v].Holds(key) <==> ways[v].Holds(key)
      ensures ways[v].Held? ==> after[v].Held? && after[v].id == ways[v].id
    {
    }
  }

  /** After an insertion its key is found. */
  lemma InsertionHits(ways: Ways, key: Key, id: int)
    requires |ways| == WAYS && id != 0
    ensures Answer(SetStep(ways, Inserted(key, id)), key).Some?
  {
    InsertionAnswer(ways, key, id, key);
  }

  lemma {:induction false} EvictionKeepsAgreement(ops: seq<Op>, k: Key, key: Key)
    requires Agrees(ops, key) && k.home == key.home
    ensures Agrees(ops + [Evicted(k)], key) <==> Harmless(Run(ops, key.home), Evicted(k), key)
  {
    var ways := Run(ops, key.home);
    assert (ops + [Evicted(k)])[..|ops|] == ops;
    if k == key {
      EvictionForgetsExactlyWhen(ops, key);
    } else if FindFrom(ways, k, 0) < WAYS {
      FirstAfterUpdate(ways, FindFrom(ways, k, 0), Free, key);
    }
  }

  lemma {:induction false} InsertionKeepsAgreement(ops: seq<Op>, k: Key, id: int, key: Key)
    requires Agrees(ops, key) && k.home == key.home
    ensures Agrees(ops + [Inserted(k, id)], key) <==> Harmless(Run(ops, key.home), Inserted(k, id), key)
  {
    var ways := Run(ops, key.home);
    assert (ops + [Inserted(k, id)])[..|ops|] == ops;
    InsertionAnswer(ways, k, id, key);
  }

  /** The answer for a key after an insertion into its set. */
  lemma InsertionAnswer(ways: Ways, k: Key, id: int, key: Key)
    requires |ways| == WAYS
    ensures var slot, w := InsertSlot(ways), FindFrom(ways, key, 0);
            var after := Answer(ways[slot := NewEntry(k, id)], key);
            if k == key && id != 0 then after == if slot <= w then Some(id) else Some(ways[w].id)
            else if slot != w then after == Answer(ways, key)
            else var v := FindFrom(ways, key, w + 1); after == if v == WAYS then None else Some(ways[v].id)
  {
    FirstAfterUpdate(ways, InsertSlot(ways), NewEntry(k, id), key);
  }

  lemma {:induction false} StepKeepsAgreementExactlyWhen(ops: seq<Op>, op: Op, key: Key)
    requires Agrees(ops, key)
    ensures Agrees(ops + [op], key) <==> Harmless(Run(ops, key.home), op, key)
  {
    var ways := Run(ops, key.home);
    assert (ops + [op])[..|ops|] == ops;
    if Addresses(op, key.home) {
      match op
      case Looked(k) => LookupKeepsAnswer(ways, k, key);
      case Evicted(k) => EvictionKeepsAgreement(ops, k, key);
      case Inserted(k, id) => InsertionKeepsAgreement(ops, k, id, key);
      case Cleared => assert FindFrom(FREE_SET, key, 0) == WAYS;
    }
  }

  /** Through a whole run the cache agrees with the map exactly when every step is harmless. */
  lemma {:induction false} AgreesThroughoutExactlyWhen(ops: seq<Op>, key: Key)
    ensures (forall n :: 0 <= n <= |ops| ==> Agrees(ops[..n], key))
       <==> forall n :: 0 <= n < |ops| ==> Harmless(Run(ops[..n], key.home), ops[n], key)
  {
    assert FindFrom(FREE_SET, key, 0) == WAYS;
    assert ops[..0] == [] && Agrees([], key);
    forall n | 0 <= n < |ops| && Agrees(ops[..n], key)
      ensures Agrees(ops[..n + 1], key) <==> Harmless(Run(ops[..n], key.home), ops[n], key)
    {
      assert ops[..n + 1] == ops[..n] + [ops[n]];
      StepKeepsAgreementExactlyWhen(ops[..n], ops[n], key);
    }
    if forall n :: 0 <= n < |ops| ==> Harmless(Run(ops[..n], key.home), ops[n], key) {
      var n := 0;
      while n < |ops|
        invariant 0 <= n <= |ops| && forall k :: 0 <= k <= n ==> Agrees(ops[..k], key)
      {
        n := n + 1;
      }
    }
    if forall n :: 0 <= n <= |ops| ==> Agrees(ops[..n], key) {
      forall n | 0 <= n < |ops|
        ensures Harmless(Run(ops[..n], key.home), ops[n], key)
      {
        assert Agrees(ops[..n], key) && Agrees(ops[..n + 1], key);
      }
    }
  }

  // ------------------------------------------------------------------------------
  // Ages
  // ------------------------------------------------------------------------------

  predicate IsMiss(ways: Ways, op: Op) {
    op.Looked? && Answer(ways, op.key).None?
  }

  /** The misses that set `i` sees from operation `j` on. */
  function MissesFrom(ops: seq<Op>, i: nat, j: nat): nat
    requires j <= |ops|
  {
    if j == |ops| then 0 else
      var before, op := ops[..|ops| - 1], ops[|ops| - 1];
      MissesFrom(before, i, j) + One(Addresses(op, i) && IsMiss(Run(before, i), op))
  }

  /** The operation writes way `w`, or is a hit on it. */
  predicate Touches(ways: Ways, op: Op, w: nat)
    requires |ways| == WAYS
  {
    match op
    case Looked(key) => FindFrom(ways, key, 0) == w
    case Inserted(_, _) => InsertSlot(ways) == w
    case _ => false
  }

  /** Operation `j` left way `w` of set `i` with this key and id, freshly touched. */
  ghost predicate TouchedAt(ops: seq<Op>, i: nat, w: nat, key: Key, id: int, j: nat) {
    && j < |ops| && w < WAYS && Addresses(ops[j], i)
    && Touches(Run(ops[..j], i), ops[j], w) && Run(ops[..j + 1], i)[w] == Held(key, id, 0)
  }

  /** The idle count of every way is the number of misses its set has seen since the way was last touched. */
  lemma {:induction false} IdleCountsMisses(ops: seq<Op>, i: nat, w: nat) returns (j: nat)
    requires w < WAYS && Run(ops, i)[w].Held?
    ensures TouchedAt(ops, i, w, Run(ops, i)[w].key, Run(ops, i)[w].id, j)
    ensures Run(ops, i)[w].idle == MissesFrom(ops, i, j + 1)
  {
    var before, op := ops[..|ops| - 1], ops[|ops| - 1];
    assert Run(ops, i) == if Addresses(op, i) then SetStep(Run(before, i), op) else Run(before, i);
    if Addresses(op, i) && Touches(Run(before, i), op, w) {
      j := |before|;
      assert ops[..j + 1] == ops;
    } else {
      if Addresses(op, i) {
        EntryAfterStep(Run(before, i), op, w);
      }
      j := IdleCountsMisses(before, i, w);
      TouchedBefore(ops, i, w, Run(before, i)[w].key, Run(before, i)[w].id, j);
      UntouchedIdle(Run(before, i), op, i, w);
    }
  }

  lemma TouchedBefore(ops: seq<Op>, i: nat, w: nat, key: Key, id: int, j: nat)
    requires ops != [] && TouchedAt(ops[..|ops| - 1], i, w, key, id, j)
    ensures TouchedAt(ops, i, w, key, id, j)
  {
    var before := ops[..|ops| - 1];
    assert ops[..j + 1] == before[..j + 1] && ops[..j] == before[..j] && ops[j] == before[j];
  }

  /** A way that a step does not touch, and keeps, has seen one more miss if the step is one. */
  lemma UntouchedIdle(ways: Ways, op: Op, i: nat, w: nat)
    requires |ways| == WAYS && w < WAYS && ways[w].Held? && !(Addresses(op, i) && Touches(ways, op, w))
    requires Addresses(op, i) ==> SetStep(ways, op)[w].Held?
    ensures var after := if Addresses(op, i) then SetStep(ways, op) else ways;
            after[w].idle == ways[w].idle + One(Addresses(op, i) && IsMiss(ways, op))
  {
  }
}
