/**
  The shared-memory encode cache: 1024 sets of 4 ways, each way one 128-bit word that
  packs a 2-bit age over the top bits of the database-scoped term hash, beside a
  parallel array of dictionary ids (an id of 0 marks a free way).

  The class `SharedCache` follows the code on the packed arrays and is proved to step
  exactly as the ideal cache of `CacheModel`: the packing loses neither keys nor ages.
  */
module EncodeCache {
  import opened Prelude
  import opened CacheModel

  const SETS: nat := 1024

  // ------------------------------------------------------------------------------
  // Bit arithmetic
  // ------------------------------------------------------------------------------

  /** The low 126 bits, all that a packed word keeps of a key. */
  function KeyBits(word: bv128): bv128 {
    word & 0x3FFFFFFFFFFFFFFFFFFFFFFFFFFFFFFF
  }

  function TopTenBits(key: bv128): bv128 {
    (key >> 118) & 0x3FF
  }

  function SetIndex(key: bv128): (i: nat)
    ensures i < SETS
  {
    TopTenBits(key) as nat
  }

  function ExtractAge(word: bv128): bv128 {
    (word >> 126) & 3
  }

  function PackAge(word: bv128, age: bv128): bv128 {
    KeyBits(word) | (age << 126)
  }

  /** Mixes the database oid, a 32-bit number, into a term hash. */
  function DbScoped(hash: bv128, oid: bv128): bv128 {
    Xor(hash, Mixed(oid))
  }

  function Mixed(oid: bv128): bv128 {
    oid * 0x9E3779B97F4A7C15
  }

  function Xor(a: bv128, b: bv128): bv128 {
    a ^ b
  }

  /** The set index fixes the two key bits that the age field overwrites. */
  lemma KeyRecovered(a: bv128, b: bv128)
    requires SetIndex(a) == SetIndex(b)
    requires KeyBits(a) == KeyBits(b)
    ensures a == b
  {
    assert TopTenBits(a) == TopTenBits(b) by {
      assert SetIndex(a) as bv128 == TopTenBits(a);
      assert SetIndex(b) as bv128 == TopTenBits(b);
    }
    KeyFromTopTenBits(a, b);
  }

  lemma KeyFromTopTenBits(a: bv128, b: bv128)
    requires TopTenBits(a) == TopTenBits(b)
    requires KeyBits(a) == KeyBits(b)
    ensures a == b
  {}

  lemma PackAgeKeepsBoth(word: bv128, age: bv128)
    requires age <= 3
    ensures KeyBits(PackAge(word, age)) == KeyBits(word)
    ensures ExtractAge(PackAge(word, age)) == age
    ensures PackAge(KeyBits(word), age) == PackAge(word, age)
  {}

  /** Multiplication by the inverse, modulo 2^128, of the mixing constant. */
  function Unmix(product: bv128): bv128 {
    product * 0xED9DE798E8AE70A5F1DE83E19937733D
  }

  lemma UnmixMixed(oid: bv128)
    ensures Unmix(oid * 0x9E3779B97F4A7C15) == oid
  {}

  lemma MixedIsInjective(a: bv128, b: bv128)
    requires Mixed(a) == Mixed(b)
    ensures a == b
  {
    UnmixMixed(a);
    UnmixMixed(b);
  }

  lemma XorCancels(a: bv128, b: bv128, h: bv128)
    requires Xor(a, h) == Xor(b, h)
    ensures a == b
  {}

  lemma XorCancelsLeft(h: bv128, a: bv128, b: bv128)
    requires Xor(h, a) == Xor(h, b)
    ensures a == b
  {}

  /** Within one database scoping never merges two term hashes. */
  lemma ScopingIsInjective(g: bv128, h: bv128, oid: bv128)
    requires DbScoped(g, oid) == DbScoped(h, oid)
    ensures g == h
  {
    XorCancels(g, h, Mixed(oid));
  }

  /** One term has different keys in different databases. */
  lemma ScopingSeparatesDatabases(hash: bv128, a: bv128, b: bv128)
    requires DbScoped(hash, a) == DbScoped(hash, b)
    ensures a == b
  {
    XorCancelsLeft(hash, Mixed(a), Mixed(b));
    MixedIsInjective(a, b);
  }

  // ------------------------------------------------------------------------------
  // The packed arrays
  // ------------------------------------------------------------------------------

  /** The key under which a database-scoped hash is kept. */
  function KeyOf(scoped: bv128): Key {
    Key(SetIndex(scoped), scoped)
  }

  function AgeField(idle: nat): bv128 {
    if idle == 0 then 0 else if idle == 1 then 1 else if idle == 2 then 2 else 3
  }

  /** A word and an id stand for an entry of set `i`. */
  ghost predicate Stands(word: bv128, id: int, e: Entry, i: nat) {
    match e
    case Free => id == 0
    case Held(key, id', idle) =>
      id == id' != 0 && key == KeyOf(key.hash) && key.home == i && word == PackAge(key.hash, AgeField(idle))
  }

  /** The packed comparison on 126 bits decides equality of whole keys. */
  lemma MatchIsExact(word: bv128, id: int, e: Entry, scoped: bv128)
    requires Stands(word, id, e, SetIndex(scoped))
    ensures KeyBits(word) == KeyBits(scoped) && id != 0 <==> e.Holds(KeyOf(scoped))
  {
    if e.Held? {
      PackedKeyMatches(e.key.hash, AgeField(e.idle), scoped);
    }
  }

  lemma PackedKeyMatches(a: bv128, age: bv128, b: bv128)
    requires SetIndex(a) == SetIndex(b) && age <= 3
    ensures KeyBits(PackAge(a, age)) == KeyBits(b) <==> a == b
  {
    PackAgeKeepsBoth(a, age);
    if KeyBits(a) == KeyBits(b) {
      KeyRecovered(a, b);
    }
  }

  lemma FreshWordStands(scoped: bv128, id: int)
    ensures Stands(KeyBits(scoped), id, NewEntry(KeyOf(scoped), id), SetIndex(scoped))
    ensures id != 0 ==> Stands(PackAge(KeyBits(scoped), 0), id, Held(KeyOf(scoped), id, 0), SetIndex(scoped))
  {
    PackAgeKeepsBoth(scoped, 0);
    FreshWord(scoped);
  }

  lemma FreshWord(key: bv128)
    ensures PackAge(key, 0) == KeyBits(key)
  {}

  /** One more miss: the age field moves up and stays at 3. */
  lemma AgedWordStands(word: bv128, id: int, e: Entry, i: nat)
    requires Stands(word, id, e, i) && e.Held?
    ensures ExtractAge(word) < 3 ==> Stands(PackAge(KeyBits(word), ExtractAge(word) + 1), id, AgedEntry(e), i)
    ensures ExtractAge(word) >= 3 ==> Stands(word, id, AgedEntry(e), i)
  {
    PackAgeKeepsBoth(e.key.hash, AgeField(e.idle));
    if ExtractAge(word) < 3 {
      assert AgeField(e.idle + 1) == ExtractAge(word) + 1;
      PackAgeKeepsBoth(e.key.hash, AgeField(e.idle + 1));
      assert PackAge(KeyBits(word), AgeField(e.idle + 1)) == PackAge(e.key.hash, AgeField(e.idle + 1));
    }
  }

  lemma AgeOrderIsIdleOrder(u: bv128, a: int, d: Entry, v: bv128, b: int, e: Entry, i: nat)
    requires Stands(u, a, d, i) && Stands(v, b, e, i) && d.Held? && e.Held?
    ensures ExtractAge(u) > ExtractAge(v) <==> d.Age() > e.Age()
  {
    PackAgeKeepsBoth(d.key.hash, AgeField(d.idle));
    PackAgeKeepsBoth(e.key.hash, AgeField(e.idle));
  }

  ghost predicate Shaped(model: seq<Ways>) {
    |model| == SETS && forall i :: 0 <= i < SETS ==> |model[i]| == WAYS
  }

  /** One operation on the whole ideal cache: only the addressed set changes. */
  ghost function Stepped(model: seq<Ways>, op: Op): seq<Ways>
    requires Shaped(model) && !op.Cleared? && op.key.home < SETS
  {
    model[op.key.home := SetStep(model[op.key.home], op)]
  }

  /** A shared cache after a run is, set by set, what the ideal cache says. */
  lemma SteppedIsRun(model: seq<Ways>, ops: seq<Op>, op: Op, i: nat)
    requires Shaped(model) && !op.Cleared? && op.key.home < SETS && i < SETS
    requires model[i] == Run(ops, i)
    ensures Stepped(model, op)[i] == Run(ops + [op], i)
  {
    assert (ops + [op])[..|ops|] == ops;
  }

  lemma AgeShown(word: bv128, id: int, e: Entry, i: nat)
    requires Stands(word, id, e, i) && e.Held?
    ensures AgeNumber(ExtractAge(word)) == e.Age()
  {
    PackAgeKeepsBoth(e.key.hash, AgeField(e.idle));
  }

  function AgeNumber(age: bv128): nat {
    if age == 0 then 0 else if age == 1 then 1 else if age == 2 then 2 else 3
  }

  class SharedCache {
    const ready: bool
    const hashes: array2<bv128>
    const ids: array2<int>
    ghost var model: seq<Ways>
    /** The operations so far, oldest first. */
    ghost var log: seq<Op>

    ghost predicate Valid()
      reads this, hashes, ids
    {
      && hashes.Length0 == ids.Length0 == SETS
      && hashes.Length1 == ids.Length1 == WAYS
      && hashes as object != ids
      && Shaped(model)
      && forall i :: 0 <= i < SETS ==> |model[i]| == WAYS && Agrees(i)
    }

    ghost predicate Agrees(i: nat)
      requires i < SETS && hashes.Length0 == ids.Length0 == SETS && hashes.Length1 == ids.Length1 == WAYS
      requires Shaped(model)
      reads this, hashes, ids
    {
      forall w :: 0 <= w < WAYS ==> Stands(hashes[i, w], ids[i, w], model[i][w], i)
    }

    /** Every set is what the ideal cache has after the same operations. */
    ghost predicate Logged()
      reads this
    {
      Shaped(model) && forall i :: 0 <= i < SETS ==> model[i] == Run(log, i)
    }

    constructor (preloaded: bool)
      ensures Valid() && Logged() && log == [] && ready == preloaded
      ensures fresh(hashes) && fresh(ids)
    {
      ready := preloaded;
      hashes := new bv128[SETS, WAYS]((i, w) => 0);
      ids := new int[SETS, WAYS]((i, w) => 0);
      model := seq(SETS, i => FREE_SET);
      log := [];
      new;
      assert forall i :: 0 <= i < SETS ==> model[i] == FREE_SET && Agrees(i);
    }

    /** Answers as the ideal cache after the same history; a hit goes back to an insertion in it. */
    method Lookup(hash: bv128, oid: bv128) returns (r: Option<int>)
      requires Valid() && Logged()
      modifies this`model, this`log, hashes
      ensures Valid() && Logged()
      ensures var key := KeyOf(DbScoped(hash, oid));
              && (ready ==> r == Answer(Run(old(log), key.home), key) && log == old(log) + [Looked(key)])
              && (r.Some? ==> Outstanding(old(log), key) > 0 && exists j: nat :: InsertedAt(old(log), key, r.value, j))
      ensures !ready ==> r == None && log == old(log)
    {
      if !ready {
        return None;
      }
      ghost var key := KeyOf(DbScoped(hash, oid));
      r := LookupKey(DbScoped(hash, oid));
      StepsAreRuns(old(model), log, Looked(key));
      if r.Some? {
        HitWasInserted(log, key);
      }
      log := log + [Looked(key)];
    }

    method LookupKey(scoped: bv128) returns (r: Option<int>)
      requires Valid()
      modifies this`model, hashes
      ensures Valid()
      ensures r == Answer(old(model)[KeyOf(scoped).home], KeyOf(scoped))
      ensures model == Stepped(old(model), Looked(KeyOf(scoped)))
    {
      ghost var key := KeyOf(scoped);
      var i := SetIndex(scoped);
      var w := 0;
      while w < WAYS
        invariant 0 <= w <= WAYS && Valid() && model == old(model)
        invariant FindFrom(model[i], key, 0) == FindFrom(model[i], key, w)
      {
        var found := WayHolds(i, w, scoped);
        if found {
          var id := Touch(i, w, scoped);
          return Some(id);
        }
        w := w + 1;
      }
      AgeWays(i);
      return None;
    }

    /** The packed comparison of one way. */
    method WayHolds(i: nat, w: nat, scoped: bv128) returns (b: bool)
      requires Valid() && w < WAYS && i == SetIndex(scoped)
      ensures b <==> model[i][w].Holds(KeyOf(scoped))
    {
      MatchIsExact(hashes[i, w], ids[i, w], model[i][w], scoped);
      b := KeyBits(hashes[i, w]) == KeyBits(scoped) && ids[i, w] != 0;
    }

    /** A hit sets the age back to zero. */
    method Touch(i: nat, w: nat, scoped: bv128) returns (id: int)
      requires Valid() && w < WAYS && i == SetIndex(scoped) && model[i][w].Holds(KeyOf(scoped))
      modifies this`model, hashes
      ensures Valid() && id == old(model)[i][w].id
      ensures model == old(model)[i := old(model)[i][w := old(model)[i][w].(idle := 0)]]
    {
      id := ids[i, w];
      FreshWordStands(scoped, id);
      hashes[i, w] := PackAge(KeyBits(scoped), 0);
      model := model[i := model[i][w := model[i][w].(idle := 0)]];
    }

    /** A miss ages every occupied way of the set by one. */
    method AgeWays(i: nat)
      requires Valid() && i < SETS
      modifies this`model, hashes
      ensures Valid()
      ensures model == old(model)[i := AgedSet(old(model)[i])]
    {
      var w := 0;
      while w < WAYS
        invariant 0 <= w <= WAYS && Valid()
        invariant model == old(model)[i := model[i]]
        invariant forall v :: 0 <= v < WAYS ==> model[i][v] == if v < w then AgedEntry(old(model)[i][v]) else old(model)[i][v]
      {
        AgeWay(i, w);
        w := w + 1;
      }
      assert model[i] == AgedSet(old(model)[i]);
    }

    method AgeWay(i: nat, w: nat)
      requires Valid() && i < SETS && w < WAYS
      modifies this`model, hashes
      ensures Valid()
      ensures model == old(model)[i := old(model)[i][w := AgedEntry(old(model)[i][w])]]
    {
      if ids[i, w] != 0 {
        AgedWordStands(hashes[i, w], ids[i, w], model[i][w], i);
        var age := ExtractAge(hashes[i, w]);
        if age < 3 {
          hashes[i, w] := PackAge(KeyBits(hashes[i, w]), age + 1);
        }
      }
      model := model[i := model[i][w := AgedEntry(model[i][w])]];
    }

    method Insert(hash: bv128, oid: bv128, id: int)
      requires Valid() && Logged()
      modifies this`model, this`log, hashes, ids
      ensures Valid() && Logged()
      ensures log == if ready then old(log) + [Inserted(KeyOf(DbScoped(hash, oid)), id)] else old(log)
    {
      if ready {
        InsertKey(DbScoped(hash, oid), id);
        StepsAreRuns(old(model), log, Inserted(KeyOf(DbScoped(hash, oid)), id));
        log := log + [Inserted(KeyOf(DbScoped(hash, oid)), id)];
      }
    }

    method InsertKey(scoped: bv128, id: int)
      requires Valid()
      modifies this`model, hashes, ids
      ensures Valid()
      ensures model == Stepped(old(model), Inserted(KeyOf(scoped), id))
    {
      var i := SetIndex(scoped);
      var w := 0;
      while w < WAYS
        invariant 0 <= w <= WAYS && Valid() && model == old(model)
        invariant FreeFrom(model[i], 0) == FreeFrom(model[i], w)
      {
        if ids[i, w] == 0 {
          Store(w, scoped, id);
          return;
        }
        w := w + 1;
      }
      var victim := FindVictim(i);
      Store(victim, scoped, id);
    }

    method WayAge(i: nat, w: nat) returns (age: nat)
      requires Valid() && i < SETS && w < WAYS && model[i][w].Held?
      ensures age == model[i][w].Age()
    {
      AgeShown(hashes[i, w], ids[i, w], model[i][w], i);
      age := AgeNumber(ExtractAge(hashes[i, w]));
    }

    method FindVictim(i: nat) returns (victim: nat)
      requires Valid() && i < SETS && forall w :: 0 <= w < WAYS ==> model[i][w].Held?
      ensures victim < WAYS && victim == VictimFrom(model[i], 0, 1)
    {
      victim := 0;
      var maxAge := WayAge(i, 0);
      var w := 1;
      ghost var ways := model[i];
      while w < WAYS
        invariant OldestBefore(ways, victim, w)
        invariant maxAge == ways[victim].Age()
        invariant VictimFrom(ways, 0, 1) == VictimFrom(ways, victim, w)
      {
        VictimStep(ways, victim, w);
        var age := WayAge(i, w);
        if age > maxAge {
          maxAge := age;
          victim := w;
        }
        w := w + 1;
      }
    }

    /** Writes a way: the word gets the clean key, that is, age 0. */
    method Store(w: nat, scoped: bv128, id: int)
      requires Valid() && w < WAYS
      modifies this`model, hashes, ids
      ensures Valid()
      ensures model == old(model)[SetIndex(scoped) := old(model)[SetIndex(scoped)][w := NewEntry(KeyOf(scoped), id)]]
    {
      var i := SetIndex(scoped);
      FreshWordStands(scoped, id);
      hashes[i, w] := KeyBits(scoped);
      ids[i, w] := id;
      model := model[i := model[i][w := NewEntry(KeyOf(scoped), id)]];
    }

    method Evict(hash: bv128, oid: bv128)
      requires Valid() && Logged()
      modifies this`model, this`log, hashes, ids
      ensures Valid() && Logged()
      ensures log == if ready then old(log) + [Evicted(KeyOf(DbScoped(hash, oid)))] else old(log)
    {
      if ready {
        EvictKey(DbScoped(hash, oid));
        StepsAreRuns(old(model), log, Evicted(KeyOf(DbScoped(hash, oid))));
        log := log + [Evicted(KeyOf(DbScoped(hash, oid)))];
      }
    }

    method EvictKey(scoped: bv128)
      requires Valid()
      modifies this`model, hashes, ids
      ensures Valid()
      ensures model == Stepped(old(model), Evicted(KeyOf(scoped)))
    {
      ghost var key := KeyOf(scoped);
      var i := SetIndex(scoped);
      var w := 0;
      while w < WAYS
        invariant 0 <= w <= WAYS && Valid() && model == old(model)
        invariant FindFrom(model[i], key, 0) == FindFrom(model[i], key, w)
      {
        var found := WayHolds(i, w, scoped);
        if found {
          FreeWay(i, w);
          return;
        }
        w := w + 1;
      }
      assert model == Stepped(old(model), Evicted(key));
    }

    method FreeWay(i: nat, w: nat)
      requires Valid() && i < SETS && w < WAYS
      modifies this`model, hashes, ids
      ensures Valid()
      ensures model == old(model)[i := old(model)[i][w := Free]]
    {
      hashes[i, w] := 0;
      ids[i, w] := 0;
      model := model[i := model[i][w := Free]];
    }

    method ClearAll()
      requires Valid() && Logged()
      modifies this`model, this`log, hashes, ids
      ensures Valid() && Logged()
      ensures log == if ready then old(log) + [Cleared] else old(log)
    {
      if !ready {
        return;
      }
      forall i, w | 0 <= i < SETS && 0 <= w < WAYS {
        hashes[i, w] := 0;
      }
      forall i, w | 0 <= i < SETS && 0 <= w < WAYS {
        ids[i, w] := 0;
      }
      model := seq(SETS, i => FREE_SET);
      log := log + [Cleared];
      assert log[..|log| - 1] == old(log);
    }
  }

  /** A step of the model is one more operation of the history. */
  lemma StepsAreRuns(model: seq<Ways>, log: seq<Op>, op: Op)
    requires Shaped(model) && !op.Cleared? && op.key.home < SETS && forall i :: 0 <= i < SETS ==> model[i] == Run(log, i)
    ensures forall i :: 0 <= i < SETS ==> Stepped(model, op)[i] == Run(log + [op], i)
  {
    forall i: nat | i < SETS
      ensures Stepped(model, op)[i] == Run(log + [op], i)
    {
      SteppedIsRun(model, log, op, i);
    }
  }
}
