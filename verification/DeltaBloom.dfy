/**
  The delta filter in shared memory: 16 words of 64 bits and 1024 counters, addressed by
  two multiplicative hashes of the predicate id.  The class keeps one boolean per bit and
  is proved to step exactly as the filter of `BloomModel`; the lemmas on words show that
  the masks and shifts reach each of the 1024 bits separately.
  */
module DeltaBloom {
  import opened BloomModel

  // ------------------------------------------------------------------------------
  // Bit arithmetic
  // ------------------------------------------------------------------------------

  /** The top ten bits of two wrapping products of the id. */
  function FirstPosition(id: bv64): bv64 {
    (id * 0x9E3779B97F4A7C15) >> 54
  }

  function SecondPosition(id: bv64): bv64 {
    (id * 0x6C62272E07BB0142) >> 54
  }

  function Slot(position: bv64): (i: nat)
    requires position < 1024
    ensures i < POSITIONS
  {
    position as nat
  }

  function WordOf(position: bv64): (i: nat)
    requires position < 1024
    ensures i < 16
  {
    (position >> 6) as nat
  }

  function Mask(position: bv64): bv64 {
    OneAt(position & 63)
  }

  function OneAt(offset: bv64): bv64
    requires offset < 64
  {
    (1 as bv64) << offset
  }

  function And(a: bv64, b: bv64): bv64 {
    a & b
  }

  function Or(a: bv64, b: bv64): bv64 {
    a | b
  }

  function WithBit(word: bv64, position: bv64): bv64 {
    Or(word, Mask(position))
  }

  function WithoutBit(word: bv64, position: bv64): bv64 {
    And(word, !Mask(position))
  }

  predicate TestBit(word: bv64, position: bv64) {
    (word >> (position & 63)) & 1 == 1
  }

  lemma PositionsInRange(id: bv64)
    ensures FirstPosition(id) < 1024 && SecondPosition(id) < 1024
  {}

  lemma OwnBit(word: bv64, p: bv64)
    ensures TestBit(WithBit(word, p), p)
    ensures !TestBit(WithoutBit(word, p), p)
  {}

  /** Different shifts of one bit do not meet. */
  lemma MasksDiffer(a: bv64, b: bv64)
    requires a < 64 && b < 64 && a != b
    ensures And(OneAt(a), OneAt(b)) == 0
  {}

  lemma TestByMask(word: bv64, p: bv64)
    ensures TestBit(word, p) <==> And(word, Mask(p)) != 0
  {}

  lemma OffsetsDiffer(p: bv64, q: bv64)
    requires p != q && p >> 6 == q >> 6
    ensures p & 63 != q & 63 && p & 63 < 64 && q & 63 < 64
  {}

  lemma MasksApart(p: bv64, q: bv64)
    requires p != q && p >> 6 == q >> 6
    ensures And(Mask(p), Mask(q)) == 0
  {
    OffsetsDiffer(p, q);
    MasksDiffer(p & 63, q & 63);
  }

  lemma DisjointOr(word: bv64, m: bv64, n: bv64)
    requires And(m, n) == 0
    ensures And(word | m, n) == And(word, n)
  {}

  lemma DisjointAndNot(word: bv64, m: bv64, n: bv64)
    requires And(m, n) == 0
    ensures And(word & !m, n) == And(word, n)
  {}

  lemma DisjointMasks(word: bv64, m: bv64, n: bv64)
    requires And(m, n) == 0
    ensures And(Or(word, m), n) == And(word, n)
    ensures And(And(word, !m), n) == And(word, n)
  {
    DisjointOr(word, m, n);
    DisjointAndNot(word, m, n);
  }

  lemma MaskedApart(word: bv64, p: bv64, q: bv64)
    requires And(Mask(p), Mask(q)) == 0
    ensures And(WithBit(word, p), Mask(q)) == And(word, Mask(q))
    ensures And(WithoutBit(word, p), Mask(q)) == And(word, Mask(q))
  {
    DisjointMasks(word, Mask(p), Mask(q));
  }

  lemma OtherBit(word: bv64, p: bv64, q: bv64)
    requires p != q && p >> 6 == q >> 6
    ensures TestBit(WithBit(word, p), q) == TestBit(word, q)
    ensures TestBit(WithoutBit(word, p), q) == TestBit(word, q)
  {
    MasksApart(p, q);
    MaskedApart(word, p, q);
    TestByMask(word, q);
    TestByMask(WithBit(word, p), q);
    TestByMask(WithoutBit(word, p), q);
  }

  lemma NatRoundTrip(x: bv64)
    ensures (x as nat) as bv64 == x
  {}

  lemma SlotsDiffer(p: bv64, q: bv64)
    requires p < 1024 && q < 1024
    ensures Slot(p) == Slot(q) <==> p == q
    ensures WordOf(p) == WordOf(q) <==> p >> 6 == q >> 6
  {
    NatsDiffer(p, q);
    NatsDiffer(p >> 6, q >> 6);
  }

  lemma NatsDiffer(x: bv64, y: bv64)
    ensures x as nat == y as nat <==> x == y
  {
    NatRoundTrip(x);
    NatRoundTrip(y);
  }

  /** The model's view of a predicate id. */
  function PredicateOf(id: bv64): (p: Predicate)
    ensures p.Valid()
  {
    PositionsInRange(id);
    Predicate(id, Slot(FirstPosition(id)), Slot(SecondPosition(id)))
  }

  /** Two predicates of a real hash collision: they own the same two positions. */
  lemma CollidingIds()
    ensures FirstPosition(845) == SecondPosition(1328)
    ensures SecondPosition(845) == FirstPosition(1328)
  {}

  /** Writing the bit of `p` is seen at `p` and nowhere else. */
  lemma SetBitCases(old': bv64, p: bv64, q: bv64)
    requires p < 1024 && q < 1024
    ensures Slot(p) == Slot(q) ==> WordOf(p) == WordOf(q) && TestBit(WithBit(old', p), q)
    ensures Slot(p) != Slot(q) && WordOf(p) == WordOf(q) ==> TestBit(WithBit(old', p), q) == TestBit(old', q)
  {
    SlotsDiffer(p, q);
    if p == q {
      OwnBit(old', p);
    } else if p >> 6 == q >> 6 {
      OtherBit(old', p, q);
    }
  }

  lemma ClearBitCases(old': bv64, p: bv64, q: bv64)
    requires p < 1024 && q < 1024
    ensures Slot(p) == Slot(q) ==> WordOf(p) == WordOf(q) && !TestBit(WithoutBit(old', p), q)
    ensures Slot(p) != Slot(q) && WordOf(p) == WordOf(q) ==> TestBit(WithoutBit(old', p), q) == TestBit(old', q)
  {
    SlotsDiffer(p, q);
    if p == q {
      OwnBit(old', p);
    } else if p >> 6 == q >> 6 {
      OtherBit(old', p, q);
    }
  }

  // ------------------------------------------------------------------------------
  // The bits and counters
  // ------------------------------------------------------------------------------

  class SharedFilter {
    const ready: bool
    const bits: array<bool>
    const counters: array<nat>

    ghost predicate Valid()
      reads this, bits, counters
    {
      && bits.Length == counters.Length == POSITIONS && bits as object != counters
      && forall i :: 0 <= i < POSITIONS ==> counters[i] <= TOP
    }

    ghost function Contents(): (f: Filter)
      requires Valid()
      reads this, bits, counters
      ensures f.Valid()
    {
      Filter(bits[..], counters[..])
    }

    constructor (preloaded: bool)
      ensures Valid() && Contents() == EmptyFilter() && ready == preloaded
      ensures fresh(bits) && fresh(counters)
    {
      ready := preloaded;
      bits := new bool[POSITIONS](i => false);
      counters := new nat[POSITIONS](i => 0);
    }

    method SetPredicateDeltaBit(id: bv64)
      requires Valid()
      modifies bits, counters
      ensures Valid()
      ensures Contents() == if ready then Mark(old(Contents()), PredicateOf(id)) else old(Contents())
    {
      if ready {
        MarkPositions(PredicateOf(id));
      }
    }

    method MarkPositions(p: Predicate)
      requires Valid() && p.Valid()
      modifies bits, counters
      ensures Valid() && Contents() == Mark(old(Contents()), p)
    {
      bits[p.first] := true;
      bits[p.second] := true;
      counters[p.first] := Up(counters[p.first]);
      counters[p.second] := Up(counters[p.second]);
    }

    method ClearPredicateDeltaBit(id: bv64)
      requires Valid()
      modifies bits, counters
      ensures Valid()
      ensures Contents() == if ready then Unmark(old(Contents()), PredicateOf(id)) else old(Contents())
    {
      if ready {
        UnmarkPositions(PredicateOf(id));
      }
    }

    method UnmarkPositions(p: Predicate)
      requires Valid() && p.Valid()
      modifies bits, counters
      ensures Valid() && Contents() == Unmark(old(Contents()), p)
    {
      counters[p.first] := Down(counters[p.first]);
      counters[p.second] := Down(counters[p.second]);
      if counters[p.first] == 0 {
        bits[p.first] := false;
      }
      if counters[p.second] == 0 {
        bits[p.second] := false;
      }
    }

    method PredicateMayHaveDelta(id: bv64) returns (b: bool)
      requires Valid()
      ensures b == (!ready || MayHaveDelta(Contents(), PredicateOf(id)))
    {
      if !ready {
        return true;
      }
      b := TestPositions(PredicateOf(id));
    }

    method TestPositions(p: Predicate) returns (b: bool)
      requires Valid() && p.Valid()
      ensures b == MayHaveDelta(Contents(), p)
    {
      b := bits[p.first] || bits[p.second];
    }

    method ResetBloomFilter()
      requires Valid()
      modifies bits
      ensures Valid()
      ensures Contents() == if ready then Step(old(Contents()), Reset) else old(Contents())
    {
      if ready {
        forall i | 0 <= i < bits.Length {
          bits[i] := false;
        }
      }
    }
  }
}
