/**
 * Slot references (`SpacePtr`): the address of a value stored in an arena,
 * together with the bit index that keys its per-slot metadata.
 */
module SpacePtrs {

  /**
   * An address. `At(space, offset)` is double-word `offset` of the arena whose
   * identity is `space` (the identity stands for the region's base address).
   * `Wild` is an address read out of a word that did not hold one: the first
   * word of an ordinary value, or memory outside the arena being consulted.
   */
  datatype Loc = At(space: nat, offset: nat) | Wild

  /** `SpacePtr { inner, bit_idx }`. */
  datatype SpacePtr = SpacePtr(inner: Loc, bitIdx: nat) {

    /** `bit_idx()`. */
    function BitIdx(): nat { bitIdx }

    /** `raw_inner()`; `inner()` reads the same stored address. */
    function RawInner(): Loc { inner }

    /**
     * `set_raw_inner(p)`: the reference with its address replaced. The source
     * writes the field in place; the caller here stores the result back.
     */
    function SetRawInner(p: Loc): (q: SpacePtr)
      ensures q.RawInner() == p
      ensures q.BitIdx() == BitIdx()
    {
      this.(inner := p)
    }

    /** `clone()`: a copy of the reference, not of the value it refers to. */
    function Clone(): (c: SpacePtr)
      ensures c.RawInner() == RawInner() && c.BitIdx() == BitIdx()
    {
      SpacePtr(inner, bitIdx)
    }
  }

  /** `SpacePtr::new(ptr, idx)`. */
  function New(ptr: Loc, idx: nat): (p: SpacePtr)
    ensures p.RawInner() == ptr && p.BitIdx() == idx
  {
    SpacePtr(ptr, idx)
  }

  /** A reference is determined by what its accessors return. */
  lemma AccessorsDetermine(p: SpacePtr, q: SpacePtr)
    requires p.RawInner() == q.RawInner() && p.BitIdx() == q.BitIdx()
    ensures p == q
  {
  }

  /** Setting the address twice keeps only the last one, and setting the address it already has changes nothing. */
  lemma SetRawInnerLastWins(p: SpacePtr, a: Loc, b: Loc)
    ensures p.SetRawInner(a).SetRawInner(b) == p.SetRawInner(b)
    ensures p.SetRawInner(p.RawInner()) == p
  {
  }
}
