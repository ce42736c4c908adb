/**
 * The fixed-length flag vector behind the mark and forward bits of an arena.
 * The class keeps one flag per index; the functions after it describe the
 * source's physical packing of those flags into 16-bit words.
 */
module BitMaps {

  class BitMap {
    /** Size in bits. */
    const size: nat
    /** The flags, one per index. */
    const bits: array<bool>

    ghost predicate Valid() {
      size > 0 && bits.Length == size
    }

    /** The flags as a sequence. */
    ghost function Bits(): seq<bool>
      reads bits
    {
      bits[..]
    }

    /** `BitMap::new(size)`: every flag starts clear. */
    constructor (size: nat)
      requires size > 0
      ensures Valid() && Size() == size && fresh(bits)
      ensures forall i :: 0 <= i < size ==> !Get(i)
    {
      this.size := size;
      bits := new bool[size](_ => false);
    }

    /** `size()`: the number of flags, which is the length of their storage. */
    function Size(): (n: nat)
      ensures Valid() ==> n == bits.Length > 0
    {
      size
    }

    /** `get(idx)`. */
    function Get(idx: nat): bool
      reads bits
      requires Valid() && idx < size
    {
      bits[idx]
    }

    /** `set(idx)`: raises flag `idx` and no other. */
    method Set(idx: nat)
      requires Valid() && idx < size
      modifies bits
      ensures Bits() == old(Bits())[idx := true]
      ensures Get(idx)
      ensures forall j :: 0 <= j < size && j != idx ==> Get(j) == old(Get(j))
    {
      bits[idx] := true;
    }

    /** `unset(idx)`: clears flag `idx` and no other. */
    method Unset(idx: nat)
      requires Valid() && idx < size
      modifies bits
      ensures Bits() == old(Bits())[idx := false]
      ensures !Get(idx)
      ensures forall j :: 0 <= j < size && j != idx ==> Get(j) == old(Get(j))
    {
      bits[idx] := false;
    }
  }

  /** `set(i)` twice leaves the flags as one `set(i)` does (an OR-assign of one mask). */
  method SetTwice(m: BitMap, i: nat)
    requires m.Valid() && i < m.size
    modifies m.bits
    ensures m.Bits() == old(m.Bits())[i := true]
  {
    m.Set(i);
    m.Set(i);
  }

  /** `unset(i)` twice leaves the flags as one `unset(i)` does (an AND-assign of one inverted mask). */
  method UnsetTwice(m: BitMap, i: nat)
    requires m.Valid() && i < m.size
    modifies m.bits
    ensures m.Bits() == old(m.Bits())[i := false]
  {
    m.Unset(i);
    m.Unset(i);
  }

  /**
   * One round of the bitmap test on a bitmap whose flags are all clear:
   * after `set(i)`, `get(i)` answers true and `get(j)` answers false for
   * every other `j`; `unset(i)` then restores the flags.
   */
  method SetGetUnset(m: BitMap, i: nat) returns (got: bool, othersClear: bool)
    requires m.Valid() && i < m.size
    requires forall j :: 0 <= j < m.size ==> !m.Get(j)
    modifies m.bits
    ensures got && othersClear
    ensures m.Bits() == old(m.Bits())
  {
    ghost var before := m.Bits();
    assert !m.Get(i);
    m.Set(i);
    got := m.Get(i);
    othersClear := forall j :: 0 <= j < m.size && j != i ==> !m.Get(j);
    m.Unset(i);
    assert before[i := true][i := false] == before;
  }

  // The source's packing. Storage is `((size - 1) >> 3) + 1` blocks of 16
  // bytes, i.e. 8 u16 words per block; index `idx` is looked up in block
  // `idx >> 3`, addressed as u16 word `(idx >> 3) << 4`, plus one word when
  // `idx % 8 >= 4`, under the mask `1 << (idx % 8)`.

  /** u16 words the source allocates for `size` flags. */
  function PackedStorageWords(size: nat): nat
    requires size > 0
  {
    ((size - 1) / 8 + 1) * 8
  }

  /** u16 word the source reads and writes for flag `idx`. */
  function PackedWord(idx: nat): nat {
    (idx / 8) * 16 + (if idx % 8 < 4 then 0 else 1)
  }

  /** Mask the source applies to that word for flag `idx`. */
  function PackedMask(idx: nat): bv16 {
    (1 as bv16) << (idx % 8)
  }

  /** Distinct flags use distinct (word, mask) pairs, so `set`/`unset` of one flag never touch another. */
  lemma PackedAddressInjective(i: nat, j: nat)
    requires i != j
    ensures PackedWord(i) != PackedWord(j) || PackedMask(i) != PackedMask(j)
  {
    if PackedMask(i) == PackedMask(j) {
      MaskInjective(i % 8, j % 8);
      if i / 8 < j / 8 {
        assert (i / 8) * 16 + 16 <= (j / 8) * 16;
      } else if j / 8 < i / 8 {
        assert (j / 8) * 16 + 16 <= (i / 8) * 16;
      }
    }
  }

  /** The single-bit masks below 16 are pairwise distinct. */
  lemma MaskInjective(a: nat, b: nat)
    requires a < 16 && b < 16 && (1 as bv16) << a == (1 as bv16) << b
    ensures a == b
  {
  }

  /**
   * Every addressed word lies inside the storage exactly when `size <= 8`:
   * for a larger bitmap the last flag's word is past the end of the storage.
   */
  lemma PackedFitsIffSmall(size: nat)
    requires size > 0
    ensures (forall idx: nat :: idx < size ==> PackedWord(idx) < PackedStorageWords(size)) <==> size <= 8
  {
    if size <= 8 {
      forall idx: nat | idx < size
        ensures PackedWord(idx) < PackedStorageWords(size)
      {
        assert idx / 8 == 0;
      }
    } else {
      PackedLastOverruns(size);
    }
  }

  /** For `size > 8` the word of flag `size - 1` is at or past the end of the storage. */
  lemma PackedLastOverruns(size: nat)
    requires size > 8
    ensures PackedWord(size - 1) >= PackedStorageWords(size)
  {
    var q := (size - 1) / 8;
    assert q >= 1;
    assert PackedWord(size - 1) >= q * 16;
    assert PackedStorageWords(size) == q * 8 + 8;
  }

  // A dense packing: 16 flags per u16 word.

  /** u16 words a dense packing needs for `size` flags. */
  function DenseStorageWords(size: nat): nat
    requires size > 0
  {
    (size - 1) / 16 + 1
  }

  /** u16 word of flag `idx` in the dense packing. */
  function DenseWord(idx: nat): nat { idx / 16 }

  /** Mask of flag `idx` in the dense packing. */
  function DenseMask(idx: nat): bv16 { (1 as bv16) << (idx % 16) }

  /** In the dense packing every flag's word lies inside the storage. */
  lemma DenseFits(size: nat, idx: nat)
    requires size > 0 && idx < size
    ensures DenseWord(idx) < DenseStorageWords(size)
  {
    assert idx / 16 <= (size - 1) / 16;
  }

  /** In the dense packing distinct flags use distinct (word, mask) pairs. */
  lemma DenseAddressInjective(i: nat, j: nat)
    requires i != j
    ensures DenseWord(i) != DenseWord(j) || DenseMask(i) != DenseMask(j)
  {
    if DenseMask(i) == DenseMask(j) {
      MaskInjective(i % 16, j % 16);
      assert i == (i / 16) * 16 + i % 16 && j == (j / 16) * 16 + j % 16;
    }
  }
}
