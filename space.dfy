/**
 * The arena: a bump allocator over a fixed number of double-word cells, with
 * one mark bit and one forward bit per double word.
 */
module Spaces {
  import opened Options
  import opened SpacePtrs
  import opened Trace
  import opened BitMaps

  /**
   * A double-word cell. A value is stored in the first cell of its range;
   * once relocated, that first word holds the address it moved to.
   */
  datatype Cell = Empty | Val(v: Value) | Fwd(to: Loc)

  /**
   * `((size_in_bytes as i32 - 1) >> 3) + 1`. The shift is arithmetic, so a
   * zero-sized type takes no double word at all.
   */
  function DwsOf(bytes: nat): (dws: nat)
    ensures bytes == 0 ==> dws == 0
    ensures bytes > 0 ==> (dws - 1) * 8 < bytes <= dws * 8
  {
    (bytes - 1) / 8 + 1
  }

  /** Double words a managed value occupies; every value of the model takes at least one. */
  function Dws(v: Value): (dws: nat)
    ensures dws >= 1 && dws * 8 >= SizeInBytes(v)
  {
    DwsOf(SizeInBytes(v))
  }

  /**
   * The pointer arithmetic of `allocate` as written, in bytes from
   * `start_ptr`, for a space of `size` double words whose `free_ptr` lies
   * `freeByte` bytes in. `free_ptr` and `end_ptr` are `*mut u64`, so
   * `offset(n)` moves them by `n` double words: `end_ptr` lies
   * `8 * (8 * size)` bytes past the start, and a value of `bytes` bytes moves
   * `free_ptr` by `8 * (8 * dws)` bytes. Answers the byte offset the value is
   * written at and the next `free_ptr`, or `None` when the check fails. The
   * region `new` reserves is `8 * size` bytes.
   */
  function AllocateBytesAsWritten(size: nat, freeByte: nat, bytes: nat): Option<(nat, nat)>
  {
    var sizeAligned := 8 * DwsOf(bytes);
    var nextFree := freeByte + 8 * sizeAligned;
    if nextFree > 8 * (8 * size) then None else Some((freeByte, nextFree))
  }

  /** The same with `free_ptr` advanced by bytes, as evidently intended. */
  function AllocateBytes(size: nat, freeByte: nat, bytes: nat): Option<(nat, nat)>
  {
    var nextFree := freeByte + 8 * DwsOf(bytes);
    if nextFree > 8 * size then None else Some((freeByte, nextFree))
  }

  /**
   * As written, after `idx` double words `free_ptr` lies `64 * idx` bytes in.
   * The check still passes exactly when the value's double words fit below
   * `size`, but from `idx >= size / 8` on the value is written at or past the
   * end of the `8 * size`-byte region.
   */
  lemma AllocateAsWrittenOverruns(size: nat, idx: nat, bytes: nat)
    ensures AllocateBytesAsWritten(size, 64 * idx, bytes).Some? <==> idx + DwsOf(bytes) <= size
    ensures idx + DwsOf(bytes) <= size && size <= 8 * idx ==>
      AllocateBytesAsWritten(size, 64 * idx, bytes) == Some((64 * idx, 64 * (idx + DwsOf(bytes)))) &&
      64 * idx >= 8 * size
  {
  }

  /**
   * With `free_ptr` advanced by bytes, the check passes exactly when the
   * value's double words fit below `size`, the check `Space.Allocate` makes;
   * the value's bytes then lie inside the region, and `free_ptr` moves to
   * double word `idx + dws`.
   */
  lemma AllocateBytesInRegion(size: nat, idx: nat, bytes: nat)
    ensures AllocateBytes(size, 8 * idx, bytes).Some? <==> idx + DwsOf(bytes) <= size
    ensures idx + DwsOf(bytes) <= size ==>
      AllocateBytes(size, 8 * idx, bytes) == Some((8 * idx, 8 * (idx + DwsOf(bytes)))) &&
      8 * idx + bytes <= 8 * size
  {
  }

  class Space {
    /** Identity of the region (stands for its base address). */
    const id: nat
    /** How many double words. */
    const size: nat
    /** The region, one cell per double word. */
    const cells: array<Cell>
    /** Mark bits. */
    const markBits: BitMap
    /** Forwarded bits. */
    const forwardBits: BitMap
    /** Index of the first free double word. */
    var freeIdx: nat

    /** The region and both bitmaps have length `size`. */
    ghost predicate WellFormed() {
      size > 0 && cells.Length == size &&
      markBits.Valid() && forwardBits.Valid() &&
      markBits.size == size && forwardBits.size == size &&
      markBits.bits != forwardBits.bits
    }

    ghost predicate Valid()
      reads this
    {
      WellFormed() && freeIdx <= size
    }

    /** `Space::new(size)`: an empty region with both bitmaps of length `size` and all clear. */
    constructor (id: nat, size: nat)
      requires size > 0
      ensures Valid() && this.id == id && this.size == size && freeIdx == 0
      ensures fresh(cells) && fresh(markBits) && fresh(markBits.bits)
      ensures fresh(forwardBits) && fresh(forwardBits.bits)
      ensures forall i :: 0 <= i < size ==> cells[i] == Empty
      ensures forall i :: 0 <= i < size ==> !markBits.Get(i) && !forwardBits.Get(i)
      ensures MarksClear()
    {
      this.id := id;
      this.size := size;
      cells := new Cell[size](_ => Empty);
      markBits := new BitMap(size);
      forwardBits := new BitMap(size);
      freeIdx := 0;
      new;
      forall j | 0 <= j < markBits.bits.Length
        ensures !markBits.bits[j]
      {
        assert !markBits.Get(j);
      }
    }

    /** Every mark bit is clear. */
    ghost predicate MarksClear()
      reads markBits.bits
    {
      forall j :: 0 <= j < markBits.bits.Length ==> !markBits.bits[j]
    }

    /** Every forward bit is clear. */
    ghost predicate ForwardsClear()
      reads forwardBits.bits
    {
      forall j :: 0 <= j < forwardBits.bits.Length ==> !forwardBits.bits[j]
    }

    /** `p` refers to a value stored in this space. */
    predicate Holds(p: SpacePtr)
      reads cells
    {
      p.inner.At? && p.inner.space == id && p.inner.offset < cells.Length &&
      cells[p.inner.offset].Val?
    }

    /** `SpacePtr::borrow` / `get`: the value at the reference's address. */
    function Borrow(p: SpacePtr): (v: Value)
      reads cells
      requires Holds(p)
      ensures cells[p.RawInner().offset] == Val(v)
    {
      cells[p.inner.offset].v
    }

    /** `subfields` of a slot reference: the protocol's `subfields` of its referent. */
    function SubfieldsOf(p: SpacePtr): (fs: seq<SpacePtr>)
      reads cells
      requires Holds(p)
      ensures fs == Fields(Borrow(p))
    {
      Subfields(Borrow(p))
    }

    /**
     * `allocate(t)`: succeeds exactly when the value's double words fit
     * between `freeIdx` and the end; then the value is stored at the old
     * `freeIdx`, which is also its bit index, and `freeIdx` advances. On
     * failure nothing changes.
     */
    method Allocate(v: Value) returns (p: Option<SpacePtr>)
      requires Valid()
      modifies this`freeIdx, cells
      ensures Valid()
      ensures p.Some? <==> old(freeIdx) + Dws(v) <= size
      ensures p.Some? ==>
        p.value == SpacePtr(At(id, old(freeIdx)), old(freeIdx)) &&
        freeIdx == old(freeIdx) + Dws(v) &&
        cells[..] == old(cells[..])[old(freeIdx) := Val(v)]
      ensures p.None? ==> freeIdx == old(freeIdx) && cells[..] == old(cells[..])
      ensures old(ForwardsBelow(size)) ==> ForwardsBelow(size)
    {
      var dws := DwsOf(SizeInBytes(v));
      var nextFree := freeIdx + dws;
      if nextFree > size {
        p := None;
      } else {
        cells[freeIdx] := Val(v);
        var ret := New(At(id, freeIdx), freeIdx);
        freeIdx := nextFree;
        p := Some(ret);
      }
    }

    /** `set_mark(p)`. */
    method SetMark(p: SpacePtr)
      requires WellFormed() && p.bitIdx < size
      modifies markBits.bits
      ensures markBits.Bits() == old(markBits.Bits())[p.bitIdx := true]
    {
      markBits.Set(p.BitIdx());
    }

    /** `unset_mark(p)`. */
    method UnsetMark(p: SpacePtr)
      requires WellFormed() && p.bitIdx < size
      modifies markBits.bits
      ensures markBits.Bits() == old(markBits.Bits())[p.bitIdx := false]
    {
      markBits.Unset(p.BitIdx());
    }

    /** `marked(p)`: the mark bit at the reference's bit index. */
    method Marked(p: SpacePtr) returns (m: bool)
      requires WellFormed() && p.bitIdx < size
      ensures m == markBits.Bits()[p.bitIdx]
    {
      m := markBits.Get(p.BitIdx());
    }

    /** `set_forward(p)`. */
    method SetForward(p: SpacePtr)
      requires WellFormed() && p.bitIdx < size
      modifies forwardBits.bits
      ensures forwardBits.Bits() == old(forwardBits.Bits())[p.bitIdx := true]
    {
      forwardBits.Set(p.BitIdx());
    }

    /**
     * The address held in the first word at `l`, read through this space:
     * the forwarding address when the cell holds one, `Wild` otherwise. An
     * address outside this space also reads as `Wild`: in the source that
     * read lands in the memory of an earlier, freed space, whose contents
     * are undefined.
     */
    function ForwardingWord(l: Loc): (r: Loc)
      reads cells
      ensures l.At? && l.space == id && l.offset < cells.Length && cells[l.offset].Fwd? ==> r == cells[l.offset].to
      ensures r != Wild ==> l.At? && l.space == id && l.offset < cells.Length && cells[l.offset] == Fwd(r)
    {
      if l.At? && l.space == id && l.offset < cells.Length && cells[l.offset].Fwd?
      then cells[l.offset].to
      else Wild
    }

    /**
     * What `forward(ptr)` leaves in `ptr`: when the forward bit at its bit
     * index is set, the address is replaced by the word stored at the old
     * address; the bit index is never changed.
     */
    function Forwarded(p: SpacePtr): (q: SpacePtr)
      reads cells, forwardBits.bits
      requires WellFormed() && p.bitIdx < size
      ensures q.bitIdx == p.bitIdx
      ensures !forwardBits.bits[p.bitIdx] ==> q == p
      ensures forwardBits.bits[p.bitIdx] && p.inner.At? && p.inner.space == id &&
              p.inner.offset < size && cells[p.inner.offset].Fwd? ==>
                q.inner == cells[p.inner.offset].to
      ensures forwardBits.bits[p.bitIdx] ==> q.inner == ForwardingWord(p.inner)
    {
      if forwardBits.Get(p.BitIdx()) then p.SetRawInner(ForwardingWord(p.RawInner())) else p
    }

    /** `forward(ptr)`: rewrites the caller's reference in place. */
    method Forward(p: SpacePtr) returns (q: SpacePtr)
      requires WellFormed() && p.bitIdx < size
      ensures q == Forwarded(p)
    {
      var idx := p.BitIdx();
      if forwardBits.Get(idx) {
        var forwarded := ForwardingWord(p.RawInner());
        q := p.SetRawInner(forwarded);
      } else {
        q := p;
      }
    }

    /** `Forwarded` applied to each reference of `fs`. */
    function ForwardAll(fs: seq<SpacePtr>): (rs: seq<SpacePtr>)
      reads cells, forwardBits.bits
      requires WellFormed() && forall f :: f in fs ==> f.bitIdx < size
      ensures |rs| == |fs|
      ensures forall i :: 0 <= i < |fs| ==> rs[i] == Forwarded(fs[i])
    {
      if fs == [] then [] else [Forwarded(fs[0])] + ForwardAll(fs[1..])
    }

    /** Every forwarding word stored in the space is an address inside a region of `bound` double words. */
    ghost predicate ForwardsBelow(bound: nat)
      reads cells
    {
      forall k :: 0 <= k < cells.Length && cells[k].Fwd? ==> cells[k].to.At? && cells[k].to.offset < bound
    }

    /**
     * A forwarding that also rewrites the bit index: the forwarding word is
     * an address in the destination space, and the bit index of a slot is
     * its double-word offset there.
     */
    function ForwardedFixed(p: SpacePtr): (q: SpacePtr)
      reads cells, forwardBits.bits
      requires WellFormed() && p.bitIdx < size
      ensures !forwardBits.bits[p.bitIdx] ==> q == p
      ensures forwardBits.bits[p.bitIdx] && p.inner.At? && p.inner.space == id &&
              p.inner.offset < size && cells[p.inner.offset].Fwd? &&
              cells[p.inner.offset].to.At? ==>
                q == SpacePtr(cells[p.inner.offset].to, cells[p.inner.offset].to.offset)
      ensures forwardBits.bits[p.bitIdx] ==> q.inner == ForwardingWord(p.inner)
      ensures ForwardsBelow(size) ==> q.bitIdx < size
    {
      if forwardBits.Get(p.BitIdx()) then
        var forwarded := ForwardingWord(p.RawInner());
        if forwarded.At? then New(forwarded, forwarded.offset) else p.SetRawInner(forwarded)
      else p
    }

    /** The corrected `forward`: rewrites address and bit index. */
    method ForwardFixed(p: SpacePtr) returns (q: SpacePtr)
      requires WellFormed() && p.bitIdx < size
      ensures q == ForwardedFixed(p)
    {
      var idx := p.BitIdx();
      if forwardBits.Get(idx) {
        var forwarded := ForwardingWord(p.RawInner());
        if forwarded.At? {
          q := New(forwarded, forwarded.offset);
        } else {
          q := p.SetRawInner(forwarded);
        }
      } else {
        q := p;
      }
    }

    /** `ForwardedFixed` applied to each reference of `fs`. */
    function ForwardAllFixed(fs: seq<SpacePtr>): (rs: seq<SpacePtr>)
      reads cells, forwardBits.bits
      requires WellFormed() && forall f :: f in fs ==> f.bitIdx < size
      ensures |rs| == |fs|
      ensures forall i :: 0 <= i < |fs| ==> rs[i] == ForwardedFixed(fs[i])
    {
      if fs == [] then [] else [ForwardedFixed(fs[0])] + ForwardAllFixed(fs[1..])
    }
  }

  /** A value after `forward` has been applied, through `s`, to each of its reference fields. */
  function Resolved(s: Space, v: Value): (r: Value)
    reads s.cells, s.forwardBits.bits
    requires s.WellFormed() && RefsBelow(v, s.size)
    ensures SameShape(r, v) && Dws(r) == Dws(v) && RefsBelow(r, s.size)
    ensures |Fields(r)| == |Fields(v)|
    ensures forall t :: 0 <= t < |Fields(v)| ==> Fields(r)[t] == s.Forwarded(Fields(v)[t])
  {
    WithFields(v, s.ForwardAll(Fields(v)))
  }

  /** The same with the corrected forwarding, which also rewrites bit indices. */
  function ResolvedFixed(s: Space, v: Value): (r: Value)
    reads s.cells, s.forwardBits.bits
    requires s.WellFormed() && RefsBelow(v, s.size)
    ensures SameShape(r, v) && Dws(r) == Dws(v)
    ensures s.ForwardsBelow(s.size) ==> RefsBelow(r, s.size)
    ensures |Fields(r)| == |Fields(v)|
    ensures forall t :: 0 <= t < |Fields(v)| ==> Fields(r)[t] == s.ForwardedFixed(Fields(v)[t])
  {
    WithFields(v, s.ForwardAllFixed(Fields(v)))
  }

  /** With no forward bit set, resolving a value's fields against the space leaves the value as it is. */
  lemma NoForwardBitsKeepValue(s: Space, v: Value)
    requires s.WellFormed() && RefsBelow(v, s.size)
    requires forall b :: 0 <= b < s.size ==> !s.forwardBits.bits[b]
    ensures Resolved(s, v) == v
  {
    assert s.ForwardAll(Fields(v)) == Fields(v);
    WithOwnFields(v);
  }
}
