/**
 * Root records and the handles over them: a `Rooted` record lives in the
 * runtime's registry, a `Root` is the exclusive handle a client holds, and a
 * `Heap` is a reference embedded in another managed value.
 */
module Ptrs {
  import opened SpacePtrs
  import opened Trace
  import opened Spaces

  /** `Rooted { rooted, space_ptr }`. */
  class Rooted {
    var rooted: bool
    var spacePtr: SpacePtr

    /** `Rooted::new(ptr)`: starts rooted, holding `ptr`. */
    constructor (ptr: SpacePtr)
      ensures rooted && spacePtr == ptr
    {
      rooted := true;
      spacePtr := ptr;
    }

    /** `borrow()`: the value at the record's current slot. */
    function Borrow(s: Space): (v: Value)
      reads this, s.cells
      requires s.Holds(spacePtr)
      ensures s.cells[spacePtr.inner.offset] == Val(v)
    {
      s.Borrow(spacePtr)
    }

    /**
     * `realloc_to(space)`: copies the value into `to` (the `unwrap` demands
     * room there), sets the forward bit at the old bit index in `to`,
     * overwrites the old slot's first word with the new address, and
     * repoints the record. `from` is the space the old slot lies in: the
     * source writes through the raw address.
     */
    method ReallocTo(from: Space, to: Space)
      requires from.WellFormed() && to.Valid() && from.cells != to.cells
      requires from.Holds(spacePtr)
      requires to.freeIdx + Dws(from.Borrow(spacePtr)) <= to.size
      requires spacePtr.bitIdx < to.size
      modifies this`spacePtr, from.cells, to`freeIdx, to.cells, to.forwardBits.bits
      ensures to.Valid()
      ensures spacePtr == SpacePtr(At(to.id, old(to.freeIdx)), old(to.freeIdx))
      ensures to.freeIdx == old(to.freeIdx) + Dws(old(from.Borrow(spacePtr)))
      ensures to.cells[..] == old(to.cells[..])[old(to.freeIdx) := Val(old(from.Borrow(spacePtr)))]
      ensures to.forwardBits.Bits() == old(to.forwardBits.Bits())[old(spacePtr.bitIdx) := true]
      ensures from.cells[old(spacePtr.inner.offset)] == Fwd(spacePtr.inner)
      ensures forall k :: 0 <= k < from.cells.Length && k != old(spacePtr.inner.offset) ==>
        from.cells[k] == old(from.cells[k])
    {
      var v := from.Borrow(spacePtr);
      var p := to.Allocate(v);
      var moved := p.value;
      to.SetForward(spacePtr);
      from.cells[spacePtr.inner.offset] := Fwd(moved.RawInner());
      spacePtr := moved;
    }

    /** `realloc_to` with the forward bit set in the space the value leaves. */
    method ReallocToFixed(from: Space, to: Space)
      requires from.WellFormed() && to.Valid() && from.cells != to.cells
      requires from.Holds(spacePtr)
      requires to.freeIdx + Dws(from.Borrow(spacePtr)) <= to.size
      requires spacePtr.bitIdx < from.size
      modifies this`spacePtr, from.cells, from.forwardBits.bits, to`freeIdx, to.cells
      ensures to.Valid()
      ensures spacePtr == SpacePtr(At(to.id, old(to.freeIdx)), old(to.freeIdx))
      ensures to.freeIdx == old(to.freeIdx) + Dws(old(from.Borrow(spacePtr)))
      ensures to.cells[..] == old(to.cells[..])[old(to.freeIdx) := Val(old(from.Borrow(spacePtr)))]
      ensures from.forwardBits.Bits() == old(from.forwardBits.Bits())[old(spacePtr.bitIdx) := true]
      ensures from.cells[old(spacePtr.inner.offset)] == Fwd(spacePtr.inner)
      ensures forall k :: 0 <= k < from.cells.Length && k != old(spacePtr.inner.offset) ==>
        from.cells[k] == old(from.cells[k])
    {
      var v := from.Borrow(spacePtr);
      var p := to.Allocate(v);
      var moved := p.value;
      from.SetForward(spacePtr);
      from.cells[spacePtr.inner.offset] := Fwd(moved.RawInner());
      spacePtr := moved;
    }
  }

  /** `Root(*mut Rooted)`: the client's exclusive handle on one record. */
  datatype Root = Root(rec: Rooted) {

    /** `borrow()`: the value at the record's current slot. */
    function Borrow(s: Space): (v: Value)
      reads rec, s.cells
      requires s.Holds(rec.spacePtr)
      ensures s.cells[rec.spacePtr.inner.offset] == Val(v)
    {
      rec.Borrow(s)
    }

    /** `to_heap()`: a cross-object reference to the record's current slot. */
    function ToHeap(): (h: Heap)
      reads rec
      ensures h.RawInner() == rec.spacePtr.RawInner() && h.BitIdx() == rec.spacePtr.BitIdx()
    {
      Heap(rec.spacePtr.Clone())
    }

    /** `drop()`: the record stops being rooted; nothing else changes. */
    method Drop()
      modifies rec`rooted
      ensures !rec.rooted
    {
      rec.rooted := false;
    }
  }

  /** `Heap(SpacePtr)`: a reference stored inside another managed value. */
  datatype Heap = Heap(ptr: SpacePtr) {

    /** `borrow()`: the value at the wrapped reference's slot. */
    function Borrow(s: Space): (v: Value)
      reads s.cells
      requires s.Holds(ptr)
      ensures s.cells[ptr.inner.offset] == Val(v)
    {
      s.Borrow(ptr)
    }

    /** `bit_idx()`, delegated. */
    function BitIdx(): nat
    {
      ptr.BitIdx()
    }

    /** `raw_inner()`, delegated. */
    function RawInner(): Loc
    {
      ptr.RawInner()
    }

    /** `set_raw_inner(p)`, delegated: only the address changes. */
    function SetRawInner(p: Loc): (h: Heap)
      ensures h.RawInner() == p && h.BitIdx() == BitIdx()
      ensures h.ptr == ptr.SetRawInner(p)
    {
      Heap(ptr.SetRawInner(p))
    }
  }

  /**
   * The reference accessors of a `Heap` act on the wrapped reference:
   * writing back the address just read changes nothing, and of two writes
   * the last one wins.
   */
  lemma HeapSetRawInner(h: Heap, a: Loc, b: Loc)
    ensures h.SetRawInner(h.RawInner()) == h
    ensures h.SetRawInner(a).SetRawInner(b) == h.SetRawInner(b)
  {
    SetRawInnerLastWins(h.ptr, a, b);
  }
}
