/**
 * The collector runtime: one current arena and the registry of root records.
 * `Cons` allocates, collecting when the arena is full; `Gc` copies the
 * records that are still rooted into a fresh arena.
 */
module Runtimes {
  import opened Options
  import opened SpacePtrs
  import opened Trace
  import opened Spaces
  import opened Ptrs

  /** `DEFAULT_SPACE_SIZE`, in double words. */
  const DEFAULT_SPACE_SIZE: nat := 1024

  /** Double words taken by values laid out back to back. */
  function SumDws(vs: seq<Value>): nat {
    if vs == [] then 0 else SumDws(vs[..|vs| - 1]) + Dws(vs[|vs| - 1])
  }

  /** The elements of `xs` whose flag in `keep` is set, in their order. */
  function Filter<T>(xs: seq<T>, keep: seq<bool>): (ys: seq<T>)
    requires |xs| == |keep|
    ensures |ys| <= |xs|
    ensures forall y :: y in ys ==> y in xs
  {
    if xs == [] then []
    else Filter(xs[..|xs| - 1], keep[..|xs| - 1]) + (if keep[|xs| - 1] then [xs[|xs| - 1]] else [])
  }

  lemma FilterSnoc<T>(xs: seq<T>, keep: seq<bool>, x: T, b: bool)
    requires |xs| == |keep|
    ensures Filter(xs + [x], keep + [b]) == Filter(xs, keep) + (if b then [x] else [])
  {
    assert (xs + [x])[..|xs|] == xs;
    assert (keep + [b])[..|xs|] == keep;
  }

  lemma FilterStep<T>(xs: seq<T>, keep: seq<bool>, i: nat, ys: seq<T>)
    requires |xs| == |keep| && i < |xs| && ys == Filter(xs[..i], keep[..i])
    ensures Filter(xs[..i + 1], keep[..i + 1]) == ys + (if keep[i] then [xs[i]] else [])
  {
    assert xs[..i + 1][..i] == xs[..i];
    assert keep[..i + 1][..i] == keep[..i];
  }

  lemma FilterWhole<T>(xs: seq<T>, keep: seq<bool>)
    requires |xs| == |keep|
    ensures Filter(xs[..|xs|], keep[..|xs|]) == Filter(xs, keep)
  {
    assert xs[..|xs|] == xs && keep[..|xs|] == keep;
  }

  /** No element of `s` occurs twice (see `DistinctExactly`). */
  ghost predicate Distinct<T>(s: seq<T>) {
    forall i, j :: 0 <= i < j < |s| ==> Differ(s, i, j)
  }

  /**
   * Positions `i` and `j` of `s` hold different elements; a predicate of its
   * own so that `Distinct`'s pairwise clause is used only where a proof names
   * the pair.
   */
  ghost predicate Differ<T>(s: seq<T>, i: nat, j: nat)
    requires i < |s| && j < |s|
  {
    s[i] != s[j]
  }

  /** `Distinct` holds exactly when no two positions hold the same element. */
  lemma DistinctExactly<T>(s: seq<T>)
    ensures Distinct(s) <==> forall i, j :: 0 <= i < j < |s| ==> s[i] != s[j]
  {
    if Distinct(s) {
      forall i, j | 0 <= i < j < |s| ensures s[i] != s[j] {
        assert Differ(s, i, j);
      }
    }
  }

  /** In a sequence without repeats, element `i` differs from every other. */
  lemma DistinctOthers<T>(s: seq<T>, i: nat)
    requires Distinct(s) && i < |s|
    ensures forall j :: 0 <= j < |s| && j != i ==> s[j] != s[i]
  {
    forall j | 0 <= j < |s| && j != i
      ensures s[j] != s[i]
    {
      if j < i {
        assert Differ(s, j, i);
      } else {
        assert Differ(s, i, j);
      }
    }
  }

  /** Keeping some of pairwise different elements keeps them pairwise different. */
  lemma {:induction false} FilterPairwise<T>(xs: seq<T>, keep: seq<bool>)
    requires |xs| == |keep| && forall j, k :: 0 <= j < k < |xs| ==> xs[j] != xs[k]
    ensures forall a, b :: 0 <= a < b < |Filter(xs, keep)| ==> Filter(xs, keep)[a] != Filter(xs, keep)[b]
  {
    if xs != [] {
      var n := |xs| - 1;
      var rest := Filter(xs[..n], keep[..n]);
      FilterPairwise(xs[..n], keep[..n]);
      forall a | 0 <= a < |rest|
        ensures rest[a] != xs[n]
      {
        assert rest[a] in xs[..n];
      }
      assert Filter(xs, keep) == rest + (if keep[n] then [xs[n]] else []);
    }
  }

  /** Keeping some of distinct elements keeps them distinct. */
  lemma FilterDistinct<T>(xs: seq<T>, keep: seq<bool>)
    requires |xs| == |keep| && Distinct(xs)
    ensures Distinct(Filter(xs, keep))
  {
    DistinctExactly(xs);
    FilterPairwise(xs, keep);
    DistinctExactly(Filter(xs, keep));
  }

  lemma SumDwsSnoc(vs: seq<Value>, v: Value)
    ensures SumDws(vs + [v]) == SumDws(vs) + Dws(v)
  {
    assert (vs + [v])[..|vs|] == vs;
  }

  /** Keeping some of the values never takes more room than all of them. */
  lemma {:induction false} FilterSumDws(vs: seq<Value>, keep: seq<bool>)
    requires |vs| == |keep|
    ensures SumDws(Filter(vs, keep)) <= SumDws(vs)
  {
    if vs != [] {
      var n := |vs| - 1;
      var rest := Filter(vs[..n], keep[..n]);
      FilterSumDws(vs[..n], keep[..n]);
      assert SumDws(vs) == SumDws(vs[..n]) + Dws(vs[n]);
      if keep[n] {
        assert Filter(vs, keep) == rest + [vs[n]];
        SumDwsSnoc(rest, vs[n]);
      } else {
        assert Filter(vs, keep) == rest;
      }
    }
  }

  /** Values of the same sizes take the same room. */
  lemma {:induction false} SumDwsSameSizes(a: seq<Value>, b: seq<Value>)
    requires |a| == |b| && forall i :: 0 <= i < |a| ==> Dws(a[i]) == Dws(b[i])
    ensures SumDws(a) == SumDws(b)
  {
    if a != [] {
      SumDwsSameSizes(a[..|a| - 1], b[..|b| - 1]);
    }
  }

  /** The current references of a sequence of records. */
  ghost function PtrsOf(recs: seq<Rooted>): (ps: seq<SpacePtr>)
    reads (set r | r in recs)`spacePtr
    ensures |ps| == |recs| && forall i :: 0 <= i < |recs| ==> ps[i] == recs[i].spacePtr
  {
    if recs == [] then [] else PtrsOf(recs[..|recs| - 1]) + [recs[|recs| - 1].spacePtr]
  }

  /** Appending a record appends its reference. */
  lemma PtrsOfSnoc(recs: seq<Rooted>, r: Rooted)
    ensures PtrsOf(recs + [r]) == PtrsOf(recs) + [r.spacePtr]
  {
    assert (recs + [r])[..|recs|] == recs;
  }

  /** References of records whose fields did not change are the same. */
  twostate lemma PtrsUnchanged(recs: seq<Rooted>)
    requires forall i :: 0 <= i < |recs| ==> unchanged(recs[i])
    ensures PtrsOf(recs) == old(PtrsOf(recs))
  {
  }

  /** Records whose fields did not change keep their flags. */
  twostate lemma FlagsUnchanged(recs: seq<Rooted>)
    requires forall i :: 0 <= i < |recs| ==> unchanged(recs[i])
    ensures FlagsOf(recs) == old(FlagsOf(recs))
  {
  }

  /** Keeping some records keeps their references alongside. */
  lemma {:induction false} FilterPtrs(recs: seq<Rooted>, ps: seq<SpacePtr>, keep: seq<bool>)
    requires |recs| == |ps| == |keep| && forall j :: 0 <= j < |recs| ==> recs[j].spacePtr == ps[j]
    ensures PtrsOf(Filter(recs, keep)) == Filter(ps, keep)
  {
    if recs != [] {
      var n := |recs| - 1;
      FilterPtrs(recs[..n], ps[..n], keep[..n]);
    }
  }

  /** The `rooted` flags of a sequence of records. */
  ghost function FlagsOf(recs: seq<Rooted>): (fs: seq<bool>)
    reads (set r | r in recs)`rooted
    ensures |fs| == |recs| && forall i :: 0 <= i < |recs| ==> fs[i] == recs[i].rooted
  {
    if recs == [] then [] else FlagsOf(recs[..|recs| - 1]) + [recs[|recs| - 1].rooted]
  }

  /** Every reference points at a stored value. */
  ghost predicate Stored(cells: seq<Cell>, ptrs: seq<SpacePtr>) {
    forall i :: 0 <= i < |ptrs| ==> ptrs[i].bitIdx < |cells| && cells[ptrs[i].bitIdx].Val?
  }

  /** The values the references point at. */
  ghost function Values(cells: seq<Cell>, ptrs: seq<SpacePtr>): (vs: seq<Value>)
    requires Stored(cells, ptrs)
    ensures |vs| == |ptrs| && forall i :: 0 <= i < |ptrs| ==> cells[ptrs[i].bitIdx] == Val(vs[i])
  {
    seq(|ptrs|, i requires 0 <= i < |ptrs| => cells[ptrs[i].bitIdx].v)
  }

  /**
   * How the registry's records sit in a space: each reference's address is
   * offset `bitIdx` of space `id`; the values it points at occupy disjoint
   * double-word ranges in registry order, all below `freeIdx`, and the
   * references they hold carry bit indices inside a default-sized space.
   */
  ghost predicate Layout(id: nat, freeIdx: nat, cells: seq<Cell>, ptrs: seq<SpacePtr>) {
    Stored(cells, ptrs) &&
    (forall i :: 0 <= i < |ptrs| ==> ptrs[i].inner == At(id, ptrs[i].bitIdx)) &&
    (forall i :: 0 <= i < |ptrs| ==>
      ptrs[i].bitIdx + Dws(cells[ptrs[i].bitIdx].v) <= freeIdx &&
      RefsBelow(cells[ptrs[i].bitIdx].v, DEFAULT_SPACE_SIZE)) &&
    (forall i, j :: 0 <= i < j < |ptrs| ==> Apart(cells, ptrs, i, j))
  }

  /**
   * The value reference `i` points at ends at or before offset `bitIdx` of
   * reference `j`. Kept as a predicate of its own so that `Layout`'s pairwise
   * clause is only used where a proof names the pair.
   */
  ghost predicate Apart(cells: seq<Cell>, ptrs: seq<SpacePtr>, i: nat, j: nat)
    requires Stored(cells, ptrs) && i < |ptrs| && j < |ptrs|
  {
    ptrs[i].bitIdx + Dws(cells[ptrs[i].bitIdx].v) <= ptrs[j].bitIdx
  }

  /** Storing one more value at `freeIdx` extends the layout by one record. */
  lemma LayoutSnoc(id: nat, free: nat, cells: seq<Cell>, ptrs: seq<SpacePtr>, v: Value)
    requires Layout(id, free, cells, ptrs)
    requires free + Dws(v) <= |cells| && RefsBelow(v, DEFAULT_SPACE_SIZE)
    ensures Layout(id, free + Dws(v), cells[free := Val(v)], ptrs + [SpacePtr(At(id, free), free)])
    ensures Values(cells[free := Val(v)], ptrs + [SpacePtr(At(id, free), free)]) == Values(cells, ptrs) + [v]
  {
    var cells', ptrs' := cells[free := Val(v)], ptrs + [SpacePtr(At(id, free), free)];
    forall i | 0 <= i < |ptrs|
      ensures cells'[ptrs[i].bitIdx] == cells[ptrs[i].bitIdx]
    {
      assert ptrs[i].bitIdx < free;
    }
    assert Stored(cells', ptrs');
    forall i, j | 0 <= i < j < |ptrs'|
      ensures Apart(cells', ptrs', i, j)
    {
      if j < |ptrs| {
        assert Apart(cells, ptrs, i, j);
      }
    }
    assert Values(cells', ptrs') == Values(cells, ptrs) + [v];
  }

  /** Rewriting record `k`'s value with one of the same size keeps the layout. */
  lemma LayoutRewrite(id: nat, free: nat, cells: seq<Cell>, ptrs: seq<SpacePtr>, k: nat, w: Value)
    requires Layout(id, free, cells, ptrs) && k < |ptrs|
    requires Dws(w) == Dws(Values(cells, ptrs)[k]) && RefsBelow(w, DEFAULT_SPACE_SIZE)
    ensures Layout(id, free, cells[ptrs[k].bitIdx := Val(w)], ptrs)
    ensures Values(cells[ptrs[k].bitIdx := Val(w)], ptrs) == Values(cells, ptrs)[k := w]
  {
    var cells' := cells[ptrs[k].bitIdx := Val(w)];
    forall i | 0 <= i < |ptrs| && i != k
      ensures cells'[ptrs[i].bitIdx] == cells[ptrs[i].bitIdx]
    {
      if i < k {
        assert Apart(cells, ptrs, i, k);
      } else {
        assert Apart(cells, ptrs, k, i);
      }
    }
    assert Stored(cells', ptrs);
    forall i, j | 0 <= i < j < |ptrs|
      ensures Apart(cells', ptrs, i, j)
    {
      assert Apart(cells, ptrs, i, j);
    }
    assert Values(cells', ptrs) == Values(cells, ptrs)[k := w];
  }

  /** A prefix takes no more room than the whole. */
  lemma {:induction false} SumDwsPrefix(vs: seq<Value>, i: nat)
    requires i <= |vs|
    ensures SumDws(vs[..i]) <= SumDws(vs)
  {
    if i < |vs| {
      SumDwsPrefix(vs[..|vs| - 1], i);
      assert vs[..|vs| - 1][..i] == vs[..i];
    } else {
      assert vs[..i] == vs;
    }
  }

  /**
   * One step of keeping the flagged values in order: the next value is
   * appended when its flag is set, and then the kept values still fit where
   * all the values fit.
   */
  lemma KeptStep(vals: seq<Value>, flags: seq<bool>, i: nat, kept: seq<Value>)
    requires |vals| == |flags| && i < |vals| && kept == Filter(vals[..i], flags[..i])
    ensures Filter(vals[..i + 1], flags[..i + 1]) == kept + (if flags[i] then [vals[i]] else [])
    ensures flags[i] ==> SumDws(kept) + Dws(vals[i]) <= SumDws(vals)
  {
    FilterStep(vals, flags, i, kept);
    FilterSumDws(vals[..i + 1], flags[..i + 1]);
    SumDwsPrefix(vals, i + 1);
    SumDwsSnoc(kept, vals[i]);
  }

  /** What `Relocate`'s loop relies on about the snapshot of the registry it walks. */
  ghost predicate Snapshot(reg: seq<Rooted>, from: Space, ptrs: seq<SpacePtr>, vals: seq<Value>, flags: seq<bool>) {
    |reg| == |ptrs| == |vals| == |flags| &&
    from.WellFormed() && from.size == DEFAULT_SPACE_SIZE && SumDws(vals) <= DEFAULT_SPACE_SIZE &&
    Distinct(reg) &&
    (forall j :: 0 <= j < |ptrs| ==>
      ptrs[j].inner == At(from.id, ptrs[j].bitIdx) && ptrs[j].bitIdx < from.size &&
      RefsBelow(vals[j], DEFAULT_SPACE_SIZE)) &&
    (forall j, k :: 0 <= j < k < |ptrs| ==> Below(ptrs, j, k))
  }

  /**
   * Reference `j` has a smaller bit index than reference `k`; a predicate of
   * its own so that `Snapshot`'s pairwise clause is only used where a proof
   * names the pair.
   */
  ghost predicate Below(ptrs: seq<SpacePtr>, j: nat, k: nat)
    requires j < |ptrs| && k < |ptrs|
  {
    ptrs[j].bitIdx < ptrs[k].bitIdx
  }

  /**
   * The state of `Relocate`'s loop after the first `i` records: `cur` holds
   * every record's current reference; the rooted ones among the records
   * behind are laid out in `to`, in order, at the references `newPtrs`, and
   * their old slots in `from` forward there.
   */
  ghost predicate Moving(reg: seq<Rooted>, from: Space, to: Space, ptrs: seq<SpacePtr>, vals: seq<Value>,
                         flags: seq<bool>, i: nat, cur: seq<SpacePtr>, newPtrs: seq<SpacePtr>, kept: seq<Value>,
                         oldPtrs: seq<SpacePtr>, fixed: bool)
    reads reg, from.cells, from.forwardBits, from.forwardBits.bits, to, to.cells
    requires Snapshot(reg, from, ptrs, vals, flags)
  {
    i <= |reg| && |cur| == |reg| &&
    to.Valid() && to.size == DEFAULT_SPACE_SIZE && to.id != from.id &&
    from.ForwardsBelow(DEFAULT_SPACE_SIZE) && to.ForwardsBelow(DEFAULT_SPACE_SIZE) &&
    to.cells != from.cells && to.forwardBits.bits != from.forwardBits.bits &&
    (forall j :: 0 <= j < |reg| ==> reg[j].spacePtr == cur[j]) &&
    Trail(ptrs, vals, flags, i, cur, newPtrs, kept, oldPtrs, fixed,
          to.id, to.freeIdx, to.cells[..], from.cells[..], from.forwardBits.Bits())
  }

  /**
   * The contents side of `Moving`, over the cells of `to` (`toCells`, with
   * identity `id` and free index `free`) and the cells and forward bits of
   * `from`: the records from `i` on still hold their entry references and
   * values; the rooted ones before `i` are placed in `to` at `newPtrs` and
   * forwarded from their old references `oldPtrs`.
   */
  ghost predicate Trail(ptrs: seq<SpacePtr>, vals: seq<Value>, flags: seq<bool>, i: nat,
                        cur: seq<SpacePtr>, newPtrs: seq<SpacePtr>, kept: seq<Value>, oldPtrs: seq<SpacePtr>,
                        fixed: bool, id: nat, free: nat, toCells: seq<Cell>, fromCells: seq<Cell>, bits: seq<bool>)
    requires i <= |ptrs| == |vals| == |flags|
  {
    |cur| == |ptrs| && (forall j :: i <= j < |ptrs| ==> cur[j] == ptrs[j]) &&
    Ahead(fromCells, ptrs, vals, i) &&
    newPtrs == Filter(cur[..i], flags[..i]) &&
    Placed(vals, flags, i, id, free, toCells, newPtrs, kept) &&
    Evacuated(fromCells, bits, ptrs, flags, i, oldPtrs, newPtrs, fixed)
  }

  /** A rooted record `i` on the trail fits in `to`. */
  lemma TrailRoom(ptrs: seq<SpacePtr>, vals: seq<Value>, flags: seq<bool>, i: nat,
                  cur: seq<SpacePtr>, newPtrs: seq<SpacePtr>, kept: seq<Value>, oldPtrs: seq<SpacePtr>,
                  fixed: bool, id: nat, free: nat, toCells: seq<Cell>, fromCells: seq<Cell>, bits: seq<bool>)
    requires i < |ptrs| == |vals| == |flags| && flags[i]
    requires Trail(ptrs, vals, flags, i, cur, newPtrs, kept, oldPtrs, fixed, id, free, toCells, fromCells, bits)
    requires SumDws(vals) <= |toCells| && RefsBelow(vals[i], DEFAULT_SPACE_SIZE)
    ensures free + Dws(vals[i]) <= |toCells|
  {
    PlacedStep(vals, flags, i, id, free, toCells, newPtrs, kept);
  }

  /**
   * Relocating rooted record `i` to offset `free` of `to` extends the trail
   * by it: `free'`, `toCells'`, `fromCells'` and `bits'` are the state after.
   */
  lemma TrailStep(ptrs: seq<SpacePtr>, vals: seq<Value>, flags: seq<bool>, i: nat,
                  cur: seq<SpacePtr>, newPtrs: seq<SpacePtr>, kept: seq<Value>, oldPtrs: seq<SpacePtr>,
                  fixed: bool, id: nat, free: nat, toCells: seq<Cell>, fromCells: seq<Cell>, bits: seq<bool>,
                  q: SpacePtr, free': nat, toCells': seq<Cell>, fromCells': seq<Cell>, bits': seq<bool>)
    requires i < |ptrs| == |vals| == |flags| && flags[i]
    requires Trail(ptrs, vals, flags, i, cur, newPtrs, kept, oldPtrs, fixed, id, free, toCells, fromCells, bits)
    requires forall j, k :: 0 <= j < k < |ptrs| ==> Below(ptrs, j, k)
    requires SumDws(vals) <= |toCells| && RefsBelow(vals[i], DEFAULT_SPACE_SIZE)
    requires ptrs[i].bitIdx < |bits| && ptrs[i].bitIdx < |fromCells| && free + Dws(vals[i]) <= |toCells|
    requires q == SpacePtr(At(id, free), free) && free' == free + Dws(vals[i])
    requires toCells' == toCells[free := Val(vals[i])] && fromCells' == fromCells[ptrs[i].bitIdx := Fwd(q.inner)]
    requires bits' == if fixed then bits[ptrs[i].bitIdx := true] else bits
    ensures Trail(ptrs, vals, flags, i + 1, cur[i := q], newPtrs + [q], kept + [vals[i]], oldPtrs + [ptrs[i]],
                  fixed, id, free', toCells', fromCells', bits')
  {
    TrailParts(ptrs, vals, flags, i, cur, newPtrs, kept, oldPtrs, fixed, id, free, toCells, fromCells, bits,
               q, free', toCells', fromCells', bits');
  }

  /** `TrailStep`, conjunct by conjunct. */
  lemma TrailParts(ptrs: seq<SpacePtr>, vals: seq<Value>, flags: seq<bool>, i: nat,
                  cur: seq<SpacePtr>, newPtrs: seq<SpacePtr>, kept: seq<Value>, oldPtrs: seq<SpacePtr>,
                  fixed: bool, id: nat, free: nat, toCells: seq<Cell>, fromCells: seq<Cell>, bits: seq<bool>,
                  q: SpacePtr, free': nat, toCells': seq<Cell>, fromCells': seq<Cell>, bits': seq<bool>)
    requires i < |ptrs| == |vals| == |flags| && flags[i]
    requires Trail(ptrs, vals, flags, i, cur, newPtrs, kept, oldPtrs, fixed, id, free, toCells, fromCells, bits)
    requires forall j, k :: 0 <= j < k < |ptrs| ==> Below(ptrs, j, k)
    requires SumDws(vals) <= |toCells| && RefsBelow(vals[i], DEFAULT_SPACE_SIZE)
    requires ptrs[i].bitIdx < |bits| && ptrs[i].bitIdx < |fromCells| && free + Dws(vals[i]) <= |toCells|
    requires q == SpacePtr(At(id, free), free) && free' == free + Dws(vals[i])
    requires toCells' == toCells[free := Val(vals[i])] && fromCells' == fromCells[ptrs[i].bitIdx := Fwd(q.inner)]
    requires bits' == if fixed then bits[ptrs[i].bitIdx := true] else bits
    ensures |cur[i := q]| == |ptrs|
    ensures (forall j :: i + 1 <= j < |ptrs| ==> cur[i := q][j] == ptrs[j])
    ensures Ahead(fromCells', ptrs, vals, i + 1)
    ensures newPtrs + [q] == Filter(cur[i := q][..i + 1], flags[..i + 1])
    ensures Placed(vals, flags, i + 1, id, free', toCells', newPtrs + [q], kept + [vals[i]])
    ensures Evacuated(fromCells', bits', ptrs, flags, i + 1, oldPtrs + [ptrs[i]], newPtrs + [q], fixed)
  {
    var cur' := cur[i := q];
    PlacedStep(vals, flags, i, id, free, toCells, newPtrs, kept);
    assert cur'[..i] == cur[..i];
    FilterStep(cur', flags, i, newPtrs);
    EvacuatedStep(fromCells, bits, ptrs, flags, i, oldPtrs, newPtrs, fixed, q,
                  fromCells[ptrs[i].bitIdx := Fwd(q.inner)], if fixed then bits[ptrs[i].bitIdx := true] else bits);
    AheadStep(fromCells, ptrs, vals, i, Fwd(q.inner));
  }

  /** Passing over unrooted record `i` extends the trail without changing anything. */
  lemma TrailSkip(ptrs: seq<SpacePtr>, vals: seq<Value>, flags: seq<bool>, i: nat,
                  cur: seq<SpacePtr>, newPtrs: seq<SpacePtr>, kept: seq<Value>, oldPtrs: seq<SpacePtr>,
                  fixed: bool, id: nat, free: nat, toCells: seq<Cell>, fromCells: seq<Cell>, bits: seq<bool>)
    requires i < |ptrs| == |vals| == |flags| && !flags[i]
    requires Trail(ptrs, vals, flags, i, cur, newPtrs, kept, oldPtrs, fixed, id, free, toCells, fromCells, bits)
    requires SumDws(vals) <= |toCells| && RefsBelow(vals[i], DEFAULT_SPACE_SIZE)
    ensures Trail(ptrs, vals, flags, i + 1, cur, newPtrs, kept, oldPtrs, fixed, id, free, toCells, fromCells, bits)
  {
    PlacedStep(vals, flags, i, id, free, toCells, newPtrs, kept);
    FilterStep(cur, flags, i, newPtrs);
    EvacuatedSkip(fromCells, bits, ptrs, flags, i, oldPtrs, newPtrs, fixed);
  }

  /** The slots of the records from `i` on still hold their values. */
  ghost predicate Ahead(cells: seq<Cell>, ptrs: seq<SpacePtr>, vals: seq<Value>, i: nat)
    requires |ptrs| == |vals|
  {
    forall j :: i <= j < |ptrs| ==> ptrs[j].bitIdx < |cells| && cells[ptrs[j].bitIdx] == Val(vals[j])
  }

  /** Overwriting the slot of record `i` leaves the slots of the records after it alone. */
  lemma AheadStep(cells: seq<Cell>, ptrs: seq<SpacePtr>, vals: seq<Value>, i: nat, c: Cell)
    requires i < |ptrs| == |vals| && Ahead(cells, ptrs, vals, i)
    requires forall j, k :: 0 <= j < k < |ptrs| ==> Below(ptrs, j, k)
    ensures Ahead(cells[ptrs[i].bitIdx := c], ptrs, vals, i + 1)
  {
    forall j | i + 1 <= j < |ptrs|
      ensures cells[ptrs[i].bitIdx := c][ptrs[j].bitIdx] == Val(vals[j])
    {
      assert Below(ptrs, i, j);
    }
  }

  /**
   * The slots that the survivors left behind, in a space with contents
   * `cells` and forward bits `bits`: survivor `a`'s old slot, at bit index
   * `oldPtrs[a].bitIdx`, holds its new address `newPtrs[a].inner` as a
   * forwarding word; with `fixed`, the slot's forward bit is set as well.
   */
  ghost predicate Forwarding(cells: seq<Cell>, bits: seq<bool>, oldPtrs: seq<SpacePtr>, newPtrs: seq<SpacePtr>, fixed: bool) {
    |oldPtrs| == |newPtrs| &&
    forall a :: 0 <= a < |oldPtrs| ==>
      oldPtrs[a].bitIdx < |cells| && oldPtrs[a].bitIdx < |bits| &&
      cells[oldPtrs[a].bitIdx] == Fwd(newPtrs[a].inner) &&
      (fixed ==> bits[oldPtrs[a].bitIdx])
  }

  /** `n` flags, set at the bit indices of the references `ps` that are below `n` (see `BitsAtExactly`). */
  ghost function BitsAt(n: nat, ps: seq<SpacePtr>): (bs: seq<bool>)
    ensures |bs| == n
  {
    if ps == [] then seq(n, _ => false)
    else
      var rest, b := BitsAt(n, ps[..|ps| - 1]), ps[|ps| - 1].bitIdx;
      if b < n then rest[b := true] else rest
  }

  /** Flag `j` of `BitsAt(n, ps)` is set exactly when some reference of `ps` has bit index `j`. */
  lemma {:induction false} BitsAtExactly(n: nat, ps: seq<SpacePtr>, j: nat)
    requires j < n
    ensures BitsAt(n, ps)[j] <==> exists a :: 0 <= a < |ps| && ps[a].bitIdx == j
  {
    if ps != [] {
      var init := ps[..|ps| - 1];
      BitsAtExactly(n, init, j);
      assert forall a :: 0 <= a < |init| ==> init[a] == ps[a];
      if ps[|ps| - 1].bitIdx == j {
        assert ps[|ps| - 1].bitIdx == j;
      } else if exists a :: 0 <= a < |ps| && ps[a].bitIdx == j {
        var a :| 0 <= a < |ps| && ps[a].bitIdx == j;
        assert init[a].bitIdx == j;
      }
    }
  }

  /**
   * The forward bits of the space being filled: as written, `realloc_to`
   * sets them exactly at the old bit indices `oldPtrs` of the records moved
   * so far; with `fixed` they stay clear.
   */
  ghost predicate DestinationBits(to: Space, oldPtrs: seq<SpacePtr>, fixed: bool)
    reads to.forwardBits.bits
  {
    to.forwardBits.Bits() == BitsAt(DEFAULT_SPACE_SIZE, if fixed then [] else oldPtrs)
  }

  /** A space whose forward bits are those of no reference has every forward bit clear. */
  lemma NoBitsClear(s: Space)
    requires s.forwardBits.Bits() == BitsAt(DEFAULT_SPACE_SIZE, [])
    ensures s.ForwardsClear()
  {
    forall j | 0 <= j < s.forwardBits.bits.Length
      ensures !s.forwardBits.bits[j]
    {
      BitsAtExactly(DEFAULT_SPACE_SIZE, [], j);
    }
  }

  /**
   * What the next collection does to a stale link. After `gc` as written,
   * the current space `s` has its forward bits set at the old bit indices
   * `kp` of the survivors, while the survivors' fields still name the space
   * evacuated. `forward` through `s` then takes such a field, whose bit index
   * is a survivor's old one, to the word read at an address outside `s`,
   * which the model calls `Wild` (in the source, a read of the freed
   * space's memory): the link is lost.
   */
  lemma StaleLinksGoWild(s: Space, kp: seq<SpacePtr>, a: nat, p: SpacePtr)
    requires s.WellFormed() && s.size == DEFAULT_SPACE_SIZE
    requires s.forwardBits.Bits() == BitsAt(DEFAULT_SPACE_SIZE, kp)
    requires a < |kp| && p.bitIdx == kp[a].bitIdx < DEFAULT_SPACE_SIZE
    requires !(p.inner.At? && p.inner.space == s.id)
    ensures s.Forwarded(p).inner == Wild && s.Forwarded(p).bitIdx == p.bitIdx
  {
    BitsAtExactly(DEFAULT_SPACE_SIZE, kp, p.bitIdx);
    assert s.forwardBits.bits[p.bitIdx];
  }

  /** One more reference sets one more flag. */
  lemma BitsAtSnoc(n: nat, ps: seq<SpacePtr>, p: SpacePtr)
    requires p.bitIdx < n
    ensures BitsAt(n, ps + [p]) == BitsAt(n, ps)[p.bitIdx := true]
  {
    assert (ps + [p])[..|ps|] == ps;
  }

  /**
   * The old references of the rooted records among the first `i`, in order,
   * all below the bit indices of the records still ahead, with their slots
   * forwarding to `newPtrs`.
   */
  ghost predicate Evacuated(cells: seq<Cell>, bits: seq<bool>, ptrs: seq<SpacePtr>, flags: seq<bool>, i: nat,
                            oldPtrs: seq<SpacePtr>, newPtrs: seq<SpacePtr>, fixed: bool)
    requires i <= |ptrs| == |flags|
  {
    oldPtrs == Filter(ptrs[..i], flags[..i]) &&
    (forall a, j :: 0 <= a < |oldPtrs| && i <= j < |ptrs| ==> Behind(oldPtrs, ptrs, a, j)) &&
    Forwarding(cells, bits, oldPtrs, newPtrs, fixed)
  }

  /**
   * Survivor `a`'s old slot lies before record `j`'s; kept as a predicate so
   * that `Evacuated`'s pairwise clause is used only where a proof names the pair.
   */
  ghost predicate Behind(oldPtrs: seq<SpacePtr>, ptrs: seq<SpacePtr>, a: nat, j: nat)
    requires a < |oldPtrs| && j < |ptrs|
  {
    oldPtrs[a].bitIdx < ptrs[j].bitIdx
  }

  /** Evacuating rooted record `i` to `q` adds its old slot to the forwarding slots. */
  lemma EvacuatedStep(cells: seq<Cell>, bits: seq<bool>, ptrs: seq<SpacePtr>, flags: seq<bool>, i: nat,
                      oldPtrs: seq<SpacePtr>, newPtrs: seq<SpacePtr>, fixed: bool,
                      q: SpacePtr, cells': seq<Cell>, bits': seq<bool>)
    requires i < |ptrs| == |flags| && flags[i] && Evacuated(cells, bits, ptrs, flags, i, oldPtrs, newPtrs, fixed)
    requires forall j, k :: 0 <= j < k < |ptrs| ==> Below(ptrs, j, k)
    requires ptrs[i].bitIdx < |cells| && ptrs[i].bitIdx < |bits|
    requires cells' == cells[ptrs[i].bitIdx := Fwd(q.inner)]
    requires bits' == if fixed then bits[ptrs[i].bitIdx := true] else bits
    ensures Evacuated(cells', bits', ptrs, flags, i + 1, oldPtrs + [ptrs[i]], newPtrs + [q], fixed)
  {
    forall a | 0 <= a < |oldPtrs|
      ensures oldPtrs[a].bitIdx < ptrs[i].bitIdx
    {
      assert Behind(oldPtrs, ptrs, a, i);
    }
    forall a, j | 0 <= a < |oldPtrs| + 1 && i < j < |ptrs|
      ensures Behind(oldPtrs + [ptrs[i]], ptrs, a, j)
    {
      if a < |oldPtrs| {
        assert Behind(oldPtrs, ptrs, a, j);
      } else {
        assert Below(ptrs, i, j);
      }
    }
    FilterStep(ptrs, flags, i, oldPtrs);
  }

  /** Once every record is considered, the survivors and their new references are the rooted ones. */
  lemma MovedAll(reg: seq<Rooted>, from: Space, to: Space, ptrs: seq<SpacePtr>, vals: seq<Value>, flags: seq<bool>,
                 cur: seq<SpacePtr>, newPtrs: seq<SpacePtr>, kept: seq<Value>, survivors: seq<Rooted>,
                 oldPtrs: seq<SpacePtr>, fixed: bool)
    requires Snapshot(reg, from, ptrs, vals, flags)
    requires Moving(reg, from, to, ptrs, vals, flags, |reg|, cur, newPtrs, kept, oldPtrs, fixed)
    requires survivors == Filter(reg[..|reg|], flags[..|reg|])
    ensures survivors == Filter(reg, flags)
    ensures Distinct(survivors)
    ensures newPtrs == PtrsOf(survivors)
    ensures Layout(to.id, to.freeIdx, to.cells[..], newPtrs)
    ensures Values(to.cells[..], newPtrs) == Filter(vals, flags)
    ensures to.freeIdx == SumDws(Filter(vals, flags))
    ensures Forwarding(from.cells[..], from.forwardBits.Bits(), Filter(ptrs, flags), newPtrs, fixed)
    ensures oldPtrs == Filter(ptrs, flags)
  {
    FilterWhole(reg, flags);
    FilterWhole(vals, flags);
    FilterWhole(ptrs, flags);
    FilterWhole(cur, flags);
    FilterDistinct(reg, flags);
    FilterPtrs(reg, cur, flags);
  }

  /** Passing over an unrooted record `i` leaves the forwarding slots as they are. */
  lemma EvacuatedSkip(cells: seq<Cell>, bits: seq<bool>, ptrs: seq<SpacePtr>, flags: seq<bool>, i: nat,
                      oldPtrs: seq<SpacePtr>, newPtrs: seq<SpacePtr>, fixed: bool)
    requires i < |ptrs| == |flags| && !flags[i] && Evacuated(cells, bits, ptrs, flags, i, oldPtrs, newPtrs, fixed)
    ensures Evacuated(cells, bits, ptrs, flags, i + 1, oldPtrs, newPtrs, fixed)
  {
    FilterStep(ptrs, flags, i, oldPtrs);
  }

  /**
   * The values of the rooted records among the first `i` sit, in order, at
   * the references `newPtrs` of space `id`, packed below `free`.
   */
  ghost predicate Placed(vals: seq<Value>, flags: seq<bool>, i: nat, id: nat, free: nat,
                         cells: seq<Cell>, newPtrs: seq<SpacePtr>, kept: seq<Value>)
    requires i <= |vals| == |flags|
  {
    Layout(id, free, cells, newPtrs) &&
    kept == Filter(vals[..i], flags[..i]) &&
    Values(cells, newPtrs) == kept && free == SumDws(kept)
  }

  /** Placing record `i`'s value at `free`, when it is rooted, extends the placement by one. */
  lemma PlacedStep(vals: seq<Value>, flags: seq<bool>, i: nat, id: nat, free: nat,
                   cells: seq<Cell>, newPtrs: seq<SpacePtr>, kept: seq<Value>)
    requires i < |vals| == |flags| && SumDws(vals) <= |cells|
    requires RefsBelow(vals[i], DEFAULT_SPACE_SIZE)
    requires Placed(vals, flags, i, id, free, cells, newPtrs, kept)
    ensures !flags[i] ==> Placed(vals, flags, i + 1, id, free, cells, newPtrs, kept)
    ensures flags[i] ==> (free + Dws(vals[i]) <= |cells| &&
      Placed(vals, flags, i + 1, id, free + Dws(vals[i]), cells[free := Val(vals[i])],
             newPtrs + [SpacePtr(At(id, free), free)], kept + [vals[i]]))
  {
    KeptStep(vals, flags, i, kept);
    if flags[i] {
      LayoutSnoc(id, free, cells, newPtrs, vals[i]);
      SumDwsSnoc(kept, vals[i]);
    }
  }

  /** `forward` of every field through `s`, as written or with the bit index rewritten too. */
  function ResolvedBy(s: Space, fixed: bool, v: Value): (r: Value)
    reads s.cells, s.forwardBits.bits
    requires s.WellFormed() && RefsBelow(v, s.size)
    ensures SameShape(r, v) && Dws(r) == Dws(v) && |Fields(r)| == |Fields(v)|
    ensures !fixed || s.ForwardsBelow(s.size) ==> RefsBelow(r, s.size)
  {
    if fixed then ResolvedFixed(s, v) else Resolved(s, v)
  }

  /** `ResolvedBy` applied to each value of `vs`. */
  function ResolvedAll(s: Space, fixed: bool, vs: seq<Value>): (rs: seq<Value>)
    reads s.cells, s.forwardBits.bits
    requires s.WellFormed() && forall m :: 0 <= m < |vs| ==> RefsBelow(vs[m], s.size)
    ensures |rs| == |vs| && forall m :: 0 <= m < |vs| ==> rs[m] == ResolvedBy(s, fixed, vs[m])
  {
    seq(|vs|, m requires 0 <= m < |vs| && s.WellFormed() && RefsBelow(vs[m], s.size)
                reads s.cells, s.forwardBits.bits => ResolvedBy(s, fixed, vs[m]))
  }

  /**
   * With the corrected forwarding, a reference field that named the old slot
   * of an evacuated record names that record's new slot once resolved.
   */
  lemma LinksFollow(s: Space, oldPtrs: seq<SpacePtr>, newPtrs: seq<SpacePtr>, v: Value, t: nat, a: nat)
    requires s.WellFormed() && RefsBelow(v, s.size)
    requires Forwarding(s.cells[..], s.forwardBits.Bits(), oldPtrs, newPtrs, true)
    requires a < |oldPtrs| && oldPtrs[a].inner == At(s.id, oldPtrs[a].bitIdx)
    requires newPtrs[a].inner.At? && newPtrs[a].inner.offset == newPtrs[a].bitIdx
    requires t < |Fields(v)| && Fields(v)[t] == oldPtrs[a]
    ensures Fields(ResolvedBy(s, true, v))[t] == newPtrs[a]
  {
  }

  /**
   * Every reference field of `vs` that named the old reference `oldPtrs[a]`
   * of a record names its new reference `newPtrs[a]` in the resolved values `rs`.
   */
  ghost predicate LinksFollowed(vs: seq<Value>, oldPtrs: seq<SpacePtr>, rs: seq<Value>, newPtrs: seq<SpacePtr>) {
    |rs| == |vs| && |newPtrs| == |oldPtrs| &&
    forall m, t, a | 0 <= m < |vs| && 0 <= a < |oldPtrs| && 0 <= t < |Fields(vs[m])| ::
      Fields(vs[m])[t] == oldPtrs[a] ==> t < |Fields(rs[m])| && Fields(rs[m])[t] == newPtrs[a]
  }

  /** `LinksFollow` for every field of every value resolved together. */
  lemma AllLinksFollow(s: Space, oldPtrs: seq<SpacePtr>, newId: nat, newPtrs: seq<SpacePtr>, vs: seq<Value>, rs: seq<Value>)
    requires s.WellFormed() && forall m :: 0 <= m < |vs| ==> RefsBelow(vs[m], s.size)
    requires Forwarding(s.cells[..], s.forwardBits.Bits(), oldPtrs, newPtrs, true)
    requires forall a :: 0 <= a < |oldPtrs| ==> oldPtrs[a].inner == At(s.id, oldPtrs[a].bitIdx)
    requires forall a :: 0 <= a < |newPtrs| ==> newPtrs[a].inner == At(newId, newPtrs[a].bitIdx)
    requires rs == ResolvedAll(s, true, vs)
    ensures LinksFollowed(vs, oldPtrs, rs, newPtrs)
  {
    forall m, t, a | 0 <= m < |vs| && 0 <= a < |oldPtrs| && 0 <= t < |Fields(vs[m])| && Fields(vs[m])[t] == oldPtrs[a]
      ensures Fields(rs[m])[t] == newPtrs[a]
    {
      LinksFollow(s, oldPtrs, newPtrs, vs[m], t, a);
    }
  }

  /**
   * The state of `gc`'s second loop after the first `k` survivors, over the
   * cells of the new space (identity `id`, free index `free`): their values
   * are already replaced by their `target`s, the rest are as they were moved.
   */
  ghost predicate Resolving(id: nat, free: nat, cells: seq<Cell>, newPtrs: seq<SpacePtr>,
                            moved: seq<Value>, target: seq<Value>, k: nat)
  {
    k <= |newPtrs| == |moved| == |target| &&
    (forall m :: 0 <= m < |moved| ==>
      Dws(target[m]) == Dws(moved[m]) && RefsBelow(moved[m], DEFAULT_SPACE_SIZE) &&
      RefsBelow(target[m], DEFAULT_SPACE_SIZE)) &&
    Layout(id, free, cells, newPtrs) &&
    Values(cells, newPtrs) == target[..k] + moved[k..]
  }

  /** Storing survivor `k`'s target over its moved value resolves one more survivor. */
  lemma ResolvingStep(id: nat, free: nat, cells: seq<Cell>, newPtrs: seq<SpacePtr>,
                      moved: seq<Value>, target: seq<Value>, k: nat)
    requires Resolving(id, free, cells, newPtrs, moved, target, k) && k < |newPtrs|
    ensures newPtrs[k].bitIdx < |cells| && cells[newPtrs[k].bitIdx] == Val(moved[k])
    ensures Resolving(id, free, cells[newPtrs[k].bitIdx := Val(target[k])], newPtrs, moved, target, k + 1)
  {
    assert Values(cells, newPtrs)[k] == moved[k];
    LayoutRewrite(id, free, cells, newPtrs, k, target[k]);
    SpliceStep(target, moved, k);
  }

  /** Replacing element `k` of a partly resolved sequence by its resolved form resolves one more. */
  lemma SpliceStep<T>(target: seq<T>, moved: seq<T>, k: nat)
    requires k < |target| == |moved|
    ensures (target[..k] + moved[k..])[k := target[k]] == target[..k + 1] + moved[k + 1..]
  {
  }

  class Runtime {
    var space: Space
    /** The source's `allocated`: every record created and not yet reclaimed, in creation order. */
    var registry: seq<Rooted>
    /** Identity given to the next region created (stands for a fresh base address). */
    var nextId: nat

    ghost predicate Valid()
      reads this, space, space.cells, (set r | r in registry)`spacePtr
    {
      space.Valid() && space.size == DEFAULT_SPACE_SIZE && space.id < nextId &&
      space.ForwardsBelow(DEFAULT_SPACE_SIZE) &&
      Distinct(registry) &&
      Layout(space.id, space.freeIdx, space.cells[..], PtrsOf(registry)) &&
      space.freeIdx == SumDws(Values(space.cells[..], PtrsOf(registry)))
    }

    /** The registered values, in registry order. */
    ghost function Contents(): (cs: seq<Value>)
      reads this, space, space.cells, (set r | r in registry)`spacePtr
      requires Valid()
      ensures |cs| == |registry| && forall m :: 0 <= m < |cs| ==> RefsBelow(cs[m], DEFAULT_SPACE_SIZE)
    {
      Values(space.cells[..], PtrsOf(registry))
    }

    /** The registered records' `rooted` flags. */
    ghost function Flags(): seq<bool>
      reads this, (set r | r in registry)`rooted
    {
      FlagsOf(registry)
    }

    /** Double words the still-rooted values take. */
    ghost function LiveDws(): nat
      reads this, space, space.cells, (set r | r in registry)`spacePtr, (set r | r in registry)`rooted
      requires Valid()
    {
      SumDws(Kept())
    }

    /** The references of the records still rooted, in registry order. */
    ghost function KeptPtrs(): seq<SpacePtr>
      reads this, (set r | r in registry)`spacePtr, (set r | r in registry)`rooted
    {
      Filter(PtrsOf(registry), Flags())
    }

    /** The registered references all address the current space. */
    lemma PtrsInSpace()
      requires Valid()
      ensures forall a :: 0 <= a < |PtrsOf(registry)| ==> PtrsOf(registry)[a].inner == At(space.id, PtrsOf(registry)[a].bitIdx)
    {
    }

    /** The references of the records still rooted all address the current space. */
    lemma KeptPtrsInSpace()
      requires Valid()
      ensures forall a :: 0 <= a < |KeptPtrs()| ==> KeptPtrs()[a].inner == At(space.id, KeptPtrs()[a].bitIdx)
    {
      var ptrs := PtrsOf(registry);
      forall a | 0 <= a < |KeptPtrs()|
        ensures KeptPtrs()[a].inner == At(space.id, KeptPtrs()[a].bitIdx)
      {
        assert KeptPtrs()[a] in KeptPtrs();
        var i :| 0 <= i < |ptrs| && ptrs[i] == KeptPtrs()[a];
      }
    }

    /** The values of the records still rooted, in registry order: what a collection keeps. */
    ghost function Kept(): (ks: seq<Value>)
      reads this, space, space.cells, (set r | r in registry)`spacePtr, (set r | r in registry)`rooted
      requires Valid()
      ensures forall m :: 0 <= m < |ks| ==> RefsBelow(ks[m], DEFAULT_SPACE_SIZE)
    {
      var cs := Contents();
      assert forall v :: v in cs ==> RefsBelow(v, DEFAULT_SPACE_SIZE);
      Filter(cs, Flags())
    }

    /** `Runtime::new()`: an empty registry over a fresh default-sized space. */
    constructor ()
      ensures Valid() && registry == [] && fresh(space) && fresh(space.cells) && fresh(space.forwardBits.bits)
      ensures space.freeIdx == 0
      ensures forall b :: 0 <= b < space.size ==> !space.forwardBits.Get(b) && !space.markBits.Get(b)
    {
      space := new Space(0, DEFAULT_SPACE_SIZE);
      registry := [];
      nextId := 1;
    }

    /**
     * One pass of the loop in `cons`: `allocate` in the current space and,
     * when the value fits, push a fresh rooted record for the new slot onto
     * the registry and hand out its `Root`.
     */
    method TryCons(v: Value) returns (r: Option<Root>)
      requires Valid() && RefsBelow(v, DEFAULT_SPACE_SIZE)
      modifies this`registry, space`freeIdx, space.cells
      ensures Valid()
      ensures r.Some? <==> old(space.freeIdx) + Dws(v) <= DEFAULT_SPACE_SIZE
      ensures r.None? ==> registry == old(registry) && Contents() == old(Contents())
      ensures r.None? ==> Flags() == old(Flags())
      ensures r.Some? ==> fresh(r.value.rec) && r.value.rec.rooted && registry == old(registry) + [r.value.rec]
      ensures r.Some? ==> Contents() == old(Contents()) + [v] && space.Holds(r.value.rec.spacePtr)
      ensures r.Some? ==> PtrsOf(registry) == old(PtrsOf(registry)) + [r.value.rec.spacePtr]
      ensures space.cells[..] == if r.Some? then old(space.cells[..])[old(space.freeIdx) := Val(v)] else old(space.cells[..])
    {
      ghost var ptrs, cells, free := PtrsOf(registry), space.cells[..], space.freeIdx;
      ghost var cs, fs := Contents(), Flags();
      assert cs == Values(cells, ptrs);
      var p := Place(v, ptrs, cells, free, cs, fs);
      r := Finish(p, ptrs, cells, free, v, cs, fs);
    }

    /**
     * The end of one pass of `cons`, after `allocate` answered `p` for `v`:
     * nothing more when it found no room, otherwise the record is
     * registered. `ptrs`, `cells`, `free` and `cs` describe the runtime
     * before the allocation.
     */
    method Finish(p: Option<SpacePtr>, ghost ptrs: seq<SpacePtr>, ghost cells: seq<Cell>, ghost free: nat,
                  ghost v: Value, ghost cs: seq<Value>, ghost fs: seq<bool>)
      returns (r: Option<Root>)
      requires p.None? ==> Valid() && Contents() == cs && Flags() == fs
      requires p.Some? ==> Allocated(p.value, ptrs, cells, free, v) && cs == Values(cells, ptrs)
      modifies this`registry
      ensures Valid() && (r.Some? <==> p.Some?)
      ensures r.None? ==> registry == old(registry) && Contents() == cs && Flags() == fs
      ensures r.Some? ==> fresh(r.value.rec) && r.value.rec.rooted && registry == old(registry) + [r.value.rec]
      ensures r.Some? ==> Contents() == cs + [v] && space.Holds(r.value.rec.spacePtr)
      ensures r.Some? ==> PtrsOf(registry) == ptrs + [r.value.rec.spacePtr]
      ensures space == old(space) && space.cells[..] == old(space.cells[..])
    {
      if p.None? {
        return None;
      }
      var rec := Register(p.value, ptrs, cells, free, v);
      r := Some(Root(rec));
    }

    /** `allocate` in the current space, seen from the registry: on failure the runtime is as it was. */
    method Place(v: Value, ghost ptrs: seq<SpacePtr>, ghost cells: seq<Cell>, ghost free: nat,
                 ghost cs: seq<Value>, ghost fs: seq<bool>)
      returns (p: Option<SpacePtr>)
      requires Valid() && RefsBelow(v, DEFAULT_SPACE_SIZE)
      requires ptrs == PtrsOf(registry) && cells == space.cells[..] && free == space.freeIdx
      requires cs == Contents() && fs == Flags()
      modifies space`freeIdx, space.cells
      ensures p.Some? <==> free + Dws(v) <= DEFAULT_SPACE_SIZE
      ensures p.None? ==> Valid() && Contents() == cs && Flags() == fs && space.cells[..] == cells
      ensures p.Some? ==> Allocated(p.value, ptrs, cells, free, v)
    {
      p := space.Allocate(v);
      PtrsUnchanged(registry);
      if p.None? {
        FlagsUnchanged(registry);
        ValidAt(ptrs, cells);
      }
    }

    /**
     * The state right after `allocate` placed `v` at `free` for the
     * reference `q`, before the record is registered: the runtime was valid
     * with references `ptrs` over `cells`, and only the new slot changed.
     */
    ghost predicate Allocated(q: SpacePtr, ptrs: seq<SpacePtr>, cells: seq<Cell>, free: nat, v: Value)
      reads this, space, space.cells, (set r | r in registry)`spacePtr
    {
      space.Valid() && space.size == DEFAULT_SPACE_SIZE && space.id < nextId &&
      space.ForwardsBelow(DEFAULT_SPACE_SIZE) &&
      Distinct(registry) &&
      Layout(space.id, free, cells, ptrs) && free == SumDws(Values(cells, ptrs)) &&
      free + Dws(v) <= |cells| && RefsBelow(v, DEFAULT_SPACE_SIZE) &&
      PtrsOf(registry) == ptrs && q == SpacePtr(At(space.id, free), free) &&
      space.cells[..] == cells[free := Val(v)] && space.freeIdx == free + Dws(v)
    }

    /**
     * The rest of one pass of `cons` once `allocate` placed `v` at `free`:
     * a fresh rooted record for the new slot goes last in the registry.
     */
    method Register(p: SpacePtr, ghost ptrs: seq<SpacePtr>, ghost cells: seq<Cell>, ghost free: nat, ghost v: Value)
      returns (rec: Rooted)
      requires Allocated(p, ptrs, cells, free, v)
      modifies this`registry
      ensures fresh(rec) && rec.rooted && rec.spacePtr == p && registry == old(registry) + [rec]
      ensures PtrsOf(registry) == ptrs + [p]
      ensures Valid() && Contents() == Values(cells, ptrs) + [v]
    {
      rec := new Rooted(p);
      Append(rec);
      ValidPushed(ptrs, cells, free, v);
    }

    /** Puts a record that is not registered yet last in the registry. */
    method Append(rec: Rooted)
      requires rec !in registry && Distinct(registry)
      modifies this`registry
      ensures registry == old(registry) + [rec] && PtrsOf(registry) == old(PtrsOf(registry)) + [rec.spacePtr]
      ensures Distinct(registry)
    {
      ghost var regs := registry;
      registry := registry + [rec];
      DistinctExactly(regs);
      DistinctExactly(registry);
      PtrsUnchanged(regs);
      PtrsOfSnoc(regs, rec);
    }

    /** `Valid` and `Contents` after one value was placed at `free` and registered last. */
    lemma ValidPushed(ptrs: seq<SpacePtr>, cells: seq<Cell>, free: nat, v: Value)
      requires space.Valid() && space.size == DEFAULT_SPACE_SIZE && space.id < nextId
      requires space.ForwardsBelow(DEFAULT_SPACE_SIZE)
      requires Distinct(registry)
      requires Layout(space.id, free, cells, ptrs) && free == SumDws(Values(cells, ptrs))
      requires free + Dws(v) <= |cells| && RefsBelow(v, DEFAULT_SPACE_SIZE)
      requires PtrsOf(registry) == ptrs + [SpacePtr(At(space.id, free), free)]
      requires space.cells[..] == cells[free := Val(v)] && space.freeIdx == free + Dws(v)
      ensures Valid() && Contents() == Values(cells, ptrs) + [v]
    {
      LayoutSnoc(space.id, free, cells, ptrs, v);
      SumDwsSnoc(Values(cells, ptrs), v);
      ValidAt(ptrs + [SpacePtr(At(space.id, free), free)], cells[free := Val(v)]);
    }

    /** `Valid` and `Contents` read off a known arrangement of the space. */
    lemma ValidAt(ptrs: seq<SpacePtr>, cells: seq<Cell>)
      requires space.Valid() && space.size == DEFAULT_SPACE_SIZE && space.id < nextId
      requires space.ForwardsBelow(DEFAULT_SPACE_SIZE)
      requires Distinct(registry)
      requires PtrsOf(registry) == ptrs && space.cells[..] == cells
      requires Layout(space.id, space.freeIdx, cells, ptrs) && space.freeIdx == SumDws(Values(cells, ptrs))
      ensures Valid() && Contents() == Values(cells, ptrs)
    {
    }

    /**
     * `cons(t)`: allocates `v` in the current space, collecting once first
     * when it does not fit, and registers a fresh rooted record for it. The
     * source retries forever when `v` does not fit even after a collection;
     * the second precondition excludes that case.
     */
    method Cons(v: Value) returns (root: Root)
      requires Valid() && RefsBelow(v, DEFAULT_SPACE_SIZE)
      requires LiveDws() + Dws(v) <= DEFAULT_SPACE_SIZE
      modifies this, space`freeIdx, space.cells, space.forwardBits.bits, (set r | r in registry)`spacePtr
      ensures Valid() && fresh(root.rec) && root.rec.rooted && space.Holds(root.rec.spacePtr)
      ensures unchanged(old(space).forwardBits.bits)
      ensures old(space.freeIdx) + Dws(v) <= DEFAULT_SPACE_SIZE ==>
        space == old(space) && registry == old(registry) + [root.rec] && Contents() == old(Contents()) + [v] &&
        PtrsOf(registry) == old(PtrsOf(registry)) + [root.rec.spacePtr] &&
        space.cells[..] == old(space.cells[..])[old(space.freeIdx) := Val(v)]
      ensures old(space.freeIdx) + Dws(v) > DEFAULT_SPACE_SIZE ==>
        fresh(space) && fresh(space.cells) && fresh(space.forwardBits.bits) &&
        registry == Filter(old(registry), old(Flags())) + [root.rec] &&
        Contents() == ResolvedAll(old(space), false, old(Kept())) + [v] &&
        space.forwardBits.Bits() == BitsAt(DEFAULT_SPACE_SIZE, old(KeptPtrs())) && space.MarksClear()
    {
      ghost var regs, cs, fs, kept, sp := registry, Contents(), Flags(), Kept(), space;
      ghost var kp := KeptPtrs();
      ghost var fits := space.freeIdx + Dws(v) <= DEFAULT_SPACE_SIZE;
      assert |cs| == |fs| && kept == Filter(cs, fs);
      var r := TryCons(v);
      root := Settle(v, r, regs, cs, fs, kept, kp, sp, fits);
    }

    /**
     * The loop of `cons` once its first pass answered `first`: the record
     * that pass registered, or else the outcome of `GcLoop`. `regs`, `cs`,
     * `fs`, `kept`, `kp` and `sp` describe the runtime before the first
     * pass, and `fits` tells whether that pass found room.
     */
    method Settle(v: Value, first: Option<Root>, ghost regs: seq<Rooted>, ghost cs: seq<Value>, ghost fs: seq<bool>,
                  ghost kept: seq<Value>, ghost kp: seq<SpacePtr>, ghost sp: Space, ghost fits: bool)
      returns (root: Root)
      requires Valid() && space == sp && RefsBelow(v, DEFAULT_SPACE_SIZE) && (first.None? <==> !fits)
      requires |cs| == |fs| && kept == Filter(cs, fs) && SumDws(kept) + Dws(v) <= DEFAULT_SPACE_SIZE
      requires forall m :: 0 <= m < |kept| ==> RefsBelow(kept[m], DEFAULT_SPACE_SIZE)
      requires first.None? ==> registry == regs && Contents() == cs && Flags() == fs && KeptPtrs() == kp
      requires first.Some? ==>
        first.value.rec.rooted && space.Holds(first.value.rec.spacePtr) &&
        registry == regs + [first.value.rec] && Contents() == cs + [v]
      modifies this, space`freeIdx, space.cells, space.forwardBits.bits, (set r | r in registry)`spacePtr
      ensures Valid() && root.rec.rooted && space.Holds(root.rec.spacePtr) && unchanged(sp.forwardBits.bits)
      ensures fits ==> root == first.value && space == sp && registry == regs + [root.rec] && Contents() == cs + [v]
      ensures fits ==> PtrsOf(registry) == old(PtrsOf(registry)) && space.cells[..] == old(space.cells[..])
      ensures !fits ==>
        fresh(root.rec) && fresh(space) && fresh(space.cells) && fresh(space.forwardBits.bits) &&
        registry == Filter(regs, fs) + [root.rec] &&
        Contents() == ResolvedAll(sp, false, kept) + [v] &&
        space.forwardBits.Bits() == BitsAt(DEFAULT_SPACE_SIZE, kp) && space.MarksClear()
    {
      if first.Some? {
        root := first.value;
      } else {
        root := GcLoop(v, regs, cs, fs, kept, kp, sp);
      }
    }

    /**
     * The loop of `cons` once its first pass found no room: `gc()` runs and
     * the pass is repeated until a record is registered. `regs`, `cs`, `fs`,
     * `kept`, `kp` and `sp` describe the runtime before the first pass,
     * which left it as it was.
     */
    method GcLoop(v: Value, ghost regs: seq<Rooted>, ghost cs: seq<Value>, ghost fs: seq<bool>,
                  ghost kept: seq<Value>, ghost kp: seq<SpacePtr>, ghost sp: Space)
      returns (root: Root)
      requires Valid() && space == sp && RefsBelow(v, DEFAULT_SPACE_SIZE)
      requires registry == regs && Contents() == cs && Flags() == fs && KeptPtrs() == kp
      requires |cs| == |fs| && kept == Filter(cs, fs) && SumDws(kept) + Dws(v) <= DEFAULT_SPACE_SIZE
      requires forall m :: 0 <= m < |kept| ==> RefsBelow(kept[m], DEFAULT_SPACE_SIZE)
      modifies this, space`freeIdx, space.cells, space.forwardBits.bits, (set r | r in registry)`spacePtr
      ensures Valid() && root.rec.rooted && space.Holds(root.rec.spacePtr) && unchanged(sp.forwardBits.bits)
      ensures fresh(root.rec) && fresh(space) && fresh(space.cells) && fresh(space.forwardBits.bits)
      ensures registry == Filter(regs, fs) + [root.rec]
      ensures Contents() == ResolvedAll(sp, false, kept) + [v]
      ensures space.forwardBits.Bits() == BitsAt(DEFAULT_SPACE_SIZE, kp) && space.MarksClear()
    {
      var r: Option<Root> := None;
      while r.None?
        invariant Valid() && unchanged(sp.forwardBits.bits)
        invariant r.None? ==> registry == regs && space == sp && Contents() == cs && Flags() == fs && KeptPtrs() == kp
        invariant r.Some? ==>
          r.value.rec.rooted && space.Holds(r.value.rec.spacePtr) &&
          fresh(r.value.rec) && fresh(space) && fresh(space.cells) && fresh(space.forwardBits.bits) &&
          registry == Filter(regs, fs) + [r.value.rec] &&
          Contents() == ResolvedAll(sp, false, kept) + [v] &&
          space.forwardBits.Bits() == BitsAt(DEFAULT_SPACE_SIZE, kp) && space.MarksClear()
        decreases if r.None? then 1 else 0
      {
        r := CollectAndRetry(v, regs, cs, fs, kept, kp, sp);
      }
      root := r.value;
    }

    /**
     * A failed pass of the loop in `cons` is followed by `gc()` and another
     * pass, which succeeds when the value fits beside the rooted ones.
     */
    method CollectAndRetry(v: Value, ghost regs: seq<Rooted>, ghost cs: seq<Value>, ghost fs: seq<bool>,
                           ghost kept: seq<Value>, ghost kp: seq<SpacePtr>, ghost sp: Space)
      returns (r: Option<Root>)
      requires Valid() && registry == regs && space == sp && Contents() == cs && Flags() == fs && KeptPtrs() == kp
      requires |cs| == |fs| && kept == Filter(cs, fs) && forall m :: 0 <= m < |kept| ==> RefsBelow(kept[m], DEFAULT_SPACE_SIZE)
      requires RefsBelow(v, DEFAULT_SPACE_SIZE) && SumDws(kept) + Dws(v) <= DEFAULT_SPACE_SIZE
      modifies this, space`freeIdx, space.cells, space.forwardBits.bits, (set r | r in registry)`spacePtr
      ensures Valid() && unchanged(sp.forwardBits.bits)
      ensures r.Some? && fresh(r.value.rec) && r.value.rec.rooted && space.Holds(r.value.rec.spacePtr)
      ensures fresh(space) && fresh(space.cells) && fresh(space.forwardBits.bits) && registry == Filter(regs, fs) + [r.value.rec]
      ensures Contents() == ResolvedAll(sp, false, kept) + [v]
      ensures space.forwardBits.Bits() == BitsAt(DEFAULT_SPACE_SIZE, kp) && space.MarksClear()
    {
      assert Kept() == kept;
      CollectFrom(regs, cs, fs, kept, kp, sp);
      r := Retry(v, kept, sp);
    }

    /**
     * The pass of `cons` that follows `gc()`, where `v` now fits: `sp` is
     * the space the collection evacuated and `kept` the values it kept.
     */
    method Retry(v: Value, ghost kept: seq<Value>, ghost sp: Space) returns (r: Option<Root>)
      requires Valid() && RefsBelow(v, DEFAULT_SPACE_SIZE) && space.freeIdx + Dws(v) <= DEFAULT_SPACE_SIZE
      requires sp.WellFormed() && sp.cells != space.cells
      requires forall m :: 0 <= m < |kept| ==> RefsBelow(kept[m], sp.size)
      requires Contents() == ResolvedAll(sp, false, kept)
      modifies this`registry, space`freeIdx, space.cells
      ensures Valid() && r.Some? && fresh(r.value.rec) && r.value.rec.rooted && space.Holds(r.value.rec.spacePtr)
      ensures registry == old(registry) + [r.value.rec]
      ensures Contents() == ResolvedAll(sp, false, kept) + [v]
    {
      label Before:
      r := TryCons(v);
      assert unchanged@Before(sp.cells, sp.forwardBits.bits);
    }

    /**
     * `gc()` as `cons` runs it, with the registry, its contents, its flags
     * and the space before the collection named `regs`, `cs`, `fs` and `sp`.
     */
    method CollectFrom(ghost regs: seq<Rooted>, ghost cs: seq<Value>, ghost fs: seq<bool>,
                       ghost kept: seq<Value>, ghost kp: seq<SpacePtr>, ghost sp: Space)
      requires Valid() && registry == regs && space == sp && Contents() == cs && Flags() == fs && Kept() == kept
      requires KeptPtrs() == kp
      modifies this, space.cells, space.forwardBits.bits, (set r | r in registry)`spacePtr
      ensures Valid() && unchanged(sp.forwardBits.bits) && fresh(space) && fresh(space.cells) && fresh(space.forwardBits.bits)
      ensures registry == Filter(regs, fs) && space.freeIdx == SumDws(kept)
      ensures Contents() == ResolvedAll(sp, false, kept)
      ensures space.forwardBits.Bits() == BitsAt(DEFAULT_SPACE_SIZE, kp) && space.MarksClear()
    {
      Gc();
    }

    /**
     * The first loop of `gc`: a fresh default-sized space is created, and
     * every record still rooted is relocated into it, in registry order, and
     * collected as a survivor. `realloc_to` sets the forward bit in the new
     * space, as written, so the new space ends with its forward bits set
     * exactly at the survivors' old bit indices; with `fixed` the bit is set
     * in the space being evacuated instead and the new space's forward bits
     * stay clear. The new space's mark bits are clear either way.
     */
    method Relocate(fixed: bool) returns (newSpace: Space, survivors: seq<Rooted>, ghost newPtrs: seq<SpacePtr>)
      requires Valid()
      modifies space.cells, space.forwardBits.bits, (set r | r in registry)`spacePtr
      ensures fresh(newSpace) && fresh(newSpace.cells) && fresh(newSpace.forwardBits.bits)
      ensures newSpace.Valid() && newSpace.size == DEFAULT_SPACE_SIZE && newSpace.id == old(nextId)
      ensures old(space).ForwardsBelow(DEFAULT_SPACE_SIZE) && newSpace.ForwardsBelow(DEFAULT_SPACE_SIZE)
      ensures survivors == Filter(old(registry), old(Flags()))
      ensures Distinct(survivors)
      ensures newPtrs == PtrsOf(survivors)
      ensures Layout(newSpace.id, newSpace.freeIdx, newSpace.cells[..], newPtrs)
      ensures Values(newSpace.cells[..], newPtrs) == old(Kept())
      ensures newSpace.freeIdx == SumDws(old(Kept()))
      ensures !fixed ==> unchanged(old(space).forwardBits.bits)
      ensures Forwarding(old(space).cells[..], old(space).forwardBits.Bits(),
                         old(KeptPtrs()), newPtrs, fixed)
      ensures !fixed ==> newSpace.forwardBits.Bits() == BitsAt(DEFAULT_SPACE_SIZE, old(KeptPtrs()))
      ensures fixed ==> newSpace.ForwardsClear()
      ensures newSpace.MarksClear()
    {
      var reg, from := registry, space;
      ghost var ptrs, vals, flags := PtrsOf(reg), Contents(), Flags();
      assert Kept() == Filter(vals, flags);
      ValidSnapshot();
      newSpace := new Space(nextId, DEFAULT_SPACE_SIZE);
      StartMoving(reg, from, newSpace, ptrs, vals, flags, fixed);
      ghost var cur, kept, oldPtrs;
      survivors, newPtrs, cur, kept, oldPtrs := MoveRooted(reg, from, newSpace, fixed, ptrs, vals, flags);
      MovedAll(reg, from, newSpace, ptrs, vals, flags, cur, newPtrs, kept, survivors, oldPtrs, fixed);
      if fixed {
        NoBitsClear(newSpace);
      }
    }

    /** A valid runtime's registry, read in registry order, is a snapshot `MoveRooted` can walk. */
    lemma ValidSnapshot()
      requires Valid()
      ensures Snapshot(registry, space, PtrsOf(registry), Contents(), Flags())
    {
      var ptrs := PtrsOf(registry);
      forall j, k | 0 <= j < k < |ptrs|
        ensures Below(ptrs, j, k)
      {
        assert Apart(space.cells[..], ptrs, j, k);
      }
      DistinctExactly(registry);
    }

    /** Before any record is moved, `MoveRooted`'s loop state holds. */
    static lemma StartMoving(reg: seq<Rooted>, from: Space, to: Space,
                             ptrs: seq<SpacePtr>, vals: seq<Value>, flags: seq<bool>, fixed: bool)
      requires Snapshot(reg, from, ptrs, vals, flags) && from.ForwardsBelow(DEFAULT_SPACE_SIZE)
      requires forall j :: 0 <= j < |reg| ==> reg[j].spacePtr == ptrs[j]
      requires Stored(from.cells[..], ptrs) && vals == Values(from.cells[..], ptrs)
      requires to.Valid() && to.size == DEFAULT_SPACE_SIZE && to.freeIdx == 0
      requires to.id != from.id && to.cells != from.cells
      requires to.forwardBits.bits != from.forwardBits.bits
      requires to.ForwardsBelow(DEFAULT_SPACE_SIZE)
      requires forall j :: 0 <= j < to.size ==> !to.forwardBits.Get(j)
      ensures Moving(reg, from, to, ptrs, vals, flags, 0, ptrs, [], [], [], fixed)
      ensures DestinationBits(to, [], fixed)
    {
      assert ptrs[..0] == [] && flags[..0] == [] && vals[..0] == [];
      forall j | 0 <= j < DEFAULT_SPACE_SIZE
        ensures to.forwardBits.Bits()[j] == BitsAt(DEFAULT_SPACE_SIZE, [])[j]
      {
        assert !to.forwardBits.Get(j);
      }
    }

    /**
     * The loop of `Relocate`, over a snapshot of the registry: `ptrs`, `vals`
     * and `flags` are the records' references, values and flags on entry.
     */
    static method MoveRooted(reg: seq<Rooted>, from: Space, to: Space, fixed: bool,
                             ghost ptrs: seq<SpacePtr>, ghost vals: seq<Value>, ghost flags: seq<bool>)
      returns (survivors: seq<Rooted>, ghost newPtrs: seq<SpacePtr>,
               ghost cur: seq<SpacePtr>, ghost kept: seq<Value>, ghost oldPtrs: seq<SpacePtr>)
      requires Snapshot(reg, from, ptrs, vals, flags)
      requires Moving(reg, from, to, ptrs, vals, flags, 0, ptrs, [], [], [], fixed)
      requires forall j :: 0 <= j < |reg| ==> reg[j].rooted == flags[j]
      requires DestinationBits(to, [], fixed) && to.markBits.bits != from.forwardBits.bits
      modifies from.cells, from.forwardBits.bits, (set r | r in reg)`spacePtr
      modifies to`freeIdx, to.cells, to.forwardBits.bits
      ensures Moving(reg, from, to, ptrs, vals, flags, |reg|, cur, newPtrs, kept, oldPtrs, fixed)
      ensures survivors == Filter(reg[..|reg|], flags[..|reg|])
      ensures !fixed ==> unchanged(from.forwardBits.bits)
      ensures DestinationBits(to, oldPtrs, fixed) && unchanged(to.markBits.bits)
    {
      survivors, newPtrs, cur, kept, oldPtrs := MoveEach(reg, from, to, fixed, ptrs, vals, flags);
    }

    /** The loop itself; `MoveRooted` adds that the destination's mark bits are left alone. */
    static method MoveEach(reg: seq<Rooted>, from: Space, to: Space, fixed: bool,
                           ghost ptrs: seq<SpacePtr>, ghost vals: seq<Value>, ghost flags: seq<bool>)
      returns (survivors: seq<Rooted>, ghost newPtrs: seq<SpacePtr>,
               ghost cur: seq<SpacePtr>, ghost kept: seq<Value>, ghost oldPtrs: seq<SpacePtr>)
      requires Snapshot(reg, from, ptrs, vals, flags)
      requires Moving(reg, from, to, ptrs, vals, flags, 0, ptrs, [], [], [], fixed)
      requires forall j :: 0 <= j < |reg| ==> reg[j].rooted == flags[j]
      requires DestinationBits(to, [], fixed)
      modifies from.cells, from.forwardBits.bits, (set r | r in reg)`spacePtr
      modifies to`freeIdx, to.cells, to.forwardBits.bits
      ensures Moving(reg, from, to, ptrs, vals, flags, |reg|, cur, newPtrs, kept, oldPtrs, fixed)
      ensures survivors == Filter(reg[..|reg|], flags[..|reg|])
      ensures !fixed ==> unchanged(from.forwardBits.bits)
      ensures DestinationBits(to, oldPtrs, fixed)
    {
      survivors, newPtrs := [], [];
      cur, kept, oldPtrs := ptrs, [], [];
      assert reg[..0] == [] && ptrs[..0] == [] && flags[..0] == [];
      for i := 0 to |reg|
        invariant Moving(reg, from, to, ptrs, vals, flags, i, cur, newPtrs, kept, oldPtrs, fixed)
        invariant survivors == Filter(reg[..i], flags[..i])
        invariant !fixed ==> unchanged(from.forwardBits.bits)
        invariant DestinationBits(to, oldPtrs, fixed)
      {
        survivors, cur, newPtrs, kept, oldPtrs :=
          MoveStep(reg, from, to, fixed, ptrs, vals, flags, i, survivors, cur, newPtrs, kept, oldPtrs);
      }
    }

    /** One iteration of `Relocate`'s loop: record `i` is relocated when it is still rooted. */
    static method MoveStep(reg: seq<Rooted>, from: Space, to: Space, fixed: bool,
                           ghost ptrs: seq<SpacePtr>, ghost vals: seq<Value>, ghost flags: seq<bool>, i: nat,
                           survivors: seq<Rooted>, ghost cur: seq<SpacePtr>, ghost newPtrs: seq<SpacePtr>,
                           ghost kept: seq<Value>, ghost oldPtrs: seq<SpacePtr>)
      returns (nextSurvivors: seq<Rooted>, ghost nextCur: seq<SpacePtr>, ghost nextPtrs: seq<SpacePtr>,
               ghost nextKept: seq<Value>, ghost nextOld: seq<SpacePtr>)
      requires Snapshot(reg, from, ptrs, vals, flags) && i < |reg| && reg[i].rooted == flags[i]
      requires Moving(reg, from, to, ptrs, vals, flags, i, cur, newPtrs, kept, oldPtrs, fixed)
      requires survivors == Filter(reg[..i], flags[..i]) && DestinationBits(to, oldPtrs, fixed)
      modifies from.cells, from.forwardBits.bits, (reg[i] as Rooted)`spacePtr
      modifies to`freeIdx, to.cells, to.forwardBits.bits
      ensures Moving(reg, from, to, ptrs, vals, flags, i + 1, nextCur, nextPtrs, nextKept, nextOld, fixed)
      ensures nextSurvivors == Filter(reg[..i + 1], flags[..i + 1])
      ensures !fixed ==> unchanged(from.forwardBits.bits)
      ensures DestinationBits(to, nextOld, fixed)
    {
      if reg[i].rooted {
        nextSurvivors, nextCur, nextPtrs, nextKept, nextOld :=
          MoveOne(reg, from, to, fixed, ptrs, vals, flags, i, survivors, cur, newPtrs, kept, oldPtrs);
      } else {
        FilterStep(reg, flags, i, survivors);
        TrailSkip(ptrs, vals, flags, i, cur, newPtrs, kept, oldPtrs, fixed,
                  to.id, to.freeIdx, to.cells[..], from.cells[..], from.forwardBits.Bits());
        nextSurvivors, nextCur, nextPtrs, nextKept, nextOld := survivors, cur, newPtrs, kept, oldPtrs;
      }
    }

    /** A rooted record `i` is relocated and appended to the survivors. */
    static method MoveOne(reg: seq<Rooted>, from: Space, to: Space, fixed: bool,
                          ghost ptrs: seq<SpacePtr>, ghost vals: seq<Value>, ghost flags: seq<bool>, i: nat,
                          survivors: seq<Rooted>, ghost cur: seq<SpacePtr>, ghost newPtrs: seq<SpacePtr>,
                          ghost kept: seq<Value>, ghost oldPtrs: seq<SpacePtr>)
      returns (nextSurvivors: seq<Rooted>, ghost nextCur: seq<SpacePtr>, ghost nextPtrs: seq<SpacePtr>,
               ghost nextKept: seq<Value>, ghost nextOld: seq<SpacePtr>)
      requires Snapshot(reg, from, ptrs, vals, flags) && i < |reg| && flags[i]
      requires Moving(reg, from, to, ptrs, vals, flags, i, cur, newPtrs, kept, oldPtrs, fixed)
      requires survivors == Filter(reg[..i], flags[..i]) && DestinationBits(to, oldPtrs, fixed)
      modifies from.cells, from.forwardBits.bits, (reg[i] as Rooted)`spacePtr
      modifies to`freeIdx, to.cells, to.forwardBits.bits
      ensures Moving(reg, from, to, ptrs, vals, flags, i + 1, nextCur, nextPtrs, nextKept, nextOld, fixed)
      ensures nextSurvivors == Filter(reg[..i + 1], flags[..i + 1])
      ensures !fixed ==> unchanged(from.forwardBits.bits)
      ensures DestinationBits(to, nextOld, fixed)
    {
      nextSurvivors, nextCur, nextPtrs, nextKept, nextOld :=
        Relocated(reg, from, to, fixed, ptrs, vals, flags, i, survivors, cur, newPtrs, kept, oldPtrs);
      if !fixed {
        BitsAtSnoc(DEFAULT_SPACE_SIZE, oldPtrs, ptrs[i]);
      }
    }

    /**
     * `MoveOne` without the forward bits of `to`: the record is relocated,
     * and `to`'s forward bits change as `Evacuate` says.
     */
    static method Relocated(reg: seq<Rooted>, from: Space, to: Space, fixed: bool,
                          ghost ptrs: seq<SpacePtr>, ghost vals: seq<Value>, ghost flags: seq<bool>, i: nat,
                          survivors: seq<Rooted>, ghost cur: seq<SpacePtr>, ghost newPtrs: seq<SpacePtr>,
                          ghost kept: seq<Value>, ghost oldPtrs: seq<SpacePtr>)
      returns (nextSurvivors: seq<Rooted>, ghost nextCur: seq<SpacePtr>, ghost nextPtrs: seq<SpacePtr>,
               ghost nextKept: seq<Value>, ghost nextOld: seq<SpacePtr>)
      requires Snapshot(reg, from, ptrs, vals, flags) && i < |reg| && flags[i]
      requires Moving(reg, from, to, ptrs, vals, flags, i, cur, newPtrs, kept, oldPtrs, fixed)
      requires survivors == Filter(reg[..i], flags[..i])
      modifies from.cells, from.forwardBits.bits, (reg[i] as Rooted)`spacePtr
      modifies to`freeIdx, to.cells, to.forwardBits.bits
      ensures Moving(reg, from, to, ptrs, vals, flags, i + 1, nextCur, nextPtrs, nextKept, nextOld, fixed)
      ensures nextSurvivors == Filter(reg[..i + 1], flags[..i + 1])
      ensures !fixed ==> unchanged(from.forwardBits.bits)
      ensures nextOld == oldPtrs + [ptrs[i]]
      ensures to.forwardBits.Bits() ==
        if fixed then old(to.forwardBits.Bits()) else old(to.forwardBits.Bits())[ptrs[i].bitIdx := true]
    {
      FilterStep(reg, flags, i, survivors);
      ghost var free, toCells, fromCells, bits := to.freeIdx, to.cells[..], from.cells[..], from.forwardBits.Bits();
      TrailRoom(ptrs, vals, flags, i, cur, newPtrs, kept, oldPtrs, fixed, to.id, free, toCells, fromCells, bits);
      Evacuate(reg, i, from, to, fixed, vals[i], cur);
      ghost var q := SpacePtr(At(to.id, free), free);
      TrailStep(ptrs, vals, flags, i, cur, newPtrs, kept, oldPtrs, fixed, to.id, free, toCells, fromCells, bits,
                q, to.freeIdx, to.cells[..], from.cells[..], from.forwardBits.Bits());
      nextSurvivors := survivors + [reg[i]];
      nextCur := cur[i := q];
      nextPtrs := newPtrs + [q];
      nextKept := kept + [vals[i]];
      nextOld := oldPtrs + [ptrs[i]];
    }

    /**
     * `Space::realloc` on record `i` of the snapshot `reg`: relocates it with
     * `realloc_to` as written, or with the forward bit set in `from` when
     * `fixed`; `v` is the value the record refers to and `cur` the references
     * the records hold, of which only record `i`'s changes. It sits here
     * rather than in `Spaces` because `Rooted` is declared in `Ptrs`, which
     * imports `Spaces`.
     */
    static method Evacuate(reg: seq<Rooted>, i: nat, from: Space, to: Space, fixed: bool,
                           ghost v: Value, ghost cur: seq<SpacePtr>)
      requires i < |reg| && Distinct(reg)
      requires |cur| == |reg| && forall j :: 0 <= j < |reg| ==> reg[j].spacePtr == cur[j]
      requires from.WellFormed() && to.Valid() && from.cells != to.cells
      requires from.forwardBits.bits != to.forwardBits.bits
      requires reg[i].spacePtr.inner == At(from.id, reg[i].spacePtr.bitIdx) && reg[i].spacePtr.bitIdx < from.size
      requires from.cells[reg[i].spacePtr.bitIdx] == Val(v)
      requires to.freeIdx + Dws(v) <= to.size && to.size == from.size
      requires from.ForwardsBelow(to.size) && to.ForwardsBelow(to.size)
      modifies (reg[i] as Rooted)`spacePtr, from.cells, from.forwardBits.bits
      modifies to`freeIdx, to.cells, to.forwardBits.bits
      ensures to.Valid() && from.ForwardsBelow(to.size) && to.ForwardsBelow(to.size)
      ensures reg[i].spacePtr == SpacePtr(At(to.id, old(to.freeIdx)), old(to.freeIdx))
      ensures forall j :: 0 <= j < |reg| ==> reg[j].spacePtr == cur[i := reg[i].spacePtr][j]
      ensures to.freeIdx == old(to.freeIdx) + Dws(v)
      ensures to.cells[..] == old(to.cells[..])[old(to.freeIdx) := Val(v)]
      ensures from.cells[..] == old(from.cells[..])[cur[i].bitIdx := Fwd(reg[i].spacePtr.inner)]
      ensures from.forwardBits.Bits() ==
        if fixed then old(from.forwardBits.Bits())[cur[i].bitIdx := true] else old(from.forwardBits.Bits())
      ensures !fixed ==> unchanged(from.forwardBits.bits)
      ensures to.forwardBits.Bits() ==
        if fixed then old(to.forwardBits.Bits()) else old(to.forwardBits.Bits())[cur[i].bitIdx := true]
    {
      DistinctOthers(reg, i);
      if fixed {
        reg[i].ReallocToFixed(from, to);
      } else {
        reg[i].ReallocTo(from, to);
      }
    }

    /**
     * The second loop of `gc`: every reference field of every survivor's
     * value (in `to`) is passed through `forward` of the space evacuated,
     * `from`, and the rewritten reference is stored back into the value.
     * With `fixed`, the forwarding also rewrites the bit index.
     */
    static method ResolveSubfields(from: Space, to: Space, survivors: seq<Rooted>, ghost newPtrs: seq<SpacePtr>, fixed: bool)
      requires from.WellFormed() && from.size == DEFAULT_SPACE_SIZE
      requires to.Valid() && to.cells != from.cells
      requires fixed ==> from.ForwardsBelow(DEFAULT_SPACE_SIZE)
      requires |newPtrs| == |survivors| && forall a :: 0 <= a < |survivors| ==> survivors[a].spacePtr == newPtrs[a]
      requires Layout(to.id, to.freeIdx, to.cells[..], newPtrs) && to.ForwardsBelow(DEFAULT_SPACE_SIZE)
      modifies to.cells
      ensures to.Valid() && forall a :: 0 <= a < |survivors| ==> survivors[a].spacePtr == newPtrs[a]
      ensures Layout(to.id, to.freeIdx, to.cells[..], newPtrs) && to.ForwardsBelow(DEFAULT_SPACE_SIZE)
      ensures Values(to.cells[..], newPtrs) == ResolvedAll(from, fixed, old(Values(to.cells[..], newPtrs)))
    {
      ghost var moved := Values(to.cells[..], newPtrs);
      ghost var target := ResolvedAll(from, fixed, moved);
      for k := 0 to |survivors|
        invariant Resolving(to.id, to.freeIdx, to.cells[..], newPtrs, moved, target, k)
        invariant to.ForwardsBelow(DEFAULT_SPACE_SIZE)
        invariant forall m :: 0 <= m < |target| ==> target[m] == ResolvedBy(from, fixed, moved[m])
      {
        ResolveOne(from, to, survivors, newPtrs, fixed, moved, target, k);
      }
      assert target[..|survivors|] + moved[|survivors|..] == target;
    }

    /** One iteration of the second loop: survivor `k`'s value gets its fields forwarded. */
    static method ResolveOne(from: Space, to: Space, survivors: seq<Rooted>, ghost newPtrs: seq<SpacePtr>, fixed: bool,
                             ghost moved: seq<Value>, ghost target: seq<Value>, k: nat)
      requires from.WellFormed() && from.size == DEFAULT_SPACE_SIZE
      requires to.Valid() && to.cells != from.cells
      requires |newPtrs| == |survivors| && forall a :: 0 <= a < |survivors| ==> survivors[a].spacePtr == newPtrs[a]
      requires k < |survivors| && Resolving(to.id, to.freeIdx, to.cells[..], newPtrs, moved, target, k)
      requires to.ForwardsBelow(DEFAULT_SPACE_SIZE)
      requires target[k] == ResolvedBy(from, fixed, moved[k])
      modifies to.cells
      ensures Resolving(to.id, to.freeIdx, to.cells[..], newPtrs, moved, target, k + 1)
      ensures to.ForwardsBelow(DEFAULT_SPACE_SIZE)
    {
      var p := survivors[k].spacePtr;
      ResolvingStep(to.id, to.freeIdx, to.cells[..], newPtrs, moved, target, k);
      var w := ForwardedValue(from, to, p, fixed);
      to.cells[p.bitIdx] := Val(w);
    }

    /**
     * The value `p` refers to in `to`, with each of its reference fields
     * passed through `forward` of `from` by the `trace` callback.
     */
    static method ForwardedValue(from: Space, to: Space, p: SpacePtr, fixed: bool) returns (w: Value)
      requires from.WellFormed() && to.Holds(p) && p.bitIdx == p.inner.offset
      requires RefsBelow(to.Borrow(p), from.size)
      ensures w == ResolvedBy(from, fixed, to.Borrow(p))
    {
      var v := to.Borrow(p);
      var resolved := ForwardFields(from, to.SubfieldsOf(p), fixed);
      w := WithFields(v, resolved);
      if fixed {
        ShapeAndFieldsDetermine(w, ResolvedFixed(from, v));
      } else {
        ShapeAndFieldsDetermine(w, Resolved(from, v));
      }
    }

    /**
     * The `trace` callback of the second loop: `forward` applied through
     * `from` to each reference field in turn, the rewritten references
     * collected in order.
     */
    static method ForwardFields(from: Space, subs: seq<SpacePtr>, fixed: bool) returns (resolved: seq<SpacePtr>)
      requires from.WellFormed() && forall f :: f in subs ==> f.bitIdx < from.size
      ensures resolved == if fixed then from.ForwardAllFixed(subs) else from.ForwardAll(subs)
    {
      resolved := [];
      for t := 0 to |subs|
        invariant |resolved| == t
        invariant forall u :: 0 <= u < t ==>
          resolved[u] == if fixed then from.ForwardedFixed(subs[u]) else from.Forwarded(subs[u])
      {
        var q;
        if fixed {
          q := from.ForwardFixed(subs[t]);
        } else {
          q := from.Forward(subs[t]);
        }
        resolved := resolved + [q];
      }
    }

    /**
     * The body of `gc`: relocates every rooted record into a fresh space, in
     * registry order, then passes every reference field of every survivor
     * through `forward` of the space evacuated, and finally replaces the
     * registry and the space. `fixed` selects the corrected forwarding. As
     * written, the new current space is left with forward bits set at the
     * survivors' old bit indices, which the next collection reads.
     */
    method Collect(fixed: bool)
      requires Valid()
      modifies this, space.cells, space.forwardBits.bits, (set r | r in registry)`spacePtr
      ensures Valid() && fresh(space) && fresh(space.cells) && fresh(space.forwardBits.bits)
      ensures registry == Filter(old(registry), old(Flags()))
      ensures space.freeIdx == old(LiveDws())
      ensures Contents() == ResolvedAll(old(space), fixed, old(Kept()))
      ensures !fixed ==> unchanged(old(space).forwardBits.bits)
      ensures space.id == old(nextId) && nextId == old(nextId) + 1
      ensures Forwarding(old(space).cells[..], old(space).forwardBits.Bits(),
                         old(KeptPtrs()), PtrsOf(registry), fixed)
      ensures !fixed ==> space.forwardBits.Bits() == BitsAt(DEFAULT_SPACE_SIZE, old(KeptPtrs()))
      ensures space.MarksClear()
    {
      ghost var kept, from := Kept(), space;
      var newSpace, survivors, newPtrs := Copy(fixed);
      ghost var resolved := Values(newSpace.cells[..], newPtrs);
      assert resolved == ResolvedAll(from, fixed, kept);
      ghost var bits := newSpace.forwardBits.Bits();
      Install(survivors, newSpace, newPtrs, resolved, bits, from, fixed, kept);
    }

    /**
     * The two loops of `gc`: the rooted records are copied into a fresh
     * space and their reference fields forwarded; the registry and the
     * space are not replaced yet. As written, the fresh space's forward bits
     * are those of the survivors' old bit indices.
     */
    method Copy(fixed: bool) returns (newSpace: Space, survivors: seq<Rooted>, ghost newPtrs: seq<SpacePtr>)
      requires Valid()
      modifies space.cells, space.forwardBits.bits, (set r | r in registry)`spacePtr
      ensures fresh(newSpace) && fresh(newSpace.cells) && fresh(newSpace.forwardBits.bits)
      ensures newSpace.Valid() && newSpace.size == DEFAULT_SPACE_SIZE && newSpace.id == old(nextId)
      ensures newSpace.ForwardsBelow(DEFAULT_SPACE_SIZE)
      ensures survivors == Filter(old(registry), old(Flags()))
      ensures Distinct(survivors)
      ensures |newPtrs| == |survivors| && forall a :: 0 <= a < |survivors| ==> survivors[a].spacePtr == newPtrs[a]
      ensures Layout(newSpace.id, newSpace.freeIdx, newSpace.cells[..], newPtrs)
      ensures Values(newSpace.cells[..], newPtrs) == ResolvedAll(old(space), fixed, old(Kept()))
      ensures newSpace.freeIdx == SumDws(Values(newSpace.cells[..], newPtrs)) == old(LiveDws())
      ensures !fixed ==> unchanged(old(space).forwardBits.bits)
      ensures Forwarding(old(space).cells[..], old(space).forwardBits.Bits(),
                         old(KeptPtrs()), newPtrs, fixed)
      ensures !fixed ==> newSpace.forwardBits.Bits() == BitsAt(DEFAULT_SPACE_SIZE, old(KeptPtrs()))
      ensures newSpace.MarksClear()
    {
      ghost var kept := Kept();
      var from := space;
      newSpace, survivors, newPtrs := Relocate(fixed);
      ghost var cells, bits := from.cells[..], from.forwardBits.Bits();
      ResolveSubfields(from, newSpace, survivors, newPtrs, fixed);
      assert from.cells[..] == cells && from.forwardBits.Bits() == bits;
      SumDwsSameSizes(kept, Values(newSpace.cells[..], newPtrs));
    }

    /** The end of `gc`: the survivors become the registry and `newSpace` the space. */
    method Install(survivors: seq<Rooted>, newSpace: Space, ghost newPtrs: seq<SpacePtr>, ghost resolved: seq<Value>,
                   ghost bits: seq<bool>, ghost from: Space, ghost fixed: bool, ghost kept: seq<Value>)
      requires newSpace.Valid() && newSpace.size == DEFAULT_SPACE_SIZE && newSpace.id == nextId
      requires newSpace.ForwardsBelow(DEFAULT_SPACE_SIZE)
      requires Distinct(survivors)
      requires |newPtrs| == |survivors| && forall a :: 0 <= a < |survivors| ==> survivors[a].spacePtr == newPtrs[a]
      requires Layout(newSpace.id, newSpace.freeIdx, newSpace.cells[..], newPtrs)
      requires Values(newSpace.cells[..], newPtrs) == resolved && newSpace.freeIdx == SumDws(resolved)
      requires newSpace.forwardBits.Bits() == bits && newSpace.MarksClear()
      requires from.WellFormed() && forall m :: 0 <= m < |kept| ==> RefsBelow(kept[m], from.size)
      modifies this
      ensures registry == survivors && space == newSpace && nextId == old(nextId) + 1
      ensures PtrsOf(registry) == newPtrs
      ensures Valid() && Contents() == resolved
      ensures space.forwardBits.Bits() == bits && space.MarksClear()
      ensures ResolvedAll(from, fixed, kept) == old(ResolvedAll(from, fixed, kept))
    {
      registry := survivors;
      space := newSpace;
      nextId := nextId + 1;
      assert PtrsOf(registry) == newPtrs;
      assert unchanged(from.cells, from.forwardBits.bits);
    }

    /**
     * `gc()` as written: the references are forwarded with the forward bits
     * of the evacuated space, which `realloc_to` never sets there; it sets
     * them in the new space, at the survivors' old bit indices. When the
     * evacuated space had no forward bit set, as for a space fresh from the
     * constructor, every surviving value is kept unchanged. The new space
     * does have bits set, so the next collection forwards through them (see
     * `StaleLinksGoWild`).
     */
    method Gc()
      requires Valid()
      modifies this, space.cells, space.forwardBits.bits, (set r | r in registry)`spacePtr
      ensures Valid() && fresh(space) && fresh(space.cells) && fresh(space.forwardBits.bits)
      ensures space.id == old(nextId) && nextId == old(nextId) + 1
      ensures registry == Filter(old(registry), old(Flags()))
      ensures space.freeIdx == old(LiveDws())
      ensures Contents() == ResolvedAll(old(space), false, old(Kept()))
      ensures unchanged(old(space).forwardBits.bits)
      ensures (forall b :: 0 <= b < DEFAULT_SPACE_SIZE ==> !old(space.forwardBits.bits[b])) ==>
        Contents() == old(Kept())
      ensures space.forwardBits.Bits() == BitsAt(DEFAULT_SPACE_SIZE, old(KeptPtrs()))
      ensures space.MarksClear()
    {
      ghost var kept := Kept();
      ghost var from := space;
      Collect(false);
      if forall b :: 0 <= b < DEFAULT_SPACE_SIZE ==> !from.forwardBits.bits[b] {
        forall m | 0 <= m < |kept|
          ensures Resolved(from, kept[m]) == kept[m]
        {
          NoForwardBitsKeepValue(from, kept[m]);
        }
      }
    }

    /**
     * `gc()` with both corrections: the forward bit is set in the space
     * evacuated and `forward` also rewrites the bit index. Every reference
     * field that named a survivor's old slot now names its new slot.
     */
    method GcFixed()
      requires Valid()
      modifies this, space.cells, space.forwardBits.bits, (set r | r in registry)`spacePtr
      ensures Valid() && fresh(space) && fresh(space.cells) && fresh(space.forwardBits.bits)
      ensures registry == Filter(old(registry), old(Flags()))
      ensures space.freeIdx == old(LiveDws())
      ensures |registry| == |old(Kept())| == |old(KeptPtrs())|
      ensures forall m :: 0 <= m < |registry| ==>
        SameShape(Contents()[m], old(Kept())[m]) && |Fields(Contents()[m])| == |Fields(old(Kept())[m])|
      ensures LinksFollowed(old(Kept()), old(KeptPtrs()), Contents(), PtrsOf(registry))
      ensures space.MarksClear()
    {
      ghost var kept, oldPtrs, from := Kept(), KeptPtrs(), space;
      KeptPtrsInSpace();
      Collect(true);
      PtrsInSpace();
      AllLinksFollow(from, oldPtrs, space.id, PtrsOf(registry), kept, Contents());
    }
  }
}
