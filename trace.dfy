/**
 * The reference protocol: a managed value exposes its outgoing references
 * through one callback-based enumeration, and every other traversal is
 * derived from it.
 */
module Trace {
  import opened Options
  import opened SpacePtrs

  /**
   * The managed values of this model: the `i64` instance of the protocol and
   * the list node used by the runtime tests.
   */
  datatype Value = I64(n: int) | ListObj(next: Option<SpacePtr>, num: int)

  /** `mem::size_of` of each managed type on a 64-bit target. */
  function SizeInBytes(v: Value): (bytes: nat)
    ensures bytes > 0
  {
    match v
    case I64(_) => 8
    case ListObj(_, _) => 32
  }

  /** The references a value directly holds, in field order (the reference definition). */
  function Fields(v: Value): seq<SpacePtr> {
    match v
    case I64(_) => []
    case ListObj(None, _) => []
    case ListObj(Some(p), _) => [p]
  }

  /**
   * `trace_with`: the callback is invoked once on every reference field, in
   * field order. The callback is `FnMut`, so it is modelled as a transformer
   * of the state it closes over.
   */
  function TraceWith<S>(v: Value, tracer: (S, SpacePtr) -> S, s: S): S {
    match v
    case I64(_) => s
    case ListObj(next, _) =>
      match next
      case Some(g) => tracer(s, g)
      case None => s
  }

  /** The state after calling `tracer` on each reference of `fs`, in order, starting from `s`. */
  function FoldCalls<S>(fs: seq<SpacePtr>, tracer: (S, SpacePtr) -> S, s: S): S
    decreases |fs|
  {
    if fs == [] then s else FoldCalls(fs[1..], tracer, tracer(s, fs[0]))
  }

  /** Whatever the callback does, `trace_with` calls it once per reference field, in field order. */
  lemma TraceWithFolds<S>(v: Value, tracer: (S, SpacePtr) -> S, s: S)
    ensures TraceWith(v, tracer, s) == FoldCalls(Fields(v), tracer, s)
  {
    if v.ListObj? && v.next.Some? {
      assert Fields(v)[1..] == [];
    }
  }

  /** `subfields`: the references handed to the callback, pushed onto a vector. */
  function Subfields(v: Value): (fs: seq<SpacePtr>)
    ensures fs == Fields(v)
  {
    TraceWith(v, (acc: seq<SpacePtr>, f: SpacePtr) => acc + [f], [])
  }

  /** The per-field operations the derived `mark`, `root` and `unroot` apply. */
  datatype FieldOp = MarkOp | RootOp | UnrootOp

  /** One invocation of a per-field operation on one reference field. */
  datatype Call = Call(op: FieldOp, field: SpacePtr)

  /**
   * The calls a derived operation makes, `trace_with(|field| field.op())`:
   * exactly one per reference field, in field order.
   */
  function Dispatch(v: Value, op: FieldOp): (calls: seq<Call>)
    ensures |calls| == |Fields(v)|
    ensures forall i :: 0 <= i < |Fields(v)| ==> calls[i] == Call(op, Fields(v)[i])
  {
    TraceWith(v, (calls: seq<Call>, f: SpacePtr) => calls + [Call(op, f)], [])
  }

  /** `mark`: calls `mark` on each reference field, in field order. */
  function Mark(v: Value): (calls: seq<Call>)
    ensures |calls| == |Fields(v)| && forall i :: 0 <= i < |calls| ==> calls[i] == Call(MarkOp, Fields(v)[i])
  {
    Dispatch(v, MarkOp)
  }

  /** `root`: calls `root` on each reference field, in field order. */
  function Root(v: Value): (calls: seq<Call>)
    ensures |calls| == |Fields(v)| && forall i :: 0 <= i < |calls| ==> calls[i] == Call(RootOp, Fields(v)[i])
  {
    Dispatch(v, RootOp)
  }

  /** `unroot`: calls `unroot` on each reference field, in field order. */
  function Unroot(v: Value): (calls: seq<Call>)
    ensures |calls| == |Fields(v)| && forall i :: 0 <= i < |calls| ==> calls[i] == Call(UnrootOp, Fields(v)[i])
  {
    Dispatch(v, UnrootOp)
  }

  /** `mark`, `root` and `unroot` visit the same fields as `subfields`, in the same order. */
  lemma DerivedOperationsAgree(v: Value)
    ensures |Mark(v)| == |Root(v)| == |Unroot(v)| == |Subfields(v)|
    ensures forall i :: 0 <= i < |Subfields(v)| ==>
      Mark(v)[i].field == Root(v)[i].field == Unroot(v)[i].field == Subfields(v)[i]
  {
  }

  /** The `i64` instance holds no references: `subfields` is empty and `mark`, `root`, `unroot` call nothing. */
  lemma I64HasNoFields(n: int)
    ensures Subfields(I64(n)) == []
    ensures Mark(I64(n)) == [] && Root(I64(n)) == [] && Unroot(I64(n)) == []
  {
  }

  /** The list node exposes `next` when it is `Some` and nothing when it is `None`: one level only. */
  lemma ListObjFields(next: Option<SpacePtr>, num: int)
    ensures Subfields(ListObj(next, num)) == if next.Some? then [next.value] else []
  {
  }

  /** Two values agree on everything that is not a reference field. */
  predicate SameShape(a: Value, b: Value) {
    match (a, b)
    case (I64(x), I64(y)) => x == y
    case (ListObj(n1, x), ListObj(n2, y)) => x == y && n1.Some? == n2.Some?
    case _ => false
  }

  /**
   * The value after writes through the `&mut` references that `subfields`
   * hands out: `fs[i]` replaces the i-th reference field.
   */
  function WithFields(v: Value, fs: seq<SpacePtr>): (r: Value)
    requires |fs| == |Fields(v)|
    ensures Fields(r) == fs && SameShape(r, v)
    ensures SizeInBytes(r) == SizeInBytes(v)
  {
    match v
    case I64(_) => v
    case ListObj(next, num) => if next.Some? then ListObj(Some(fs[0]), num) else v
  }

  /** A value is determined by its shape and its reference fields. */
  lemma ShapeAndFieldsDetermine(a: Value, b: Value)
    requires SameShape(a, b) && Fields(a) == Fields(b)
    ensures a == b
  {
    match a
    case I64(_) =>
    case ListObj(n1, _) =>
      if n1.Some? {
        assert Fields(a)[0] == Fields(b)[0];
      }
  }

  /** Writing back the fields a value already has leaves it unchanged. */
  lemma WithOwnFields(v: Value)
    ensures WithFields(v, Fields(v)) == v
  {
    ShapeAndFieldsDetermine(WithFields(v, Fields(v)), v);
  }

  /** Every reference a value holds carries a bit index below `bound`. */
  predicate RefsBelow(v: Value, bound: nat) {
    forall f :: f in Fields(v) ==> f.bitIdx < bound
  }
}
