/**
 * The tracing protocol: for a value of a registered type, the ordered
 * sequence of raw slot addresses that its managed handles hold.
 *
 * A C++ type is a `Type`; a value of it is a `Value` that carries the static
 * type parameters its trace rule consults (the element type whose
 * `contains_pointers` flag guards a container's loop).  `Trace` is the order
 * in which a `trace` call invokes its visitor.
 */
module Tracing {

  type Addr = nat

  /** A raw `Traced<T>*` as held by a handle: a slot address, or null. */
  datatype Ref = Null | At(addr: Addr)

  datatype Option<T> = None | Some(value: T)

  /** The built-in arithmetic types, each registered as untraced. */
  datatype Arith =
    | Bool | UnsignedChar | SignedChar | Char | WChar | Char16 | Char32
    | Short | UnsignedShort | Int | UnsignedInt | Long | UnsignedLong
    | LongLong | UnsignedLongLong | Float | Double | LongDouble

  /** Containers registered with the one-parameter container rule. */
  datatype SeqKind = Deque | ForwardList | List | Set | UnorderedSet | Vector

  /** Containers registered with the two-parameter (map-like) rule. */
  datatype MapKind = OrderedMap | UnorderedMap

  /** The registered types.  `UserT` is an aggregate registered by the
      embedding program, with the flag it declares. */
  datatype Type =
    | ArithT(arith: Arith)
    | StringT
    | BitsetT(width: nat)
    | HandleT
    | UniquePtrT(pointee: Type)
    | SharedPtrT(pointee: Type)
    | WeakPtrT(pointee: Type)
    | ContainerT(kind: SeqKind, elem: Type)
    | MapT(mkind: MapKind, key: Type, val: Type)
    | ArrayT(elem: Type, size: nat)
    | PairT(first: Type, second: Type)
    | TupleT(elems: seq<Type>)
    | UserT(name: string, declared: bool)

  /** Values.  A smart pointer's `target` is `None` when it is null (for
      `WeakPtr`: when it has expired).  A map's entries are its `PairOf`
      elements in iteration order.  A `Record` holds the members that the
      user-supplied trace of its type visits, in the order it visits them. */
  datatype Value =
    | Scalar(arith: Arith)
    | Text(chars: string)
    | Bits(bits: seq<bool>)
    | Handle(ptr: Ref)
    | UniquePtr(pointee: Type, target: Option<Value>)
    | SharedPtr(pointee: Type, target: Option<Value>)
    | WeakPtr(pointee: Type, target: Option<Value>)
    | Container(kind: SeqKind, elem: Type, elems: seq<Value>)
    | MapOf(mkind: MapKind, key: Type, val: Type, entries: seq<Value>)
    | ArrayOf(elem: Type, items: seq<Value>)
    | PairOf(first: Value, second: Value)
    | TupleOf(parts: seq<Value>)
    | Record(rtype: Type, fields: seq<Value>)

  /** A size measure under which every type list the flag rules build is
      smaller than the type that builds it. */
  function TypeSize(t: Type): nat
  {
    match t
    case UniquePtrT(p) => 2 + TypeSize(p)
    case SharedPtrT(p) => 2 + TypeSize(p)
    case WeakPtrT(p) => 2 + TypeSize(p)
    case ContainerT(_, e) => 2 + TypeSize(e)
    case MapT(_, k, v) => 3 + TypeSize(k) + TypeSize(v)
    case ArrayT(e, _) => 2 + TypeSize(e)
    case PairT(a, b) => 3 + TypeSize(a) + TypeSize(b)
    case TupleT(es) => 1 + TypesSize(es)
    case _ => 1
  }

  function TypesSize(ts: seq<Type>): nat
  {
    if ts == [] then 0 else 1 + TypeSize(ts[0]) + TypesSize(ts[1..])
  }

  lemma OneTypeSize(a: Type)
    ensures TypesSize([a]) == 1 + TypeSize(a)
  {
    assert [a][1..] == [];
  }

  lemma TwoTypesSize(a: Type, b: Type)
    ensures TypesSize([a, b]) == 2 + TypeSize(a) + TypeSize(b)
  {
    assert [a, b][1..] == [b];
    OneTypeSize(b);
  }

  /** The `contains_pointers` flag each registered type declares.  Every
      template rule takes its flag from the fold over its type parameters. */
  function ContainsPointers(t: Type): bool
    decreases TypeSize(t)
  {
    match t
    case ArithT(_) => false
    case StringT => false
    case BitsetT(_) => false
    case HandleT => true
    case UniquePtrT(p) => OneTypeSize(p); AnyContainsPointers([p])
    case SharedPtrT(p) => OneTypeSize(p); AnyContainsPointers([p])
    case WeakPtrT(p) => OneTypeSize(p); AnyContainsPointers([p])
    case ContainerT(_, e) => OneTypeSize(e); AnyContainsPointers([e])
    case MapT(_, k, v) => TwoTypesSize(k, v); AnyContainsPointers([k, v])
    case ArrayT(e, _) => OneTypeSize(e); AnyContainsPointers([e])
    case PairT(a, b) => TwoTypesSize(a, b); AnyContainsPointers([a, b])
    case TupleT(es) => AnyContainsPointers(es)
    case UserT(_, declared) => declared
  }

  /** `contains_pointers<Es...>`: false for the empty list, otherwise the
      head's flag or the rest's. */
  function AnyContainsPointers(ts: seq<Type>): bool
    decreases TypesSize(ts)
  {
    if ts == [] then false
    else ContainsPointers(ts[0]) || AnyContainsPointers(ts[1..])
  }

  /** The fold is an OR: it holds exactly when some listed type declares
      that it contains pointers. */
  lemma {:induction false} AnyContainsPointersIff(ts: seq<Type>)
    ensures AnyContainsPointers(ts) <==> exists i :: 0 <= i < |ts| && ContainsPointers(ts[i])
  {
    if ts != [] {
      AnyContainsPointersIff(ts[1..]);
      if AnyContainsPointers(ts[1..]) {
        var i :| 0 <= i < |ts[1..]| && ContainsPointers(ts[1..][i]);
        assert ContainsPointers(ts[i + 1]);
      }
      if exists i :: 0 <= i < |ts| && ContainsPointers(ts[i]) {
        var i :| 0 <= i < |ts| && ContainsPointers(ts[i]);
        if i > 0 {
          assert ContainsPointers(ts[1..][i - 1]);
        }
      }
    }
  }

  /** The source leaves a null `unique_ptr` or `shared_ptr` to be
      dereferenced by its trace; every value traced must avoid that. */
  predicate WellFormed(v: Value)
    decreases v
  {
    match v
    case UniquePtr(_, target) => target.Some? && WellFormed(target.value)
    case SharedPtr(_, target) => target.Some? && WellFormed(target.value)
    case WeakPtr(_, target) => target.Some? ==> WellFormed(target.value)
    case Container(_, _, elems) => forall x :: x in elems ==> WellFormed(x)
    case MapOf(_, _, _, entries) => forall x :: x in entries ==> WellFormed(x)
    case ArrayOf(_, items) => forall x :: x in items ==> WellFormed(x)
    case PairOf(a, b) => WellFormed(a) && WellFormed(b)
    case TupleOf(parts) => forall x :: x in parts ==> WellFormed(x)
    case Record(_, fields) => forall x :: x in fields ==> WellFormed(x)
    case _ => true
  }

  predicate AllWellFormed(vs: seq<Value>)
  {
    forall x :: x in vs ==> WellFormed(x)
  }

  /** The addresses a `trace` call passes to its visitor, in call order. */
  function Trace(v: Value): seq<Ref>
    requires WellFormed(v)
    decreases v
  {
    match v
    case Scalar(_) => []
    case Text(_) => []
    case Bits(_) => []
    case Handle(p) => [p]
    case UniquePtr(_, target) => Trace(target.value)
    case SharedPtr(_, target) => Trace(target.value)
    case WeakPtr(_, target) => if target.Some? then Trace(target.value) else []
    case Container(_, e, elems) => if AnyContainsPointers([e]) then TraceEach(elems) else []
    case MapOf(_, k, w, entries) => if AnyContainsPointers([k, w]) then TraceEach(entries) else []
    case ArrayOf(e, items) => if AnyContainsPointers([e]) then TraceEach(items) else []
    case PairOf(a, b) => Trace(a) + Trace(b)
    case TupleOf(parts) => TupleCountDown(parts, |parts|)
    case Record(_, fields) => TraceEach(fields)
  }

  /** Tracing each element of a sequence, first to last. */
  function TraceEach(vs: seq<Value>): seq<Ref>
    requires AllWellFormed(vs)
    decreases vs
  {
    if vs == [] then [] else Trace(vs[0]) + TraceEach(vs[1..])
  }

  /** `TupleCountDown_<i, T>`: first the elements below `i - 1`, then
      element `i - 1`; index 0 traces nothing. */
  function TupleCountDown(parts: seq<Value>, i: nat): seq<Ref>
    requires i <= |parts| && AllWellFormed(parts)
    decreases parts, i
  {
    if i == 0 then [] else TupleCountDown(parts, i - 1) + Trace(parts[i - 1])
  }

  lemma {:induction false} TraceEachAppend(a: seq<Value>, b: seq<Value>)
    requires AllWellFormed(a) && AllWellFormed(b)
    ensures AllWellFormed(a + b)
    ensures TraceEach(a + b) == TraceEach(a) + TraceEach(b)
  {
    if a == [] {
      assert a + b == b;
    } else {
      assert (a + b)[1..] == a[1..] + b;
      TraceEachAppend(a[1..], b);
    }
  }

  /** The count-down recursion visits the tuple's elements in index order,
      each exactly once. */
  lemma {:induction false} TupleCountDownInOrder(parts: seq<Value>, i: nat)
    requires i <= |parts| && AllWellFormed(parts)
    ensures TupleCountDown(parts, i) == TraceEach(parts[..i])
  {
    if i > 0 {
      TupleCountDownInOrder(parts, i - 1);
      assert parts[..i] == parts[..i - 1] + [parts[i - 1]];
      TraceEachAppend(parts[..i - 1], [parts[i - 1]]);
      assert TraceEach([parts[i - 1]]) == Trace(parts[i - 1]) + TraceEach([]);
    }
  }

  /** Member `i` of the record `obj` is a `traced_ptr`. */
  predicate HandleMember(obj: Value, i: nat)
  {
    obj.Record? && i < |obj.fields| && obj.fields[i].Handle?
  }

  /** The record `obj` once `q` has been copy-assigned to its handle
      member `i`; the other members are untouched. */
  function AssignedMember(obj: Value, i: nat, q: Ref): Value
    requires HandleMember(obj, i)
  {
    Record(obj.rtype, obj.fields[i := Handle(q)])
  }

  /** Tracing a sequence around its element `i`. */
  lemma {:induction false} TraceEachAround(vs: seq<Value>, i: nat)
    requires AllWellFormed(vs) && i < |vs|
    ensures TraceEach(vs) == TraceEach(vs[..i]) + Trace(vs[i]) + TraceEach(vs[i + 1..])
  {
    TraceEachSplit(vs, vs[..i], vs[i], vs[i + 1..]);
  }

  /** Tracing `vs`, split as `pre`, then `x`, then `post`. */
  lemma {:induction false} TraceEachSplit(vs: seq<Value>, pre: seq<Value>, x: Value, post: seq<Value>)
    requires AllWellFormed(vs) && vs == pre + [x] + post
    ensures AllWellFormed(pre) && WellFormed(x) && AllWellFormed(post)
    ensures TraceEach(vs) == TraceEach(pre) + Trace(x) + TraceEach(post)
  {
    var rest := [x] + post;
    assert vs == pre + rest;
    assert forall y :: y in pre ==> y in vs;
    assert forall y :: y in rest ==> y in vs;
    TraceEachAppend(pre, rest);
    assert rest[0] == x && rest[1..] == post;
  }

  /** Assigning a handle member changes the trace in that one place: the
      old target gives way to `q`, and the members before and after it
      are visited as before. */
  lemma TraceAssignedMember(obj: Value, i: nat, q: Ref)
    requires WellFormed(obj) && HandleMember(obj, i)
    ensures WellFormed(AssignedMember(obj, i, q))
    ensures var before := TraceEach(obj.fields[..i]);
            var after := TraceEach(obj.fields[i + 1..]);
            Trace(obj) == before + [obj.fields[i].ptr] + after &&
            Trace(AssignedMember(obj, i, q)) == before + [q] + after
  {
    var fs := obj.fields;
    var fs' := fs[i := Handle(q)];
    assert forall x :: x in fs' ==> x in fs || x == Handle(q);
    assert fs'[..i] == fs[..i] && fs'[i + 1..] == fs[i + 1..];
    TraceEachAround(fs, i);
    TraceEachAround(fs', i);
  }

  /** A value whose user-registered records honour their declared flag:
      a record declared pointer-free traces nothing. */
  predicate Honest(v: Value)
    requires WellFormed(v)
    decreases v
  {
    match v
    case UniquePtr(_, target) => Honest(target.value)
    case SharedPtr(_, target) => Honest(target.value)
    case WeakPtr(_, target) => target.Some? ==> Honest(target.value)
    case Container(_, _, elems) => forall x :: x in elems ==> Honest(x)
    case MapOf(_, _, _, entries) => forall x :: x in entries ==> Honest(x)
    case ArrayOf(_, items) => forall x :: x in items ==> Honest(x)
    case PairOf(a, b) => Honest(a) && Honest(b)
    case TupleOf(parts) => forall x :: x in parts ==> Honest(x)
    case Record(rtype, fields) =>
      (forall x :: x in fields ==> Honest(x)) &&
      (rtype.UserT? && !rtype.declared ==> TraceEach(fields) == [])
    case _ => true
  }

  /** `v` is a value of type `t`. */
  predicate HasType(v: Value, t: Type)
    decreases v
  {
    match v
    case Scalar(a) => t == ArithT(a)
    case Text(_) => t == StringT
    case Bits(bs) => t == BitsetT(|bs|)
    case Handle(_) => t == HandleT
    case UniquePtr(p, target) => t == UniquePtrT(p) && (target.Some? ==> HasType(target.value, p))
    case SharedPtr(p, target) => t == SharedPtrT(p) && (target.Some? ==> HasType(target.value, p))
    case WeakPtr(p, target) => t == WeakPtrT(p) && (target.Some? ==> HasType(target.value, p))
    case Container(k, e, elems) => t == ContainerT(k, e) && forall x :: x in elems ==> HasType(x, e)
    case MapOf(k, a, b, entries) =>
      t == MapT(k, a, b) && forall x :: x in entries ==> HasType(x, PairT(a, b))
    case ArrayOf(e, items) => t == ArrayT(e, |items|) && forall x :: x in items ==> HasType(x, e)
    case PairOf(a, b) => t.PairT? && HasType(a, t.first) && HasType(b, t.second)
    case TupleOf(parts) =>
      t.TupleT? && |parts| == |t.elems| &&
      forall i :: 0 <= i < |parts| ==> HasType(parts[i], t.elems[i])
    case Record(rtype, _) => t == rtype && rtype.UserT?
  }

  /** The flag is what makes skipping a container's loop safe: a value of a
      type declared pointer-free traces nothing, as long as every record in
      it honours its own declaration. */
  lemma {:induction false} PointerFreeTracesNothing(v: Value, t: Type)
    requires WellFormed(v) && Honest(v) && HasType(v, t)
    requires !ContainsPointers(t)
    ensures Trace(v) == []
    decreases v
  {
    match v
    case UniquePtr(p, target) =>
      PointerFreeTracesNothing(target.value, p);
    case SharedPtr(p, target) =>
      PointerFreeTracesNothing(target.value, p);
    case WeakPtr(p, target) =>
      if target.Some? {
        PointerFreeTracesNothing(target.value, p);
      }
    case PairOf(a, b) =>
      assert !ContainsPointers(t.first) && !AnyContainsPointers([t.second]);
      PointerFreeTracesNothing(a, t.first);
      PointerFreeTracesNothing(b, t.second);
    case TupleOf(parts) =>
      forall i | 0 <= i < |parts| ensures Trace(parts[i]) == [] {
        AnyContainsPointersIff(t.elems);
        PointerFreeTracesNothing(parts[i], t.elems[i]);
      }
      TupleCountDownInOrder(parts, |parts|);
      EachNothing(parts);
    case _ =>
  }

  lemma {:induction false} EachNothing(vs: seq<Value>)
    requires AllWellFormed(vs)
    requires forall i :: 0 <= i < |vs| ==> Trace(vs[i]) == []
    ensures TraceEach(vs[..|vs|]) == []
  {
    assert vs[..|vs|] == vs;
    if vs != [] {
      assert forall i :: 0 <= i < |vs[1..]| ==> Trace(vs[1..][i]) == [] by {
        forall i | 0 <= i < |vs[1..]| ensures Trace(vs[1..][i]) == [] {
          assert vs[1..][i] == vs[i + 1];
        }
      }
      EachNothing(vs[1..]);
      assert vs[1..][..|vs[1..]|] == vs[1..];
    }
  }

  /** The hazard the flag introduces: a container whose element type wrongly
      declares itself pointer-free skips a handle inside its element. */
  lemma DishonestFlagHidesHandle(a: Addr)
    ensures var node := Record(UserT("node", false), [Handle(At(a))]);
            WellFormed(node) && Trace(node) == [At(a)] &&
            Trace(Container(Vector, UserT("node", false), [node])) == []
  {
    var node := Record(UserT("node", false), [Handle(At(a))]);
    assert TraceEach([Handle(At(a))]) == [At(a)] + TraceEach([]);
    assert [UserT("node", false)][1..] == [];
    assert !AnyContainsPointers([UserT("node", false)]);
  }
}
