/**
 * Classification of types used throughout the analysis: void pointers, integer ("size")
 * types, pointer-like types, the record behind a pointer or array, whether a value is
 * fuzzed, the element count of a constant array and whether a record member is in use.
 */
module TypePredicates {

  import opened Basics
  import opened Ir

  /** `_is_void_ptr`: after typedef stripping, a pointer whose pointee is the builtin `void`. */
  predicate IsVoidPtr(db: Db, t: Type) {
    var s := StripTypedef(db, t);
    s.cls == Pointer && PointeeIsVoid(db, s)
  }

  predicate PointeeIsVoid(db: Db, s: Type) {
    var dst := TypeOf(db, At(s.refs, 0, -1));
    dst.cls == Builtin && dst.str == "void"
  }

  /** The integer type names of `_is_size_type`. */
  const IntNames: set<string> := {
    "char", "signed char", "unsigned char", "short", "unsigned short", "int", "unsigned int",
    "long", "unsigned long", "long long", "unsigned long long", "unsigned __int128"}

  /** `_is_size_type`: the typedef-stripped type is one of the C integer types. */
  predicate IsSizeType(db: Db, t: Type) {
    StripTypedef(db, t).str in IntNames
  }

  /** `_is_pointer_like_type`: a pointer, or a 64-bit integer that may hold an address. */
  predicate IsPointerLikeType(db: Db, t: Type) {
    var s := StripTypedef(db, t);
    s.cls == Pointer || (IsSizeType(db, s) && s.size == 64)
  }

  /** A void pointer is always pointer-like. */
  lemma VoidPtrIsPointerLike(db: Db, t: Type)
    requires IsVoidPtr(db, t)
    ensures IsPointerLikeType(db, t)
  {
  }

  /** A 64-bit non-pointer type is pointer-like exactly when it names an integer type. */
  lemma PointerLikeNonPointer(db: Db, t: Type)
    requires StripTypedef(db, t).cls != Pointer
    ensures IsPointerLikeType(db, t) <==>
      StripTypedef(db, StripTypedef(db, t)).str in IntNames && StripTypedef(db, t).size == 64
  {
  }

  /**
   * `_get_record_type`: strip a typedef, then the pointer or array, then a typedef again.
   * When typedefs resolve as the database promises, the result is never a typedef, and when
   * the real type behind the stripped base (the pointee or element) is a record, it is that
   * record.
   */
  function GetRecordType(db: Db, base: Type): (r: Type)
    ensures TypedefsResolve(db) ==> r.cls != Typedef
    ensures var rt := TypeOf(db, RealType(db, StripTypedef(db, base).id));
      ConsistentIds(db) && TypedefsResolve(db) && IsRecordClass(rt.cls) ==> r == rt
  {
    var b := StripTypedef(db, base);
    var b2 := TypeOf(db, RealType(db, b.id));
    StripTypedef(db, b2)
  }

  /** Outcome of `_resolve_record_type`: the record reached and the typedef it was named by, or none. */
  datatype Resolved = Found(rt: Type, tpd: Option<Type>) | NotRecord | OutOfFuel

  predicate IsRecordClass(c: TypeClass) {
    c == Record || c == RecordForward
  }

  predicate IsIndirection(c: TypeClass) {
    c == Pointer || c == ConstArray || c == IncompleteArray
  }

  /**
   * `_resolve_record_type`: walk through pointers, arrays, typedefs and attributes to a
   * record. A pointer or array forgets the typedef seen so far; the first typedef after the
   * last pointer or array is remembered. `fuel` bounds the walk over a possibly cyclic table.
   */
  function ResolveRecordType(db: Db, tid: TypeId, tpd: Option<Type>, fuel: nat): (r: Resolved)
    ensures r.Found? ==> IsRecordClass(r.rt.cls)
    ensures IsRecordClass(TypeOf(db, tid).cls) <==> r == Found(TypeOf(db, tid), tpd)
    ensures r.Found? && r.tpd.Some? ==> r.tpd == tpd || r.tpd.value.cls == Typedef
    decreases fuel
  {
    var t := TypeOf(db, tid);
    if IsRecordClass(t.cls) then Found(t, tpd)
    else if fuel == 0 then
      if IsIndirection(t.cls) || t.cls == Typedef || t.cls == Attributed then OutOfFuel else NotRecord
    else if IsIndirection(t.cls) then ResolveRecordType(db, At(t.refs, 0, -1), None, fuel - 1)
    else if t.cls == Typedef then
      ResolveRecordType(db, At(t.refs, 0, -1), if tpd.None? then Some(t) else tpd, fuel - 1)
    else if t.cls == Attributed then ResolveRecordType(db, At(t.refs, 0, -1), tpd, fuel - 1)
    else NotRecord
  }

  /** A walk started without a typedef only ever reports a typedef. */
  lemma {:induction false} ResolvedTypedefIsTypedef(db: Db, tid: TypeId, tpd: Option<Type>, fuel: nat)
    requires tpd.None? || tpd.value.cls == Typedef
    ensures var r := ResolveRecordType(db, tid, tpd, fuel);
      r.Found? && r.tpd.Some? ==> r.tpd.value.cls == Typedef
  {
  }

  /** More fuel never changes an answer that was reached. */
  lemma {:induction false} ResolveFuelMonotone(db: Db, tid: TypeId, tpd: Option<Type>, fuel: nat, more: nat)
    requires fuel <= more
    requires !ResolveRecordType(db, tid, tpd, fuel).OutOfFuel?
    ensures ResolveRecordType(db, tid, tpd, more) == ResolveRecordType(db, tid, tpd, fuel)
    decreases fuel
  {
    var t := TypeOf(db, tid);
    if IsRecordClass(t.cls) || fuel == 0 {
    } else if IsIndirection(t.cls) {
      ResolveFuelMonotone(db, At(t.refs, 0, -1), None, fuel - 1, more - 1);
    } else if t.cls == Typedef {
      ResolveFuelMonotone(db, At(t.refs, 0, -1), if tpd.None? then Some(t) else tpd, fuel - 1, more - 1);
    } else if t.cls == Attributed {
      ResolveFuelMonotone(db, At(t.refs, 0, -1), tpd, fuel - 1, more - 1);
    }
  }

  // The walk of `_resolve_record_type` described along the `refs[0]` chain of a type.

  /** The type id reached from `tid` after following `refs[0]` `n` times. */
  function Hop(db: Db, tid: TypeId, n: nat): TypeId
    decreases n
  {
    if n == 0 then tid else Hop(db, At(TypeOf(db, tid).refs, 0, -1), n - 1)
  }

  /** The class of the type `k` hops along the chain. */
  function ClassAt(db: Db, tid: TypeId, k: nat): TypeClass {
    TypeOf(db, Hop(db, tid, k)).cls
  }

  /** The classes the walk passes through. */
  predicate Walkable(c: TypeClass) {
    IsIndirection(c) || c == Typedef || c == Attributed
  }

  /** The last hop below `n` that is a pointer or an array (LastIndirectionIs says which). */
  function LastIndirection(db: Db, tid: TypeId, n: nat): (r: Option<nat>)
    decreases n
  {
    if n == 0 then None
    else
      var b := LastIndirection(db, At(TypeOf(db, tid).refs, 0, -1), n - 1);
      if b.Some? then Some(b.value + 1)
      else if IsIndirection(TypeOf(db, tid).cls) then Some(0)
      else None
  }

  /** The class `k + 1` hops from `tid` is the class `k` hops from its `refs[0]`. */
  lemma ClassAtNext(db: Db, tid: TypeId, k: nat)
    ensures ClassAt(db, tid, k + 1) == ClassAt(db, At(TypeOf(db, tid).refs, 0, -1), k)
  {
  }

  lemma {:induction false} LastIndirectionIs(db: Db, tid: TypeId, n: nat)
    ensures var r := LastIndirection(db, tid, n);
      (r.Some? ==> r.value < n && IsIndirection(ClassAt(db, tid, r.value)) &&
                   forall k :: r.value < k < n ==> !IsIndirection(ClassAt(db, tid, k))) &&
      (r.None? ==> forall k :: 0 <= k < n ==> !IsIndirection(ClassAt(db, tid, k)))
    decreases n
  {
    if n > 0 {
      var next := At(TypeOf(db, tid).refs, 0, -1);
      LastIndirectionIs(db, next, n - 1);
      forall k | 0 < k < n ensures ClassAt(db, tid, k) == ClassAt(db, next, k - 1) {
        ClassAtNext(db, tid, k - 1);
      }
    }
  }

  /** The first hop in `lo..n-1` that is a typedef (FirstTypedefIs says which). */
  function FirstTypedef(db: Db, tid: TypeId, lo: nat, n: nat): (r: Option<nat>)
    decreases n
  {
    if n == 0 then None
    else if lo == 0 && TypeOf(db, tid).cls == Typedef then Some(0)
    else
      var b := FirstTypedef(db, At(TypeOf(db, tid).refs, 0, -1), if lo == 0 then 0 else lo - 1, n - 1);
      if b.Some? then Some(b.value + 1) else None
  }

  lemma {:induction false} FirstTypedefIs(db: Db, tid: TypeId, lo: nat, n: nat)
    ensures var r := FirstTypedef(db, tid, lo, n);
      (r.Some? ==> lo <= r.value < n && ClassAt(db, tid, r.value) == Typedef &&
                   forall k :: lo <= k < r.value ==> ClassAt(db, tid, k) != Typedef) &&
      (r.None? ==> forall k :: lo <= k < n ==> ClassAt(db, tid, k) != Typedef)
    decreases n
  {
    if n > 0 && !(lo == 0 && TypeOf(db, tid).cls == Typedef) {
      var next := At(TypeOf(db, tid).refs, 0, -1);
      FirstTypedefIs(db, next, if lo == 0 then 0 else lo - 1, n - 1);
      forall k | 0 < k < n ensures ClassAt(db, tid, k) == ClassAt(db, next, k - 1) {
        ClassAtNext(db, tid, k - 1);
      }
    }
  }

  /**
   * The typedef a walk of `n` hops reports: the first typedef after the last pointer or array;
   * with no pointer or array on the way, the typedef passed in, or else the first typedef.
   */
  function ReportedTypedef(db: Db, tid: TypeId, tpd: Option<Type>, n: nat): Option<Type> {
    var last := LastIndirection(db, tid, n);
    if last.None? && tpd.Some? then tpd
    else
      var t := FirstTypedef(db, tid, if last.Some? then last.value + 1 else 0, n);
      if t.Some? then Some(TypeOf(db, Hop(db, tid, t.value))) else None
  }

  /** One hop of the walk: what the report of the rest of the chain is. */
  lemma ReportedTypedefStep(db: Db, tid: TypeId, tpd: Option<Type>, n: nat)
    requires n > 0 && Walkable(TypeOf(db, tid).cls)
    ensures var t := TypeOf(db, tid);
      var tpd' := if IsIndirection(t.cls) then None else if t.cls == Typedef && tpd.None? then Some(t) else tpd;
      ReportedTypedef(db, tid, tpd, n) == ReportedTypedef(db, At(t.refs, 0, -1), tpd', n - 1)
  {
    var t := TypeOf(db, tid);
    var next := At(t.refs, 0, -1);
    var tpd' := if IsIndirection(t.cls) then None else if t.cls == Typedef && tpd.None? then Some(t) else tpd;
    var b := LastIndirection(db, next, n - 1);
    var f := FirstTypedef(db, next, if b.Some? then b.value + 1 else 0, n - 1);
    var viaF := if f.Some? then Some(TypeOf(db, Hop(db, next, f.value))) else None;
    if f.Some? {
      assert Hop(db, tid, f.value + 1) == Hop(db, next, f.value);
    }
    if b.Some? {
      assert LastIndirection(db, tid, n) == Some(b.value + 1);
      assert FirstTypedef(db, tid, b.value + 2, n) == if f.Some? then Some(f.value + 1) else None;
      assert ReportedTypedef(db, tid, tpd, n) == viaF;
      assert ReportedTypedef(db, next, tpd', n - 1) == viaF;
    } else if IsIndirection(t.cls) {
      assert LastIndirection(db, tid, n) == Some(0);
      assert FirstTypedef(db, tid, 1, n) == if f.Some? then Some(f.value + 1) else None;
      assert ReportedTypedef(db, tid, tpd, n) == viaF;
      assert ReportedTypedef(db, next, tpd', n - 1) == viaF;
    } else if tpd.Some? {
      assert LastIndirection(db, tid, n) == None;
      assert ReportedTypedef(db, tid, tpd, n) == tpd;
      assert ReportedTypedef(db, next, tpd', n - 1) == tpd;
    } else if t.cls == Typedef {
      assert LastIndirection(db, tid, n) == None;
      assert FirstTypedef(db, tid, 0, n) == Some(0);
      assert ReportedTypedef(db, tid, tpd, n) == Some(t);
      assert ReportedTypedef(db, next, tpd', n - 1) == Some(t);
    } else {
      assert LastIndirection(db, tid, n) == None;
      assert FirstTypedef(db, tid, 0, n) == if f.Some? then Some(f.value + 1) else None;
      assert ReportedTypedef(db, tid, tpd, n) == viaF;
      assert ReportedTypedef(db, next, tpd', n - 1) == viaF;
    }
  }

  /**
   * Completeness: when the first `n` hops are pointers, arrays, typedefs or attributed types
   * and hop `n` is a record or record_forward, a walk with fuel for `n` hops finds that record,
   * reporting the typedef `ReportedTypedef` names.
   */
  lemma {:induction false} ResolveRecordFinds(db: Db, tid: TypeId, tpd: Option<Type>, fuel: nat, n: nat)
    requires n <= fuel
    requires forall k :: 0 <= k < n ==> Walkable(ClassAt(db, tid, k))
    requires IsRecordClass(ClassAt(db, tid, n))
    ensures ResolveRecordType(db, tid, tpd, fuel) == Found(TypeOf(db, Hop(db, tid, n)), ReportedTypedef(db, tid, tpd, n))
    decreases n
  {
    if n > 0 {
      var t := TypeOf(db, tid);
      var next := At(t.refs, 0, -1);
      assert Walkable(ClassAt(db, tid, 0));
      var tpd' := if IsIndirection(t.cls) then None else if t.cls == Typedef && tpd.None? then Some(t) else tpd;
      assert forall k :: 0 <= k < n - 1 ==> ClassAt(db, next, k) == ClassAt(db, tid, k + 1);
      ResolveRecordFinds(db, next, tpd', fuel - 1, n - 1);
      ReportedTypedefStep(db, tid, tpd, n);
    }
  }

  /** A walk that reaches, within its fuel, a hop that is neither walkable nor a record finds nothing. */
  lemma {:induction false} ResolveRecordStops(db: Db, tid: TypeId, tpd: Option<Type>, fuel: nat, n: nat)
    requires n <= fuel
    requires forall k :: 0 <= k < n ==> Walkable(ClassAt(db, tid, k))
    requires !Walkable(ClassAt(db, tid, n)) && !IsRecordClass(ClassAt(db, tid, n))
    ensures ResolveRecordType(db, tid, tpd, fuel) == NotRecord
    decreases n
  {
    if n > 0 {
      var t := TypeOf(db, tid);
      var next := At(t.refs, 0, -1);
      assert Walkable(ClassAt(db, tid, 0));
      var tpd' := if IsIndirection(t.cls) then None else if t.cls == Typedef && tpd.None? then Some(t) else tpd;
      assert forall k :: 0 <= k < n - 1 ==> ClassAt(db, next, k) == ClassAt(db, tid, k + 1);
      ResolveRecordStops(db, next, tpd', fuel - 1, n - 1);
    }
  }

  /** A chain walkable for more hops than the fuel allows runs out of fuel (a cycle always does). */
  lemma {:induction false} ResolveRecordOutOfFuel(db: Db, tid: TypeId, tpd: Option<Type>, fuel: nat)
    requires forall k :: 0 <= k <= fuel ==> Walkable(ClassAt(db, tid, k))
    ensures ResolveRecordType(db, tid, tpd, fuel).OutOfFuel?
    decreases fuel
  {
    var t := TypeOf(db, tid);
    assert Walkable(ClassAt(db, tid, 0));
    if fuel > 0 {
      var next := At(t.refs, 0, -1);
      var tpd' := if IsIndirection(t.cls) then None else if t.cls == Typedef && tpd.None? then Some(t) else tpd;
      assert forall k :: 0 <= k <= fuel - 1 ==> ClassAt(db, next, k) == ClassAt(db, tid, k + 1);
      ResolveRecordOutOfFuel(db, next, tpd', fuel - 1);
    }
  }

  /**
   * `_to_fuzz_or_not_to_fuzz`: builtins and enums are fuzzed, arrays are fuzzed when their
   * (typedef-stripped) element type is, anything else is not. None when `fuel` runs out.
   */
  function ToFuzz(db: Db, t: Type, fuel: nat): (r: Option<bool>)
    decreases fuel
  {
    if t.cls == Builtin || t.cls == Enum then Some(true)
    else if t.cls == ConstArray || t.cls == IncompleteArray then
      if fuel == 0 then None
      else ToFuzz(db, StripTypedef(db, TypeOf(db, At(t.refs, 0, -1))), fuel - 1)
    else Some(false)
  }

  /** The innermost element type reached by stripping arrays (and the typedefs of their elements). */
  function ArrayBase(db: Db, t: Type, fuel: nat): (r: Option<Type>)
    ensures r.Some? ==> r.value.cls != ConstArray && r.value.cls != IncompleteArray
    decreases fuel
  {
    if t.cls == ConstArray || t.cls == IncompleteArray then
      if fuel == 0 then None
      else ArrayBase(db, StripTypedef(db, TypeOf(db, At(t.refs, 0, -1))), fuel - 1)
    else Some(t)
  }

  /** A value is fuzzed exactly when the element type behind all its array levels is a builtin or an enum. */
  lemma {:induction false} ToFuzzIffBaseScalar(db: Db, t: Type, fuel: nat)
    ensures ToFuzz(db, t, fuel).Some? <==> ArrayBase(db, t, fuel).Some?
    ensures ToFuzz(db, t, fuel).Some? ==>
      (ToFuzz(db, t, fuel).value <==> ArrayBase(db, t, fuel).value.cls in {Builtin, Enum})
    decreases fuel
  {
    if (t.cls == ConstArray || t.cls == IncompleteArray) && fuel > 0 {
      ToFuzzIffBaseScalar(db, StripTypedef(db, TypeOf(db, At(t.refs, 0, -1))), fuel - 1);
    }
  }

  /**
   * `_get_const_array_size`: the number of elements of an array type, by floor division of
   * the array size by the element size; 0 for an empty incomplete array or a zero-sized element.
   */
  function GetConstArraySize(db: Db, t: Type): (r: int)
    ensures t.cls == IncompleteArray && t.size == 0 ==> r == 0
    ensures TypeOf(db, At(t.refs, 0, -1)).size == 0 ==> r == 0
    ensures !(t.cls == IncompleteArray && t.size == 0) && TypeOf(db, At(t.refs, 0, -1)).size > 0 ==>
      var e := TypeOf(db, At(t.refs, 0, -1)).size;
      r * e <= t.size < (r + 1) * e
    ensures t.size >= 0 && TypeOf(db, At(t.refs, 0, -1)).size > 0 ==> r >= 0
  {
    if t.cls == IncompleteArray && t.size == 0 then 0
    else
      var elemSize := TypeOf(db, At(t.refs, 0, -1)).size;
      if elemSize != 0 then FloorDiv(t.size, elemSize) else 0
  }

  /**
   * `_is_member_in_use`: members of non-records always count as used; a record member is
   * unused when the record has no used-types entry, or its `usedrefs` marks the member -1.
   */
  predicate IsMemberInUse(t: Type, usedTypes: map<TypeId, Type>, idx: nat) {
    if t.cls != Record then true
    else if t.id !in usedTypes then false
    else !(idx < |t.usedrefs| && t.usedrefs[idx] == -1)
  }
}
