/**
 * Facts read off one deref record: the pointer casts it performs, the offsetof
 * relationship it expresses, the record members it accesses, and whether it uses the
 * return value of a call.
 */
module Facts {

  import opened Basics
  import opened Ir
  import opened TypePredicates

  // ---------------------------------------------------------------------------
  // Calls

  /** `_get_callref_from_deref`: the deref is not an offsetof and one of its operands is a call's return value. */
  function CallrefFromDeref(d: Deref): (r: bool)
    ensures r <==> d.kind != KOffsetof && exists i :: 0 <= i < |d.offsetrefs| && d.offsetrefs[i].kind == OCallref
  {
    d.kind != KOffsetof && HasCallref(d.offsetrefs)
  }

  function HasCallref(os: seq<Operand>): (r: bool)
    ensures r <==> exists i :: 0 <= i < |os| && os[i].kind == OCallref
  {
    if |os| == 0 then false
    else if os[0].kind == OCallref then true
    else
      assert forall i :: 1 <= i < |os| ==> os[i] == os[1..][i - 1];
      HasCallref(os[1..])
  }

  // ---------------------------------------------------------------------------
  // Casts

  /** `src type -> member or NoMember -> [cast destination types]`; both levels keep insertion order. */
  type CastData = Dict<TypeId, Dict<int, seq<TypeId>>>

  /** Both levels of the cast data have their key lists and maps in agreement. */
  ghost predicate CastDataInv(cd: CastData) {
    DictInv(cd) && forall k :: HasKey(cd, k) ==> DictInv(Get(cd, k))
  }

  /** What the source of a cast operand was read from. */
  datatype SrcRef = NoDst | DerefDst(dd: Deref) | LocalDst(l: Local)

  /** A cast candidate: the source type (pointer-stripped), its unstripped root, the member number and the destination. */
  datatype CastSource = CastSource(srcTid: TypeId, srcRootTid: TypeId, srcMember: int, castTid: TypeId)

  /**
   * One accepted cast: where it is stored, under which member, the destination type,
   * and the typedef-stripped source and destination it was compared on.
   */
  datatype CastFact = CastFact(store: TypeId, member: int, cast: TypeId, srcNoTd: TypeId, dstNoTd: TypeId)

  const DefaultOperand: Operand := Operand(OOtherKind, -1, None)

  /** The last operand of kind member (the array branch keeps overwriting its choice). */
  function LastMemberOperand(os: seq<Operand>): (r: Option<Operand>)
    ensures r.Some? ==> r.value in os && r.value.kind == OMember
    ensures r.None? ==> forall i :: 0 <= i < |os| ==> os[i].kind != OMember
  {
    if |os| == 0 then None
    else if os[|os| - 1].kind == OMember then Some(os[|os| - 1])
    else LastMemberOperand(os[..|os| - 1])
  }

  /** Reads the source side from the deref or local the operand points at. */
  function FromDst(db: Db, dst: SrcRef, srcTid: TypeId, castTid: TypeId): (r: Option<CastSource>)
    ensures r.Some? ==> r.value.castTid == castTid
    ensures dst.NoDst? ==> r == Some(CastSource(srcTid, srcTid, NoMember, castTid))
  {
    match dst
    case NoDst => Some(CastSource(srcTid, srcTid, NoMember, castTid))
    case DerefDst(dd) =>
      if !dd.hasType then None
      else
        var s := Last(dd.types, -1);
        Some(CastSource(RealType(db, s), s, Last(dd.members, -1), castTid))
    case LocalDst(l) => Some(CastSource(RealType(db, l.typ), l.typ, NoMember, castTid))
  }

  /**
   * The source and destination of the cast on operand `o` of deref `d` in function `f`,
   * before the filters; None where the source skips the operand (no cast, an unsupported
   * operand kind, a member id past the derefs, an unknown callee, a deref without a type).
   */
  function OperandSource(db: Db, d: Deref, f: Function, o: Operand): (r: Option<CastSource>)
    ensures o.cast.None? ==> r.None?
    ensures o.kind in {OUnary, OAssign, OFunction, OGlobal, OInteger, OLogic, OAddress, OOtherKind} ==> r.None?
    ensures o.kind == OMember && o.id >= |f.derefs| ==> r.None?
  {
    if o.cast.None? then None
    else
      var castTid := o.cast.value;
      match o.kind
      case OArray =>
        var ad := DerefAt(f, o.id);
        var m := LastMemberOperand(ad.offsetrefs);
        if ad.kind == KArray && m.Some? then FromDst(db, DerefDst(DerefAt(f, m.value.id)), -1, castTid)
        else None
      case OMember =>
        if o.id >= |f.derefs| then None else FromDst(db, DerefDst(DerefAt(f, o.id)), -1, castTid)
      case OLocal => FromDst(db, NoDst, LocalAt(f, o.id).typ, castTid)
      case OParm => FromDst(db, LocalDst(LocalAt(f, o.id)), -1, castTid)
      case OCallref =>
        var callId := At(f.calls, o.id, -1);
        if callId !in db.functions then None
        else if d.kind == KReturn then
          // the function's own return type is the destination, the cast type the source
          FromDst(db, NoDst, castTid, At(f.types, 0, -1))
        else
          var srcTid := At(db.functions[callId].types, 0, -1);
          if d.kind == KInit then
            var inited := At(d.offsetrefs, 0, DefaultOperand);
            FromDst(db, NoDst, srcTid, if inited.kind == OLocal then LocalAt(f, inited.id).typ else castTid)
          else FromDst(db, NoDst, srcTid, castTid)
      case _ => None
  }

  /** The source's root type that is compared with the destination's root. */
  function SourceRoot(db: Db, c: CastSource): TypeId {
    var srcType := TypeOf(db, c.srcTid);
    if srcType.cls == Record && c.srcMember != NoMember then RealType(db, At(srcType.refs, c.srcMember, -1))
    else c.srcTid
  }

  /** The source type whose typedef-stripped form and size are compared with the destination's. */
  function SourceToCompare(db: Db, c: CastSource): TypeId {
    var srcType := TypeOf(db, c.srcTid);
    if srcType.cls == Record && c.srcMember != NoMember then At(srcType.refs, c.srcMember, -1)
    else c.srcRootTid
  }

  /**
   * The filters of `_get_cast_from_deref` applied to one candidate, each rejecting it: same
   * root or a duplicate root, identical source and destination, the same type after typedef
   * stripping, types that differ in size, and a `void*` destination outside a `return`.
   */
  function FilterCast(db: Db, d: Deref, c: CastSource): (r: Option<CastFact>)
    ensures r.Some? ==> r.value.cast == c.castTid && c.srcTid != c.castTid
    ensures r.Some? ==> r.value.srcNoTd == StripTypedef(db, TypeOf(db, SourceToCompare(db, c))).id
    ensures r.Some? ==> r.value.dstNoTd == StripTypedef(db, TypeOf(db, r.value.cast)).id
    ensures r.Some? ==> r.value.srcNoTd != r.value.dstNoTd
    ensures r.Some? ==> TypeOf(db, r.value.srcNoTd).size == TypeOf(db, r.value.dstNoTd).size
    ensures r.Some? && IsVoidPtr(db, TypeOf(db, r.value.cast)) ==> d.kind == KReturn
    ensures r.Some? ==> !IsDupOf(db, SourceRoot(db, c), RealType(db, c.castTid))
    ensures r.Some? && SourceRoot(db, c) !in db.dupTypes ==> SourceRoot(db, c) != RealType(db, c.castTid)
    ensures r.Some? && r.value.member != NoMember ==> TypeOf(db, c.srcTid).cls == Record
  {
    var srcType := TypeOf(db, c.srcTid);
    var memberCase := srcType.cls == Record && c.srcMember != NoMember;
    var dstRoot := RealType(db, c.castTid);
    var root := SourceRoot(db, c);
    if root in db.dupTypes && dstRoot in db.dupTypes[root] then None
    else if root !in db.dupTypes && root == dstRoot then None
    else if c.srcTid == c.castTid then None
    else
      var srcNoTd := StripTypedef(db, TypeOf(db, SourceToCompare(db, c))).id;
      var dstNoTd := StripTypedef(db, TypeOf(db, c.castTid)).id;
      if srcNoTd == dstNoTd then None
      else if TypeOf(db, srcNoTd).size != TypeOf(db, dstNoTd).size then None
      else if IsVoidPtr(db, TypeOf(db, c.castTid)) && d.kind != KReturn then None
      else
        var store := if IsRecordClass(srcType.cls) then c.srcTid else c.srcRootTid;
        Some(CastFact(store, if memberCase then c.srcMember else NoMember, c.castTid, srcNoTd, dstNoTd))
  }

  /** The fact one operand contributes, if any. */
  function OperandFact(db: Db, d: Deref, f: Function, o: Operand): Option<CastFact> {
    match OperandSource(db, d, f, o)
    case None => None
    case Some(c) => FilterCast(db, d, c)
  }

  /** The accepted facts of a list of operands, in operand order. */
  function OperandFacts(db: Db, d: Deref, f: Function, os: seq<Operand>): (fs: seq<CastFact>)
    ensures forall x :: x in fs ==> exists o :: o in os && OperandFact(db, d, f, o) == Some(x)
    ensures forall o :: o in os && OperandFact(db, d, f, o).Some? ==> OperandFact(db, d, f, o).value in fs
  {
    if |os| == 0 then []
    else
      var rest := OperandFacts(db, d, f, os[1..]);
      assert forall o :: o in os[1..] ==> o in os;
      match OperandFact(db, d, f, os[0])
      case None => rest
      case Some(x) => [x] + rest
  }

  /** `cd[store][member]` holds `cast`. */
  predicate Recorded(cd: CastData, store: TypeId, member: int, cast: TypeId) {
    HasKey(cd, store) && HasKey(Get(cd, store), member) && cast in Get(Get(cd, store), member)
  }

  /** No destination list holds a type twice. */
  ghost predicate ListsNoDups(cd: CastData) {
    forall k, m :: HasKey(cd, k) && HasKey(Get(cd, k), m) ==> NoDups(Get(Get(cd, k), m))
  }

  /** The nested `if not in: create / append if absent` insertion of one fact. */
  function InsertFact(cd: CastData, x: CastFact): (r: CastData)
    ensures Keys(r) == AppendNew(Keys(cd), x.store)
    ensures forall k, m, c :: Recorded(r, k, m, c) <==> Recorded(cd, k, m, c) || (k == x.store && m == x.member && c == x.cast)
  {
    var inner := if HasKey(cd, x.store) then Get(cd, x.store) else Empty();
    var lst := if HasKey(inner, x.member) then Get(inner, x.member) else [];
    Put(cd, x.store, Put(inner, x.member, AppendNew(lst, x.cast)))
  }

  /** Inserting a fact never repeats a destination in a list. */
  lemma InsertFactNoDups(cd: CastData, x: CastFact)
    ensures ListsNoDups(cd) ==> ListsNoDups(InsertFact(cd, x))
  {
    var inner := if HasKey(cd, x.store) then Get(cd, x.store) else Empty();
    var lst := if HasKey(inner, x.member) then Get(inner, x.member) else [];
    if ListsNoDups(cd) {
      AppendNewNoDups(lst, x.cast);
    }
  }

  /** Inserting one fact keeps the outer and the inner dictionaries well formed. */
  lemma InsertFactInv(cd: CastData, x: CastFact)
    requires CastDataInv(cd)
    ensures CastDataInv(InsertFact(cd, x))
  {
    var inner := if HasKey(cd, x.store) then Get(cd, x.store) else Empty();
    var lst := if HasKey(inner, x.member) then Get(inner, x.member) else [];
    EmptyInv<int, seq<TypeId>>();
    PutInv(inner, x.member, AppendNew(lst, x.cast));
    var inner' := Put(inner, x.member, AppendNew(lst, x.cast));
    PutInv(cd, x.store, inner');
    var r := Put(cd, x.store, inner');
    forall k | HasKey(r, k) ensures DictInv(Get(r, k)) {
      if k != x.store {
        assert HasKey(cd, k);
      }
    }
  }

  lemma {:induction false} InsertFactsInv(cd: CastData, fs: seq<CastFact>)
    requires CastDataInv(cd)
    ensures CastDataInv(InsertFacts(cd, fs))
    decreases |fs|
  {
    if |fs| > 0 {
      InsertFactInv(cd, fs[0]);
      InsertFactsInv(InsertFact(cd, fs[0]), fs[1..]);
    }
  }

  /** All facts inserted left to right. */
  function InsertFacts(cd: CastData, fs: seq<CastFact>): (r: CastData)
    ensures ListsNoDups(cd) ==> ListsNoDups(r)
    decreases |fs|
  {
    if |fs| == 0 then cd
    else
      InsertFactNoDups(cd, fs[0]);
      InsertFacts(InsertFact(cd, fs[0]), fs[1..])
  }

  /** After inserting `fs`, a triple is recorded exactly when it was before or some fact of `fs` carries it. */
  lemma {:induction false} InsertFactsRecorded(cd: CastData, fs: seq<CastFact>, k: TypeId, m: int, c: TypeId)
    ensures Recorded(InsertFacts(cd, fs), k, m, c) <==>
      Recorded(cd, k, m, c) || exists x :: x in fs && x.store == k && x.member == m && x.cast == c
    decreases |fs|
  {
    if |fs| > 0 {
      InsertFactsRecorded(InsertFact(cd, fs[0]), fs[1..], k, m, c);
      assert forall x :: x in fs <==> x == fs[0] || x in fs[1..];
    }
  }

  /**
   * `ret[dup] = copy(ret[k])` for every duplicate `dup` of every key `k` of `keys` that is
   * not yet a key; keys are visited in order and existing entries are never replaced.
   */
  function CopyToDups<V>(db: Db, keys: seq<TypeId>, a: Dict<TypeId, V>): (r: Dict<TypeId, V>)
    requires forall k :: k in keys ==> HasKey(a, k)
    ensures forall k :: HasKey(a, k) ==> HasKey(r, k) && Get(r, k) == Get(a, k)
    ensures forall k, dup :: k in keys && dup in DupsOf(db, k) ==> HasKey(r, dup)
    ensures forall k :: HasKey(r, k) && !HasKey(a, k) ==>
      exists k0 :: k0 in keys && k in DupsOf(db, k0) && Get(r, k) == Get(a, k0)
    decreases |keys|
  {
    if |keys| == 0 then a
    else
      var next := CopyDupsOf(DupsOf(db, keys[0]), Get(a, keys[0]), a);
      var r := CopyToDups(db, keys[1..], next);
      assert forall k :: k in keys ==> k == keys[0] || k in keys[1..];
      r
  }

  /** Every name in `dups` that is not yet a key gets the value `v`. */
  function CopyDupsOf<V>(dups: seq<TypeId>, v: V, a: Dict<TypeId, V>): (r: Dict<TypeId, V>)
    ensures forall k :: HasKey(a, k) ==> HasKey(r, k) && Get(r, k) == Get(a, k)
    ensures forall dup :: dup in dups ==> HasKey(r, dup)
    ensures forall k :: HasKey(r, k) && !HasKey(a, k) ==> k in dups && Get(r, k) == v
    decreases |dups|
  {
    if |dups| == 0 then a
    else
      var next := if HasKey(a, dups[0]) then a else Put(a, dups[0], v);
      CopyDupsOf(dups[1..], v, next)
  }

  lemma {:induction false} CopyDupsOfInv<V>(dups: seq<TypeId>, v: V, a: Dict<TypeId, V>)
    requires DictInv(a)
    ensures DictInv(CopyDupsOf(dups, v, a))
    decreases |dups|
  {
    if |dups| > 0 {
      if !HasKey(a, dups[0]) {
        PutInv(a, dups[0], v);
      }
      var next := if HasKey(a, dups[0]) then a else Put(a, dups[0], v);
      CopyDupsOfInv(dups[1..], v, next);
    }
  }

  lemma {:induction false} CopyToDupsInv<V>(db: Db, keys: seq<TypeId>, a: Dict<TypeId, V>)
    requires DictInv(a) && forall k :: k in keys ==> HasKey(a, k)
    ensures DictInv(CopyToDups(db, keys, a))
    decreases |keys|
  {
    if |keys| > 0 {
      CopyDupsOfInv(DupsOf(db, keys[0]), Get(a, keys[0]), a);
      var next := CopyDupsOf(DupsOf(db, keys[0]), Get(a, keys[0]), a);
      assert forall k :: k in keys[1..] ==> k in keys;
      CopyToDupsInv(db, keys[1..], next);
    }
  }

  /**
   * `_get_cast_from_deref`: None for an offsetof deref, for pointer arithmetic (an
   * assign whose operator code is not 21) and when no operand yields an accepted cast;
   * otherwise the accepted facts, then copies for the duplicates of every source.
   */
  function CastFromDeref(db: Db, d: Deref, f: Function): (r: Option<CastData>)
    ensures d.kind == KOffsetof ==> r.None?
    ensures d.kind == KAssign && d.offset != 21 ==> r.None?
  {
    if d.kind == KOffsetof then None
    else if d.kind == KAssign && d.offset != 21 then None
    else
      var fs := OperandFacts(db, d, f, d.offsetrefs);
      if |fs| == 0 then None
      else
        var cd := InsertFacts(Empty(), fs);
        EmptyInv<TypeId, Dict<int, seq<TypeId>>>();
        InsertFactsInv(Empty(), fs);
        Some(CopyToDups(db, Keys(cd), cd))
  }

  /**
   * Operand `o` yields a fact with member `m` and destination `c`, stored under `k` or under
   * a type `k` duplicates, whose source differs from `c` after typedef stripping and has
   * the same size.
   */
  predicate Explains(db: Db, d: Deref, f: Function, o: Operand, k: TypeId, m: int, c: TypeId) {
    var r := OperandFact(db, d, f, o);
    r.Some? && r.value.member == m && r.value.cast == c && (r.value.store == k || k in DupsOf(db, r.value.store)) &&
    r.value.srcNoTd != StripTypedef(db, TypeOf(db, c)).id &&
    TypeOf(db, r.value.srcNoTd).size == TypeOf(db, StripTypedef(db, TypeOf(db, c)).id).size
  }

  /**
   * Every recorded cast `k -> m -> c` comes from an operand of the deref whose accepted fact
   * has member `m` and destination `c`, stored under `k` or under a type `k` duplicates; its
   * source and destination differ after typedef stripping and have equal sizes, and a
   * `void*` destination only ever comes from a `return`.
   */
  lemma CastFromDerefSound(db: Db, d: Deref, f: Function, k: TypeId, m: int, c: TypeId)
    requires CastFromDeref(db, d, f).Some? && Recorded(CastFromDeref(db, d, f).value, k, m, c)
    ensures exists o :: o in d.offsetrefs && Explains(db, d, f, o, k, m, c)
    ensures IsVoidPtr(db, TypeOf(db, c)) ==> d.kind == KReturn
    ensures d.kind != KOffsetof && !(d.kind == KAssign && d.offset != 21)
  {
    var x := RecordedFact(db, d, f, k, m, c);
    var o :| o in d.offsetrefs && OperandFact(db, d, f, o) == Some(x);
    assert Explains(db, d, f, o, k, m, c);
  }

  /** The accepted fact a recorded triple was inserted from, directly or as a duplicate's copy. */
  lemma RecordedFact(db: Db, d: Deref, f: Function, k: TypeId, m: int, c: TypeId) returns (x: CastFact)
    requires CastFromDeref(db, d, f).Some? && Recorded(CastFromDeref(db, d, f).value, k, m, c)
    ensures x in OperandFacts(db, d, f, d.offsetrefs)
    ensures x.member == m && x.cast == c && (x.store == k || k in DupsOf(db, x.store))
  {
    var fs := OperandFacts(db, d, f, d.offsetrefs);
    var cd := InsertFacts(Empty(), fs);
    EmptyInv<TypeId, Dict<int, seq<TypeId>>>();
    InsertFactsInv(Empty(), fs);
    var r := CopyToDups(db, Keys(cd), cd);
    var k0 := k;
    if !HasKey(cd, k) {
      k0 :| k0 in Keys(cd) && k in DupsOf(db, k0) && Get(r, k) == Get(cd, k0);
    }
    assert Recorded(cd, k0, m, c);
    InsertFactsRecorded(Empty(), fs, k0, m, c);
    x :| x in fs && x.store == k0 && x.member == m && x.cast == c;
  }

  /** Every fact an operand yields is recorded, and every duplicate of its store gets an entry. */
  lemma CastFromDerefComplete(db: Db, d: Deref, f: Function, o: Operand)
    requires d.kind != KOffsetof && !(d.kind == KAssign && d.offset != 21)
    requires o in d.offsetrefs && OperandFact(db, d, f, o).Some?
    ensures CastFromDeref(db, d, f).Some?
    ensures var x := OperandFact(db, d, f, o).value;
      Recorded(CastFromDeref(db, d, f).value, x.store, x.member, x.cast) &&
      forall dup :: dup in DupsOf(db, x.store) ==> HasKey(CastFromDeref(db, d, f).value, dup)
  {
    var x := OperandFact(db, d, f, o).value;
    var fs := OperandFacts(db, d, f, d.offsetrefs);
    var cd := InsertFacts(Empty(), fs);
    InsertFactsRecorded(Empty(), fs, x.store, x.member, x.cast);
    EmptyInv<TypeId, Dict<int, seq<TypeId>>>();
    InsertFactsInv(Empty(), fs);
    assert x.store in Keys(cd);
  }

  /** The cast data's key lists and maps agree, at both levels. */
  lemma CastFromDerefInv(db: Db, d: Deref, f: Function)
    requires CastFromDeref(db, d, f).Some?
    ensures CastDataInv(CastFromDeref(db, d, f).value)
  {
    var fs := OperandFacts(db, d, f, d.offsetrefs);
    EmptyInv<TypeId, Dict<int, seq<TypeId>>>();
    InsertFactsInv(Empty(), fs);
    var cd := InsertFacts(Empty(), fs);
    CopyToDupsInv(db, Keys(cd), cd);
    var r := CopyToDups(db, Keys(cd), cd);
    forall k | HasKey(r, k) ensures DictInv(Get(r, k)) {
      if !HasKey(cd, k) {
        var k0 :| k0 in Keys(cd) && k in DupsOf(db, k0) && Get(r, k) == Get(cd, k0);
      }
    }
  }

  /** No destination list of the cast data repeats a type. */
  lemma CastFromDerefWellFormed(db: Db, d: Deref, f: Function)
    requires CastFromDeref(db, d, f).Some?
    ensures ListsNoDups(CastFromDeref(db, d, f).value)
  {
    var fs := OperandFacts(db, d, f, d.offsetrefs);
    var cd := InsertFacts(Empty(), fs);
    EmptyInv<TypeId, Dict<int, seq<TypeId>>>();
    InsertFactsInv(Empty(), fs);
    var r := CopyToDups(db, Keys(cd), cd);
    forall k, m | HasKey(r, k) && HasKey(Get(r, k), m) ensures NoDups(Get(Get(r, k), m)) {
      if !HasKey(cd, k) {
        var k0 :| k0 in Keys(cd) && k in DupsOf(db, k0) && Get(r, k) == Get(cd, k0);
      }
    }
  }

  // ---------------------------------------------------------------------------
  // Offsetof

  /** A `(type chain, member chain)` pair of an offsetof expression. */
  type OffsetEntry = (seq<TypeId>, seq<int>)

  /** `inner type -> [(type chain, member chain)]`; keys in insertion order. */
  type OffsetData = Dict<TypeId, seq<OffsetEntry>>

  /** The type reached by an offsetof: member `members[-1]` of the last type of the chain. */
  function OffsetofSource(db: Db, d: Deref): TypeId {
    At(TypeOf(db, Last(d.types, -1)).refs, Last(d.members, -1), -1)
  }

  /** Adds `dup -> v` for every `dup` of `dups` that is not yet a key. */
  function AppendAbsent(a: OffsetData, dups: seq<TypeId>, v: seq<OffsetEntry>): (r: OffsetData)
    ensures Keys(a) <= Keys(r)
    ensures forall k :: HasKey(a, k) ==> HasKey(r, k) && Get(r, k) == Get(a, k)
    ensures forall k :: HasKey(r, k) && !HasKey(a, k) ==> k in dups && Get(r, k) == v
    ensures forall dup :: dup in dups ==> HasKey(r, dup)
    decreases |dups|
  {
    if |dups| == 0 then a
    else
      var next := if HasKey(a, dups[0]) then a else Put(a, dups[0], v);
      var r := AppendAbsent(next, dups[1..], v);
      assert forall dup :: dup in dups ==> dup == dups[0] || dup in dups[1..];
      r
  }

  lemma {:induction false} AppendAbsentInv(a: OffsetData, dups: seq<TypeId>, v: seq<OffsetEntry>)
    requires DictInv(a)
    ensures DictInv(AppendAbsent(a, dups, v))
    decreases |dups|
  {
    if |dups| > 0 {
      if !HasKey(a, dups[0]) {
        PutInv(a, dups[0], v);
      }
      var next := if HasKey(a, dups[0]) then a else Put(a, dups[0], v);
      AppendAbsentInv(next, dups[1..], v);
    }
  }

  /**
   * `_get_offsetof_from_deref`: None unless the deref is an offsetof; otherwise the source
   * type is the first key and maps to the one-element list `[(type chain, member chain)]`,
   * every other key is a duplicate of the source, and every duplicate receives an equal list.
   */
  function OffsetofFromDeref(db: Db, d: Deref): (r: Option<OffsetData>)
    ensures r.None? <==> d.kind != KOffsetof
    ensures r.Some? ==> |Keys(r.value)| > 0 && Keys(r.value)[0] == OffsetofSource(db, d)
    ensures r.Some? ==> forall k :: HasKey(r.value, k) ==> Get(r.value, k) == [(d.types, d.members)]
    ensures r.Some? ==> forall k :: HasKey(r.value, k) && k != OffsetofSource(db, d) ==> k in DupsOf(db, OffsetofSource(db, d))
    ensures r.Some? ==> forall dup :: dup in DupsOf(db, OffsetofSource(db, d)) ==> HasKey(r.value, dup)
  {
    if d.kind != KOffsetof then None
    else
      var src := OffsetofSource(db, d);
      var v := [(d.types, d.members)];
      var first := Put(Empty(), src, v);
      assert Keys(first) == [src];
      assert forall k :: HasKey(first, k) <==> k == src;
      var r := AppendAbsent(first, DupsOf(db, src), v);
      assert forall k :: HasKey(r, k) ==> Get(r, k) == v;
      Some(r)
  }

  /** The keys of an offsetof's data are its source type and that type's duplicates, each holding only its pair. */
  lemma OffsetofFromDerefHas(db: Db, d: Deref, k: TypeId, e: OffsetEntry)
    requires d.kind == KOffsetof
    ensures var od := OffsetofFromDeref(db, d).value; var src := OffsetofSource(db, d);
      (k in Keys(od) <==> k == src || k in DupsOf(db, src)) &&
      (HasKey(od, k) ==> (e in Get(od, k) <==> e == (d.types, d.members)))
  {
    OffsetofFromDerefInv(db, d);
  }

  /** The offsetof data's key list and its map agree. */
  lemma OffsetofFromDerefInv(db: Db, d: Deref)
    requires d.kind == KOffsetof
    ensures DictInv(OffsetofFromDeref(db, d).value)
  {
    var src := OffsetofSource(db, d);
    var v := [(d.types, d.members)];
    EmptyInv<TypeId, seq<OffsetEntry>>();
    PutInv(Empty(), src, v);
    AppendAbsentInv(Put(Empty(), src, v), DupsOf(db, src), v);
  }
}
