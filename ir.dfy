/**
 * The in-memory program database the analysis reads: types, functions with their
 * dereference ("deref") records, locals and calls, globals, and the type-equivalence
 * table. The lookups the database layer provides (type by id, typedef stripping,
 * pointer/array stripping, function by id) are fields of `Db`; their code is not modelled.
 */
module Ir {

  import opened Basics

  type TypeId = int
  type FuncId = int

  /** Sentinel member number meaning "the cast applies to the whole object" (`CAST_PTR_NO_MEMBER`). */
  const NoMember: int := -1

  datatype TypeClass =
    | Builtin | Pointer | Record | RecordForward | Enum | Typedef
    | ConstArray | IncompleteArray | Attributed | FunctionType | OtherClass

  /**
   * One entry of the type table. `size` is in bits. `usedrefs` holds, per member, the id of
   * the member's type when the member is known to be used and -1 otherwise (a type without
   * the key is given the empty list). `bitfields` lists (member index, bit width) pairs.
   */
  datatype Type = Type(
    id: TypeId,
    cls: TypeClass,
    str: string,
    refs: seq<TypeId>,
    refnames: seq<string>,
    size: int,
    usedrefs: seq<int>,
    bitfields: seq<(int, int)>)

  /** The C operator or context a deref record was produced for. */
  datatype DerefKind = KMember | KArray | KAssign | KInit | KReturn | KOffsetof | KCond | KLogic | KOtherKind

  /** What an operand ("offsetref") of a deref refers to. */
  datatype OperandKind =
    | OMember | OLocal | OParm | OGlobal | OCallref | OInteger | OLogic | OAddress
    | OArray | OUnary | OAssign | OFunction | OOtherKind

  /** An operand of a deref: its kind, the index it refers to (meaning depends on the kind), and an optional cast type. */
  datatype Operand = Operand(kind: OperandKind, id: int, cast: Option<TypeId>)

  /**
   * A deref record. `ords` are the positions of its occurrences in the function's flow;
   * `offset` is the operator code or constant offset; `hasType` says whether the record
   * carries the `type` list; `types`/`members` are the chain of record types and member
   * numbers of a member expression; `access` says, per chain element, whether it was
   * reached through `->` (1) or `.` (0).
   */
  datatype Deref = Deref(
    kind: DerefKind,
    ords: seq<int>,
    offset: int,
    basecnt: int,
    csid: int,
    expr: string,
    offsetrefs: seq<Operand>,
    hasType: bool,
    types: seq<TypeId>,
    members: seq<int>,
    access: seq<int>)

  datatype Local = Local(typ: TypeId, isParm: bool)

  datatype CallInfo = CallInfo(ords: seq<int>, args: seq<int>)

  datatype ControlFlow = CfDo | CfWhile | CfFor | CfIf | CfOther

  /** A compound-statement entry: its id and the control-flow construct it belongs to, if any. */
  datatype CsEntry = CsEntry(id: int, cf: Option<ControlFlow>)

  /** `types[0]` is the return type, the rest are the parameter types. */
  datatype Function = Function(
    id: FuncId,
    types: seq<TypeId>,
    locals: seq<Local>,
    derefs: seq<Deref>,
    calls: seq<FuncId>,
    callInfo: seq<CallInfo>,
    csmap: seq<CsEntry>)

  datatype Global = Global(typ: TypeId)

  /**
   * The database. `types` is the type map, `typedefDsts` the result of the database's
   * typedef stripping for the ids it is asked about, `realTypes` that of its stripping of
   * pointers and arrays, `dupTypes` the table of equivalent type ids, `functions` the
   * function map (a missing id stands for the database returning None) and `globals` the
   * global variables.
   */
  datatype Db = Db(
    types: map<TypeId, Type>,
    typedefDsts: map<TypeId, TypeId>,
    realTypes: map<TypeId, TypeId>,
    dupTypes: map<TypeId, seq<TypeId>>,
    functions: map<FuncId, Function>,
    globals: map<int, Global>)

  /** `typemap[tid]`; an id the map lacks reads as a placeholder entry carrying that id. */
  function TypeOf(db: Db, tid: TypeId): (t: Type)
    ensures tid in db.types ==> t == db.types[tid]
    ensures tid !in db.types ==> t == DefaultType.(id := tid)
  {
    if tid in db.types then db.types[tid] else DefaultType.(id := tid)
  }

  /** `_get_typedef_dst` on an id; an id the database does not list is its own destination. */
  function TypedefDst(db: Db, tid: TypeId): TypeId {
    if tid in db.typedefDsts then db.typedefDsts[tid] else tid
  }

  /** `_get_real_type` on an id; an id the database does not list is its own real type. */
  function RealType(db: Db, tid: TypeId): TypeId {
    if tid in db.realTypes then db.realTypes[tid] else tid
  }

  /** The database's `_get_typedef_dst` applied to a type value: the first non-typedef type behind it. */
  function StripTypedef(db: Db, t: Type): Type {
    TypeOf(db, TypedefDst(db, t.id))
  }

  /** `t_id in dup_types and other in dup_types[t_id]`. */
  predicate IsDupOf(db: Db, tid: TypeId, other: TypeId) {
    tid in db.dupTypes && other in db.dupTypes[tid]
  }

  /** The duplicates listed for `tid`, or none. */
  function DupsOf(db: Db, tid: TypeId): seq<TypeId> {
    if tid in db.dupTypes then db.dupTypes[tid] else []
  }

  const DefaultType: Type := Type(-1, OtherClass, "", [], [], 0, [], [])
  const DefaultDeref: Deref := Deref(KOtherKind, [], 0, 0, -1, "", [], false, [], [], [])
  const DefaultLocal: Local := Local(-1, false)
  const DefaultCallInfo: CallInfo := CallInfo([], [])

  /** `f["derefs"][i]`, with a neutral record for an index out of range. */
  function DerefAt(f: Function, i: int): Deref {
    At(f.derefs, i, DefaultDeref)
  }

  function LocalAt(f: Function, i: int): Local {
    At(f.locals, i, DefaultLocal)
  }

  function CallInfoAt(f: Function, i: int): CallInfo {
    At(f.callInfo, i, DefaultCallInfo)
  }

  /** Every type in the table carries its own id. */
  predicate ConsistentIds(db: Db) {
    forall k :: k in db.types ==> db.types[k].id == k
  }

  /**
   * What the database promises of `_get_typedef_dst`: it ends at a type that is not a
   * typedef, and a type that is not a typedef is its own destination.
   */
  ghost predicate TypedefsResolve(db: Db) {
    forall tid :: TypeOf(db, TypedefDst(db, tid)).cls != Typedef &&
      (TypeOf(db, tid).cls != Typedef ==> TypedefDst(db, tid) == tid)
  }

  /** In a consistent table every lookup, placeholder or not, carries the id it was looked up by. */
  lemma TypeOfCarriesId(db: Db, tid: TypeId)
    requires ConsistentIds(db)
    ensures TypeOf(db, tid).id == tid
  {
  }
}
