/**
 * The record members one member-expression deref uses (`_get_member_access_from_deref`):
 * per element of the member chain, a copy of the record with the members seen so far
 * marked by their types' ids, then the merge of the marks between duplicate types and
 * copies for the duplicates.
 */
module MemberAccess {

  import opened Basics
  import opened Ir
  import opened Facts

  /** Outcome of `_get_member_access_from_deref`: no access, the raised error, or the used types and the access order. */
  datatype AccessResult = NoAccess | AccessError | Access(data: Dict<TypeId, Type>, order: seq<TypeId>)

  /** A copy of `t` with every member marked unused. */
  function Unmarked(t: Type): (u: Type)
    ensures u.id == t.id && u.refs == t.refs && |u.usedrefs| == |t.usedrefs|
    ensures forall i :: 0 <= i < |u.usedrefs| ==> u.usedrefs[i] == -1
  {
    t.(usedrefs := Unused(|t.usedrefs|))
  }

  /** `n` unused-member marks. */
  function Unused(n: nat): (s: seq<int>)
    ensures |s| == n && forall i :: 0 <= i < n ==> s[i] == -1
  {
    if n == 0 then [] else Unused(n - 1) + [-1]
  }

  /** Element `mi` of the chain resolved as the database sees it: through `->` the pointee, then typedef-stripped. */
  function AccessedType(db: Db, d: Deref, mi: int): Type {
    var t0 := TypeOf(db, At(d.types, mi, -1));
    var t1 := if At(d.access, mi, 0) == 1 then TypeOf(db, RealType(db, StripTypedef(db, t0).id)) else t0;
    StripTypedef(db, t1)
  }

  /** The record behind a member's type, when that is a record, is recorded as used too. */
  function MemberRecord(db: Db, memberTid: TypeId): Type {
    StripTypedef(db, TypeOf(db, RealType(db, memberTid)))
  }

  /** What one element of the member chain contributes: the record accessed, the member number, and the record behind the member's type. */
  datatype ChainStep = ChainStep(rec: Type, member: int, memberRec: Type)

  /** The type id the member is marked with: the record's `refs[member]`. */
  function MemberTid(s: ChainStep): TypeId {
    At(s.rec.refs, s.member, -1)
  }

  /** Element `mi` of the chain as the loop reads it from the database. */
  function StepAt(db: Db, d: Deref, mi: int): ChainStep {
    var t := AccessedType(db, d, mi);
    var m := At(d.members, mi, -1);
    ChainStep(t, m, MemberRecord(db, At(t.refs, m, -1)))
  }

  /** The chain elements from position `mi` on. */
  function StepsFrom(db: Db, d: Deref, mi: nat): (ss: seq<ChainStep>)
    requires mi <= |d.access|
    ensures |ss| == |d.access| - mi
    ensures forall j :: 0 <= j < |ss| ==> ss[j] == StepAt(db, d, mi + j)
    decreases |d.access| - mi
  {
    if mi == |d.access| then [] else [StepAt(db, d, mi)] + StepsFrom(db, d, mi + 1)
  }

  /**
   * One element of the member chain: None where the member is already marked with a
   * different type id (the raised error); otherwise the updated map.
   */
  function AccessStep(s: ChainStep, ret: Dict<TypeId, Type>): (r: Option<Dict<TypeId, Type>>)
    ensures r.Some? ==> KeysKept(ret, r.value) && HasKey(r.value, s.rec.id)
  {
    var key := s.rec.id;
    var ret1 := WithEntry(ret, s.rec);
    var item := Get(ret1, key);
    var cur := At(item.usedrefs, s.member, -1);
    if cur != -1 && cur != MemberTid(s) then None
    else
      var ret2 := Put(ret1, key, item.(usedrefs := UpdateAt(item.usedrefs, s.member, MemberTid(s))));
      Some(WithEntryIfRecord(ret2, s.memberRec))
  }

  /** `ret` with an unmarked entry for `t` added when it has none. */
  function WithEntry(ret: Dict<TypeId, Type>, t: Type): (r: Dict<TypeId, Type>)
    ensures KeysKept(ret, r) && HasKey(r, t.id)
    ensures HasKey(ret, t.id) ==> r == ret
    ensures !HasKey(ret, t.id) ==> r == Put(ret, t.id, Unmarked(t))
  {
    if HasKey(ret, t.id) then ret else Put(ret, t.id, Unmarked(t))
  }

  /** `ret` with an unmarked entry for `mt` added when `mt` is a record that has none. */
  function WithEntryIfRecord(ret: Dict<TypeId, Type>, mt: Type): (r: Dict<TypeId, Type>)
    ensures KeysKept(ret, r)
    ensures mt.cls == Record ==> r == WithEntry(ret, mt)
    ensures mt.cls != Record ==> r == ret
  {
    if mt.cls == Record then WithEntry(ret, mt) else ret
  }

  /** The per-element loop of `_get_member_access_from_deref`; None is the raised error. */
  function AccessLoop(steps: seq<ChainStep>, ret: Dict<TypeId, Type>): Option<Dict<TypeId, Type>>
    decreases |steps|
  {
    if |steps| == 0 then Some(ret)
    else
      var step := AccessStep(steps[0], ret);
      if step.None? then None
      else AccessLoop(steps[1..], step.value)
  }

  lemma AccessStepInv(s: ChainStep, ret: Dict<TypeId, Type>)
    requires DictInv(ret) && AccessStep(s, ret).Some?
    ensures DictInv(AccessStep(s, ret).value)
  {
    var key := s.rec.id;
    if !HasKey(ret, key) {
      PutInv(ret, key, Unmarked(s.rec));
    }
    var ret1 := WithEntry(ret, s.rec);
    var item := Get(ret1, key);
    var marked := item.(usedrefs := UpdateAt(item.usedrefs, s.member, MemberTid(s)));
    PutInv(ret1, key, marked);
    var ret2 := Put(ret1, key, marked);
    if s.memberRec.cls == Record && !HasKey(ret2, s.memberRec.id) {
      PutInv(ret2, s.memberRec.id, Unmarked(s.memberRec));
    }
  }

  lemma {:induction false} AccessLoopInv(steps: seq<ChainStep>, ret: Dict<TypeId, Type>)
    requires DictInv(ret) && AccessLoop(steps, ret).Some?
    ensures DictInv(AccessLoop(steps, ret).value)
    decreases |steps|
  {
    if |steps| > 0 {
      AccessStepInv(steps[0], ret);
      AccessLoopInv(steps[1..], AccessStep(steps[0], ret).value);
    }
  }

  /** The loop never drops a key it was given. */
  lemma {:induction false} AccessLoopKeepsKeys(steps: seq<ChainStep>, ret: Dict<TypeId, Type>)
    requires AccessLoop(steps, ret).Some?
    ensures KeysKept(ret, AccessLoop(steps, ret).value)
    decreases |steps|
  {
    if |steps| > 0 {
      AccessLoopKeepsKeys(steps[1..], AccessStep(steps[0], ret).value);
    }
  }

  /** The loop adds an entry for the record of every chain element it visits. */
  lemma {:induction false} AccessLoopKeys(steps: seq<ChainStep>, ret: Dict<TypeId, Type>)
    requires AccessLoop(steps, ret).Some?
    ensures forall j :: 0 <= j < |steps| ==> HasKey(AccessLoop(steps, ret).value, steps[j].rec.id)
    decreases |steps|
  {
    if |steps| > 0 {
      var next := AccessStep(steps[0], ret).value;
      AccessLoopKeys(steps[1..], next);
      AccessLoopKeepsKeys(steps[1..], next);
      var r := AccessLoop(steps[1..], next).value;
      forall j | 0 <= j < |steps| ensures HasKey(r, steps[j].rec.id) {
        if j == 0 {
          assert HasKey(next, steps[0].rec.id);
        } else {
          assert steps[j] == steps[1..][j - 1];
        }
      }
    }
  }

  /** The record ids of the chain, in chain order (`access_order`). */
  function ChainOrder(steps: seq<ChainStep>): (ks: seq<TypeId>)
    ensures |ks| == |steps|
    ensures forall j :: 0 <= j < |steps| ==> ks[j] == steps[j].rec.id
  {
    if |steps| == 0 then [] else [steps[0].rec.id] + ChainOrder(steps[1..])
  }

  /** One index of the duplicate merge at 3283-3288, `==  1` test included. */
  function MergeMark(x: int, y: int): (r: (int, int))
    ensures x != -1 ==> r.0 == x
    ensures y != -1 ==> r.1 != -1
    ensures r.0 == -1 ==> x == -1 && (y == -1 || y == 1)
  {
    if (x != -1 && y == 1) || (x == -1 && y != 1) then
      if x == -1 then (y, y) else (x, x)
    else (x, y)
  }

  /** Index-wise merge of two `usedrefs` lists over the first list's length (indices past the second are skipped). */
  function MergeMarks(a: seq<int>, b: seq<int>): (r: (seq<int>, seq<int>))
    ensures |r.0| == |a| && |r.1| == |b|
    ensures forall i :: 0 <= i < |a| && i < |b| ==> (r.0[i], r.1[i]) == MergeMark(a[i], b[i])
    ensures forall i :: |b| <= i < |a| ==> r.0[i] == a[i]
    ensures forall i :: |a| <= i < |b| ==> r.1[i] == b[i]
  {
    (seq(|a|, i requires 0 <= i < |a| => if i < |b| then MergeMark(a[i], b[i]).0 else a[i]),
     seq(|b|, i requires 0 <= i < |b| => if i < |a| then MergeMark(a[i], b[i]).1 else b[i]))
  }

  /** The merge between a key and one of its duplicates that is also a key. */
  function MergePair(ret: Dict<TypeId, Type>, k: TypeId, dup: TypeId): (r: Dict<TypeId, Type>)
    requires DictInv(ret) && HasKey(ret, k) && HasKey(ret, dup)
    ensures DictInv(r) && Keys(r) == Keys(ret)
    ensures forall k' :: HasKey(r, k') <==> HasKey(ret, k')
  {
    var t := Get(ret, k);
    var t2 := Get(ret, dup);
    var m := MergeMarks(t.usedrefs, t2.usedrefs);
    var r1 := Put(ret, k, t.(usedrefs := m.0));
    PutInv(ret, k, t.(usedrefs := m.0));
    PutInv(r1, dup, t2.(usedrefs := m.1));
    Put(r1, dup, t2.(usedrefs := m.1))
  }

  /** `for dup in dups: if dup in ret: merge`. */
  function MergeWithDups(ret: Dict<TypeId, Type>, k: TypeId, dups: seq<TypeId>): (r: Dict<TypeId, Type>)
    requires DictInv(ret) && HasKey(ret, k)
    ensures DictInv(r) && Keys(r) == Keys(ret)
    ensures forall k' :: HasKey(r, k') <==> HasKey(ret, k')
    decreases |dups|
  {
    if |dups| == 0 then ret
    else MergeWithDups(if HasKey(ret, dups[0]) then MergePair(ret, k, dups[0]) else ret, k, dups[1..])
  }

  /** The merge loop over a snapshot of the keys. */
  function MergeDups(db: Db, keys: seq<TypeId>, ret: Dict<TypeId, Type>): (r: Dict<TypeId, Type>)
    requires DictInv(ret) && forall k :: k in keys ==> HasKey(ret, k)
    ensures DictInv(r) && Keys(r) == Keys(ret)
    ensures forall k' :: HasKey(r, k') <==> HasKey(ret, k')
    decreases |keys|
  {
    if |keys| == 0 then ret
    else
      var next := if keys[0] in db.dupTypes then MergeWithDups(ret, keys[0], db.dupTypes[keys[0]]) else ret;
      assert Keys(next) == Keys(ret);
      assert forall k :: HasKey(ret, k) ==> HasKey(next, k);
      assert forall k :: k in keys[1..] ==> k in keys;
      MergeDups(db, keys[1..], next)
  }

  /** True when one of the operands takes an address. */
  function HasAddressOperand(os: seq<Operand>): (r: bool)
    ensures r <==> exists i :: 0 <= i < |os| && os[i].kind == OAddress
  {
    if |os| == 0 then false
    else if os[0].kind == OAddress then true
    else
      assert forall i :: 1 <= i < |os| ==> os[i] == os[1..][i - 1];
      HasAddressOperand(os[1..])
  }

  /**
   * `_get_member_access_from_deref`: nothing for a non-member deref or one that takes an
   * address; otherwise, per element of the member chain, the (typedef-stripped) record is
   * copied with every member unmarked the first time it is met and the member is marked
   * with its type's id; a member already marked with another id is the raised error.
   * Records reached through a member are recorded too; then duplicates are merged and copied.
   */
  function MemberAccessFromDeref(db: Db, d: Deref): (r: AccessResult)
    ensures r.NoAccess? <==> d.kind != KMember || HasAddressOperand(d.offsetrefs)
  {
    if d.kind != KMember || HasAddressOperand(d.offsetrefs) then NoAccess
    else
      var steps := StepsFrom(db, d, 0);
      var loop := AccessLoop(steps, Empty());
      if loop.None? then AccessError
      else
        EmptyInv<TypeId, Type>();
        AccessLoopInv(steps, Empty());
        var merged := MergeDups(db, Keys(loop.value), loop.value);
        Access(CopyToDups(db, Keys(merged), merged), ChainOrder(steps))
  }

  /** The access order lists the record of every chain element, and each of them has an entry. */
  lemma MemberAccessOrder(db: Db, d: Deref)
    requires MemberAccessFromDeref(db, d).Access?
    ensures |MemberAccessFromDeref(db, d).order| == |d.access|
    ensures forall i :: 0 <= i < |d.access| ==>
      MemberAccessFromDeref(db, d).order[i] == AccessedType(db, d, i).id &&
      HasKey(MemberAccessFromDeref(db, d).data, MemberAccessFromDeref(db, d).order[i])
  {
    var steps := StepsFrom(db, d, 0);
    AccessLoopKeys(steps, Empty());
    EmptyInv<TypeId, Type>();
    AccessLoopInv(steps, Empty());
    var loop := AccessLoop(steps, Empty()).value;
    var merged := MergeDups(db, Keys(loop), loop);
    var r := MemberAccessFromDeref(db, d);
    assert r.data == CopyToDups(db, Keys(merged), merged) && r.order == ChainOrder(steps);
    forall i | 0 <= i < |d.access| ensures r.order[i] == AccessedType(db, d, i).id && HasKey(r.data, r.order[i]) {
      assert steps[i] == StepAt(db, d, i);
      assert HasKey(merged, steps[i].rec.id);
    }
  }

  /** An entry carries the refs of its key's table entry and marks members only with their types' ids. */
  ghost predicate EntryAgrees(db: Db, k: TypeId, t: Type) {
    t.refs == TypeOf(db, k).refs &&
    forall i :: 0 <= i < |t.usedrefs| ==> t.usedrefs[i] == -1 || t.usedrefs[i] == At(t.refs, i, -1)
  }

  ghost predicate MarksAgree(db: Db, ret: Dict<TypeId, Type>) {
    forall k :: HasKey(ret, k) ==> EntryAgrees(db, k, Get(ret, k))
  }

  lemma PutAgrees(db: Db, ret: Dict<TypeId, Type>, k: TypeId, t: Type)
    requires MarksAgree(db, ret) && EntryAgrees(db, k, t)
    ensures MarksAgree(db, Put(ret, k, t))
  {
    var r := Put(ret, k, t);
    forall k' | HasKey(r, k') ensures EntryAgrees(db, k', Get(r, k')) {
      if k' != k {
        assert HasKey(ret, k');
      }
    }
  }

  /** Writing a member's own type id as its mark keeps an entry in agreement. */
  lemma MarkAgrees(db: Db, k: TypeId, t: Type, m: int)
    requires EntryAgrees(db, k, t)
    ensures EntryAgrees(db, k, t.(usedrefs := UpdateAt(t.usedrefs, m, At(t.refs, m, -1))))
  {
  }

  lemma WithEntryAgrees(db: Db, ret: Dict<TypeId, Type>, t: Type)
    requires MarksAgree(db, ret) && TypeOf(db, t.id) == t
    ensures MarksAgree(db, WithEntry(ret, t))
  {
    if !HasKey(ret, t.id) {
      PutAgrees(db, ret, t.id, Unmarked(t));
    }
  }

  /** Both records of a step are the table's entries under their own ids. */
  predicate StepFromTable(db: Db, s: ChainStep) {
    TypeOf(db, s.rec.id) == s.rec && TypeOf(db, s.memberRec.id) == s.memberRec
  }

  /** On a table whose entries carry their own ids, every step is read from the table. */
  lemma StepAtFromTable(db: Db, d: Deref, mi: int)
    requires ConsistentIds(db)
    ensures StepFromTable(db, StepAt(db, d, mi))
  {
    var t0 := TypeOf(db, At(d.types, mi, -1));
    var t1 := if At(d.access, mi, 0) == 1 then TypeOf(db, RealType(db, StripTypedef(db, t0).id)) else t0;
    TypeOfCarriesId(db, TypedefDst(db, t1.id));
    var s := StepAt(db, d, mi);
    TypeOfCarriesId(db, TypedefDst(db, TypeOf(db, RealType(db, MemberTid(s))).id));
  }

  /** A step read from the table never raises and keeps the marks consistent. */
  lemma AccessStepAgrees(db: Db, s: ChainStep, ret: Dict<TypeId, Type>)
    requires MarksAgree(db, ret) && StepFromTable(db, s)
    ensures AccessStep(s, ret).Some?
    ensures MarksAgree(db, AccessStep(s, ret).value)
  {
    var key := s.rec.id;
    WithEntryAgrees(db, ret, s.rec);
    var ret1 := WithEntry(ret, s.rec);
    var item := Get(ret1, key);
    assert EntryAgrees(db, key, item);
    MarkAgrees(db, key, item, s.member);
    var marked := item.(usedrefs := UpdateAt(item.usedrefs, s.member, MemberTid(s)));
    PutAgrees(db, ret1, key, marked);
    var ret2 := Put(ret1, key, marked);
    if s.memberRec.cls == Record {
      WithEntryAgrees(db, ret2, s.memberRec);
    }
  }

  lemma {:induction false} AccessLoopAgrees(db: Db, steps: seq<ChainStep>, ret: Dict<TypeId, Type>)
    requires MarksAgree(db, ret) && forall j :: 0 <= j < |steps| ==> StepFromTable(db, steps[j])
    ensures AccessLoop(steps, ret).Some?
    decreases |steps|
  {
    if |steps| > 0 {
      AccessStepAgrees(db, steps[0], ret);
      assert forall j :: 0 <= j < |steps| - 1 ==> steps[1..][j] == steps[j + 1];
      AccessLoopAgrees(db, steps[1..], AccessStep(steps[0], ret).value);
    }
  }

  /**
   * The error raised when one member resolves to two different types cannot happen on a
   * type table in which every entry carries its own id.
   */
  lemma MemberAccessNeverFailsOnConsistentTable(db: Db, d: Deref)
    requires ConsistentIds(db)
    ensures !MemberAccessFromDeref(db, d).AccessError?
  {
    if d.kind == KMember && !HasAddressOperand(d.offsetrefs) {
      var steps := StepsFrom(db, d, 0);
      forall j | 0 <= j < |steps| ensures StepFromTable(db, steps[j]) {
        StepAtFromTable(db, d, j);
      }
      AccessLoopAgrees(db, steps, Empty());
    }
  }

  /** Member `i` of the entry for `k` is marked used. */
  ghost predicate Marked(ret: Dict<TypeId, Type>, k: TypeId, i: int) {
    HasKey(ret, k) && 0 <= i < |Get(ret, k).usedrefs| && Get(ret, k).usedrefs[i] != -1
  }

  /** `b` keeps every key of `a`, the length of every entry's marks, and every mark of `a`. */
  ghost predicate KeepsMarks(a: Dict<TypeId, Type>, b: Dict<TypeId, Type>) {
    (forall k :: HasKey(a, k) ==> HasKey(b, k) && |Get(b, k).usedrefs| == |Get(a, k).usedrefs|) &&
    (forall k, i :: Marked(a, k, i) ==> Marked(b, k, i))
  }

  lemma KeepsMarksTrans(a: Dict<TypeId, Type>, b: Dict<TypeId, Type>, c: Dict<TypeId, Type>)
    requires KeepsMarks(a, b) && KeepsMarks(b, c)
    ensures KeepsMarks(a, c)
  {
  }

  lemma PutKeepsMarks(a: Dict<TypeId, Type>, k: TypeId, v: Type)
    requires HasKey(a, k) ==> |v.usedrefs| == |Get(a, k).usedrefs|
    requires forall i :: Marked(a, k, i) ==> v.usedrefs[i] != -1
    ensures KeepsMarks(a, Put(a, k, v))
  {
    var r := Put(a, k, v);
    forall k', i | Marked(a, k', i) ensures Marked(r, k', i) {
      if k' != k {
        assert Get(r, k') == Get(a, k');
      }
    }
  }

  lemma WithEntryKeepsMarks(a: Dict<TypeId, Type>, t: Type)
    ensures KeepsMarks(a, WithEntry(a, t))
  {
    if !HasKey(a, t.id) {
      PutKeepsMarks(a, t.id, Unmarked(t));
    }
  }

  /**
   * One step keeps every mark, and marks its own member unless the member's type is unknown
   * (-1) or the record has no such member.
   */
  lemma AccessStepMarks(s: ChainStep, ret: Dict<TypeId, Type>)
    requires AccessStep(s, ret).Some?
    ensures KeepsMarks(ret, AccessStep(s, ret).value)
    ensures MarkedIfKnown(s, AccessStep(s, ret).value)
  {
    var key := s.rec.id;
    WithEntryKeepsMarks(ret, s.rec);
    var ret1 := WithEntry(ret, s.rec);
    var item := Get(ret1, key);
    var marked := item.(usedrefs := UpdateAt(item.usedrefs, s.member, MemberTid(s)));
    PutKeepsMarks(ret1, key, marked);
    var ret2 := Put(ret1, key, marked);
    KeepsMarksTrans(ret, ret1, ret2);
    WithEntryKeepsMarks(ret2, s.memberRec);
    var ret3 := WithEntryIfRecord(ret2, s.memberRec);
    KeepsMarksTrans(ret, ret2, ret3);
    if MemberTid(s) != -1 && 0 <= s.member < |Get(ret3, key).usedrefs| {
      assert Marked(ret2, key, s.member);
    }
  }

  /** The step's member is marked in `data`, when its type is known and its record's entry has it. */
  ghost predicate MarkedIfKnown(s: ChainStep, data: Dict<TypeId, Type>) {
    var key := s.rec.id;
    (MemberTid(s) != -1 && HasKey(data, key) && 0 <= s.member < |Get(data, key).usedrefs|) ==>
      Marked(data, key, s.member)
  }

  lemma MarkedIfKnownKept(s: ChainStep, a: Dict<TypeId, Type>, b: Dict<TypeId, Type>)
    requires KeepsMarks(a, b) && HasKey(a, s.rec.id) && MarkedIfKnown(s, a)
    ensures MarkedIfKnown(s, b)
  {
  }

  /** The loop loses no mark, no key and no entry length on the way. */
  lemma {:induction false} AccessLoopKeepsMarks(steps: seq<ChainStep>, ret: Dict<TypeId, Type>)
    requires AccessLoop(steps, ret).Some?
    ensures KeepsMarks(ret, AccessLoop(steps, ret).value)
    decreases |steps|
  {
    if |steps| > 0 {
      var next := AccessStep(steps[0], ret).value;
      AccessStepMarks(steps[0], ret);
      AccessLoopKeepsMarks(steps[1..], next);
      KeepsMarksTrans(ret, next, AccessLoop(steps[1..], next).value);
    }
  }

  /** The loop marks the member of every chain element it visits. */
  lemma {:induction false} AccessLoopMarks(steps: seq<ChainStep>, ret: Dict<TypeId, Type>)
    requires AccessLoop(steps, ret).Some?
    ensures forall j :: 0 <= j < |steps| ==> MarkedIfKnown(steps[j], AccessLoop(steps, ret).value)
    decreases |steps|
  {
    if |steps| > 0 {
      var next := AccessStep(steps[0], ret).value;
      AccessStepMarks(steps[0], ret);
      AccessLoopMarks(steps[1..], next);
      AccessLoopKeepsMarks(steps[1..], next);
      var r := AccessLoop(steps[1..], next).value;
      MarkedIfKnownKept(steps[0], next, r);
      forall j | 0 <= j < |steps| ensures MarkedIfKnown(steps[j], r) {
        if j > 0 {
          assert steps[j] == steps[1..][j - 1];
        }
      }
    }
  }

  lemma MergePairKeepsMarks(ret: Dict<TypeId, Type>, k: TypeId, dup: TypeId)
    requires DictInv(ret) && HasKey(ret, k) && HasKey(ret, dup)
    ensures KeepsMarks(ret, MergePair(ret, k, dup))
  {
    var t := Get(ret, k);
    var t2 := Get(ret, dup);
    var m := MergeMarks(t.usedrefs, t2.usedrefs);
    PutKeepsMarks(ret, k, t.(usedrefs := m.0));
    var r1 := Put(ret, k, t.(usedrefs := m.0));
    if dup != k {
      assert Get(r1, dup) == t2;
    }
    PutKeepsMarks(r1, dup, t2.(usedrefs := m.1));
    KeepsMarksTrans(ret, r1, MergePair(ret, k, dup));
  }

  lemma {:induction false} MergeWithDupsKeepsMarks(ret: Dict<TypeId, Type>, k: TypeId, dups: seq<TypeId>)
    requires DictInv(ret) && HasKey(ret, k)
    ensures KeepsMarks(ret, MergeWithDups(ret, k, dups))
    decreases |dups|
  {
    if |dups| > 0 {
      var next := if HasKey(ret, dups[0]) then MergePair(ret, k, dups[0]) else ret;
      if HasKey(ret, dups[0]) {
        MergePairKeepsMarks(ret, k, dups[0]);
      }
      assert HasKey(next, k);
      MergeWithDupsKeepsMarks(next, k, dups[1..]);
      KeepsMarksTrans(ret, next, MergeWithDups(ret, k, dups));
    }
  }

  lemma {:induction false} MergeDupsKeepsMarks(db: Db, keys: seq<TypeId>, ret: Dict<TypeId, Type>)
    requires DictInv(ret) && forall k :: k in keys ==> HasKey(ret, k)
    ensures KeepsMarks(ret, MergeDups(db, keys, ret))
    decreases |keys|
  {
    if |keys| > 0 {
      var next := if keys[0] in db.dupTypes then MergeWithDups(ret, keys[0], db.dupTypes[keys[0]]) else ret;
      if keys[0] in db.dupTypes {
        MergeWithDupsKeepsMarks(ret, keys[0], db.dupTypes[keys[0]]);
      }
      assert forall k :: HasKey(ret, k) ==> HasKey(next, k);
      assert forall k :: k in keys[1..] ==> k in keys;
      MergeDupsKeepsMarks(db, keys[1..], next);
      KeepsMarksTrans(ret, next, MergeDups(db, keys, ret));
    }
  }

  /**
   * Every member named along the chain of a member deref is marked used in the result, for
   * each chain element whose member has a known type and exists in its record's copy.
   */
  lemma MemberAccessMarksChain(db: Db, d: Deref, j: nat)
    requires MemberAccessFromDeref(db, d).Access? && j < |d.access|
    ensures MarkedIfKnown(StepAt(db, d, j), MemberAccessFromDeref(db, d).data)
  {
    var steps := StepsFrom(db, d, 0);
    var loop := AccessLoop(steps, Empty()).value;
    AccessLoopMarks(steps, Empty());
    AccessLoopKeepsMarks(steps, Empty());
    AccessLoopKeys(steps, Empty());
    EmptyInv<TypeId, Type>();
    AccessLoopInv(steps, Empty());
    var merged := MergeDups(db, Keys(loop), loop);
    MergeDupsKeepsMarks(db, Keys(loop), loop);
    assert steps[j] == StepAt(db, d, j);
    MarkedIfKnownKept(steps[j], loop, merged);
  }

  // ---------------------------------------------------------------------------
  // Only the chain marks members

  /** Some element of the chain names member `i` of the record `k`. */
  ghost predicate OnChain(steps: seq<ChainStep>, k: TypeId, i: int) {
    exists j :: 0 <= j < |steps| && steps[j].rec.id == k && steps[j].member == i
  }

  /** Some element of the chain names member number `i`, of whichever record. */
  ghost predicate MemberOnChain(steps: seq<ChainStep>, i: int) {
    exists j :: 0 <= j < |steps| && steps[j].member == i
  }

  /** `k` takes part in no duplicate-type relation: it has no duplicates and is no one's duplicate. */
  ghost predicate DupFree(db: Db, k: TypeId) {
    k !in db.dupTypes && forall k0 :: k0 in db.dupTypes ==> k !in db.dupTypes[k0]
  }

  /**
   * Every mark of `ret` is of a member number the chain names, and on a record without
   * duplicates it is of a member the chain names on that very record.
   */
  ghost predicate Explained(db: Db, steps: seq<ChainStep>, ret: Dict<TypeId, Type>) {
    forall k, i :: Marked(ret, k, i) ==> MemberOnChain(steps, i) && (DupFree(db, k) ==> OnChain(steps, k, i))
  }

  lemma ExplainedAt(db: Db, steps: seq<ChainStep>, ret: Dict<TypeId, Type>, k: TypeId, i: int)
    requires Explained(db, steps, ret) && Marked(ret, k, i)
    ensures MemberOnChain(steps, i) && (DupFree(db, k) ==> OnChain(steps, k, i))
  {
  }

  /** A step marks nothing but its own member of its own record. */
  lemma AccessStepOnlyMarks(s: ChainStep, ret: Dict<TypeId, Type>)
    requires AccessStep(s, ret).Some?
    ensures forall k, i :: Marked(AccessStep(s, ret).value, k, i) ==>
      Marked(ret, k, i) || (k == s.rec.id && i == s.member)
  {
    var key := s.rec.id;
    var ret1 := WithEntry(ret, s.rec);
    var item := Get(ret1, key);
    var marked := item.(usedrefs := UpdateAt(item.usedrefs, s.member, MemberTid(s)));
    var ret2 := Put(ret1, key, marked);
    assert forall k, i :: Marked(ret1, k, i) ==> Marked(ret, k, i);
    assert forall k, i :: Marked(ret2, k, i) ==> Marked(ret1, k, i) || (k == key && i == s.member) by {
      forall k, i | Marked(ret2, k, i) ensures Marked(ret1, k, i) || (k == key && i == s.member) {
        if k != key {
          assert Get(ret2, k) == Get(ret1, k);
        }
      }
    }
  }

  /** The loop marks nothing but the members its chain names on their records. */
  lemma {:induction false} AccessLoopOnlyMarks(steps: seq<ChainStep>, ret: Dict<TypeId, Type>)
    requires AccessLoop(steps, ret).Some?
    ensures forall k, i :: Marked(AccessLoop(steps, ret).value, k, i) ==> Marked(ret, k, i) || OnChain(steps, k, i)
    decreases |steps|
  {
    if |steps| > 0 {
      var next := AccessStep(steps[0], ret).value;
      AccessStepOnlyMarks(steps[0], ret);
      AccessLoopOnlyMarks(steps[1..], next);
      forall k, i | OnChain(steps[1..], k, i) ensures OnChain(steps, k, i) {
        var j :| 0 <= j < |steps[1..]| && steps[1..][j].rec.id == k && steps[1..][j].member == i;
        assert steps[j + 1] == steps[1..][j];
      }
      forall k, i | k == steps[0].rec.id && i == steps[0].member ensures OnChain(steps, k, i) {
        assert steps[0].rec.id == k && steps[0].member == i;
      }
    }
  }

  /** The result of the loop from the empty map is explained by its chain. */
  lemma AccessLoopExplained(db: Db, steps: seq<ChainStep>)
    requires AccessLoop(steps, Empty()).Some?
    ensures Explained(db, steps, AccessLoop(steps, Empty()).value)
  {
    AccessLoopOnlyMarks(steps, Empty());
    forall k, i | OnChain(steps, k, i) ensures MemberOnChain(steps, i) {
      var j :| 0 <= j < |steps| && steps[j].rec.id == k && steps[j].member == i;
    }
  }

  /** The merge of one key with one of its duplicates keeps the marks explained. */
  lemma MergePairExplained(db: Db, steps: seq<ChainStep>, ret: Dict<TypeId, Type>, k: TypeId, dup: TypeId)
    requires DictInv(ret) && HasKey(ret, k) && HasKey(ret, dup)
    requires k in db.dupTypes && dup in db.dupTypes[k]
    requires Explained(db, steps, ret)
    ensures Explained(db, steps, MergePair(ret, k, dup))
  {
    var t := Get(ret, k);
    var t2 := Get(ret, dup);
    var m := MergeMarks(t.usedrefs, t2.usedrefs);
    var r1 := Put(ret, k, t.(usedrefs := m.0));
    var r := MergePair(ret, k, dup);
    forall k', i | Marked(r, k', i) ensures MemberOnChain(steps, i) && (DupFree(db, k') ==> OnChain(steps, k', i)) {
      if k' == dup || k' == k {
        assert Get(r, k') == (if k' == dup then t2.(usedrefs := m.1) else t.(usedrefs := m.0));
        if Marked(ret, k, i) {
          ExplainedAt(db, steps, ret, k, i);
        } else {
          assert Marked(ret, dup, i);
          ExplainedAt(db, steps, ret, dup, i);
        }
      } else {
        assert Get(r, k') == Get(ret, k');
        ExplainedAt(db, steps, ret, k', i);
      }
    }
  }

  lemma {:induction false} MergeWithDupsExplained(db: Db, steps: seq<ChainStep>, ret: Dict<TypeId, Type>, k: TypeId, dups: seq<TypeId>)
    requires DictInv(ret) && HasKey(ret, k) && k in db.dupTypes
    requires forall x :: x in dups ==> x in db.dupTypes[k]
    requires Explained(db, steps, ret)
    ensures Explained(db, steps, MergeWithDups(ret, k, dups))
    decreases |dups|
  {
    if |dups| > 0 {
      var next := if HasKey(ret, dups[0]) then MergePair(ret, k, dups[0]) else ret;
      if HasKey(ret, dups[0]) {
        MergePairExplained(db, steps, ret, k, dups[0]);
      }
      assert forall x :: x in dups[1..] ==> x in dups;
      MergeWithDupsExplained(db, steps, next, k, dups[1..]);
    }
  }

  lemma {:induction false} MergeDupsExplained(db: Db, steps: seq<ChainStep>, keys: seq<TypeId>, ret: Dict<TypeId, Type>)
    requires DictInv(ret) && forall k :: k in keys ==> HasKey(ret, k)
    requires Explained(db, steps, ret)
    ensures Explained(db, steps, MergeDups(db, keys, ret))
    decreases |keys|
  {
    if |keys| > 0 {
      var next := if keys[0] in db.dupTypes then MergeWithDups(ret, keys[0], db.dupTypes[keys[0]]) else ret;
      if keys[0] in db.dupTypes {
        MergeWithDupsExplained(db, steps, ret, keys[0], db.dupTypes[keys[0]]);
      }
      assert forall k :: HasKey(ret, k) ==> HasKey(next, k);
      assert forall k :: k in keys[1..] ==> k in keys;
      MergeDupsExplained(db, steps, keys[1..], next);
    }
  }

  /** Copies to duplicates keep the marks explained: a copy's record is someone's duplicate. */
  lemma CopyToDupsExplained(db: Db, steps: seq<ChainStep>, keys: seq<TypeId>, a: Dict<TypeId, Type>)
    requires forall k :: k in keys ==> HasKey(a, k)
    requires Explained(db, steps, a)
    ensures Explained(db, steps, CopyToDups(db, keys, a))
  {
    var r := CopyToDups(db, keys, a);
    forall k, i | Marked(r, k, i) ensures MemberOnChain(steps, i) && (DupFree(db, k) ==> OnChain(steps, k, i)) {
      if HasKey(a, k) {
        assert Get(r, k) == Get(a, k);
        ExplainedAt(db, steps, a, k, i);
      } else {
        var k0 :| k0 in keys && k in DupsOf(db, k0) && Get(r, k) == Get(a, k0);
        assert Marked(a, k0, i);
        ExplainedAt(db, steps, a, k0, i);
        assert k0 in db.dupTypes;
      }
    }
  }

  /**
   * Conversely, a member marked used in the result is of a member number the chain names;
   * on a record that takes part in no duplicate relation it is marked only when the chain
   * names that member of that record. Any other mark comes from a duplicate merge or copy.
   */
  lemma MemberAccessMarksOnlyChain(db: Db, d: Deref, k: TypeId, i: int)
    requires MemberAccessFromDeref(db, d).Access? && Marked(MemberAccessFromDeref(db, d).data, k, i)
    ensures exists j :: 0 <= j < |d.access| && StepAt(db, d, j).member == i
    ensures DupFree(db, k) ==>
      exists j :: 0 <= j < |d.access| && StepAt(db, d, j).rec.id == k && StepAt(db, d, j).member == i
  {
    var steps := StepsFrom(db, d, 0);
    MemberAccessExplained(db, d);
    ExplainedAt(db, steps, MemberAccessFromDeref(db, d).data, k, i);
    var j :| 0 <= j < |steps| && steps[j].member == i;
    StepsFromZero(db, d, j);
    if DupFree(db, k) {
      var j' :| 0 <= j' < |steps| && steps[j'].rec.id == k && steps[j'].member == i;
      StepsFromZero(db, d, j');
    }
  }

  /** Element `j` of the whole chain is the step at position `j`. */
  lemma StepsFromZero(db: Db, d: Deref, j: nat)
    requires j < |d.access|
    ensures StepsFrom(db, d, 0)[j] == StepAt(db, d, j)
  {
  }

  /** What a successful access builds is explained by its chain. */
  lemma MemberAccessExplained(db: Db, d: Deref)
    requires MemberAccessFromDeref(db, d).Access?
    ensures Explained(db, StepsFrom(db, d, 0), MemberAccessFromDeref(db, d).data)
  {
    var steps := StepsFrom(db, d, 0);
    var loop := AccessLoop(steps, Empty()).value;
    EmptyInv<TypeId, Type>();
    AccessLoopInv(steps, Empty());
    AccessLoopExplained(db, steps);
    var merged := MergeDups(db, Keys(loop), loop);
    MergeDupsExplained(db, steps, Keys(loop), loop);
    CopyToDupsExplained(db, steps, Keys(merged), merged);
  }

  /** The used-types data's key list and its map agree. */
  lemma MemberAccessInv(db: Db, d: Deref)
    requires MemberAccessFromDeref(db, d).Access?
    ensures DictInv(MemberAccessFromDeref(db, d).data)
  {
    var steps := StepsFrom(db, d, 0);
    EmptyInv<TypeId, Type>();
    AccessLoopInv(steps, Empty());
    var loop := AccessLoop(steps, Empty()).value;
    var merged := MergeDups(db, Keys(loop), loop);
    CopyToDupsInv(db, Keys(merged), merged);
  }
}
