/**
 * Member size inference: evidence about which record members hold the element count of a
 * pointer member (`member_usage_info`), the member initialisation order and value
 * constraints derived from it, and the clamp emitted for a constrained size member.
 */
module SizeInfo {

  import opened Basics
  import opened Ir
  import opened Strings
  import opened TypePredicates
  import opened Facts

  /**
   * The evidence collected for one record member; each field is a dictionary key that may be
   * absent. `value`: a constant size (largest constant index + 1, or a loop bound);
   * `memberIdx`/`memberSize`: (record, member) pairs of size-typed members used as an index
   * into the member, or compared against its index; `index`: the size of a constant array the
   * member indexes; `nameSize`: members whose names say they hold the member's size. The
   * Python sets are kept as duplicate-free lists in insertion order.
   */
  datatype Usage = Usage(
    value: Option<int>,
    memberIdx: Option<seq<(TypeId, int)>>,
    memberSize: Option<seq<(TypeId, int)>>,
    index: Option<int>,
    nameSize: Option<seq<int>>)

  /** An empty evidence dictionary `{}`. */
  const NoUsage: Usage := Usage(None, None, None, None, None)

  /** `member_usage_info`: record id to one evidence entry per member. */
  type UsageInfo = map<TypeId, seq<Usage>>

  /** `array_init_max_size`, the default upper bound for array sizes. */
  const ArrayInitMaxSize: int := 32

  function NoUsages(n: nat): (s: seq<Usage>)
    ensures |s| == n && forall k :: 0 <= k < n ==> s[k] == NoUsage
  {
    seq(n, k => NoUsage)
  }

  /** `v = x` when absent, else `v = max(v, x)`. */
  function Raise(v: Option<int>, x: int): (r: Option<int>)
    ensures r.Some? && r.value >= x
    ensures v.None? ==> r.value == x
    ensures v.Some? ==> r.value == if v.value >= x then v.value else x
  {
    if v.None? || v.value < x then Some(x) else v
  }

  /** `s.add(p)`, creating the set when absent. */
  function AddPair(s: Option<seq<(TypeId, int)>>, p: (TypeId, int)): (r: Option<seq<(TypeId, int)>>)
    ensures r.Some? && p in r.value
    ensures s.Some? ==> r.value == AppendNew(s.value, p)
    ensures s.None? ==> r.value == [p]
  {
    Some(AppendNew(if s.Some? then s.value else [], p))
  }

  /** The entries of `rec`, one empty dictionary per member, are created when the record has none. */
  function EnsureRecord(u: UsageInfo, rec: Type): (r: UsageInfo)
    ensures r.Keys == u.Keys + {rec.id}
    ensures rec.id in u ==> r == u
    ensures rec.id !in u ==> r[rec.id] == NoUsages(|rec.refs|)
    ensures forall k :: k in u ==> r[k] == u[k]
  {
    if rec.id in u then u else u[rec.id := NoUsages(|rec.refs|)]
  }

  /** `member_usage_info[k][m]`; a missing record or member reads as an empty entry. */
  function UsageAt(u: UsageInfo, k: TypeId, m: int): Usage {
    if k in u then At(u[k], m, NoUsage) else NoUsage
  }

  /** Stores entry `x` at `[k][m]`; a write out of range is dropped. */
  function SetUsage(u: UsageInfo, k: TypeId, m: int, x: Usage): (r: UsageInfo)
    ensures r.Keys == u.Keys
    ensures forall k' :: k' in u ==> |r[k']| == |u[k']|
    ensures k in u && 0 <= m < |u[k]| ==> UsageAt(r, k, m) == x
    ensures forall k', m' :: (k' != k || m' != m) ==> UsageAt(r, k', m') == UsageAt(u, k', m')
  {
    if k in u then u[k := UpdateAt(u[k], m, x)] else u
  }

  // ---------------------------------------------------------------------------
  // Evidence from array derefs

  /** The record type and member number a member operand names: the last link of its deref's chain. */
  function OperandMember(db: Db, f: Function, o: Operand): (Type, int) {
    var md := DerefAt(f, o.id);
    (GetRecordType(db, TypeOf(db, Last(md.types, -1))), Last(md.members, -1))
  }

  /** The typedef-stripped type of member `m` of `rec`. */
  function MemberType(db: Db, rec: Type, m: int): Type {
    StripTypedef(db, TypeOf(db, At(rec.refs, m, -1)))
  }

  /** The operand names a member of a record whose type is an integer type. */
  predicate IsSizeMemberOperand(db: Db, f: Function, o: Operand) {
    o.kind == OMember && IsSizeType(db, MemberType(db, OperandMember(db, f, o).0, OperandMember(db, f, o).1))
  }

  /** The (record id, member) key of a member operand. */
  function MemberKey(db: Db, f: Function, o: Operand): (TypeId, int) {
    (OperandMember(db, f, o).0.id, OperandMember(db, f, o).1)
  }

  /** The keys of the operands of `ops` that `keep` selects, added in order to `s` (created on the first one). */
  function AddKeys(keep: Operand -> bool, key: Operand -> (TypeId, int), ops: seq<Operand>, s: Option<seq<(TypeId, int)>>)
    : (r: Option<seq<(TypeId, int)>>)
    ensures s.Some? ==> r.Some? && s.value <= r.value
    decreases |ops|
  {
    if |ops| == 0 then s
    else
      var prev := AddKeys(keep, key, ops[..|ops| - 1], s);
      if keep(ops[|ops| - 1]) then AddPair(prev, key(ops[|ops| - 1])) else prev
  }

  /** The list is created exactly when it existed or some operand is selected. */
  lemma {:induction false} AddKeysNone(keep: Operand -> bool, key: Operand -> (TypeId, int), ops: seq<Operand>, s: Option<seq<(TypeId, int)>>)
    ensures AddKeys(keep, key, ops, s).None? <==> s.None? && forall o :: o in ops ==> !keep(o)
    decreases |ops|
  {
    if |ops| > 0 {
      AddKeysNone(keep, key, ops[..|ops| - 1], s);
      assert forall x :: x in ops <==> x in ops[..|ops| - 1] || x == ops[|ops| - 1];
    }
  }

  /** The list holds a key exactly when it held it before or it is the key of a selected operand. */
  lemma {:induction false} AddKeysIn(keep: Operand -> bool, key: Operand -> (TypeId, int), ops: seq<Operand>,
                                     s: Option<seq<(TypeId, int)>>, p: (TypeId, int))
    ensures var r := AddKeys(keep, key, ops, s);
      r.Some? && p in r.value <==> (s.Some? && p in s.value) || exists o :: o in ops && keep(o) && p == key(o)
    decreases |ops|
  {
    if |ops| > 0 {
      AddKeysIn(keep, key, ops[..|ops| - 1], s, p);
      assert forall x :: x in ops <==> x in ops[..|ops| - 1] || x == ops[|ops| - 1];
    }
  }

  /** The `member_idx` evidence after the index operands `ops`: the key of every size-typed member operand is added. */
  function IndexMembers(db: Db, f: Function, ops: seq<Operand>, s: Option<seq<(TypeId, int)>>): (r: Option<seq<(TypeId, int)>>)
    ensures s.Some? ==> r.Some? && s.value <= r.value
  {
    AddKeys(o => IsSizeMemberOperand(db, f, o), o => MemberKey(db, f, o), ops, s)
  }

  /** `member_idx` is created exactly when it existed or some operand is a size-typed member. */
  lemma IndexMembersCreated(db: Db, f: Function, ops: seq<Operand>, s: Option<seq<(TypeId, int)>>)
    ensures IndexMembers(db, f, ops, s).None? <==> s.None? && forall o :: o in ops ==> !IsSizeMemberOperand(db, f, o)
  {
    AddKeysNone(o => IsSizeMemberOperand(db, f, o), o => MemberKey(db, f, o), ops, s);
  }

  /** `member_idx` holds the keys it held before and the key of every size-typed member operand, and nothing else. */
  lemma IndexMembersKeys(db: Db, f: Function, ops: seq<Operand>, s: Option<seq<(TypeId, int)>>, p: (TypeId, int))
    ensures var r := IndexMembers(db, f, ops, s);
      r.Some? && p in r.value <==>
        (s.Some? && p in s.value) || exists o :: o in ops && IsSizeMemberOperand(db, f, o) && p == MemberKey(db, f, o)
  {
    AddKeysIn(o => IsSizeMemberOperand(db, f, o), o => MemberKey(db, f, o), ops, s, p);
  }

  /** The loop over `offsetrefs[1:]` adding each size-typed member operand to `member_idx`. */
  method CollectIndexMembers(db: Db, f: Function, ops: seq<Operand>, s: Option<seq<(TypeId, int)>>)
    returns (r: Option<seq<(TypeId, int)>>)
    ensures r == IndexMembers(db, f, ops, s)
  {
    r := s;
    var j := 0;
    while j < |ops|
      invariant 0 <= j <= |ops|
      invariant r == IndexMembers(db, f, ops[..j], s)
    {
      assert ops[..j + 1][..j] == ops[..j];
      if IsSizeMemberOperand(db, f, ops[j]) {
        r := AddPair(r, MemberKey(db, f, ops[j]));
      }
      j := j + 1;
    }
    assert ops[..|ops|] == ops;
  }

  /** The control-flow construct of the first compound statement listed with id `csid`. */
  function ControlOf(cs: seq<CsEntry>, csid: int): Option<ControlFlow> {
    if |cs| == 0 then None
    else if cs[0].id == csid then cs[0].cf
    else ControlOf(cs[1..], csid)
  }

  /** The array access sits in the condition scope of a `do`, `while`, `for` or `if`. */
  predicate InLoopOrIf(f: Function, csid: int) {
    var cf := ControlOf(f.csmap, csid);
    cf.Some? && cf.value in {CfDo, CfWhile, CfFor, CfIf}
  }

  /** A relational operator code: `<` (10), `<=` (12) or `!=` (15). */
  predicate IsBoundOperator(op: int) {
    op == 10 || op == 12 || op == 15
  }

  /**
   * The evidence one candidate condition deref `c` adds for the index operand `idx` in scope
   * `csid`: a comparison `idx OP bound` whose bound is an integer raises `value` to the bound
   * (plus one for `<=`); one whose bound is a size-typed member adds it to `member_size`.
   */
  function CondStep(db: Db, f: Function, idx: Operand, csid: int, c: Deref, md: Usage): (r: Usage)
    ensures r.memberIdx == md.memberIdx && r.index == md.index && r.nameSize == md.nameSize
    ensures md.value.Some? ==> r.value.Some? && r.value.value >= md.value.value
    ensures md.memberSize.Some? ==> r.memberSize.Some? && md.memberSize.value <= r.memberSize.value
    ensures r.value != md.value ==> c.kind == KCond && c.offset == csid
    ensures r.memberSize != md.memberSize ==> c.kind == KCond && c.offset == csid
  {
    if !(c.kind == KCond && c.offset == csid && |c.offsetrefs| == 1 && c.offsetrefs[0].kind == OLogic) then md
    else
      var l := DerefAt(f, c.offsetrefs[0].id);
      if !(IsBoundOperator(l.offset) && |l.offsetrefs| == 2 && idx == l.offsetrefs[0]) then md
      else
        var so := l.offsetrefs[1];
        if so.kind == OInteger then
          md.(value := Raise(md.value, if l.offset == 12 then so.id + 1 else so.id))
        else if IsSizeMemberOperand(db, f, so) then
          md.(memberSize := AddPair(md.memberSize, MemberKey(db, f, so)))
        else md
  }

  /** `CondStep` for every deref of the function, in order (no loop exit: every matching condition counts). */
  function CondEvidence(db: Db, f: Function, idx: Operand, csid: int, cs: seq<Deref>, md: Usage): (r: Usage)
    decreases |cs|
  {
    if |cs| == 0 then md
    else CondStep(db, f, idx, csid, cs[|cs| - 1], CondEvidence(db, f, idx, csid, cs[..|cs| - 1], md))
  }

  /** Condition evidence only raises `value` and only adds to `member_size`; the other keys stay. */
  lemma {:induction false} CondEvidenceGrows(db: Db, f: Function, idx: Operand, csid: int, cs: seq<Deref>, md: Usage)
    ensures var r := CondEvidence(db, f, idx, csid, cs, md);
      r.memberIdx == md.memberIdx && r.index == md.index && r.nameSize == md.nameSize &&
      (md.value.Some? ==> r.value.Some? && r.value.value >= md.value.value) &&
      (md.memberSize.Some? ==> r.memberSize.Some? && md.memberSize.value <= r.memberSize.value)
    decreases |cs|
  {
    if |cs| > 0 {
      CondEvidenceGrows(db, f, idx, csid, cs[..|cs| - 1], md);
    }
  }

  /** The loop over the function's derefs looking for the conditions of the array's scope. */
  method CollectCondEvidence(db: Db, f: Function, idx: Operand, csid: int, md: Usage) returns (r: Usage)
    ensures r == CondEvidence(db, f, idx, csid, f.derefs, md)
  {
    r := md;
    var j := 0;
    while j < |f.derefs|
      invariant 0 <= j <= |f.derefs|
      invariant r == CondEvidence(db, f, idx, csid, f.derefs[..j], md)
    {
      assert f.derefs[..j + 1][..j] == f.derefs[..j];
      assert CondEvidence(db, f, idx, csid, f.derefs[..j + 1], md) == CondStep(db, f, idx, csid, f.derefs[j], r);
      r := CondStep(db, f, idx, csid, f.derefs[j], r);
      j := j + 1;
    }
    assert f.derefs[..|f.derefs|] == f.derefs;
  }

  /** `offsetrefs[1:]`. */
  function IndexOperands(d: Deref): seq<Operand> {
    if |d.offsetrefs| > 0 then d.offsetrefs[1..] else []
  }

  /** An array deref with a single base whose base is a pointer-like record member: that member's key. */
  predicate PointerMemberBase(db: Db, f: Function, d: Deref) {
    d.kind == KArray && d.basecnt == 1 && At(d.offsetrefs, 0, DefaultOperand).kind == OMember &&
    var (rec, m) := OperandMember(db, f, At(d.offsetrefs, 0, DefaultOperand));
    IsPointerLikeType(db, MemberType(db, rec, m))
  }

  /** The evidence of one base entry after an array deref on it: constant offset, index members, loop bounds. */
  function PointerUsage(db: Db, f: Function, d: Deref, md: Usage): (r: Usage)
    ensures r.index == md.index && r.nameSize == md.nameSize
    ensures d.offset != 0 ==> r.value.Some? && r.value.value >= d.offset + 1
    ensures md.value.Some? ==> r.value.Some? && r.value.value >= md.value.value
    ensures md.memberIdx.Some? ==> r.memberIdx.Some? && md.memberIdx.value <= r.memberIdx.value
    ensures md.memberSize.Some? ==> r.memberSize.Some? && md.memberSize.value <= r.memberSize.value
  {
    var md1 := if d.offset != 0 then md.(value := Raise(md.value, d.offset + 1)) else md;
    var md2 := md1.(memberIdx := IndexMembers(db, f, IndexOperands(d), md1.memberIdx));
    if |d.offsetrefs| == 2 && InLoopOrIf(f, d.csid) then
      CondEvidenceGrows(db, f, d.offsetrefs[1], d.csid, f.derefs, md2);
      CondEvidence(db, f, d.offsetrefs[1], d.csid, f.derefs, md2)
    else md2
  }

  /** The evidence an array deref adds about its pointer-like base member (lines 417-514). */
  function PointerEvidence(db: Db, f: Function, d: Deref, u: UsageInfo): (r: UsageInfo)
    ensures u.Keys <= r.Keys
    ensures !PointerMemberBase(db, f, d) ==> r == u
    ensures PointerMemberBase(db, f, d) ==>
      var (rec, m) := OperandMember(db, f, At(d.offsetrefs, 0, DefaultOperand));
      rec.id in r && r == SetUsage(EnsureRecord(u, rec), rec.id, m, PointerUsage(db, f, d, UsageAt(u, rec.id, m)))
  {
    if !PointerMemberBase(db, f, d) then u
    else
      var (rec, m) := OperandMember(db, f, At(d.offsetrefs, 0, DefaultOperand));
      var u1 := EnsureRecord(u, rec);
      assert UsageAt(u1, rec.id, m) == UsageAt(u, rec.id, m);
      SetUsage(u1, rec.id, m, PointerUsage(db, f, d, UsageAt(u1, rec.id, m)))
  }

  /** The evidence computation for one pointer member, with the source's two loops as loops. */
  method PointerUsageOf(db: Db, f: Function, d: Deref, md: Usage) returns (r: Usage)
    ensures r == PointerUsage(db, f, d, md)
  {
    r := md;
    if d.offset != 0 {
      r := r.(value := Raise(r.value, d.offset + 1));
    }
    var mi := CollectIndexMembers(db, f, IndexOperands(d), r.memberIdx);
    r := r.(memberIdx := mi);
    if |d.offsetrefs| == 2 && InLoopOrIf(f, d.csid) {
      r := CollectCondEvidence(db, f, d.offsetrefs[1], d.csid, r);
    }
  }

  /** The element count of the constant array an operand (global, local or member) refers to; 0 otherwise. */
  function ArraySizeOf(db: Db, f: Function, base: Operand): int {
    var t :=
      if base.kind == OMember then MemberType(db, OperandMember(db, f, base).0, OperandMember(db, f, base).1)
      else if base.kind == OGlobal && base.id in db.globals then StripTypedef(db, TypeOf(db, db.globals[base.id].typ))
      else if base.kind == OLocal then StripTypedef(db, TypeOf(db, LocalAt(f, base.id).typ))
      else DefaultType;
    if t.cls == ConstArray then GetConstArraySize(db, t) else 0
  }

  /** `a[s->member]` over a constant array of non-zero size: the member's key receives the size. */
  predicate IndexesConstArray(db: Db, f: Function, d: Deref) {
    d.kind == KArray && d.basecnt == 1 && |d.offsetrefs| == 2 &&
    d.offsetrefs[1].kind == OMember && ArraySizeOf(db, f, d.offsetrefs[0]) != 0
  }

  /**
   * The evidence an array deref adds about a member used as its index (lines 516-544). As
   * written, the last size seen replaces the earlier one: the `max` before it is overwritten.
   */
  function IndexEvidence(db: Db, f: Function, d: Deref, u: UsageInfo): (r: UsageInfo)
    ensures u.Keys <= r.Keys
    ensures !IndexesConstArray(db, f, d) ==> r == u
    ensures IndexesConstArray(db, f, d) ==>
      var (rec, m) := OperandMember(db, f, d.offsetrefs[1]);
      var size := ArraySizeOf(db, f, d.offsetrefs[0]);
      rec.id in r && r == SetUsage(EnsureRecord(u, rec), rec.id, m, UsageAt(u, rec.id, m).(index := Some(size)))
  {
    if !IndexesConstArray(db, f, d) then u
    else
      var (rec, m) := OperandMember(db, f, d.offsetrefs[1]);
      var u1 := EnsureRecord(u, rec);
      assert UsageAt(u1, rec.id, m) == UsageAt(u, rec.id, m);
      SetUsage(u1, rec.id, m, UsageAt(u1, rec.id, m).(index := Some(ArraySizeOf(db, f, d.offsetrefs[0]))))
  }

  /** The `index` entry is the size of the last constant array the member indexed, even when an earlier one was larger. */
  lemma IndexIsLastSize(db: Db, f: Function, d: Deref, u: UsageInfo)
    requires IndexesConstArray(db, f, d)
    requires 0 <= OperandMember(db, f, d.offsetrefs[1]).1 < |OperandMember(db, f, d.offsetrefs[1]).0.refs|
    requires var (rec, m) := OperandMember(db, f, d.offsetrefs[1]); rec.id in u ==> m < |u[rec.id]|
    ensures var (rec, m) := OperandMember(db, f, d.offsetrefs[1]);
      UsageAt(IndexEvidence(db, f, d, u), rec.id, m).index == Some(ArraySizeOf(db, f, d.offsetrefs[0]))
  {
  }

  /** Both kinds of evidence from one deref. */
  function DerefEvidence(db: Db, f: Function, d: Deref, u: UsageInfo): UsageInfo {
    IndexEvidence(db, f, d, PointerEvidence(db, f, d, u))
  }

  /** The deref loops over the functions, in order. */
  function FuncsEvidence(db: Db, funcs: seq<Function>, u: UsageInfo): UsageInfo
    decreases |funcs|
  {
    if |funcs| == 0 then u
    else
      var f := funcs[|funcs| - 1];
      DerefsEvidence(db, f, f.derefs, FuncsEvidence(db, funcs[..|funcs| - 1], u))
  }

  function DerefsEvidence(db: Db, f: Function, ds: seq<Deref>, u: UsageInfo): UsageInfo
    decreases |ds|
  {
    if |ds| == 0 then u else DerefEvidence(db, f, ds[|ds| - 1], DerefsEvidence(db, f, ds[..|ds| - 1], u))
  }

  // ---------------------------------------------------------------------------
  // Evidence from member names

  /** The words that mark a member name as a size (`sizematch`). */
  const SizeWords: seq<string> := ["size", "len", "num", "count", "sz", "n_", "cnt", "length"]

  /** Some word of `ws` occurs in `sizeName` once every occurrence of `memberName` is removed and it is lower-cased. */
  predicate SizeWordIn(ws: seq<string>, memberName: string, sizeName: string)
    decreases |ws|
  {
    |ws| > 0 && (Contains(Lower(ReplaceAll(sizeName, memberName, "")), ws[0]) || SizeWordIn(ws[1..], memberName, sizeName))
  }

  /** `SizeWordIn` is the existential it abbreviates. */
  lemma {:induction false} SizeWordInIff(ws: seq<string>, memberName: string, sizeName: string)
    ensures SizeWordIn(ws, memberName, sizeName) <==>
      exists w :: w in ws && Contains(Lower(ReplaceAll(sizeName, memberName, "")), w)
    decreases |ws|
  {
    if |ws| > 0 {
      SizeWordInIff(ws[1..], memberName, sizeName);
      assert ws[0] in ws;
      assert forall w :: w in ws <==> w == ws[0] || w in ws[1..];
    }
  }

  /** `sizeName` contains `memberName` and, without it, a size word. */
  predicate NamesSizeOf(words: seq<string>, memberName: string, sizeName: string) {
    Contains(sizeName, memberName) && SizeWordIn(words, memberName, sizeName)
  }

  /** The loop over `sizematch` with its `break`. */
  method HasSizeWord(words: seq<string>, memberName: string, sizeName: string) returns (b: bool)
    ensures b == SizeWordIn(words, memberName, sizeName)
  {
    b := false;
    var j := 0;
    while j < |words|
      invariant 0 <= j <= |words|
      invariant SizeWordIn(words, memberName, sizeName) == SizeWordIn(words[j..], memberName, sizeName)
    {
      assert words[j..][1..] == words[j + 1..];
      if Contains(Lower(ReplaceAll(sizeName, memberName, "")), words[j]) {
        b := true;
        return;
      }
      j := j + 1;
    }
  }

  /** Member `k` of `rec` is an integer-typed member named after member `m` plus a size word. */
  predicate IsNameSize(db: Db, words: seq<string>, rec: Type, m: int, k: int) {
    0 <= k < |rec.refs| && IsSizeType(db, TypeOf(db, rec.refs[k])) &&
    NamesSizeOf(words, At(rec.refnames, m, ""), At(rec.refnames, k, ""))
  }

  /** The positions below `n` that satisfy `p`, in increasing order (a filtered `range(n)`). */
  function MatchesBelow(p: int -> bool, n: nat): seq<int>
    decreases n
  {
    if n == 0 then [] else MatchesBelow(p, n - 1) + (if p(n - 1) then [n - 1] else [])
  }

  predicate Increasing(s: seq<int>) {
    forall i, j :: 0 <= i < j < |s| ==> s[i] < s[j]
  }

  lemma IncreasingSnoc(s: seq<int>, x: int)
    requires Increasing(s) && forall y :: y in s ==> y < x
    ensures Increasing(s + [x])
  {
    forall i, j | 0 <= i < j < |s| + 1 ensures (s + [x])[i] < (s + [x])[j] {
      assert (s + [x])[i] == s[i] && s[i] in s;
    }
  }

  /** The filtered range holds exactly the positions below `n` that satisfy `p`, in increasing order. */
  lemma {:induction false} MatchesBelowIff(p: int -> bool, n: nat)
    ensures forall k :: k in MatchesBelow(p, n) <==> 0 <= k < n && p(k)
    ensures Increasing(MatchesBelow(p, n))
    decreases n
  {
    if n > 0 {
      MatchesBelowIff(p, n - 1);
      var prev := MatchesBelow(p, n - 1);
      var r := MatchesBelow(p, n);
      assert r == prev + (if p(n - 1) then [n - 1] else []);
      assert forall k :: k in r <==> k in prev || (p(n - 1) && k == n - 1);
      if p(n - 1) {
        IncreasingSnoc(prev, n - 1);
      }
    }
  }

  /** The name-size candidates for member `m` among the members below `n`, in member order. */
  function NameSizesUpTo(db: Db, words: seq<string>, rec: Type, m: int, n: nat): seq<int> {
    MatchesBelow(k => IsNameSize(db, words, rec, m, k), n)
  }

  /** The candidates are exactly the integer members below `n` named after member `m`, listed in increasing order. */
  lemma NameSizesUpToIff(db: Db, words: seq<string>, rec: Type, m: int, n: nat)
    ensures forall k :: k in NameSizesUpTo(db, words, rec, m, n) <==> 0 <= k < n && IsNameSize(db, words, rec, m, k)
    ensures Increasing(NameSizesUpTo(db, words, rec, m, n))
  {
    MatchesBelowIff(k => IsNameSize(db, words, rec, m, k), n);
  }

  /** All candidates of member `m`. */
  function NameSizes(db: Db, words: seq<string>, rec: Type, m: int): seq<int> {
    NameSizesUpTo(db, words, rec, m, |rec.refs|)
  }

  /** Whether member `k` is a candidate, as the loop body decides it. */
  method CheckNameSize(db: Db, words: seq<string>, rec: Type, m: int, k: nat) returns (b: bool)
    requires k < |rec.refs|
    ensures b == IsNameSize(db, words, rec, m, k)
  {
    b := false;
    if IsSizeType(db, TypeOf(db, rec.refs[k])) {
      var memberName, sizeName := At(rec.refnames, m, ""), At(rec.refnames, k, "");
      if Contains(sizeName, memberName) {
        b := HasSizeWord(words, memberName, sizeName);
      }
    }
  }

  /** The loop over the size-member candidates of member `m`. */
  method CollectNameSizes(db: Db, words: seq<string>, rec: Type, m: int) returns (sizes: seq<int>)
    ensures sizes == NameSizes(db, words, rec, m)
  {
    sizes := [];
    var k := 0;
    while k < |rec.refs|
      invariant 0 <= k <= |rec.refs|
      invariant sizes == NameSizesUpTo(db, words, rec, m, k)
    {
      var named := CheckNameSize(db, words, rec, m, k);
      if named {
        sizes := sizes + [k];
      }
      k := k + 1;
    }
  }

  /** The name heuristic for member `m` of record `rec`; a `name_size` entry, once set, is never recomputed. */
  function NameStep(db: Db, words: seq<string>, rec: Type, m: nat, u: UsageInfo): (r: UsageInfo)
    requires m < |rec.refs|
    ensures u.Keys <= r.Keys
    ensures !IsPointerLikeType(db, TypeOf(db, rec.refs[m])) ==> r == u
    ensures UsageAt(u, rec.id, m).nameSize.Some? ==> UsageAt(r, rec.id, m) == UsageAt(u, rec.id, m)
    ensures forall k, j :: (k != rec.id || j != m) ==> UsageAt(r, k, j) == UsageAt(u, k, j)
  {
    if !IsPointerLikeType(db, TypeOf(db, rec.refs[m])) then u
    else
      var u1 := EnsureRecord(u, rec);
      assert forall k, j :: UsageAt(u1, k, j) == UsageAt(u, k, j);
      var md := UsageAt(u1, rec.id, m);
      if md.nameSize.Some? then u1
      else
        var sizes := NameSizes(db, words, rec, m);
        if |sizes| > 0 then SetUsage(u1, rec.id, m, md.(nameSize := Some(sizes))) else u1
  }

  function NamesUpTo(db: Db, words: seq<string>, rec: Type, n: nat, u: UsageInfo): UsageInfo
    requires n <= |rec.refs|
    decreases n
  {
    if n == 0 then u else NameStep(db, words, rec, n - 1, NamesUpTo(db, words, rec, n - 1, u))
  }

  /** The name heuristic over the given types: records only, every member in order. */
  function TypesEvidence(db: Db, words: seq<string>, types: seq<Type>, u: UsageInfo): UsageInfo
    decreases |types|
  {
    if |types| == 0 then u
    else
      var prev := TypesEvidence(db, words, types[..|types| - 1], u);
      var t := GetRecordType(db, types[|types| - 1]);
      if t.cls == Record then NamesUpTo(db, words, t, |t.refs|, prev) else prev
  }

  // ---------------------------------------------------------------------------
  // What the evidence keeps

  /** `r` has every record of `u` with as many entries, and every `value` of `u` at least as large. */
  ghost predicate Extends(u: UsageInfo, r: UsageInfo) {
    u.Keys <= r.Keys &&
    (forall k :: k in u ==> |r[k]| == |u[k]|) &&
    (forall k, m :: UsageAt(u, k, m).value.Some? ==>
      UsageAt(r, k, m).value.Some? && UsageAt(r, k, m).value.value >= UsageAt(u, k, m).value.value)
  }

  lemma ExtendsTrans(a: UsageInfo, b: UsageInfo, c: UsageInfo)
    requires Extends(a, b) && Extends(b, c)
    ensures Extends(a, c)
  {
  }

  lemma EnsureRecordExtends(u: UsageInfo, rec: Type)
    ensures Extends(u, EnsureRecord(u, rec))
  {
    var r := EnsureRecord(u, rec);
    forall k, m | UsageAt(u, k, m).value.Some? ensures UsageAt(r, k, m) == UsageAt(u, k, m) {
      assert k in u;
    }
  }

  lemma DerefEvidenceExtends(db: Db, f: Function, d: Deref, u: UsageInfo)
    ensures Extends(u, DerefEvidence(db, f, d, u))
  {
    var p := PointerEvidence(db, f, d, u);
    if PointerMemberBase(db, f, d) {
      var (rec, m) := OperandMember(db, f, At(d.offsetrefs, 0, DefaultOperand));
      EnsureRecordExtends(u, rec);
      var u1 := EnsureRecord(u, rec);
      assert Extends(u1, p) by {
        forall k, j | UsageAt(u1, k, j).value.Some?
          ensures UsageAt(p, k, j).value.Some? && UsageAt(p, k, j).value.value >= UsageAt(u1, k, j).value.value
        {
          if k == rec.id && j == m && 0 <= m < |u1[rec.id]| {
            assert UsageAt(p, k, j) == PointerUsage(db, f, d, UsageAt(u, rec.id, m));
          }
        }
      }
      ExtendsTrans(u, u1, p);
    }
    var r := IndexEvidence(db, f, d, p);
    if IndexesConstArray(db, f, d) {
      var (rec, m) := OperandMember(db, f, d.offsetrefs[1]);
      EnsureRecordExtends(p, rec);
      var p1 := EnsureRecord(p, rec);
      assert Extends(p1, r) by {
        forall k, j | UsageAt(p1, k, j).value.Some?
          ensures UsageAt(r, k, j).value == UsageAt(p1, k, j).value
        {
          if k == rec.id && j == m && 0 <= m < |p1[rec.id]| {
            assert UsageAt(r, k, j) == UsageAt(p, rec.id, m).(index := Some(ArraySizeOf(db, f, d.offsetrefs[0])));
          }
        }
      }
      ExtendsTrans(p, p1, r);
    }
    ExtendsTrans(u, p, r);
  }

  lemma {:induction false} DerefsEvidenceExtends(db: Db, f: Function, ds: seq<Deref>, u: UsageInfo)
    ensures Extends(u, DerefsEvidence(db, f, ds, u))
    decreases |ds|
  {
    if |ds| > 0 {
      var prev := DerefsEvidence(db, f, ds[..|ds| - 1], u);
      DerefsEvidenceExtends(db, f, ds[..|ds| - 1], u);
      DerefEvidenceExtends(db, f, ds[|ds| - 1], prev);
      ExtendsTrans(u, prev, DerefsEvidence(db, f, ds, u));
    }
  }

  /** The deref pass only ever adds: records are never dropped or resized, `value` never decreases. */
  lemma {:induction false} FuncsEvidenceExtends(db: Db, funcs: seq<Function>, u: UsageInfo)
    ensures Extends(u, FuncsEvidence(db, funcs, u))
    decreases |funcs|
  {
    if |funcs| > 0 {
      var f := funcs[|funcs| - 1];
      var prev := FuncsEvidence(db, funcs[..|funcs| - 1], u);
      FuncsEvidenceExtends(db, funcs[..|funcs| - 1], u);
      DerefsEvidenceExtends(db, f, f.derefs, prev);
      ExtendsTrans(u, prev, FuncsEvidence(db, funcs, u));
    }
  }

  lemma NameStepExtends(db: Db, words: seq<string>, rec: Type, m: nat, u: UsageInfo)
    requires m < |rec.refs|
    ensures Extends(u, NameStep(db, words, rec, m, u))
  {
    EnsureRecordExtends(u, rec);
  }

  lemma {:induction false} NamesUpToExtends(db: Db, words: seq<string>, rec: Type, n: nat, u: UsageInfo)
    requires n <= |rec.refs|
    ensures Extends(u, NamesUpTo(db, words, rec, n, u))
    decreases n
  {
    if n > 0 {
      var prev := NamesUpTo(db, words, rec, n - 1, u);
      var next := NameStep(db, words, rec, n - 1, prev);
      assert NamesUpTo(db, words, rec, n, u) == next;
      NamesUpToExtends(db, words, rec, n - 1, u);
      NameStepExtends(db, words, rec, n - 1, prev);
      ExtendsTrans(u, prev, next);
    }
  }

  /** The name pass only ever adds as well. */
  lemma {:induction false} TypesEvidenceExtends(db: Db, words: seq<string>, types: seq<Type>, u: UsageInfo)
    ensures Extends(u, TypesEvidence(db, words, types, u))
    decreases |types|
  {
    if |types| > 0 {
      var prev := TypesEvidence(db, words, types[..|types| - 1], u);
      TypesEvidenceExtends(db, words, types[..|types| - 1], u);
      var t := GetRecordType(db, types[|types| - 1]);
      if t.cls == Record {
        NamesUpToExtends(db, words, t, |t.refs|, prev);
        ExtendsTrans(u, prev, TypesEvidence(db, words, types, u));
      }
    }
  }

  /** An entry whose `name_size` is set is never touched again by the name heuristic ("do only once"). */
  lemma {:induction false} NamesKeepNamedEntries(db: Db, words: seq<string>, rec: Type, n: nat, u: UsageInfo, k: TypeId, m: int)
    requires n <= |rec.refs|
    requires UsageAt(u, k, m).nameSize.Some?
    ensures UsageAt(NamesUpTo(db, words, rec, n, u), k, m) == UsageAt(u, k, m)
    decreases n
  {
    if n > 0 {
      NamesKeepNamedEntries(db, words, rec, n - 1, u, k, m);
    }
  }

  // ---------------------------------------------------------------------------
  // The evidence collector

  class SizeInference {
    const db: Db
    /** The size words of the name heuristic (`sizematch`). */
    const sizeMatch: seq<string>
    var usage: UsageInfo

    constructor(db: Db)
      ensures this.db == db && sizeMatch == SizeWords && usage == map[]
    {
      this.db := db;
      sizeMatch := SizeWords;
      usage := map[];
    }

    /** Both kinds of evidence one array deref contributes. */
    method AddDerefEvidence(f: Function, d: Deref)
      modifies this
      ensures usage == DerefEvidence(db, f, d, old(usage))
    {
      if PointerMemberBase(db, f, d) {
        var (rec, m) := OperandMember(db, f, At(d.offsetrefs, 0, DefaultOperand));
        usage := EnsureRecord(usage, rec);
        var md := PointerUsageOf(db, f, d, UsageAt(usage, rec.id, m));
        usage := SetUsage(usage, rec.id, m, md);
      }
      if IndexesConstArray(db, f, d) {
        var (rec, m) := OperandMember(db, f, d.offsetrefs[1]);
        usage := EnsureRecord(usage, rec);
        usage := SetUsage(usage, rec.id, m, UsageAt(usage, rec.id, m).(index := Some(ArraySizeOf(db, f, d.offsetrefs[0]))));
      }
    }

    /** The name heuristic for one member of a record. */
    method AddNameEvidence(rec: Type, m: nat)
      requires m < |rec.refs|
      modifies this
      ensures usage == NameStep(db, sizeMatch, rec, m, old(usage))
    {
      if IsPointerLikeType(db, TypeOf(db, rec.refs[m])) {
        usage := EnsureRecord(usage, rec);
        var md := UsageAt(usage, rec.id, m);
        if md.nameSize.None? {
          var sizes := CollectNameSizes(db, sizeMatch, rec, m);
          if |sizes| > 0 {
            usage := SetUsage(usage, rec.id, m, md.(nameSize := Some(sizes)));
          }
        }
      }
    }

    /** The array derefs of one function, in order. */
    method AddFunctionEvidence(f: Function)
      modifies this
      ensures usage == DerefsEvidence(db, f, f.derefs, old(usage))
    {
      var j := 0;
      while j < |f.derefs|
        invariant 0 <= j <= |f.derefs|
        invariant usage == DerefsEvidence(db, f, f.derefs[..j], old(usage))
      {
        assert f.derefs[..j + 1][..j] == f.derefs[..j];
        AddDerefEvidence(f, f.derefs[j]);
        j := j + 1;
      }
      assert f.derefs[..|f.derefs|] == f.derefs;
    }

    /** The name heuristic over every member of one record, in order. */
    method AddRecordNames(t: Type)
      modifies this
      ensures usage == NamesUpTo(db, sizeMatch, t, |t.refs|, old(usage))
    {
      var m := 0;
      while m < |t.refs|
        invariant 0 <= m <= |t.refs|
        invariant usage == NamesUpTo(db, sizeMatch, t, m, old(usage))
      {
        AddNameEvidence(t, m);
        m := m + 1;
      }
    }

    /**
     * `_generate_member_size_info(funcs, types)`: the array derefs of every function, then the
     * name heuristic over the records among `types`.
     */
    method GenerateMemberSizeInfo(funcs: seq<Function>, types: seq<Type>)
      modifies this
      ensures usage == TypesEvidence(db, sizeMatch, types, FuncsEvidence(db, funcs, old(usage)))
      ensures Extends(old(usage), usage)
    {
      var i := 0;
      while i < |funcs|
        invariant 0 <= i <= |funcs|
        invariant usage == FuncsEvidence(db, funcs[..i], old(usage))
      {
        assert funcs[..i + 1][..i] == funcs[..i];
        AddFunctionEvidence(funcs[i]);
        i := i + 1;
      }
      assert funcs[..|funcs|] == funcs;
      ghost var afterDerefs := usage;
      var k := 0;
      while k < |types|
        invariant 0 <= k <= |types|
        invariant usage == TypesEvidence(db, sizeMatch, types[..k], afterDerefs)
      {
        assert types[..k + 1][..k] == types[..k];
        var t := GetRecordType(db, types[k]);
        if t.cls == Record {
          AddRecordNames(t);
        }
        k := k + 1;
      }
      assert types[..|types|] == types;
      FuncsEvidenceExtends(db, funcs, old(usage));
      TypesEvidenceExtends(db, sizeMatch, types, afterDerefs);
      ExtendsTrans(old(usage), afterDerefs, usage);
    }
  }
}
