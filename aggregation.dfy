/**
 * The whole-corpus aggregation of the per-deref facts: `_discover_casts` merges the cast and
 * offsetof facts of every deref of a set of functions into the analysis object's
 * `casted_pointers` and `offset_pointers` tables, and `_get_used_types_data` merges the
 * member-usage marks of the functions kept in the off-target into `used_types_data`.
 * The tables are fields of `Analysis`, updated in place by its methods; each method is
 * specified by a function over the old table and the facts, and the lemmas below say what
 * those functions record.
 */
module Aggregation {

  import opened Basics
  import opened Ir
  import opened Strings
  import opened Facts
  import opened MemberAccess
  import opened TypePredicates

  /** `casted_pointers`: source type -> member or NoMember -> destination types. */
  type CastMap = map<TypeId, map<int, seq<TypeId>>>

  /** `offset_pointers`: inner type -> the (type chain, member chain) pairs that reach it. */
  type OffsetMap = map<TypeId, seq<OffsetEntry>>

  // ---------------------------------------------------------------------------
  // Lists

  /** Each element of `xs`, left to right, appended to `s` unless already there. */
  function AppendAll<T(==,!new)>(s: seq<T>, xs: seq<T>): (r: seq<T>)
    ensures s <= r
    ensures forall y :: y in r <==> y in s || y in xs
    decreases |xs|
  {
    if |xs| == 0 then s
    else
      var r := AppendNew(AppendAll(s, xs[..|xs| - 1]), xs[|xs| - 1]);
      assert forall y :: y in xs <==> y in xs[..|xs| - 1] || y == xs[|xs| - 1];
      r
  }

  /** Appending only absent elements keeps a list free of repetitions. */
  lemma {:induction false} AppendAllNoDups<T(!new)>(s: seq<T>, xs: seq<T>)
    requires NoDups(s)
    ensures NoDups(AppendAll(s, xs))
    decreases |xs|
  {
    if |xs| > 0 {
      AppendAllNoDups(s, xs[..|xs| - 1]);
      AppendNewNoDups(AppendAll(s, xs[..|xs| - 1]), xs[|xs| - 1]);
    }
  }

  /** The loop `for c in xs: if c not in s: s.append(c)`. */
  method AppendMissing<T(==,!new)>(s: seq<T>, xs: seq<T>) returns (r: seq<T>)
    ensures r == AppendAll(s, xs)
  {
    r := s;
    var j := 0;
    while j < |xs|
      invariant 0 <= j <= |xs|
      invariant r == AppendAll(s, xs[..j])
    {
      assert xs[..j + 1][..j] == xs[..j];
      if xs[j] !in r {
        r := r + [xs[j]];
      }
      j := j + 1;
    }
    assert xs[..|xs|] == xs;
  }

  /** The offsetof loop of `_discover_casts`: each pair of `es` appended unless the `found` search sees an equal one. */
  method AppendMissingEntries(lst: seq<OffsetEntry>, es: seq<OffsetEntry>) returns (r: seq<OffsetEntry>)
    ensures r == AppendAll(lst, es)
  {
    r := lst;
    var j := 0;
    while j < |es|
      invariant 0 <= j <= |es|
      invariant r == AppendAll(lst, es[..j])
    {
      assert es[..j + 1][..j] == es[..j];
      var found := ContainsEntry(r, es[j]);
      if !found {
        r := r + [es[j]];
      }
      j := j + 1;
    }
    assert es[..|es|] == es;
  }

  /** The `found` search of `_discover_casts`: whether a pair equal to `e` is already listed. */
  method ContainsEntry(lst: seq<OffsetEntry>, e: OffsetEntry) returns (found: bool)
    ensures found <==> e in lst
  {
    found := false;
    var j := 0;
    while j < |lst| && !found
      invariant 0 <= j <= |lst|
      invariant !found ==> e !in lst[..j]
      invariant found ==> e in lst
    {
      assert lst[..j + 1] == lst[..j] + [lst[j]];
      if lst[j].0 == e.0 && lst[j].1 == e.1 {
        found := true;
      }
      j := j + 1;
    }
    assert !found ==> lst[..j] == lst;
  }

  // ---------------------------------------------------------------------------
  // Merging cast data into `casted_pointers`

  /** The list of member `m` once `b` is merged into `a`: `b`'s list when new, the missing types appended otherwise. */
  function MergedList(a: map<int, seq<TypeId>>, b: map<int, seq<TypeId>>, m: int): seq<TypeId>
    requires m in a || m in b
  {
    if m in b then (if m in a then AppendAll(a[m], b[m]) else b[m]) else a[m]
  }

  /** All member lists of `b` merged into `a`. */
  function MergeMembers(a: map<int, seq<TypeId>>, b: map<int, seq<TypeId>>): map<int, seq<TypeId>> {
    map m | m in a.Keys + b.Keys :: MergedList(a, b, m)
  }

  /** One source type of a deref's cast data merged in: stored as it is when new, merged member by member otherwise. */
  function MergeSource(cp: CastMap, k: TypeId, b: map<int, seq<TypeId>>): CastMap {
    if k !in cp then cp[k := b] else cp[k := MergeMembers(cp[k], b)]
  }

  /** The sources `keys` of `cd`, in order, merged into `cp`. */
  function MergeCasts(cp: CastMap, cd: CastData, keys: seq<TypeId>): CastMap
    requires forall k :: k in keys ==> HasKey(cd, k)
    decreases |keys|
  {
    if |keys| == 0 then cp
    else
      assert forall k :: k in keys[..|keys| - 1] ==> k in keys;
      MergeSource(MergeCasts(cp, cd, keys[..|keys| - 1]), keys[|keys| - 1], Get(cd, keys[|keys| - 1]).vals)
  }

  /** `cp[k][m]` holds `c`. */
  predicate Has(cp: CastMap, k: TypeId, m: int, c: TypeId) {
    k in cp && m in cp[k] && c in cp[k][m]
  }

  /** No list of the table repeats a type. */
  ghost predicate NoDupLists(cp: CastMap) {
    forall k, m :: k in cp && m in cp[k] ==> NoDups(cp[k][m])
  }

  /**
   * The member loop of `_discover_casts` for a source already in `casted_pointers`: a new
   * member takes its list, a known one gets the missing destinations appended.
   */
  method MergeMemberMaps(a: map<int, seq<TypeId>>, b: map<int, seq<TypeId>>) returns (r: map<int, seq<TypeId>>)
    ensures r == MergeMembers(a, b)
  {
    r := a;
    var todo := b.Keys;
    while todo != {}
      invariant todo <= b.Keys
      invariant r.Keys == a.Keys + (b.Keys - todo)
      invariant forall m :: m in r ==> r[m] == if m in todo then a[m] else MergedList(a, b, m)
      decreases |todo|
    {
      ghost var w := ElementOf(todo);
      var m :| m in todo;
      var lst := b[m];
      if m in r {
        lst := AppendMissing(r[m], b[m]);
      }
      r := r[m := lst];
      todo := todo - {m};
    }
  }

  /** A merged member list holds exactly what either side held. */
  lemma MergeSourceHas(cp: CastMap, k: TypeId, b: map<int, seq<TypeId>>, k': TypeId, m: int, c: TypeId)
    ensures Has(MergeSource(cp, k, b), k', m, c) <==> Has(cp, k', m, c) || (k' == k && m in b && c in b[m])
  {
    if k in cp && k' == k {
      var r := MergeMembers(cp[k], b);
      assert m in r <==> m in cp[k] || m in b;
    }
  }

  /** After merging, a triple is held exactly when it was held before or the merged sources carry it. */
  lemma {:induction false} MergeCastsHas(cp: CastMap, cd: CastData, keys: seq<TypeId>, k: TypeId, m: int, c: TypeId)
    requires forall k :: k in keys ==> HasKey(cd, k)
    ensures Has(MergeCasts(cp, cd, keys), k, m, c) <==> Has(cp, k, m, c) || (k in keys && Recorded(cd, k, m, c))
    decreases |keys|
  {
    if |keys| > 0 {
      var n := |keys| - 1;
      assert forall k :: k in keys[..n] ==> k in keys;
      MergeCastsHas(cp, cd, keys[..n], k, m, c);
      MergeSourceHas(MergeCasts(cp, cd, keys[..n]), keys[n], Get(cd, keys[n]).vals, k, m, c);
      assert k in keys <==> k in keys[..n] || k == keys[n] by {
        assert keys == keys[..n] + [keys[n]];
      }
    }
  }

  /** Merging duplicate-free lists keeps every list of the table duplicate-free. */
  lemma MergeSourceNoDups(cp: CastMap, k: TypeId, b: map<int, seq<TypeId>>)
    requires NoDupLists(cp) && forall m :: m in b ==> NoDups(b[m])
    ensures NoDupLists(MergeSource(cp, k, b))
  {
    if k in cp {
      forall m | m in cp[k] && m in b ensures NoDups(AppendAll(cp[k][m], b[m])) {
        AppendAllNoDups(cp[k][m], b[m]);
      }
    }
  }

  lemma {:induction false} MergeCastsNoDups(cp: CastMap, cd: CastData, keys: seq<TypeId>)
    requires forall k :: k in keys ==> HasKey(cd, k)
    requires NoDupLists(cp) && ListsNoDups(cd)
    ensures NoDupLists(MergeCasts(cp, cd, keys))
    decreases |keys|
  {
    if |keys| > 0 {
      var n := |keys| - 1;
      assert forall k :: k in keys[..n] ==> k in keys;
      MergeCastsNoDups(cp, cd, keys[..n]);
      var b := Get(cd, keys[n]);
      assert forall m :: m in b.vals ==> NoDups(b.vals[m]) by {
        forall m | m in b.vals ensures NoDups(b.vals[m]) {
          assert HasKey(b, m);
        }
      }
      MergeSourceNoDups(MergeCasts(cp, cd, keys[..n]), keys[n], b.vals);
    }
  }

  // ---------------------------------------------------------------------------
  // Merging offsetof data into `offset_pointers`

  /** One inner type's pairs merged in: stored as they are when new, else each absent pair appended. */
  function MergeOffsetSource(op: OffsetMap, k: TypeId, es: seq<OffsetEntry>): OffsetMap {
    if k !in op then op[k := es] else op[k := AppendAll(op[k], es)]
  }

  /** The inner types `keys` of `od`, in order, merged into `op`. */
  function MergeOffsets(op: OffsetMap, od: OffsetData, keys: seq<TypeId>): OffsetMap
    requires forall k :: k in keys ==> HasKey(od, k)
    decreases |keys|
  {
    if |keys| == 0 then op
    else
      assert forall k :: k in keys[..|keys| - 1] ==> k in keys;
      MergeOffsetSource(MergeOffsets(op, od, keys[..|keys| - 1]), keys[|keys| - 1], Get(od, keys[|keys| - 1]))
  }

  /** `op[k]` lists the pair `e`. */
  predicate HasOffset(op: OffsetMap, k: TypeId, e: OffsetEntry) {
    k in op && e in op[k]
  }

  ghost predicate NoDupOffsets(op: OffsetMap) {
    forall k :: k in op ==> NoDups(op[k])
  }

  lemma {:induction false} MergeOffsetsHas(op: OffsetMap, od: OffsetData, keys: seq<TypeId>, k: TypeId, e: OffsetEntry)
    requires forall k :: k in keys ==> HasKey(od, k)
    ensures HasOffset(MergeOffsets(op, od, keys), k, e) <==>
      HasOffset(op, k, e) || (k in keys && e in Get(od, k))
    decreases |keys|
  {
    if |keys| > 0 {
      var n := |keys| - 1;
      assert forall k :: k in keys[..n] ==> k in keys;
      MergeOffsetsHas(op, od, keys[..n], k, e);
      assert k in keys <==> k in keys[..n] || k == keys[n] by {
        assert keys == keys[..n] + [keys[n]];
      }
    }
  }

  lemma {:induction false} MergeOffsetsNoDups(op: OffsetMap, od: OffsetData, keys: seq<TypeId>)
    requires forall k :: k in keys ==> HasKey(od, k)
    requires NoDupOffsets(op) && forall k :: HasKey(od, k) ==> NoDups(Get(od, k))
    ensures NoDupOffsets(MergeOffsets(op, od, keys))
    decreases |keys|
  {
    if |keys| > 0 {
      var n := |keys| - 1;
      assert forall k :: k in keys[..n] ==> k in keys;
      MergeOffsetsNoDups(op, od, keys[..n]);
      var prev := MergeOffsets(op, od, keys[..n]);
      if keys[n] in prev {
        AppendAllNoDups(prev[keys[n]], Get(od, keys[n]));
      }
    }
  }

  // ---------------------------------------------------------------------------
  // `_discover_casts` over derefs and functions

  /** The deref's expression takes an address: it starts with `&` after leading white space. */
  predicate TakesAddress(expr: string) {
    "&" <= LStrip(expr)
  }

  /** The cast data a deref contributes: none when no cast is found or when the expression takes an address. */
  function DerefCasts(db: Db, f: Function, d: Deref): Option<CastData> {
    var cd := CastFromDeref(db, d, f);
    if cd.None? || TakesAddress(d.expr) then None else cd
  }

  /** `casted_pointers` after one deref: offsetof derefs feed `offset_pointers` instead. */
  function CastsStep(cp: CastMap, db: Db, f: Function, d: Deref): CastMap {
    if d.kind == KOffsetof then cp
    else match DerefCasts(db, f, d)
      case None => cp
      case Some(cd) =>
        CastFromDerefInv(db, d, f);
        MergeCasts(cp, cd, Keys(cd))
  }

  /** `offset_pointers` after one deref: only offsetof derefs count. */
  function OffsetsStep(op: OffsetMap, db: Db, d: Deref): OffsetMap {
    if d.kind != KOffsetof then op
    else
      OffsetofFromDerefInv(db, d);
      var od := OffsetofFromDeref(db, d).value;
      MergeOffsets(op, od, Keys(od))
  }

  /** `casted_pointers` after the derefs `ds` of `f`, left to right. */
  function DerefsCasts(cp: CastMap, db: Db, f: Function, ds: seq<Deref>): CastMap
    decreases |ds|
  {
    if |ds| == 0 then cp else CastsStep(DerefsCasts(cp, db, f, ds[..|ds| - 1]), db, f, ds[|ds| - 1])
  }

  function DerefsOffsets(op: OffsetMap, db: Db, ds: seq<Deref>): OffsetMap
    decreases |ds|
  {
    if |ds| == 0 then op else OffsetsStep(DerefsOffsets(op, db, ds[..|ds| - 1]), db, ds[|ds| - 1])
  }

  /** `casted_pointers` after the functions `fs`; an id the database does not know is skipped. */
  function CastsOver(cp: CastMap, db: Db, fs: seq<FuncId>): CastMap
    decreases |fs|
  {
    if |fs| == 0 then cp
    else
      var prev := CastsOver(cp, db, fs[..|fs| - 1]);
      var fid := fs[|fs| - 1];
      if fid !in db.functions then prev else DerefsCasts(prev, db, db.functions[fid], db.functions[fid].derefs)
  }

  function OffsetsOver(op: OffsetMap, db: Db, fs: seq<FuncId>): OffsetMap
    decreases |fs|
  {
    if |fs| == 0 then op
    else
      var prev := OffsetsOver(op, db, fs[..|fs| - 1]);
      var fid := fs[|fs| - 1];
      if fid !in db.functions then prev else DerefsOffsets(prev, db, db.functions[fid].derefs)
  }

  /** Deref `d` of `f` yields cast data, does not take an address, and records `k -> m -> c`. */
  ghost predicate CastContributed(db: Db, f: Function, d: Deref, k: TypeId, m: int, c: TypeId) {
    d.kind != KOffsetof && DerefCasts(db, f, d).Some? && Recorded(DerefCasts(db, f, d).value, k, m, c)
  }

  /** Some function of `fs` known to the database has a deref that contributes `k -> m -> c`. */
  ghost predicate CastFromFunctions(db: Db, fs: seq<FuncId>, k: TypeId, m: int, c: TypeId) {
    exists fid, d :: fid in fs && fid in db.functions && d in db.functions[fid].derefs &&
      CastContributed(db, db.functions[fid], d, k, m, c)
  }

  lemma CastsStepHas(cp: CastMap, db: Db, f: Function, d: Deref, k: TypeId, m: int, c: TypeId)
    ensures Has(CastsStep(cp, db, f, d), k, m, c) <==> Has(cp, k, m, c) || CastContributed(db, f, d, k, m, c)
  {
    if d.kind != KOffsetof && DerefCasts(db, f, d).Some? {
      var cd := DerefCasts(db, f, d).value;
      CastFromDerefInv(db, d, f);
      MergeCastsHas(cp, cd, Keys(cd), k, m, c);
    }
  }

  lemma {:induction false} DerefsCastsHas(cp: CastMap, db: Db, f: Function, ds: seq<Deref>, k: TypeId, m: int, c: TypeId)
    ensures Has(DerefsCasts(cp, db, f, ds), k, m, c) <==>
      Has(cp, k, m, c) || exists d :: d in ds && CastContributed(db, f, d, k, m, c)
    decreases |ds|
  {
    if |ds| > 0 {
      var n := |ds| - 1;
      DerefsCastsHas(cp, db, f, ds[..n], k, m, c);
      CastsStepHas(DerefsCasts(cp, db, f, ds[..n]), db, f, ds[n], k, m, c);
      InFrontOrLast(ds);
    }
  }

  /**
   * After `_discover_casts` over `fs`, `casted_pointers` holds a triple exactly when it held
   * it before or some deref of one of the functions contributed it; nothing is ever removed.
   */
  lemma {:induction false} CastsOverHas(cp: CastMap, db: Db, fs: seq<FuncId>, k: TypeId, m: int, c: TypeId)
    ensures Has(CastsOver(cp, db, fs), k, m, c) <==> Has(cp, k, m, c) || CastFromFunctions(db, fs, k, m, c)
    decreases |fs|
  {
    if |fs| > 0 {
      var n := |fs| - 1;
      var fid := fs[n];
      CastsOverHas(cp, db, fs[..n], k, m, c);
      InFrontOrLast(fs);
      if fid in db.functions {
        DerefsCastsHas(CastsOver(cp, db, fs[..n]), db, db.functions[fid], db.functions[fid].derefs, k, m, c);
      }
      if CastFromFunctions(db, fs, k, m, c) && !CastFromFunctions(db, fs[..n], k, m, c) {
        var g, d :| g in fs && g in db.functions && d in db.functions[g].derefs &&
          CastContributed(db, db.functions[g], d, k, m, c);
        assert g == fid;
      }
    }
  }

  /** Every triple that ends up in `casted_pointers` comes from a deref of one of the functions. */
  lemma CastsOverOnlyAdds(cp: CastMap, db: Db, fs: seq<FuncId>)
    ensures forall k, m, c :: Has(cp, k, m, c) ==> Has(CastsOver(cp, db, fs), k, m, c)
  {
    forall k, m, c | Has(cp, k, m, c) ensures Has(CastsOver(cp, db, fs), k, m, c) {
      CastsOverHas(cp, db, fs, k, m, c);
    }
  }

  lemma CastsStepNoDups(cp: CastMap, db: Db, f: Function, d: Deref)
    requires NoDupLists(cp)
    ensures NoDupLists(CastsStep(cp, db, f, d))
  {
    if d.kind != KOffsetof && DerefCasts(db, f, d).Some? {
      var cd := DerefCasts(db, f, d).value;
      CastFromDerefInv(db, d, f);
      CastFromDerefWellFormed(db, d, f);
      MergeCastsNoDups(cp, cd, Keys(cd));
    }
  }

  lemma {:induction false} DerefsCastsNoDups(cp: CastMap, db: Db, f: Function, ds: seq<Deref>)
    requires NoDupLists(cp)
    ensures NoDupLists(DerefsCasts(cp, db, f, ds))
    decreases |ds|
  {
    if |ds| > 0 {
      DerefsCastsNoDups(cp, db, f, ds[..|ds| - 1]);
      CastsStepNoDups(DerefsCasts(cp, db, f, ds[..|ds| - 1]), db, f, ds[|ds| - 1]);
    }
  }

  /** No `(source, member)` list of `casted_pointers` ever holds a destination twice. */
  lemma {:induction false} CastsOverNoDups(cp: CastMap, db: Db, fs: seq<FuncId>)
    requires NoDupLists(cp)
    ensures NoDupLists(CastsOver(cp, db, fs))
    decreases |fs|
  {
    if |fs| > 0 {
      var fid := fs[|fs| - 1];
      CastsOverNoDups(cp, db, fs[..|fs| - 1]);
      if fid in db.functions {
        DerefsCastsNoDups(CastsOver(cp, db, fs[..|fs| - 1]), db, db.functions[fid], db.functions[fid].derefs);
      }
    }
  }

  /**
   * Deref `d` of `f` explains `k -> m -> c`: it is neither an offsetof nor pointer arithmetic,
   * its expression does not take an address, an operand's accepted cast carries `m` and `c`
   * and is stored under `k` or a type `k` duplicates, and a `void*` destination only comes
   * from a `return`.
   */
  ghost predicate CastExplained(db: Db, f: Function, d: Deref, k: TypeId, m: int, c: TypeId) {
    d.kind != KOffsetof && !(d.kind == KAssign && d.offset != 21) && !TakesAddress(d.expr) &&
    (IsVoidPtr(db, TypeOf(db, c)) ==> d.kind == KReturn) &&
    exists o :: o in d.offsetrefs && Explains(db, d, f, o, k, m, c)
  }

  /** Every cast `_discover_casts` records, starting from empty tables, is explained by a deref of one of the functions. */
  lemma DiscoveredCastsExplained(db: Db, fs: seq<FuncId>, k: TypeId, m: int, c: TypeId)
    requires Has(CastsOver(map[], db, fs), k, m, c)
    ensures exists fid, d ::
      fid in fs && fid in db.functions && d in db.functions[fid].derefs && CastExplained(db, db.functions[fid], d, k, m, c)
  {
    CastsOverHas(map[], db, fs, k, m, c);
    var fid, d :| fid in fs && fid in db.functions && d in db.functions[fid].derefs &&
      CastContributed(db, db.functions[fid], d, k, m, c);
    CastFromDerefSound(db, d, db.functions[fid], k, m, c);
  }

  /** Deref `d` is an offsetof whose pair `e` reaches `k`: its source type or a duplicate of it. */
  ghost predicate OffsetContributed(db: Db, d: Deref, k: TypeId, e: OffsetEntry) {
    d.kind == KOffsetof && e == (d.types, d.members) &&
    (k == OffsetofSource(db, d) || k in DupsOf(db, OffsetofSource(db, d)))
  }

  ghost predicate OffsetFromFunctions(db: Db, fs: seq<FuncId>, k: TypeId, e: OffsetEntry) {
    exists fid, d :: fid in fs && fid in db.functions && d in db.functions[fid].derefs && OffsetContributed(db, d, k, e)
  }

  lemma OffsetsStepHas(op: OffsetMap, db: Db, d: Deref, k: TypeId, e: OffsetEntry)
    ensures HasOffset(OffsetsStep(op, db, d), k, e) <==> HasOffset(op, k, e) || OffsetContributed(db, d, k, e)
  {
    if d.kind == KOffsetof {
      OffsetofFromDerefInv(db, d);
      var od := OffsetofFromDeref(db, d).value;
      var src := OffsetofSource(db, d);
      MergeOffsetsHas(op, od, Keys(od), k, e);
      OffsetofFromDerefHas(db, d, k, e);
    }
  }

  lemma {:induction false} DerefsOffsetsHas(op: OffsetMap, db: Db, ds: seq<Deref>, k: TypeId, e: OffsetEntry)
    ensures HasOffset(DerefsOffsets(op, db, ds), k, e) <==>
      HasOffset(op, k, e) || exists d :: d in ds && OffsetContributed(db, d, k, e)
    decreases |ds|
  {
    if |ds| > 0 {
      var n := |ds| - 1;
      DerefsOffsetsHas(op, db, ds[..n], k, e);
      OffsetsStepHas(DerefsOffsets(op, db, ds[..n]), db, ds[n], k, e);
      InFrontOrLast(ds);
    }
  }

  /**
   * After `_discover_casts` over `fs`, `offset_pointers[k]` lists a pair exactly when it did
   * before or some offsetof deref of one of the functions has that pair and reaches `k`.
   */
  lemma {:induction false} OffsetsOverHas(op: OffsetMap, db: Db, fs: seq<FuncId>, k: TypeId, e: OffsetEntry)
    ensures HasOffset(OffsetsOver(op, db, fs), k, e) <==> HasOffset(op, k, e) || OffsetFromFunctions(db, fs, k, e)
    decreases |fs|
  {
    if |fs| > 0 {
      var n := |fs| - 1;
      var fid := fs[n];
      OffsetsOverHas(op, db, fs[..n], k, e);
      InFrontOrLast(fs);
      if fid in db.functions {
        DerefsOffsetsHas(OffsetsOver(op, db, fs[..n]), db, db.functions[fid].derefs, k, e);
      }
      if OffsetFromFunctions(db, fs, k, e) && !OffsetFromFunctions(db, fs[..n], k, e) {
        var g, d :| g in fs && g in db.functions && d in db.functions[g].derefs && OffsetContributed(db, d, k, e);
        assert g == fid;
      }
    }
  }

  lemma OffsetsStepNoDups(op: OffsetMap, db: Db, d: Deref)
    requires NoDupOffsets(op)
    ensures NoDupOffsets(OffsetsStep(op, db, d))
  {
    if d.kind == KOffsetof {
      OffsetofFromDerefInv(db, d);
      var od := OffsetofFromDeref(db, d).value;
      MergeOffsetsNoDups(op, od, Keys(od));
    }
  }

  lemma {:induction false} DerefsOffsetsNoDups(op: OffsetMap, db: Db, ds: seq<Deref>)
    requires NoDupOffsets(op)
    ensures NoDupOffsets(DerefsOffsets(op, db, ds))
    decreases |ds|
  {
    if |ds| > 0 {
      DerefsOffsetsNoDups(op, db, ds[..|ds| - 1]);
      OffsetsStepNoDups(DerefsOffsets(op, db, ds[..|ds| - 1]), db, ds[|ds| - 1]);
    }
  }

  /** No list of `offset_pointers` ever holds the same pair twice. */
  lemma {:induction false} OffsetsOverNoDups(op: OffsetMap, db: Db, fs: seq<FuncId>)
    requires NoDupOffsets(op)
    ensures NoDupOffsets(OffsetsOver(op, db, fs))
    decreases |fs|
  {
    if |fs| > 0 {
      var fid := fs[|fs| - 1];
      OffsetsOverNoDups(op, db, fs[..|fs| - 1]);
      if fid in db.functions {
        DerefsOffsetsNoDups(OffsetsOver(op, db, fs[..|fs| - 1]), db, db.functions[fid].derefs);
      }
    }
  }

  // ---------------------------------------------------------------------------
  // `_get_used_types_data`

  /**
   * `usedrefs` after `stored[i] = used` for every `used != -1` of `b`; the table entry keeps
   * its length, so a mark past its end is not written.
   */
  function Overlay(a: seq<int>, b: seq<int>): seq<int> {
    seq(|a|, i requires 0 <= i < |a| => if i < |b| && b[i] != -1 then b[i] else a[i])
  }

  /** The marks of `t` merged into `used_types_data`: copied when the type is new, overlaid otherwise. */
  function MergeUsedType(ut: map<TypeId, Type>, k: TypeId, t: Type): map<TypeId, Type> {
    if k !in ut then ut[k := t] else ut[k := ut[k].(usedrefs := Overlay(ut[k].usedrefs, t.usedrefs))]
  }

  /** The types `keys` of one deref's member data, in order, merged into `ut`. */
  function MergeUsed(ut: map<TypeId, Type>, md: Dict<TypeId, Type>, keys: seq<TypeId>): map<TypeId, Type>
    requires forall k :: k in keys ==> HasKey(md, k)
    decreases |keys|
  {
    if |keys| == 0 then ut
    else
      assert forall k :: k in keys[..|keys| - 1] ==> k in keys;
      MergeUsedType(MergeUsed(ut, md, keys[..|keys| - 1]), keys[|keys| - 1], Get(md, keys[|keys| - 1]))
  }

  /** The member data of each deref of `ds` (`_get_member_access_from_deref`), in order. */
  function AccessResults(db: Db, ds: seq<Deref>): (rs: seq<AccessResult>)
    ensures |rs| == |ds|
    ensures forall j :: 0 <= j < |ds| ==> rs[j] == MemberAccessFromDeref(db, ds[j])
    decreases |ds|
  {
    if |ds| == 0 then [] else AccessResults(db, ds[..|ds| - 1]) + [MemberAccessFromDeref(db, ds[|ds| - 1])]
  }

  /** Every member data in `rs` has its key list and map in agreement. */
  ghost predicate ResultsInv(rs: seq<AccessResult>) {
    forall j :: 0 <= j < |rs| && rs[j].Access? ==> DictInv(rs[j].data)
  }

  lemma AccessResultsInv(db: Db, ds: seq<Deref>)
    ensures ResultsInv(AccessResults(db, ds))
  {
    var rs := AccessResults(db, ds);
    forall j | 0 <= j < |rs| && rs[j].Access? ensures DictInv(rs[j].data) {
      MemberAccessInv(db, ds[j]);
    }
  }

  /** `used_types_data` after one deref's member data; None for the raised error. */
  function UsedStep(ut: map<TypeId, Type>, r: AccessResult): Option<map<TypeId, Type>>
    requires r.Access? ==> DictInv(r.data)
  {
    match r
    case NoAccess => Some(ut)
    case AccessError => None
    case Access(md, _) => Some(MergeUsed(ut, md, Keys(md)))
  }

  /** `used_types_data` after the member data `rs` of a function's derefs; the first error ends the walk. */
  function ResultsUsed(ut: map<TypeId, Type>, rs: seq<AccessResult>): Option<map<TypeId, Type>>
    requires ResultsInv(rs)
    decreases |rs|
  {
    if |rs| == 0 then Some(ut)
    else
      assert ResultsInv(rs[..|rs| - 1]);
      match ResultsUsed(ut, rs[..|rs| - 1])
      case None => None
      case Some(prev) => UsedStep(prev, rs[|rs| - 1])
  }

  /** `used_types_data` after the derefs `ds` of one function. */
  function DerefsUsed(ut: map<TypeId, Type>, db: Db, ds: seq<Deref>): Option<map<TypeId, Type>> {
    AccessResultsInv(db, ds);
    ResultsUsed(ut, AccessResults(db, ds))
  }

  /** `used_types_data` built afresh over the internal functions `fs`; an unknown id is skipped. */
  function UsedOver(db: Db, fs: seq<FuncId>): Option<map<TypeId, Type>>
    decreases |fs|
  {
    if |fs| == 0 then Some(map[])
    else match UsedOver(db, fs[..|fs| - 1])
      case None => None
      case Some(prev) =>
        var fid := fs[|fs| - 1];
        if fid !in db.functions then Some(prev) else DerefsUsed(prev, db, db.functions[fid].derefs)
  }

  /** Member `i` of `ut[k]` is marked used. */
  predicate MarkedIn(ut: map<TypeId, Type>, k: TypeId, i: int) {
    k in ut && 0 <= i < |ut[k].usedrefs| && ut[k].usedrefs[i] != -1
  }

  /** The member data has an entry for `k`. */
  predicate ResultHasType(r: AccessResult, k: TypeId) {
    r.Access? && HasKey(r.data, k)
  }

  /** The member data marks member `i` of `k` used. */
  predicate ResultMarks(r: AccessResult, k: TypeId, i: int) {
    r.Access? && HasKey(r.data, k) && 0 <= i < |Get(r.data, k).usedrefs| && Get(r.data, k).usedrefs[i] != -1
  }

  ghost predicate TypeFromFunctions(db: Db, fs: seq<FuncId>, k: TypeId) {
    exists fid, d :: fid in fs && fid in db.functions && d in db.functions[fid].derefs &&
      ResultHasType(MemberAccessFromDeref(db, d), k)
  }

  ghost predicate MarkFromFunctions(db: Db, fs: seq<FuncId>, k: TypeId, i: int) {
    exists fid, d :: fid in fs && fid in db.functions && d in db.functions[fid].derefs &&
      ResultMarks(MemberAccessFromDeref(db, d), k, i)
  }

  /** A type's entry is created once and then keeps its length; its marks are the union of the merged ones. */
  lemma MergeUsedTypeMarks(ut: map<TypeId, Type>, k: TypeId, t: Type, k': TypeId, i: int)
    ensures k' in MergeUsedType(ut, k, t) <==> k' in ut || k' == k
    ensures k' in ut ==> |MergeUsedType(ut, k, t)[k'].usedrefs| == |ut[k'].usedrefs|
    ensures k' !in ut && k' == k ==> MergeUsedType(ut, k, t)[k'] == t
    ensures k' in MergeUsedType(ut, k, t) ==>
      (MarkedIn(MergeUsedType(ut, k, t), k', i) <==>
        MarkedIn(ut, k', i) ||
        (k' == k && 0 <= i < |MergeUsedType(ut, k, t)[k'].usedrefs| && i < |t.usedrefs| && t.usedrefs[i] != -1))
  {
  }

  lemma {:induction false} MergeUsedDomain(ut: map<TypeId, Type>, md: Dict<TypeId, Type>, keys: seq<TypeId>, k: TypeId)
    requires forall k :: k in keys ==> HasKey(md, k)
    ensures k in MergeUsed(ut, md, keys) <==> k in ut || k in keys
    ensures k in ut ==> |MergeUsed(ut, md, keys)[k].usedrefs| == |ut[k].usedrefs|
    decreases |keys|
  {
    if |keys| > 0 {
      var n := |keys| - 1;
      assert forall k :: k in keys[..n] ==> k in keys;
      MergeUsedDomain(ut, md, keys[..n], k);
      MergeUsedTypeMarks(MergeUsed(ut, md, keys[..n]), keys[n], Get(md, keys[n]), k, 0);
      assert keys == keys[..n] + [keys[n]];
    }
  }

  lemma {:induction false} MergeUsedMarks(ut: map<TypeId, Type>, md: Dict<TypeId, Type>, keys: seq<TypeId>, k: TypeId, i: int)
    requires forall k :: k in keys ==> HasKey(md, k)
    requires k in MergeUsed(ut, md, keys) && 0 <= i < |MergeUsed(ut, md, keys)[k].usedrefs|
    ensures MarkedIn(MergeUsed(ut, md, keys), k, i) <==>
      MarkedIn(ut, k, i) || (k in keys && i < |Get(md, k).usedrefs| && Get(md, k).usedrefs[i] != -1)
    decreases |keys|
  {
    if |keys| > 0 {
      var n := |keys| - 1;
      assert forall k :: k in keys[..n] ==> k in keys;
      var prev := MergeUsed(ut, md, keys[..n]);
      assert keys == keys[..n] + [keys[n]];
      MergeUsedTypeMarks(prev, keys[n], Get(md, keys[n]), k, i);
      MergeUsedDomain(ut, md, keys[..n], k);
      if k in prev {
        MergeUsedMarks(ut, md, keys[..n], k, i);
      }
    }
  }

  lemma UsedStepDomain(prev: map<TypeId, Type>, r: AccessResult, k: TypeId)
    requires r.Access? ==> DictInv(r.data)
    requires UsedStep(prev, r).Some?
    ensures k in UsedStep(prev, r).value <==> k in prev || ResultHasType(r, k)
    ensures k in prev ==> |UsedStep(prev, r).value[k].usedrefs| == |prev[k].usedrefs|
  {
    if r.Access? {
      MergeUsedDomain(prev, r.data, Keys(r.data), k);
    }
  }

  lemma UsedStepMarks(prev: map<TypeId, Type>, r: AccessResult, k: TypeId, i: int)
    requires r.Access? ==> DictInv(r.data)
    requires UsedStep(prev, r).Some?
    requires k in UsedStep(prev, r).value && 0 <= i < |UsedStep(prev, r).value[k].usedrefs|
    ensures MarkedIn(UsedStep(prev, r).value, k, i) <==> MarkedIn(prev, k, i) || ResultMarks(r, k, i)
  {
    if r.Access? {
      MergeUsedMarks(prev, r.data, Keys(r.data), k, i);
    }
  }

  lemma {:induction false} ResultsUsedDomain(ut: map<TypeId, Type>, rs: seq<AccessResult>, k: TypeId)
    requires ResultsInv(rs) && ResultsUsed(ut, rs).Some?
    ensures k in ResultsUsed(ut, rs).value <==> k in ut || exists r :: r in rs && ResultHasType(r, k)
    ensures k in ut ==> |ResultsUsed(ut, rs).value[k].usedrefs| == |ut[k].usedrefs|
    decreases |rs|
  {
    if |rs| > 0 {
      var n := |rs| - 1;
      assert ResultsInv(rs[..n]);
      ResultsUsedDomain(ut, rs[..n], k);
      var prev := ResultsUsed(ut, rs[..n]).value;
      InFrontOrLast(rs);
      UsedStepDomain(prev, rs[n], k);
    }
  }

  lemma {:induction false} ResultsUsedMarks(ut: map<TypeId, Type>, rs: seq<AccessResult>, k: TypeId, i: int)
    requires ResultsInv(rs) && ResultsUsed(ut, rs).Some?
    requires k in ResultsUsed(ut, rs).value && 0 <= i < |ResultsUsed(ut, rs).value[k].usedrefs|
    ensures MarkedIn(ResultsUsed(ut, rs).value, k, i) <==>
      MarkedIn(ut, k, i) || exists r :: r in rs && ResultMarks(r, k, i)
    decreases |rs|
  {
    if |rs| > 0 {
      var n := |rs| - 1;
      assert ResultsInv(rs[..n]);
      var prev := ResultsUsed(ut, rs[..n]).value;
      InFrontOrLast(rs);
      ResultsUsedDomain(ut, rs[..n], k);
      UsedStepDomain(prev, rs[n], k);
      UsedStepMarks(prev, rs[n], k, i);
      if k in prev {
        ResultsUsedMarks(ut, rs[..n], k, i);
      } else {
        assert forall r :: r in rs[..n] ==> !ResultMarks(r, k, i);
      }
    }
  }

  /** The member data of some deref of `ds` has an entry for `k`, or marks member `i` of it. */
  lemma ResultsOfDerefs(db: Db, ds: seq<Deref>, k: TypeId, i: int)
    ensures (exists r :: r in AccessResults(db, ds) && ResultHasType(r, k)) <==>
      exists d :: d in ds && ResultHasType(MemberAccessFromDeref(db, d), k)
    ensures (exists r :: r in AccessResults(db, ds) && ResultMarks(r, k, i)) <==>
      exists d :: d in ds && ResultMarks(MemberAccessFromDeref(db, d), k, i)
  {
    var rs := AccessResults(db, ds);
    forall r | r in rs ensures exists d :: d in ds && r == MemberAccessFromDeref(db, d) {
      var j :| 0 <= j < |rs| && rs[j] == r;
      assert ds[j] in ds;
    }
    forall d | d in ds ensures MemberAccessFromDeref(db, d) in rs {
      var j :| 0 <= j < |ds| && ds[j] == d;
      assert rs[j] == MemberAccessFromDeref(db, d);
    }
  }

  /** The derefs of one function add exactly the types their member data has entries for. */
  lemma DerefsUsedDomain(prev: map<TypeId, Type>, db: Db, ds: seq<Deref>, k: TypeId)
    requires DerefsUsed(prev, db, ds).Some?
    ensures k in DerefsUsed(prev, db, ds).value <==>
      k in prev || exists d :: d in ds && ResultHasType(MemberAccessFromDeref(db, d), k)
    ensures k in prev ==> |DerefsUsed(prev, db, ds).value[k].usedrefs| == |prev[k].usedrefs|
  {
    AccessResultsInv(db, ds);
    ResultsUsedDomain(prev, AccessResults(db, ds), k);
    ResultsOfDerefs(db, ds, k, 0);
  }

  /** The derefs of one function add exactly the marks their member data carries. */
  lemma DerefsUsedMarks(prev: map<TypeId, Type>, db: Db, ds: seq<Deref>, k: TypeId, i: int)
    requires DerefsUsed(prev, db, ds).Some?
    requires k in DerefsUsed(prev, db, ds).value && 0 <= i < |DerefsUsed(prev, db, ds).value[k].usedrefs|
    ensures MarkedIn(DerefsUsed(prev, db, ds).value, k, i) <==>
      MarkedIn(prev, k, i) || exists d :: d in ds && ResultMarks(MemberAccessFromDeref(db, d), k, i)
  {
    AccessResultsInv(db, ds);
    ResultsUsedMarks(prev, AccessResults(db, ds), k, i);
    ResultsOfDerefs(db, ds, k, i);
  }

  /** `used_types_data` has an entry for `k` exactly when some deref of an internal function used `k`. */
  lemma {:induction false} UsedOverDomain(db: Db, fs: seq<FuncId>, k: TypeId)
    requires UsedOver(db, fs).Some?
    ensures k in UsedOver(db, fs).value <==> TypeFromFunctions(db, fs, k)
    decreases |fs|
  {
    if |fs| > 0 {
      var n := |fs| - 1;
      var fid := fs[n];
      UsedOverDomain(db, fs[..n], k);
      InFrontOrLast(fs);
      var prev := UsedOver(db, fs[..n]).value;
      if fid in db.functions {
        var f := db.functions[fid];
        assert UsedOver(db, fs) == DerefsUsed(prev, db, f.derefs);
        DerefsUsedDomain(prev, db, f.derefs, k);
      } else {
        assert UsedOver(db, fs).value == prev;
      }
      if TypeFromFunctions(db, fs, k) && !TypeFromFunctions(db, fs[..n], k) {
        var g, d :| g in fs && g in db.functions && d in db.functions[g].derefs &&
          ResultHasType(MemberAccessFromDeref(db, d), k);
        assert g == fid;
      }
    }
  }

  /**
   * A member of an entry of `used_types_data` is marked used exactly when some deref of an
   * internal function marked it: marks are only ever added, never cleared.
   */
  lemma {:induction false} UsedOverMarks(db: Db, fs: seq<FuncId>, k: TypeId, i: int)
    requires UsedOver(db, fs).Some?
    requires k in UsedOver(db, fs).value && 0 <= i < |UsedOver(db, fs).value[k].usedrefs|
    ensures MarkedIn(UsedOver(db, fs).value, k, i) <==> MarkFromFunctions(db, fs, k, i)
    decreases |fs|
  {
    if |fs| > 0 {
      var n := |fs| - 1;
      var fid := fs[n];
      var prev := UsedOver(db, fs[..n]).value;
      InFrontOrLast(fs);
      UsedOverDomain(db, fs[..n], k);
      if fid in db.functions {
        var f := db.functions[fid];
        assert UsedOver(db, fs) == DerefsUsed(prev, db, f.derefs);
        DerefsUsedDomain(prev, db, f.derefs, k);
        DerefsUsedMarks(prev, db, f.derefs, k, i);
      } else {
        assert UsedOver(db, fs).value == prev;
      }
      if k in prev {
        UsedOverMarks(db, fs[..n], k, i);
      } else {
        assert !MarkFromFunctions(db, fs[..n], k, i);
      }
      if MarkFromFunctions(db, fs, k, i) && !MarkFromFunctions(db, fs[..n], k, i) {
        var g, d :| g in fs && g in db.functions && d in db.functions[g].derefs &&
          ResultMarks(MemberAccessFromDeref(db, d), k, i);
        assert g == fid;
      }
    }
  }

  /**
   * `_is_member_in_use` on a record's entry of `used_types_data` (the entry variable
   * generation switches to): a member counts as used exactly when some deref of an
   * internal function marked it.
   */
  lemma UsedMemberInUse(db: Db, fs: seq<FuncId>, k: TypeId, i: nat)
    requires UsedOver(db, fs).Some?
    requires k in UsedOver(db, fs).value
    requires UsedOver(db, fs).value[k].cls == Record && UsedOver(db, fs).value[k].id in UsedOver(db, fs).value
    requires i < |UsedOver(db, fs).value[k].usedrefs|
    ensures IsMemberInUse(UsedOver(db, fs).value[k], UsedOver(db, fs).value, i) <==> MarkFromFunctions(db, fs, k, i)
  {
    UsedOverMarks(db, fs, k, i);
  }

  /** Once the walk over a function's derefs has failed, it stays failed. */
  lemma {:induction false} ResultsUsedNonePrefix(ut: map<TypeId, Type>, rs: seq<AccessResult>, i: nat)
    requires ResultsInv(rs) && i <= |rs|
    requires ResultsInv(rs[..i]) && ResultsUsed(ut, rs[..i]).None?
    ensures ResultsUsed(ut, rs).None?
    decreases |rs|
  {
    if i < |rs| {
      var n := |rs| - 1;
      assert rs[..n][..i] == rs[..i];
      assert ResultsInv(rs[..n]);
      ResultsUsedNonePrefix(ut, rs[..n], i);
    } else {
      assert rs[..i] == rs;
    }
  }

  /** The walk over `ds[..i + 1]` is the walk over `ds[..i]` followed by deref `i`. */
  lemma DerefsUsedSnoc(ut: map<TypeId, Type>, db: Db, ds: seq<Deref>, i: nat)
    requires i < |ds|
    ensures MemberAccessFromDeref(db, ds[i]).Access? ==> DictInv(MemberAccessFromDeref(db, ds[i]).data)
    ensures DerefsUsed(ut, db, ds[..i + 1]) ==
      match DerefsUsed(ut, db, ds[..i])
      case None => None
      case Some(prev) => UsedStep(prev, MemberAccessFromDeref(db, ds[i]))
  {
    AccessResultsInv(db, ds[..i + 1]);
    AccessResultsInv(db, ds[..i]);
    assert ds[..i + 1][..i] == ds[..i];
    var rs := AccessResults(db, ds[..i + 1]);
    assert rs[..i] == AccessResults(db, ds[..i]);
    assert rs[i] == MemberAccessFromDeref(db, ds[i]);
  }

  lemma DerefsUsedNonePrefix(ut: map<TypeId, Type>, db: Db, ds: seq<Deref>, i: nat)
    requires i <= |ds| && DerefsUsed(ut, db, ds[..i]).None?
    ensures DerefsUsed(ut, db, ds).None?
  {
    AccessResultsInv(db, ds);
    AccessResultsInv(db, ds[..i]);
    var rs := AccessResults(db, ds);
    assert rs[..i] == AccessResults(db, ds[..i]);
    ResultsUsedNonePrefix(ut, rs, i);
  }

  /** A failed walk stays failed for one more function. */
  lemma UsedOverNoneStep(db: Db, fs: seq<FuncId>)
    requires |fs| > 0 && UsedOver(db, fs[..|fs| - 1]).None?
    ensures UsedOver(db, fs).None?
  {
  }

  lemma {:induction false} UsedOverNonePrefix(db: Db, fs: seq<FuncId>, i: nat)
    requires i <= |fs| && UsedOver(db, fs[..i]).None?
    ensures UsedOver(db, fs).None?
    decreases |fs|
  {
    if i < |fs| {
      var n := |fs| - 1;
      assert fs[..n][..i] == fs[..i];
      UsedOverNonePrefix(db, fs[..n], i);
      UsedOverNoneStep(db, fs);
    } else {
      assert fs[..i] == fs;
    }
  }

  /** `for i in range(len(b)): if b[i] != -1: a[i] = b[i]`, with a write past the end of `a` dropped. */
  method OverlayMarks(a: seq<int>, b: seq<int>) returns (r: seq<int>)
    ensures r == Overlay(a, b)
  {
    r := a;
    var i := 0;
    while i < |b|
      invariant 0 <= i <= |b|
      invariant |r| == |a|
      invariant forall x :: 0 <= x < |a| ==> r[x] == (if x < i && b[x] != -1 then b[x] else a[x])
    {
      if b[i] != -1 {
        r := UpdateAt(r, i, b[i]);
      }
      i := i + 1;
    }
    assert forall x :: 0 <= x < |a| ==> r[x] == Overlay(a, b)[x];
  }

  // ---------------------------------------------------------------------------
  // The analysis object

  /** The three tables of the analysis object that the aggregation fills in place. */
  class Analysis {
    var castedPointers: CastMap
    var offsetPointers: OffsetMap
    var usedTypesData: map<TypeId, Type>

    constructor ()
      ensures castedPointers == map[] && offsetPointers == map[] && usedTypesData == map[]
    {
      castedPointers := map[];
      offsetPointers := map[];
      usedTypesData := map[];
    }

    /** One deref's cast data merged into `casted_pointers`, source by source in insertion order. */
    method MergeCastData(cd: CastData)
      requires forall k :: k in Keys(cd) ==> HasKey(cd, k)
      modifies this
      ensures castedPointers == MergeCasts(old(castedPointers), cd, Keys(cd))
      ensures offsetPointers == old(offsetPointers) && usedTypesData == old(usedTypesData)
    {
      var keys := Keys(cd);
      var i := 0;
      while i < |keys|
        invariant 0 <= i <= |keys|
        invariant castedPointers == MergeCasts(old(castedPointers), cd, keys[..i])
        invariant offsetPointers == old(offsetPointers) && usedTypesData == old(usedTypesData)
      {
        var k := keys[i];
        assert keys[..i + 1][..i] == keys[..i];
        if k !in castedPointers {
          castedPointers := castedPointers[k := Get(cd, k).vals];
        } else {
          var merged := MergeMemberMaps(castedPointers[k], Get(cd, k).vals);
          castedPointers := castedPointers[k := merged];
        }
        i := i + 1;
      }
      assert keys[..|keys|] == keys;
    }

    /** The pairs `es` of an inner type already in `offset_pointers`, each appended unless an equal pair is there. */
    method MergeOffsetEntries(k: TypeId, es: seq<OffsetEntry>)
      requires k in offsetPointers
      modifies this
      ensures offsetPointers == old(offsetPointers)[k := AppendAll(old(offsetPointers)[k], es)]
      ensures castedPointers == old(castedPointers) && usedTypesData == old(usedTypesData)
    {
      var lst := AppendMissingEntries(offsetPointers[k], es);
      offsetPointers := offsetPointers[k := lst];
    }

    /** One offsetof deref's data merged into `offset_pointers`, inner type by inner type. */
    method MergeOffsetData(od: OffsetData)
      requires forall k :: k in Keys(od) ==> HasKey(od, k)
      modifies this
      ensures offsetPointers == MergeOffsets(old(offsetPointers), od, Keys(od))
      ensures castedPointers == old(castedPointers) && usedTypesData == old(usedTypesData)
    {
      var keys := Keys(od);
      var i := 0;
      while i < |keys|
        invariant 0 <= i <= |keys|
        invariant offsetPointers == MergeOffsets(old(offsetPointers), od, keys[..i])
        invariant castedPointers == old(castedPointers) && usedTypesData == old(usedTypesData)
      {
        var k := keys[i];
        assert keys[..i + 1][..i] == keys[..i];
        if k !in offsetPointers {
          offsetPointers := offsetPointers[k := Get(od, k)];
        } else {
          MergeOffsetEntries(k, Get(od, k));
        }
        i := i + 1;
      }
      assert keys[..|keys|] == keys;
    }

    /** The derefs of one function: casts into `casted_pointers`, offsetof constructs into `offset_pointers`. */
    method DiscoverInFunction(db: Db, f: Function)
      modifies this
      ensures castedPointers == DerefsCasts(old(castedPointers), db, f, f.derefs)
      ensures offsetPointers == DerefsOffsets(old(offsetPointers), db, f.derefs)
      ensures usedTypesData == old(usedTypesData)
    {
      var i := 0;
      while i < |f.derefs|
        invariant 0 <= i <= |f.derefs|
        invariant castedPointers == DerefsCasts(old(castedPointers), db, f, f.derefs[..i])
        invariant offsetPointers == DerefsOffsets(old(offsetPointers), db, f.derefs[..i])
        invariant usedTypesData == old(usedTypesData)
      {
        var d := f.derefs[i];
        assert f.derefs[..i + 1][..i] == f.derefs[..i];
        if d.kind != KOffsetof {
          var castData := CastFromDeref(db, d, f);
          if castData.None? {
          } else if TakesAddress(d.expr) {
            // a cast found in an address expression is ignored
          } else {
            CastFromDerefInv(db, d, f);
            MergeCastData(castData.value);
          }
        } else {
          // the offsetof data is never None for an offsetof deref
          var offsetofData := OffsetofFromDeref(db, d);
          OffsetofFromDerefInv(db, d);
          MergeOffsetData(offsetofData.value);
        }
        i := i + 1;
      }
      assert f.derefs[..|f.derefs|] == f.derefs;
    }

    /** `_discover_casts`: every deref of every function of `functions` the database knows. */
    method DiscoverCasts(db: Db, functions: seq<FuncId>)
      modifies this
      ensures castedPointers == CastsOver(old(castedPointers), db, functions)
      ensures offsetPointers == OffsetsOver(old(offsetPointers), db, functions)
      ensures usedTypesData == old(usedTypesData)
    {
      var i := 0;
      while i < |functions|
        invariant 0 <= i <= |functions|
        invariant castedPointers == CastsOver(old(castedPointers), db, functions[..i])
        invariant offsetPointers == OffsetsOver(old(offsetPointers), db, functions[..i])
        invariant usedTypesData == old(usedTypesData)
      {
        var fid := functions[i];
        assert functions[..i + 1][..i] == functions[..i];
        if fid in db.functions {
          DiscoverInFunction(db, db.functions[fid]);
        }
        i := i + 1;
      }
      assert functions[..|functions|] == functions;
    }

    /** One deref's member data merged into `used_types_data`, type by type in insertion order. */
    method MergeMemberData(md: Dict<TypeId, Type>)
      requires forall k :: k in Keys(md) ==> HasKey(md, k)
      modifies this
      ensures usedTypesData == MergeUsed(old(usedTypesData), md, Keys(md))
      ensures castedPointers == old(castedPointers) && offsetPointers == old(offsetPointers)
    {
      var keys := Keys(md);
      var i := 0;
      while i < |keys|
        invariant 0 <= i <= |keys|
        invariant usedTypesData == MergeUsed(old(usedTypesData), md, keys[..i])
        invariant castedPointers == old(castedPointers) && offsetPointers == old(offsetPointers)
      {
        var k := keys[i];
        assert keys[..i + 1][..i] == keys[..i];
        var t := Get(md, k);
        if k !in usedTypesData {
          usedTypesData := usedTypesData[k := t];
        } else {
          var marks := OverlayMarks(usedTypesData[k].usedrefs, t.usedrefs);
          usedTypesData := usedTypesData[k := usedTypesData[k].(usedrefs := marks)];
        }
        i := i + 1;
      }
      assert keys[..|keys|] == keys;
    }

    /** The derefs of one internal function; `failed` when a member access raised its error. */
    method UsedInFunction(db: Db, f: Function) returns (failed: bool)
      modifies this
      ensures failed <==> DerefsUsed(old(usedTypesData), db, f.derefs).None?
      ensures !failed ==> usedTypesData == DerefsUsed(old(usedTypesData), db, f.derefs).value
      ensures castedPointers == old(castedPointers) && offsetPointers == old(offsetPointers)
    {
      failed := false;
      var i := 0;
      while i < |f.derefs|
        invariant 0 <= i <= |f.derefs|
        invariant DerefsUsed(old(usedTypesData), db, f.derefs[..i]).Some?
        invariant usedTypesData == DerefsUsed(old(usedTypesData), db, f.derefs[..i]).value
        invariant castedPointers == old(castedPointers) && offsetPointers == old(offsetPointers)
      {
        DerefsUsedSnoc(old(usedTypesData), db, f.derefs, i);
        var r := MemberAccessFromDeref(db, f.derefs[i]);
        if r.AccessError? {
          DerefsUsedNonePrefix(old(usedTypesData), db, f.derefs, i + 1);
          failed := true;
          return;
        } else if r.Access? {
          MergeMemberData(r.data);
        }
        i := i + 1;
      }
      assert f.derefs[..|f.derefs|] == f.derefs;
    }

    /**
     * `_get_used_types_data`: `used_types_data` rebuilt from the member data of every deref of
     * the internal functions; `failed` when a member access raised its error, which ends the walk.
     */
    method GetUsedTypesData(db: Db, internalFuncs: seq<FuncId>) returns (failed: bool)
      modifies this
      ensures failed <==> UsedOver(db, internalFuncs).None?
      ensures !failed ==> usedTypesData == UsedOver(db, internalFuncs).value
      ensures castedPointers == old(castedPointers) && offsetPointers == old(offsetPointers)
    {
      usedTypesData := map[];
      failed := false;
      var i := 0;
      while i < |internalFuncs|
        invariant 0 <= i <= |internalFuncs|
        invariant UsedOver(db, internalFuncs[..i]).Some?
        invariant usedTypesData == UsedOver(db, internalFuncs[..i]).value
        invariant castedPointers == old(castedPointers) && offsetPointers == old(offsetPointers)
      {
        var fid := internalFuncs[i];
        assert internalFuncs[..i + 1][..i] == internalFuncs[..i];
        if fid in db.functions {
          failed := UsedInFunction(db, db.functions[fid]);
          if failed {
            UsedOverNonePrefix(db, internalFuncs, i + 1);
            return;
          }
        }
        i := i + 1;
      }
      assert internalFuncs[..|internalFuncs|] == internalFuncs;
    }
  }
}
