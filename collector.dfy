/**
 * The trace collector of `_collect_derefs_trace`: the database it reads and the cache of
 * traces already collected, and the ghost definition of what a collection computes
 * (a function's repaired list with every call replaced by the callee's trace).
 */
module Collector {
  import opened Basics
  import opened Ir
  import opened Facts
  import opened Trace

  /** The three passes keep every slot a handle of an item. */
  lemma ReorderIndexed(db: Db, f: Function, objs: seq<TraceObj>, st: Ordered)
    requires Indexed(st)
    ensures Indexed(Reorder(db, f, objs, st).st) && |Reorder(db, f, objs, st).st.ids| == |st.ids|
  {
    var p1 := PassRun(db, f, objs, CastKind, st, 0);
    PassIterApplied(objs, CastKind, PassMoves(db, f, objs, CastKind), st, 0, |st.slots|);
    var p2 := PassRun(db, f, objs, CallrefKind, p1.st, p1.inserts);
    PassIterApplied(objs, CallrefKind, PassMoves(db, f, objs, CallrefKind), p1.st, p1.inserts, |p1.st.slots|);
    PassIterApplied(objs, MemberKind, PassMoves(db, f, objs, MemberKind), p2.st, p2.inserts, |p2.st.slots|);
  }

  /** The repaired list of `f` holds only derefs of `f` and calls into `functions`. */
  lemma RepairedObjsFrom(db: Db, f: Function, functions: set<FuncId>)
    ensures ObjsFrom(f, functions, RepairedObjs(db, f, functions))
  {
    var sorted := SortById(MergedItems(f, functions));
    var objs := ItemObjs(sorted);
    SortedItemsFrom(f, functions);
    ReorderIndexed(db, f, objs, InitialOrder(sorted));
    var slots := Reorder(db, f, objs, InitialOrder(sorted)).st.slots;
    var r := RepairedObjs(db, f, functions);
    forall h | 0 <= h < |r|
      ensures (r[h].DerefObj? ==> r[h].d in f.derefs) && (r[h].CallObj? ==> r[h].callee in functions)
    {
      assert slots[h] < |objs|;
      assert r[h] == objs[slots[h]];
    }
  }

  /**
   * The measure under which collecting recurses: a call is collected with the caller taken
   * out of the scope, so either the scope shrinks or the caller was already outside it.
   */
  function Scope(fid: FuncId, functions: set<FuncId>): nat {
    2 * |functions| + (if fid in functions then 0 else 1)
  }

  /**
   * `_collect_derefs_trace(fid, functions)` from the cache `cache`: the trace and the cache
   * afterwards. The objects of the repaired list are expanded left to right, each expansion
   * seeing the cache the previous ones left.
   */
  ghost function Collect(db: Db, fid: FuncId, functions: set<FuncId>, cache: map<FuncId, seq<TraceEntry>>)
    : (r: (seq<TraceEntry>, map<FuncId, seq<TraceEntry>>))
    decreases Scope(fid, functions), 2
  {
    if fid !in db.functions then ([], cache)
    else
      var objs := RepairedObjs(db, db.functions[fid], functions);
      RepairedObjsFrom(db, db.functions[fid], functions);
      ExpandUpTo(db, fid, functions, objs, |objs|, cache)
  }

  /** The first `n` objects expanded, the cache threaded through them. */
  ghost function ExpandUpTo(db: Db, fid: FuncId, functions: set<FuncId>, objs: seq<TraceObj>, n: nat,
                            cache: map<FuncId, seq<TraceEntry>>): (r: (seq<TraceEntry>, map<FuncId, seq<TraceEntry>>))
    requires n <= |objs| && fid in db.functions && ObjsFrom(db.functions[fid], functions, objs)
    decreases Scope(fid, functions), 1, n
  {
    if n == 0 then ([], cache)
    else
      var p := ExpandUpTo(db, fid, functions, objs, n - 1, cache);
      var q := ExpandObj(db, fid, functions, objs[n - 1], p.1);
      (p.0 + q.0, q.1)
  }

  /**
   * One object of the repaired list: a deref is itself; a cached call is its cached trace; an
   * uncached call is collected with `fid` out of the scope, and that trace is stored under
   * the callee, replacing whatever the nested collection stored there.
   */
  ghost function ExpandObj(db: Db, fid: FuncId, functions: set<FuncId>, obj: TraceObj,
                           cache: map<FuncId, seq<TraceEntry>>): (r: (seq<TraceEntry>, map<FuncId, seq<TraceEntry>>))
    requires obj.CallObj? ==> obj.callee in functions
    decreases Scope(fid, functions), 0
  {
    match obj
    case DerefObj(d) => ([(d, fid)], cache)
    case CallObj(g) =>
      if g in cache then (cache[g], cache)
      else
        var c := Collect(db, g, functions - {fid}, cache);
        (c.0, c.1[g := c.0])
  }

  /**
   * The collector: the database it reads and the cache of traces already collected
   * (`trace_cache`), which persists across calls.
   */
  class TraceCollector {
    const db: Db
    var traceCache: map<FuncId, seq<TraceEntry>>

    /** Every cached trace is made of derefs of the functions they are listed with. */
    ghost predicate CacheSound()
      reads this
    {
      forall g :: g in traceCache ==> Sound(db, traceCache[g])
    }

    constructor(db: Db)
      ensures this.db == db && traceCache == map[] && CacheSound()
    {
      this.db := db;
      traceCache := map[];
    }

    /**
     * The trace of `fid` within scope `functions`: its derefs and in-scope calls in repaired
     * order, each call replaced by the callee's trace (from the cache or collected with `fid`
     * taken out of the scope and then cached). A function missing from the database has the
     * empty trace. Entries already cached are never replaced.
     */
    method CollectDerefsTrace(fid: FuncId, functions: set<FuncId>) returns (trace: seq<TraceEntry>)
      requires CacheSound()
      modifies this
      ensures CacheSound() && Sound(db, trace)
      ensures Extends(old(traceCache), traceCache)
      ensures fid in db.functions ==>
        CallsCached(RepairedObjs(db, db.functions[fid], functions), traceCache) &&
        trace == Expansion(fid, RepairedObjs(db, db.functions[fid], functions), traceCache)
      ensures fid !in db.functions ==> trace == [] && traceCache == old(traceCache)
      ensures (trace, traceCache) == Collect(db, fid, functions, old(traceCache))
      decreases Scope(fid, functions), 2
    {
      trace := [];
      if fid !in db.functions {
        return;
      }
      var objs, st, _ := OrderItems(db, db.functions[fid], functions);
      RepairedObjsFrom(db, db.functions[fid], functions);
      trace := ExpandSlots(fid, functions, objs, st.slots);
    }

    /**
     * The loop over the repaired list, whose slots hold handles into `objs`: each item is
     * expanded onto the trace in list order, the cache threaded through.
     */
    method ExpandSlots(fid: FuncId, functions: set<FuncId>, objs: seq<TraceObj>, slots: seq<nat>)
      returns (trace: seq<TraceEntry>)
      requires CacheSound() && fid in db.functions
      requires forall k :: 0 <= k < |slots| ==> slots[k] < |objs|
      requires ObjsFrom(db.functions[fid], functions, SlotObjs(objs, slots))
      modifies this
      ensures CacheSound() && Sound(db, trace)
      ensures Extends(old(traceCache), traceCache)
      ensures CallsCached(SlotObjs(objs, slots), traceCache)
      ensures trace == Expansion(fid, SlotObjs(objs, slots), traceCache)
      ensures (trace, traceCache) == ExpandUpTo(db, fid, functions, SlotObjs(objs, slots), |slots|, old(traceCache))
      decreases Scope(fid, functions), 1
    {
      ghost var seen := SlotObjs(objs, slots);
      trace := [];
      var i := 0;
      while i < |slots|
        invariant 0 <= i <= |slots|
        invariant CacheSound() && Sound(db, trace)
        invariant Extends(old(traceCache), traceCache)
        invariant CallsCached(seen[..i], traceCache)
        invariant trace == Expansion(fid, seen[..i], traceCache)
        invariant (trace, traceCache) == ExpandUpTo(db, fid, functions, seen, i, old(traceCache))
      {
        var obj := objs[slots[i]];
        assert obj == seen[i];
        ghost var c0 := traceCache;
        trace := ExpandItem(fid, functions, obj, trace);
        ExpansionStable(fid, seen[..i], c0, traceCache);
        ExpansionSnoc(fid, seen, i, traceCache);
        CallsCachedSnoc(seen, i, c0, traceCache);
        i := i + 1;
      }
      assert seen[..i] == seen;
    }

    /**
     * One item of the repaired list appended to `trace`: a deref as itself, a call as the
     * callee's cached trace, or else as its trace collected now and cached.
     */
    method ExpandItem(fid: FuncId, functions: set<FuncId>, obj: TraceObj, trace: seq<TraceEntry>)
      returns (t: seq<TraceEntry>)
      requires CacheSound() && Sound(db, trace) && fid in db.functions
      requires obj.DerefObj? ==> obj.d in db.functions[fid].derefs
      requires obj.CallObj? ==> obj.callee in functions
      modifies this
      ensures CacheSound() && Sound(db, t)
      ensures Extends(old(traceCache), traceCache)
      ensures t == trace + Entries(fid, obj, traceCache)
      ensures obj.CallObj? ==> obj.callee in traceCache
      ensures obj.DerefObj? ==> t == trace + [(obj.d, fid)] && traceCache == old(traceCache)
      ensures obj.CallObj? && obj.callee in old(traceCache) ==>
        t == trace + old(traceCache)[obj.callee] && traceCache == old(traceCache)
      ensures var e := ExpandObj(db, fid, functions, obj, old(traceCache)); t == trace + e.0 && traceCache == e.1
      decreases Scope(fid, functions), 0
    {
      match obj {
        case DerefObj(d) =>
          SoundAppend(db, trace, [(d, fid)]);
          t := trace + [(d, fid)];
        case CallObj(g) =>
          var ftrace;
          if g in traceCache {
            ftrace := traceCache[g];
          } else {
            ftrace := CollectDerefsTrace(g, functions - {fid});
            traceCache := traceCache[g := ftrace];
          }
          SoundAppend(db, trace, ftrace);
          t := trace + ftrace;
      }
    }
  }
}
