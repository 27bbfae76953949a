/**
 * `_collect_derefs_trace`: the per-function trace of derefs and in-scope calls. The derefs
 * and calls are listed once per `ord`, sorted by id, reordered by three repair passes that
 * move an item to just before the item being processed, and finally expanded, each call
 * replaced by the callee's own trace (memoised in `trace_cache`).
 *
 * The list items are dicts that the passes mutate (`id`) and may alias (a move inserts the
 * same dict object before deleting a slot), so the list is modelled as a sequence of handles
 * into a table: `objs[h]` is what item `h` stands for and `ids[h]` its current id.
 */
module Trace {

  import opened Basics
  import opened Ir
  import opened Facts

  /** What a trace item stands for: a deref record or a call of a function in scope. */
  datatype TraceObj = DerefObj(d: Deref) | CallObj(callee: FuncId)

  /** An item as first listed: what it stands for and its id (an `ord` of the deref or call). */
  type Item = (TraceObj, int)

  /** The list being reordered: `slots` holds item handles in list order, `ids[h]` is item `h`'s id. */
  datatype Ordered = Ordered(slots: seq<nat>, ids: seq<int>)

  /** One `insert`/`del` move of the repair passes: the item at `from` put at `to`. */
  datatype Move = Move(from: nat, to: nat)

  /** A trace entry: a deref and the function it belongs to. */
  type TraceEntry = (Deref, FuncId)

  // ---------------------------------------------------------------------------
  // Listing the derefs and calls

  /** One item per `ord`, in `ords` order. */
  function OrdItems(obj: TraceObj, ords: seq<int>): seq<Item> {
    seq(|ords|, k requires 0 <= k < |ords| => (obj, ords[k]))
  }

  /** The items of the derefs `ds`, deref by deref. */
  function DerefItems(ds: seq<Deref>): seq<Item>
    decreases |ds|
  {
    if |ds| == 0 then [] else DerefItems(ds[..|ds| - 1]) + OrdItems(DerefObj(ds[|ds| - 1]), ds[|ds| - 1].ords)
  }

  /** `f["calls"][i]`; an index past the end reads as -1. */
  function CallAt(f: Function, i: int): FuncId {
    At(f.calls, i, -1)
  }

  /** The items of the first `n` calls of `f`, only for callees in `functions`. */
  function CallItems(f: Function, functions: set<FuncId>, n: nat): seq<Item>
    decreases n
  {
    if n == 0 then []
    else
      var g := CallAt(f, n - 1);
      CallItems(f, functions, n - 1) + (if g in functions then OrdItems(CallObj(g), CallInfoAt(f, n - 1).ords) else [])
  }

  /** The unsorted list of `_collect_derefs_trace`: all deref items, then the in-scope call items. */
  function MergedItems(f: Function, functions: set<FuncId>): seq<Item> {
    DerefItems(f.derefs) + CallItems(f, functions, |f.callInfo|)
  }

  lemma OrdItemsHas(obj: TraceObj, ords: seq<int>, e: Item)
    ensures e in OrdItems(obj, ords) <==> e.0 == obj && e.1 in ords
  {
    if e.0 == obj && e.1 in ords {
      var k :| 0 <= k < |ords| && ords[k] == e.1;
      assert OrdItems(obj, ords)[k] == e;
    }
  }

  /** Every deref appears once per `ord`, and nothing else. */
  lemma {:induction false} DerefItemsHas(ds: seq<Deref>, e: Item)
    ensures e in DerefItems(ds) <==> e.0.DerefObj? && exists j :: 0 <= j < |ds| && e.0.d == ds[j] && e.1 in ds[j].ords
    decreases |ds|
  {
    if |ds| > 0 {
      var n := |ds| - 1;
      var pre := ds[..n];
      DerefItemsHas(pre, e);
      OrdItemsHas(DerefObj(ds[n]), ds[n].ords, e);
      if e.0.DerefObj? && exists j :: 0 <= j < |ds| && e.0.d == ds[j] && e.1 in ds[j].ords {
        var j :| 0 <= j < |ds| && e.0.d == ds[j] && e.1 in ds[j].ords;
        if j < n {
          assert pre[j] == ds[j];
        }
      }
      if e.0.DerefObj? && exists j :: 0 <= j < n && e.0.d == pre[j] && e.1 in pre[j].ords {
        var j :| 0 <= j < n && e.0.d == pre[j] && e.1 in pre[j].ords;
        assert pre[j] == ds[j];
      }
    }
  }

  /** A deref has as many items as `ord`s, so the deref items number the `ord`s of all derefs. */
  function OrdCount(ds: seq<Deref>): nat
    decreases |ds|
  {
    if |ds| == 0 then 0 else OrdCount(ds[..|ds| - 1]) + |ds[|ds| - 1].ords|
  }

  lemma {:induction false} DerefItemsLength(ds: seq<Deref>)
    ensures |DerefItems(ds)| == OrdCount(ds)
    decreases |ds|
  {
    if |ds| > 0 {
      DerefItemsLength(ds[..|ds| - 1]);
    }
  }

  /** A call appears once per `ord` exactly when its callee is in scope. */
  lemma {:induction false} CallItemsHas(f: Function, functions: set<FuncId>, n: nat, e: Item)
    ensures e in CallItems(f, functions, n) <==>
      e.0.CallObj? && e.0.callee in functions &&
      exists i :: 0 <= i < n && CallAt(f, i) == e.0.callee && e.1 in CallInfoAt(f, i).ords
    decreases n
  {
    if n > 0 {
      CallItemsHas(f, functions, n - 1, e);
      var g := CallAt(f, n - 1);
      if g in functions {
        OrdItemsHas(CallObj(g), CallInfoAt(f, n - 1).ords, e);
      }
    }
  }

  /** The deref and call loops of `_collect_derefs_trace`. */
  method MergeItems(f: Function, functions: set<FuncId>) returns (items: seq<Item>)
    ensures items == MergedItems(f, functions)
  {
    items := [];
    var j := 0;
    while j < |f.derefs|
      invariant 0 <= j <= |f.derefs|
      invariant items == DerefItems(f.derefs[..j])
    {
      var d := f.derefs[j];
      assert f.derefs[..j + 1][..j] == f.derefs[..j];
      ghost var before := items;
      var k := 0;
      while k < |d.ords|
        invariant 0 <= k <= |d.ords|
        invariant items == before + OrdItems(DerefObj(d), d.ords[..k])
      {
        assert OrdItems(DerefObj(d), d.ords[..k + 1]) == OrdItems(DerefObj(d), d.ords[..k]) + [(DerefObj(d), d.ords[k])];
        items := items + [(DerefObj(d), d.ords[k])];
        k := k + 1;
      }
      assert d.ords[..k] == d.ords;
      j := j + 1;
    }
    assert f.derefs[..j] == f.derefs;
    ghost var derefItems := items;
    var i := 0;
    while i < |f.callInfo|
      invariant 0 <= i <= |f.callInfo|
      invariant items == derefItems + CallItems(f, functions, i)
    {
      var callId := CallAt(f, i);
      if callId in functions {
        var ords := f.callInfo[i].ords;
        ghost var before := items;
        var k := 0;
        while k < |ords|
          invariant 0 <= k <= |ords|
          invariant items == before + OrdItems(CallObj(callId), ords[..k])
        {
          assert OrdItems(CallObj(callId), ords[..k + 1]) == OrdItems(CallObj(callId), ords[..k]) + [(CallObj(callId), ords[k])];
          items := items + [(CallObj(callId), ords[k])];
          k := k + 1;
        }
        assert ords[..k] == ords;
      }
      i := i + 1;
    }
  }

  // ---------------------------------------------------------------------------
  // Sorting by id (`sorted` with `_sort_order`)

  predicate SortedById(s: seq<Item>) {
    forall i, j :: 0 <= i < j < |s| ==> s[i].1 <= s[j].1
  }

  /** `x` placed after every item whose id is not larger (so equal ids keep their order). */
  function InsertById(x: Item, s: seq<Item>): (r: seq<Item>)
    ensures multiset(r) == multiset(s) + multiset{x}
    ensures forall y :: y in r ==> y == x || y in s
    decreases |s|
  {
    if |s| == 0 then [x]
    else if x.1 < s[0].1 then [x] + s
    else
      assert s == [s[0]] + s[1..];
      [s[0]] + InsertById(x, s[1..])
  }

  lemma {:induction false} InsertByIdSorted(x: Item, s: seq<Item>)
    requires SortedById(s)
    ensures SortedById(InsertById(x, s))
    decreases |s|
  {
    if |s| > 0 && x.1 >= s[0].1 {
      var rest := InsertById(x, s[1..]);
      InsertByIdSorted(x, s[1..]);
      forall k | 0 <= k < |rest| ensures s[0].1 <= rest[k].1 {
        assert rest[k] in rest;
        if rest[k] != x {
          var q :| 0 <= q < |s[1..]| && s[1..][q] == rest[k];
          assert s[q + 1] == rest[k];
        }
      }
      var r := InsertById(x, s);
      assert r == [s[0]] + rest;
      forall i, j | 0 <= i < j < |r| ensures r[i].1 <= r[j].1 {
        if i > 0 {
          assert r[i] == rest[i - 1] && r[j] == rest[j - 1];
        } else {
          assert r[j] == rest[j - 1];
        }
      }
    }
  }

  /** A stable sort by id: `sorted(ordered, key=cmp_to_key(_sort_order))`. */
  function SortById(s: seq<Item>): (r: seq<Item>)
    ensures multiset(r) == multiset(s)
    decreases |s|
  {
    if |s| == 0 then []
    else
      var n := |s| - 1;
      assert s == s[..n] + [s[n]];
      InsertById(s[n], SortById(s[..n]))
  }

  /** The sorted list is ordered by id. */
  lemma {:induction false} SortByIdSorted(s: seq<Item>)
    ensures SortedById(SortById(s))
    decreases |s|
  {
    if |s| > 0 {
      var n := |s| - 1;
      SortByIdSorted(s[..n]);
      InsertByIdSorted(s[n], SortById(s[..n]));
    }
  }

  /** An item with an id no smaller than every id of the list goes to its end. */
  lemma {:induction false} InsertByIdLast(x: Item, s: seq<Item>)
    requires forall k :: 0 <= k < |s| ==> s[k].1 <= x.1
    ensures InsertById(x, s) == s + [x]
    decreases |s|
  {
    if |s| > 0 {
      InsertByIdLast(x, s[1..]);
      assert [s[0]] + (s[1..] + [x]) == s + [x];
    }
  }

  /** Sorting a list that is already ordered by id leaves it unchanged. */
  lemma {:induction false} SortByIdSortedUnchanged(s: seq<Item>)
    requires SortedById(s)
    ensures SortById(s) == s
    decreases |s|
  {
    if |s| > 0 {
      var n := |s| - 1;
      assert SortedById(s[..n]);
      SortByIdSortedUnchanged(s[..n]);
      InsertByIdLast(s[n], s[..n]);
      assert s[..n] + [s[n]] == s;
    }
  }

  // ---------------------------------------------------------------------------
  // The move primitive

  /** Handles index the id table. */
  predicate Indexed(st: Ordered) {
    forall k :: 0 <= k < |st.slots| ==> st.slots[k] < |st.ids|
  }

  /** The id of the item at position `i`. */
  function IdAt(st: Ordered, i: nat): int
    requires i < |st.slots| && st.slots[i] < |st.ids|
  {
    st.ids[st.slots[i]]
  }

  /**
   * `ordered[i]["id"] -= i - index; ordered.insert(index, ordered[i]); del ordered[i + 1]`.
   * A move with a position out of range leaves the list as it is.
   */
  function MoveItem(st: Ordered, from: int, to: int): (r: Ordered)
    ensures |r.slots| == |st.slots| && |r.ids| == |st.ids|
    ensures forall h :: h in r.slots ==> h in st.slots
  {
    if 0 <= from < |st.slots| && 0 <= to < |st.slots| && st.slots[from] < |st.ids| then
      var h := st.slots[from];
      var ins := st.slots[..to] + [h] + st.slots[to..];
      assert forall x :: x in ins ==> x in st.slots;
      Ordered(ins[..from + 1] + ins[from + 2..], st.ids[h := st.ids[h] - (from - to)])
    else st
  }

  lemma MoveItemIndexed(st: Ordered, from: int, to: int)
    requires Indexed(st)
    ensures Indexed(MoveItem(st, from, to))
  {
    var r := MoveItem(st, from, to);
    forall k | 0 <= k < |r.slots| ensures r.slots[k] < |r.ids| {
      assert r.slots[k] in r.slots;
    }
  }

  /**
   * A move towards the front (or in place) takes the item out of position `from` and puts it
   * at position `to`, shifting the items in between back by one; its id drops by the distance.
   */
  lemma MoveForward(st: Ordered, from: nat, to: nat)
    requires to <= from < |st.slots| && st.slots[from] < |st.ids|
    ensures MoveItem(st, from, to).slots ==
      st.slots[..to] + [st.slots[from]] + st.slots[to..from] + st.slots[from + 1..]
    ensures MoveItem(st, from, to).ids == st.ids[st.slots[from] := st.ids[st.slots[from]] - (from - to)]
  {
    var h := st.slots[from];
    var ins := st.slots[..to] + [h] + st.slots[to..];
    assert ins[..from + 1] == st.slots[..to] + [h] + st.slots[to..from];
    assert ins[from + 2..] == st.slots[from + 1..];
  }

  /** A forward move keeps the items: the list is a permutation of what it was. */
  lemma MoveForwardPermutes(st: Ordered, from: nat, to: nat)
    requires to <= from < |st.slots| && st.slots[from] < |st.ids|
    ensures multiset(MoveItem(st, from, to).slots) == multiset(st.slots)
  {
    MoveForward(st, from, to);
    var s := st.slots;
    assert s == s[..to] + s[to..from] + [s[from]] + s[from + 1..];
    RotatePermutes(s[..to], s[to..from], [s[from]], s[from + 1..]);
  }

  /** Swapping two adjacent blocks of a sequence keeps its elements. */
  lemma RotatePermutes<T>(a: seq<T>, b: seq<T>, c: seq<T>, d: seq<T>)
    ensures multiset(a + c + b + d) == multiset(a + b + c + d)
  {
    calc {
      multiset(a + c + b + d);
      multiset(a) + multiset(c) + multiset(b) + multiset(d);
      multiset(a + b + c + d);
    }
  }

  /** Only the moved item's id changes. */
  lemma MoveChangesOneId(st: Ordered, from: nat, to: nat, h: nat)
    requires from < |st.slots| && to < |st.slots| && st.slots[from] < |st.ids|
    requires h < |st.ids| && h != st.slots[from]
    ensures MoveItem(st, from, to).ids[h] == st.ids[h]
  {
  }

  /**
   * A move towards the back (`from + 1 < to`), which the passes issue when the item found
   * sits before the current position, duplicates the moved item and drops its right neighbour.
   */
  lemma MoveBackward(st: Ordered, from: nat, to: nat)
    requires from + 1 < to < |st.slots| && st.slots[from] < |st.ids|
    ensures MoveItem(st, from, to).slots ==
      st.slots[..from + 1] + st.slots[from + 2..to] + [st.slots[from]] + st.slots[to..]
    ensures multiset(MoveItem(st, from, to).slots) ==
      multiset(st.slots) + multiset{st.slots[from]} - multiset{st.slots[from + 1]}
  {
    var s := st.slots;
    var h := s[from];
    var ins := s[..to] + [h] + s[to..];
    assert ins[..from + 1] == s[..from + 1];
    assert ins[from + 2..] == s[from + 2..to] + [h] + s[to..];
    assert s == s[..from + 1] + [s[from + 1]] + s[from + 2..to] + s[to..];
  }

  /** Moving to the slot just after the item changes no position, only the id. */
  lemma MoveToNext(st: Ordered, from: nat)
    requires from + 1 < |st.slots| && st.slots[from] < |st.ids|
    ensures MoveItem(st, from, from + 1).slots == st.slots
  {
    var s := st.slots;
    var ins := s[..from + 1] + [s[from]] + s[from + 1..];
    assert ins[..from + 1] + ins[from + 2..] == s[..from + 1] + s[from + 1..];
    assert s[..from + 1] + s[from + 1..] == s;
  }

  /** A sequence of moves applied left to right. */
  function ApplyMoves(st: Ordered, ms: seq<Move>): (r: Ordered)
    ensures |r.slots| == |st.slots| && |r.ids| == |st.ids|
    decreases |ms|
  {
    if |ms| == 0 then st
    else
      var m := ms[|ms| - 1];
      MoveItem(ApplyMoves(st, ms[..|ms| - 1]), m.from, m.to)
  }

  lemma ApplyMovesSnoc(st: Ordered, ms: seq<Move>, m: Move)
    ensures ApplyMoves(st, ms + [m]) == MoveItem(ApplyMoves(st, ms), m.from, m.to)
  {
    assert (ms + [m])[..|ms|] == ms;
  }

  lemma {:induction false} ApplyMovesAppend(st: Ordered, ms: seq<Move>, ns: seq<Move>)
    ensures ApplyMoves(st, ms + ns) == ApplyMoves(ApplyMoves(st, ms), ns)
    decreases |ns|
  {
    if |ns| == 0 {
      assert ms + ns == ms;
    } else {
      var n := |ns| - 1;
      var m := ns[n];
      assert ms + ns == (ms + ns[..n]) + [m];
      assert ns == ns[..n] + [m];
      calc {
        ApplyMoves(st, ms + ns);
        { ApplyMovesSnoc(st, ms + ns[..n], m); }
        MoveItem(ApplyMoves(st, ms + ns[..n]), m.from, m.to);
        { ApplyMovesAppend(st, ms, ns[..n]); }
        MoveItem(ApplyMoves(ApplyMoves(st, ms), ns[..n]), m.from, m.to);
        { ApplyMovesSnoc(ApplyMoves(st, ms), ns[..n], m); }
        ApplyMoves(ApplyMoves(st, ms), ns);
      }
    }
  }

  /** A move whose item sits at or after the position it is moved to. */
  ghost predicate Forward(st: Ordered, m: Move) {
    m.to <= m.from < |st.slots| && st.slots[m.from] < |st.ids|
  }

  /** The moves, each taken at its own point, are all forward. */
  ghost predicate AllForward(st: Ordered, ms: seq<Move>)
    decreases |ms|
  {
    |ms| == 0 || (AllForward(st, ms[..|ms| - 1]) && Forward(ApplyMoves(st, ms[..|ms| - 1]), ms[|ms| - 1]))
  }

  /** A run of forward moves keeps the list's length and its items: the result is a permutation. */
  lemma {:induction false} ForwardMovesPermute(st: Ordered, ms: seq<Move>)
    requires AllForward(st, ms)
    ensures multiset(ApplyMoves(st, ms).slots) == multiset(st.slots)
    decreases |ms|
  {
    if |ms| > 0 {
      var n := |ms| - 1;
      ForwardMovesPermute(st, ms[..n]);
      MoveForwardPermutes(ApplyMoves(st, ms[..n]), ms[n].from, ms[n].to);
    }
  }

  // ---------------------------------------------------------------------------
  // Move logs

  /** `st` is `st0` after the moves `moves`, and handles still index the id table. */
  ghost predicate Applied(st0: Ordered, st: Ordered, moves: seq<Move>) {
    Indexed(st) && st == ApplyMoves(st0, moves)
  }

  /** As Applied, with every move putting its item at position `index`. */
  ghost predicate Logged(st0: Ordered, st: Ordered, moves: seq<Move>, index: nat) {
    Applied(st0, st, moves) && forall k :: 0 <= k < |moves| ==> moves[k].to == index
  }

  lemma LoggedMove(st0: Ordered, st: Ordered, moves: seq<Move>, index: nat, i: nat)
    requires Logged(st0, st, moves, index)
    ensures Logged(st0, MoveItem(st, i, index), moves + [Move(i, index)], index)
  {
    ApplyMovesSnoc(st0, moves, Move(i, index));
    MoveItemIndexed(st, i, index);
  }

  lemma LoggedChain(s0: Ordered, s1: Ordered, m1: seq<Move>, s2: Ordered, m2: seq<Move>, index: nat)
    requires Logged(s0, s1, m1, index) && Logged(s1, s2, m2, index)
    ensures Logged(s0, s2, m1 + m2, index)
  {
    ApplyMovesAppend(s0, m1, m2);
  }

  lemma AppliedChain(s0: Ordered, s1: Ordered, m1: seq<Move>, s2: Ordered, m2: seq<Move>)
    requires Applied(s0, s1, m1) && Applied(s1, s2, m2)
    ensures Applied(s0, s2, m1 + m2)
  {
    ApplyMovesAppend(s0, m1, m2);
  }

  /** The item at position `i` has id `o`. */
  predicate HasIdAt(st: Ordered, i: int, o: int) {
    0 <= i < |st.slots| && st.slots[i] < |st.ids| && st.ids[st.slots[i]] == o
  }

  /** Item `h` stands for a deref of kind `member`. */
  predicate IsMemberItem(objs: seq<TraceObj>, h: nat) {
    h < |objs| && objs[h].DerefObj? && objs[h].d.kind == KMember
  }

  /** Every move, at the point it was made, took an item with id `o` (a member deref when `memberOnly`). */
  ghost predicate TookId(st: Ordered, moves: seq<Move>, o: int, objs: seq<TraceObj>, memberOnly: bool) {
    forall k :: 0 <= k < |moves| ==>
      var s := ApplyMoves(st, moves[..k]);
      HasIdAt(s, moves[k].from, o) && (memberOnly ==> IsMemberItem(objs, s.slots[moves[k].from]))
  }

  lemma TookIdSnoc(st: Ordered, moves: seq<Move>, mv: Move, o: int, objs: seq<TraceObj>, memberOnly: bool)
    requires TookId(st, moves, o, objs, memberOnly)
    requires HasIdAt(ApplyMoves(st, moves), mv.from, o)
    requires memberOnly ==> IsMemberItem(objs, ApplyMoves(st, moves).slots[mv.from])
    ensures TookId(st, moves + [mv], o, objs, memberOnly)
  {
    var ms := moves + [mv];
    forall k | 0 <= k < |ms|
      ensures var s := ApplyMoves(st, ms[..k]);
        HasIdAt(s, ms[k].from, o) && (memberOnly ==> IsMemberItem(objs, s.slots[ms[k].from]))
    {
      if k < |moves| {
        assert ms[..k] == moves[..k];
      } else {
        assert ms[..k] == moves;
      }
    }
  }

  // ---------------------------------------------------------------------------
  // What a search or pass does, as functions of the list it starts from

  /**
   * The list a search or pass leaves and the moves it made, in order. Each loop of the
   * passes is specified by a function giving its run after its first `k` steps, built from
   * a step function that extends the run so far; a lemma beside each step function shows
   * that every move puts an item at the current position.
   */
  datatype Run = Run(st: Ordered, moves: seq<Move>)

  /** The run is the list it starts from after its moves, each to `index`. */
  ghost predicate RunLogged(st: Ordered, a: Run, index: nat) {
    Logged(st, a.st, a.moves, index)
  }

  /** The run `a` made after the run `p`. */
  function Then(p: Run, a: Run): Run {
    Run(a.st, p.moves + a.moves)
  }

  /** Two logged runs one after the other make one logged run. */
  lemma RunChain(st: Ordered, p: Run, a: Run, index: nat)
    requires RunLogged(st, p, index) && RunLogged(p.st, a, index)
    ensures RunLogged(st, Then(p, a), index)
  {
    LoggedChain(st, p.st, p.moves, a.st, a.moves, index);
  }

  /** The run that has not moved anything yet. */
  lemma RunStart(st: Ordered, index: nat)
    requires Indexed(st)
    ensures RunLogged(st, Run(st, []), index)
  {
  }

  // ---------------------------------------------------------------------------
  // Searches over the list

  /** The first position at or after `i` whose item has id `o`. */
  function FirstWithId(st: Ordered, o: int, i: nat): (r: Option<nat>)
    ensures r.Some? ==> i <= r.value && HasIdAt(st, r.value, o)
    ensures r.Some? ==> forall j :: i <= j < r.value ==> !HasIdAt(st, j, o)
    ensures r.None? ==> forall j :: i <= j < |st.slots| ==> !HasIdAt(st, j, o)
    decreases |st.slots| - i
  {
    if i >= |st.slots| then None
    else if HasIdAt(st, i, o) then Some(i)
    else FirstWithId(st, o, i + 1)
  }

  /** The first item with id `o`, if there is one, moved to `index`. */
  function MoveFirst(st: Ordered, o: int, index: nat): (r: Run)
    ensures |r.st.slots| == |st.slots|
  {
    match FirstWithId(st, o, 0)
    case None => Run(st, [])
    case Some(i) => Run(MoveItem(st, i, index), [Move(i, index)])
  }

  lemma MoveFirstLogged(st: Ordered, o: int, index: nat)
    requires Indexed(st)
    ensures RunLogged(st, MoveFirst(st, o, index), index)
  {
    match FirstWithId(st, o, 0)
    case None =>
    case Some(i) => LoggedMove(st, st, [], index, i);
  }

  /**
   * The visit of position `i` by an every-match search: an item that has id `o` at the time
   * it is reached (and is a member deref when `memberOnly`) is moved to `index`.
   */
  function MoveAllStep(objs: seq<TraceObj>, o: int, index: nat, memberOnly: bool, i: nat, p: Run): (r: Run)
    ensures |r.st.slots| == |p.st.slots|
  {
    if HasIdAt(p.st, i, o) && (!memberOnly || IsMemberItem(objs, p.st.slots[i])) then
      Run(MoveItem(p.st, i, index), p.moves + [Move(i, index)])
    else p
  }

  /** Positions `0 .. i - 1` visited in turn. */
  function MoveAllUpTo(objs: seq<TraceObj>, st: Ordered, o: int, index: nat, memberOnly: bool, i: nat): (r: Run)
    ensures |r.st.slots| == |st.slots|
  {
    if i == 0 then Run(st, [])
    else MoveAllStep(objs, o, index, memberOnly, i - 1, MoveAllUpTo(objs, st, o, index, memberOnly, i - 1))
  }

  /** Every position visited. */
  function MoveAll(objs: seq<TraceObj>, st: Ordered, o: int, index: nat, memberOnly: bool): (r: Run)
    ensures |r.st.slots| == |st.slots|
  {
    MoveAllUpTo(objs, st, o, index, memberOnly, |st.slots|)
  }

  /** Every move of the search puts an item that had id `o` (a member deref when `memberOnly`) at `index`. */
  lemma {:induction false} MoveAllLogged(objs: seq<TraceObj>, st: Ordered, o: int, index: nat, memberOnly: bool, i: nat)
    requires Indexed(st)
    ensures var a := MoveAllUpTo(objs, st, o, index, memberOnly, i);
      RunLogged(st, a, index) && TookId(st, a.moves, o, objs, memberOnly)
  {
    if i > 0 {
      MoveAllLogged(objs, st, o, index, memberOnly, i - 1);
      var p := MoveAllUpTo(objs, st, o, index, memberOnly, i - 1);
      if HasIdAt(p.st, i - 1, o) && (!memberOnly || IsMemberItem(objs, p.st.slots[i - 1])) {
        LoggedMove(st, p.st, p.moves, index, i - 1);
        TookIdSnoc(st, p.moves, Move(i - 1, index), o, objs, memberOnly);
      }
    }
  }

  /**
   * An every-match search moves nothing exactly when no position it visits holds, in the list
   * it starts from, an item with id `o` (a member deref when `memberOnly`); it then leaves the
   * list as it is.
   */
  lemma {:induction false} MoveAllNone(objs: seq<TraceObj>, st: Ordered, o: int, index: nat, memberOnly: bool, i: nat)
    requires i <= |st.slots|
    ensures var a := MoveAllUpTo(objs, st, o, index, memberOnly, i);
      (a.moves == [] <==> forall j :: 0 <= j < i ==> !(HasIdAt(st, j, o) && (!memberOnly || IsMemberItem(objs, st.slots[j])))) &&
      (a.moves == [] ==> a.st == st)
  {
    if i > 0 {
      MoveAllNone(objs, st, o, index, memberOnly, i - 1);
    }
  }

  /** A search for an id no item carries moves nothing. */
  lemma {:induction false} MoveAllAbsent(objs: seq<TraceObj>, st: Ordered, o: int, index: nat, memberOnly: bool, i: nat)
    requires forall j :: 0 <= j < |st.slots| ==> !HasIdAt(st, j, o)
    ensures MoveAllUpTo(objs, st, o, index, memberOnly, i) == Run(st, [])
  {
    if i > 0 {
      MoveAllAbsent(objs, st, o, index, memberOnly, i - 1);
    }
  }

  /** The first position at or after `k` whose `ord` is above `derefId`. */
  function FirstAbove(ords: seq<int>, derefId: int, k: nat): (r: Option<nat>)
    ensures r.Some? ==> k <= r.value < |ords| && ords[r.value] > derefId
    ensures r.Some? ==> forall j :: k <= j < r.value ==> ords[j] <= derefId
    ensures r.None? ==> forall j :: k <= j < |ords| ==> ords[j] <= derefId
    decreases |ords| - k
  {
    if k >= |ords| then None
    else if ords[k] > derefId then Some(k)
    else FirstAbove(ords, derefId, k + 1)
  }

  /** Only the first `ord` above `derefId` is searched for, by a first-match or an every-match search. */
  function AtFirstAbove(objs: seq<TraceObj>, ords: seq<int>, st: Ordered, index: nat, derefId: int, first: bool): (r: Run)
    ensures |r.st.slots| == |st.slots|
  {
    match FirstAbove(ords, derefId, 0)
    case None => Run(st, [])
    case Some(k) => if first then MoveFirst(st, ords[k], index) else MoveAll(objs, st, ords[k], index, false)
  }

  lemma AtFirstAboveLogged(objs: seq<TraceObj>, ords: seq<int>, st: Ordered, index: nat, derefId: int, first: bool)
    requires Indexed(st)
    ensures RunLogged(st, AtFirstAbove(objs, ords, st, index, derefId, first), index)
  {
    match FirstAbove(ords, derefId, 0)
    case None =>
    case Some(k) =>
      if first {
        MoveFirstLogged(st, ords[k], index);
      } else {
        MoveAllLogged(objs, st, ords[k], index, false, |st.slots|);
      }
  }

  /** `for i in range(len(ordered)): if ordered[i]["id"] == o: <move>; break`: the first item with id `o` moved. */
  method MoveFirstWithId(st: Ordered, o: int, index: nat) returns (a: Run)
    ensures a == MoveFirst(st, o, index)
    ensures |a.moves| == 0 <==> forall i :: 0 <= i < |st.slots| ==> !HasIdAt(st, i, o)
    ensures |a.moves| == 1 ==> HasIdAt(st, a.moves[0].from, o) && forall i :: 0 <= i < a.moves[0].from ==> !HasIdAt(st, i, o)
    ensures |a.moves| <= 1 && forall k :: 0 <= k < |a.moves| ==> a.moves[k].to == index
  {
    var i := 0;
    while i < |st.slots| && !HasIdAt(st, i, o)
      invariant 0 <= i <= |st.slots|
      invariant FirstWithId(st, o, 0) == FirstWithId(st, o, i)
    {
      i := i + 1;
    }
    if i < |st.slots| {
      a := Run(MoveItem(st, i, index), [Move(i, index)]);
    } else {
      a := Run(st, []);
    }
  }

  /**
   * A first-match move towards the front puts the item found at `index`, and the items
   * from `index` up to where it was one place further back; the rest stay put.
   */
  lemma MoveFirstPlacesItem(st: Ordered, o: int, index: nat)
    requires index < |st.slots|
    requires FirstWithId(st, o, 0).Some? && index <= FirstWithId(st, o, 0).value
    ensures var i := FirstWithId(st, o, 0).value;
      var r := MoveFirst(st, o, index).st;
      r.slots[index] == st.slots[i] && r.slots[..index] == st.slots[..index] &&
      r.slots[index + 1..i + 1] == st.slots[index..i] && r.slots[i + 1..] == st.slots[i + 1..]
  {
    var i := FirstWithId(st, o, 0).value;
    MoveForward(st, i, index);
  }

  /**
   * `for i in range(len(ordered)): if ordered[i]["id"] == o: <move>` with no `break`: every
   * position holding an item with id `o` at the time it is reached is moved (only member derefs
   * when `memberOnly`, as for call arguments).
   */
  method MoveAllWithId(objs: seq<TraceObj>, st: Ordered, o: int, index: nat, memberOnly: bool) returns (a: Run)
    ensures a == MoveAll(objs, st, o, index, memberOnly)
  {
    a := Run(st, []);
    var i := 0;
    while i < |st.slots|
      invariant 0 <= i <= |st.slots|
      invariant a == MoveAllUpTo(objs, st, o, index, memberOnly, i)
    {
      if HasIdAt(a.st, i, o) && (!memberOnly || IsMemberItem(objs, a.st.slots[i])) {
        a := Run(MoveItem(a.st, i, index), a.moves + [Move(i, index)]);
      }
      i := i + 1;
    }
  }

  /**
   * `for o in ords: if o > deref_id: <move items with id o>; break`: only the first `ord` above
   * the current id is acted on; `first` chooses a first-match search over the list.
   */
  method MoveAtFirstAbove(objs: seq<TraceObj>, ords: seq<int>, st: Ordered, index: nat, derefId: int, first: bool)
    returns (a: Run)
    ensures a == AtFirstAbove(objs, ords, st, index, derefId, first)
  {
    a := Run(st, []);
    var k := 0;
    while k < |ords|
      invariant 0 <= k <= |ords|
      invariant FirstAbove(ords, derefId, 0) == FirstAbove(ords, derefId, k)
    {
      if ords[k] > derefId {
        if first {
          a := MoveFirstWithId(st, ords[k], index);
        } else {
          a := MoveAllWithId(objs, st, ords[k], index, false);
        }
        return;
      }
      k := k + 1;
    }
  }

  /** The first operand at or after `j` of kind `member`. */
  function FirstMemberFrom(os: seq<Operand>, j: nat): (r: Option<nat>)
    ensures r.Some? ==> j <= r.value < |os| && os[r.value].kind == OMember
    ensures r.Some? ==> forall i :: j <= i < r.value ==> os[i].kind != OMember
    ensures r.None? ==> forall i :: j <= i < |os| ==> os[i].kind != OMember
    decreases |os| - j
  {
    if j >= |os| then None
    else if os[j].kind == OMember then Some(j)
    else FirstMemberFrom(os, j + 1)
  }

  /** The first operand of kind `member`, the one an array deref's member deref is read from. */
  method FirstMemberOperand(os: seq<Operand>) returns (r: Option<nat>)
    ensures r == FirstMemberFrom(os, 0)
  {
    var j := 0;
    while j < |os|
      invariant 0 <= j <= |os|
      invariant FirstMemberFrom(os, 0) == FirstMemberFrom(os, j)
    {
      if os[j].kind == OMember {
        return Some(j);
      }
      j := j + 1;
    }
    return None;
  }

  // ---------------------------------------------------------------------------
  // Pass 1: member derefs before the casts that use them

  /** One operand after the run `p`: a cast operand of kind `member` pulls the first item of the first `ord` of its deref above the current id. */
  function CastOperandStep(f: Function, oref: Operand, p: Run, index: nat, derefId: int): (r: Run)
    ensures |r.st.slots| == |p.st.slots|
  {
    if oref.cast.Some? && oref.kind == OMember then
      Then(p, AtFirstAbove([], DerefAt(f, oref.id).ords, p.st, index, derefId + |p.moves|, true))
    else p
  }

  /** Operands `0 .. j - 1` of `d` in turn. */
  function CastOperandsUpTo(f: Function, d: Deref, st: Ordered, index: nat, derefId: int, j: nat): (r: Run)
    requires j <= |d.offsetrefs|
    ensures |r.st.slots| == |st.slots|
  {
    if j == 0 then Run(st, [])
    else CastOperandStep(f, d.offsetrefs[j - 1], CastOperandsUpTo(f, d, st, index, derefId, j - 1), index, derefId)
  }

  lemma CastOperandStepLogged(f: Function, oref: Operand, st: Ordered, p: Run, index: nat, derefId: int)
    requires RunLogged(st, p, index)
    ensures RunLogged(st, CastOperandStep(f, oref, p, index, derefId), index)
  {
    if oref.cast.Some? && oref.kind == OMember {
      var a := AtFirstAbove([], DerefAt(f, oref.id).ords, p.st, index, derefId + |p.moves|, true);
      AtFirstAboveLogged([], DerefAt(f, oref.id).ords, p.st, index, derefId + |p.moves|, true);
      RunChain(st, p, a, index);
      assert CastOperandStep(f, oref, p, index, derefId) == Then(p, a);
    }
  }

  lemma {:induction false} CastOperandsLogged(f: Function, d: Deref, st: Ordered, index: nat, derefId: int, j: nat)
    requires Indexed(st) && j <= |d.offsetrefs|
    ensures RunLogged(st, CastOperandsUpTo(f, d, st, index, derefId, j), index)
  {
    if j == 0 {
      RunStart(st, index);
    } else {
      CastOperandsLogged(f, d, st, index, derefId, j - 1);
      CastOperandStepLogged(f, d.offsetrefs[j - 1], st, CastOperandsUpTo(f, d, st, index, derefId, j - 1), index, derefId);
    }
  }

  /** One round of the cast-operand moves after the run `p`, the current id raised by its moves. */
  function CastRound(f: Function, d: Deref, p: Run, index: nat, derefId: int): (r: Run)
    ensures |r.st.slots| == |p.st.slots|
  {
    Then(p, CastOperandsUpTo(f, d, p.st, index, derefId + |p.moves|, |d.offsetrefs|))
  }

  /** `n` rounds of the cast-operand moves. */
  function CastRounds(f: Function, d: Deref, st: Ordered, index: nat, derefId: int, n: nat): (r: Run)
    ensures |r.st.slots| == |st.slots|
  {
    if n == 0 then Run(st, []) else CastRound(f, d, CastRounds(f, d, st, index, derefId, n - 1), index, derefId)
  }

  lemma CastRoundLogged(f: Function, d: Deref, st: Ordered, p: Run, index: nat, derefId: int)
    requires RunLogged(st, p, index)
    ensures RunLogged(st, CastRound(f, d, p, index, derefId), index)
  {
    CastOperandsLogged(f, d, p.st, index, derefId + |p.moves|, |d.offsetrefs|);
    RunChain(st, p, CastOperandsUpTo(f, d, p.st, index, derefId + |p.moves|, |d.offsetrefs|), index);
  }

  lemma {:induction false} CastRoundsLogged(f: Function, d: Deref, st: Ordered, index: nat, derefId: int, n: nat)
    requires Indexed(st)
    ensures RunLogged(st, CastRounds(f, d, st, index, derefId, n), index)
  {
    if n == 0 {
      RunStart(st, index);
    } else {
      CastRoundsLogged(f, d, st, index, derefId, n - 1);
      CastRoundLogged(f, d, st, CastRounds(f, d, st, index, derefId, n - 1), index, derefId);
    }
  }

  /** The members of a cast-data entry that are not NoMember: one round each. */
  function RoundCount(members: seq<int>): (n: nat)
    ensures n <= |members|
    ensures n == |members| <==> NoMember !in members
  {
    if |members| == 0 then 0
    else RoundCount(members[..|members| - 1]) + (if members[|members| - 1] != NoMember then 1 else 0)
  }

  /** The number of rounds made for each source type of the cast data, in key order. */
  function CastCounts(cd: CastData): (r: seq<nat>)
    ensures |r| == |Keys(cd)|
  {
    seq(|Keys(cd)|, i requires 0 <= i < |Keys(cd)| =>
      if HasKey(cd, Keys(cd)[i]) then RoundCount(Keys(Get(cd, Keys(cd)[i]))) else 0)
  }

  /** One source type of the cast data after the run `p`: `n` rounds. */
  function CastSourceStep(f: Function, d: Deref, n: nat, p: Run, index: nat, derefId: int): (r: Run)
    ensures |r.st.slots| == |p.st.slots|
  {
    Then(p, CastRounds(f, d, p.st, index, derefId + |p.moves|, n))
  }

  /** Source types `0 .. i - 1` of the cast data in turn, `counts[k]` rounds for the `k`-th. */
  function CastDataUpTo(f: Function, d: Deref, counts: seq<nat>, st: Ordered, index: nat, derefId: int, i: nat): (r: Run)
    requires i <= |counts|
    ensures |r.st.slots| == |st.slots|
  {
    if i == 0 then Run(st, [])
    else CastSourceStep(f, d, counts[i - 1], CastDataUpTo(f, d, counts, st, index, derefId, i - 1), index, derefId)
  }

  lemma CastSourceStepLogged(f: Function, d: Deref, n: nat, st: Ordered, p: Run, index: nat, derefId: int)
    requires RunLogged(st, p, index)
    ensures RunLogged(st, CastSourceStep(f, d, n, p, index, derefId), index)
  {
    CastRoundsLogged(f, d, p.st, index, derefId + |p.moves|, n);
    RunChain(st, p, CastRounds(f, d, p.st, index, derefId + |p.moves|, n), index);
  }

  lemma {:induction false} CastDataLogged(f: Function, d: Deref, counts: seq<nat>, st: Ordered, index: nat, derefId: int, i: nat)
    requires Indexed(st) && i <= |counts|
    ensures RunLogged(st, CastDataUpTo(f, d, counts, st, index, derefId, i), index)
  {
    if i == 0 {
      RunStart(st, index);
    } else {
      CastDataLogged(f, d, counts, st, index, derefId, i - 1);
      CastSourceStepLogged(f, d, counts[i - 1], st, CastDataUpTo(f, d, counts, st, index, derefId, i - 1), index, derefId);
    }
  }

  /** For each cast operand of kind `member`, the first item of its first `ord` above the current id moved in front. */
  method CastOperandMoves(f: Function, d: Deref, st: Ordered, index: nat, derefId: int) returns (a: Run)
    ensures a == CastOperandsUpTo(f, d, st, index, derefId, |d.offsetrefs|)
  {
    a := Run(st, []);
    var j := 0;
    while j < |d.offsetrefs|
      invariant 0 <= j <= |d.offsetrefs|
      invariant a == CastOperandsUpTo(f, d, st, index, derefId, j)
    {
      var oref := d.offsetrefs[j];
      if oref.cast.Some? && oref.kind == OMember {
        var dst := DerefAt(f, oref.id);
        var b := MoveAtFirstAbove([], dst.ords, a.st, index, derefId + |a.moves|, true);
        a := Then(a, b);
      }
      j := j + 1;
    }
  }

  lemma RoundCountNext(members: seq<int>, j: nat)
    requires j < |members|
    ensures RoundCount(members[..j + 1]) == RoundCount(members[..j]) + (if members[j] != NoMember then 1 else 0)
  {
    assert members[..j + 1][..j] == members[..j];
  }

  /** One round of the cast-operand moves after the run `p`. */
  method CastRoundMove(f: Function, d: Deref, p: Run, index: nat, derefId: int) returns (a: Run)
    ensures a == CastRound(f, d, p, index, derefId)
  {
    var b := CastOperandMoves(f, d, p.st, index, derefId + |p.moves|);
    a := Then(p, b);
  }

  /** The loop over the members recorded for one source type, in order: a round for each that is not NoMember. */
  method CastRoundMoves(f: Function, d: Deref, members: seq<int>, st: Ordered, index: nat, derefId: int) returns (a: Run)
    ensures a == CastRounds(f, d, st, index, derefId, RoundCount(members))
  {
    a := Run(st, []);
    var j := 0;
    ghost var n := 0;
    while j < |members|
      invariant 0 <= j <= |members| && n == RoundCount(members[..j])
      invariant a == CastRounds(f, d, st, index, derefId, n)
    {
      RoundCountNext(members, j);
      if members[j] != NoMember {
        a := CastRoundMove(f, d, a, index, derefId);
        n := n + 1;
      }
      j := j + 1;
    }
    assert members[..j] == members;
  }

  /** One source type of the cast data after the run `p`: a round for each of its members. */
  method CastSourceMoves(f: Function, d: Deref, members: seq<int>, p: Run, index: nat, derefId: int) returns (a: Run)
    ensures a == CastSourceStep(f, d, RoundCount(members), p, index, derefId)
  {
    var b := CastRoundMoves(f, d, members, p.st, index, derefId + |p.moves|);
    a := Then(p, b);
  }

  /** The loops over the source types of the cast data and over their members. */
  method CastDataMoves(f: Function, d: Deref, cd: CastData, st: Ordered, index: nat, derefId: int) returns (a: Run)
    requires DictInv(cd)
    ensures a == CastDataUpTo(f, d, CastCounts(cd), st, index, derefId, |Keys(cd)|)
  {
    a := Run(st, []);
    var keys := Keys(cd);
    ghost var counts := CastCounts(cd);
    var i := 0;
    while i < |keys|
      invariant 0 <= i <= |keys| == |counts|
      invariant a == CastDataUpTo(f, d, counts, st, index, derefId, i)
    {
      a := CastSourceAt(f, d, cd, i, a, index, derefId);
      i := i + 1;
    }
  }

  /** The `i`-th source type of the cast data after the run `p`. */
  method CastSourceAt(f: Function, d: Deref, cd: CastData, i: nat, p: Run, index: nat, derefId: int) returns (a: Run)
    requires DictInv(cd) && i < |Keys(cd)|
    ensures a == CastSourceStep(f, d, CastCounts(cd)[i], p, index, derefId)
  {
    var keys := Keys(cd);
    assert HasKey(cd, keys[i]);
    var members := Keys(Get(cd, keys[i]));
    a := CastSourceMoves(f, d, members, p, index, derefId);
  }

  // ---------------------------------------------------------------------------
  // Pass 2: calls (and their arguments) before the derefs that use their return value

  /** One `ord` of a call argument's member deref after the run `p`: above the current id, every member deref with it moved in front. */
  function MemberOrdStep(objs: seq<TraceObj>, o: int, p: Run, index: nat, derefId: int): (r: Run)
    ensures |r.st.slots| == |p.st.slots|
  {
    if o > derefId + |p.moves| then Then(p, MoveAll(objs, p.st, o, index, true)) else p
  }

  /** `ord`s `0 .. k - 1` in turn. */
  function MemberOrdsUpTo(objs: seq<TraceObj>, ords: seq<int>, st: Ordered, index: nat, derefId: int, k: nat): (r: Run)
    requires k <= |ords|
    ensures |r.st.slots| == |st.slots|
  {
    if k == 0 then Run(st, [])
    else MemberOrdStep(objs, ords[k - 1], MemberOrdsUpTo(objs, ords, st, index, derefId, k - 1), index, derefId)
  }

  lemma MemberOrdStepLogged(objs: seq<TraceObj>, o: int, st: Ordered, p: Run, index: nat, derefId: int)
    requires RunLogged(st, p, index)
    ensures RunLogged(st, MemberOrdStep(objs, o, p, index, derefId), index)
  {
    if o > derefId + |p.moves| {
      MoveAllLogged(objs, p.st, o, index, true, |p.st.slots|);
      RunChain(st, p, MoveAll(objs, p.st, o, index, true), index);
    }
  }

  lemma {:induction false} MemberOrdsLogged(objs: seq<TraceObj>, ords: seq<int>, st: Ordered, index: nat, derefId: int, k: nat)
    requires Indexed(st) && k <= |ords|
    ensures RunLogged(st, MemberOrdsUpTo(objs, ords, st, index, derefId, k), index)
  {
    if k == 0 {
      RunStart(st, index);
    } else {
      MemberOrdsLogged(objs, ords, st, index, derefId, k - 1);
      MemberOrdStepLogged(objs, ords[k - 1], st, MemberOrdsUpTo(objs, ords, st, index, derefId, k - 1), index, derefId);
    }
  }

  /** The member deref an operand of an argument deref leads to: directly, or as an array deref's first member operand. */
  function ParamDeref(f: Function, oref: Operand): Option<Deref> {
    if oref.kind == OMember then Some(DerefAt(f, oref.id))
    else if oref.kind == OArray then
      var ad := DerefAt(f, oref.id);
      if ad.kind != KArray then None
      else match FirstMemberFrom(ad.offsetrefs, 0)
        case None => None
        case Some(m) => Some(DerefAt(f, ad.offsetrefs[m].id))
    else None
  }

  /** One operand of an argument deref after the run `p`: the member deref it leads to has its `ord`s moved in front. */
  function ParamOperandStep(f: Function, objs: seq<TraceObj>, oref: Operand, p: Run, index: nat, derefId: int): (r: Run)
    ensures |r.st.slots| == |p.st.slots|
  {
    match ParamDeref(f, oref)
    case None => p
    case Some(md) => Then(p, MemberOrdsUpTo(objs, md.ords, p.st, index, derefId + |p.moves|, |md.ords|))
  }

  /** Operands `0 .. j - 1` of the argument deref `pd` in turn. */
  function ParamOperandsUpTo(f: Function, objs: seq<TraceObj>, pd: Deref, st: Ordered, index: nat, derefId: int, j: nat): (r: Run)
    requires j <= |pd.offsetrefs|
    ensures |r.st.slots| == |st.slots|
  {
    if j == 0 then Run(st, [])
    else ParamOperandStep(f, objs, pd.offsetrefs[j - 1], ParamOperandsUpTo(f, objs, pd, st, index, derefId, j - 1), index, derefId)
  }

  lemma ParamOperandStepLogged(f: Function, objs: seq<TraceObj>, oref: Operand, st: Ordered, p: Run, index: nat, derefId: int)
    requires RunLogged(st, p, index)
    ensures RunLogged(st, ParamOperandStep(f, objs, oref, p, index, derefId), index)
  {
    match ParamDeref(f, oref)
    case None =>
    case Some(md) =>
      var a := MemberOrdsUpTo(objs, md.ords, p.st, index, derefId + |p.moves|, |md.ords|);
      MemberOrdsLogged(objs, md.ords, p.st, index, derefId + |p.moves|, |md.ords|);
      RunChain(st, p, a, index);
      assert ParamOperandStep(f, objs, oref, p, index, derefId) == Then(p, a);
  }

  lemma {:induction false} ParamOperandsLogged(f: Function, objs: seq<TraceObj>, pd: Deref, st: Ordered, index: nat, derefId: int, j: nat)
    requires Indexed(st) && j <= |pd.offsetrefs|
    ensures RunLogged(st, ParamOperandsUpTo(f, objs, pd, st, index, derefId, j), index)
  {
    if j == 0 {
      RunStart(st, index);
    } else {
      ParamOperandsLogged(f, objs, pd, st, index, derefId, j - 1);
      ParamOperandStepLogged(f, objs, pd.offsetrefs[j - 1], st, ParamOperandsUpTo(f, objs, pd, st, index, derefId, j - 1), index, derefId);
    }
  }

  /** An item just moved to `index` that is a deref: the member derefs of its operands follow it. */
  function ParamRun(f: Function, objs: seq<TraceObj>, st: Ordered, index: nat, derefId: int): (r: Run)
    ensures |r.st.slots| == |st.slots|
  {
    if index >= |st.slots| || st.slots[index] >= |objs| || objs[st.slots[index]].CallObj? then Run(st, [])
    else
      var pd := objs[st.slots[index]].d;
      ParamOperandsUpTo(f, objs, pd, st, index, derefId, |pd.offsetrefs|)
  }

  lemma ParamRunLogged(f: Function, objs: seq<TraceObj>, st: Ordered, index: nat, derefId: int)
    requires Indexed(st)
    ensures RunLogged(st, ParamRun(f, objs, st, index, derefId), index)
  {
    if !(index >= |st.slots| || st.slots[index] >= |objs| || objs[st.slots[index]].CallObj?) {
      var pd := objs[st.slots[index]].d;
      ParamOperandsLogged(f, objs, pd, st, index, derefId, |pd.offsetrefs|);
    } else {
      RunStart(st, index);
    }
  }

  /** The visit of position `i` after the run `p`: an item with id `o` is moved in front, followed by its member derefs. */
  function ArgOrdStep(f: Function, objs: seq<TraceObj>, o: int, i: nat, p: Run, index: nat, derefId: int): (r: Run)
    ensures |r.st.slots| == |p.st.slots|
  {
    if HasIdAt(p.st, i, o) then
      var q := Run(MoveItem(p.st, i, index), p.moves + [Move(i, index)]);
      Then(q, ParamRun(f, objs, q.st, index, derefId + |q.moves|))
    else p
  }

  /** Positions `0 .. i - 1` in turn. */
  function ArgOrdUpTo(f: Function, objs: seq<TraceObj>, st: Ordered, o: int, index: nat, derefId: int, i: nat): (r: Run)
    ensures |r.st.slots| == |st.slots|
  {
    if i == 0 then Run(st, [])
    else ArgOrdStep(f, objs, o, i - 1, ArgOrdUpTo(f, objs, st, o, index, derefId, i - 1), index, derefId)
  }

  lemma ArgOrdStepLogged(f: Function, objs: seq<TraceObj>, o: int, i: nat, st: Ordered, p: Run, index: nat, derefId: int)
    requires RunLogged(st, p, index)
    ensures RunLogged(st, ArgOrdStep(f, objs, o, i, p, index, derefId), index)
  {
    if HasIdAt(p.st, i, o) {
      var q := Run(MoveItem(p.st, i, index), p.moves + [Move(i, index)]);
      LoggedMove(st, p.st, p.moves, index, i);
      ParamRunLogged(f, objs, q.st, index, derefId + |q.moves|);
      RunChain(st, q, ParamRun(f, objs, q.st, index, derefId + |q.moves|), index);
    }
  }

  lemma {:induction false} ArgOrdLogged(f: Function, objs: seq<TraceObj>, st: Ordered, o: int, index: nat, derefId: int, i: nat)
    requires Indexed(st)
    ensures RunLogged(st, ArgOrdUpTo(f, objs, st, o, index, derefId, i), index)
  {
    if i == 0 {
      RunStart(st, index);
    } else {
      ArgOrdLogged(f, objs, st, o, index, derefId, i - 1);
      ArgOrdStepLogged(f, objs, o, i - 1, st, ArgOrdUpTo(f, objs, st, o, index, derefId, i - 1), index, derefId);
    }
  }

  /** One `ord` of an argument deref after the run `p`: acted on only while nothing has moved and when above the current id. */
  function ArgOrdsStep(f: Function, objs: seq<TraceObj>, o: int, p: Run, index: nat, derefId: int): (r: Run)
    ensures |r.st.slots| == |p.st.slots|
  {
    if |p.moves| > 0 || o <= derefId then p
    else Then(p, ArgOrdUpTo(f, objs, p.st, o, index, derefId, |p.st.slots|))
  }

  /** `ord`s `0 .. k - 1` of an argument deref in turn. */
  function ArgOrdsUpTo(f: Function, objs: seq<TraceObj>, ords: seq<int>, st: Ordered, index: nat, derefId: int, k: nat): (r: Run)
    requires k <= |ords|
    ensures |r.st.slots| == |st.slots|
  {
    if k == 0 then Run(st, [])
    else ArgOrdsStep(f, objs, ords[k - 1], ArgOrdsUpTo(f, objs, ords, st, index, derefId, k - 1), index, derefId)
  }

  lemma ArgOrdsStepLogged(f: Function, objs: seq<TraceObj>, o: int, st: Ordered, p: Run, index: nat, derefId: int)
    requires RunLogged(st, p, index)
    ensures RunLogged(st, ArgOrdsStep(f, objs, o, p, index, derefId), index)
  {
    if !(|p.moves| > 0 || o <= derefId) {
      ArgOrdLogged(f, objs, p.st, o, index, derefId, |p.st.slots|);
      RunChain(st, p, ArgOrdUpTo(f, objs, p.st, o, index, derefId, |p.st.slots|), index);
    }
  }

  lemma {:induction false} ArgOrdsLogged(f: Function, objs: seq<TraceObj>, ords: seq<int>, st: Ordered, index: nat, derefId: int, k: nat)
    requires Indexed(st) && k <= |ords|
    ensures RunLogged(st, ArgOrdsUpTo(f, objs, ords, st, index, derefId, k), index)
  {
    if k == 0 {
      RunStart(st, index);
    } else {
      ArgOrdsLogged(f, objs, ords, st, index, derefId, k - 1);
      ArgOrdsStepLogged(f, objs, ords[k - 1], st, ArgOrdsUpTo(f, objs, ords, st, index, derefId, k - 1), index, derefId);
    }
  }

  /** Once an argument's `ord` has moved something, the later ones are not looked at. */
  lemma {:induction false} ArgOrdsFound(f: Function, objs: seq<TraceObj>, ords: seq<int>, st: Ordered, index: nat, derefId: int, k: nat, m: nat)
    requires k <= m <= |ords| && |ArgOrdsUpTo(f, objs, ords, st, index, derefId, k).moves| > 0
    ensures ArgOrdsUpTo(f, objs, ords, st, index, derefId, m) == ArgOrdsUpTo(f, objs, ords, st, index, derefId, k)
    decreases m - k
  {
    if k < m {
      ArgOrdsFound(f, objs, ords, st, index, derefId, k, m - 1);
    }
  }

  /** One argument of a call after the run `p`: its deref's `ord`s. */
  function ArgStep(f: Function, objs: seq<TraceObj>, arg: int, p: Run, index: nat, derefId: int): (r: Run)
    ensures |r.st.slots| == |p.st.slots|
  {
    var ords := DerefAt(f, arg).ords;
    Then(p, ArgOrdsUpTo(f, objs, ords, p.st, index, derefId + |p.moves|, |ords|))
  }

  /** Arguments `0 .. a - 1` of a call in turn. */
  function ArgsUpTo(f: Function, objs: seq<TraceObj>, args: seq<int>, st: Ordered, index: nat, derefId: int, a: nat): (r: Run)
    requires a <= |args|
    ensures |r.st.slots| == |st.slots|
  {
    if a == 0 then Run(st, [])
    else ArgStep(f, objs, args[a - 1], ArgsUpTo(f, objs, args, st, index, derefId, a - 1), index, derefId)
  }

  lemma ArgStepLogged(f: Function, objs: seq<TraceObj>, arg: int, st: Ordered, p: Run, index: nat, derefId: int)
    requires RunLogged(st, p, index)
    ensures RunLogged(st, ArgStep(f, objs, arg, p, index, derefId), index)
  {
    var ords := DerefAt(f, arg).ords;
    ArgOrdsLogged(f, objs, ords, p.st, index, derefId + |p.moves|, |ords|);
    RunChain(st, p, ArgOrdsUpTo(f, objs, ords, p.st, index, derefId + |p.moves|, |ords|), index);
  }

  lemma {:induction false} ArgsLogged(f: Function, objs: seq<TraceObj>, args: seq<int>, st: Ordered, index: nat, derefId: int, a: nat)
    requires Indexed(st) && a <= |args|
    ensures RunLogged(st, ArgsUpTo(f, objs, args, st, index, derefId, a), index)
  {
    if a == 0 {
      RunStart(st, index);
    } else {
      ArgsLogged(f, objs, args, st, index, derefId, a - 1);
      ArgStepLogged(f, objs, args[a - 1], st, ArgsUpTo(f, objs, args, st, index, derefId, a - 1), index, derefId);
    }
  }

  /** A call after the run `p`: every item with the first of its `ord`s above the current id moved in front. */
  function CallHeadStep(objs: seq<TraceObj>, ci: CallInfo, p: Run, index: nat, derefId: int): (r: Run)
    ensures |r.st.slots| == |p.st.slots|
  {
    Then(p, AtFirstAbove(objs, ci.ords, p.st, index, derefId + |p.moves|, false))
  }

  /** The arguments of a call after the run `p`. */
  function CallArgsStep(f: Function, objs: seq<TraceObj>, ci: CallInfo, p: Run, index: nat, derefId: int): (r: Run)
    ensures |r.st.slots| == |p.st.slots|
  {
    Then(p, ArgsUpTo(f, objs, ci.args, p.st, index, derefId + |p.moves|, |ci.args|))
  }

  /** One operand of `d` after the run `p`: a call whose return value `d` uses pulls the call's items, then its arguments. */
  function CallrefStep(f: Function, objs: seq<TraceObj>, oref: Operand, p: Run, index: nat, derefId: int): (r: Run)
    ensures |r.st.slots| == |p.st.slots|
  {
    if oref.kind != OCallref then p
    else
      var ci := CallInfoAt(f, oref.id);
      CallArgsStep(f, objs, ci, CallHeadStep(objs, ci, p, index, derefId), index, derefId)
  }

  /** Operands `0 .. j - 1` of `d` in turn. */
  function CallrefsUpTo(f: Function, objs: seq<TraceObj>, d: Deref, st: Ordered, index: nat, derefId: int, j: nat): (r: Run)
    requires j <= |d.offsetrefs|
    ensures |r.st.slots| == |st.slots|
  {
    if j == 0 then Run(st, [])
    else CallrefStep(f, objs, d.offsetrefs[j - 1], CallrefsUpTo(f, objs, d, st, index, derefId, j - 1), index, derefId)
  }

  lemma CallHeadStepLogged(objs: seq<TraceObj>, ci: CallInfo, st: Ordered, p: Run, index: nat, derefId: int)
    requires RunLogged(st, p, index)
    ensures RunLogged(st, CallHeadStep(objs, ci, p, index, derefId), index)
  {
    AtFirstAboveLogged(objs, ci.ords, p.st, index, derefId + |p.moves|, false);
    RunChain(st, p, AtFirstAbove(objs, ci.ords, p.st, index, derefId + |p.moves|, false), index);
  }

  lemma CallArgsStepLogged(f: Function, objs: seq<TraceObj>, ci: CallInfo, st: Ordered, p: Run, index: nat, derefId: int)
    requires RunLogged(st, p, index)
    ensures RunLogged(st, CallArgsStep(f, objs, ci, p, index, derefId), index)
  {
    ArgsLogged(f, objs, ci.args, p.st, index, derefId + |p.moves|, |ci.args|);
    RunChain(st, p, ArgsUpTo(f, objs, ci.args, p.st, index, derefId + |p.moves|, |ci.args|), index);
  }

  lemma CallrefStepLogged(f: Function, objs: seq<TraceObj>, oref: Operand, st: Ordered, p: Run, index: nat, derefId: int)
    requires RunLogged(st, p, index)
    ensures RunLogged(st, CallrefStep(f, objs, oref, p, index, derefId), index)
  {
    if oref.kind == OCallref {
      var ci := CallInfoAt(f, oref.id);
      CallHeadStepLogged(objs, ci, st, p, index, derefId);
      CallArgsStepLogged(f, objs, ci, st, CallHeadStep(objs, ci, p, index, derefId), index, derefId);
    }
  }

  lemma {:induction false} CallrefsLogged(f: Function, objs: seq<TraceObj>, d: Deref, st: Ordered, index: nat, derefId: int, j: nat)
    requires Indexed(st) && j <= |d.offsetrefs|
    ensures RunLogged(st, CallrefsUpTo(f, objs, d, st, index, derefId, j), index)
  {
    if j == 0 {
      RunStart(st, index);
    } else {
      CallrefsLogged(f, objs, d, st, index, derefId, j - 1);
      CallrefStepLogged(f, objs, d.offsetrefs[j - 1], st, CallrefsUpTo(f, objs, d, st, index, derefId, j - 1), index, derefId);
    }
  }

  /** Nothing moves for a deref that uses no call's return value. */
  function CallrefRun(f: Function, objs: seq<TraceObj>, d: Deref, st: Ordered, index: nat, derefId: int): (r: Run)
    ensures |r.st.slots| == |st.slots|
    ensures !CallrefFromDeref(d) ==> r == Run(st, [])
  {
    if !CallrefFromDeref(d) then Run(st, []) else CallrefsUpTo(f, objs, d, st, index, derefId, |d.offsetrefs|)
  }

  /** A call argument's member deref: every `ord` above the current id has its member derefs moved in front. */
  method MemberOrdMoves(objs: seq<TraceObj>, ords: seq<int>, st: Ordered, index: nat, derefId: int) returns (a: Run)
    ensures a == MemberOrdsUpTo(objs, ords, st, index, derefId, |ords|)
  {
    a := Run(st, []);
    var k := 0;
    while k < |ords|
      invariant 0 <= k <= |ords|
      invariant a == MemberOrdsUpTo(objs, ords, st, index, derefId, k)
    {
      if ords[k] > derefId + |a.moves| {
        var b := MoveAllWithId(objs, a.st, ords[k], index, true);
        a := Then(a, b);
      }
      k := k + 1;
    }
  }

  /** The member deref an argument operand leads to, as the source finds it: directly or through an array deref. */
  method ParamDerefOf(f: Function, oref: Operand) returns (r: Option<Deref>)
    ensures r == ParamDeref(f, oref)
  {
    r := None;
    if oref.kind == OMember {
      r := Some(DerefAt(f, oref.id));
    } else if oref.kind == OArray {
      var ad := DerefAt(f, oref.id);
      if ad.kind == KArray {
        var mi := FirstMemberOperand(ad.offsetrefs);
        if mi.Some? {
          r := Some(DerefAt(f, ad.offsetrefs[mi.value].id));
        }
      }
    }
  }

  /** After an argument item is moved to `index`: the member derefs of its operands follow it. */
  method ParamMoves(f: Function, objs: seq<TraceObj>, st: Ordered, index: nat, derefId: int) returns (a: Run)
    ensures a == ParamRun(f, objs, st, index, derefId)
  {
    a := Run(st, []);
    if index >= |st.slots| || st.slots[index] >= |objs| || objs[st.slots[index]].CallObj? {
      return;
    }
    var pd := objs[st.slots[index]].d;
    var j := 0;
    while j < |pd.offsetrefs|
      invariant 0 <= j <= |pd.offsetrefs|
      invariant a == ParamOperandsUpTo(f, objs, pd, st, index, derefId, j)
    {
      var md := ParamDerefOf(f, pd.offsetrefs[j]);
      if md.Some? {
        var b := MemberOrdMoves(objs, md.value.ords, a.st, index, derefId + |a.moves|);
        a := Then(a, b);
      }
      j := j + 1;
    }
  }

  /** Position `i` after the run `p`: an item with id `o` there is moved in front, followed by its member derefs. */
  method ArgOrdAt(f: Function, objs: seq<TraceObj>, o: int, i: nat, p: Run, index: nat, derefId: int) returns (a: Run)
    ensures a == ArgOrdStep(f, objs, o, i, p, index, derefId)
    ensures if HasIdAt(p.st, i, o) then |a.moves| > |p.moves| else a == p
  {
    a := p;
    if HasIdAt(p.st, i, o) {
      var q := Run(MoveItem(p.st, i, index), p.moves + [Move(i, index)]);
      var b := ParamMoves(f, objs, q.st, index, derefId + |q.moves|);
      a := Then(q, b);
    }
  }

  /** Every item with id `o` moved in front, each followed by its member derefs; `found` when one was. */
  method ArgOrdMoves(f: Function, objs: seq<TraceObj>, st: Ordered, o: int, index: nat, derefId: int)
    returns (a: Run, found: bool)
    ensures a == ArgOrdUpTo(f, objs, st, o, index, derefId, |st.slots|)
    ensures found <==> |a.moves| > 0
  {
    a := Run(st, []);
    found := false;
    var i := 0;
    while i < |st.slots|
      invariant 0 <= i <= |st.slots|
      invariant found <==> |a.moves| > 0
      invariant a == ArgOrdUpTo(f, objs, st, o, index, derefId, i)
    {
      if HasIdAt(a.st, i, o) {
        found := true;
      }
      a := ArgOrdAt(f, objs, o, i, a, index, derefId);
      i := i + 1;
    }
  }

  /** One argument deref: its `ord`s in turn, above the current id, until one moves something. */
  method ArgOrdsMoves(f: Function, objs: seq<TraceObj>, ords: seq<int>, st: Ordered, index: nat, derefId: int) returns (a: Run)
    ensures a == ArgOrdsUpTo(f, objs, ords, st, index, derefId, |ords|)
  {
    a := Run(st, []);
    var k := 0;
    var found := false;
    while k < |ords| && !found
      invariant 0 <= k <= |ords|
      invariant found <==> |a.moves| > 0
      invariant a == ArgOrdsUpTo(f, objs, ords, st, index, derefId, k)
    {
      if ords[k] > derefId {
        var b;
        b, found := ArgOrdMoves(f, objs, a.st, ords[k], index, derefId);
        a := Then(a, b);
      }
      k := k + 1;
    }
    if found {
      ArgOrdsFound(f, objs, ords, st, index, derefId, k, |ords|);
    }
  }

  /** For each argument deref, its first `ord` above the current id whose search moves something. */
  method ArgMoves(f: Function, objs: seq<TraceObj>, args: seq<int>, st: Ordered, index: nat, derefId: int) returns (a: Run)
    ensures a == ArgsUpTo(f, objs, args, st, index, derefId, |args|)
  {
    a := Run(st, []);
    var i := 0;
    while i < |args|
      invariant 0 <= i <= |args|
      invariant a == ArgsUpTo(f, objs, args, st, index, derefId, i)
    {
      var b := ArgOrdsMoves(f, objs, DerefAt(f, args[i]).ords, a.st, index, derefId + |a.moves|);
      a := Then(a, b);
      i := i + 1;
    }
  }

  /** A deref that uses a call's return value pulls the call, then its arguments, in front of it. */
  method CallrefMoves(f: Function, objs: seq<TraceObj>, d: Deref, st: Ordered, index: nat, derefId: int) returns (a: Run)
    ensures a == CallrefRun(f, objs, d, st, index, derefId)
  {
    a := Run(st, []);
    if !CallrefFromDeref(d) {
      return;
    }
    var j := 0;
    while j < |d.offsetrefs|
      invariant 0 <= j <= |d.offsetrefs|
      invariant a == CallrefsUpTo(f, objs, d, st, index, derefId, j)
    {
      var oref := d.offsetrefs[j];
      if oref.kind == OCallref {
        var ci := CallInfoAt(f, oref.id);
        var b := MoveAtFirstAbove(objs, ci.ords, a.st, index, derefId + |a.moves|, false);
        ghost var a0 := a;
        a := Then(a, b);
        assert a == CallHeadStep(objs, ci, a0, index, derefId);
        var c := ArgMoves(f, objs, ci.args, a.st, index, derefId + |a.moves|);
        a := Then(a, c);
        assert a == CallArgsStep(f, objs, ci, CallHeadStep(objs, ci, a0, index, derefId), index, derefId);
      }
      j := j + 1;
    }
  }

  // ---------------------------------------------------------------------------
  // Pass 3: member operands before the derefs that contain them

  /** One operand of `d` after the run `p`: a `member` operand pulls every item of the first `ord` of its deref above the current id. */
  function MemberOperandStep(f: Function, objs: seq<TraceObj>, oref: Operand, p: Run, index: nat, derefId: int): (r: Run)
    ensures |r.st.slots| == |p.st.slots|
  {
    if oref.kind != OMember then p
    else Then(p, AtFirstAbove(objs, DerefAt(f, oref.id).ords, p.st, index, derefId + |p.moves|, false))
  }

  /** Operands `0 .. j - 1` of `d` in turn. */
  function MemberOperandsUpTo(f: Function, objs: seq<TraceObj>, d: Deref, st: Ordered, index: nat, derefId: int, j: nat): (r: Run)
    requires j <= |d.offsetrefs|
    ensures |r.st.slots| == |st.slots|
  {
    if j == 0 then Run(st, [])
    else MemberOperandStep(f, objs, d.offsetrefs[j - 1], MemberOperandsUpTo(f, objs, d, st, index, derefId, j - 1), index, derefId)
  }

  lemma MemberOperandStepLogged(f: Function, objs: seq<TraceObj>, oref: Operand, st: Ordered, p: Run, index: nat, derefId: int)
    requires RunLogged(st, p, index)
    ensures RunLogged(st, MemberOperandStep(f, objs, oref, p, index, derefId), index)
  {
    if oref.kind == OMember {
      var ords := DerefAt(f, oref.id).ords;
      var a := AtFirstAbove(objs, ords, p.st, index, derefId + |p.moves|, false);
      AtFirstAboveLogged(objs, ords, p.st, index, derefId + |p.moves|, false);
      RunChain(st, p, a, index);
      assert MemberOperandStep(f, objs, oref, p, index, derefId) == Then(p, a);
    }
  }

  lemma {:induction false} MemberOperandsLogged(f: Function, objs: seq<TraceObj>, d: Deref, st: Ordered, index: nat, derefId: int, j: nat)
    requires Indexed(st) && j <= |d.offsetrefs|
    ensures RunLogged(st, MemberOperandsUpTo(f, objs, d, st, index, derefId, j), index)
  {
    if j == 0 {
      RunStart(st, index);
    } else {
      MemberOperandsLogged(f, objs, d, st, index, derefId, j - 1);
      MemberOperandStepLogged(f, objs, d.offsetrefs[j - 1], st, MemberOperandsUpTo(f, objs, d, st, index, derefId, j - 1), index, derefId);
    }
  }

  /** A deref with no `member` operand moves nothing in the third pass. */
  lemma {:induction false} MemberOperandsWithoutMembers(f: Function, objs: seq<TraceObj>, d: Deref, st: Ordered, index: nat, derefId: int, j: nat)
    requires j <= |d.offsetrefs|
    requires forall k :: 0 <= k < |d.offsetrefs| ==> d.offsetrefs[k].kind != OMember
    ensures MemberOperandsUpTo(f, objs, d, st, index, derefId, j) == Run(st, [])
  {
    if j > 0 {
      MemberOperandsWithoutMembers(f, objs, d, st, index, derefId, j - 1);
    }
  }

  /** Each `member` operand pulls every item with the first `ord` of its deref above the current id in front. */
  method MemberOperandMoves(f: Function, objs: seq<TraceObj>, d: Deref, st: Ordered, index: nat, derefId: int) returns (a: Run)
    ensures a == MemberOperandsUpTo(f, objs, d, st, index, derefId, |d.offsetrefs|)
  {
    a := Run(st, []);
    var j := 0;
    while j < |d.offsetrefs|
      invariant 0 <= j <= |d.offsetrefs|
      invariant a == MemberOperandsUpTo(f, objs, d, st, index, derefId, j)
    {
      var oref := d.offsetrefs[j];
      if oref.kind == OMember {
        var dst := DerefAt(f, oref.id);
        var b := MoveAtFirstAbove(objs, dst.ords, a.st, index, derefId + |a.moves|, false);
        a := Then(a, b);
      }
      j := j + 1;
    }
  }

  // ---------------------------------------------------------------------------
  // The three passes share one loop

  /** The three repair passes. */
  datatype PassKind = CastKind | CallrefKind | MemberKind

  /** What a pass does at one deref with id `derefId` found at position `index`. */
  function DerefMoves(db: Db, f: Function, objs: seq<TraceObj>, kind: PassKind, d: Deref, st: Ordered, index: nat, derefId: int): (r: Run)
    ensures |r.st.slots| == |st.slots|
  {
    match kind
    case CastKind =>
      var cd := CastFromDeref(db, d, f);
      if cd.Some? then CastDataUpTo(f, d, CastCounts(cd.value), st, index, derefId, |Keys(cd.value)|) else Run(st, [])
    case CallrefKind => CallrefRun(f, objs, d, st, index, derefId)
    case MemberKind => MemberOperandsUpTo(f, objs, d, st, index, derefId, |d.offsetrefs|)
  }

  lemma DerefMovesLogged(db: Db, f: Function, objs: seq<TraceObj>, kind: PassKind, d: Deref, st: Ordered, index: nat, derefId: int)
    requires Indexed(st)
    ensures RunLogged(st, DerefMoves(db, f, objs, kind, d, st, index, derefId), index)
  {
    match kind
    case CastKind =>
      var cd := CastFromDeref(db, d, f);
      if cd.Some? {
        CastDataLogged(f, d, CastCounts(cd.value), st, index, derefId, |Keys(cd.value)|);
      } else {
        RunStart(st, index);
      }
    case CallrefKind =>
      if CallrefFromDeref(d) {
        CallrefsLogged(f, objs, d, st, index, derefId, |d.offsetrefs|);
      } else {
        RunStart(st, index);
      }
    case MemberKind =>
      MemberOperandsLogged(f, objs, d, st, index, derefId, |d.offsetrefs|);
  }

  /** The moves a pass makes at one deref. */
  method DerefPassMoves(db: Db, f: Function, objs: seq<TraceObj>, kind: PassKind, d: Deref, st: Ordered, index: nat, derefId: int)
    returns (a: Run)
    ensures a == DerefMoves(db, f, objs, kind, d, st, index, derefId)
  {
    match kind {
      case CastKind =>
        var cd := CastFromDeref(db, d, f);
        if cd.Some? {
          CastFromDerefInv(db, d, f);
          a := CastDataMoves(f, d, cd.value, st, index, derefId);
        } else {
          a := Run(st, []);
        }
      case CallrefKind =>
        a := CallrefMoves(f, objs, d, st, index, derefId);
      case MemberKind =>
        a := MemberOperandMoves(f, objs, d, st, index, derefId);
    }
  }

  /**
   * What a pass does at one deref: the moves it makes in front of position `index`, each
   * logged at that position, leaving the list as long as it was.
   */
  type DerefPass = mv: (Deref, Ordered, nat, int) -> Run
    | forall d, st, index, derefId ::
        (|mv(d, st, index, derefId).st.slots| == |st.slots|
         && (Indexed(st) ==> RunLogged(st, mv(d, st, index, derefId), index)))
    witness (d: Deref, st: Ordered, index: nat, derefId: int) => Run(st, [])

  /** Every deref's moves are logged at its position. */
  lemma DerefMovesAllLogged(db: Db, f: Function, objs: seq<TraceObj>, kind: PassKind)
    ensures forall d, st, index: nat, derefId ::
      (|DerefMoves(db, f, objs, kind, d, st, index, derefId).st.slots| == |st.slots|
       && (Indexed(st) ==> RunLogged(st, DerefMoves(db, f, objs, kind, d, st, index, derefId), index)))
  {
    forall d, st, index: nat, derefId | Indexed(st)
      ensures RunLogged(st, DerefMoves(db, f, objs, kind, d, st, index, derefId), index)
    {
      DerefMovesLogged(db, f, objs, kind, d, st, index, derefId);
    }
  }

  /** The moves pass `kind` makes at one deref of `f`. */
  function PassMoves(db: Db, f: Function, objs: seq<TraceObj>, kind: PassKind): DerefPass {
    DerefMovesAllLogged(db, f, objs, kind);
    (d: Deref, st: Ordered, index: nat, derefId: int) => DerefMoves(db, f, objs, kind, d, st, index, derefId)
  }

  /** The loop state of a pass: the run so far, the position reached and `inserts_num`. */
  datatype PassState = PassState(st: Ordered, moves: seq<Move>, index: nat, inserts: nat)

  /**
   * One iteration of a pass at position `index`: a call is skipped; a deref has the pass's
   * moves `mv` made in front of it and `index` skips them and the deref. The first two passes
   * reset `inserts_num` per deref; the third adds to it, so it skips every move so far.
   */
  function PassStep(objs: seq<TraceObj>, kind: PassKind, mv: DerefPass, s: PassState): (r: PassState)
    ensures |r.st.slots| == |s.st.slots|
    ensures s.index < |s.st.slots| ==> r.index > s.index
  {
    if s.index >= |s.st.slots| then s
    else
      var h := s.st.slots[s.index];
      if h >= |objs| || h >= |s.st.ids| || objs[h].CallObj? then s.(index := s.index + 1)
      else
        var a := mv(objs[h].d, s.st, s.index, s.st.ids[h]);
        var n := if kind == MemberKind then s.inserts + |a.moves| else |a.moves|;
        PassState(a.st, s.moves + a.moves, s.index + n + 1, n)
  }

  /** A pass after `n` iterations (an iteration at or past the end changes nothing). */
  function PassIter(objs: seq<TraceObj>, kind: PassKind, mv: DerefPass, st: Ordered, inserts0: nat, n: nat): (r: PassState)
    ensures |r.st.slots| == |st.slots|
  {
    if n == 0 then PassState(st, [], 0, inserts0)
    else PassStep(objs, kind, mv, PassIter(objs, kind, mv, st, inserts0, n - 1))
  }

  /** A whole pass: each iteration advances `index`, so as many iterations as items reach the end. */
  function PassRun(db: Db, f: Function, objs: seq<TraceObj>, kind: PassKind, st: Ordered, inserts0: nat): PassState {
    PassIter(objs, kind, PassMoves(db, f, objs, kind), st, inserts0, |st.slots|)
  }

  /** A finished pass stays as it is. */
  lemma PassStepDone(objs: seq<TraceObj>, kind: PassKind, mv: DerefPass, s: PassState)
    requires s.index >= |s.st.slots|
    ensures PassStep(objs, kind, mv, s) == s
  {
  }

  /** Once a pass has reached the end, further iterations change nothing. */
  lemma {:induction false} PassIterDone(objs: seq<TraceObj>, kind: PassKind, mv: DerefPass, st: Ordered, inserts0: nat, n: nat, m: nat)
    requires n <= m && PassIter(objs, kind, mv, st, inserts0, n).index >= |st.slots|
    ensures PassIter(objs, kind, mv, st, inserts0, m) == PassIter(objs, kind, mv, st, inserts0, n)
    decreases m - n
  {
    if n < m {
      PassIterDone(objs, kind, mv, st, inserts0, n, m - 1);
      PassStepDone(objs, kind, mv, PassIter(objs, kind, mv, st, inserts0, m - 1));
    }
  }

  /** One iteration only applies moves to the list. */
  lemma PassStepApplied(objs: seq<TraceObj>, kind: PassKind, mv: DerefPass, st: Ordered, s: PassState)
    requires Applied(st, s.st, s.moves)
    ensures var r := PassStep(objs, kind, mv, s); Applied(st, r.st, r.moves)
  {
    if s.index < |s.st.slots| {
      var h := s.st.slots[s.index];
      if !(h >= |objs| || h >= |s.st.ids| || objs[h].CallObj?) {
        var a := mv(objs[h].d, s.st, s.index, s.st.ids[h]);
        AppliedChain(st, s.st, s.moves, a.st, a.moves);
      }
    }
  }

  /** Every iteration only applies moves to the list. */
  lemma {:induction false} PassIterApplied(objs: seq<TraceObj>, kind: PassKind, mv: DerefPass, st: Ordered, inserts0: nat, n: nat)
    requires Indexed(st)
    ensures var p := PassIter(objs, kind, mv, st, inserts0, n); Applied(st, p.st, p.moves)
  {
    if n > 0 {
      PassIterApplied(objs, kind, mv, st, inserts0, n - 1);
      PassStepApplied(objs, kind, mv, st, PassIter(objs, kind, mv, st, inserts0, n - 1));
    }
  }

  /** A pass that has reached the end after `n` iterations is the whole pass, and only applies moves. */
  lemma PassRunReached(objs: seq<TraceObj>, kind: PassKind, mv: DerefPass, st: Ordered, inserts0: nat, n: nat)
    requires Indexed(st) && n <= |st.slots| && PassIter(objs, kind, mv, st, inserts0, n).index >= |st.slots|
    ensures var p := PassIter(objs, kind, mv, st, inserts0, |st.slots|);
      p == PassIter(objs, kind, mv, st, inserts0, n) && Applied(st, p.st, p.moves)
  {
    PassIterDone(objs, kind, mv, st, inserts0, n, |st.slots|);
    PassIterApplied(objs, kind, mv, st, inserts0, |st.slots|);
  }

  /** A whole pass only applies moves, and only permutes the items when every move is forward. */
  lemma PassRunApplied(db: Db, f: Function, objs: seq<TraceObj>, kind: PassKind, st: Ordered, inserts0: nat)
    requires Indexed(st)
    ensures var p := PassRun(db, f, objs, kind, st, inserts0);
      Applied(st, p.st, p.moves) && (AllForward(st, p.moves) ==> multiset(p.st.slots) == multiset(st.slots))
  {
    var p := PassRun(db, f, objs, kind, st, inserts0);
    PassIterApplied(objs, kind, PassMoves(db, f, objs, kind), st, inserts0, |st.slots|);
    if AllForward(st, p.moves) {
      ForwardMovesPermute(st, p.moves);
    }
  }

  /** The body of a pass's loop at position `s.index`. */
  method PassStepMoves(db: Db, f: Function, objs: seq<TraceObj>, kind: PassKind, s: PassState) returns (r: PassState)
    ensures r == PassStep(objs, kind, PassMoves(db, f, objs, kind), s)
  {
    if s.index >= |s.st.slots| {
      return s;
    }
    var h := s.st.slots[s.index];
    if h >= |objs| || h >= |s.st.ids| || objs[h].CallObj? {
      return s.(index := s.index + 1);
    }
    var a := DerefPassMoves(db, f, objs, kind, objs[h].d, s.st, s.index, s.st.ids[h]);
    var n := if kind == MemberKind then s.inserts + |a.moves| else |a.moves|;
    r := PassState(a.st, s.moves + a.moves, s.index + n + 1, n);
  }

  /** The `while index < len(ordered)` loop of a pass, one iteration per PassStep. */
  method PassLoop(db: Db, f: Function, objs: seq<TraceObj>, kind: PassKind, st: Ordered, inserts0: nat)
    returns (s: PassState)
    ensures s == PassRun(db, f, objs, kind, st, inserts0)
  {
    s := PassState(st, [], 0, inserts0);
    ghost var n: nat := 0;
    while s.index < |s.st.slots|
      invariant |s.st.slots| == |st.slots| && n <= s.index && n <= |st.slots|
      invariant s == PassIter(objs, kind, PassMoves(db, f, objs, kind), st, inserts0, n)
      decreases |st.slots| - s.index
    {
      s := PassStepMoves(db, f, objs, kind, s);
      n := n + 1;
    }
    PassIterDone(objs, kind, PassMoves(db, f, objs, kind), st, inserts0, n, |st.slots|);
  }

  /**
   * The loop shared by the passes. Returns the moves made (what the pass logs) and the
   * final `inserts_num`; when every move is towards the front, the items are only permuted.
   */
  method RunPass(db: Db, f: Function, objs: seq<TraceObj>, kind: PassKind, st: Ordered, inserts0: nat)
    returns (r: Ordered, moves: seq<Move>, inserts: nat)
    requires Indexed(st)
    ensures var p := PassRun(db, f, objs, kind, st, inserts0); r == p.st && moves == p.moves && inserts == p.inserts
    ensures Applied(st, r, moves)
    ensures AllForward(st, moves) ==> multiset(r.slots) == multiset(st.slots)
  {
    var s := PassLoop(db, f, objs, kind, st, inserts0);
    PassRunApplied(db, f, objs, kind, st, inserts0);
    r, moves, inserts := s.st, s.moves, s.inserts;
  }

  /** A pass whose every deref makes no move leaves the list as it is. */
  lemma {:induction false} PassWithoutMoves(objs: seq<TraceObj>, kind: PassKind, mv: DerefPass, st: Ordered, inserts0: nat, n: nat)
    requires forall h :: 0 <= h < |objs| && objs[h].DerefObj? ==>
      forall index: nat, derefId :: mv(objs[h].d, st, index, derefId) == Run(st, [])
    ensures PassIter(objs, kind, mv, st, inserts0, n).st == st
    ensures PassIter(objs, kind, mv, st, inserts0, n).moves == []
  {
    if n > 0 {
      PassWithoutMoves(objs, kind, mv, st, inserts0, n - 1);
    }
  }

  /** The first reordering pass: at each deref with cast data, the member derefs its casts refer to move in front of it. */
  method CastPass(db: Db, f: Function, objs: seq<TraceObj>, st: Ordered)
    returns (r: Ordered, moves: seq<Move>, inserts: nat)
    requires Indexed(st)
    ensures var p := PassRun(db, f, objs, CastKind, st, 0); r == p.st && moves == p.moves && inserts == p.inserts
    ensures Applied(st, r, moves)
    ensures AllForward(st, moves) ==> multiset(r.slots) == multiset(st.slots)
  {
    r, moves, inserts := RunPass(db, f, objs, CastKind, st, 0);
  }

  /** Where no deref has cast data, the first pass moves nothing. */
  lemma CastPassWithoutCasts(db: Db, f: Function, objs: seq<TraceObj>, st: Ordered)
    requires forall h :: 0 <= h < |objs| && objs[h].DerefObj? ==> CastFromDeref(db, objs[h].d, f).None?
    ensures PassRun(db, f, objs, CastKind, st, 0).st == st
    ensures PassRun(db, f, objs, CastKind, st, 0).moves == []
  {
    PassWithoutMoves(objs, CastKind, PassMoves(db, f, objs, CastKind), st, 0, |st.slots|);
  }

  /** The second reordering pass, over the derefs that use a call's return value. */
  method CallrefPass(db: Db, f: Function, objs: seq<TraceObj>, st: Ordered, inserts0: nat)
    returns (r: Ordered, moves: seq<Move>, inserts: nat)
    requires Indexed(st)
    ensures var p := PassRun(db, f, objs, CallrefKind, st, inserts0); r == p.st && moves == p.moves && inserts == p.inserts
    ensures Applied(st, r, moves)
    ensures AllForward(st, moves) ==> multiset(r.slots) == multiset(st.slots)
  {
    r, moves, inserts := RunPass(db, f, objs, CallrefKind, st, inserts0);
  }

  /** Where no deref uses a call's return value, the second pass moves nothing. */
  lemma CallrefPassWithoutCallrefs(db: Db, f: Function, objs: seq<TraceObj>, st: Ordered, inserts0: nat)
    requires forall h :: 0 <= h < |objs| && objs[h].DerefObj? ==> !CallrefFromDeref(objs[h].d)
    ensures PassRun(db, f, objs, CallrefKind, st, inserts0).st == st
    ensures PassRun(db, f, objs, CallrefKind, st, inserts0).moves == []
  {
    PassWithoutMoves(objs, CallrefKind, PassMoves(db, f, objs, CallrefKind), st, inserts0, |st.slots|);
  }

  /**
   * The third reordering pass. `inserts_num` is not reset per deref here, so the position
   * skips every move made so far in the pass (and the previous pass's last count).
   */
  method MemberPass(db: Db, f: Function, objs: seq<TraceObj>, st: Ordered, inserts0: nat)
    returns (r: Ordered, moves: seq<Move>)
    requires Indexed(st)
    ensures var p := PassRun(db, f, objs, MemberKind, st, inserts0); r == p.st && moves == p.moves
    ensures Applied(st, r, moves)
    ensures AllForward(st, moves) ==> multiset(r.slots) == multiset(st.slots)
  {
    var inserts;
    r, moves, inserts := RunPass(db, f, objs, MemberKind, st, inserts0);
  }

  /** Where no deref has a `member` operand, the third pass moves nothing. */
  lemma MemberPassWithoutMembers(db: Db, f: Function, objs: seq<TraceObj>, st: Ordered, inserts0: nat)
    requires forall h, k :: 0 <= h < |objs| && objs[h].DerefObj? && 0 <= k < |objs[h].d.offsetrefs| ==>
      objs[h].d.offsetrefs[k].kind != OMember
    ensures PassRun(db, f, objs, MemberKind, st, inserts0).st == st
    ensures PassRun(db, f, objs, MemberKind, st, inserts0).moves == []
  {
    forall h | 0 <= h < |objs| && objs[h].DerefObj?
      ensures forall index: nat, derefId :: DerefMoves(db, f, objs, MemberKind, objs[h].d, st, index, derefId) == Run(st, [])
    {
      forall index: nat, derefId
        ensures DerefMoves(db, f, objs, MemberKind, objs[h].d, st, index, derefId) == Run(st, [])
      {
        MemberOperandsWithoutMembers(f, objs, objs[h].d, st, index, derefId, |objs[h].d.offsetrefs|);
      }
    }
    PassWithoutMoves(objs, MemberKind, PassMoves(db, f, objs, MemberKind), st, inserts0, |st.slots|);
  }

  // ---------------------------------------------------------------------------
  // The trace of one function

  /** The list the passes start from: item `k` of the sorted list in slot `k`, with its own id. */
  function InitialOrder(items: seq<Item>): (st: Ordered)
    ensures Indexed(st) && |st.slots| == |st.ids| == |items|
    ensures forall k :: 0 <= k < |items| ==> st.slots[k] == k && st.ids[k] == items[k].1
  {
    Ordered(seq(|items|, k => k), seq(|items|, k requires 0 <= k < |items| => items[k].1))
  }

  /** What each item of the sorted list stands for. */
  function ItemObjs(items: seq<Item>): (objs: seq<TraceObj>)
    ensures |objs| == |items| && forall k :: 0 <= k < |items| ==> objs[k] == items[k].0
  {
    seq(|items|, k requires 0 <= k < |items| => items[k].0)
  }

  /** Each object of a function's list is one of its derefs or a call of a function in scope. */
  ghost predicate ObjsFrom(f: Function, functions: set<FuncId>, objs: seq<TraceObj>) {
    forall h :: 0 <= h < |objs| ==>
      (objs[h].DerefObj? ==> objs[h].d in f.derefs) && (objs[h].CallObj? ==> objs[h].callee in functions)
  }

  /** Sorting the merged list only rearranges the derefs of `f` and the calls it makes into `functions`. */
  lemma SortedItemsFrom(f: Function, functions: set<FuncId>)
    ensures ObjsFrom(f, functions, ItemObjs(SortById(MergedItems(f, functions))))
  {
    var merged := MergedItems(f, functions);
    var sorted := SortById(merged);
    var objs := ItemObjs(sorted);
    forall h | 0 <= h < |objs|
      ensures (objs[h].DerefObj? ==> objs[h].d in f.derefs) && (objs[h].CallObj? ==> objs[h].callee in functions)
    {
      var e := sorted[h];
      assert e in multiset(sorted);
      assert e in merged;
      var ds := DerefItems(f.derefs);
      if e in ds {
        DerefItemsHas(f.derefs, e);
      } else {
        assert e in CallItems(f, functions, |f.callInfo|);
        CallItemsHas(f, functions, |f.callInfo|, e);
      }
    }
  }

  /** Every entry names a function of the database and one of that function's derefs. */
  ghost predicate Sound(db: Db, t: seq<TraceEntry>) {
    forall k :: 0 <= k < |t| ==> t[k].1 in db.functions && t[k].0 in db.functions[t[k].1].derefs
  }

  lemma SoundAppend(db: Db, a: seq<TraceEntry>, b: seq<TraceEntry>)
    requires Sound(db, a) && Sound(db, b)
    ensures Sound(db, a + b)
  {
    forall k | 0 <= k < |a + b| ensures (a + b)[k].1 in db.functions && (a + b)[k].0 in db.functions[(a + b)[k].1].derefs {
      if k >= |a| {
        assert (a + b)[k] == b[k - |a|];
      }
    }
  }

  /** The three repair passes one after another, each starting from the `inserts_num` the previous one left. */
  function Reorder(db: Db, f: Function, objs: seq<TraceObj>, st: Ordered): (r: Run)
    ensures |r.st.slots| == |st.slots|
  {
    var p1 := PassRun(db, f, objs, CastKind, st, 0);
    var p2 := PassRun(db, f, objs, CallrefKind, p1.st, p1.inserts);
    var p3 := PassRun(db, f, objs, MemberKind, p2.st, p2.inserts);
    Run(p3.st, p1.moves + p2.moves + p3.moves)
  }

  /** The three repair passes run one after another on the sorted list of `f`. */
  method ReorderItems(db: Db, f: Function, objs: seq<TraceObj>, st: Ordered) returns (r: Ordered, moves: seq<Move>)
    requires Indexed(st)
    ensures Run(r, moves) == Reorder(db, f, objs, st)
    ensures Applied(st, r, moves) && |r.slots| == |st.slots|
    ensures AllForward(st, moves) ==> multiset(r.slots) == multiset(st.slots)
  {
    var r1, m1, n1 := CastPass(db, f, objs, st);
    var r2, m2, n2 := CallrefPass(db, f, objs, r1, n1);
    AppliedChain(st, r1, m1, r2, m2);
    var r3, m3 := MemberPass(db, f, objs, r2, n2);
    AppliedChain(st, r2, m1 + m2, r3, m3);
    r, moves := r3, m1 + m2 + m3;
    if AllForward(st, moves) {
      ForwardMovesPermute(st, moves);
    }
  }

  /** The objects of a list in slot order (a handle out of range stands for no deref). */
  function SlotObjs(objs: seq<TraceObj>, slots: seq<nat>): (r: seq<TraceObj>)
    ensures |r| == |slots| && forall k :: 0 <= k < |slots| && slots[k] < |objs| ==> r[k] == objs[slots[k]]
  {
    seq(|slots|, k requires 0 <= k < |slots| => At(objs, slots[k], DerefObj(DefaultDeref)))
  }

  /** The derefs and calls of `f` within scope `functions` in the order the repair passes leave them. */
  function RepairedObjs(db: Db, f: Function, functions: set<FuncId>): seq<TraceObj> {
    var sorted := SortById(MergedItems(f, functions));
    var objs := ItemObjs(sorted);
    SlotObjs(objs, Reorder(db, f, objs, InitialOrder(sorted)).st.slots)
  }

  /** The listing, sorting and repair of the items of `f` before the calls are expanded. */
  method OrderItems(db: Db, f: Function, functions: set<FuncId>) returns (objs: seq<TraceObj>, r: Ordered, moves: seq<Move>)
    ensures objs == ItemObjs(SortById(MergedItems(f, functions)))
    ensures Run(r, moves) == Reorder(db, f, objs, InitialOrder(SortById(MergedItems(f, functions))))
    ensures SlotObjs(objs, r.slots) == RepairedObjs(db, f, functions)
    ensures Applied(InitialOrder(SortById(MergedItems(f, functions))), r, moves)
    ensures ObjsFrom(f, functions, objs) && |r.ids| == |objs|
  {
    var merged := MergeItems(f, functions);
    var sorted := SortById(merged);
    objs := ItemObjs(sorted);
    SortedItemsFrom(f, functions);
    r, moves := ReorderItems(db, f, objs, InitialOrder(sorted));
  }

  /** One object as trace entries: a deref as itself, a call as its callee's cached trace. */
  function Entries(fid: FuncId, obj: TraceObj, cache: map<FuncId, seq<TraceEntry>>): seq<TraceEntry> {
    match obj
    case DerefObj(d) => [(d, fid)]
    case CallObj(g) => if g in cache then cache[g] else []
  }

  /** The entries of the objects in order, concatenated. */
  function Expansion(fid: FuncId, objs: seq<TraceObj>, cache: map<FuncId, seq<TraceEntry>>): seq<TraceEntry>
    decreases |objs|
  {
    if |objs| == 0 then []
    else Expansion(fid, objs[..|objs| - 1], cache) + Entries(fid, objs[|objs| - 1], cache)
  }

  /** Every call among `objs` has its callee in `cache`. */
  ghost predicate CallsCached(objs: seq<TraceObj>, cache: map<FuncId, seq<TraceEntry>>) {
    forall k :: 0 <= k < |objs| && objs[k].CallObj? ==> objs[k].callee in cache
  }

  /** `c1` keeps every entry of `c0` as it was. */
  ghost predicate Extends(c0: map<FuncId, seq<TraceEntry>>, c1: map<FuncId, seq<TraceEntry>>) {
    forall g :: g in c0 ==> g in c1 && c1[g] == c0[g]
  }

  /** A cache that only grows leaves the expansion of objects whose callees were already cached as it was. */
  lemma {:induction false} ExpansionStable(fid: FuncId, objs: seq<TraceObj>, c0: map<FuncId, seq<TraceEntry>>, c1: map<FuncId, seq<TraceEntry>>)
    requires CallsCached(objs, c0) && Extends(c0, c1)
    ensures Expansion(fid, objs, c1) == Expansion(fid, objs, c0)
    decreases |objs|
  {
    if |objs| > 0 {
      ExpansionStable(fid, objs[..|objs| - 1], c0, c1);
    }
  }

  lemma ExpansionSnoc(fid: FuncId, objs: seq<TraceObj>, i: nat, cache: map<FuncId, seq<TraceEntry>>)
    requires i < |objs|
    ensures Expansion(fid, objs[..i + 1], cache) == Expansion(fid, objs[..i], cache) + Entries(fid, objs[i], cache)
  {
    assert objs[..i + 1][..i] == objs[..i];
  }

  lemma CallsCachedSnoc(objs: seq<TraceObj>, i: nat, c0: map<FuncId, seq<TraceEntry>>, c1: map<FuncId, seq<TraceEntry>>)
    requires i < |objs| && CallsCached(objs[..i], c0) && Extends(c0, c1)
    requires objs[i].CallObj? ==> objs[i].callee in c1
    ensures CallsCached(objs[..i + 1], c1)
  {
    var s := objs[..i + 1];
    forall k | 0 <= k < |s| && s[k].CallObj? ensures s[k].callee in c1 {
      if k < i {
        assert objs[..i][k] == s[k];
      }
    }
  }
}
