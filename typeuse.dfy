/**
 * `TypeUse` objects and the trace interpreter `_parse_derefs_trace`: for each parameter type
 * of a function, a graph of type uses learnt from its deref trace (casts applied to an object,
 * objects reached through `offsetof`, members used). Objects live in an arena: a handle is an
 * index into `nodes`, and `instanceId` is the class-wide `TypeUse.instance_id` counter.
 */
module TypeUses {

  import opened Basics
  import opened Ir
  import opened Facts
  import opened MemberAccess
  import opened TypePredicates
  import opened Trace
  import opened Collector

  /** A `cast_types` entry: the `(t_id, original_tid, is_pointer)` an object had before a cast. */
  type CastEntry = (TypeId, TypeId, bool)

  /** An `offsetof_types` or `contained_types` entry: type chain, member chain, and the object at the other end. */
  type Edge = (seq<TypeId>, seq<int>, nat)

  /** One `TypeUse` object; `usedMembers[tid][member]` is the object a member of type `tid` leads to. */
  datatype Node = Node(
    id: nat,
    tid: TypeId,
    originalTid: TypeId,
    isPointer: bool,
    castTypes: seq<CastEntry>,
    offsetofTypes: seq<Edge>,
    containedTypes: seq<Edge>,
    usedMembers: map<TypeId, map<int, nat>>)

  /** A freshly constructed object: no casts, no edges, no used members. */
  function NewNode(id: nat, tid: TypeId, originalTid: TypeId, isPointer: bool): Node {
    Node(id, tid, originalTid, isPointer, [], [], [], map[])
  }

  /** Every handle stored in `n` refers to one of the first `size` objects. */
  predicate Closed(n: Node, size: nat) {
    (forall e :: e in n.offsetofTypes ==> e.2 < size) &&
    (forall e :: e in n.containedTypes ==> e.2 < size) &&
    (forall k, m :: k in n.usedMembers && m in n.usedMembers[k] ==> n.usedMembers[k][m] < size)
  }

  /** Every `offsetof` edge has its reverse `contained` edge. */
  ghost predicate ForwardPaired(nodes: seq<Node>) {
    forall h, e :: 0 <= h < |nodes| && e in nodes[h].offsetofTypes ==>
      e.2 < |nodes| && (e.0, e.1, h) in nodes[e.2].containedTypes
  }

  /** Every `contained` edge has its forward `offsetof` edge. */
  ghost predicate BackwardPaired(nodes: seq<Node>) {
    forall h, e :: 0 <= h < |nodes| && e in nodes[h].containedTypes ==>
      e.2 < |nodes| && (e.0, e.1, h) in nodes[e.2].offsetofTypes
  }

  ghost predicate AllClosed(nodes: seq<Node>) {
    forall h :: 0 <= h < |nodes| ==> Closed(nodes[h], |nodes|)
  }

  /** Ids are increasing in creation order and below the counter. */
  ghost predicate IdsOrdered(nodes: seq<Node>, counter: nat) {
    (forall h :: 0 <= h < |nodes| ==> nodes[h].id < counter) &&
    (forall i, j :: 0 <= i < j < |nodes| ==> nodes[i].id < nodes[j].id)
  }

  /** Handles stay inside the arena, ids are increasing and below the counter, edges are paired. */
  ghost predicate ArenaOk(nodes: seq<Node>, counter: nat) {
    AllClosed(nodes) && IdsOrdered(nodes, counter) && ForwardPaired(nodes) && BackwardPaired(nodes)
  }

  lemma ClosedGrows(n: Node, a: nat, b: nat)
    requires Closed(n, a) && a <= b
    ensures Closed(n, b)
  {
  }

  /** Creating an object keeps the arena well formed; the new object has the largest id. */
  lemma NewNodeOk(nodes: seq<Node>, counter: nat, tid: TypeId, originalTid: TypeId, isPointer: bool)
    requires ArenaOk(nodes, counter)
    ensures ArenaOk(nodes + [NewNode(counter, tid, originalTid, isPointer)], counter + 1)
  {
    var r := nodes + [NewNode(counter, tid, originalTid, isPointer)];
    AppendClosed(nodes, r[|nodes|]);
    AppendPaired(nodes, r[|nodes|]);
    assert forall h :: 0 <= h < |nodes| ==> r[h] == nodes[h];
    assert IdsOrdered(r, counter + 1);
  }

  lemma AppendClosed(nodes: seq<Node>, n: Node)
    requires AllClosed(nodes) && Closed(n, |nodes| + 1)
    ensures AllClosed(nodes + [n])
  {
    var r := nodes + [n];
    forall h | 0 <= h < |r| ensures Closed(r[h], |r|) {
      if h < |nodes| {
        assert r[h] == nodes[h];
        ClosedGrows(nodes[h], |nodes|, |r|);
      }
    }
  }

  lemma AppendPaired(nodes: seq<Node>, n: Node)
    requires ForwardPaired(nodes) && BackwardPaired(nodes) && n.offsetofTypes == [] && n.containedTypes == []
    ensures ForwardPaired(nodes + [n]) && BackwardPaired(nodes + [n])
  {
    var r := nodes + [n];
    assert forall h :: 0 <= h < |nodes| ==> r[h] == nodes[h];
  }

  /** Replacing an object by one with the same id and edges whose handles stay inside keeps the arena well formed. */
  lemma UpdateOk(nodes: seq<Node>, counter: nat, h: nat, n: Node)
    requires ArenaOk(nodes, counter) && h < |nodes| && Closed(n, |nodes|)
    requires n.id == nodes[h].id && n.offsetofTypes == nodes[h].offsetofTypes && n.containedTypes == nodes[h].containedTypes
    ensures ArenaOk(nodes[h := n], counter)
  {
    var r := nodes[h := n];
    assert forall x :: 0 <= x < |r| ==> r[x].id == nodes[x].id;
    assert IdsOrdered(r, counter);
    assert AllClosed(r);
    UpdatePaired(nodes, h, n);
  }

  lemma UpdatePaired(nodes: seq<Node>, h: nat, n: Node)
    requires ForwardPaired(nodes) && BackwardPaired(nodes) && h < |nodes|
    requires n.offsetofTypes == nodes[h].offsetofTypes && n.containedTypes == nodes[h].containedTypes
    ensures ForwardPaired(nodes[h := n]) && BackwardPaired(nodes[h := n])
  {
    var r := nodes[h := n];
    assert forall x :: 0 <= x < |r| ==>
      r[x].offsetofTypes == nodes[x].offsetofTypes && r[x].containedTypes == nodes[x].containedTypes;
  }

  /** Adding an `offsetof` edge together with its reverse keeps the arena well formed. */
  lemma LinkOk(nodes: seq<Node>, counter: nat, h: nat, types: seq<TypeId>, members: seq<int>, c: nat)
    requires ArenaOk(nodes, counter) && h < |nodes| && c < |nodes| && h != c
    ensures ArenaOk(Linked(nodes, h, types, members, c), counter)
  {
    var r := Linked(nodes, h, types, members, c);
    LinkClosed(nodes, h, types, members, c);
    LinkForward(nodes, h, types, members, c);
    LinkBackward(nodes, h, types, members, c);
    assert IdsOrdered(r, counter);
  }

  lemma LinkClosed(nodes: seq<Node>, h: nat, types: seq<TypeId>, members: seq<int>, c: nat)
    requires AllClosed(nodes) && h < |nodes| && c < |nodes| && h != c
    ensures AllClosed(Linked(nodes, h, types, members, c))
  {
    var r := Linked(nodes, h, types, members, c);
    forall x | 0 <= x < |r| ensures Closed(r[x], |r|) {
      assert Closed(nodes[x], |nodes|);
    }
  }

  lemma LinkForward(nodes: seq<Node>, h: nat, types: seq<TypeId>, members: seq<int>, c: nat)
    requires ForwardPaired(nodes) && h < |nodes| && c < |nodes| && h != c
    ensures ForwardPaired(Linked(nodes, h, types, members, c))
  {
    var r := Linked(nodes, h, types, members, c);
    forall x, e | 0 <= x < |r| && e in r[x].offsetofTypes
      ensures e.2 < |r| && (e.0, e.1, x) in r[e.2].containedTypes
    {
      if x == h && e == (types, members, c) {
        assert r[c].containedTypes[|nodes[c].containedTypes|] == (types, members, h);
      } else {
        assert e in nodes[x].offsetofTypes;
        assert (e.0, e.1, x) in nodes[e.2].containedTypes;
      }
    }
  }

  lemma LinkBackward(nodes: seq<Node>, h: nat, types: seq<TypeId>, members: seq<int>, c: nat)
    requires BackwardPaired(nodes) && h < |nodes| && c < |nodes| && h != c
    ensures BackwardPaired(Linked(nodes, h, types, members, c))
  {
    var r := Linked(nodes, h, types, members, c);
    forall x, e | 0 <= x < |r| && e in r[x].containedTypes
      ensures e.2 < |r| && (e.0, e.1, x) in r[e.2].offsetofTypes
    {
      if x == c && e == (types, members, h) {
        assert r[h].offsetofTypes[|nodes[h].offsetofTypes|] == (types, members, c);
      } else {
        assert e in nodes[x].containedTypes;
        assert (e.0, e.1, x) in nodes[e.2].offsetofTypes;
      }
    }
  }

  /** The arena after `Link`: `h` gains the forward edge to `c`, `c` the reverse edge to `h`. */
  function Linked(nodes: seq<Node>, h: nat, types: seq<TypeId>, members: seq<int>, c: nat): (r: seq<Node>)
    requires h < |nodes| && c < |nodes| && h != c
    ensures |r| == |nodes|
    ensures r[h].offsetofTypes == nodes[h].offsetofTypes + [(types, members, c)] && r[h].containedTypes == nodes[h].containedTypes
    ensures r[c].containedTypes == nodes[c].containedTypes + [(types, members, h)] && r[c].offsetofTypes == nodes[c].offsetofTypes
    ensures forall x :: 0 <= x < |nodes| && x != h && x != c ==> r[x] == nodes[x]
    ensures forall x :: 0 <= x < |nodes| ==> r[x].id == nodes[x].id && r[x].tid == nodes[x].tid && r[x].usedMembers == nodes[x].usedMembers
  {
    nodes[h := nodes[h].(offsetofTypes := nodes[h].offsetofTypes + [(types, members, c)])]
         [c := nodes[c].(containedTypes := nodes[c].containedTypes + [(types, members, h)])]
  }

  /** The objects created so far and the instance counter. */
  class Arena {
    var nodes: seq<Node>
    var instanceId: nat

    ghost predicate Valid()
      reads this
    {
      ArenaOk(nodes, instanceId)
    }

    constructor()
      ensures Valid() && nodes == [] && instanceId == 0
    {
      nodes := [];
      instanceId := 0;
    }

    /** `TypeUse(t_id, original_tid, is_pointer)`: a new object with the next instance id. */
    method NewTypeUse(tid: TypeId, originalTid: TypeId, isPointer: bool) returns (h: nat)
      requires Valid()
      modifies this
      ensures Valid()
      ensures h == |old(nodes)| && nodes == old(nodes) + [NewNode(old(instanceId), tid, originalTid, isPointer)]
      ensures instanceId == old(instanceId) + 1
    {
      NewNodeOk(nodes, instanceId, tid, originalTid, isPointer);
      h := |nodes|;
      nodes := nodes + [NewNode(instanceId, tid, originalTid, isPointer)];
      instanceId := instanceId + 1;
    }

    /** A change to an object's type, casts or used members (never to its id or its edges). */
    method Update(h: nat, n: Node)
      requires Valid() && h < |nodes| && Closed(n, |nodes|)
      requires n.id == nodes[h].id && n.offsetofTypes == nodes[h].offsetofTypes && n.containedTypes == nodes[h].containedTypes
      modifies this
      ensures Valid() && nodes == old(nodes)[h := n] && instanceId == old(instanceId)
    {
      UpdateOk(nodes, instanceId, h, n);
      nodes := nodes[h := n];
    }

    /** Records `obj` as the used member `member` of type `tid` of object `h`. */
    method SetUsedMember(h: nat, tid: TypeId, member: int, obj: nat)
      requires Valid() && h < |nodes| && obj < |nodes|
      modifies this
      ensures Valid() && nodes == old(nodes)[h := WithUsedMember(old(nodes)[h], tid, member, obj)]
      ensures instanceId == old(instanceId)
    {
      assert Closed(nodes[h], |nodes|);
      WithUsedMemberClosed(nodes[h], tid, member, obj, |nodes|);
      Update(h, WithUsedMember(nodes[h], tid, member, obj));
    }

    /** Turns the forward declaration `h` into the record `tid` (see `PromotedForward`). */
    method PromoteForward(h: nat, from: TypeId, tid: TypeId)
      requires Valid() && h < |nodes|
      modifies this
      ensures Valid() && nodes == old(nodes)[h := PromotedForward(old(nodes)[h], from, tid)]
      ensures instanceId == old(instanceId)
    {
      assert Closed(nodes[h], |nodes|);
      PromoteKeyClosed(nodes[h], from, tid, |nodes|);
      Update(h, PromotedForward(nodes[h], from, tid));
    }

    /** `h.offsetof_types.append((types, members, c))` with `c.contained_types.append((types, members, h))`. */
    method Link(h: nat, types: seq<TypeId>, members: seq<int>, c: nat)
      requires Valid() && h < |nodes| && c < |nodes| && h != c
      modifies this
      ensures Valid() && instanceId == old(instanceId)
      ensures nodes == Linked(old(nodes), h, types, members, c)
    {
      LinkOk(nodes, instanceId, h, types, members, c);
      nodes := Linked(nodes, h, types, members, c);
    }
  }

  // ---------------------------------------------------------------------------
  // Matching an object to a type (`_match_obj_to_type`)

  /** A cast-history entry names the type by id (either the id as given or its real type). */
  predicate CastIdMatch(tid: TypeId, t: TypeId, c: CastEntry) {
    t == c.0 || t == c.1 || tid == c.0 || tid == c.1
  }

  /** A cast-history entry names the type by spelling, one of them being a forward declaration. */
  predicate CastNameMatch(db: Db, t: TypeId, c: CastEntry) {
    var bt := TypeOf(db, t);
    var pt := TypeOf(db, c.0);
    var ot := TypeOf(db, c.1);
    (bt.cls == RecordForward || pt.cls == RecordForward || ot.cls == RecordForward) && (bt.str == pt.str || bt.str == ot.str)
  }

  /** Some earlier cast of the object matches (by name too when `byName`). */
  predicate InCastHistory(db: Db, tid: TypeId, t: TypeId, casts: seq<CastEntry>, byName: bool) {
    exists i :: 0 <= i < |casts| && (CastIdMatch(tid, t, casts[i]) || (byName && CastNameMatch(db, t, casts[i])))
  }

  /** The loop over `cast_types` with its `break` on the first entry that matches. */
  method SearchCastHistory(db: Db, tid: TypeId, t: TypeId, casts: seq<CastEntry>, byName: bool) returns (found: bool)
    ensures found == InCastHistory(db, tid, t, casts, byName)
  {
    found := false;
    var i := 0;
    while i < |casts|
      invariant 0 <= i <= |casts|
      invariant forall j :: 0 <= j < i ==> !(CastIdMatch(tid, t, casts[j]) || (byName && CastNameMatch(db, t, casts[j])))
    {
      if CastIdMatch(tid, t, casts[i]) || (byName && CastNameMatch(db, t, casts[i])) {
        return true;
      }
      i := i + 1;
    }
  }

  /** The real types are compared for a pointer object: its own type and the type matched against. */
  function Compared(db: Db, tid: TypeId, n: Node): (TypeId, TypeId) {
    if n.isPointer then (RealType(db, tid), RealType(db, n.tid)) else (tid, n.tid)
  }

  /**
   * Whether object `n` can be the object of type `tid`: equal types or real types, listed
   * duplicates, equally spelled types one of which is a forward declaration, or (for a type
   * that is not `void` and not a void pointer) a matching entry of the object's cast history.
   */
  predicate MatchesNode(db: Db, tid: TypeId, n: Node) {
    var (t, act) := Compared(db, tid, n);
    var at := TypeOf(db, act);
    var bt := TypeOf(db, t);
    if tid == n.tid || t == act then true
    else if IsDupOf(db, tid, n.tid) || IsDupOf(db, t, act) then true
    else if (bt.cls == RecordForward || at.cls == RecordForward) && bt.str == at.str then true
    else !IsVoidPtr(db, bt) && bt.str != "void" && InCastHistory(db, tid, t, n.castTypes, true)
  }

  /** The body of the loop of `_match_obj_to_type` for one object. */
  method MatchOne(db: Db, tid: TypeId, n: Node) returns (b: bool)
    ensures b == MatchesNode(db, tid, n)
  {
    var (t, act) := Compared(db, tid, n);
    var at := TypeOf(db, act);
    var bt := TypeOf(db, t);
    if tid == n.tid || t == act {
      b := true;
    } else if IsDupOf(db, tid, n.tid) || IsDupOf(db, t, act) {
      b := true;
    } else if (bt.cls == RecordForward || at.cls == RecordForward) && bt.str == at.str {
      b := true;
    } else if !IsVoidPtr(db, bt) && bt.str != "void" {
      b := SearchCastHistory(db, tid, t, n.castTypes, true);
    } else {
      b := false;
    }
  }

  /** Every handle of `pool` refers to an object of the arena. */
  predicate InArena(pool: seq<nat>, size: nat) {
    forall k :: 0 <= k < |pool| ==> pool[k] < size
  }

  /** The objects of `pool` that match `tid`, in pool order. */
  function Matches(db: Db, tid: TypeId, nodes: seq<Node>, pool: seq<nat>): (r: seq<nat>)
    requires InArena(pool, |nodes|)
    ensures |r| <= |pool| && InArena(r, |nodes|)
    decreases |pool|
  {
    if |pool| == 0 then []
    else
      var n := |pool| - 1;
      Matches(db, tid, nodes, pool[..n]) + (if MatchesNode(db, tid, nodes[pool[n]]) then [pool[n]] else [])
  }

  /** An object is matched exactly when it is in the pool and matches the type. */
  lemma {:induction false} MatchesHas(db: Db, tid: TypeId, nodes: seq<Node>, pool: seq<nat>, h: nat)
    requires InArena(pool, |nodes|)
    ensures h in Matches(db, tid, nodes, pool) <==> h in pool && h < |nodes| && MatchesNode(db, tid, nodes[h])
    decreases |pool|
  {
    if |pool| > 0 {
      var n := |pool| - 1;
      MatchesHas(db, tid, nodes, pool[..n], h);
      assert pool == pool[..n] + [pool[n]];
    }
  }

  /** The loop of `_match_obj_to_type` collecting `matched_objs`. */
  method MatchingObjects(db: Db, tid: TypeId, nodes: seq<Node>, pool: seq<nat>) returns (matched: seq<nat>)
    requires InArena(pool, |nodes|)
    ensures matched == Matches(db, tid, nodes, pool)
  {
    matched := [];
    var i := 0;
    while i < |pool|
      invariant 0 <= i <= |pool|
      invariant matched == Matches(db, tid, nodes, pool[..i])
    {
      assert pool[..i + 1][..i] == pool[..i];
      var b := MatchOne(db, tid, nodes[pool[i]]);
      if b {
        matched := matched + [pool[i]];
      }
      i := i + 1;
    }
    assert pool[..i] == pool;
  }

  /**
   * The entry of `from` copied under `to` (the loop `for k in d.keys(): if k == from: d[to] = d[k]`
   * with the evidently intended outcome). Every other entry is kept.
   */
  function PromoteKey<V>(um: map<TypeId, V>, from: TypeId, to: TypeId): (r: map<TypeId, V>)
    ensures r.Keys == um.Keys + (if from in um then {to} else {})
    ensures from in um ==> r[to] == um[from]
    ensures forall k :: k in um && k != to ==> r[k] == um[k]
  {
    if from in um then um[to := um[from]] else um
  }

  /**
   * The same loop as Python runs it: storing under a new key while iterating over the keys
   * raises `RuntimeError` (dictionary changed size during iteration), shown as `None`.
   */
  function PromoteKeyAsWritten<V>(um: map<TypeId, V>, from: TypeId, to: TypeId): (r: Option<map<TypeId, V>>)
    ensures r.None? <==> from in um && to !in um
    ensures r.Some? ==> r.value == PromoteKey(um, from, to)
  {
    if from in um && to !in um then None else Some(PromoteKey(um, from, to))
  }

  /** The promotion the source intends fails as written whenever the new key is not there yet. */
  lemma PromoteKeyRaises()
    ensures PromoteKeyAsWritten(map[5 := 0], 5, 7).None?
    ensures PromoteKey(map[5 := 0], 5, 7) == map[5 := 0, 7 := 0]
  {
  }

  /** Copying an entry keeps the handles of a used-members table inside the arena. */
  lemma PromoteKeyClosed(n: Node, from: TypeId, to: TypeId, size: nat)
    requires Closed(n, size)
    ensures Closed(n.(usedMembers := PromoteKey(n.usedMembers, from, to)), size)
  {
    var um := PromoteKey(n.usedMembers, from, to);
    forall k, m | k in um && m in um[k] ensures um[k][m] < size {
      if k == to && from in n.usedMembers {
        assert um[k] == n.usedMembers[from];
      } else {
        assert um[k] == n.usedMembers[k];
      }
    }
  }

  /**
   * The record-forward promotion of a single match: when the type is a record and the object
   * (real types for a pointer) a forward declaration, the object takes the type, and its used
   * members recorded under its old type are recorded under the new one as well.
   */
  function Promoted(db: Db, tid: TypeId, n: Node): (r: Node)
    ensures r.id == n.id && r.offsetofTypes == n.offsetofTypes && r.containedTypes == n.containedTypes
    ensures r.castTypes == n.castTypes && r.isPointer == n.isPointer
    ensures r != n ==> r.tid == tid && r.originalTid == tid
  {
    var (t, o) := Compared(db, tid, n);
    if TypeOf(db, t).cls == Record && TypeOf(db, o).cls == RecordForward then
      n.(usedMembers := PromoteKey(n.usedMembers, n.tid, tid), tid := tid, originalTid := tid)
    else n
  }

  /** `_match_obj_to_type(t_id, objects)`: the matching objects; a single match is promoted in place. */
  method MatchObjToType(arena: Arena, db: Db, tid: TypeId, pool: seq<nat>) returns (matched: seq<nat>)
    requires arena.Valid() && InArena(pool, |arena.nodes|)
    modifies arena
    ensures arena.Valid() && arena.instanceId == old(arena.instanceId) && |arena.nodes| == |old(arena.nodes)|
    ensures matched == Matches(db, tid, old(arena.nodes), pool)
    ensures |matched| == 1 ==> arena.nodes == old(arena.nodes)[matched[0] := Promoted(db, tid, old(arena.nodes)[matched[0]])]
    ensures |matched| != 1 ==> arena.nodes == old(arena.nodes)
  {
    matched := MatchingObjects(db, tid, arena.nodes, pool);
    if |matched| == 1 {
      var h := matched[0];
      assert h in matched;
      MatchesHas(db, tid, arena.nodes, pool, h);
      var n := arena.nodes[h];
      PromoteKeyClosed(n, n.tid, tid, |arena.nodes|);
      arena.Update(h, Promoted(db, tid, n));
    }
  }

  // ---------------------------------------------------------------------------
  // The interpreter state

  /** The active object, the pool searched by matching (`typeuse_objects`), and the last object bound to `obj`. */
  datatype Cursor = Cursor(active: nat, pool: seq<nat>, stale: Option<nat>)

  predicate Fits(c: Cursor, size: nat) {
    c.active < size && InArena(c.pool, size) && (c.stale.Some? ==> c.stale.value < size)
  }

  /** Everything the interpreter changes: the objects, the instance counter and the cursor. */
  datatype Machine = Machine(nodes: seq<Node>, counter: nat, c: Cursor)

  /** Every handle, stored in an object or held by the cursor, refers to an object of the arena. */
  ghost predicate Sane(m: Machine) {
    AllClosed(m.nodes) && Fits(m.c, |m.nodes|)
  }

  /** The state of `arena` together with the cursor `c`. */
  function StateOf(arena: Arena, c: Cursor): Machine
    reads arena
  {
    Machine(arena.nodes, arena.instanceId, c)
  }

  /** `m` grew into `r`: objects only added, the counter only increased, the pool only extended. */
  ghost predicate Grew(m: Machine, r: Machine) {
    |m.nodes| <= |r.nodes| && m.counter <= r.counter && m.c.pool <= r.c.pool
  }

  /** Only the types, casts and used members of existing objects may have changed, none was added. */
  ghost predicate SameShape(m: Machine, r: Machine) {
    |r.nodes| == |m.nodes| && r.counter == m.counter && r.c.pool == m.c.pool &&
    forall x :: 0 <= x < |m.nodes| ==>
      r.nodes[x].id == m.nodes[x].id && r.nodes[x].offsetofTypes == m.nodes[x].offsetofTypes &&
      r.nodes[x].containedTypes == m.nodes[x].containedTypes
  }

  lemma SetClosed(nodes: seq<Node>, h: nat, n: Node)
    requires AllClosed(nodes) && h < |nodes| && Closed(n, |nodes|)
    ensures AllClosed(nodes[h := n])
  {
    var r := nodes[h := n];
    forall x | 0 <= x < |r| ensures Closed(r[x], |r|) {
      if x != h {
        assert r[x] == nodes[x];
      }
    }
  }

  /** The active object is not already of the type (by id, real type or duplicate): matching is needed. */
  predicate NeedsMatch(db: Db, t: TypeId, act: TypeId, t2: TypeId, act2: TypeId) {
    t != act && t2 != act2 && !IsDupOf(db, t, act) && !IsDupOf(db, t2, act2)
  }

  /**
   * Re-targeting to `tid`: with exactly one object of the pool matching, that object is
   * promoted (`Promoted`) and becomes active, and the flag is true; with none or several
   * the state is kept and the flag is false.
   */
  function Retargeted(db: Db, tid: TypeId, m: Machine): (r: (Machine, bool))
    requires Sane(m)
    ensures Sane(r.0) && SameShape(m, r.0) && r.0.c.stale == m.c.stale
    ensures r.1 <==> |Matches(db, tid, m.nodes, m.c.pool)| == 1
    ensures !r.1 ==> r.0 == m
  {
    var matched := Matches(db, tid, m.nodes, m.c.pool);
    if |matched| == 1 then
      var h := matched[0];
      PromoteKeyClosed(m.nodes[h], m.nodes[h].tid, tid, |m.nodes|);
      assert Closed(Promoted(db, tid, m.nodes[h]), |m.nodes|);
      SetClosed(m.nodes, h, Promoted(db, tid, m.nodes[h]));
      (Machine(m.nodes[h := Promoted(db, tid, m.nodes[h])], m.counter, m.c.(active := h)), true)
    else (m, false)
  }

  /**
   * After a successful re-targeting the active object is the one object of the pool that
   * matches the type, and every other object is as it was.
   */
  lemma RetargetedMatches(db: Db, tid: TypeId, m: Machine, h: nat)
    requires Sane(m) && Retargeted(db, tid, m).1
    ensures var a := Retargeted(db, tid, m).0.c.active;
      a in m.c.pool && MatchesNode(db, tid, m.nodes[a]) &&
      (h in m.c.pool && h < |m.nodes| && MatchesNode(db, tid, m.nodes[h]) ==> h == a) &&
      Retargeted(db, tid, m).0.nodes == m.nodes[a := Promoted(db, tid, m.nodes[a])]
  {
    var matched := Matches(db, tid, m.nodes, m.c.pool);
    assert matched[0] in matched;
    MatchesHas(db, tid, m.nodes, m.c.pool, matched[0]);
    MatchesHas(db, tid, m.nodes, m.c.pool, h);
    if h in m.c.pool && h < |m.nodes| && MatchesNode(db, tid, m.nodes[h]) {
      assert h in matched;
      assert matched == [matched[0]];
    }
  }

  /** Re-targeting through `MatchObjToType`. */
  method Retarget(arena: Arena, db: Db, tid: TypeId, c: Cursor) returns (r: Cursor, ok: bool)
    requires arena.Valid() && Fits(c, |arena.nodes|)
    modifies arena
    ensures arena.Valid() && (StateOf(arena, r), ok) == Retargeted(db, tid, old(StateOf(arena, c)))
  {
    var matched := MatchObjToType(arena, db, tid, c.pool);
    ok := |matched| == 1;
    r := if ok then c.(active := matched[0]) else c;
  }

  // ---------------------------------------------------------------------------
  // Casts

  /** A cast is skipped when it would turn a record (or forward declaration) into a non-record. */
  predicate CastAllowed(db: Db, n: Node, casted: TypeId) {
    var at := StripTypedef(db, TypeOf(db, RealType(db, n.tid)));
    var ct := StripTypedef(db, TypeOf(db, RealType(db, casted)));
    !(IsRecordClass(at.cls) && !IsRecordClass(ct.cls))
  }

  /** The object after a cast: its previous type recorded in the history, the cast type taken. */
  function WithCast(db: Db, n: Node, casted: TypeId): (r: Node)
    ensures r.id == n.id && r.offsetofTypes == n.offsetofTypes && r.containedTypes == n.containedTypes
    ensures r.usedMembers == n.usedMembers
  {
    n.(castTypes := n.castTypes + [(n.tid, n.originalTid, n.isPointer)],
       tid := casted, originalTid := casted, isPointer := TypeOf(db, casted).cls == Pointer)
  }

  /**
   * The objects after a cast of object `h`: unless it would make a record a non-record,
   * exactly one `(t_id, original_tid, is_pointer)` triple of the prior state is appended to
   * its history and it takes the cast type, as a pointer exactly when that type is one.
   * No other object changes.
   */
  function CastApplied(db: Db, nodes: seq<Node>, h: nat, casted: TypeId): (r: seq<Node>)
    requires AllClosed(nodes) && h < |nodes|
    ensures AllClosed(r) && |r| == |nodes|
    ensures forall x :: 0 <= x < |nodes| && x != h ==> r[x] == nodes[x]
    ensures r[h].id == nodes[h].id && r[h].offsetofTypes == nodes[h].offsetofTypes && r[h].containedTypes == nodes[h].containedTypes
    ensures CastAllowed(db, nodes[h], casted) ==>
      r[h].castTypes == nodes[h].castTypes + [(nodes[h].tid, nodes[h].originalTid, nodes[h].isPointer)] &&
      r[h].tid == casted && r[h].originalTid == casted && r[h].isPointer == (TypeOf(db, casted).cls == Pointer) &&
      r[h].usedMembers == nodes[h].usedMembers
    ensures !CastAllowed(db, nodes[h], casted) ==> r == nodes
  {
    if CastAllowed(db, nodes[h], casted) then
      assert Closed(nodes[h], |nodes|);
      SetClosed(nodes, h, WithCast(db, nodes[h], casted));
      nodes[h := WithCast(db, nodes[h], casted)]
    else nodes
  }

  /** Applying a cast to object `h`. */
  method ApplyCast(arena: Arena, db: Db, h: nat, casted: TypeId)
    requires arena.Valid() && h < |arena.nodes|
    modifies arena
    ensures arena.Valid() && arena.instanceId == old(arena.instanceId)
    ensures arena.nodes == CastApplied(db, old(arena.nodes), h, casted)
  {
    var n := arena.nodes[h];
    if CastAllowed(db, n, casted) {
      arena.Update(h, WithCast(db, n, casted));
    }
  }

  /** Only object `a` differs from `m` to `r`; it gains at most one history entry, and then has type `casted`. */
  ghost predicate CastOnly(m: Machine, r: Machine, a: nat, casted: TypeId) {
    a < |m.nodes| == |r.nodes| &&
    (forall x :: 0 <= x < |m.nodes| && x != a ==> r.nodes[x] == m.nodes[x]) &&
    m.nodes[a].castTypes <= r.nodes[a].castTypes && |r.nodes[a].castTypes| <= |m.nodes[a].castTypes| + 1 &&
    (|r.nodes[a].castTypes| > |m.nodes[a].castTypes| ==> r.nodes[a].tid == casted)
  }

  /**
   * A cast of the whole object to `casted`, expected of source type `currentTid`: the active
   * object is re-targeted to the source type if it is not of it (nothing happens when that
   * fails), then cast when its type differs from the cast type.
   */
  function CastWholeRun(db: Db, currentTid: TypeId, casted: TypeId, m: Machine): (r: Machine)
    requires Sane(m)
    ensures Sane(r) && SameShape(m, r) && r.c.stale == m.c.stale
  {
    var n := m.nodes[m.c.active];
    var cur2 := if n.isPointer then RealType(db, currentTid) else currentTid;
    var t := if NeedsMatch(db, currentTid, n.tid, cur2, n.tid) then Retargeted(db, currentTid, m) else (m, true);
    if !t.1 then m else CastActive(db, casted, t.0)
  }

  /** The active object cast to `casted` unless it already has that type. */
  function CastActive(db: Db, casted: TypeId, m: Machine): (r: Machine)
    requires Sane(m)
    ensures Sane(r) && SameShape(m, r) && r.c == m.c
  {
    if m.nodes[m.c.active].tid != casted then m.(nodes := CastApplied(db, m.nodes, m.c.active, casted)) else m
  }

  /** Only the active object is cast; it gains at most one history entry, and then has the cast type. */
  lemma CastActiveFrame(db: Db, casted: TypeId, m: Machine)
    requires Sane(m)
    ensures CastOnly(m, CastActive(db, casted, m), m.c.active, casted)
  {
  }

  /**
   * A cast of the whole object changes only the (possibly new) active object, which is the old
   * one or comes from the pool; that object gains at most one history entry, and then has the
   * cast type.
   */
  lemma CastWholeRunFrame(db: Db, currentTid: TypeId, casted: TypeId, m: Machine)
    requires Sane(m)
    ensures var r := CastWholeRun(db, currentTid, casted, m);
      (r.c.active == m.c.active || r.c.active in m.c.pool) && CastOnly(m, r, r.c.active, casted)
  {
    var n := m.nodes[m.c.active];
    var cur2 := if n.isPointer then RealType(db, currentTid) else currentTid;
    if NeedsMatch(db, currentTid, n.tid, cur2, n.tid) {
      var t := Retargeted(db, currentTid, m);
      if t.1 {
        var a := t.0.c.active;
        RetargetedMatches(db, currentTid, m, a);
        assert t.0.nodes[a].castTypes == m.nodes[a].castTypes;
        CastActiveFrame(db, casted, t.0);
        assert CastWholeRun(db, currentTid, casted, m) == CastActive(db, casted, t.0);
        return;
      }
    }
    CastActiveFrame(db, casted, m);
  }

  /**
   * A cast of member `member` of `currentTid` to `casted`: the active object is cast when it
   * is of the member's type (its real type for a pointer). Only the active object changes.
   */
  function CastFieldRun(db: Db, currentTid: TypeId, member: int, casted: TypeId, m: Machine): (r: Machine)
    requires Sane(m)
    ensures Sane(r) && SameShape(m, r) && r.c == m.c && CastOnly(m, r, m.c.active, casted)
  {
    var n := m.nodes[m.c.active];
    var memberTid := At(TypeOf(db, currentTid).refs, member, -1);
    var member2 := if n.isPointer then RealType(db, memberTid) else memberTid;
    if n.tid == memberTid || n.tid == member2 then m.(nodes := CastApplied(db, m.nodes, m.c.active, casted))
    else m
  }

  /** One `(source type, member)` of the cast data, cast to the first destination type (`-1` when there is none). */
  function CastMemberRun(db: Db, currentTid: TypeId, member: int, dsts: seq<TypeId>, m: Machine): (r: Machine)
    requires Sane(m)
    ensures Sane(r) && SameShape(m, r) && r.c.stale == m.c.stale
  {
    if member == NoMember then CastWholeRun(db, currentTid, At(dsts, 0, -1), m)
    else CastFieldRun(db, currentTid, member, At(dsts, 0, -1), m)
  }

  method CastMemberStep(arena: Arena, db: Db, currentTid: TypeId, member: int, dsts: seq<TypeId>, c: Cursor)
    returns (r: Cursor)
    requires arena.Valid() && Fits(c, |arena.nodes|)
    modifies arena
    ensures arena.Valid() && StateOf(arena, r) == CastMemberRun(db, currentTid, member, dsts, old(StateOf(arena, c)))
  {
    var n := arena.nodes[c.active];
    var casted := At(dsts, 0, -1);
    r := c;
    if member == NoMember {
      var cur2 := if n.isPointer then RealType(db, currentTid) else currentTid;
      if NeedsMatch(db, currentTid, n.tid, cur2, n.tid) {
        var ok;
        r, ok := Retarget(arena, db, currentTid, c);
        if !ok {
          return;
        }
      }
      if arena.nodes[r.active].tid != casted {
        ApplyCast(arena, db, r.active, casted);
      }
    } else {
      var memberTid := At(TypeOf(db, currentTid).refs, member, -1);
      var member2 := if n.isPointer then RealType(db, memberTid) else memberTid;
      if n.tid == memberTid || n.tid == member2 {
        ApplyCast(arena, db, c.active, casted);
      }
    }
  }

  /** The members `Keys(byMember)[j..]` of source type `src`, in insertion order, one `CastMemberRun` each. */
  function CastMembersFrom(db: Db, src: TypeId, byMember: Dict<int, seq<TypeId>>, j: nat, m: Machine): (r: Machine)
    requires Sane(m) && DictInv(byMember) && j <= |Keys(byMember)|
    ensures Sane(r) && SameShape(m, r) && r.c.stale == m.c.stale
    decreases |Keys(byMember)| - j
  {
    if j == |Keys(byMember)| then m
    else
      var member := Keys(byMember)[j];
      assert HasKey(byMember, member);
      CastMembersFrom(db, src, byMember, j + 1, CastMemberRun(db, src, member, Get(byMember, member), m))
  }

  /** The source types `Keys(cd)[i..]` of the cast data, in insertion order, each with all its members. */
  function CastSourcesFrom(db: Db, cd: CastData, i: nat, m: Machine): (r: Machine)
    requires Sane(m) && CastDataInv(cd) && i <= |Keys(cd)|
    ensures Sane(r) && SameShape(m, r) && r.c.stale == m.c.stale
    decreases |Keys(cd)| - i
  {
    if i == |Keys(cd)| then m
    else
      var src := Keys(cd)[i];
      assert HasKey(cd, src);
      CastSourcesFrom(db, cd, i + 1, CastMembersFrom(db, src, Get(cd, src), 0, m))
  }

  /** A deref with cast data: every source type and every member of it, in insertion order. */
  function CastDerefRun(db: Db, cd: CastData, m: Machine): (r: Machine)
    requires Sane(m) && CastDataInv(cd)
    ensures Sane(r) && SameShape(m, r) && r.c.stale == m.c.stale
  {
    CastSourcesFrom(db, cd, 0, m)
  }

  /** The loop over the members of one source type. */
  method CastMembersStep(arena: Arena, db: Db, src: TypeId, byMember: Dict<int, seq<TypeId>>, c: Cursor) returns (r: Cursor)
    requires DictInv(byMember)
    requires arena.Valid() && Fits(c, |arena.nodes|)
    modifies arena
    ensures arena.Valid() && StateOf(arena, r) == CastMembersFrom(db, src, byMember, 0, old(StateOf(arena, c)))
  {
    r := c;
    var members := Keys(byMember);
    var j := 0;
    while j < |members|
      invariant 0 <= j <= |members|
      invariant arena.Valid() && Fits(r, |arena.nodes|)
      invariant CastMembersFrom(db, src, byMember, j, StateOf(arena, r)) == CastMembersFrom(db, src, byMember, 0, old(StateOf(arena, c)))
    {
      r := CastMemberAt(arena, db, src, byMember, j, r);
      j := j + 1;
    }
  }

  /** The `j`-th member of one source type. */
  method CastMemberAt(arena: Arena, db: Db, src: TypeId, byMember: Dict<int, seq<TypeId>>, j: nat, c: Cursor) returns (r: Cursor)
    requires DictInv(byMember) && j < |Keys(byMember)|
    requires arena.Valid() && Fits(c, |arena.nodes|)
    modifies arena
    ensures arena.Valid() && Fits(r, |arena.nodes|)
    ensures CastMembersFrom(db, src, byMember, j + 1, StateOf(arena, r)) == CastMembersFrom(db, src, byMember, j, old(StateOf(arena, c)))
  {
    var member := Keys(byMember)[j];
    assert HasKey(byMember, member);
    r := CastMemberStep(arena, db, src, member, Get(byMember, member), c);
  }

  method CastDerefStep(arena: Arena, db: Db, cd: CastData, c: Cursor) returns (r: Cursor)
    requires CastDataInv(cd)
    requires arena.Valid() && Fits(c, |arena.nodes|)
    modifies arena
    ensures arena.Valid() && StateOf(arena, r) == CastDerefRun(db, cd, old(StateOf(arena, c)))
  {
    r := c;
    var keys := Keys(cd);
    var i := 0;
    while i < |keys|
      invariant 0 <= i <= |keys|
      invariant arena.Valid() && Fits(r, |arena.nodes|)
      invariant CastSourcesFrom(db, cd, i, StateOf(arena, r)) == CastDerefRun(db, cd, old(StateOf(arena, c)))
    {
      r := CastSourceAt(arena, db, cd, i, r);
      i := i + 1;
    }
  }

  /** The `i`-th source type of the cast data, with all its members. */
  method CastSourceAt(arena: Arena, db: Db, cd: CastData, i: nat, c: Cursor) returns (r: Cursor)
    requires CastDataInv(cd) && i < |Keys(cd)|
    requires arena.Valid() && Fits(c, |arena.nodes|)
    modifies arena
    ensures arena.Valid() && Fits(r, |arena.nodes|)
    ensures CastSourcesFrom(db, cd, i + 1, StateOf(arena, r)) == CastSourcesFrom(db, cd, i, old(StateOf(arena, c)))
  {
    var src := Keys(cd)[i];
    assert HasKey(cd, src);
    r := CastMembersStep(arena, db, src, Get(cd, src), c);
  }

  // ---------------------------------------------------------------------------
  // Offsetof

  /** The first `offsetof` edge with the given chains. */
  function FirstEdge(edges: seq<Edge>, types: seq<TypeId>, members: seq<int>): (k: Option<nat>)
    ensures k.Some? ==> k.value < |edges| && edges[k.value].0 == types && edges[k.value].1 == members
    ensures k.Some? ==> forall j :: 0 <= j < k.value ==> !(edges[j].0 == types && edges[j].1 == members)
    ensures k.None? <==> forall j :: 0 <= j < |edges| ==> !(edges[j].0 == types && edges[j].1 == members)
    decreases |edges|
  {
    if |edges| == 0 then None
    else if edges[0].0 == types && edges[0].1 == members then Some(0)
    else
      var k := FirstEdge(edges[1..], types, members);
      if k.Some? then Some(k.value + 1) else None
  }

  /** The search loop over `offsetof_types` with `break` on the first edge with equal chains. */
  method FindEdge(edges: seq<Edge>, types: seq<TypeId>, members: seq<int>) returns (k: Option<nat>)
    ensures k == FirstEdge(edges, types, members)
  {
    var j := 0;
    while j < |edges|
      invariant 0 <= j <= |edges|
      invariant forall i :: 0 <= i < j ==> !(edges[i].0 == types && edges[i].1 == members)
    {
      if edges[j].0 == types && edges[j].1 == members {
        k := Some(j);
        assert FirstEdge(edges, types, members) == k by {
          OnlyFirstEdge(edges, types, members, j);
        }
        return;
      }
      j := j + 1;
    }
    k := None;
  }

  /** The first edge is the one before which no edge has the chains. */
  lemma OnlyFirstEdge(edges: seq<Edge>, types: seq<TypeId>, members: seq<int>, j: nat)
    requires j < |edges| && edges[j].0 == types && edges[j].1 == members
    requires forall i :: 0 <= i < j ==> !(edges[i].0 == types && edges[i].1 == members)
    ensures FirstEdge(edges, types, members) == Some(j)
  {
    var k := FirstEdge(edges, types, members);
    assert k.Some?;
    if k.value < j {
      assert false;
    }
  }

  /**
   * The offsetof step from the active object: an existing edge with equal type and member
   * chains makes its object active and nothing is created; otherwise exactly one new pointer
   * object of the destination's real type is created, joined by a forward edge from the active
   * object and a reverse edge back, added to the pool and made active. `obj` is left bound to
   * the edge found, or else to the last edge searched.
   */
  function OffsetofChildRun(db: Db, m: Machine, types: seq<TypeId>, members: seq<int>, dst: TypeId): (r: Machine)
    requires Sane(m)
    ensures Sane(r) && Grew(m, r)
    ensures FirstEdge(m.nodes[m.c.active].offsetofTypes, types, members).Some? ==>
      r.nodes == m.nodes && r.counter == m.counter && r.c.pool == m.c.pool && r.c.stale == Some(r.c.active)
    ensures FirstEdge(m.nodes[m.c.active].offsetofTypes, types, members).None? ==>
      r.c.active == |m.nodes| && r.c.pool == m.c.pool + [r.c.active] && r.counter == m.counter + 1 &&
      |r.nodes| == |m.nodes| + 1 && r.nodes[r.c.active].tid == RealType(db, dst) && r.nodes[r.c.active].isPointer &&
      r.nodes[m.c.active].offsetofTypes == m.nodes[m.c.active].offsetofTypes + [(types, members, r.c.active)] &&
      r.nodes[r.c.active].containedTypes == [(types, members, m.c.active)]
  {
    var edges := m.nodes[m.c.active].offsetofTypes;
    assert Closed(m.nodes[m.c.active], |m.nodes|);
    var k := FirstEdge(edges, types, members);
    if k.Some? then
      assert edges[k.value] in edges;
      m.(c := m.c.(active := edges[k.value].2, stale := Some(edges[k.value].2)))
    else
      assert |edges| > 0 ==> edges[|edges| - 1] in edges;
      var stale := if |edges| > 0 then Some(edges[|edges| - 1].2) else m.c.stale;
      var h := |m.nodes|;
      var n := NewNode(m.counter, RealType(db, dst), dst, true);
      AppendClosed(m.nodes, n);
      LinkClosed(m.nodes + [n], m.c.active, types, members, h);
      Machine(Linked(m.nodes + [n], m.c.active, types, members, h), m.counter + 1, Cursor(h, m.c.pool + [h], stale))
  }

  /**
   * The offsetof object is reused: the same offsetof from the same object a second time reaches
   * the object the first one reached, and creates nothing.
   */
  lemma OffsetofChildReused(db: Db, m: Machine, types: seq<TypeId>, members: seq<int>, dst: TypeId)
    requires Sane(m)
    ensures var r1 := OffsetofChildRun(db, m, types, members, dst);
      var r2 := OffsetofChildRun(db, r1.(c := r1.c.(active := m.c.active)), types, members, dst);
      r2.nodes == r1.nodes && r2.counter == r1.counter && r2.c.active == r1.c.active && r2.c.pool == r1.c.pool
  {
    var edges := m.nodes[m.c.active].offsetofTypes;
    var r1 := OffsetofChildRun(db, m, types, members, dst);
    var edges1 := r1.nodes[m.c.active].offsetofTypes;
    match FirstEdge(edges, types, members)
    case Some(k) =>
      assert edges1 == edges;
    case None =>
      assert edges1 == edges + [(types, members, r1.c.active)];
      assert edges1[|edges|] == (types, members, r1.c.active);
      OnlyFirstEdge(edges1, types, members, |edges|);
  }

  /** The child step through `FindEdge`, `NewTypeUse` and `Link`. */
  method OffsetofChild(arena: Arena, db: Db, c: Cursor, types: seq<TypeId>, members: seq<int>, dst: TypeId)
    returns (r: Cursor)
    requires arena.Valid() && Fits(c, |arena.nodes|)
    modifies arena
    ensures arena.Valid() && StateOf(arena, r) == OffsetofChildRun(db, old(StateOf(arena, c)), types, members, dst)
  {
    var edges := arena.nodes[c.active].offsetofTypes;
    assert Closed(arena.nodes[c.active], |arena.nodes|);
    var k := FindEdge(edges, types, members);
    if k.Some? {
      assert edges[k.value] in edges;
      r := c.(active := edges[k.value].2, stale := Some(edges[k.value].2));
    } else {
      var stale := c.stale;
      if |edges| > 0 {
        assert edges[|edges| - 1] in edges;
        stale := Some(edges[|edges| - 1].2);
      }
      r := OffsetofNewChild(arena, db, c, types, members, dst, stale);
    }
  }

  /** No edge matches: a new object of type `dst`, linked from the active one, becomes active and joins the pool. */
  method OffsetofNewChild(arena: Arena, db: Db, c: Cursor, types: seq<TypeId>, members: seq<int>, dst: TypeId, stale: Option<nat>)
    returns (r: Cursor)
    requires arena.Valid() && Fits(c, |arena.nodes|)
    modifies arena
    ensures arena.Valid()
    ensures var h := |old(arena.nodes)|;
      arena.nodes == Linked(old(arena.nodes) + [NewNode(old(arena.instanceId), RealType(db, dst), dst, true)], c.active, types, members, h) &&
      arena.instanceId == old(arena.instanceId) + 1 && r == Cursor(h, c.pool + [h], stale)
  {
    var child := arena.NewTypeUse(RealType(db, dst), dst, true);
    arena.Link(c.active, types, members, child);
    r := Cursor(child, c.pool + [child], stale);
  }

  /**
   * A deref the offsetof extraction accepts: the source type (member `members[-1]` of the last
   * chain type) must be the active object's, or re-targeting must find it (else the deref is
   * skipped); then the child step.
   */
  function OffsetofRun(db: Db, d: Deref, m: Machine): (r: Machine)
    requires Sane(m)
    ensures Sane(r) && Grew(m, r)
  {
    var base := OffsetofSource(db, d);
    var n := m.nodes[m.c.active];
    var act2 := if n.isPointer then RealType(db, n.tid) else n.tid;
    var t := if NeedsMatch(db, base, n.tid, base, act2) then Retargeted(db, base, m) else (m, true);
    if !t.1 then m else OffsetofChildRun(db, t.0, d.types, d.members, At(d.types, 0, -1))
  }

  method OffsetofStep(arena: Arena, db: Db, d: Deref, c: Cursor) returns (r: Cursor)
    requires arena.Valid() && Fits(c, |arena.nodes|)
    modifies arena
    ensures arena.Valid() && StateOf(arena, r) == OffsetofRun(db, d, old(StateOf(arena, c)))
  {
    var base := OffsetofSource(db, d);
    var dst := At(d.types, 0, -1);
    var n := arena.nodes[c.active];
    var act2 := if n.isPointer then RealType(db, n.tid) else n.tid;
    r := c;
    if NeedsMatch(db, base, n.tid, base, act2) {
      var ok;
      r, ok := Retarget(arena, db, base, c);
      if !ok {
        return;
      }
    }
    r := OffsetofChild(arena, db, r, d.types, d.members, dst);
  }

  // ---------------------------------------------------------------------------
  // Member accesses

  /** `used_members[tid][member] = obj`, creating the inner table when `tid` has none. */
  function WithUsedMember(n: Node, tid: TypeId, member: int, obj: nat): (r: Node)
    ensures r.id == n.id && r.tid == n.tid && r.offsetofTypes == n.offsetofTypes && r.containedTypes == n.containedTypes
    ensures r.usedMembers.Keys == n.usedMembers.Keys + {tid}
    ensures member in r.usedMembers[tid] && r.usedMembers[tid][member] == obj
    ensures tid in n.usedMembers ==> r.usedMembers[tid].Keys == n.usedMembers[tid].Keys + {member}
    ensures forall m :: tid in n.usedMembers && m in n.usedMembers[tid] && m != member ==>
      r.usedMembers[tid][m] == n.usedMembers[tid][m]
    ensures forall k :: k in n.usedMembers && k != tid ==> r.usedMembers[k] == n.usedMembers[k]
  {
    var inner := if tid in n.usedMembers then n.usedMembers[tid] else map[];
    n.(usedMembers := n.usedMembers[tid := inner[member := obj]])
  }

  lemma WithUsedMemberClosed(n: Node, tid: TypeId, member: int, obj: nat, size: nat)
    requires Closed(n, size) && obj < size
    ensures Closed(WithUsedMember(n, tid, member, obj), size)
  {
    var um := WithUsedMember(n, tid, member, obj).usedMembers;
    forall k, m | k in um && m in um[k] ensures um[k][m] < size {
      if k != tid {
        assert um[k] == n.usedMembers[k];
      } else if m != member {
        assert m in n.usedMembers[tid];
      }
    }
  }

  /** Every object is as it was except for its used members; no object is added. */
  ghost predicate MembersOnly(m: Machine, r: Machine) {
    SameShape(m, r) &&
    forall x :: 0 <= x < |m.nodes| ==>
      r.nodes[x].tid == m.nodes[x].tid && r.nodes[x].originalTid == m.nodes[x].originalTid &&
      r.nodes[x].isPointer == m.nodes[x].isPointer && r.nodes[x].castTypes == m.nodes[x].castTypes
  }

  /** No object is added, the counter and the pool stay as they were. */
  predicate SameSize(m: Machine, r: Machine) {
    |r.nodes| == |m.nodes| && r.counter == m.counter && r.c.pool == m.c.pool
  }

  /** A reverse edge for member `member` of record `tid`: the last chain type and the last member match. */
  predicate EdgeFor(e: Edge, tid: TypeId, member: int) {
    Last(e.0, -1) == tid && member == Last(e.1, -1)
  }

  /** Every object the edges lead to is in the arena. */
  predicate EdgesIn(es: seq<Edge>, size: nat) {
    forall k :: 0 <= k < |es| ==> es[k].2 < size
  }

  /** `obj` recorded as the used member `member` of type `tid` of the active object, then made active. */
  function Descend(m: Machine, tid: TypeId, member: int, obj: nat): (r: Machine)
    requires Sane(m) && obj < |m.nodes|
    ensures Sane(r) && SameSize(m, r) && r.c.active == obj && r.c.stale == m.c.stale
  {
    var a := m.nodes[m.c.active];
    assert Closed(a, |m.nodes|);
    WithUsedMemberClosed(a, tid, member, obj, |m.nodes|);
    SetClosed(m.nodes, m.c.active, WithUsedMember(a, tid, member, obj));
    Machine(m.nodes[m.c.active := WithUsedMember(a, tid, member, obj)], m.counter, m.c.(active := obj))
  }

  /**
   * One iteration of the loop over `contained_types`: `obj` is bound to the edge `e`, and an
   * edge for the member records its object as the member (of type `activeTid`) of the active
   * object and makes it active.
   */
  function ContainedEdge(activeTid: TypeId, tid: TypeId, member: int, e: Edge, m: Machine, found: bool): (r: (Machine, bool))
    requires Sane(m) && e.2 < |m.nodes|
    ensures Sane(r.0) && SameSize(m, r.0) && r.0.c.stale == Some(e.2)
  {
    var s := m.(c := m.c.(stale := Some(e.2)));
    if EdgeFor(e, tid, member) then (Descend(s, activeTid, member, e.2), true) else (s, found)
  }

  /**
   * The iterations `j..` of the loop over a snapshot `cts` of the active object's
   * `contained_types`, `found` telling whether an earlier one found an edge: `obj` is bound to
   * each edge in turn, and each edge for the member records its object as the member (of type
   * `activeTid`) of the then active object and makes it active.
   */
  function ContainedFrom(activeTid: TypeId, tid: TypeId, member: int, cts: seq<Edge>, j: nat, m: Machine, found: bool): (r: (Machine, bool))
    requires Sane(m) && j <= |cts| && EdgesIn(cts, |m.nodes|)
    ensures Sane(r.0) && SameSize(m, r.0)
    ensures r.0.c.stale == (if j == |cts| then m.c.stale else Some(cts[|cts| - 1].2))
    decreases |cts| - j
  {
    if j == |cts| then (m, found)
    else
      var n := ContainedEdge(activeTid, tid, member, cts[j], m, found);
      ContainedFrom(activeTid, tid, member, cts, j + 1, n.0, n.1)
  }

  /** The loop changes only used members of objects. */
  lemma {:induction false} ContainedFromMembersOnly(activeTid: TypeId, tid: TypeId, member: int, cts: seq<Edge>, j: nat, m: Machine, found: bool)
    requires Sane(m) && j <= |cts| && EdgesIn(cts, |m.nodes|)
    ensures MembersOnly(m, ContainedFrom(activeTid, tid, member, cts, j, m, found).0)
    decreases |cts| - j
  {
    if j < |cts| {
      var s := m.(c := m.c.(stale := Some(cts[j].2)));
      var n := if EdgeFor(cts[j], tid, member) then Descend(s, activeTid, member, cts[j].2) else s;
      assert MembersOnly(m, n);
      ContainedFromMembersOnly(activeTid, tid, member, cts, j + 1, n, EdgeFor(cts[j], tid, member) || found);
    }
  }

  /** The loop reports an edge exactly when an earlier iteration or one of `cts[j..]` found one for the member. */
  lemma {:induction false} ContainedFromFound(activeTid: TypeId, tid: TypeId, member: int, cts: seq<Edge>, j: nat, m: Machine, found: bool)
    requires Sane(m) && j <= |cts| && EdgesIn(cts, |m.nodes|)
    ensures ContainedFrom(activeTid, tid, member, cts, j, m, found).1 <==>
      found || exists k :: j <= k < |cts| && EdgeFor(cts[k], tid, member)
    decreases |cts| - j
  {
    if j < |cts| {
      var s := m.(c := m.c.(stale := Some(cts[j].2)));
      if EdgeFor(cts[j], tid, member) {
        ContainedFromFound(activeTid, tid, member, cts, j + 1, Descend(s, activeTid, member, cts[j].2), true);
      } else {
        ContainedFromFound(activeTid, tid, member, cts, j + 1, s, found);
        if exists k :: j <= k < |cts| && EdgeFor(cts[k], tid, member) {
          var k :| j <= k < |cts| && EdgeFor(cts[k], tid, member);
          assert j + 1 <= k;
        }
      }
    }
  }

  /**
   * Without an edge for the member among `cts[j..]` the objects and the active object stay as
   * they were; with some, the object of the last one is active.
   */
  lemma {:induction false} ContainedFromActive(activeTid: TypeId, tid: TypeId, member: int, cts: seq<Edge>, j: nat, m: Machine, found: bool)
    requires Sane(m) && j <= |cts| && EdgesIn(cts, |m.nodes|)
    ensures var r := ContainedFrom(activeTid, tid, member, cts, j, m, found).0;
      (forall k :: j <= k < |cts| ==> !EdgeFor(cts[k], tid, member)) ==> r.nodes == m.nodes && r.c.active == m.c.active
    ensures var r := ContainedFrom(activeTid, tid, member, cts, j, m, found).0;
      forall k :: j <= k < |cts| && EdgeFor(cts[k], tid, member) && (forall k' :: k < k' < |cts| ==> !EdgeFor(cts[k'], tid, member)) ==>
        r.c.active == cts[k].2
    decreases |cts| - j
  {
    if j < |cts| {
      var s := m.(c := m.c.(stale := Some(cts[j].2)));
      var n := if EdgeFor(cts[j], tid, member) then Descend(s, activeTid, member, cts[j].2) else s;
      ContainedFromActive(activeTid, tid, member, cts, j + 1, n, EdgeFor(cts[j], tid, member) || found);
    }
  }

  /**
   * With exactly one reverse edge for the member among `cts[j..]`, that edge's object is
   * recorded as the member of the active object and becomes active, `obj` is bound to the
   * last edge, and nothing else changes.
   */
  lemma {:induction false} ContainedSingle(activeTid: TypeId, tid: TypeId, member: int, cts: seq<Edge>, j: nat, m: Machine, found: bool, k0: nat)
    requires Sane(m) && j <= k0 < |cts| && EdgesIn(cts, |m.nodes|)
    requires EdgeFor(cts[k0], tid, member)
    requires forall k :: j <= k < |cts| && k != k0 ==> !EdgeFor(cts[k], tid, member)
    ensures ContainedFrom(activeTid, tid, member, cts, j, m, found) ==
      (Machine(m.nodes[m.c.active := WithUsedMember(m.nodes[m.c.active], activeTid, member, cts[k0].2)], m.counter,
        m.c.(active := cts[k0].2, stale := Some(cts[|cts| - 1].2))), true)
    decreases |cts| - j
  {
    var s := m.(c := m.c.(stale := Some(cts[j].2)));
    if j < k0 {
      ContainedSingle(activeTid, tid, member, cts, j + 1, s, found, k0);
    } else {
      var d := Descend(s, activeTid, member, cts[k0].2);
      var r := ContainedFrom(activeTid, tid, member, cts, j + 1, d, true);
      ContainedFromActive(activeTid, tid, member, cts, j + 1, d, true);
      ContainedFromFound(activeTid, tid, member, cts, j + 1, d, true);
      assert r.0.nodes == d.nodes && r.0.c.active == d.c.active && r.0.counter == d.counter && r.0.c.pool == d.c.pool;
      assert r.0.c == d.c.(stale := Some(cts[|cts| - 1].2));
    }
  }

  method ContainedEdgeStep(arena: Arena, activeTid: TypeId, tid: TypeId, member: int, e: Edge, c: Cursor, found: bool)
    returns (r: Cursor, found': bool)
    requires arena.Valid() && Fits(c, |arena.nodes|) && e.2 < |arena.nodes|
    modifies arena
    ensures arena.Valid() && (StateOf(arena, r), found') == ContainedEdge(activeTid, tid, member, e, old(StateOf(arena, c)), found)
  {
    r := c.(stale := Some(e.2));
    found' := found;
    if EdgeFor(e, tid, member) {
      arena.SetUsedMember(r.active, activeTid, member, e.2);
      r := r.(active := e.2);
      found' := true;
    }
  }

  /** The loop over the active object's `contained_types`. */
  method ContainedStep(arena: Arena, activeTid: TypeId, tid: TypeId, member: int, c: Cursor)
    returns (r: Cursor, found: bool)
    requires arena.Valid() && Fits(c, |arena.nodes|)
    modifies arena
    ensures arena.Valid()
    ensures EdgesIn(old(arena.nodes)[c.active].containedTypes, |old(arena.nodes)|)
    ensures (StateOf(arena, r), found) ==
      ContainedFrom(activeTid, tid, member, old(arena.nodes)[c.active].containedTypes, 0, old(StateOf(arena, c)), false)
  {
    var cts := arena.nodes[c.active].containedTypes;
    assert Closed(arena.nodes[c.active], |arena.nodes|);
    assert forall k :: 0 <= k < |cts| ==> cts[k] in cts;
    r := c;
    found := false;
    var j := 0;
    while j < |cts|
      invariant 0 <= j <= |cts|
      invariant arena.Valid() && Fits(r, |arena.nodes|) && |arena.nodes| == |old(arena.nodes)|
      invariant ContainedFrom(activeTid, tid, member, cts, j, StateOf(arena, r), found) ==
        ContainedFrom(activeTid, tid, member, cts, 0, old(StateOf(arena, c)), false)
    {
      r, found := ContainedEdgeStep(arena, activeTid, tid, member, cts[j], r, found);
      j := j + 1;
    }
  }

  /**
   * A forward declaration accessed as the record `tid` becomes that record: the used members it
   * recorded under `from` are copied to `tid` (`PromoteKey`).
   */
  function PromotedForward(a: Node, from: TypeId, tid: TypeId): (r: Node)
    ensures r.id == a.id && r.offsetofTypes == a.offsetofTypes && r.containedTypes == a.containedTypes
    ensures r.tid == tid && r.originalTid == tid && r.isPointer == a.isPointer && r.castTypes == a.castTypes
    ensures r.usedMembers == PromoteKey(a.usedMembers, from, tid)
  {
    a.(usedMembers := PromoteKey(a.usedMembers, from, tid), tid := tid, originalTid := tid)
  }

  /** The accessed record `tid` takes over an active forward declaration of another id. */
  predicate PromotesForward(db: Db, a: Node, tid: TypeId) {
    TypeOf(db, a.tid).cls == RecordForward && a.tid != tid && TypeOf(db, tid).cls == Record
  }

  /**
   * The loop over the used members of a forward declaration being promoted raises: it reads
   * `obj` while `obj` is unbound (`from` is None), or it stores the entry of `obj.t_id` under
   * the record's id while that key is missing (`PromoteKeyAsWritten`).
   */
  predicate PromotionRaises(um: map<TypeId, map<int, nat>>, from: Option<TypeId>, tid: TypeId) {
    um != map[] && (from.None? || PromoteKeyAsWritten(um, from.value, tid).None?)
  }

  /**
   * No object is known for the member: exactly one new object of the member's type is created
   * and joins the pool; the active object (promoted first when it is a forward declaration of
   * the record) records it as the member under its type, and it becomes active. The flag is
   * a promotion that raises (`PromotionRaises`), in which case nothing but the creation happens.
   */
  function NewMemberRun(db: Db, tid: TypeId, member: int, memberTid: TypeId, m: Machine): (r: (Machine, bool))
    requires Sane(m)
    ensures Sane(r.0) && Grew(m, r.0)
  {
    var h := |m.nodes|;
    var a := m.nodes[m.c.active];
    var n := NewNode(m.counter, RealType(db, memberTid), memberTid, TypeOf(db, memberTid).cls == Pointer);
    var grown := m.nodes + [n];
    AppendClosed(m.nodes, n);
    var c := m.c.(pool := m.c.pool + [h]);
    var obj := if m.c.stale.Some? then Some(m.nodes[m.c.stale.value].tid) else None;
    if PromotesForward(db, a, tid) && PromotionRaises(a.usedMembers, obj, tid) then
      (Machine(grown, m.counter + 1, c), true)
    else
      var from := if obj.Some? then obj.value else a.tid;
      var b := if PromotesForward(db, a, tid) then PromotedForward(a, from, tid) else a;
      assert Closed(a, |grown|) by {
        assert Closed(a, |m.nodes|);
      }
      PromoteKeyClosed(a, from, tid, |grown|);
      assert Closed(b, |grown|);
      WithUsedMemberClosed(b, b.tid, member, h, |grown|);
      SetClosed(grown, m.c.active, WithUsedMember(b, b.tid, member, h));
      (Machine(grown[m.c.active := WithUsedMember(b, b.tid, member, h)], m.counter + 1, c.(active := h)), false)
  }

  /**
   * A new member object is created with the next instance id and added to the pool; a forward
   * declaration that already has used members raises when `obj` is unbound, or when its used
   * members hold `obj.t_id` but not yet the record's id; otherwise the active object
   * (promoted to the record when it was a forward declaration) records the new object as the
   * member, and the new object becomes active. No other object changes.
   */
  lemma NewMemberCreates(db: Db, tid: TypeId, member: int, memberTid: TypeId, m: Machine)
    requires Sane(m)
    ensures var r := NewMemberRun(db, tid, member, memberTid, m);
      |r.0.nodes| == |m.nodes| + 1 && r.0.counter == m.counter + 1 && r.0.c.pool == m.c.pool + [|m.nodes|] &&
      r.0.nodes[|m.nodes|] == NewNode(m.counter, RealType(db, memberTid), memberTid, TypeOf(db, memberTid).cls == Pointer)
    ensures var r := NewMemberRun(db, tid, member, memberTid, m);
      forall x :: 0 <= x < |m.nodes| && x != m.c.active ==> r.0.nodes[x] == m.nodes[x]
    ensures var r := NewMemberRun(db, tid, member, memberTid, m);
      r.1 <==> (PromotesForward(db, m.nodes[m.c.active], tid) && m.nodes[m.c.active].usedMembers != map[] &&
        (m.c.stale.None? || (m.nodes[m.c.stale.value].tid in m.nodes[m.c.active].usedMembers && tid !in m.nodes[m.c.active].usedMembers)))
    ensures var r := NewMemberRun(db, tid, member, memberTid, m);
      !r.1 ==> (r.0.c.active == |m.nodes| &&
        r.0.nodes[m.c.active].tid == (if PromotesForward(db, m.nodes[m.c.active], tid) then tid else m.nodes[m.c.active].tid))
    ensures var r := NewMemberRun(db, tid, member, memberTid, m);
      !r.1 ==> var a := r.0.nodes[m.c.active];
        a.tid in a.usedMembers && member in a.usedMembers[a.tid] && a.usedMembers[a.tid][member] == |m.nodes|
  {
  }

  method NewMember(arena: Arena, db: Db, tid: TypeId, member: int, memberTid: TypeId, c: Cursor)
    returns (r: Cursor, err: bool)
    requires arena.Valid() && Fits(c, |arena.nodes|)
    modifies arena
    ensures arena.Valid() && (StateOf(arena, r), err) == NewMemberRun(db, tid, member, memberTid, old(StateOf(arena, c)))
  {
    var a := arena.nodes[c.active];
    var child := arena.NewTypeUse(RealType(db, memberTid), memberTid, TypeOf(db, memberTid).cls == Pointer);
    ghost var grown := arena.nodes;
    r := c.(pool := c.pool + [child]);
    err := false;
    if PromotesForward(db, a, tid) {
      var obj := if c.stale.Some? then Some(arena.nodes[c.stale.value].tid) else None;
      assert obj == if c.stale.Some? then Some(old(arena.nodes)[c.stale.value].tid) else None;
      if PromotionRaises(a.usedMembers, obj, tid) {
        err := true;
        return;
      }
      var from := if obj.Some? then obj.value else a.tid;
      arena.PromoteForward(c.active, from, tid);
      assert arena.nodes == grown[c.active := PromotedForward(a, from, tid)];
    }
    ghost var b := arena.nodes[c.active];
    assert arena.nodes == grown[c.active := b];
    arena.SetUsedMember(c.active, arena.nodes[c.active].tid, member, child);
    assert arena.nodes == grown[c.active := WithUsedMember(b, b.tid, member, child)];
    r := r.(active := child);
  }

  /**
   * A used member `member` (of type `memberTid`) of record `tid`: an object already recorded for
   * it under the active object's type becomes active; else the objects reached by earlier
   * offsetofs (`ContainedFrom`); else a new object (`NewMemberRun`).
   */
  function UsedMemberRun(db: Db, tid: TypeId, member: int, memberTid: TypeId, m: Machine): (r: (Machine, bool))
    requires Sane(m)
    ensures Sane(r.0) && Grew(m, r.0)
  {
    var n := m.nodes[m.c.active];
    assert Closed(n, |m.nodes|);
    if n.tid in n.usedMembers && member in n.usedMembers[n.tid] then
      (m.(c := m.c.(active := n.usedMembers[n.tid][member])), false)
    else
      var cts := n.containedTypes;
      assert forall k :: 0 <= k < |cts| ==> cts[k] in cts;
      var p := ContainedFrom(n.tid, tid, member, cts, 0, m, false);
      if p.1 then (p.0, false) else NewMemberRun(db, tid, member, memberTid, p.0)
  }

  /**
   * A member created by an access is found by the next access of the same member from the
   * same object: that access creates nothing and reaches the object the first one created.
   */
  lemma UsedMemberReused(db: Db, tid: TypeId, member: int, memberTid: TypeId, m: Machine)
    requires Sane(m)
    requires !UsedMemberRun(db, tid, member, memberTid, m).1 && UsedMemberRun(db, tid, member, memberTid, m).0.counter == m.counter + 1
    ensures var r1 := UsedMemberRun(db, tid, member, memberTid, m).0;
      UsedMemberRun(db, tid, member, memberTid, r1.(c := r1.c.(active := m.c.active))) == (r1, false)
  {
    var n := m.nodes[m.c.active];
    if n.tid in n.usedMembers && member in n.usedMembers[n.tid] {
      assert false;
    }
    assert forall k :: 0 <= k < |n.containedTypes| ==> n.containedTypes[k] in n.containedTypes;
    var p := ContainedFrom(n.tid, tid, member, n.containedTypes, 0, m, false);
    assert !p.1;
    ContainedFromFound(n.tid, tid, member, n.containedTypes, 0, m, false);
    ContainedFromActive(n.tid, tid, member, n.containedTypes, 0, m, false);
    assert p.0.c.active == m.c.active && |p.0.nodes| == |m.nodes|;
    NewMemberCreates(db, tid, member, memberTid, p.0);
    var r1 := NewMemberRun(db, tid, member, memberTid, p.0).0;
    assert r1.c.active == |m.nodes|;
  }

  method UsedMemberStep(arena: Arena, db: Db, tid: TypeId, member: int, memberTid: TypeId, c: Cursor)
    returns (r: Cursor, err: bool)
    requires arena.Valid() && Fits(c, |arena.nodes|)
    modifies arena
    ensures arena.Valid() && (StateOf(arena, r), err) == UsedMemberRun(db, tid, member, memberTid, old(StateOf(arena, c)))
  {
    var n := arena.nodes[c.active];
    assert Closed(n, |arena.nodes|);
    err := false;
    if n.tid in n.usedMembers && member in n.usedMembers[n.tid] {
      r := c.(active := n.usedMembers[n.tid][member]);
      return;
    }
    var found;
    r, found := ContainedStep(arena, n.tid, tid, member, c);
    if !found {
      r, err := NewMember(arena, db, tid, member, memberTid, r);
    }
  }

  /**
   * The members `usedrefs[i..]` of one record of the access, each marked one
   * (`usedrefs[i] != -1`) followed in turn; an error ends the run.
   */
  function UsedRefsFrom(db: Db, tid: TypeId, usedrefs: seq<int>, i: nat, m: Machine): (r: (Machine, bool))
    requires Sane(m) && i <= |usedrefs|
    ensures Sane(r.0) && Grew(m, r.0)
    decreases |usedrefs| - i
  {
    if i == |usedrefs| then (m, false)
    else if usedrefs[i] == -1 then UsedRefsFrom(db, tid, usedrefs, i + 1, m)
    else
      var s := UsedMemberRun(db, tid, i, usedrefs[i], m);
      if s.1 then s else UsedRefsFrom(db, tid, usedrefs, i + 1, s.0)
  }

  method UsedRefsStep(arena: Arena, db: Db, tid: TypeId, usedrefs: seq<int>, c: Cursor) returns (r: Cursor, err: bool)
    requires arena.Valid() && Fits(c, |arena.nodes|)
    modifies arena
    ensures arena.Valid() && (StateOf(arena, r), err) == UsedRefsFrom(db, tid, usedrefs, 0, old(StateOf(arena, c)))
  {
    r := c;
    err := false;
    var i := 0;
    while i < |usedrefs|
      invariant 0 <= i <= |usedrefs|
      invariant arena.Valid() && Fits(r, |arena.nodes|)
      invariant UsedRefsFrom(db, tid, usedrefs, i, StateOf(arena, r)) == UsedRefsFrom(db, tid, usedrefs, 0, old(StateOf(arena, c)))
    {
      if usedrefs[i] != -1 {
        r, err := UsedMemberStep(arena, db, tid, i, usedrefs[i], r);
        if err {
          return;
        }
      }
      i := i + 1;
    }
  }

  /** The result of an interpreter step: the new state, the record `t_id` was last bound to, and whether an error was raised. */
  datatype Outcome = Outcome(m: Machine, bound: Option<TypeId>, err: bool)

  /**
   * The iterations `k..` of `for t_id in access_order`, `bound` being the record `t_id` holds
   * before them: `t_id` is bound to each record in turn and its used members are followed;
   * an error ends the run. A completed run leaves `t_id` bound to the last record.
   */
  function AccessFrom(db: Db, data: Dict<TypeId, Type>, order: seq<TypeId>, k: nat, m: Machine, bound: Option<TypeId>): (r: Outcome)
    requires Sane(m) && k <= |order|
    ensures Sane(r.m) && Grew(m, r.m)
    ensures k == |order| ==> r == Outcome(m, bound, false)
    ensures k < |order| ==> r.bound.Some? && r.bound.value in order
    ensures k < |order| && !r.err ==> r.bound == Some(order[|order| - 1])
    decreases |order| - k
  {
    if k == |order| then Outcome(m, bound, false)
    else if HasKey(data, order[k]) then
      var usedrefs := Get(data, order[k]).usedrefs;
      var u := UsedRefsFrom(db, order[k], usedrefs, 0, m);
      if u.1 then Outcome(u.0, Some(order[k]), true)
      else AccessFrom(db, data, order, k + 1, u.0, Some(order[k]))
    else AccessFrom(db, data, order, k + 1, m, Some(order[k]))
  }

  /**
   * A member-expression deref: the access must start at the active object's type, a type of
   * its cast history, or a type re-targeting finds (else the deref is skipped); then the used
   * members of each record of the access order are followed. A completed access leaves
   * `t_id` bound to the last record of the access order.
   */
  function MemberRun(db: Db, d: Deref, m: Machine): (r: Outcome)
    requires Sane(m)
    ensures Sane(r.m) && Grew(m, r.m)
    ensures MemberAccessFromDeref(db, d).NoAccess? ==> r == Outcome(m, None, false)
    ensures MemberAccessFromDeref(db, d).AccessError? ==> r == Outcome(m, None, true)
    ensures r.bound.Some? ==> MemberAccessFromDeref(db, d).Access? && r.bound.value in MemberAccessFromDeref(db, d).order
    ensures r.bound.Some? && !r.err ==> r.bound == Some(Last(MemberAccessFromDeref(db, d).order, -1))
  {
    var acc := MemberAccessFromDeref(db, d);
    if acc.NoAccess? then Outcome(m, None, false)
    else if acc.AccessError? then Outcome(m, None, true)
    else
      var first := if |acc.order| > 0 && HasKey(acc.data, acc.order[0]) then Get(acc.data, acc.order[0]).id else -1;
      var t := AccessTarget(db, first, m);
      if !t.1 then Outcome(m, None, false)
      else AccessFrom(db, acc.data, acc.order, 0, t.0, None)
  }

  /**
   * Before a member access whose first record is `first`: when the active object's type
   * (the pointed-to types, for a pointer) needs matching and `first` is not in its cast
   * history, the object of type `first` is looked up and made active; false when there is
   * not exactly one, and the access is skipped.
   */
  function AccessTarget(db: Db, first: TypeId, m: Machine): (r: (Machine, bool))
    requires Sane(m)
    ensures Sane(r.0) && SameShape(m, r.0) && r.0.c.stale == m.c.stale
    ensures !r.1 ==> r.0 == m
  {
    var n := m.nodes[m.c.active];
    var first2 := if n.isPointer then RealType(db, first) else first;
    var act2 := if n.isPointer then RealType(db, n.tid) else n.tid;
    if NeedsMatch(db, first, n.tid, first2, act2) && !InCastHistory(db, first, first2, n.castTypes, false)
    then Retargeted(db, first, m) else (m, true)
  }

  method TargetStep(arena: Arena, db: Db, first: TypeId, c: Cursor) returns (r: Cursor, ok: bool)
    requires arena.Valid() && Fits(c, |arena.nodes|)
    modifies arena
    ensures arena.Valid() && (StateOf(arena, r), ok) == AccessTarget(db, first, old(StateOf(arena, c)))
  {
    r, ok := c, true;
    var n := arena.nodes[c.active];
    var first2 := if n.isPointer then RealType(db, first) else first;
    var act2 := if n.isPointer then RealType(db, n.tid) else n.tid;
    if NeedsMatch(db, first, n.tid, first2, act2) {
      var known := SearchCastHistory(db, first, first2, n.castTypes, false);
      if !known {
        r, ok := Retarget(arena, db, first, c);
      }
    }
  }

  method MemberStep(arena: Arena, db: Db, d: Deref, c: Cursor) returns (r: Cursor, bound: Option<TypeId>, err: bool)
    requires arena.Valid() && Fits(c, |arena.nodes|)
    modifies arena
    ensures arena.Valid() && Outcome(StateOf(arena, r), bound, err) == MemberRun(db, d, old(StateOf(arena, c)))
  {
    r := c;
    bound := None;
    err := false;
    var acc := MemberAccessFromDeref(db, d);
    if acc.NoAccess? {
      return;
    }
    if acc.AccessError? {
      err := true;
      return;
    }
    var data, order := acc.data, acc.order;
    var first := if |order| > 0 && HasKey(data, order[0]) then Get(data, order[0]).id else -1;
    var ok;
    r, ok := TargetStep(arena, db, first, c);
    if !ok {
      return;
    }
    r, bound, err := AccessStep(arena, db, data, order, r);
  }

  /** The loop `for t_id in access_order`. */
  method AccessStep(arena: Arena, db: Db, data: Dict<TypeId, Type>, order: seq<TypeId>, c: Cursor)
    returns (r: Cursor, bound: Option<TypeId>, err: bool)
    requires arena.Valid() && Fits(c, |arena.nodes|)
    modifies arena
    ensures arena.Valid() && Outcome(StateOf(arena, r), bound, err) == AccessFrom(db, data, order, 0, old(StateOf(arena, c)), None)
  {
    r, bound, err := c, None, false;
    var k := 0;
    while k < |order|
      invariant 0 <= k <= |order|
      invariant arena.Valid() && Fits(r, |arena.nodes|)
      invariant AccessFrom(db, data, order, k, StateOf(arena, r), bound) == AccessFrom(db, data, order, 0, old(StateOf(arena, c)), None)
    {
      bound := Some(order[k]);
      if HasKey(data, order[k]) {
        r, err := UsedRefsStep(arena, db, order[k], Get(data, order[k]).usedrefs, r);
        if err {
          return;
        }
      }
      k := k + 1;
    }
  }

  // ---------------------------------------------------------------------------
  // The interpreter

  /** One trace entry: cast data if it has any, else an offsetof if it is one, else a member access. */
  function TraceStepRun(db: Db, e: TraceEntry, m: Machine): (r: Outcome)
    requires e.1 in db.functions && Sane(m)
    ensures Sane(r.m) && Grew(m, r.m)
  {
    var cd := CastFromDeref(db, e.0, db.functions[e.1]);
    if cd.Some? then
      CastFromDerefInv(db, e.0, db.functions[e.1]);
      Outcome(CastDerefRun(db, cd.value, m), None, false)
    else if OffsetofFromDeref(db, e.0).Some? then Outcome(OffsetofRun(db, e.0, m), None, false)
    else MemberRun(db, e.0, m)
  }

  method TraceStep(arena: Arena, db: Db, e: TraceEntry, c: Cursor) returns (r: Cursor, bound: Option<TypeId>, err: bool)
    requires e.1 in db.functions
    requires arena.Valid() && Fits(c, |arena.nodes|)
    modifies arena
    ensures arena.Valid() && Outcome(StateOf(arena, r), bound, err) == TraceStepRun(db, e, old(StateOf(arena, c)))
  {
    var cd := CastFromDeref(db, e.0, db.functions[e.1]);
    bound := None;
    err := false;
    if cd.Some? {
      CastFromDerefInv(db, e.0, db.functions[e.1]);
      r := CastDerefStep(arena, db, cd.value, c);
    } else if OffsetofFromDeref(db, e.0).Some? {
      r := OffsetofStep(arena, db, e.0, c);
    } else {
      r, bound, err := MemberStep(arena, db, e.0, c);
    }
  }

  /**
   * The entries `trace[i..]` interpreted in order, `bound` being the record `t_id` holds before
   * them; `t_id` keeps the record it was last bound to by a member access; an error ends the run.
   */
  function TraceFrom(db: Db, trace: seq<TraceEntry>, i: nat, m: Machine, bound: Option<TypeId>): (r: Outcome)
    requires Sound(db, trace) && i <= |trace| && Sane(m)
    ensures Sane(r.m) && Grew(m, r.m)
    decreases |trace| - i
  {
    if i == |trace| then Outcome(m, bound, false)
    else
      var s := TraceStepRun(db, trace[i], m);
      var b := if s.bound.Some? then s.bound else bound;
      if s.err then Outcome(s.m, b, true) else TraceFrom(db, trace, i + 1, s.m, b)
  }

  /** A fresh base object of the parameter type (its real type, a pointer when the type is one): the whole pool and the active object. */
  function ArgStart(db: Db, argTid: TypeId, nodes: seq<Node>, counter: nat, stale: Option<nat>): (m: Machine)
    requires AllClosed(nodes) && (stale.Some? ==> stale.value < |nodes|)
    ensures Sane(m)
  {
    var n := NewNode(counter, RealType(db, argTid), argTid, TypeOf(db, argTid).cls == Pointer);
    AppendClosed(nodes, n);
    Machine(nodes + [n], counter + 1, Cursor(|nodes|, [|nodes|], stale))
  }

  /** The trace interpreted for one parameter type, from its base object `|nodes|`. */
  function ArgRun(db: Db, trace: seq<TraceEntry>, argTid: TypeId, nodes: seq<Node>, counter: nat, stale: Option<nat>): (r: Outcome)
    requires Sound(db, trace) && AllClosed(nodes) && (stale.Some? ==> stale.value < |nodes|)
    ensures Sane(r.m) && |nodes| < |r.m.nodes| && counter < r.m.counter
  {
    TraceFrom(db, trace, 0, ArgStart(db, argTid, nodes, counter, stale), None)
  }

  /**
   * The trace run for one parameter type. Returns the base object, the object last bound to
   * `obj`, and the record `t_id` was last bound to by a member access, if any.
   */
  method ParseArg(arena: Arena, db: Db, trace: seq<TraceEntry>, argTid: TypeId, stale: Option<nat>)
    returns (base: nat, staleOut: Option<nat>, bound: Option<TypeId>, err: bool)
    requires Sound(db, trace)
    requires arena.Valid() && (stale.Some? ==> stale.value < |arena.nodes|)
    modifies arena
    ensures arena.Valid() && base == |old(arena.nodes)|
    ensures var o := ArgRun(db, trace, argTid, old(arena.nodes), old(arena.instanceId), stale);
      arena.nodes == o.m.nodes && arena.instanceId == o.m.counter && staleOut == o.m.c.stale && bound == o.bound && err == o.err
  {
    ghost var goal := ArgRun(db, trace, argTid, arena.nodes, arena.instanceId, stale);
    base := arena.NewTypeUse(RealType(db, argTid), argTid, TypeOf(db, argTid).cls == Pointer);
    var c := Cursor(base, [base], stale);
    bound := None;
    err := false;
    var i := 0;
    while i < |trace|
      invariant 0 <= i <= |trace|
      invariant arena.Valid() && Fits(c, |arena.nodes|)
      invariant TraceFrom(db, trace, i, StateOf(arena, c), bound) == goal
    {
      var r, b;
      r, b, err := TraceStep(arena, db, trace[i], c);
      c := r;
      if b.Some? {
        bound := b;
      }
      if err {
        staleOut := c.stale;
        return;
      }
      i := i + 1;
    }
    staleOut := c.stale;
  }

  /** The parameter types (`types[1:]`) followed by the extra types given. */
  function ArgTids(f: Function, tids: Option<seq<TypeId>>): seq<TypeId> {
    (if |f.types| > 0 then f.types[1..] else []) + (if tids.Some? then tids.value else [])
  }

  /** The objects, the counter, the object bound to `obj`, the pairs reported so far, and whether an error was raised. */
  datatype Parsed = Parsed(nodes: seq<Node>, counter: nat, stale: Option<nat>, pairs: seq<(TypeId, nat)>, err: bool)

  /**
   * The parameter types `argTids[i..]` interpreted in turn from `p`, each from a fresh base
   * object, with `obj` carried from one to the next; each is reported after the pairs of `p`
   * with its base object. An error ends the run. The base objects are new and increasing.
   */
  function ArgsFrom(db: Db, trace: seq<TraceEntry>, argTids: seq<TypeId>, i: nat, p: Parsed): (r: Parsed)
    requires Sound(db, trace) && i <= |argTids| && AllClosed(p.nodes) && (p.stale.Some? ==> p.stale.value < |p.nodes|)
    ensures AllClosed(r.nodes) && (r.stale.Some? ==> r.stale.value < |r.nodes|) && |p.nodes| <= |r.nodes|
    decreases |argTids| - i
  {
    if i == |argTids| then p
    else
      var o := ArgRun(db, trace, argTids[i], p.nodes, p.counter, p.stale);
      if o.err then Parsed(o.m.nodes, o.m.counter, o.m.c.stale, p.pairs, true)
      else ArgsFrom(db, trace, argTids, i + 1, Parsed(o.m.nodes, o.m.counter, o.m.c.stale, p.pairs + [(argTids[i], |p.nodes|)], false))
  }

  /** A run without error adds one pair per parameter type of `argTids[i..]` after the pairs of `p`. */
  lemma {:induction false} ArgsFromPairsLength(db: Db, trace: seq<TraceEntry>, argTids: seq<TypeId>, i: nat, p: Parsed)
    requires Sound(db, trace) && i <= |argTids| && AllClosed(p.nodes) && (p.stale.Some? ==> p.stale.value < |p.nodes|)
    ensures var r := ArgsFrom(db, trace, argTids, i, p);
      !r.err ==> |r.pairs| == |p.pairs| + |argTids| - i && r.pairs[..|p.pairs|] == p.pairs
    decreases |argTids| - i
  {
    if i < |argTids| {
      var o := ArgRun(db, trace, argTids[i], p.nodes, p.counter, p.stale);
      if !o.err {
        var q := Parsed(o.m.nodes, o.m.counter, o.m.c.stale, p.pairs + [(argTids[i], |p.nodes|)], false);
        ArgsFromPairsLength(db, trace, argTids, i + 1, q);
        var r := ArgsFrom(db, trace, argTids, i + 1, q);
        if !r.err {
          assert r.pairs[..|q.pairs|][..|p.pairs|] == r.pairs[..|p.pairs|];
        }
      }
    }
  }

  /** A run without error reports the parameter types of `argTids[i..]`, in order, after the pairs of `p`. */
  lemma {:induction false} ArgsFromTypes(db: Db, trace: seq<TraceEntry>, argTids: seq<TypeId>, i: nat, p: Parsed)
    requires Sound(db, trace) && i <= |argTids| && AllClosed(p.nodes) && (p.stale.Some? ==> p.stale.value < |p.nodes|)
    ensures var r := ArgsFrom(db, trace, argTids, i, p);
      !r.err ==> (|r.pairs| == |p.pairs| + |argTids| - i &&
        forall k :: |p.pairs| <= k < |r.pairs| ==> r.pairs[k].0 == argTids[i + k - |p.pairs|])
    decreases |argTids| - i
  {
    ArgsFromPairsLength(db, trace, argTids, i, p);
    if i < |argTids| {
      var o := ArgRun(db, trace, argTids[i], p.nodes, p.counter, p.stale);
      if !o.err {
        var q := Parsed(o.m.nodes, o.m.counter, o.m.c.stale, p.pairs + [(argTids[i], |p.nodes|)], false);
        ArgsFromTypes(db, trace, argTids, i + 1, q);
        ArgsFromPairsLength(db, trace, argTids, i + 1, q);
        var r := ArgsFrom(db, trace, argTids, i + 1, q);
        if !r.err {
          assert r.pairs[..|q.pairs|][|p.pairs|] == r.pairs[|p.pairs|];
        }
      }
    }
  }

  /** A run without error gives every pair it adds a base object created during the run. */
  lemma {:induction false} ArgsFromBases(db: Db, trace: seq<TraceEntry>, argTids: seq<TypeId>, i: nat, p: Parsed)
    requires Sound(db, trace) && i <= |argTids| && AllClosed(p.nodes) && (p.stale.Some? ==> p.stale.value < |p.nodes|)
    ensures var r := ArgsFrom(db, trace, argTids, i, p);
      !r.err ==> forall k :: |p.pairs| <= k < |r.pairs| ==> |p.nodes| <= r.pairs[k].1 < |r.nodes|
    decreases |argTids| - i
  {
    ArgsFromPairsLength(db, trace, argTids, i, p);
    if i < |argTids| {
      var o := ArgRun(db, trace, argTids[i], p.nodes, p.counter, p.stale);
      if !o.err {
        var q := Parsed(o.m.nodes, o.m.counter, o.m.c.stale, p.pairs + [(argTids[i], |p.nodes|)], false);
        ArgsFromBases(db, trace, argTids, i + 1, q);
        ArgsFromPairsLength(db, trace, argTids, i + 1, q);
        var r := ArgsFrom(db, trace, argTids, i + 1, q);
        assert ArgsFrom(db, trace, argTids, i, p) == r;
        if !r.err {
          forall k | |p.pairs| <= k < |r.pairs| ensures |p.nodes| <= r.pairs[k].1 < |r.nodes| {
            if k == |p.pairs| {
              assert r.pairs[k] == r.pairs[..|q.pairs|][k] == (argTids[i], |p.nodes|);
            }
          }
        }
      }
    }
  }

  /** The base objects of the pairs a run without error adds are increasing. */
  lemma {:induction false} ArgsFromBasesIncrease(db: Db, trace: seq<TraceEntry>, argTids: seq<TypeId>, i: nat, p: Parsed)
    requires Sound(db, trace) && i <= |argTids| && AllClosed(p.nodes) && (p.stale.Some? ==> p.stale.value < |p.nodes|)
    ensures var r := ArgsFrom(db, trace, argTids, i, p);
      !r.err ==> forall k, k' :: |p.pairs| <= k < k' < |r.pairs| ==> r.pairs[k].1 < r.pairs[k'].1
    decreases |argTids| - i
  {
    if i < |argTids| {
      var o := ArgRun(db, trace, argTids[i], p.nodes, p.counter, p.stale);
      if !o.err {
        var q := Parsed(o.m.nodes, o.m.counter, o.m.c.stale, p.pairs + [(argTids[i], |p.nodes|)], false);
        ArgsFromBases(db, trace, argTids, i + 1, q);
        ArgsFromPairsLength(db, trace, argTids, i + 1, q);
        ArgsFromBasesIncrease(db, trace, argTids, i + 1, q);
        var r := ArgsFrom(db, trace, argTids, i + 1, q);
        if !r.err {
          assert r.pairs[..|q.pairs|][|p.pairs|] == r.pairs[|p.pairs|];
        }
      }
    }
  }

  /**
   * A run from no pairs that raises nothing reports every parameter type, in order, each with
   * a base object created during the run, the base objects increasing.
   */
  lemma ArgsReported(db: Db, trace: seq<TraceEntry>, argTids: seq<TypeId>, nodes: seq<Node>, counter: nat)
    requires Sound(db, trace) && AllClosed(nodes)
    ensures var p := ArgsFrom(db, trace, argTids, 0, Parsed(nodes, counter, None, [], false));
      !p.err ==> (|p.pairs| == |argTids| &&
        (forall i :: 0 <= i < |p.pairs| ==> p.pairs[i].0 == argTids[i] && |nodes| <= p.pairs[i].1 < |p.nodes|) &&
        (forall i, j :: 0 <= i < j < |p.pairs| ==> p.pairs[i].1 < p.pairs[j].1))
  {
    var p0 := Parsed(nodes, counter, None, [], false);
    var p := ArgsFrom(db, trace, argTids, 0, p0);
    ArgsFromTypes(db, trace, argTids, 0, p0);
    ArgsFromBases(db, trace, argTids, 0, p0);
    ArgsFromBasesIncrease(db, trace, argTids, 0, p0);
    assert |p0.pairs| == 0 && |p0.nodes| == |nodes|;
  }

  /**
   * `_parse_derefs_trace(f_id, functions, tids)`: the trace is collected, then interpreted once
   * per parameter (and extra) type; the result pairs each type with its base object. `None`
   * stands for a raised error (a function missing from the database, a member resolved to two
   * types, or the read of an unbound `obj`).
   */
  method ParseDerefsTrace(arena: Arena, collector: TraceCollector, fid: FuncId, functions: set<FuncId>, tids: Option<seq<TypeId>>)
    returns (r: Option<seq<(TypeId, nat)>>)
    requires arena.Valid() && collector.CacheSound()
    modifies arena, collector
    ensures arena.Valid() && collector.CacheSound()
    ensures fid !in collector.db.functions ==> r.None?
    ensures var c := Collect(collector.db, fid, functions, old(collector.traceCache));
      collector.traceCache == c.1 &&
      (fid in collector.db.functions ==>
         c.0 == Expansion(fid, RepairedObjs(collector.db, collector.db.functions[fid], functions), collector.traceCache))
    ensures fid in collector.db.functions ==>
      var f := collector.db.functions[fid];
      var trace := Expansion(fid, RepairedObjs(collector.db, f, functions), collector.traceCache);
      Sound(collector.db, trace) &&
      (var p := ArgsFrom(collector.db, trace, ArgTids(f, tids), 0, Parsed(old(arena.nodes), old(arena.instanceId), None, [], false));
       arena.nodes == p.nodes && arena.instanceId == p.counter && r == (if p.err then None else Some(p.pairs)))
    ensures r.Some? ==> fid in collector.db.functions && |r.value| == |ArgTids(collector.db.functions[fid], tids)|
    ensures r.Some? ==> forall i :: 0 <= i < |r.value| ==>
      r.value[i].0 == ArgTids(collector.db.functions[fid], tids)[i] && |old(arena.nodes)| <= r.value[i].1 < |arena.nodes|
    ensures r.Some? ==> forall i, j :: 0 <= i < j < |r.value| ==> r.value[i].1 < r.value[j].1
  {
    var trace := collector.CollectDerefsTrace(fid, functions);
    var db := collector.db;
    if fid !in db.functions {
      return None;
    }
    var argTids := ArgTids(db.functions[fid], tids);
    r := ParseArgs(arena, db, trace, argTids);
  }

  /** The loop over the parameter types: one trace run each, `obj` carried from one to the next. */
  method ParseArgs(arena: Arena, db: Db, trace: seq<TraceEntry>, argTids: seq<TypeId>) returns (r: Option<seq<(TypeId, nat)>>)
    requires Sound(db, trace) && arena.Valid()
    modifies arena
    ensures arena.Valid()
    ensures var p := ArgsFrom(db, trace, argTids, 0, Parsed(old(arena.nodes), old(arena.instanceId), None, [], false));
      arena.nodes == p.nodes && arena.instanceId == p.counter && r == (if p.err then None else Some(p.pairs))
    ensures r.Some? ==> |r.value| == |argTids|
    ensures r.Some? ==> forall i :: 0 <= i < |r.value| ==>
      r.value[i].0 == argTids[i] && |old(arena.nodes)| <= r.value[i].1 < |arena.nodes|
    ensures r.Some? ==> forall i, j :: 0 <= i < j < |r.value| ==> r.value[i].1 < r.value[j].1
  {
    ArgsReported(db, trace, argTids, arena.nodes, arena.instanceId);
    r := ParseArgsLoop(arena, db, trace, argTids);
  }

  /** The loop of ParseArgs itself. */
  method ParseArgsLoop(arena: Arena, db: Db, trace: seq<TraceEntry>, argTids: seq<TypeId>) returns (r: Option<seq<(TypeId, nat)>>)
    requires Sound(db, trace) && arena.Valid()
    modifies arena
    ensures arena.Valid()
    ensures var p := ArgsFrom(db, trace, argTids, 0, Parsed(old(arena.nodes), old(arena.instanceId), None, [], false));
      arena.nodes == p.nodes && arena.instanceId == p.counter && r == (if p.err then None else Some(p.pairs))
  {
    ghost var goal := ArgsFrom(db, trace, argTids, 0, Parsed(arena.nodes, arena.instanceId, None, [], false));
    var ret: seq<(TypeId, nat)> := [];
    var stale: Option<nat> := None;
    var i := 0;
    while i < |argTids|
      invariant 0 <= i <= |argTids|
      invariant arena.Valid() && (stale.Some? ==> stale.value < |arena.nodes|)
      invariant ArgsFrom(db, trace, argTids, i, Parsed(arena.nodes, arena.instanceId, stale, ret, false)) == goal
    {
      var base, stale2, bound, err := ParseArg(arena, db, trace, argTids[i], stale);
      if err {
        return None;
      }
      stale := stale2;
      ret := ret + [(argTids[i], base)];
      i := i + 1;
    }
    r := Some(ret);
  }

  /**
   * The pair the source appends, `(t_id, base_obj)`, reads `t_id` after the trace loop: the
   * inner `for t_id in access_order` has rebound it whenever a member access was followed.
   * The pair is the parameter's own exactly when no access rebound `t_id` to another record.
   */
  function ReportedPairAsWritten(argTid: TypeId, bound: Option<TypeId>, base: nat): (p: (TypeId, nat))
    ensures p.1 == base
    ensures p.0 == argTid <==> bound.None? || bound.value == argTid
  {
    ((if bound.Some? then bound.value else argTid), base)
  }

  /**
   * Whatever state the entries before it leave, a last trace entry that is a member access
   * starting at the active object's own type and completing makes the source report the
   * last record of that access with the base object, and so not the parameter type when
   * that record is another.
   */
  lemma ReportedPairRebound(db: Db, trace: seq<TraceEntry>, argTid: TypeId, base: nat, m: Machine, bound: Option<TypeId>)
    requires Sound(db, trace) && |trace| > 0 && Sane(m)
    requires var e := trace[|trace| - 1];
      CastFromDeref(db, e.0, db.functions[e.1]).None? && e.0.kind != KOffsetof && MemberAccessFromDeref(db, e.0).Access?
    requires var acc := MemberAccessFromDeref(db, trace[|trace| - 1].0);
      |acc.order| > 0 && HasKey(acc.data, acc.order[0]) && Get(acc.data, acc.order[0]).id == m.nodes[m.c.active].tid
    requires !TraceFrom(db, trace, |trace| - 1, m, bound).err
    ensures var acc := MemberAccessFromDeref(db, trace[|trace| - 1].0);
      ReportedPairAsWritten(argTid, TraceFrom(db, trace, |trace| - 1, m, bound).bound, base) == (Last(acc.order, -1), base)
    ensures var acc := MemberAccessFromDeref(db, trace[|trace| - 1].0);
      Last(acc.order, -1) != argTid ==> ReportedPairAsWritten(argTid, TraceFrom(db, trace, |trace| - 1, m, bound).bound, base) != (argTid, base)
  {
    var e := trace[|trace| - 1];
    var acc := MemberAccessFromDeref(db, e.0);
    var s := MemberRun(db, e.0, m);
    assert TraceStepRun(db, e, m) == s;
    assert s == AccessFrom(db, acc.data, acc.order, 0, m, None);
  }
}
