/**
 * The member initialisation order of a record and the value constraints of its members,
 * derived from the size evidence (`_get_members_order`), and the clamp emitted for a
 * constrained variable (`_generate_constraints_check`).
 */
module MembersOrder {

  import opened Basics
  import opened Ir
  import opened TypePredicates
  import opened SizeInfo

  /**
   * The constraint dictionary of one member; each field is a key that may be absent.
   * `sizeMember`: the member holding this member's size, chosen by name; `sizeMemberIdx`: the
   * same, chosen by index evidence; `minVal`/`maxVal`: the range of this member's value;
   * `sizeValue`: a constant element count for this member.
   */
  datatype Constraint = Constraint(
    sizeMember: Option<int>,
    sizeMemberIdx: Option<int>,
    minVal: Option<int>,
    maxVal: Option<int>,
    sizeValue: Option<int>)

  /** An empty constraint dictionary `{}`. */
  const NoConstraint: Constraint := Constraint(None, None, None, None, None)

  /** Member names the generator never initialises on their own. */
  predicate IsSpecialName(name: string) {
    name == "__!attribute__" || name == "__!anonrecord__" || name == "__!recorddecl__" || name == "__!anonenum__"
  }

  // ---------------------------------------------------------------------------
  // Choosing the size member

  /** What the evidence of one member decides about its size. */
  datatype Choice =
    | ByName(j: int)          // a single size member, recorded as `size_member`
    | ByIndex(j: int)         // a single size member, recorded as `size_member_idx`
    | Candidates(js: seq<int>) // several name candidates and nothing to pick one: no constraint, only reordering
    | ConstSize(v: int)       // a constant element count, `size_value`
    | NoChoice

  /** The single (record, member) pair of `e`, when there is exactly one and it belongs to record `tid`. */
  function SingleOf(tid: TypeId, e: Option<seq<(TypeId, int)>>): (r: Option<int>)
    ensures r.Some? <==> e.Some? && |e.value| == 1 && e.value[0].0 == tid
    ensures r.Some? ==> (tid, r.value) == e.value[0]
  {
    if e.Some? && |e.value| == 1 && e.value[0].0 == tid then Some(e.value[0].1) else None
  }

  /** The name candidate confirmed by a single pair of index evidence `e`. */
  function Confirmed(tid: TypeId, ns: seq<int>, e: Option<seq<(TypeId, int)>>): (r: Option<int>)
    ensures r.Some? <==> SingleOf(tid, e).Some? && SingleOf(tid, e).value in ns
    ensures r.Some? ==> r == SingleOf(tid, e) && r.value in ns
  {
    var s := SingleOf(tid, e);
    if s.Some? && s.value in ns then s else None
  }

  /** The loop over the name candidates looking for the one the single pair of `e` names. */
  method FindConfirmed(tid: TypeId, ns: seq<int>, e: Option<seq<(TypeId, int)>>) returns (r: Option<int>)
    ensures r == Confirmed(tid, ns, e)
  {
    r := None;
    if e.Some? && |e.value| == 1 {
      var k := 0;
      while k < |ns|
        invariant 0 <= k <= |ns|
        invariant e.value[0].0 != tid || e.value[0].1 !in ns[..k]
      {
        var item := e.value[0];
        if item.0 == tid && ns[k] == item.1 {
          r := Some(ns[k]);
          return;
        }
        assert ns[..k + 1] == ns[..k] + [ns[k]];
        k := k + 1;
      }
      assert ns[..|ns|] == ns;
    }
  }

  /** `abs(x)`. */
  function Abs(x: int): (r: nat)
    ensures r == x || r == -x
  {
    if x < 0 then -x else x
  }

  /**
   * The decision for a member with evidence `u` in record `tid`: name candidates first (one, or
   * the one a single index or size pair confirms), then a single index pair, then a single size
   * pair, then a non-zero constant size.
   */
  function Choose(tid: TypeId, u: Usage): (c: Choice)
    ensures c.ByName? ==> u.nameSize.Some? && c.j in u.nameSize.value
    ensures c.ByName? && |u.nameSize.value| != 1 ==>
      Some(c.j) == SingleOf(tid, u.memberIdx) || Some(c.j) == SingleOf(tid, u.memberSize)
    ensures c.Candidates? ==> u.nameSize == Some(c.js) && |c.js| != 1
    ensures u.nameSize.Some? <==> c.ByName? || c.Candidates?
    ensures c.ByIndex? <==> u.nameSize.None? && (SingleOf(tid, u.memberIdx).Some? || SingleOf(tid, u.memberSize).Some?)
    ensures c.ByIndex? ==> Some(c.j) == SingleOf(tid, u.memberIdx) || Some(c.j) == SingleOf(tid, u.memberSize)
    ensures c.ConstSize? ==> u.value.Some? && c.v > 0 && (c.v == u.value.value || c.v == -u.value.value)
    ensures c.NoChoice? <==>
      u.nameSize.None? && SingleOf(tid, u.memberIdx).None? && SingleOf(tid, u.memberSize).None? &&
      (u.value.None? || u.value.value == 0)
  {
    if u.nameSize.Some? then
      var ns := u.nameSize.value;
      if |ns| == 1 then ByName(ns[0])
      else if Confirmed(tid, ns, u.memberIdx).Some? then ByName(Confirmed(tid, ns, u.memberIdx).value)
      else if Confirmed(tid, ns, u.memberSize).Some? then ByName(Confirmed(tid, ns, u.memberSize).value)
      else Candidates(ns)
    else if SingleOf(tid, u.memberIdx).Some? then ByIndex(SingleOf(tid, u.memberIdx).value)
    else if SingleOf(tid, u.memberSize).Some? then ByIndex(SingleOf(tid, u.memberSize).value)
    else if u.value.Some? && u.value.value != 0 then ConstSize(Abs(u.value.value))
    else NoChoice
  }

  /** The branches of the source that pick the size member, in their order. */
  method ChooseSizeMember(tid: TypeId, u: Usage) returns (c: Choice)
    ensures c == Choose(tid, u)
  {
    var matched := false;
    c := NoChoice;
    if u.nameSize.Some? {
      var ns := u.nameSize.value;
      if |ns| == 1 {
        c := ByName(ns[0]);
      } else {
        var m := FindConfirmed(tid, ns, u.memberIdx);
        if m.None? {
          m := FindConfirmed(tid, ns, u.memberSize);
        }
        c := if m.Some? then ByName(m.value) else Candidates(ns);
      }
      matched := true;
    }
    if !matched && u.memberIdx.Some? {
      var s := SingleOf(tid, u.memberIdx);
      if s.Some? {
        c := ByIndex(s.value);
        matched := true;
      }
    }
    if !matched && u.memberSize.Some? {
      var s := SingleOf(tid, u.memberSize);
      if s.Some? {
        c := ByIndex(s.value);
        matched := true;
      }
    }
    if !matched && u.value.Some? {
      var v := Abs(u.value.value);
      if v != 0 {
        c := ConstSize(v);
      }
    }
  }

  /** The upper bound given to a size member: the positive `value` evidence, else `array_init_max_size`. */
  function MaxVal(u: Usage): (m: int)
    ensures m >= 1
    ensures m == ArrayInitMaxSize || (u.value == Some(m) && m > 0)
    ensures u.value.Some? && u.value.value > 0 ==> m == u.value.value
  {
    if u.value.Some? && u.value.value > 0 then u.value.value else ArrayInitMaxSize
  }

  /** The constraints a chosen size member receives: its dictionary is replaced by a range from 1 to `MaxVal`. */
  function SizeRange(u: Usage): Constraint {
    NoConstraint.(minVal := Some(1), maxVal := Some(MaxVal(u)))
  }

  /**
   * The constraints after the choice for member `i`: the member records its size member or
   * constant size, and the size member's dictionary is reset to the size range (the membership
   * test guarding the reset compares a number with a list of dictionaries, so the reset always
   * happens, also when the size member is `i` itself). A size member out of range is not written.
   */
  function ApplyChoice(sc: seq<Constraint>, i: nat, c: Choice, u: Usage): (r: seq<Constraint>)
    requires i < |sc|
    ensures |r| == |sc|
    ensures (c.ByName? || c.ByIndex?) && 0 <= c.j < |sc| ==> r[c.j] == SizeRange(u)
    ensures c.ByName? && c.j != i ==> r[i] == sc[i].(sizeMember := Some(c.j))
    ensures c.ByIndex? && c.j != i ==> r[i] == sc[i].(sizeMemberIdx := Some(c.j))
    ensures c.ConstSize? ==> r == sc[i := sc[i].(sizeValue := Some(c.v))]
    ensures c.Candidates? || c.NoChoice? ==> r == sc
    ensures forall k :: 0 <= k < |sc| && k != i && !((c.ByName? || c.ByIndex?) && k == c.j) ==> r[k] == sc[k]
  {
    match c
    case ByName(j) => UpdateAt(sc[i := sc[i].(sizeMember := Some(j))], j, SizeRange(u))
    case ByIndex(j) => UpdateAt(sc[i := sc[i].(sizeMemberIdx := Some(j))], j, SizeRange(u))
    case ConstSize(v) => sc[i := sc[i].(sizeValue := Some(v))]
    case _ => sc
  }

  /** The members that must be initialised before member `i` under choice `c`. */
  function SizeMembers(c: Choice): (js: seq<int>)
    ensures c.ByName? || c.ByIndex? ==> js == [c.j]
    ensures c.Candidates? ==> js == c.js
    ensures c.ConstSize? || c.NoChoice? ==> js == []
  {
    match c
    case ByName(j) => [j]
    case ByIndex(j) => [j]
    case Candidates(js) => js
    case _ => []
  }

  // ---------------------------------------------------------------------------
  // Reordering

  /** Positions `cur` and `sm` of the order exchange their contents. */
  function Exchange(ret: seq<int>, cur: nat, sm: nat): (r: seq<int>)
    requires cur < |ret| && sm < |ret|
    ensures |r| == |ret| && r[cur] == ret[sm] && r[sm] == ret[cur]
    ensures forall k :: 0 <= k < |ret| && k != cur && k != sm ==> r[k] == ret[k]
  {
    ret[cur := ret[sm]][sm := ret[cur]]
  }

  lemma ExchangePermutes(ret: seq<int>, cur: nat, sm: nat)
    requires cur < |ret| && sm < |ret|
    ensures multiset(Exchange(ret, cur, sm)) == multiset(ret)
  {
    if cur != sm {
      var mid := ret[cur := ret[sm]];
      assert multiset(mid) == multiset(ret) - multiset{ret[cur]} + multiset{ret[sm]};
      assert mid[sm] == ret[sm];
      assert multiset(mid[sm := ret[cur]]) == multiset(mid) - multiset{ret[sm]} + multiset{ret[cur]};
    }
  }

  /**
   * The swap loop for member `cur` over its size members `js`: each size member placed after the
   * current position moves in front, and the walk continues from it. A size member beyond the end
   * of the order, where the source would raise IndexError, is skipped.
   */
  function Swaps(ret: seq<int>, cur: nat, js: seq<int>): (r: seq<int>)
    requires cur < |ret|
    ensures |r| == |ret|
    decreases |js|
  {
    if |js| == 0 then ret
    else if cur < js[0] < |ret| then Swaps(Exchange(ret, cur, js[0]), js[0], js[1..])
    else Swaps(ret, cur, js[1..])
  }

  /** Reordering never loses or duplicates a member. */
  lemma {:induction false} SwapsPermutes(ret: seq<int>, cur: nat, js: seq<int>)
    requires cur < |ret|
    ensures multiset(Swaps(ret, cur, js)) == multiset(ret)
    decreases |js|
  {
    if |js| > 0 {
      if cur < js[0] < |ret| {
        ExchangePermutes(ret, cur, js[0]);
        SwapsPermutes(Exchange(ret, cur, js[0]), js[0], js[1..]);
      } else {
        SwapsPermutes(ret, cur, js[1..]);
      }
    }
  }

  /** A single size member `j` after member `i`, both still in place, exchanges positions `i` and `j`. */
  lemma SingleSwap(ret: seq<int>, i: nat, j: nat)
    requires i < j < |ret| && ret[i] == i && ret[j] == j
    ensures Swaps(ret, i, [j]) == ret[i := j][j := i]
  {
    assert [j][1..] == [];
  }

  /** A size member at or before member `i` changes nothing. */
  lemma NoBackwardSwap(ret: seq<int>, i: nat, j: int)
    requires i < |ret| && j <= i
    ensures Swaps(ret, i, [j]) == ret
  {
    assert [j][1..] == [];
  }

  /** The swap loop over the size members of member `cur`. */
  method SwapSizeMembers(ret: seq<int>, cur: nat, js: seq<int>) returns (r: seq<int>)
    requires cur < |ret|
    ensures r == Swaps(ret, cur, js)
  {
    r := ret;
    var current: nat := cur;
    var k := 0;
    while k < |js|
      invariant 0 <= k <= |js| && current < |r| == |ret|
      invariant Swaps(r, current, js[k..]) == Swaps(ret, cur, js)
    {
      assert js[k..][1..] == js[k + 1..];
      var sm := js[k];
      if current < sm < |r| {
        r := Exchange(r, current, sm);
        current := sm;
      }
      k := k + 1;
    }
  }

  /** The swap as the source writes it: the two positions receive each other's index, not each other's contents. */
  function SwapAsWritten(ret: seq<int>, cur: nat, sm: nat): seq<int>
    requires cur < |ret| && sm < |ret|
  {
    ret[cur := sm][sm := cur]
  }

  function SwapsAsWritten(ret: seq<int>, cur: nat, js: seq<int>): (r: seq<int>)
    requires cur < |ret|
    ensures |r| == |ret|
    decreases |js|
  {
    if |js| == 0 then ret
    else if cur < js[0] < |ret| then SwapsAsWritten(SwapAsWritten(ret, cur, js[0]), js[0], js[1..])
    else SwapsAsWritten(ret, cur, js[1..])
  }

  /** While the two positions still hold their own indices, the written swap is the exchange. */
  lemma SwapAsWrittenAgrees(ret: seq<int>, cur: nat, sm: nat)
    requires cur < |ret| && sm < |ret| && ret[cur] == cur && ret[sm] == sm
    ensures SwapAsWritten(ret, cur, sm) == Exchange(ret, cur, sm)
  {
  }

  /**
   * Two members sharing the size member 2 of a three-member record: as written, the second swap
   * writes indices into positions that were already moved, so member 0 disappears from the order
   * and member 2 is initialised twice; the exchange keeps a permutation.
   */
  lemma SwapAsWrittenLosesMember()
    ensures SwapsAsWritten(SwapsAsWritten([0, 1, 2], 0, [2]), 1, [2]) == [2, 2, 1]
    ensures Swaps(Swaps([0, 1, 2], 0, [2]), 1, [2]) == [2, 0, 1]
  {
    assert [2][1..] == [];
    assert SwapsAsWritten([0, 1, 2], 0, [2]) == [2, 1, 0];
    assert Swaps([0, 1, 2], 0, [2]) == [2, 1, 0];
  }

  // ---------------------------------------------------------------------------
  // Index evidence

  /**
   * A member that indexes a constant array of size `index` gets `max_val = index - 1`, unless it
   * already has a smaller bound, and then `min_val = 0` (the membership test guarding it looks
   * in the list of dictionaries, so `min_val` is always overwritten).
   */
  function IndexLimit(sc: seq<Constraint>, i: nat, u: Usage): (r: seq<Constraint>)
    requires i < |sc|
    ensures |r| == |sc| && forall k :: 0 <= k < |sc| && k != i ==> r[k] == sc[k]
    ensures u.index.None? ==> r == sc
    ensures u.index.Some? && (sc[i].maxVal.None? || sc[i].maxVal == Some(-1) || u.index.value - 1 < sc[i].maxVal.value) ==>
      r[i] == sc[i].(maxVal := Some(u.index.value - 1), minVal := Some(0))
    ensures u.index.Some? && sc[i].maxVal.Some? && sc[i].maxVal != Some(-1) && sc[i].maxVal.value <= u.index.value - 1 ==>
      r == sc
  {
    if u.index.None? then sc
    else
      var mv := if sc[i].maxVal.Some? then sc[i].maxVal.value else -1;
      if mv == -1 || u.index.value - 1 < mv then sc[i := sc[i].(maxVal := Some(u.index.value - 1), minVal := Some(0))]
      else sc
  }

  // ---------------------------------------------------------------------------
  // The order of a record

  /** The order and constraints being built, one entry per member. */
  datatype Plan = Plan(order: seq<int>, constraints: seq<Constraint>)

  /** `[i for i in range(n)]`. */
  function Identity(n: nat): (s: seq<int>)
    ensures |s| == n && forall k :: 0 <= k < n ==> s[k] == k
  {
    seq(n, k => k)
  }

  /** No constraint for any of `n` members. */
  function NoConstraints(n: nat): (s: seq<Constraint>)
    ensures |s| == n && forall k :: 0 <= k < n ==> s[k] == NoConstraint
  {
    seq(n, k => NoConstraint)
  }

  /** Member `i` is looked at: its name is an ordinary one, it is in use, and it has evidence. */
  predicate Considered(t: Type, usedTypes: map<TypeId, Type>, us: seq<Usage>, i: nat) {
    !IsSpecialName(At(t.refnames, i, "")) && IsMemberInUse(t, usedTypes, i) && At(us, i, NoUsage) != NoUsage
  }

  /** The loop body for member `i`: its choice, the reordering, then the index evidence. */
  function PlanStep(t: Type, usedTypes: map<TypeId, Type>, us: seq<Usage>, i: nat, p: Plan): (r: Plan)
    requires i < |p.order| && |p.constraints| == |p.order|
    ensures |r.order| == |p.order| && |r.constraints| == |p.constraints|
    ensures !Considered(t, usedTypes, us, i) ==> r == p
    ensures multiset(r.order) == multiset(p.order)
  {
    if !Considered(t, usedTypes, us, i) then p
    else
      var u := us[i];
      var c := Choose(t.id, u);
      var sc := ApplyChoice(p.constraints, i, c, u);
      SwapsPermutes(p.order, i, SizeMembers(c));
      Plan(Swaps(p.order, i, SizeMembers(c)), IndexLimit(sc, i, u))
  }

  /**
   * The plan after the members below `n`, starting from the identity order and no constraints;
   * whatever the evidence, the order lists every member exactly once.
   */
  function PlanUpTo(t: Type, usedTypes: map<TypeId, Type>, us: seq<Usage>, n: nat): (r: Plan)
    requires n <= |t.refnames|
    ensures |r.order| == |t.refnames| && |r.constraints| == |t.refnames|
    ensures multiset(r.order) == multiset(Identity(|t.refnames|))
    decreases n
  {
    if n == 0 then Plan(Identity(|t.refnames|), NoConstraints(|t.refnames|))
    else PlanStep(t, usedTypes, us, n - 1, PlanUpTo(t, usedTypes, us, n - 1))
  }

  /** Members without usable evidence keep the identity order and no constraints. */
  lemma {:induction false} PlanUpToUnconsidered(t: Type, usedTypes: map<TypeId, Type>, us: seq<Usage>, n: nat)
    requires n <= |t.refnames|
    requires forall i :: 0 <= i < n ==> !Considered(t, usedTypes, us, i)
    ensures PlanUpTo(t, usedTypes, us, n) == Plan(Identity(|t.refnames|), NoConstraints(|t.refnames|))
    decreases n
  {
    if n > 0 {
      PlanUpToUnconsidered(t, usedTypes, us, n - 1);
    }
  }

  /**
   * `_get_members_order(t)`: None for a type that is not a record; otherwise one order position
   * and one constraint dictionary per member, the identity order and no constraints when the
   * record has no evidence, and in any case a permutation of the members.
   */
  method GetMembersOrder(usage: UsageInfo, usedTypes: map<TypeId, Type>, t: Type) returns (r: Option<Plan>)
    ensures r.None? <==> t.cls != Record
    ensures r.Some? ==> |r.value.order| == |t.refnames| && |r.value.constraints| == |t.refnames|
    ensures r.Some? && t.id !in usage ==> r.value == Plan(Identity(|t.refnames|), NoConstraints(|t.refnames|))
    ensures r.Some? && t.id in usage ==> r.value == PlanUpTo(t, usedTypes, usage[t.id], |t.refnames|)
    ensures r.Some? ==> multiset(r.value.order) == multiset(Identity(|t.refnames|))
  {
    if t.cls != Record {
      return None;
    }
    var n := |t.refnames|;
    var ret := Identity(n);
    var sc := NoConstraints(n);
    if t.id !in usage {
      return Some(Plan(ret, sc));
    }
    var us := usage[t.id];
    var i := 0;
    while i < n
      invariant 0 <= i <= n
      invariant Plan(ret, sc) == PlanUpTo(t, usedTypes, us, i)
    {
      if Considered(t, usedTypes, us, i) {
        var u := us[i];
        var c := ChooseSizeMember(t.id, u);
        sc := ApplyChoice(sc, i, c, u);
        ret := SwapSizeMembers(ret, i, SizeMembers(c));
        sc := IndexLimit(sc, i, u);
      }
      i := i + 1;
    }
    r := Some(Plan(ret, sc));
  }

  // ---------------------------------------------------------------------------
  // The emitted clamp

  /** One emitted check: `if (x < min) x = min;` or `if (x > max) { x %= max; x += 1; }`. */
  datatype Guard = RaiseBelow(min: int) | WrapAbove(max: int)

  /** `_generate_constraints_check`: the lower check first, then the upper one, each only when its key is present. */
  function ConstraintsCheck(c: Constraint): (gs: seq<Guard>)
    ensures |gs| <= 2
    ensures c.minVal.Some? ==> RaiseBelow(c.minVal.value) in gs
    ensures c.maxVal.Some? ==> WrapAbove(c.maxVal.value) in gs
    ensures forall g :: g in gs ==> (g.RaiseBelow? && c.minVal == Some(g.min)) || (g.WrapAbove? && c.maxVal == Some(g.max))
    ensures |gs| == 2 ==> gs[0].RaiseBelow? && gs[1].WrapAbove?
  {
    (if c.minVal.Some? then [RaiseBelow(c.minVal.value)] else []) +
    (if c.maxVal.Some? then [WrapAbove(c.maxVal.value)] else [])
  }

  /** C's `a % b`: the remainder of division truncated toward zero. */
  function CRem(a: int, b: int): (r: int)
    requires b != 0
    ensures a >= 0 && b > 0 ==> 0 <= r < b
  {
    if a >= 0 then a % Abs(b) else -((-a) % Abs(b))
  }

  /** The value of the variable after the emitted checks; None when one divides by zero (`max_val` 0). */
  function RunGuards(gs: seq<Guard>, x: int): Option<int>
    decreases |gs|
  {
    if |gs| == 0 then Some(x)
    else match gs[0]
      case RaiseBelow(min) => RunGuards(gs[1..], if x < min then min else x)
      case WrapAbove(max) =>
        if x <= max then RunGuards(gs[1..], x)
        else if max == 0 then None
        else RunGuards(gs[1..], CRem(x, max) + 1)
  }

  /** The upper check alone. */
  lemma WrapInRange(mx: int, y: int)
    requires mx >= 1
    ensures RunGuards([WrapAbove(mx)], y) == Some(if y <= mx then y else CRem(y, mx) + 1)
    ensures RunGuards([WrapAbove(mx)], y).value <= mx
    ensures y > mx ==> RunGuards([WrapAbove(mx)], y).value >= 1
  {
    assert [WrapAbove(mx)][1..] == [];
  }

  /**
   * With a positive upper bound, the clamped value never exceeds it, and a lower bound of at
   * most 1 holds afterwards.
   */
  lemma ClampInRange(c: Constraint, x: int)
    requires c.maxVal.Some? && c.maxVal.value >= 1
    ensures RunGuards(ConstraintsCheck(c), x).Some?
    ensures RunGuards(ConstraintsCheck(c), x).value <= c.maxVal.value
    ensures c.minVal.Some? && c.minVal.value <= 1 ==> RunGuards(ConstraintsCheck(c), x).value >= c.minVal.value
  {
    var gs := ConstraintsCheck(c);
    var mx := c.maxVal.value;
    if c.minVal.Some? {
      var y := if x < c.minVal.value then c.minVal.value else x;
      assert gs == [RaiseBelow(c.minVal.value), WrapAbove(mx)];
      assert gs[1..] == [WrapAbove(mx)];
      assert RunGuards(gs, x) == RunGuards([WrapAbove(mx)], y);
      WrapInRange(mx, y);
    } else {
      assert gs == [WrapAbove(mx)];
      WrapInRange(mx, x);
    }
  }

  /** A size member's value ends up between 1 and its upper bound. */
  lemma SizeMemberClamp(u: Usage, x: int)
    ensures RunGuards(ConstraintsCheck(SizeRange(u)), x).Some?
    ensures 1 <= RunGuards(ConstraintsCheck(SizeRange(u)), x).value <= MaxVal(u)
  {
    ClampInRange(SizeRange(u), x);
  }

  /**
   * An upper bound of 0 (a member indexing a constant array of one element) makes the emitted
   * check divide by zero for every positive value.
   */
  lemma ZeroBoundDividesByZero(c: Constraint, x: int)
    requires c.maxVal == Some(0) && x > 0
    requires c.minVal.None? || c.minVal.value <= x
    ensures RunGuards(ConstraintsCheck(c), x).None?
  {
    var gs := ConstraintsCheck(c);
    if c.minVal.Some? {
      assert gs == [RaiseBelow(c.minVal.value), WrapAbove(0)];
      assert gs[1..] == [WrapAbove(0)];
    } else {
      assert gs == [WrapAbove(0)];
    }
  }
}
