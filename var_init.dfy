/**
 * The decisions `_generate_var_init` takes while it writes the initialisation of one variable:
 * the recursion fuse, the split of the variable's name at its last member access, the loop
 * count of arrays, the name of a function-pointer stub, the break of linked-list cycles, the
 * reduction of `offsetof` candidates by the trace interpreter's objects, the allocation size
 * after casts, the extra room for fuzzed strings, and the bitfields to initialise. The C text
 * the generator emits is not modelled; each decision is the value that text is built from.
 */
module VarInit {

  import opened Basics
  import opened Ir
  import opened Strings
  import opened TypeUses

  // ---------------------------------------------------------------------------
  // Recursion fuse

  /** `Init.MAX_RECURSION_DEPTH`. */
  const MaxRecursionDepth: int := 50

  /** Either generation goes on with the (incremented) fuse, or it stops; `ignored` says whether it stops quietly. */
  datatype FuseResult = Go(fuse: Option<int>) | GiveUp(ignored: bool)

  /**
   * The fuse at the start of a call: absent means no limit; otherwise it is incremented and
   * generation gives up once it exceeds the maximum depth, returning a comment when recursion
   * errors are ignored and raising otherwise.
   */
  function FuseCheck(fuse: Option<int>, ignoreErrors: bool): (r: FuseResult)
    ensures fuse.None? ==> r == Go(None)
    ensures r.Go? && fuse.Some? ==> r.fuse == Some(fuse.value + 1) && fuse.value + 1 <= MaxRecursionDepth
    ensures r.GiveUp? <==> fuse.Some? && fuse.value + 1 > MaxRecursionDepth
    ensures r.GiveUp? ==> r.ignored == ignoreErrors
  {
    if fuse.None? then Go(None)
    else if fuse.value + 1 > MaxRecursionDepth then GiveUp(ignoreErrors)
    else Go(Some(fuse.value + 1))
  }

  /** The outcome at nesting level `k` below a call that received fuse `start`, each level passing its fuse on. */
  function Nested(start: int, k: nat, ignoreErrors: bool): FuseResult
    decreases k
  {
    if k == 0 then Go(Some(start))
    else match Nested(start, k - 1, ignoreErrors)
      case Go(f) => FuseCheck(f, ignoreErrors)
      case GiveUp(i) => GiveUp(i)
  }

  /**
   * Starting from a fuse of at most the maximum depth, the nested calls go on exactly up to
   * the level where the fuse reaches the maximum depth, and every deeper one gives up.
   */
  lemma {:induction false} NestedDepth(start: int, k: nat, ignoreErrors: bool)
    requires start <= MaxRecursionDepth
    ensures Nested(start, k, ignoreErrors).Go? <==> start + k <= MaxRecursionDepth
    ensures Nested(start, k, ignoreErrors).Go? ==> Nested(start, k, ignoreErrors).fuse == Some(start + k)
    decreases k
  {
    if k > 0 {
      NestedDepth(start, k - 1, ignoreErrors);
    }
  }

  // ---------------------------------------------------------------------------
  // The last component of a variable name

  /** A name split at its last `.` or `->`: `base`, the separator (empty when there is none) and the member name. */
  datatype NameParts = NameParts(base: string, sep: string, member: string)

  /** The split at the later of the last `.` and the last `->`; a name with neither is all member name. */
  function SplitLastName(name: string): (p: NameParts)
    ensures p.base + p.sep + p.member == name
    ensures p.sep == "" || p.sep == "." || p.sep == "->"
    ensures p.sep == "" ==> p.base == "" && p.member == name
  {
    var dot := RFind(name, ".");
    var arrow := RFind(name, "->");
    var index := if dot > arrow then dot else arrow;
    if index == -1 then NameParts("", "", name)
    else if index == dot then
      SplitAround(name, ".", index);
      NameParts(name[..index], ".", name[index + 1..])
    else
      SplitAround(name, "->", index);
      NameParts(name[..index], "->", name[index + 2..])
  }

  /** A name with `sep` at `index` is what precedes it, `sep` and what follows. */
  lemma SplitAround(name: string, sep: string, index: int)
    requires 0 <= index && OccursAt(name, sep, index)
    ensures name == name[..index] + sep + name[index + |sep|..]
  {
    assert name == name[..index] + name[index..index + |sep|] + name[index + |sep|..];
  }

  /** Where the member name starts: after every `.` and every `->` of the name. */
  lemma SplitOffset(name: string)
    ensures var p := SplitLastName(name); forall j :: OccursAt(name, ".", j) ==> j < |p.base| + |p.sep|
    ensures var p := SplitLastName(name); forall j :: OccursAt(name, "->", j) ==> j < |p.base| + |p.sep|
  {
  }

  /** A suffix that starts after every occurrence of `pat` holds none. */
  lemma SuffixAvoids(name: string, off: nat, pat: string)
    requires off <= |name| && |pat| > 0
    requires forall j :: OccursAt(name, pat, j) ==> j < off
    ensures forall i :: !OccursAt(name[off..], pat, i)
  {
    forall i | OccursAt(name[off..], pat, i) ensures false {
      assert name[off + i..off + i + |pat|] == name[off..][i..i + |pat|];
      assert OccursAt(name, pat, off + i);
    }
  }

  /** The member name holds neither separator. */
  lemma SplitLastNameMember(name: string)
    ensures '.' !in SplitLastName(name).member
    ensures forall i :: !OccursAt(SplitLastName(name).member, "->", i)
  {
    var p := SplitLastName(name);
    var off := |p.base| + |p.sep|;
    assert name[off..] == p.member;
    SplitOffset(name);
    SuffixAvoids(name, off, ".");
    SuffixAvoids(name, off, "->");
    CharOccurs(p.member, '.');
  }

  /** A character is in a string when it occurs there as a one-character pattern. */
  lemma CharOccurs(s: string, c: char)
    ensures c in s ==> exists i :: OccursAt(s, [c], i)
  {
    if c in s {
      var q :| 0 <= q < |s| && s[q] == c;
      assert s[q..q + 1] == [c];
      assert OccursAt(s, [c], q);
    }
  }

  // ---------------------------------------------------------------------------
  // Array loop count

  /** Whether the variable is initialised as an array, and the number of elements the loop covers. */
  datatype ArrayInit = ArrayInit(isArray: bool, loopCount: int)

  /** Bytes of the element type of an array (`typemap[refs[0]].size // 8`). */
  function ElementBytes(db: Db, t: Type): int {
    FloorDiv(TypeOf(db, At(t.refs, 0, -1)).size, 8)
  }

  /** The number of objects a pointer is initialised with when no count is given (`ptr_init_size`). */
  const PtrInitSize: int := 1

  /**
   * A constant array covers its element count, its byte size divided by the element's; an
   * incomplete array of size 0 covers one element; a count of 0 is raised to 1, the one element
   * the allocation already provides. A pointer (one that did not end early, see
   * PointerEarlyExit) and an incomplete array of nonzero size loop over the `count` the caller
   * passed, or `ptr_init_size` objects without one. Any other type is no array and keeps the
   * initial loop count of 0.
   */
  function ArrayLoop(db: Db, t: Type, count: Option<int>): (r: ArrayInit)
    ensures r.isArray <==> t.cls == ConstArray || t.cls == IncompleteArray || t.cls == Pointer
    ensures t.cls == ConstArray || (t.cls == IncompleteArray && t.size == 0) ==> r.loopCount != 0
    ensures t.cls == IncompleteArray && t.size == 0 ==> r.loopCount == 1
    ensures t.cls == ConstArray && ElementBytes(db, t) > 0 && FloorDiv(t.size, 8) >= ElementBytes(db, t) ==>
      r.loopCount * ElementBytes(db, t) <= FloorDiv(t.size, 8) < (r.loopCount + 1) * ElementBytes(db, t)
    ensures t.cls == ConstArray && (ElementBytes(db, t) == 0 || 0 <= FloorDiv(t.size, 8) < ElementBytes(db, t)) ==>
      r.loopCount == 1
    ensures t.cls == Pointer || (t.cls == IncompleteArray && t.size != 0) ==>
      r.loopCount == (if count.Some? then count.value else PtrInitSize)
    ensures !r.isArray ==> r.loopCount == 0
  {
    if t.cls == ConstArray then
      var dstSize := ElementBytes(db, t);
      var arrayCount := if dstSize != 0 then FloorDiv(FloorDiv(t.size, 8), dstSize) else 0;
      ArrayInit(true, if arrayCount == 0 then 1 else arrayCount)
    else if t.cls == IncompleteArray && t.size == 0 then ArrayInit(true, 1)
    else if t.cls == Pointer || t.cls == IncompleteArray then
      ArrayInit(true, if count.None? then PtrInitSize else count.value)
    else ArrayInit(false, 0)
  }

  // ---------------------------------------------------------------------------
  // Function-pointer stubs and tagged variables

  /** `s.replace(p, r)` for each (p, r) of `rules`, in order. */
  function ApplyRules(s: string, rules: seq<(string, string)>): string
    decreases |rules|
  {
    if |rules| == 0 then s else ApplyRules(ReplaceAll(s, rules[0].0, rules[0].1), rules[1..])
  }

  /** A character absent from the text and from every replacement stays absent. */
  lemma {:induction false} RulesKeepAbsent(s: string, rules: seq<(string, string)>, c: char)
    requires c !in s && forall j :: 0 <= j < |rules| ==> c !in rules[j].1
    ensures c !in ApplyRules(s, rules)
    decreases |rules|
  {
    if |rules| > 0 {
      ReplaceKeepsAbsentChar(s, rules[0].0, rules[0].1, c);
      RulesKeepAbsent(ReplaceAll(s, rules[0].0, rules[0].1), rules[1..], c);
    }
  }

  /** A character that some rule replaces, and that no replacement contains, is gone afterwards. */
  lemma {:induction false} RulesRemove(s: string, rules: seq<(string, string)>, i: nat, c: char)
    requires i < |rules| && rules[i].0 == [c]
    requires forall j :: 0 <= j < |rules| ==> c !in rules[j].1
    ensures c !in ApplyRules(s, rules)
    decreases i
  {
    var s' := ReplaceAll(s, rules[0].0, rules[0].1);
    if i == 0 {
      ReplaceCharRemoves(s, c, rules[0].1);
      RulesKeepAbsent(s', rules[1..], c);
    } else {
      RulesRemove(s', rules[1..], i - 1, c);
    }
  }

  /** The replacements applied to a variable name to make a stub name of it. */
  function StubRules(): seq<(string, string)> {
    [(".", "_"), ("->", "_"), ("[", "_"), ("]", ""), ("(", ""), (")", ""), ("*", "")]
  }

  /** The variable name with member accesses and subscripts turned into `_`, and brackets and stars removed. */
  function CleanStubName(name: string): string {
    ApplyRules(name, StubRules())
  }

  /**
   * The stub name before uniquing: `aotstub_` and the last white-space separated token of the
   * cleaned name (stripping the cleaned name first does not change its last token). None when
   * the cleaned name is all white space, where the source raises IndexError.
   */
  function StubBase(name: string): Option<string> {
    var tok := LastToken(CleanStubName(name));
    if tok.None? then None else Some("aotstub_" + tok.value)
  }

  /** Characters a stub name never holds. */
  predicate Forbidden(c: char) {
    c == '.' || c == '[' || c == ']' || c == '(' || c == ')' || c == '*' || IsSpace(c)
  }

  /** A stub name is `aotstub_` followed by a non-empty token free of separators, brackets, stars and white space. */
  lemma StubBaseClean(name: string)
    ensures StubBase(name).Some? ==> |StubBase(name).value| > 8 && StubBase(name).value[..8] == "aotstub_"
    ensures StubBase(name).Some? ==> forall c :: c in StubBase(name).value ==> !Forbidden(c)
  {
    var s := CleanStubName(name);
    CleanRemoves(name);
    TokenChars(s);
    var tok := LastToken(s);
    if tok.Some? {
      PrefixedClean(tok.value, s);
    }
  }

  /** The characters of the last token are characters of the string, none of them white space. */
  lemma TokenChars(s: string)
    ensures LastToken(s).Some? ==> forall c :: c in LastToken(s).value ==> c in s && !IsSpace(c)
  {
    var tok := LastToken(s);
    if tok.Some? {
      var lo := |s| - TrailingSpace(s) - |tok.value|;
      forall c | c in tok.value ensures c in s {
        var k :| 0 <= k < |tok.value| && tok.value[k] == c;
        assert c == s[lo + k];
      }
    }
  }

  lemma PrefixedClean(tok: string, s: string)
    requires |tok| > 0
    requires forall c :: c in tok ==> c in s && !IsSpace(c)
    requires forall c :: c in s ==> c != '.' && c != '[' && c != ']' && c != '(' && c != ')' && c != '*'
    ensures |"aotstub_" + tok| > 8 && ("aotstub_" + tok)[..8] == "aotstub_"
    ensures forall c :: c in "aotstub_" + tok ==> !Forbidden(c)
  {
    var r := "aotstub_" + tok;
    assert r[..8] == "aotstub_";
    forall c | c in r ensures !Forbidden(c) {
      var k :| 0 <= k < |r| && r[k] == c;
      if k >= 8 {
        assert c == tok[k - 8];
      }
    }
  }

  lemma CleanRemoves(name: string)
    ensures forall c :: c in CleanStubName(name) ==> c != '.' && c != '[' && c != ']' && c != '(' && c != ')' && c != '*'
  {
    var rules := StubRules();
    var s := CleanStubName(name);
    assert forall j, c :: 0 <= j < |rules| && c in rules[j].1 ==> c == '_';
    RulesRemove(name, rules, 0, '.');
    RulesRemove(name, rules, 2, '[');
    RulesRemove(name, rules, 3, ']');
    RulesRemove(name, rules, 4, '(');
    RulesRemove(name, rules, 5, ')');
    RulesRemove(name, rules, 6, '*');
  }

  /** `base` with the numeric suffix `_k`. */
  function Suffixed(base: string, k: nat): string {
    base + "_" + NatToString(k)
  }

  /** Different suffixes give different names. */
  lemma SuffixedInjective(base: string, j: nat, k: nat)
    requires Suffixed(base, j) == Suffixed(base, k)
    ensures j == k
  {
    var a, b := Suffixed(base, j), Suffixed(base, k);
    assert a[|base| + 1..] == NatToString(j);
    assert b[|base| + 1..] == NatToString(k);
    NatToStringInjective(j, k);
  }

  /** The names `base_1` … `base_(n-1)`. */
  ghost function SuffixedBelow(base: string, n: nat): set<string> {
    set k: nat | 1 <= k < n :: Suffixed(base, k)
  }

  lemma {:induction false} SuffixedBelowCard(base: string, n: nat)
    requires n >= 1
    ensures |SuffixedBelow(base, n)| == n - 1
    decreases n
  {
    if n > 1 {
      SuffixedBelowCard(base, n - 1);
      SuffixedBelowSnoc(base, n - 1);
    } else {
      assert SuffixedBelow(base, n) == {};
    }
  }

  /** One more suffix adds one new name. */
  lemma SuffixedBelowSnoc(base: string, n: nat)
    requires n >= 1
    ensures SuffixedBelow(base, n + 1) == SuffixedBelow(base, n) + {Suffixed(base, n)}
    ensures Suffixed(base, n) !in SuffixedBelow(base, n)
  {
    if Suffixed(base, n) in SuffixedBelow(base, n) {
      var k: nat :| 1 <= k < n && Suffixed(base, k) == Suffixed(base, n);
      SuffixedInjective(base, k, n);
    }
  }

  /** When `base_1` … `base_(n-1)` are all taken, there are at least `n - 1` taken names; so a free suffix exists. */
  lemma SuffixesTakenBound(base: string, names: set<string>, n: nat)
    requires n >= 1
    requires forall k: nat :: 1 <= k < n ==> Suffixed(base, k) in names
    ensures n - 1 <= |names|
  {
    SuffixedBelowCard(base, n);
    forall x | x in SuffixedBelow(base, n) ensures x in names {
      var k: nat :| 1 <= k < n && x == Suffixed(base, k);
    }
    SubsetCard(SuffixedBelow(base, n), names);
  }

  lemma SubsetCard<T>(a: set<T>, b: set<T>)
    requires a <= b
    ensures |a| <= |b|
  {
    if a != {} {
      var x := ElementOf(a);
      SubsetCard(a - {x}, b - {x});
    }
  }

  /** `"aot_var_<n>"`, quotes included, as `_get_tagged_var_name` formats it. */
  function TaggedName(n: nat): string {
    "\"aot_var_" + NatToString(n) + "\""
  }

  /** Different counter values give different tags. */
  lemma TaggedNameInjective(a: nat, b: nat)
    requires TaggedName(a) == TaggedName(b)
    ensures a == b
  {
    var s, t := TaggedName(a), TaggedName(b);
    assert s[9..|s| - 1] == NatToString(a);
    assert t[9..|t| - 1] == NatToString(b);
    NatToStringInjective(a, b);
  }

  /** The generator's naming state: the stub names handed out so far and the tagged-variable counter. */
  class NameState {
    var stubNames: set<string>
    var taggedVarsCount: nat

    constructor()
      ensures stubNames == {} && taggedVarsCount == 0
    {
      stubNames := {};
      taggedVarsCount := 0;
    }

    /**
     * The stub name for `base`: `base` itself when it is new, otherwise `base_k` for the least
     * `k >= 1` not yet handed out. The name is recorded, so no name is handed out twice.
     */
    method UniqueStubName(base: string) returns (name: string)
      modifies this
      ensures name !in old(stubNames)
      ensures stubNames == old(stubNames) + {name} && taggedVarsCount == old(taggedVarsCount)
      ensures base !in old(stubNames) ==> name == base
      ensures base in old(stubNames) ==>
        exists k: nat :: 1 <= k && name == Suffixed(base, k) && forall j: nat :: 1 <= j < k ==> Suffixed(base, j) in old(stubNames)
    {
      if base !in stubNames {
        name := base;
      } else {
        var suffix: nat := 1;
        while Suffixed(base, suffix) in stubNames
          invariant suffix >= 1
          invariant forall j: nat :: 1 <= j < suffix ==> Suffixed(base, j) in stubNames
          invariant stubNames == old(stubNames) && taggedVarsCount == old(taggedVarsCount)
          decreases |stubNames| + 1 - suffix
        {
          SuffixesTakenBound(base, stubNames, suffix + 1);
          suffix := suffix + 1;
        }
        SuffixesTakenBound(base, stubNames, suffix);
        name := Suffixed(base, suffix);
      }
      stubNames := stubNames + {name};
    }

    /** `_get_tagged_var_name`: the counter is incremented and the tag carries its new value. */
    method NextTaggedName() returns (s: string)
      modifies this
      ensures taggedVarsCount == old(taggedVarsCount) + 1 && stubNames == old(stubNames)
      ensures s == TaggedName(taggedVarsCount)
    {
      taggedVarsCount := taggedVarsCount + 1;
      s := TaggedName(taggedVarsCount);
    }
  }

  // ---------------------------------------------------------------------------
  // Early exits of a pointer variable

  /**
   * The pointee was already initialised further up, so initialising it again would loop: its
   * id occurs twice among the pointers being initialised, or once and the member is `prev` or
   * `next`; or the member is `pprev` and the pointee's real type is among them.
   */
  predicate BreaksCycle(pointers: seq<TypeId>, dst: TypeId, realDst: TypeId, member: string) {
    (dst in pointers && (Count(pointers, dst) > 1 || member == "prev" || member == "next")) ||
    (member == "pprev" && realDst in pointers)
  }

  /** The pointer a broken cycle is set to (`aot_memory_setptr(&name, target)`), if any. */
  datatype BackRef = NoBackRef | SetPtr(target: string)

  /** `prev`/`next` point back at the containing object, `pprev` at the containing object's `next` field. */
  function BackReference(p: NameParts): (r: BackRef)
    ensures r.SetPtr? <==> p.member == "prev" || p.member == "next" || p.member == "pprev"
    ensures (p.member == "prev" || p.member == "next") && p.sep == "->" ==> r == SetPtr(p.base)
    ensures (p.member == "prev" || p.member == "next") && p.sep != "->" ==> r == SetPtr("&" + p.base)
    ensures p.member == "pprev" && p.sep == "->" ==> r == SetPtr("&" + p.base)
    ensures p.member == "pprev" && p.sep != "->" ==> r == SetPtr("&" + p.base + ".next")
  {
    if p.member == "prev" || p.member == "next" then
      if p.sep == "->" then SetPtr(p.base) else SetPtr("&" + p.base)
    else if p.member == "pprev" then
      if p.sep == "->" then SetPtr("&" + p.base) else SetPtr("&" + p.base + ".next")
    else NoBackRef
  }

  /**
   * How a pointer variable may end early, both times returning with nothing allocated: a
   * pointer to a function gets a stub, a pointer that closes a cycle gets only its back
   * reference.
   */
  datatype PointerExit = StubExit(stub: Option<string>) | CycleExit(backRef: BackRef) | NoExit

  /** The pointee of a pointer type: the typedef-stripped type of `refs[0]`. */
  function Pointee(db: Db, t: Type): Type {
    StripTypedef(db, TypeOf(db, At(t.refs, 0, -1)))
  }

  function PointerEarlyExit(db: Db, t: Type, name: string, pointers: seq<TypeId>): (r: PointerExit)
    ensures r.StubExit? <==> t.cls == Pointer && Pointee(db, t).cls == FunctionType
    ensures r.StubExit? ==> r.stub == StubBase(name)
    ensures r.CycleExit? <==>
      t.cls == Pointer && Pointee(db, t).cls != FunctionType &&
      BreaksCycle(pointers, Pointee(db, t).id, RealType(db, Pointee(db, t).id), SplitLastName(name).member)
    ensures r.CycleExit? ==> r.backRef == BackReference(SplitLastName(name))
  {
    if t.cls != Pointer then NoExit
    else
      var dst := Pointee(db, t);
      if dst.cls == FunctionType then StubExit(StubBase(name))
      else
        var parts := SplitLastName(name);
        if BreaksCycle(pointers, dst.id, RealType(db, dst.id), parts.member) then CycleExit(BackReference(parts))
        else NoExit
  }

  /** A `prev`/`next` member reached through `->` is set to the object the name's prefix denotes. */
  lemma BackReferenceIsPrefix(name: string)
    requires SplitLastName(name).sep == "->"
    requires SplitLastName(name).member == "next" || SplitLastName(name).member == "prev"
    ensures BackReference(SplitLastName(name)) == SetPtr(name[..|name| - 6])
  {
    var p := SplitLastName(name);
    assert name == p.base + p.sep + p.member;
    assert name[..|name| - 6] == p.base;
  }

  // ---------------------------------------------------------------------------
  // Offsetof reduction

  /** An `offset_pointers` candidate: a type chain and a member chain. */
  type OffsetPath = (seq<TypeId>, seq<int>)

  /** Every `offsetof` edge of the arena leads to an object of the arena. */
  predicate EdgesInside(nodes: seq<Node>) {
    forall h, e :: 0 <= h < |nodes| && e in nodes[h].offsetofTypes ==> e.2 < |nodes|
  }

  /** The index of the first candidate with the edge's chains, or -1. */
  function FirstMatch(ots: seq<OffsetPath>, e: Edge): (r: int)
    ensures -1 <= r < |ots|
    ensures r >= 0 ==> ots[r] == (e.0, e.1) && forall i :: 0 <= i < r ==> ots[i] != (e.0, e.1)
    ensures r == -1 <==> (e.0, e.1) !in ots
    decreases |ots|
  {
    if |ots| == 0 then -1
    else if ots[0] == (e.0, e.1) then 0
    else
      var r := FirstMatch(ots[1..], e);
      if r == -1 then -1 else r + 1
  }

  /** The edges of the object whose chains are among the candidates, in edge order (`to_process`). */
  function Matched(ots: seq<OffsetPath>, edges: seq<Edge>): (r: seq<Edge>)
    ensures forall e :: e in r <==> e in edges && (e.0, e.1) in ots
    decreases |edges|
  {
    if |edges| == 0 then []
    else
      var prev := Matched(ots, edges[..|edges| - 1]);
      var e := edges[|edges| - 1];
      assert forall x :: x in edges <==> x in edges[..|edges| - 1] || x == e;
      if (e.0, e.1) in ots then prev + [e] else prev
  }

  /** `to_keep` after the scan: it is emptied for every edge, so it holds at most the first match of the last edge. */
  function KeepIndices(ots: seq<OffsetPath>, edges: seq<Edge>): (keep: seq<int>)
    ensures |keep| <= 1 && forall q :: 0 <= q < |keep| ==> 0 <= keep[q] < |ots|
  {
    if |edges| > 0 && FirstMatch(ots, edges[|edges| - 1]) >= 0 then [FirstMatch(ots, edges[|edges| - 1])] else []
  }

  /** The candidates at the given positions, in that order. */
  function Select(ots: seq<OffsetPath>, keep: seq<int>): (r: seq<OffsetPath>)
    requires forall q :: 0 <= q < |keep| ==> 0 <= keep[q] < |ots|
    ensures |r| == |keep| && forall q :: 0 <= q < |keep| ==> r[q] == ots[keep[q]]
  {
    seq(|keep|, q requires 0 <= q < |keep| => ots[keep[q]])
  }

  /** The candidates are replaced by the kept ones only when that leaves fewer. */
  function Kept(ots: seq<OffsetPath>, edges: seq<Edge>): (r: seq<OffsetPath>)
    ensures forall x :: x in r ==> x in ots
  {
    var keep := KeepIndices(ots, edges);
    if |keep| < |ots| then Select(ots, keep) else ots
  }

  /**
   * The work list of edges processed last in, first out: an edge to an object without
   * `offsetof` edges of its own is final, any other is replaced by that object's edges.
   * At most `fuel` edges are taken from the list.
   */
  function Finals(nodes: seq<Node>, stack: seq<Edge>, fuel: nat): (r: seq<Edge>)
    requires EdgesInside(nodes) && forall e :: e in stack ==> e.2 < |nodes|
    ensures forall e :: e in r ==> e.2 < |nodes| && |nodes[e.2].offsetofTypes| == 0
    ensures |stack| == 0 ==> r == []
    decreases fuel
  {
    if fuel == 0 || |stack| == 0 then []
    else
      var e := stack[|stack| - 1];
      var rest := stack[..|stack| - 1];
      assert forall x :: x in rest ==> x in stack;
      var obj := nodes[e.2];
      if |obj.offsetofTypes| == 0 then [e] + Finals(nodes, rest, fuel - 1)
      else Finals(nodes, rest + obj.offsetofTypes, fuel - 1)
  }

  /** Every final edge is one the walk started from or an `offsetof` edge of some object. */
  lemma {:induction false} FinalsFromGraph(nodes: seq<Node>, stack: seq<Edge>, fuel: nat)
    requires EdgesInside(nodes) && forall e :: e in stack ==> e.2 < |nodes|
    ensures forall e :: e in Finals(nodes, stack, fuel) ==>
      e in stack || exists h :: 0 <= h < |nodes| && e in nodes[h].offsetofTypes
    decreases fuel
  {
    if fuel > 0 && |stack| > 0 {
      var e := stack[|stack| - 1];
      var rest := stack[..|stack| - 1];
      assert forall x :: x in rest ==> x in stack;
      var obj := nodes[e.2];
      if |obj.offsetofTypes| == 0 {
        FinalsFromGraph(nodes, rest, fuel - 1);
      } else {
        var next := rest + obj.offsetofTypes;
        FinalsFromGraph(nodes, next, fuel - 1);
        assert forall x :: x in next ==> x in stack || x in nodes[e.2].offsetofTypes;
      }
    }
  }

  function Paths(es: seq<Edge>): (r: seq<OffsetPath>)
    ensures |r| == |es| && forall k :: 0 <= k < |es| ==> r[k] == (es[k].0, es[k].1)
  {
    seq(|es|, k requires 0 <= k < |es| => (es[k].0, es[k].1))
  }

  function Handles(es: seq<Edge>): (r: seq<nat>)
    ensures |r| == |es| && forall k :: 0 <= k < |es| ==> r[k] == es[k].2
  {
    seq(|es|, k requires 0 <= k < |es| => es[k].2)
  }

  /** The candidates after the reduction (None when none is left) and the final objects. */
  datatype Reduction = Reduction(offsetTypes: Option<seq<OffsetPath>>, finalObjs: seq<nat>)

  /** A list of candidates, or None when it is empty. */
  function NoneIfEmpty(ots: seq<OffsetPath>): (r: Option<seq<OffsetPath>>)
    ensures r.Some? <==> |ots| > 0
    ensures r.Some? ==> r.value == ots
  {
    if |ots| == 0 then None else Some(ots)
  }

  /**
   * The candidates of `offset_pointers` for the variable, reduced by the `offsetof` edges of
   * its `TypeUse` object `h`: the last objects of the edge paths that start with a listed
   * candidate replace the candidates; when there are none, the kept candidates stay. An empty
   * list becomes None.
   */
  function Reduce(nodes: seq<Node>, ots: Option<seq<OffsetPath>>, h: Option<nat>, fuel: nat): Reduction
    requires EdgesInside(nodes) && (h.Some? ==> h.value < |nodes|)
  {
    if ots.None? then Reduction(None, [])
    else if h.None? then Reduction(NoneIfEmpty(ots.value), [])
    else
      var edges := nodes[h.value].offsetofTypes;
      var fin := Finals(nodes, Matched(ots.value, edges), fuel);
      Reduction(NoneIfEmpty(if |fin| > 0 then Paths(fin) else Kept(ots.value, edges)), Handles(fin))
  }

  /** The final objects have no `offsetof` edges of their own, and no candidate list is ever empty. */
  lemma ReduceFinal(nodes: seq<Node>, ots: Option<seq<OffsetPath>>, h: Option<nat>, fuel: nat)
    requires EdgesInside(nodes) && (h.Some? ==> h.value < |nodes|)
    ensures Reduce(nodes, ots, h, fuel).offsetTypes.Some? ==> |Reduce(nodes, ots, h, fuel).offsetTypes.value| > 0
    ensures ots.None? ==> Reduce(nodes, ots, h, fuel) == Reduction(None, [])
    ensures forall o :: o in Reduce(nodes, ots, h, fuel).finalObjs ==> o < |nodes| && |nodes[o].offsetofTypes| == 0
  {
    if ots.Some? && h.Some? {
      var fin := Finals(nodes, Matched(ots.value, nodes[h.value].offsetofTypes), fuel);
      forall o | o in Handles(fin) ensures o < |nodes| && |nodes[o].offsetofTypes| == 0 {
        var k :| 0 <= k < |fin| && Handles(fin)[k] == o;
        assert fin[k] in fin;
      }
    }
  }

  /** When no edge of the object matches a candidate, nothing is left. */
  lemma ReduceNoMatch(nodes: seq<Node>, ots: seq<OffsetPath>, h: nat, fuel: nat)
    requires EdgesInside(nodes) && h < |nodes|
    requires forall e :: e in nodes[h].offsetofTypes ==> (e.0, e.1) !in ots
    ensures Reduce(nodes, Some(ots), Some(h), fuel) == Reduction(None, [])
  {
    var edges := nodes[h].offsetofTypes;
    if |edges| > 0 {
      assert edges[|edges| - 1] in edges;
    }
    assert KeepIndices(ots, edges) == [];
  }

  /** The reduction loops of the source: the edge scan, the selection of the kept candidates, then the work list. */
  method ReduceOffsetTypes(nodes: seq<Node>, ots: Option<seq<OffsetPath>>, h: Option<nat>, fuel: nat) returns (r: Reduction)
    requires EdgesInside(nodes) && (h.Some? ==> h.value < |nodes|)
    ensures r == Reduce(nodes, ots, h, fuel)
  {
    if ots.None? {
      return Reduction(None, []);
    }
    var offsetTypes := ots.value;
    if h.None? {
      return Reduction(NoneIfEmpty(offsetTypes), []);
    }
    var edges := nodes[h.value].offsetofTypes;
    var toProcess, toKeep := ScanEdges(offsetTypes, edges);
    if |toKeep| < |offsetTypes| {
      offsetTypes := SelectKept(offsetTypes, toKeep);
    }
    assert offsetTypes == Kept(ots.value, edges);
    var fin, objs := WorkList(nodes, toProcess, fuel);
    if |fin| > 0 {
      offsetTypes := fin;
    }
    r := Reduction(if |offsetTypes| == 0 then None else Some(offsetTypes), objs);
  }

  /** The loop over the object's edges, each looking for its first matching candidate. */
  method ScanEdges(ots: seq<OffsetPath>, edges: seq<Edge>) returns (toProcess: seq<Edge>, toKeep: seq<int>)
    ensures toProcess == Matched(ots, edges) && toKeep == KeepIndices(ots, edges)
  {
    toProcess := [];
    toKeep := [];
    var k := 0;
    while k < |edges|
      invariant 0 <= k <= |edges|
      invariant toProcess == Matched(ots, edges[..k])
      invariant toKeep == KeepIndices(ots, edges[..k])
    {
      assert edges[..k + 1][..k] == edges[..k];
      toKeep := [];
      var i := FirstMatchLoop(ots, edges[k]);
      if i >= 0 {
        toKeep := [i];
        toProcess := toProcess + [edges[k]];
      }
      k := k + 1;
    }
    assert edges[..|edges|] == edges;
  }

  /** The inner loop with its `break`. */
  method FirstMatchLoop(ots: seq<OffsetPath>, e: Edge) returns (i: int)
    ensures i == FirstMatch(ots, e)
  {
    i := 0;
    while i < |ots|
      invariant 0 <= i <= |ots|
      invariant FirstMatch(ots, e) == -1 || FirstMatch(ots, e) >= i
    {
      if ots[i] == (e.0, e.1) {
        return;
      }
      i := i + 1;
    }
    i := -1;
  }

  /** `tmp = [offset_types[i] for i in to_keep]`, as a loop. */
  method SelectKept(ots: seq<OffsetPath>, keep: seq<int>) returns (tmp: seq<OffsetPath>)
    requires forall q :: 0 <= q < |keep| ==> 0 <= keep[q] < |ots|
    ensures tmp == Select(ots, keep)
  {
    tmp := [];
    var j := 0;
    while j < |keep|
      invariant 0 <= j <= |keep| && |tmp| == j
      invariant forall q :: 0 <= q < j ==> tmp[q] == ots[keep[q]]
    {
      tmp := tmp + [ots[keep[j]]];
      j := j + 1;
    }
  }

  /** The `while to_process` loop, taking at most `fuel` edges. */
  method WorkList(nodes: seq<Node>, start: seq<Edge>, fuel: nat) returns (fin: seq<OffsetPath>, objs: seq<nat>)
    requires EdgesInside(nodes) && forall e :: e in start ==> e.2 < |nodes|
    ensures fin == Paths(Finals(nodes, start, fuel)) && objs == Handles(Finals(nodes, start, fuel))
  {
    var stack: seq<Edge> := start;
    var found: seq<Edge> := [];
    var n := fuel;
    while n > 0 && |stack| > 0
      invariant forall e :: e in stack ==> e.2 < |nodes|
      invariant found + Finals(nodes, stack, n) == Finals(nodes, start, fuel)
      decreases n
    {
      var e := stack[|stack| - 1];
      stack := stack[..|stack| - 1];
      if |nodes[e.2].offsetofTypes| == 0 {
        found := found + [e];
      } else {
        stack := stack + nodes[e.2].offsetofTypes;
      }
      n := n - 1;
    }
    assert found == Finals(nodes, start, fuel);
    fin, objs := Paths(found), Handles(found);
  }

  // ---------------------------------------------------------------------------
  // Allocation size after casts

  /** The size of the type a recorded cast went to: the cast's original type, through its real type for a pointer. */
  function CastTargetSize(db: Db, c: CastEntry): int {
    StripTypedef(db, TypeOf(db, if c.2 then RealType(db, c.1) else c.1)).size
  }

  /** The largest of `base` and the sizes of the cast targets. */
  function MaxCastSize(db: Db, base: int, casts: seq<CastEntry>): (m: int)
    ensures m >= base && forall c :: c in casts ==> m >= CastTargetSize(db, c)
    ensures m == base || exists c :: c in casts && m == CastTargetSize(db, c)
    decreases |casts|
  {
    if |casts| == 0 then base
    else
      var prev := MaxCastSize(db, base, casts[..|casts| - 1]);
      var c := casts[|casts| - 1];
      assert forall x :: x in casts <==> x in casts[..|casts| - 1] || x == c;
      if CastTargetSize(db, c) > prev then CastTargetSize(db, c) else prev
  }

  /** The loop over `cast_types` keeping the largest size. */
  method LargestCast(db: Db, base: int, casts: seq<CastEntry>) returns (m: int)
    ensures m == MaxCastSize(db, base, casts)
  {
    m := base;
    var k := 0;
    while k < |casts|
      invariant 0 <= k <= |casts|
      invariant m == MaxCastSize(db, base, casts[..k])
    {
      assert casts[..k + 1][..k] == casts[..k];
      var s := CastTargetSize(db, casts[k]);
      if s > m {
        m := s;
      }
      k := k + 1;
    }
    assert casts[..|casts|] == casts;
  }

  /** The allocation size when a cast target is larger: a byte count for a zero-sized type, else a multiple of its `sizeof`. */
  datatype Multiplier = ByteCount(bytes: int) | ElementCount(factor: int)

  /**
   * The multiplier for an object of type `dst` that was cast to the targets `casts`: none when
   * no target is larger; otherwise room for the largest target.
   */
  function CastMultiplier(db: Db, dst: Type, casts: seq<CastEntry>): (r: Option<Multiplier>)
    ensures r.Some? <==> exists c :: c in casts && CastTargetSize(db, c) > dst.size
    ensures r.Some? && r.value.ByteCount? ==>
      dst.size == 0 && forall c :: c in casts ==> CastTargetSize(db, c) <= 8 * r.value.bytes
    ensures r.Some? && r.value.ElementCount? ==> dst.size != 0
    ensures r.Some? && r.value.ElementCount? && dst.size > 0 ==>
      forall c :: c in casts ==> CastTargetSize(db, c) < r.value.factor * dst.size
  {
    var m := MaxCastSize(db, dst.size, casts);
    if |casts| == 0 || m <= dst.size then None
    else if dst.size == 0 then Some(ByteCount(if FloorDiv(m, 8) * 8 == m then FloorDiv(m, 8) else FloorDiv(m, 8) + 1))
    else Some(ElementCount(FloorDiv(m, dst.size) + 1))
  }

  // ---------------------------------------------------------------------------
  // Room for fuzzed strings

  /** Extra elements for a fuzzed `char` (32) or `void` (128) buffer that is not to be NUL-terminated. */
  function Slack(userInit: bool, typename: string, fuzz: int, nullTerminate: bool): (n: nat)
    ensures n != 0 <==> !userInit && fuzz != 0 && !nullTerminate && (typename == "char" || typename == "void")
    ensures n != 0 ==> n == (if typename == "char" then 32 else 128)
  {
    if !userInit && typename == "char" && fuzz != 0 && !nullTerminate then 32
    else if !userInit && typename == "void" && fuzz != 0 && !nullTerminate then 128
    else 0
  }

  /** The element count allocated: the loop count, plus the slack unless an explicit count was given. */
  function AllocCount(loopCount: int, countGiven: bool, slack: nat): (cnt: int)
    ensures countGiven || slack == 0 ==> cnt == loopCount
    ensures !countGiven ==> cnt == loopCount + slack
  {
    if !countGiven && slack != 0 then loopCount + slack else loopCount
  }

  /**
   * The positions the emitted code sets to zero after the allocation: `cnt - 1` when there is
   * slack and no NUL termination, `loop_count - 1` when the buffer is NUL-terminated.
   */
  function ZeroedAt(slack: nat, nullTerminate: bool, cnt: int, loopCount: int): seq<int> {
    (if slack != 0 && !nullTerminate then [cnt - 1] else []) + (if nullTerminate then [loopCount - 1] else [])
  }

  /**
   * At most one terminating zero is written, exactly when there is slack or NUL termination.
   * With slack and no explicit count it lies past every initialised element (at least 31
   * beyond them); with an explicit count, or for a NUL-terminated buffer, it is the last
   * initialised element.
   */
  lemma TerminatorPlacement(userInit: bool, typename: string, fuzz: int, nullTerminate: bool, loopCount: int, countGiven: bool)
    ensures var slack := Slack(userInit, typename, fuzz, nullTerminate);
      var z := ZeroedAt(slack, nullTerminate, AllocCount(loopCount, countGiven, slack), loopCount);
      (|z| <= 1 && (|z| == 1 <==> slack != 0 || nullTerminate)) &&
      (slack != 0 && !countGiven ==> z == [loopCount + slack - 1] && z[0] >= loopCount + 31) &&
      (slack != 0 && countGiven ==> z == [loopCount - 1]) &&
      (nullTerminate ==> z == [loopCount - 1])
  {
  }

  // ---------------------------------------------------------------------------
  // Bitfields

  /** A member is used when the type's `usedrefs` marks it; a type without `usedrefs` uses none. */
  predicate BitfieldUsed(t: Type, index: int) {
    At(t.usedrefs, index, -1) != -1
  }

  /** The (member, width) pairs of the used bitfields, in the type's order. */
  function UsedBitfields(t: Type, bfs: seq<(int, int)>): (r: seq<(int, int)>)
    ensures forall b :: b in r <==> b in bfs && BitfieldUsed(t, b.0)
    ensures |r| <= |bfs|
    decreases |bfs|
  {
    if |bfs| == 0 then []
    else
      var prev := UsedBitfields(t, bfs[..|bfs| - 1]);
      var b := bfs[|bfs| - 1];
      assert forall x :: x in bfs <==> x in bfs[..|bfs| - 1] || x == b;
      if BitfieldUsed(t, b.0) then prev + [b] else prev
  }

  /** The loop filling `bitfields`. */
  method CollectBitfields(t: Type) returns (r: seq<(int, int)>)
    ensures r == UsedBitfields(t, t.bitfields)
  {
    r := [];
    var k := 0;
    while k < |t.bitfields|
      invariant 0 <= k <= |t.bitfields|
      invariant r == UsedBitfields(t, t.bitfields[..k])
    {
      assert t.bitfields[..k + 1][..k] == t.bitfields[..k];
      var (index, bitcount) := t.bitfields[k];
      if |t.usedrefs| > 0 && -1 != At(t.usedrefs, index, -1) {
        r := r + [(index, bitcount)];
      }
      k := k + 1;
    }
    assert t.bitfields[..|t.bitfields|] == t.bitfields;
  }
}
