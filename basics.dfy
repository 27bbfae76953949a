/** Shared vocabulary: optional values and the few list operations the analysis relies on. */
module Basics {

  datatype Option<+T> = None | Some(value: T)

  /** Number of occurrences of `x` in `s` (Python's `list.count`). */
  function Count<T(==)>(s: seq<T>, x: T): (n: nat)
    ensures n <= |s|
    ensures n > 0 <==> x in s
  {
    if |s| == 0 then 0 else (if s[0] == x then 1 else 0) + Count(s[1..], x)
  }

  /** No element occurs twice. */
  predicate NoDups<T(==)>(s: seq<T>) {
    forall i, j :: 0 <= i < j < |s| ==> s[i] != s[j]
  }

  /** `s` with `x` appended unless it is already there (the `if x not in l: l.append(x)` idiom). */
  function AppendNew<T(==,!new)>(s: seq<T>, x: T): (r: seq<T>)
    ensures x in r
    ensures forall y :: y in r <==> y in s || y == x
    ensures s <= r && |r| <= |s| + 1
  {
    if x in s then s else s + [x]
  }

  /** Appending only absent elements keeps a list free of repetitions. */
  lemma AppendNewNoDups<T(!new)>(s: seq<T>, x: T)
    requires NoDups(s)
    ensures NoDups(AppendNew(s, x))
  {
  }

  /** The elements of a non-empty list are those before its last one and the last one. */
  lemma InFrontOrLast<T>(s: seq<T>)
    requires |s| > 0
    ensures forall x :: x in s <==> x in s[..|s| - 1] || x == s[|s| - 1]
  {
    assert s == s[..|s| - 1] + [s[|s| - 1]];
  }

  /** An element of a non-empty set (a witness for the element a `for x in s` loop picks next). */
  lemma ElementOf<T>(s: set<T>) returns (x: T)
    requires s != {}
    ensures x in s
  {
    if forall y :: y !in s {
      assert false;
    }
    x :| x in s;
  }

  /** Element `i` of `s`, or `default` when `i` is out of range. */
  function At<T>(s: seq<T>, i: int, default: T): (r: T)
    ensures 0 <= i < |s| ==> r == s[i]
    ensures !(0 <= i < |s|) ==> r == default
  {
    if 0 <= i < |s| then s[i] else default
  }

  /** Python's `s[-1]`, or `default` for an empty list. */
  function Last<T>(s: seq<T>, default: T): (r: T)
    ensures |s| > 0 ==> r == s[|s| - 1]
    ensures |s| == 0 ==> r == default
  {
    if |s| > 0 then s[|s| - 1] else default
  }

  /** `s` with position `i` replaced by `x`; a write out of range leaves `s` as it is. */
  function UpdateAt<T>(s: seq<T>, i: int, x: T): (r: seq<T>)
    ensures |r| == |s|
    ensures forall k :: 0 <= k < |s| ==> r[k] == (if k == i then x else s[k])
  {
    if 0 <= i < |s| then s[i := x] else s
  }

  /** Python's floor division `a // b`. */
  function FloorDiv(a: int, b: int): (q: int)
    requires b != 0
    ensures b > 0 ==> b * q <= a < b * q + b
    ensures b < 0 ==> b * q >= a > b * q + b
    ensures a >= 0 && b > 0 ==> q >= 0
  {
    if b > 0 then a / b else (-a) / (-b)
  }

  /**
   * An insertion-ordered dictionary (Python `dict`): `keys` lists the keys in insertion
   * order and `vals` maps them to their values. A new key goes to the end, an existing key
   * keeps its place. `DictInv` states that the two agree; the operations below keep it.
   */
  datatype Dict<K(==), V> = Dict(keys: seq<K>, vals: map<K, V>)

  /** The keys are exactly the mapped ones, and as many (so none is listed twice). */
  ghost predicate DictInv<K(!new), V>(d: Dict<K, V>) {
    |d.keys| == |d.vals| && forall k :: k in d.keys <==> k in d.vals
  }

  /** `{}`. */
  function Empty<K(==), V>(): (r: Dict<K, V>)
    ensures r.keys == [] && r.vals == map[]
  {
    Dict([], map[])
  }

  lemma EmptyInv<K(!new), V>()
    ensures DictInv(Empty<K, V>())
  {
  }

  /** The keys in insertion order (`list(a)`). */
  function Keys<K(==), V>(a: Dict<K, V>): seq<K> {
    a.keys
  }

  /** `k in a`. */
  predicate HasKey<K(==), V>(a: Dict<K, V>, k: K) {
    k in a.vals
  }

  /** `a[k]`: the value stored under `k`. */
  function Get<K(==), V>(a: Dict<K, V>, k: K): V
    requires HasKey(a, k)
  {
    a.vals[k]
  }

  /** `a[k] = v`. */
  function Put<K(==,!new), V>(a: Dict<K, V>, k: K, v: V): (r: Dict<K, V>)
    ensures Keys(r) == AppendNew(Keys(a), k)
    ensures HasKey(r, k) && Get(r, k) == v
    ensures forall k' :: k' != k ==> (HasKey(r, k') <==> HasKey(a, k'))
    ensures forall k' :: k' != k && HasKey(a, k') ==> Get(r, k') == Get(a, k')
  {
    Dict(AppendNew(a.keys, k), a.vals[k := v])
  }

  /** Storing a value keeps the keys list and the map in agreement. */
  lemma PutInv<K(!new), V>(a: Dict<K, V>, k: K, v: V)
    requires DictInv(a)
    ensures DictInv(Put(a, k, v))
  {
    var r := Put(a, k, v);
    if k !in a.vals {
      assert r.vals.Keys == a.vals.Keys + {k};
    } else {
      assert r.vals.Keys == a.vals.Keys;
    }
  }

  /** Every key of `a` is a key of `b`. */
  ghost predicate KeysKept<K(!new), V>(a: Dict<K, V>, b: Dict<K, V>) {
    forall k :: HasKey(a, k) ==> HasKey(b, k)
  }
}
