/**
 * The Python string operations the analysis uses on names: `in` (substring test), `replace`,
 * `lower`, `rfind`, `lstrip`/`strip`, the last token of `split()`, and decimal formatting of a count.
 * Characters are treated as ASCII; Unicode case mapping and Unicode white space are not modelled.
 */
module Strings {

  import opened Basics

  /** `p` occurs in `s` starting at position `i`. */
  predicate OccursAt(s: string, p: string, i: int) {
    0 <= i && i + |p| <= |s| && s[i..i + |p|] == p
  }

  /** Python's `p in s` for strings. */
  function Contains(s: string, p: string): bool
    decreases |s|
  {
    if p <= s then true
    else if |s| == 0 then false
    else Contains(s[1..], p)
  }

  /** `Contains` finds exactly the patterns that occur somewhere in `s`. */
  lemma {:induction false} ContainsIff(s: string, p: string)
    ensures Contains(s, p) <==> exists i :: OccursAt(s, p, i)
    decreases |s|
  {
    if p <= s {
      assert OccursAt(s, p, 0);
    } else if |s| > 0 {
      ContainsIff(s[1..], p);
      assert forall i :: OccursAt(s[1..], p, i) ==> OccursAt(s, p, i + 1) by {
        forall i | OccursAt(s[1..], p, i) ensures OccursAt(s, p, i + 1) {
          assert s[1..][i..i + |p|] == s[i + 1..i + 1 + |p|];
        }
      }
      assert forall i :: OccursAt(s, p, i) ==> OccursAt(s[1..], p, i - 1) by {
        forall i | OccursAt(s, p, i) ensures OccursAt(s[1..], p, i - 1) {
          assert s[1..][i - 1..i - 1 + |p|] == s[i..i + |p|];
        }
      }
    }
  }

  /** `r` inserted before every character of `s` and once at its end (Python's `s.replace("", r)`). */
  function Interleave(s: string, r: string): (t: string)
    ensures |t| == |s| + (|s| + 1) * |r|
  {
    if |s| == 0 then r else r + [s[0]] + Interleave(s[1..], r)
  }

  /** Python's `s.replace(p, r)`: every non-overlapping occurrence of `p`, left to right, replaced by `r`. */
  function ReplaceAll(s: string, p: string, r: string): (t: string)
    decreases |s|
  {
    if |p| == 0 then Interleave(s, r)
    else if p <= s then r + ReplaceAll(s[|p|..], p, r)
    else if |s| == 0 then []
    else [s[0]] + ReplaceAll(s[1..], p, r)
  }

  /** Replacing a non-empty pattern by the empty string never lengthens the string. */
  lemma {:induction false} ReplaceByEmptyShrinks(s: string, p: string)
    requires |p| > 0
    ensures |ReplaceAll(s, p, "")| <= |s|
    decreases |s|
  {
    if p <= s {
      ReplaceByEmptyShrinks(s[|p|..], p);
    } else if |s| > 0 {
      ReplaceByEmptyShrinks(s[1..], p);
    }
  }

  /** Replacing a single character by a string that does not contain it removes every occurrence of it. */
  lemma {:induction false} ReplaceCharRemoves(s: string, c: char, r: string)
    requires c !in r
    ensures c !in ReplaceAll(s, [c], r)
    decreases |s|
  {
    if [c] <= s {
      ReplaceCharRemoves(s[1..], c, r);
    } else if |s| > 0 {
      ReplaceCharRemoves(s[1..], c, r);
    }
  }

  /** Replacing any pattern keeps characters that occur neither in the text nor in the replacement out. */
  lemma {:induction false} ReplaceKeepsAbsentChar(s: string, p: string, r: string, c: char)
    requires c !in s && c !in r
    ensures c !in ReplaceAll(s, p, r)
    decreases |s|
  {
    if |p| == 0 {
      InterleaveKeepsAbsentChar(s, r, c);
    } else if p <= s {
      ReplaceKeepsAbsentChar(s[|p|..], p, r, c);
    } else if |s| > 0 {
      ReplaceKeepsAbsentChar(s[1..], p, r, c);
    }
  }

  lemma {:induction false} InterleaveKeepsAbsentChar(s: string, r: string, c: char)
    requires c !in s && c !in r
    ensures c !in Interleave(s, r)
  {
    if |s| > 0 {
      InterleaveKeepsAbsentChar(s[1..], r, c);
    }
  }

  /** ASCII lower-casing of one character. */
  function LowerChar(c: char): (d: char)
    ensures 'A' <= c <= 'Z' ==> 'a' <= d <= 'z'
    ensures !('A' <= c <= 'Z') ==> d == c
  {
    if 'A' <= c <= 'Z' then (c as int + 32) as char else c
  }

  /** Python's `s.lower()` restricted to ASCII letters. */
  function Lower(s: string): (t: string)
    ensures |t| == |s|
    ensures forall i :: 0 <= i < |s| ==> t[i] == LowerChar(s[i])
  {
    if |s| == 0 then [] else [LowerChar(s[0])] + Lower(s[1..])
  }

  /** Python's `s.rfind(p)` for a non-empty pattern: the last start position of `p`, or -1. */
  function RFind(s: string, p: string): (r: int)
    requires |p| > 0
    ensures r >= -1
    ensures r >= 0 ==> OccursAt(s, p, r)
    ensures forall j :: OccursAt(s, p, j) ==> j <= r
    decreases |s|
  {
    if |s| < |p| then -1
    else if s[|s| - |p|..] == p then |s| - |p|
    else
      var t := s[..|s| - 1];
      var r := RFind(t, p);
      assert r >= 0 ==> OccursAt(s, p, r) by {
        if r >= 0 { assert t[r..r + |p|] == s[r..r + |p|]; }
      }
      assert forall j :: OccursAt(s, p, j) ==> OccursAt(t, p, j) by {
        forall j | OccursAt(s, p, j) ensures OccursAt(t, p, j) {
          assert t[j..j + |p|] == s[j..j + |p|];
        }
      }
      r
  }

  /** White space as Python's `str.split()` and `str.strip()` see it, restricted to ASCII. */
  predicate IsSpace(c: char) {
    c == ' ' || c == '\t' || c == '\n' || c == '\r' || c == '\U{b}' || c == '\U{c}' ||
    ('\U{1c}' <= c <= '\U{1f}')
  }

  /** Python's `s.lstrip()`. */
  function LStrip(s: string): (t: string)
    ensures t <= s || (|t| <= |s| && t == s[|s| - |t|..])
    ensures |t| > 0 ==> !IsSpace(t[0])
    ensures forall i :: 0 <= i < |s| - |t| ==> IsSpace(s[i])
  {
    if |s| > 0 && IsSpace(s[0]) then LStrip(s[1..]) else s
  }

  /**
   * Python's `s.split()[-1]`: the last maximal run of non-space characters, or None when `s`
   * holds no such character (where the source's `[-1]` would raise IndexError).
   */
  function LastToken(s: string): (r: Option<string>)
    ensures r.Some? ==> |r.value| > 0 && forall c :: c in r.value ==> !IsSpace(c)
    ensures r.Some? ==> |r.value| + TrailingSpace(s) <= |s|
    ensures r.Some? ==> r.value == s[|s| - TrailingSpace(s) - |r.value|..|s| - TrailingSpace(s)]
    ensures r.Some? && |r.value| + TrailingSpace(s) < |s| ==>
      IsSpace(s[|s| - TrailingSpace(s) - |r.value| - 1])
    ensures r.None? <==> forall c :: c in s ==> IsSpace(c)
  {
    var t := TrailingSpace(s);
    var body := s[..|s| - t];
    var n := TokenSuffix(body);
    if n == 0 then
      assert forall c :: c in s ==> IsSpace(c) by {
        forall c | c in s ensures IsSpace(c) {
          var i :| 0 <= i < |s| && s[i] == c;
        }
      }
      None
    else
      assert |body| == |s| - t;
      assert body[|body| - n..] == s[|s| - t - n..|s| - t];
      assert n < |body| ==> body[|body| - n - 1] == s[|s| - t - n - 1];
      Some(body[|body| - n..])
  }

  /** Number of white-space characters at the end of `s`. */
  function TrailingSpace(s: string): (n: nat)
    ensures n <= |s|
    ensures forall i :: |s| - n <= i < |s| ==> IsSpace(s[i])
    ensures n < |s| ==> !IsSpace(s[|s| - n - 1])
  {
    if |s| > 0 && IsSpace(s[|s| - 1]) then TrailingSpace(s[..|s| - 1]) + 1 else 0
  }

  /** Length of the run of non-space characters that ends `s`. */
  function TokenSuffix(s: string): (n: nat)
    ensures n <= |s|
    ensures forall i :: |s| - n <= i < |s| ==> !IsSpace(s[i])
    ensures n < |s| ==> IsSpace(s[|s| - n - 1])
  {
    if |s| > 0 && !IsSpace(s[|s| - 1]) then TokenSuffix(s[..|s| - 1]) + 1 else 0
  }

  /** Decimal representation of a natural number, as Python's f-string `{n}` writes it. */
  function NatToString(n: nat): (s: string)
    ensures |s| > 0
    ensures IsDecimal(s)
    decreases n
  {
    if n < 10 then [Digit(n)] else NatToString(n / 10) + [Digit(n % 10)]
  }

  function Digit(d: nat): (c: char)
    requires d < 10
    ensures '0' <= c <= '9'
    ensures c as int - '0' as int == d
  {
    ('0' as int + d) as char
  }

  predicate IsDecimal(s: string) {
    forall i :: 0 <= i < |s| ==> '0' <= s[i] <= '9'
  }

  /** The value a decimal string denotes (the inverse of NatToString). */
  function DecimalValue(s: string): nat
    requires IsDecimal(s)
  {
    if |s| == 0 then 0 else DecimalValue(s[..|s| - 1]) * 10 + (s[|s| - 1] as int - '0' as int)
  }

  /** Reading back a formatted number gives the number. */
  lemma {:induction false} NatToStringRoundTrip(n: nat)
    ensures DecimalValue(NatToString(n)) == n
    decreases n
  {
    if n >= 10 {
      var s := NatToString(n);
      NatToStringRoundTrip(n / 10);
      assert s[..|s| - 1] == NatToString(n / 10);
    }
  }

  /** Different numbers are written differently. */
  lemma NatToStringInjective(a: nat, b: nat)
    requires NatToString(a) == NatToString(b)
    ensures a == b
  {
    NatToStringRoundTrip(a);
    NatToStringRoundTrip(b);
  }
}
