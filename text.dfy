/** String primitives of Python's `str` that the sitemap crawler relies on:
    substring tests, prefix and suffix tests, `strip`, `lstrip` and `lower`.
    A Dafny `string` is a sequence of Unicode scalar values; the lone surrogates a
    Python 3 `str` may also hold are not modelled. */
module Text {

  /** `sub in s`: `sub` occurs somewhere inside `s` (the empty string occurs everywhere). */
  predicate Contains(s: string, sub: string)
    decreases |s|
  {
    StartsWith(s, sub) || (s != [] && Contains(s[1..], sub))
  }

  /** A prefix of a string is contained in it. */
  lemma PrefixContained(s: string, p: string)
    requires StartsWith(s, p)
    ensures Contains(s, p)
  {
  }

  /** `sub` is the slice of `s` that starts at position `k`. */
  predicate OccursAt(s: string, sub: string, k: int) {
    0 <= k && k + |sub| <= |s| && s[k..k + |sub|] == sub
  }

  /** `sub in s` holds exactly when `sub` occurs in `s` at some position. */
  lemma {:induction false} ContainsAt(s: string, sub: string)
    ensures Contains(s, sub) <==> exists k :: OccursAt(s, sub, k)
    decreases |s|
  {
    if s == [] {
      if sub == [] {
        assert OccursAt(s, sub, 0);
      }
    } else {
      ContainsAt(s[1..], sub);
      if StartsWith(s, sub) {
        assert s[0..|sub|] == s[..|sub|];
        assert OccursAt(s, sub, 0);
      }
      if exists k :: OccursAt(s, sub, k) {
        var k :| OccursAt(s, sub, k);
        if k == 0 {
          assert s[..|sub|] == s[0..|sub|];
        } else {
          assert s[1..][k - 1..k - 1 + |sub|] == sub;
          assert OccursAt(s[1..], sub, k - 1);
        }
      }
      if Contains(s[1..], sub) {
        var k :| OccursAt(s[1..], sub, k);
        var here, there := s[k + 1..k + 1 + |sub|], s[1..][k..k + |sub|];
        assert forall i :: 0 <= i < |sub| ==> here[i] == there[i];
        assert OccursAt(s, sub, k + 1);
      }
    }
  }

  /** Whatever occurs in a slice of `s` occurs in `s`. */
  lemma ContainedInSlice(s: string, a: int, b: int, sub: string)
    requires 0 <= a <= b <= |s|
    ensures Contains(s[a..b], sub) ==> Contains(s, sub)
  {
    ContainsAt(s[a..b], sub);
    ContainsAt(s, sub);
    if Contains(s[a..b], sub) {
      var k :| OccursAt(s[a..b], sub, k);
      var here, there := s[a + k..a + k + |sub|], s[a..b][k..k + |sub|];
      assert forall i :: 0 <= i < |sub| ==> here[i] == there[i];
      assert OccursAt(s, sub, a + k);
    }
  }

  /** A one-character string occurs in `s` exactly when the character does. */
  lemma {:induction false} ContainsChar(s: string, c: char)
    ensures Contains(s, [c]) <==> c in s
  {
    if s != [] {
      ContainsChar(s[1..], c);
      assert c in s <==> s[0] == c || c in s[1..];
    }
  }

  /** `s.startswith(p)` */
  predicate StartsWith(s: string, p: string) {
    |p| <= |s| && s[..|p|] == p
  }

  /** `s.endswith(q)` */
  predicate EndsWith(s: string, q: string) {
    |q| <= |s| && s[|s| - |q|..] == q
  }

  /** The length of the longest prefix of `s` whose characters all satisfy `drop`. */
  function LeadingRun(s: string, drop: char -> bool): (n: nat)
    ensures n <= |s| && (n == |s| || !drop(s[n]))
    ensures forall k :: 0 <= k < n ==> drop(s[k])
    decreases |s|
  {
    if s != [] && drop(s[0]) then 1 + LeadingRun(s[1..], drop) else 0
  }

  /** The length of the longest suffix of `s` whose characters all satisfy `drop`. */
  function TrailingRun(s: string, drop: char -> bool): (n: nat)
    ensures n <= |s| && (n == |s| || !drop(s[|s| - 1 - n]))
    ensures forall k :: |s| - n <= k < |s| ==> drop(s[k])
    decreases |s|
  {
    if s != [] && drop(s[|s| - 1]) then 1 + TrailingRun(s[..|s| - 1], drop) else 0
  }

  /** `s.lstrip(chars)`: drop every leading character for which `drop` holds. */
  function StripLeft(s: string, drop: char -> bool): (r: string)
    ensures |r| <= |s| && r == s[|s| - |r|..]
    ensures r == [] || !drop(r[0])
    ensures forall k :: 0 <= k < |s| - |r| ==> drop(s[k])
  {
    s[LeadingRun(s, drop)..]
  }

  /** `s.rstrip(chars)`: drop every trailing character for which `drop` holds. */
  function StripRight(s: string, drop: char -> bool): (r: string)
    ensures |r| <= |s| && r == s[..|r|]
    ensures r == [] || !drop(r[|r| - 1])
    ensures forall k :: |r| <= k < |s| ==> drop(s[k])
  {
    s[..|s| - TrailingRun(s, drop)]
  }

  /** The characters for which Python's `str.isspace` holds. */
  predicate IsSpace(c: char) {
    var n := c as int;
    (9 <= n <= 13) || (28 <= n <= 32) || n == 0x85 || n == 0xA0 || n == 0x1680
    || (0x2000 <= n <= 0x200A) || n == 0x2028 || n == 0x2029 || n == 0x202F
    || n == 0x205F || n == 0x3000
  }

  /** `s.strip()`: the string without leading and trailing whitespace. */
  function Strip(s: string): (r: string)
    ensures |r| <= |s|
    ensures r == [] || (!IsSpace(r[0]) && !IsSpace(r[|r| - 1]))
  {
    StripRight(StripLeft(s, IsSpace), IsSpace)
  }

  /** A prefix `r` of the suffix `s[i..]` is the slice of `s` at `i`, and what `s` holds
      past its end is what the suffix holds past `r`. */
  lemma PrefixOfSuffix(s: string, i: int, left: string, r: string, drop: char -> bool)
    requires 0 <= i <= |s| && left == s[i..]
    requires |r| <= |left| && r == left[..|r|]
    requires forall k :: |r| <= k < |left| ==> drop(left[k])
    ensures i + |r| <= |s| && s[i..i + |r|] == r
    ensures forall k :: i + |r| <= k < |s| ==> drop(s[k])
  {
    forall k | i + |r| <= k < |s| ensures drop(s[k]) {
      assert s[k] == left[k - i];
    }
  }

  /** `lstrip` followed by `rstrip` with the same predicate keeps a slice of `s`: what is
      dropped on either side satisfies the predicate. */
  lemma StripBothEnds(s: string, drop: char -> bool)
    ensures var left := StripLeft(s, drop); var r, i := StripRight(left, drop), |s| - |left|;
      i + |r| <= |s| && s[i..i + |r|] == r
      && (forall k :: 0 <= k < i ==> drop(s[k]))
      && (forall k :: i + |r| <= k < |s| ==> drop(s[k]))
  {
    var left := StripLeft(s, drop);
    PrefixOfSuffix(s, |s| - |left|, left, StripRight(left, drop), drop);
  }

  /** `Strip(s)` is the part of `s` between a run of leading and a run of trailing whitespace. */
  lemma StripRemovesOnlyWhitespace(s: string)
    ensures var r, i := Strip(s), |s| - |StripLeft(s, IsSpace)|;
      i + |r| <= |s| && s[i..i + |r|] == r
      && (forall k :: 0 <= k < i ==> IsSpace(s[k]))
      && (forall k :: i + |r| <= k < |s| ==> IsSpace(s[k]))
  {
    StripBothEnds(s, IsSpace);
  }

  /** Whatever occurs in `Strip(s)` occurs in `s`. */
  lemma StripContained(s: string, sub: string)
    ensures Contains(Strip(s), sub) ==> Contains(s, sub)
  {
    StripRemovesOnlyWhitespace(s);
    var r, i := Strip(s), |s| - |StripLeft(s, IsSpace)|;
    ContainedInSlice(s, i, i + |r|, sub);
  }

  /** Stripping a stripped string changes nothing. */
  lemma StripIdempotent(s: string)
    ensures Strip(Strip(s)) == Strip(s)
  {
    var t := Strip(s);
    assert StripLeft(t, IsSpace) == t;
    assert StripRight(t, IsSpace) == t;
  }

  /** ASCII case folding of one character. */
  function LowerChar(c: char): char {
    if 'A' <= c <= 'Z' then (c as int + 32) as char else c
  }

  /** `s.lower()`, restricted to the ASCII letters. */
  function Lower(s: string): string {
    seq(|s|, i requires 0 <= i < |s| => LowerChar(s[i]))
  }

  /** No element of `s` appears twice. */
  predicate NoDup<T(==)>(s: seq<T>) {
    forall i, j :: 0 <= i < j < |s| ==> s[i] != s[j]
  }
}
