/** The few operations on Python `str` values that the include-graph code relies on:
    `strip()`, `startswith`, the substring test `e in s`, `count` of one character,
    `lower()` on ASCII text, and the code-point order used by `<` on strings. */
module Text {

  /** The characters for which Python's `str.isspace()` holds. */
  predicate IsSpace(c: char) {
    c == ' ' || ('\t' <= c <= '\r') || ('\U{1c}' <= c <= '\U{1f}') || c == '\U{85}' || c == '\U{a0}'
    || c == '\U{1680}' || ('\U{2000}' <= c <= '\U{200a}') || c == '\U{2028}' || c == '\U{2029}'
    || c == '\U{202f}' || c == '\U{205f}' || c == '\U{3000}'
  }

  /** The number of whitespace characters at the front of `s`. */
  function LeadingSpace(s: string): (n: nat)
    ensures n <= |s|
    ensures forall k :: 0 <= k < n ==> IsSpace(s[k])
    ensures n < |s| ==> !IsSpace(s[n])
  {
    if |s| > 0 && IsSpace(s[0]) then 1 + LeadingSpace(s[1..]) else 0
  }

  /** The index where the run of whitespace at the end of `s` begins. */
  function TrailingSpace(s: string): (m: nat)
    ensures m <= |s|
    ensures forall k :: m <= k < |s| ==> IsSpace(s[k])
    ensures 0 < m ==> !IsSpace(s[m - 1])
  {
    if |s| > 0 && IsSpace(s[|s| - 1]) then TrailingSpace(s[..|s| - 1]) else |s|
  }

  /** `r` is `s[i..]` cut short by a suffix of whitespace, after a prefix of whitespace. */
  predicate StrippedAt(s: string, r: string, i: int) {
    0 <= i <= |s| - |r| && s[i..i + |r|] == r
    && (forall k :: 0 <= k < i ==> IsSpace(s[k]))
    && (forall k :: i + |r| <= k < |s| ==> IsSpace(s[k]))
  }

  /** Python's `s.strip()`: the longest infix of `s` that neither starts nor ends with whitespace. */
  function Strip(s: string): (r: string)
    ensures exists i :: StrippedAt(s, r, i)
    ensures r == [] || (!IsSpace(r[0]) && !IsSpace(r[|r| - 1]))
  {
    var n := LeadingSpace(s);
    var t := s[n..];
    var m := TrailingSpace(t);
    assert StrippedAt(s, t[..m], n);
    t[..m]
  }

  /** The contract of `Strip` determines its result. */
  lemma StripUnique(s: string, r: string, i: int)
    requires StrippedAt(s, r, i) && (r == [] || (!IsSpace(r[0]) && !IsSpace(r[|r| - 1])))
    ensures Strip(s) == r
  {
    var t := Strip(s);
    var j :| StrippedAt(s, t, j);
    if r != [] && t != [] {
      assert s[i] == r[0] && s[j] == t[0];
      assert s[i + |r| - 1] == r[|r| - 1] && s[j + |t| - 1] == t[|t| - 1];
      assert i == j && |r| == |t|;
    }
  }

  /** Python's `s.startswith(p)`. */
  predicate StartsWith(s: string, p: string) {
    |p| <= |s| && s[..|p|] == p
  }

  predicate OccursAt(s: string, e: string, i: int)
    requires 0 <= i && i + |e| <= |s|
  {
    s[i..i + |e|] == e
  }

  /** Python's substring test `e in s`; the empty string occurs in every string. */
  predicate Contains(s: string, e: string) {
    exists i :: 0 <= i <= |s| - |e| && OccursAt(s, e, i)
  }

  /** Python's `s.count(c)` for a single character `c`. */
  function CountChar(s: string, c: char): (n: nat)
    ensures n == multiset(s)[c]
  {
    if s == [] then 0
    else
      assert s == s[..|s| - 1] + [s[|s| - 1]];
      CountChar(s[..|s| - 1], c) + (if s[|s| - 1] == c then 1 else 0)
  }

  predicate IsUpper(c: char) {
    'A' <= c <= 'Z'
  }

  /** Python's `c.lower()` on an ASCII character. */
  function LowerChar(c: char): (r: char)
    ensures !IsUpper(r)
    ensures !IsUpper(c) ==> r == c
    ensures IsUpper(c) ==> r as int == c as int + 32
  {
    if IsUpper(c) then (c as int - 'A' as int + 'a' as int) as char else c
  }

  /** Python's `s.lower()` where `s` holds only ASCII characters. */
  function Lower(s: string): (r: string)
    ensures |r| == |s|
    ensures forall k :: 0 <= k < |r| ==> !IsUpper(r[k])
    ensures forall k :: 0 <= k < |s| ==> (!IsUpper(s[k]) ==> r[k] == s[k]) && (IsUpper(s[k]) ==> r[k] as int == s[k] as int + 32)
  {
    seq(|s|, k requires 0 <= k < |s| => LowerChar(s[k]))
  }

  /** Lowering text without upper-case letters leaves it unchanged. */
  lemma LowerOfLower(s: string)
    requires forall k :: 0 <= k < |s| ==> !IsUpper(s[k])
    ensures Lower(s) == s
  {
  }

  /** Python's `a <= b` on strings: code point by code point, a proper prefix first. */
  predicate LexLe(a: string, b: string)
    decreases |a|
  {
    |a| == 0 || (|b| > 0 && (a[0] < b[0] || (a[0] == b[0] && LexLe(a[1..], b[1..]))))
  }

  lemma {:induction false} LexLeTotal(a: string, b: string)
    ensures LexLe(a, b) || LexLe(b, a)
    decreases |a|
  {
    if |a| > 0 && |b| > 0 && a[0] == b[0] {
      LexLeTotal(a[1..], b[1..]);
    }
  }

  lemma {:induction false} LexLeTransitive(a: string, b: string, c: string)
    requires LexLe(a, b) && LexLe(b, c)
    ensures LexLe(a, c)
    decreases |a|
  {
    if |a| > 0 && a[0] == b[0] && b[0] == c[0] {
      LexLeTransitive(a[1..], b[1..], c[1..]);
    }
  }

  lemma {:induction false} LexLeAntisymmetric(a: string, b: string)
    requires LexLe(a, b) && LexLe(b, a)
    ensures a == b
    decreases |a|
  {
    if |a| > 0 {
      LexLeAntisymmetric(a[1..], b[1..]);
      assert a == [a[0]] + a[1..] && b == [b[0]] + b[1..];
    }
  }
}
