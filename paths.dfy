/** The `os.path` functions the tool calls, as Python's `posixpath` defines them:
    `basename`, `splitext` and `join`, with '/' as the only separator. */
module Paths {

  const Sep: char := '/'

  /** Python's `s.rfind(c, 0, n)`: the last index below `n` holding `c`, or -1. */
  function LastIndexBefore(s: string, c: char, n: nat): (r: int)
    requires n <= |s|
    ensures -1 <= r < n
    decreases n
  {
    if n == 0 then -1
    else if s[n - 1] == c then n - 1
    else LastIndexBefore(s, c, n - 1)
  }

  lemma {:induction false} LastIndexBeforeSpec(s: string, c: char, n: nat)
    requires n <= |s|
    ensures var r := LastIndexBefore(s, c, n);
            (0 <= r ==> s[r] == c) && forall k :: r < k < n ==> s[k] != c
    decreases n
  {
    if n > 0 && s[n - 1] != c {
      LastIndexBeforeSpec(s, c, n - 1);
    }
  }

  /** Python's `s.rfind(c)`: the last index of `c` in `s`, or -1. */
  function LastIndexOf(s: string, c: char): (r: int)
    ensures -1 <= r < |s|
  {
    LastIndexBefore(s, c, |s|)
  }

  /** `rfind` finds `c`, and no `c` lies after what it finds. */
  lemma LastIndexOfSpec(s: string, c: char)
    ensures var r := LastIndexOf(s, c);
            (0 <= r ==> s[r] == c) && forall k :: r < k < |s| ==> s[k] != c
  {
    LastIndexBeforeSpec(s, c, |s|);
  }

  /** The contract of `LastIndexOf` determines its result. */
  lemma LastIndexUnique(s: string, c: char, r: int)
    requires -1 <= r < |s| && (0 <= r ==> s[r] == c)
    requires forall k :: r < k < |s| ==> s[k] != c
    ensures LastIndexOf(s, c) == r
  {
    LastIndexOfSpec(s, c);
  }

  /** `os.path.basename(p)`: what follows the last separator. */
  function Basename(p: string): string {
    p[LastIndexOf(p, Sep) + 1..]
  }

  /** The bare name is the suffix of the path after its last separator. */
  lemma BasenameShape(p: string)
    ensures var r := Basename(p);
            Sep !in r && |r| <= |p| && p[|p| - |r|..] == r && (|r| < |p| ==> p[|p| - |r| - 1] == Sep)
  {
    LastIndexOfSpec(p, Sep);
  }

  /** `os.path.splitext(p)`: splits before the last '.' of the final component, unless
      everything before that dot in the component is dots (so ".h" has no extension). */
  function SplitExt(p: string): (r: (string, string))
    ensures r.0 + r.1 == p
    ensures r.1 == [] || (r.1[0] == '.' && '.' !in r.1[1..] && Sep !in r.1)
  {
    var sepIndex := LastIndexOf(p, Sep);
    var dotIndex := LastIndexOf(p, '.');
    LastIndexOfSpec(p, Sep);
    LastIndexOfSpec(p, '.');
    if SplitsAt(p, sepIndex, dotIndex) then
      assert forall k :: 1 <= k < |p[dotIndex..]| ==> p[dotIndex..][k] == p[dotIndex + k];
      assert p[..dotIndex] + p[dotIndex..] == p;
      (p[..dotIndex], p[dotIndex..])
    else
      (p, [])
  }

  /** The dot at `dotIndex` follows the last separator and some character between them
      is not a dot. */
  predicate SplitsAt(p: string, sepIndex: int, dotIndex: int) {
    sepIndex < dotIndex && exists k :: sepIndex < k < dotIndex && 0 <= k < |p| && p[k] != '.'
  }

  /** The extension as `os.path.splitext(p)[1]` gives it. */
  function Ext(p: string): string {
    SplitExt(p).1
  }

  /** The final component has a dot with some character other than a dot before it. */
  predicate HasExtension(b: string) {
    exists k, i :: 0 <= k < i < |b| && b[i] == '.' && b[k] != '.'
  }

  /** `rfind` in a suffix of `s` finds the last occurrence in `s` shifted, if it lies in the suffix. */
  lemma SuffixLastIndex(s: string, off: nat, c: char)
    requires off <= |s|
    ensures LastIndexOf(s[off..], c) == if LastIndexOf(s, c) >= off then LastIndexOf(s, c) - off else -1
  {
    var t := s[off..];
    var r := LastIndexOf(s, c);
    LastIndexOfSpec(s, c);
    assert forall k :: 0 <= k < |t| ==> t[k] == s[off + k];
    LastIndexUnique(t, c, if r >= off then r - off else -1);
  }

  /** `splitext` finds an extension exactly when the bare filename has one, and the
      extension of a path is the extension of its bare filename. */
  lemma ExtOfBasename(p: string)
    ensures Ext(p) == Ext(Basename(p))
    ensures Ext(p) != [] <==> HasExtension(Basename(p))
  {
    var sepIndex := LastIndexOf(p, Sep);
    var dotIndex := LastIndexOf(p, '.');
    var off := sepIndex + 1;
    var b := p[off..];
    SuffixLastIndex(p, off, Sep);
    SuffixLastIndex(p, off, '.');
    if SplitsAt(p, sepIndex, dotIndex) {
      ExtOfBasenameSplit(p, b, sepIndex, dotIndex);
    } else {
      ExtOfBasenameWhole(p, b, sepIndex, dotIndex);
    }
  }

  lemma ExtOfBasenameSplit(p: string, b: string, sepIndex: int, dotIndex: int)
    requires sepIndex == LastIndexOf(p, Sep) && dotIndex == LastIndexOf(p, '.') && b == p[sepIndex + 1..]
    requires SplitsAt(p, sepIndex, dotIndex)
    ensures SplitsAt(b, -1, dotIndex - sepIndex - 1)
    ensures HasExtension(b) && b[dotIndex - sepIndex - 1..] == p[dotIndex..]
  {
    var off := sepIndex + 1;
    LastIndexOfSpec(p, '.');
    var k :| sepIndex < k < dotIndex && 0 <= k < |p| && p[k] != '.';
    assert b[k - off] == p[k];
    assert b[dotIndex - off] == p[dotIndex] == '.';
    assert b[dotIndex - off..] == p[dotIndex..];
  }

  lemma ExtOfBasenameWhole(p: string, b: string, sepIndex: int, dotIndex: int)
    requires sepIndex == LastIndexOf(p, Sep) && dotIndex == LastIndexOf(p, '.') && b == p[sepIndex + 1..]
    requires LastIndexOf(b, Sep) == -1
    requires LastIndexOf(b, '.') == if dotIndex > sepIndex then dotIndex - sepIndex - 1 else -1
    requires !SplitsAt(p, sepIndex, dotIndex)
    ensures !SplitsAt(b, -1, LastIndexOf(b, '.')) && !HasExtension(b)
  {
    var off := sepIndex + 1;
    var bdot := LastIndexOf(b, '.');
    LastIndexOfSpec(b, '.');
    forall k | 0 <= k < bdot ensures b[k] == '.' {
      assert b[k] == p[k + off];
    }
    forall k, i | 0 <= k < i < |b| && b[i] == '.' ensures b[k] == '.' {
      assert i <= bdot;
    }
  }

  /** `os.path.join(a, b)`: `b` alone when it is absolute, otherwise `a` and `b` with one
      separator between them unless `a` is empty or already ends with one. */
  function Join(a: string, b: string): string {
    if |b| > 0 && b[0] == Sep then b
    else if a == [] || a[|a| - 1] == Sep then a + b
    else a + [Sep] + b
  }

  /** Joining a bare file name to a directory gives back that name as the basename. */
  lemma JoinBasename(a: string, b: string)
    requires Sep !in b
    ensures Basename(Join(a, b)) == b
  {
    var r := Join(a, b);
    if a == [] {
      assert r == b;
      LastIndexUnique(b, Sep, -1);
      assert b[0..] == b;
    } else if a[|a| - 1] == Sep {
      assert forall k :: |a| <= k < |r| ==> r[k] == b[k - |a|];
      LastIndexUnique(r, Sep, |a| - 1);
      assert r[|a|..] == b;
    } else {
      assert forall k :: |a| + 1 <= k < |r| ==> r[k] == b[k - |a| - 1];
      LastIndexUnique(r, Sep, |a|);
      assert r[|a| + 1..] == b;
    }
  }

  lemma SplitExtExamples()
    ensures SplitExt("foo.h") == ("foo", ".h")
    ensures SplitExt("a.b.cpp") == ("a.b", ".cpp")
    ensures SplitExt(".h") == (".h", "")
    ensures SplitExt("dir/x.y/readme") == ("dir/x.y/readme", "")
  {
    var f := "foo.h";
    LastIndexUnique(f, '.', 3);
    LastIndexUnique(f, Sep, -1);
    assert f[0] != '.' && f[..3] == "foo" && f[3..] == ".h";
    var q := "a.b.cpp";
    LastIndexUnique(q, '.', 3);
    LastIndexUnique(q, Sep, -1);
    assert q[0] != '.' && q[..3] == "a.b" && q[3..] == ".cpp";
    var h := ".h";
    LastIndexUnique(h, '.', 0);
    LastIndexUnique(h, Sep, -1);
    var d := "dir/x.y/readme";
    LastIndexUnique(d, '.', 5);
    LastIndexUnique(d, Sep, 7);
  }
}
