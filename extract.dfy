/** The include extractor: finding a file name in a line with the pattern
    `[a-zA-Z0-9_]+[.][a-zA-Z0-9_]+` (`get_filename_from_string`) and scanning a file's
    lines for `#include` directives and `;` characters (`process_file`). */
module Extract {
  import opened Wrappers
  import opened Text

  /** The character class `[a-zA-Z0-9_]`. */
  predicate IsWordChar(c: char) {
    'a' <= c <= 'z' || 'A' <= c <= 'Z' || '0' <= c <= '9' || c == '_'
  }

  predicate WordsIn(s: string, a: int, b: int)
    requires 0 <= a <= b <= |s|
  {
    forall k :: a <= k < b ==> IsWordChar(s[k])
  }

  /** `s[start..end]` matches the pattern with its `[.]` at `dot`. */
  predicate MatchWith(s: string, start: int, dot: int, end: int) {
    0 <= start < dot && dot + 1 < end <= |s|
    && s[dot] == '.' && WordsIn(s, start, dot) && WordsIn(s, dot + 1, end)
  }

  /** `s[start..end]` matches the pattern: a run of word characters, a dot, a run of word characters. */
  predicate MatchAt(s: string, start: int, end: int) {
    exists dot :: start < dot < end && MatchWith(s, start, dot, end)
  }

  /** The match `re.search` reports when scanning from `from`: the leftmost start at or after
      `from`, and at that start the longest end (the greedy second run). */
  ghost predicate FirstMatch(s: string, from: int, start: int, end: int) {
    from <= start && MatchAt(s, start, end)
    && (forall a, e :: from <= a < start ==> !MatchAt(s, a, e))
    && (forall e :: end < e ==> !MatchAt(s, start, e))
  }

  datatype Span = Span(start: nat, end: nat)

  /** The end of the run of word characters that begins at `k`. */
  function RunEnd(s: string, k: nat): (e: nat)
    requires k <= |s|
    ensures k <= e <= |s| && WordsIn(s, k, e)
    ensures e < |s| ==> !IsWordChar(s[e])
    decreases |s| - k
  {
    if k < |s| && IsWordChar(s[k]) then RunEnd(s, k + 1) else k
  }

  /** No match starts inside a run of word characters `s[i..j]` that is not followed by a dot
      and a word character. */
  lemma NoMatchInRun(s: string, i: nat, j: nat)
    requires i <= j <= |s| && WordsIn(s, i, j) && (j < |s| ==> !IsWordChar(s[j]))
    requires !(j + 1 < |s| && s[j] == '.' && IsWordChar(s[j + 1]))
    ensures forall a, e :: i <= a < j ==> !MatchAt(s, a, e)
  {
    forall a, dot, e | i <= a < j ensures !MatchWith(s, a, dot, e) {
      if a < dot < j {
        assert IsWordChar(s[dot]);
      } else if j < dot < |s| {
        assert !IsWordChar(s[j]);
      } else if dot == j && j + 1 < e <= |s| {
        assert !IsWordChar(s[j + 1]) || s[j] != '.';
      }
    }
  }

  /** The match found at a run start `i` whose run `s[i..j]` is followed by a dot and a word
      character ends where the second run ends, and no longer match starts at `i`. */
  lemma LongestAt(s: string, i: nat, j: nat)
    requires i < j && j + 1 < |s| && WordsIn(s, i, j) && s[j] == '.' && IsWordChar(s[j + 1])
    ensures MatchAt(s, i, RunEnd(s, j + 1))
    ensures forall e :: RunEnd(s, j + 1) < e ==> !MatchAt(s, i, e)
  {
    var end := RunEnd(s, j + 1);
    assert MatchWith(s, i, j, end);
    forall dot, e | end < e ensures !MatchWith(s, i, dot, e) {
      if i < dot < j {
        assert IsWordChar(s[dot]);
      } else if j < dot < |s| {
        assert !IsWordChar(s[j]);
      } else if dot == j && e <= |s| {
        assert !IsWordChar(s[end]);
      }
    }
  }

  /** `re.search` from position `from`: skips non-word characters and whole word runs
      that are not followed by `.` and a word character. */
  function SearchFrom(s: string, from: nat): (r: Option<Span>)
    requires from <= |s|
    ensures r.None? ==> forall a, e :: from <= a ==> !MatchAt(s, a, e)
    ensures r.Some? ==> FirstMatch(s, from, r.value.start, r.value.end)
    decreases |s| - from
  {
    if from == |s| then
      None
    else if !IsWordChar(s[from]) then
      assert forall dot, e :: !MatchWith(s, from, dot, e) by {
        forall dot | from < dot <= |s| ensures !WordsIn(s, from, dot) {
          assert !IsWordChar(s[from]);
        }
      }
      SearchFrom(s, from + 1)
    else
      var j := RunEnd(s, from);
      if j + 1 < |s| && s[j] == '.' && IsWordChar(s[j + 1]) then
        LongestAt(s, from, j);
        Some(Span(from, RunEnd(s, j + 1)))
      else
        NoMatchInRun(s, from, j);
        SearchFrom(s, j)
  }

  /** `get_filename_from_string`: the first match of the pattern, lowercased when `lower`
      holds, or `None` when the line has no match. */
  function GetFilenameFromString(path: string, lower: bool): (r: Option<string>)
    ensures r.None? <==> forall a, e :: !MatchAt(path, a, e)
    ensures r.Some? ==> exists a, e :: FirstMatch(path, 0, a, e)
                                       && r.value == if lower then Lower(path[a..e]) else path[a..e]
  {
    match SearchFrom(path, 0)
    case None => None
    case Some(sp) =>
      assert MatchAt(path, sp.start, sp.end);
      Some(if lower then Lower(path[sp.start..sp.end]) else path[sp.start..sp.end])
  }

  /** With `lower` the result is the lowered match, without it the match as written. */
  lemma LowerFlag(path: string)
    ensures GetFilenameFromString(path, true)
            == match GetFilenameFromString(path, false) case None => None case Some(n) => Some(Lower(n))
  {
  }

  /** An include written with upper-case letters names the lower-case key: leading blanks are
      stripped, and the match inside the quotes is lowered. */
  lemma IncludeOfExample()
    ensures IncludeOf("  #include \"Foo.H\"\n") == Some("foo.h")
  {
    var s := "#include \"Foo.H\"";
    StripExample();
    assert StartsWith(s, "#include");
    SearchExample(s);
    LowerExample();
  }

  lemma StripExample()
    ensures Strip("  #include \"Foo.H\"\n") == "#include \"Foo.H\""
  {
    var line := "  #include \"Foo.H\"\n";
    var s := "#include \"Foo.H\"";
    assert line[0] == ' ' && line[1] == ' ' && line[|line| - 1] == '\n';
    assert line[2..2 + |s|] == s;
    assert StrippedAt(line, s, 2);
    StripUnique(line, s, 2);
  }

  lemma LowerExample()
    ensures Lower("Foo.H") == "foo.h"
  {
    var r := Lower("Foo.H");
    assert r[0] == 'f' && r[1] == 'o' && r[2] == 'o' && r[3] == '.' && r[4] == 'h';
  }

  lemma SearchExample(s: string)
    requires s == "#include \"Foo.H\""
    ensures SearchFrom(s, 0) == Some(Span(10, 15)) && s[10..15] == "Foo.H"
  {
    assert RunEnd(s, 14) == 15;
    assert RunEnd(s, 13) == 13;
    assert RunEnd(s, 12) == 13;
    assert RunEnd(s, 11) == 13;
    assert RunEnd(s, 10) == 13;
    assert SearchFrom(s, 10) == Some(Span(10, 15));
    assert SearchFrom(s, 8) == SearchFrom(s, 10);
    assert RunEnd(s, 8) == 8;
    assert RunEnd(s, 7) == 8;
    assert RunEnd(s, 6) == 8;
    assert RunEnd(s, 5) == 8;
    assert RunEnd(s, 4) == 8;
    assert RunEnd(s, 3) == 8;
    assert RunEnd(s, 2) == 8;
    assert RunEnd(s, 1) == 8;
    assert SearchFrom(s, 1) == SearchFrom(s, 8);
  }

  /** The leftmost-longest match is unique, so the contract above determines the result. */
  lemma FirstMatchUnique(s: string, a: int, e: int, a': int, e': int)
    requires FirstMatch(s, 0, a, e) && FirstMatch(s, 0, a', e')
    ensures a == a' && e == e'
  {
  }

  /** What a matched name looks like: a dot with word characters on both sides, and no
      upper-case letter once lowered. */
  lemma FilenameShape(path: string, lower: bool)
    requires GetFilenameFromString(path, lower).Some?
    ensures var name := GetFilenameFromString(path, lower).value;
            3 <= |name| && '.' in name
            && (lower ==> forall k :: 0 <= k < |name| ==> !IsUpper(name[k]))
  {
    var name := GetFilenameFromString(path, lower).value;
    var a, e :| FirstMatch(path, 0, a, e) && name == if lower then Lower(path[a..e]) else path[a..e];
    var dot :| a < dot < e && MatchWith(path, a, dot, e);
    var m := path[a..e];
    assert m[dot - a] == '.';
    if lower {
      assert name[dot - a] == LowerChar(m[dot - a]);
    }
  }

  /** The name a single line contributes: the stripped line must start with `#include`,
      and the name is the lowered first match in it. */
  function IncludeOf(line: string): Option<string> {
    var s := Strip(line);
    if StartsWith(s, "#include") then GetFilenameFromString(s, true) else None
  }

  /** The included names of `lines`, in line order, duplicates kept. */
  function Includes(lines: seq<string>): seq<string> {
    if lines == [] then []
    else
      Includes(lines[..|lines| - 1])
      + match IncludeOf(lines[|lines| - 1]) case Some(h) => [h] case None => []
  }

  /** The number of `;` characters over all lines. */
  function Semicolons(lines: seq<string>): nat {
    if lines == [] then 0
    else Semicolons(lines[..|lines| - 1]) + CountChar(lines[|lines| - 1], ';')
  }

  /** What `process_file` returns (the `FileInfo` record). */
  datatype FileInfo = FileInfo(lineCount: nat, includedFiles: seq<string>)

  /** The report `process_file` gives for a file with these decoded lines. */
  function Scan(lines: seq<string>): FileInfo {
    FileInfo(Semicolons(lines), Includes(lines))
  }

  /** `process_file` over the already-decoded lines of a file: every raw line adds its
      `;` count, and every stripped `#include` line with a match adds the lowered name. */
  method ProcessFile(lines: seq<string>) returns (fileInfo: FileInfo)
    ensures fileInfo.lineCount == Semicolons(lines)
    ensures fileInfo.includedFiles == Includes(lines)
  {
    var count := 0;
    var includedFiles := [];
    for i := 0 to |lines|
      invariant count == Semicolons(lines[..i])
      invariant includedFiles == Includes(lines[..i])
    {
      ScanStep(lines, i);
      var n, headerName := ScanLine(lines[i]);
      count := count + n;
      if headerName.Some? {
        includedFiles := includedFiles + [headerName.value];
      }
    }
    assert lines[..|lines|] == lines;
    fileInfo := FileInfo(count, includedFiles);
  }

  /** The body of the loop of `process_file` for one raw line `s`. */
  method ScanLine(s: string) returns (n: nat, headerName: Option<string>)
    ensures n == CountChar(s, ';') && headerName == IncludeOf(s)
  {
    n := CountChar(s, ';');
    var t := Strip(s);
    headerName := None;
    if StartsWith(t, "#include") {
      headerName := GetFilenameFromString(t, true);
    }
  }

  /** Scanning one more line adds its `;` count and its included name, if any. */
  lemma ScanStep(lines: seq<string>, i: nat)
    requires i < |lines|
    ensures Semicolons(lines[..i + 1]) == Semicolons(lines[..i]) + CountChar(lines[i], ';')
    ensures Includes(lines[..i + 1])
            == Includes(lines[..i]) + match IncludeOf(lines[i]) case Some(h) => [h] case None => []
  {
    assert lines[..i + 1][..i] == lines[..i];
  }

  /** Splitting the lines anywhere splits the included names: the names of a prefix of the
      lines come first and in order. */
  lemma {:induction false} IncludesAppend(a: seq<string>, b: seq<string>)
    ensures Includes(a + b) == Includes(a) + Includes(b)
    decreases |b|
  {
    if b == [] {
      assert a + b == a;
    } else {
      var b' := b[..|b| - 1];
      assert (a + b)[..|a + b| - 1] == a + b';
      IncludesAppend(a, b');
    }
  }

  /** The `;` count of two runs of lines is the sum of their counts. */
  lemma {:induction false} SemicolonsAppend(a: seq<string>, b: seq<string>)
    ensures Semicolons(a + b) == Semicolons(a) + Semicolons(b)
    decreases |b|
  {
    if b == [] {
      assert a + b == a;
    } else {
      var b' := b[..|b| - 1];
      assert (a + b)[..|a + b| - 1] == a + b';
      SemicolonsAppend(a, b');
    }
  }

  /** The `;` count is the number of `;` characters in all lines together. */
  lemma {:induction false} SemicolonsOfAllText(lines: seq<string>)
    ensures Semicolons(lines) == multiset(Concat(lines))[';']
  {
    if lines != [] {
      SemicolonsOfAllText(lines[..|lines| - 1]);
    }
  }

  function Concat(lines: seq<string>): string {
    if lines == [] then [] else Concat(lines[..|lines| - 1]) + lines[|lines| - 1]
  }

  /** Every included name is one line's lowered match: it holds a dot and no upper-case letter. */
  lemma {:induction false} IncludesAreLowerCase(lines: seq<string>)
    ensures forall h :: h in Includes(lines) ==> '.' in h && forall k :: 0 <= k < |h| ==> !IsUpper(h[k])
  {
    if lines != [] {
      IncludesAreLowerCase(lines[..|lines| - 1]);
      IncludeOfLowerCase(lines[|lines| - 1]);
    }
  }

  lemma IncludeOfLowerCase(line: string)
    ensures IncludeOf(line).Some? ==>
              var h := IncludeOf(line).value;
              '.' in h && forall k :: 0 <= k < |h| ==> !IsUpper(h[k])
  {
    if IncludeOf(line).Some? {
      FilenameShape(Strip(line), true);
    }
  }

  /** A file none of whose stripped lines starts with `#include` includes nothing. */
  lemma {:induction false} NoDirectiveNoIncludes(lines: seq<string>)
    requires forall k :: 0 <= k < |lines| ==> !StartsWith(Strip(lines[k]), "#include")
    ensures Includes(lines) == []
  {
    if lines != [] {
      NoDirectiveNoIncludes(lines[..|lines| - 1]);
    }
  }
}
