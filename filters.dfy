/** Collecting the candidate source paths: keeping names with an accepted extension
    (`find_extensions`, and the same comprehension inside `find_files`) and dropping
    paths that contain an exclusion substring (`remove_strings`). */
module Filters {
  import opened Text
  import opened Paths

  /** The list comprehension `[x for x in s if p(x)]`. */
  function Filter<T(!new)>(s: seq<T>, p: T -> bool): (r: seq<T>)
    ensures forall x :: x in r <==> x in s && p(x)
    ensures |r| <= |s|
  {
    if s == [] then []
    else Filter(s[..|s| - 1], p) + (if p(s[|s| - 1]) then [s[|s| - 1]] else [])
  }

  /** Filtering a concatenation filters each part: the kept elements stay in their order. */
  lemma {:induction false} FilterAppend<T(!new)>(a: seq<T>, b: seq<T>, p: T -> bool)
    ensures Filter(a + b, p) == Filter(a, p) + Filter(b, p)
    decreases |b|
  {
    if b == [] {
      assert a + b == a;
    } else {
      var b' := b[..|b| - 1];
      assert (a + b)[..|a + b| - 1] == a + b';
      FilterAppend(a, b', p);
    }
  }

  /** Every kept element is kept as often as it occurs; every other element is dropped. */
  lemma {:induction false} FilterMultiplicity<T(!new)>(s: seq<T>, p: T -> bool, x: T)
    ensures multiset(Filter(s, p))[x] == if p(x) then multiset(s)[x] else 0
  {
    if s != [] {
      FilterMultiplicity(s[..|s| - 1], p, x);
      assert s == s[..|s| - 1] + [s[|s| - 1]];
    }
  }

  /** A filter that keeps everything returns its input. */
  lemma {:induction false} FilterKeepsAll<T(!new)>(s: seq<T>, p: T -> bool)
    requires forall x :: x in s ==> p(x)
    ensures Filter(s, p) == s
  {
    if s != [] {
      FilterKeepsAll(s[..|s| - 1], p);
      assert s == s[..|s| - 1] + [s[|s| - 1]];
    }
  }

  function HasExtensionIn(extensions: seq<string>): string -> bool {
    name => Ext(name) in extensions
  }

  /** `find_extensions`: the names whose `splitext` extension is one of `extensions`. */
  function FindExtensions(files: seq<string>, extensions: seq<string>): (r: seq<string>)
    ensures forall x :: x in r <==> x in files && Ext(x) in extensions
    ensures forall x :: multiset(r)[x] == if Ext(x) in extensions then multiset(files)[x] else 0
  {
    var r := Filter(files, HasExtensionIn(extensions));
    assert forall x :: multiset(r)[x] == if Ext(x) in extensions then multiset(files)[x] else 0 by {
      forall x ensures multiset(r)[x] == if Ext(x) in extensions then multiset(files)[x] else 0 {
        FilterMultiplicity(files, HasExtensionIn(extensions), x);
      }
    }
    r
  }

  /** The path contains at least one of the exclusion substrings. */
  predicate Excluded(s: string, excludes: seq<string>) {
    exists k :: 0 <= k < |excludes| && Contains(s, excludes[k])
  }

  function NotExcluded(excludes: seq<string>): string -> bool {
    s => !Excluded(s, excludes)
  }

  /** `remove_strings`: for each string, the inner loop breaks at the first exclusion
      substring it contains; the `else` of the loop keeps the string when none matched. */
  method RemoveStrings(strings: seq<string>, excludes: seq<string>) returns (outList: seq<string>)
    ensures outList == Filter(strings, NotExcluded(excludes))
  {
    outList := [];
    for i := 0 to |strings|
      invariant outList == Filter(strings[..i], NotExcluded(excludes))
    {
      var s := strings[i];
      var matched := false;
      for j := 0 to |excludes|
        invariant !matched
        invariant forall k :: 0 <= k < j ==> !Contains(s, excludes[k])
      {
        if Contains(s, excludes[j]) {
          matched := true;
          break;
        }
      }
      if !matched {
        outList := outList + [s];
      }
      assert strings[..i + 1][..i] == strings[..i];
    }
    assert strings[..|strings|] == strings;
  }

  /** `remove_strings` keeps exactly the strings containing no exclusion substring, each
      as often as it occurs, in order; with no exclusions it returns its input. */
  lemma RemoveStringsExactly(strings: seq<string>, excludes: seq<string>)
    ensures forall s :: s in Filter(strings, NotExcluded(excludes)) <==> s in strings && !Excluded(s, excludes)
    ensures forall s :: multiset(Filter(strings, NotExcluded(excludes)))[s]
                        == if Excluded(s, excludes) then 0 else multiset(strings)[s]
    ensures excludes == [] ==> Filter(strings, NotExcluded(excludes)) == strings
  {
    forall s ensures multiset(Filter(strings, NotExcluded(excludes)))[s]
                     == if Excluded(s, excludes) then 0 else multiset(strings)[s] {
      FilterMultiplicity(strings, NotExcluded(excludes), s);
    }
    if excludes == [] {
      FilterKeepsAll(strings, NotExcluded(excludes));
    }
  }

  /** The empty exclusion substring occurs in every path, so it removes every path. */
  lemma EmptyExclusionRemovesAll(strings: seq<string>, excludes: seq<string>)
    requires "" in excludes
    ensures Filter(strings, NotExcluded(excludes)) == []
  {
    var k :| 0 <= k < |excludes| && excludes[k] == "";
    forall s | s in strings ensures Excluded(s, excludes) {
      assert OccursAt(s, excludes[k], 0);
    }
  }

  /** One step of `os.walk`: a directory and the names of the files directly in it. */
  datatype WalkStep = WalkStep(root: string, files: seq<string>)

  function JoinAll(root: string, names: seq<string>): (r: seq<string>)
    ensures |r| == |names|
  {
    seq(|names|, k requires 0 <= k < |names| => Join(root, names[k]))
  }

  /** The paths `find_files` gathers from a walk before exclusions are applied. */
  function Walked(walk: seq<WalkStep>, extensions: seq<string>): seq<string> {
    if walk == [] then []
    else
      var last := walk[|walk| - 1];
      Walked(walk[..|walk| - 1], extensions) + JoinAll(last.root, FindExtensions(last.files, extensions))
  }

  /** `find_files` after its directory walk: each directory's accepted names joined to the
      directory, then `remove_strings` applied to the whole list. */
  method FindFiles(walk: seq<WalkStep>, extensions: seq<string>, excludes: seq<string>)
    returns (fileList: seq<string>)
    ensures fileList == Filter(Walked(walk, extensions), NotExcluded(excludes))
  {
    fileList := [];
    for i := 0 to |walk|
      invariant fileList == Walked(walk[..i], extensions)
    {
      var step := walk[i];
      var newFiles := FindExtensions(step.files, extensions);
      fileList := fileList + JoinAll(step.root, newFiles);
      assert walk[..i + 1][..i] == walk[..i];
    }
    assert walk[..|walk|] == walk;
    fileList := RemoveStrings(fileList, excludes);
  }

  /** A walked path is a directory joined with one of its accepted file names. */
  predicate FoundIn(walk: seq<WalkStep>, extensions: seq<string>, p: string) {
    exists i, name :: 0 <= i < |walk| && name in walk[i].files && Ext(name) in extensions
                      && p == Join(walk[i].root, name)
  }

  lemma {:induction false} WalkedSound(walk: seq<WalkStep>, extensions: seq<string>, p: string)
    requires p in Walked(walk, extensions)
    ensures FoundIn(walk, extensions, p)
  {
    var n := |walk| - 1;
    var names := FindExtensions(walk[n].files, extensions);
    var joined := JoinAll(walk[n].root, names);
    if p in joined {
      var k :| 0 <= k < |joined| && joined[k] == p;
      assert names[k] in walk[n].files && Ext(names[k]) in extensions && p == Join(walk[n].root, names[k]);
    } else {
      WalkedSound(walk[..n], extensions, p);
      var i, name :| 0 <= i < n && name in walk[..n][i].files && Ext(name) in extensions
                     && p == Join(walk[..n][i].root, name);
      assert walk[..n][i] == walk[i];
    }
  }

  lemma {:induction false} WalkedComplete(walk: seq<WalkStep>, extensions: seq<string>, p: string, i: int, name: string)
    requires 0 <= i < |walk| && name in walk[i].files && Ext(name) in extensions
    requires p == Join(walk[i].root, name)
    ensures p in Walked(walk, extensions)
  {
    var n := |walk| - 1;
    if i == n {
      var names := FindExtensions(walk[n].files, extensions);
      var k :| 0 <= k < |names| && names[k] == name;
      assert JoinAll(walk[n].root, names)[k] == p;
    } else {
      assert walk[..n][i] == walk[i];
      WalkedComplete(walk[..n], extensions, p, i, name);
    }
  }

  lemma WalkedExactly(walk: seq<WalkStep>, extensions: seq<string>, p: string)
    ensures p in Walked(walk, extensions) <==> FoundIn(walk, extensions, p)
  {
    if p in Walked(walk, extensions) {
      WalkedSound(walk, extensions, p);
    }
    if FoundIn(walk, extensions, p) {
      var i, name :| 0 <= i < |walk| && name in walk[i].files && Ext(name) in extensions
                     && p == Join(walk[i].root, name);
      WalkedComplete(walk, extensions, p, i, name);
    }
  }

  /** What `find_files` returns: exactly the walked files with an accepted extension whose
      full path contains no exclusion substring; when file names hold no separator, every
      returned path has an accepted extension itself. */
  lemma FindFilesExactly(walk: seq<WalkStep>, extensions: seq<string>, excludes: seq<string>, p: string)
    ensures p in Filter(Walked(walk, extensions), NotExcluded(excludes))
            <==> FoundIn(walk, extensions, p) && !Excluded(p, excludes)
    ensures ((forall i, name :: 0 <= i < |walk| && name in walk[i].files ==> Sep !in name)
             && p in Filter(Walked(walk, extensions), NotExcluded(excludes)))
            ==> Ext(p) in extensions
  {
    WalkedExactly(walk, extensions, p);
    if (forall i, name :: 0 <= i < |walk| && name in walk[i].files ==> Sep !in name)
       && p in Filter(Walked(walk, extensions), NotExcluded(excludes)) {
      var i, name :| 0 <= i < |walk| && name in walk[i].files && Ext(name) in extensions
                     && p == Join(walk[i].root, name);
      JoinBasename(walk[i].root, name);
      ExtOfBasename(p);
    }
  }
}
