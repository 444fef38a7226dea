/** The source dictionary as the program builds it: `SourceInfo` objects in a dictionary
    keyed by bare file name, seeded, updated in place file by file, and finalised. Each
    method is proved to compute the corresponding function of module Graph. */
module Dictionary {
  import opened Wrappers
  import opened Paths
  import opened Filters
  import opened Extract
  import opened Graph

  /** The record kept for one source file. */
  class SourceInfo {
    var name: string
    var prefix: string
    var extension: string
    var path: string
    var lineCount: int
    var includeList: seq<string>
    var includedByCount: int
    var includedByList: seq<string>

    /** A record with empty strings, zero counts and empty lists. */
    constructor ()
      ensures Snapshot() == Entry("", "", "", "", 0, [], 0, [])
    {
      name := "";
      prefix := "";
      extension := "";
      path := "";
      lineCount := 0;
      includeList := [];
      includedByCount := 0;
      includedByList := [];
    }

    /** The current field values. */
    function Snapshot(): Entry
      reads this
    {
      Entry(name, prefix, extension, path, lineCount, includeList, includedByCount, includedByList)
    }
  }

  type SourceDictionary = map<string, SourceInfo>

  /** The value the dictionary currently denotes. */
  function View(d: SourceDictionary): (v: Dict)
    reads d.Values
    ensures v.Keys == d.Keys
  {
    map k | k in d :: d[k].Snapshot()
  }

  /** The dictionary denotes `v`: the same keys, and under each key a record holding the
      fields of `v`'s entry. */
  predicate Denotes(d: SourceDictionary, v: Dict)
    reads d.Values
  {
    d.Keys == v.Keys && forall k :: k in d ==> d[k].Snapshot() == v[k]
  }

  lemma DenotesView(d: SourceDictionary, v: Dict)
    ensures Denotes(d, v) <==> View(d) == v
  {
  }

  /** Every record holds its own key as its name, so no two keys share a record and
      updating one record changes one entry. */
  predicate Keyed(d: SourceDictionary)
    reads d.Values
  {
    forall k :: k in d ==> d[k].name == k
  }

  lemma SeedStep(paths: seq<string>, i: nat)
    requires i < |paths|
    ensures Seed(paths[..i + 1]) == Seed(paths[..i])[Basename(paths[i]) := SeedEntry(paths[i])]
  {
    assert paths[..i + 1][..i] == paths[..i];
  }

  /** The record `create_empty_source_dictionary` prepares for one path. */
  method NewRecord(sourcePath: string) returns (struct: SourceInfo)
    ensures fresh(struct) && struct.Snapshot() == SeedEntry(sourcePath)
  {
    var sourceFile := Basename(sourcePath);
    var parts := SplitExt(sourceFile);
    struct := new SourceInfo();
    struct.path := sourcePath;
    struct.name := sourceFile;
    struct.prefix := parts.0;
    struct.extension := parts.1;
  }

  /** `create_empty_source_dictionary`: a fresh record per path, stored under its bare name. */
  method CreateEmptySourceDictionary(sourcePaths: seq<string>) returns (d: SourceDictionary)
    ensures Keyed(d) && forall k :: k in d ==> fresh(d[k])
    ensures View(d) == Seed(sourcePaths)
  {
    d := map[];
    for i := 0 to |sourcePaths|
      invariant Keyed(d) && forall k :: k in d ==> fresh(d[k])
      invariant Denotes(d, Seed(sourcePaths[..i]))
    {
      var sourcePath := sourcePaths[i];
      var struct := NewRecord(sourcePath);
      d := d[Basename(sourcePath) := struct];
      SeedStep(sourcePaths, i);
    }
    assert sourcePaths[..|sourcePaths|] == sourcePaths;
    DenotesView(d, Seed(sourcePaths));
  }

  lemma AddReferrersStep(v: Dict, incs: seq<string>, i: nat, name: string)
    requires i < |incs|
    ensures AddReferrers(v, incs[..i + 1], name)
            == var w := AddReferrers(v, incs[..i], name);
               if incs[i] in w then w[incs[i] := w[incs[i]].(includedByList := w[incs[i]].includedByList + [name])]
               else w
  {
    assert incs[..i + 1][..i] == incs[..i];
  }

  /** `sourceStruct.includeList = ...; sourceStruct.line_count = ...` on the record under `name`. */
  method SetOwnFields(d: SourceDictionary, name: string, info: FileInfo)
    requires Keyed(d) && name in d
    modifies d[name]
    ensures Keyed(d)
    ensures View(d) == old(View(d))[name := old(View(d))[name].(includeList := info.includedFiles, lineCount := info.lineCount)]
  {
    ghost var v := View(d);
    DenotesView(d, v);
    var sourceStruct := d[name];
    sourceStruct.includeList := info.includedFiles;
    sourceStruct.lineCount := info.lineCount;
    DenotesView(d, v[name := v[name].(includeList := info.includedFiles, lineCount := info.lineCount)]);
  }

  /** `include_struct.includedByList.append(name)` on the record under `f`. */
  method AppendReferrer(d: SourceDictionary, f: string, name: string)
    requires Keyed(d) && f in d
    modifies d[f]
    ensures Keyed(d)
    ensures View(d) == old(View(d))[f := old(View(d))[f].(includedByList := old(View(d))[f].includedByList + [name])]
  {
    ghost var v := View(d);
    DenotesView(d, v);
    var includeStruct := d[f];
    includeStruct.includedByList := includeStruct.includedByList + [name];
    DenotesView(d, v[f := v[f].(includedByList := v[f].includedByList + [name])]);
  }

  /** The part of `update_source_dictionary` after `process_file` has reported `fileInfo`. */
  method RecordFileInfo(d: SourceDictionary, filePath: string, fileInfo: FileInfo)
    requires Keyed(d)
    modifies d.Values
    ensures Keyed(d)
    ensures View(d) == Update(old(View(d)), filePath, fileInfo)
  {
    if fileInfo.includedFiles == [] {
      return;
    }
    var fileName := Basename(filePath);
    if fileName !in d {
      return;
    }
    SetOwnFields(d, fileName, fileInfo);
    var incs := fileInfo.includedFiles;
    ghost var start := View(d);
    for i := 0 to |incs|
      invariant Keyed(d) && d.Keys == start.Keys
      invariant View(d) == AddReferrers(start, incs[..i], fileName)
    {
      var f := incs[i];
      AddReferrersStep(start, incs, i, fileName);
      if f in d {
        AppendReferrer(d, f, fileName);
      }
    }
    assert incs[..|incs|] == incs;
  }

  /** `update_source_dictionary` for the file at `filePath` whose decoded lines are `lines`:
      the records change as `Update` says, and every record keeps its name. */
  method UpdateSourceDictionary(d: SourceDictionary, filePath: string, lines: seq<string>)
    requires Keyed(d)
    modifies d.Values
    ensures Keyed(d)
    ensures View(d) == Update(old(View(d)), filePath, Scan(lines))
  {
    var fileInfo := ProcessFile(lines);
    RecordFileInfo(d, filePath, fileInfo);
  }

  /** The extensions of the files the tool reads. */
  const HeaderExtensions: seq<string> := [".h", ".hpp"]
  const SourceExtensions: seq<string> := HeaderExtensions + [".cpp", ".c", ".cxx"]

  /** What `create_source_dictionary` returns for a walk, the exclusion substrings and the
      file contents: nothing when no file is found, otherwise the finished dictionary. */
  function SourceDictionaryOf(walk: seq<WalkStep>, excludes: seq<string>, fs: FileSystem): Option<Dict> {
    var paths := Filter(Walked(walk, SourceExtensions), NotExcluded(excludes));
    if paths == [] then None else Some(Build(paths, ScanOf(fs)))
  }

  /** The second loop of `create_source_dictionary`: `update_source_dictionary` for every path. */
  method UpdateAll(d: SourceDictionary, pathList: seq<string>, fs: FileSystem)
    requires Keyed(d)
    modifies d.Values
    ensures Keyed(d)
    ensures View(d) == Populate(old(View(d)), pathList, ScanOf(fs))
  {
    ghost var v := View(d);
    for i := 0 to |pathList|
      invariant Keyed(d) && d.Keys == v.Keys
      invariant View(d) == Populate(v, pathList[..i], ScanOf(fs))
    {
      UpdateSourceDictionary(d, pathList[i], fs(pathList[i]));
      assert pathList[..i + 1][..i] == pathList[..i];
    }
    assert pathList[..|pathList|] == pathList;
  }

  /** `val.includedByCount = len(val.includedByList)` on the record under `k`. */
  method FinalizeRecord(d: SourceDictionary, k: string)
    requires Keyed(d) && k in d
    modifies d[k]
    ensures Keyed(d)
    ensures View(d) == old(View(d))[k := old(View(d))[k].(includedByCount := |old(View(d))[k].includedByList|)]
  {
    ghost var v := View(d);
    DenotesView(d, v);
    var val := d[k];
    val.includedByCount := |val.includedByList|;
    DenotesView(d, v[k := v[k].(includedByCount := |v[k].includedByList|)]);
  }

  /** `v` with the records outside `remaining` finalised. */
  function FinalizedExcept(v: Dict, remaining: set<string>): (r: Dict)
    ensures r.Keys == v.Keys
  {
    map k | k in v :: if k in remaining then v[k] else v[k].(includedByCount := |v[k].includedByList|)
  }

  lemma FinalizedExceptStep(v: Dict, remaining: set<string>, k: string)
    requires k in remaining && k in v
    ensures var w := FinalizedExcept(v, remaining);
            FinalizedExcept(v, remaining - {k}) == w[k := w[k].(includedByCount := |w[k].includedByList|)]
  {
  }

  /** The last loop of `create_source_dictionary`, over the records in any order. */
  method FinalizeAll(d: SourceDictionary)
    requires Keyed(d)
    modifies d.Values
    ensures Keyed(d)
    ensures View(d) == Finalize(old(View(d)))
  {
    ghost var v := View(d);
    var remaining := d.Keys;
    assert FinalizedExcept(v, remaining) == v;
    while remaining != {}
      invariant remaining <= d.Keys && d.Keys == v.Keys
      invariant Keyed(d)
      invariant View(d) == FinalizedExcept(v, remaining)
      decreases remaining
    {
      var k :| k in remaining;
      FinalizeRecord(d, k);
      FinalizedExceptStep(v, remaining, k);
      remaining := remaining - {k};
    }
    assert FinalizedExcept(v, {}) == Finalize(v);
  }

  /** `create_source_dictionary` after its directory walk: find the files, seed the
      dictionary, update it for every file, then set every count to its list's length. */
  method CreateSourceDictionary(walk: seq<WalkStep>, excludes: seq<string>, fs: FileSystem)
    returns (result: Option<SourceDictionary>)
    ensures result.None? <==> SourceDictionaryOf(walk, excludes, fs).None?
    ensures result.Some? ==> Keyed(result.value) && View(result.value) == SourceDictionaryOf(walk, excludes, fs).value
  {
    var pathList := FindFiles(walk, SourceExtensions, excludes);
    if |pathList| == 0 {
      return None;
    }
    var d := CreateEmptySourceDictionary(pathList);
    UpdateAll(d, pathList, fs);
    FinalizeAll(d);
    return Some(d);
  }
}
