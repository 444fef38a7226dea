/** The include graph as values: the dictionary keyed by bare file name that
    `create_empty_source_dictionary` seeds, `update_source_dictionary` fills in for one file,
    and `create_source_dictionary` finalises. The imperative versions over `SourceInfo`
    objects (module Dictionary) are proved to compute exactly these functions. */
module Graph {
  import opened Text
  import opened Paths
  import opened Extract

  /** The fields of one `SourceInfo` record. */
  datatype Entry = Entry(name: string, prefix: string, extension: string, path: string,
                         lineCount: int, includeList: seq<string>,
                         includedByCount: int, includedByList: seq<string>)

  /** The source dictionary: bare file name (original case) to record. */
  type Dict = map<string, Entry>

  /** The decoded lines of the file at each path. */
  type FileSystem = string -> seq<string>

  /** What `process_file` reports for the file at each path. */
  type Scans = string -> FileInfo

  /** The reports `process_file` gives for the files of `fs`. */
  function ScanOf(fs: FileSystem): Scans {
    p => Scan(fs(p))
  }

  function Repeat(x: string, n: nat): (r: seq<string>)
    ensures |r| == n && forall i :: 0 <= i < n ==> r[i] == x
  {
    seq(n, _ => x)
  }

  // ---------------------------------------------------------------- seeding

  /** The record the first pass creates for one path. */
  function SeedEntry(path: string): Entry {
    var name := Basename(path);
    var parts := SplitExt(name);
    Entry(name, parts.0, parts.1, path, 0, [], 0, [])
  }

  /** `create_empty_source_dictionary`: one record per path, stored under its bare name;
      a later path overwrites an earlier one with the same bare name. */
  function Seed(paths: seq<string>): Dict {
    if paths == [] then map[]
    else
      var p := paths[|paths| - 1];
      Seed(paths[..|paths| - 1])[Basename(p) := SeedEntry(p)]
  }

  /** `i` is the last position in `paths` whose bare name is `k`. */
  predicate LastWith(paths: seq<string>, k: string, i: int) {
    0 <= i < |paths| && Basename(paths[i]) == k
    && forall j :: i < j < |paths| ==> Basename(paths[j]) != k
  }

  /** The keys of the seeded dictionary are exactly the bare names of the paths. */
  lemma {:induction false} SeedKeys(paths: seq<string>)
    ensures Seed(paths).Keys == set p | p in paths :: Basename(p)
  {
    if paths != [] {
      var n := |paths| - 1;
      SeedKeys(paths[..n]);
      assert paths == paths[..n] + [paths[n]];
    }
  }

  /** Last write wins: the record under `k` is the one made from the last path named `k`. */
  lemma {:induction false} SeedLastWins(paths: seq<string>, k: string, i: int)
    requires LastWith(paths, k, i)
    ensures k in Seed(paths) && Seed(paths)[k] == SeedEntry(paths[i])
  {
    var n := |paths| - 1;
    if i < n {
      LastWithPrefix(paths, k, i);
      SeedLastWins(paths[..n], k, i);
    }
  }

  /** The last path named `k` before the final path is also the last one in the prefix. */
  lemma LastWithPrefix(paths: seq<string>, k: string, i: int)
    requires LastWith(paths, k, i) && i < |paths| - 1
    ensures LastWith(paths[..|paths| - 1], k, i) && paths[..|paths| - 1][i] == paths[i]
    ensures Basename(paths[|paths| - 1]) != k
  {
    var n := |paths| - 1;
    forall j | i < j < n ensures Basename(paths[..n][j]) != k {
      assert paths[..n][j] == paths[j];
    }
  }

  /** Every seeded record is stored under its own name, splits that name into prefix and
      extension, comes from a path with that bare name, and starts empty. */
  lemma {:induction false} SeedShape(paths: seq<string>)
    ensures forall k :: k in Seed(paths) ==>
              var e := Seed(paths)[k];
              e.name == k && e.prefix + e.extension == k && e.path in paths && Basename(e.path) == k
              && e.lineCount == 0 && e.includeList == [] && e.includedByCount == 0 && e.includedByList == []
  {
    if paths != [] {
      SeedShape(paths[..|paths| - 1]);
    }
  }

  // ---------------------------------------------------------------- one file

  /** Appends `name` to the referrer list of each included name that is a key, one
      include occurrence at a time. */
  function AddReferrers(v: Dict, incs: seq<string>, name: string): Dict {
    if incs == [] then v
    else
      var w := AddReferrers(v, incs[..|incs| - 1], name);
      var f := incs[|incs| - 1];
      if f in w then w[f := w[f].(includedByList := w[f].includedByList + [name])] else w
  }

  /** `update_source_dictionary` for the file at `path` for which `process_file` reports `info`. */
  function Update(v: Dict, path: string, info: FileInfo): Dict {
    var incs := info.includedFiles;
    var name := Basename(path);
    if incs == [] || name !in v then v
    else AddReferrers(v[name := v[name].(includeList := incs, lineCount := info.lineCount)], incs, name)
  }

  /** What `update_source_dictionary` does to the record under key `k`. */
  function UpdatedEntry(e: Entry, k: string, path: string, info: FileInfo): Entry {
    var incs := info.includedFiles;
    if incs == [] then e
    else
      var own := if Basename(path) == k then e.(includeList := incs, lineCount := info.lineCount) else e;
      own.(includedByList := e.includedByList + Repeat(Basename(path), multiset(incs)[k]))
  }

  /** Each target that is a key gains the referrer once per occurrence in `incs`; names
      that are not keys are ignored, and nothing else changes. */
  lemma {:induction false} AddReferrersEffect(v: Dict, incs: seq<string>, name: string)
    ensures AddReferrers(v, incs, name).Keys == v.Keys
    ensures forall k :: k in v ==>
              AddReferrers(v, incs, name)[k] == v[k].(includedByList := v[k].includedByList + Repeat(name, multiset(incs)[k]))
  {
    if incs != [] {
      var n := |incs| - 1;
      var f := incs[n];
      AddReferrersEffect(v, incs[..n], name);
      assert incs == incs[..n] + [f];
      forall k | k in v
        ensures AddReferrers(v, incs, name)[k]
                == v[k].(includedByList := v[k].includedByList + Repeat(name, multiset(incs)[k]))
      {
        var m := multiset(incs[..n])[k];
        if k == f {
          assert Repeat(name, m) + [name] == Repeat(name, m + 1);
        }
      }
    }
  }

  /** `update_source_dictionary` never changes the key set; it changes nothing when the file
      has no includes or its bare name is not a key; otherwise it sets the includes and `;`
      count of that file's own record and appends the file's bare name to each included
      record once per include occurrence. */
  lemma UpdateEffect(v: Dict, path: string, info: FileInfo)
    ensures Update(v, path, info).Keys == v.Keys
    ensures info.includedFiles == [] || Basename(path) !in v ==> Update(v, path, info) == v
    ensures Basename(path) in v ==> forall k :: k in v ==> Update(v, path, info)[k] == UpdatedEntry(v[k], k, path, info)
  {
    var incs := info.includedFiles;
    var name := Basename(path);
    if incs != [] && name in v {
      var v' := v[name := v[name].(includeList := incs, lineCount := info.lineCount)];
      AddReferrersEffect(v', incs, name);
    } else if name in v {
      forall k | k in v ensures v[k] == UpdatedEntry(v[k], k, path, info) {
        assert v[k].includedByList + Repeat(name, 0) == v[k].includedByList;
      }
    }
  }

  /** Records that hold only names of keys as referrers. */
  predicate Closed(v: Dict) {
    forall k, n :: k in v && n in v[k].includedByList ==> n in v
  }

  /** A referrer is appended only after its own bare name was found as a key. */
  lemma UpdateKeepsClosed(v: Dict, path: string, info: FileInfo)
    requires Closed(v)
    ensures Closed(Update(v, path, info))
  {
    UpdateEffect(v, path, info);
  }

  // ---------------------------------------------------------------- all files


  /** The second pass: `update_source_dictionary` for every path, in order. */
  function Populate(v: Dict, paths: seq<string>, scans: Scans): Dict {
    if paths == [] then v
    else
      var p := paths[|paths| - 1];
      Update(Populate(v, paths[..|paths| - 1], scans), p, scans(p))
  }

  /** The record under `k` after the second pass, computed from that record alone. */
  function PopulatedEntry(e: Entry, k: string, paths: seq<string>, scans: Scans): Entry {
    if paths == [] then e
    else
      var p := paths[|paths| - 1];
      UpdatedEntry(PopulatedEntry(e, k, paths[..|paths| - 1], scans), k, p, scans(p))
  }

  /** When every path's bare name is a key, the second pass acts on each record on its own. */
  lemma {:induction false} PopulatePointwise(v: Dict, paths: seq<string>, scans: Scans)
    requires forall p :: p in paths ==> Basename(p) in v
    ensures Populate(v, paths, scans).Keys == v.Keys
    ensures forall k :: k in v ==> Populate(v, paths, scans)[k] == PopulatedEntry(v[k], k, paths, scans)
  {
    if paths != [] {
      var n := |paths| - 1;
      PopulatePointwise(v, paths[..n], scans);
      UpdateEffect(Populate(v, paths[..n], scans), paths[n], scans(paths[n]));
    }
  }

  /** The referrers of `k`: each path's bare name once per occurrence of `k` among its includes. */
  function Referrers(paths: seq<string>, scans: Scans, k: string): seq<string> {
    if paths == [] then []
    else
      var p := paths[|paths| - 1];
      Referrers(paths[..|paths| - 1], scans, k) + Repeat(Basename(p), multiset(scans(p).includedFiles)[k])
  }

  /** The number of occurrences of `k` among the includes of all paths. */
  function Inbound(paths: seq<string>, scans: Scans, k: string): nat {
    if paths == [] then 0
    else
      var p := paths[|paths| - 1];
      Inbound(paths[..|paths| - 1], scans, k) + multiset(scans(p).includedFiles)[k]
  }

  /** The second pass only appends referrers and sets a record's own includes and count;
      names and paths stay. */
  lemma {:induction false} PopulatedEntryEffect(e: Entry, k: string, paths: seq<string>, scans: Scans)
    ensures var r := PopulatedEntry(e, k, paths, scans);
            r.name == e.name && r.prefix == e.prefix && r.extension == e.extension && r.path == e.path
            && r.includedByCount == e.includedByCount
            && r.includedByList == e.includedByList + Referrers(paths, scans, k)
  {
    if paths != [] {
      var n := |paths| - 1;
      PopulatedEntryEffect(e, k, paths[..n], scans);
      if scans(paths[n]).includedFiles == [] {
        assert Referrers(paths, scans, k) == Referrers(paths[..n], scans, k) + [];
      }
    }
  }

  /** A record's own includes and count stay as seeded unless a file with its bare name has
      an include: the zero-include short cut never records the `;` count. */
  lemma {:induction false} PopulatedEntryOwnFields(e: Entry, k: string, paths: seq<string>, scans: Scans)
    requires forall p :: p in paths && Basename(p) == k ==> scans(p).includedFiles == []
    ensures PopulatedEntry(e, k, paths, scans).includeList == e.includeList
    ensures PopulatedEntry(e, k, paths, scans).lineCount == e.lineCount
  {
    if paths != [] {
      PopulatedEntryOwnFields(e, k, paths[..|paths| - 1], scans);
    }
  }

  /** A record's own includes and count come from the last file with its bare name that has
      an include. */
  lemma {:induction false} PopulatedEntryLastWriter(e: Entry, k: string, paths: seq<string>, scans: Scans, i: int)
    requires 0 <= i < |paths| && Basename(paths[i]) == k && scans(paths[i]).includedFiles != []
    requires forall j :: i < j < |paths| && Basename(paths[j]) == k ==> scans(paths[j]).includedFiles == []
    ensures PopulatedEntry(e, k, paths, scans).includeList == scans(paths[i]).includedFiles
    ensures PopulatedEntry(e, k, paths, scans).lineCount == scans(paths[i]).lineCount
  {
    var n := |paths| - 1;
    if i < n {
      LastWriterPrefix(k, paths, paths[..n], scans, i);
      PopulatedEntryLastWriter(e, k, paths[..n], scans, i);
    }
  }

  /** The last writer before the final path is also the last writer in the prefix. */
  lemma LastWriterPrefix(k: string, paths: seq<string>, prefix: seq<string>, scans: Scans, i: int)
    requires 0 <= i < |paths| - 1 && prefix == paths[..|paths| - 1]
    requires forall j :: i < j < |paths| && Basename(paths[j]) == k ==> scans(paths[j]).includedFiles == []
    ensures prefix[i] == paths[i]
    ensures forall j :: i < j < |prefix| && Basename(prefix[j]) == k ==> scans(prefix[j]).includedFiles == []
    ensures Basename(paths[|paths| - 1]) != k || scans(paths[|paths| - 1]).includedFiles == []
  {
    forall j | i < j < |prefix| ensures prefix[j] == paths[j] {
    }
  }

  /** Every referrer of `k` is the bare name of a path whose file includes `k`. */
  lemma {:induction false} ReferrersSound(paths: seq<string>, scans: Scans, k: string, name: string)
    requires name in Referrers(paths, scans, k)
    ensures exists p :: p in paths && Basename(p) == name && k in scans(p).includedFiles
  {
    var n := |paths| - 1;
    var p := paths[n];
    var tail := Repeat(Basename(p), multiset(scans(p).includedFiles)[k]);
    if name in tail {
      assert p in paths && Basename(p) == name && k in scans(p).includedFiles;
    } else {
      ReferrersSound(paths[..n], scans, k, name);
      var q :| q in paths[..n] && Basename(q) == name && k in scans(q).includedFiles;
      assert q in paths;
    }
  }

  /** The bare name of every path whose file includes `k` is a referrer of `k`. */
  lemma {:induction false} ReferrersComplete(paths: seq<string>, scans: Scans, k: string, i: int)
    requires 0 <= i < |paths| && k in scans(paths[i]).includedFiles
    ensures Basename(paths[i]) in Referrers(paths, scans, k)
  {
    var n := |paths| - 1;
    var p := paths[n];
    if i == n {
      assert Repeat(Basename(p), multiset(scans(p).includedFiles)[k])[0] == Basename(p);
    } else {
      assert paths[..n][i] == paths[i];
      ReferrersComplete(paths[..n], scans, k, i);
    }
  }

  /** The referrers of `k` are exactly the bare names of the paths that include `k`. */
  lemma ReferrersExactly(paths: seq<string>, scans: Scans, k: string, name: string)
    ensures name in Referrers(paths, scans, k) <==> exists p :: p in paths && Basename(p) == name && k in scans(p).includedFiles
  {
    if name in Referrers(paths, scans, k) {
      ReferrersSound(paths, scans, k, name);
    } else {
      forall p | p in paths && Basename(p) == name ensures k !in scans(p).includedFiles {
        if k in scans(p).includedFiles {
          var i :| 0 <= i < |paths| && paths[i] == p;
          ReferrersComplete(paths, scans, k, i);
        }
      }
    }
  }

  /** There is one referrer entry per include occurrence. */
  lemma {:induction false} ReferrersCount(paths: seq<string>, scans: Scans, k: string)
    ensures |Referrers(paths, scans, k)| == Inbound(paths, scans, k)
  {
    if paths != [] {
      ReferrersCount(paths[..|paths| - 1], scans, k);
    }
  }

  /** `process_file` lowers every included name, so a name with an upper-case letter is never
      included by any file. */
  lemma {:induction false} UpperCaseNeverIncluded(paths: seq<string>, fs: FileSystem, k: string)
    requires exists i :: 0 <= i < |k| && IsUpper(k[i])
    ensures Inbound(paths, ScanOf(fs), k) == 0
  {
    if paths != [] {
      var p := paths[|paths| - 1];
      UpperCaseNeverIncluded(paths[..|paths| - 1], fs, k);
      IncludesAreLowerCase(fs(p));
      assert k !in ScanOf(fs)(p).includedFiles;
    }
  }

  // ---------------------------------------------------------------- finalising

  /** The last loop of `create_source_dictionary`: every record's count is its list's length. */
  function Finalize(v: Dict): (r: Dict)
    ensures r.Keys == v.Keys
    ensures forall k :: k in r ==> r[k] == v[k].(includedByCount := |v[k].includedByList|)
  {
    map k | k in v :: v[k].(includedByCount := |v[k].includedByList|)
  }

  /** `create_source_dictionary` once its path list is known: seed, update for every path, finalise. */
  function Build(paths: seq<string>, scans: Scans): Dict {
    Finalize(Populate(Seed(paths), paths, scans))
  }

  /** Every count equals the length of its referrer list. */
  predicate Finalized(v: Dict) {
    forall k :: k in v ==> v[k].includedByCount == |v[k].includedByList|
  }

  /** Every record is stored under its own name. */
  predicate NamesAreKeys(v: Dict) {
    forall k :: k in v ==> v[k].name == k
  }

  /** What `find_strays` relies on: finalised counts, and referrers that are keys. */
  predicate WellFormed(v: Dict) {
    Finalized(v) && Closed(v) && NamesAreKeys(v)
  }

  /** The finished dictionary, key by key: its record under `k` is the seeded record for the
      last path named `k`, with the referrers of `k` appended and the count set to their number. */
  lemma BuildEntry(paths: seq<string>, scans: Scans, k: string)
    requires k in Build(paths, scans)
    ensures k in Seed(paths)
    ensures var e := Build(paths, scans)[k]; var s := Seed(paths)[k];
            e.name == k && e.prefix == s.prefix && e.extension == s.extension && e.path == s.path
            && e.includedByList == Referrers(paths, scans, k)
            && e.includedByCount == Inbound(paths, scans, k)
  {
    var v := Seed(paths);
    SeedKeys(paths);
    PopulatePointwise(v, paths, scans);
    SeedEntryAt(paths, k);
    PopulatedEntryEffect(v[k], k, paths, scans);
    ReferrersCount(paths, scans, k);
  }

  lemma SeedEntryAt(paths: seq<string>, k: string)
    requires k in Seed(paths)
    ensures Seed(paths)[k].name == k && Seed(paths)[k].includedByList == [] && Seed(paths)[k].includedByCount == 0
  {
    SeedShape(paths);
  }

  /** The key set of the finished dictionary is the set of bare names of the paths. */
  lemma BuildKeys(paths: seq<string>, scans: Scans)
    ensures Build(paths, scans).Keys == set p | p in paths :: Basename(p)
  {
    SeedKeys(paths);
    PopulatePointwise(Seed(paths), paths, scans);
  }

  /** After finalisation every count is its list's length, every referrer is a key, and every
      record sits under its own name. */
  lemma BuildWellFormed(paths: seq<string>, scans: Scans)
    ensures WellFormed(Build(paths, scans))
  {
    var b := Build(paths, scans);
    BuildKeys(paths, scans);
    forall k, n | k in b && n in b[k].includedByList ensures n in b {
      BuildEntry(paths, scans, k);
      ReferrersExactly(paths, scans, k, n);
    }
    forall k | k in b ensures b[k].name == k {
      BuildEntry(paths, scans, k);
    }
  }

  /** The referrers of a record are exactly the files that include its name, so a file
      that includes itself is its own referrer. */
  lemma BuildReferrers(paths: seq<string>, scans: Scans, k: string, n: string)
    requires k in Build(paths, scans)
    ensures n in Build(paths, scans)[k].includedByList
            <==> exists p :: p in paths && Basename(p) == n && k in scans(p).includedFiles
  {
    BuildEntry(paths, scans, k);
    ReferrersExactly(paths, scans, k, n);
  }

  /** A file with an upper-case letter in its name is never counted as included. */
  lemma BuildUpperCaseUnreferenced(paths: seq<string>, fs: FileSystem, k: string)
    requires k in Build(paths, ScanOf(fs))
    requires exists i :: 0 <= i < |k| && IsUpper(k[i])
    ensures Build(paths, ScanOf(fs))[k].includedByCount == 0 && Build(paths, ScanOf(fs))[k].includedByList == []
  {
    BuildEntry(paths, ScanOf(fs), k);
    UpperCaseNeverIncluded(paths, fs, k);
    ReferrersCount(paths, ScanOf(fs), k);
  }

  /** A record whose files have no includes keeps an empty include list and a count of 0. */
  lemma BuildZeroIncludes(paths: seq<string>, scans: Scans, k: string)
    requires k in Build(paths, scans)
    requires forall p :: p in paths && Basename(p) == k ==> scans(p).includedFiles == []
    ensures Build(paths, scans)[k].lineCount == 0 && Build(paths, scans)[k].includeList == []
  {
    SeedKeys(paths);
    SeedShape(paths);
    PopulatePointwise(Seed(paths), paths, scans);
    PopulatedEntryOwnFields(Seed(paths)[k], k, paths, scans);
  }

  /** Otherwise the record's includes and `;` count are those of the last file with its name
      that has an include. */
  lemma BuildOwnFields(paths: seq<string>, scans: Scans, k: string, i: int)
    requires 0 <= i < |paths| && Basename(paths[i]) == k && scans(paths[i]).includedFiles != []
    requires forall j :: i < j < |paths| && Basename(paths[j]) == k ==> scans(paths[j]).includedFiles == []
    ensures k in Build(paths, scans)
    ensures Build(paths, scans)[k].lineCount == scans(paths[i]).lineCount
    ensures Build(paths, scans)[k].includeList == scans(paths[i]).includedFiles
  {
    SeedKeys(paths);
    PopulatePointwise(Seed(paths), paths, scans);
    PopulatedEntryLastWriter(Seed(paths)[k], k, paths, scans, i);
  }
}
