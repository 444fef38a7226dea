# simple-code-tree include graph, in Dafny

`codetree.py` scans a C/C++ source tree. It reads every `.h`, `.hpp`, `.cpp`, `.c` and
`.cxx` file and records, for each bare file name, which files include it. Then it
reports "strays": a record included exactly once over all files (one `#include`
occurrence), where the record stored under the including file's bare name has the same
prefix (`foo.h` included once, by `foo.cpp`). Any record qualifies, not only a header:
`foo.cpp` included once by `foo.h` is reported too, while a header one file includes twice
is not. The report counts each such pair. It also weighs the pairs' `;` counts against the total of the `;` counts the
records hold. That total is not the `;` count of the tree: a record whose files have no
include holds 0, and files that share a bare name leave one record.

This project models that core and proves what it computes. There are eight modules:

- `Wrappers`: `Option`.
- `Text`: the Python `str` operations the code uses:
  - `strip()` with Python's whitespace set;
  - `startswith`;
  - the substring test `e in s`;
  - `count` of one character;
  - ASCII `lower()`;
  - the code-point order behind `<` on strings.
- `Paths`: `os.path.basename`, `splitext` and `join` as `posixpath` defines them.
- `Filters`: `find_extensions`, `remove_strings`, and `find_files` from the point where the walk has produced its directory listings.
- `Extract`:
  - the regular expression `[a-zA-Z0-9_]+[.][a-zA-Z0-9_]+` with the leftmost-longest match `re.search` reports;
  - `get_filename_from_string`;
  - the line loop of `process_file`, over already-decoded lines.
- `Graph`: the source dictionary as a value (`map<string, Entry>`), together with what each phase of `create_source_dictionary` does to it:
  - seeding (`create_empty_source_dictionary`);
  - one update per file (`update_source_dictionary`);
  - all updates;
  - finalising.

  Its lemmas state the properties of the finished dictionary.
- `Dictionary`: the program's own form. A `class SourceInfo` holds the eight mutable fields, and the dictionary is a `map<string, SourceInfo>` whose records the methods update in place. Every method is proved to compute the corresponding `Graph` function of the dictionary's `View`. `Keyed` (every record stores its key as its name) is the invariant that keeps one record per key, so updating one record changes one entry.
- `Strays`: `find_strays`.
  - The copy of the records into a list.
  - Python's stable `sorted` by `(includedByCount, path)`.
  - The counting loop. Pairs are modelled as data, not printed.
  - The two summary divisions. The exceptions they can raise (`KeyError`, `IndexError`, `ZeroDivisionError`) are modelled as results.

File contents are a parameter `fs: string -> seq<string>` that gives each path's decoded lines. A directory walk is a parameter `seq<WalkStep>` that gives each directory and its file names in walk order.

The order in which a Python dictionary hands out its records is a ghost enumeration `order` of its keys. `Strays.BuildOrderIrrelevant` proves that on a dictionary `create_source_dictionary` builds, the sorted list, and so everything `find_strays` reports, is the same for every such order.

### Where the code and its description differ (the model follows the code)

- Dictionary keys keep the case of the file name (codetree.py:161, codetree.py:172). Included names are lowercased (codetree.py:36, codetree.py:137). So a file whose name has an upper-case letter is never counted as included: see `Graph.UpperCaseNeverIncluded` and `Graph.BuildUpperCaseUnreferenced`.
- The comment at codetree.py:205-207 says a file that includes its own name is not counted. The code has no such check. A file that includes itself is its own referrer (`Graph.BuildReferrers` with `n == k`).
- A file with no includes returns before its `;` count is stored (codetree.py:186-187). Its record keeps `line_count` 0 (`Graph.BuildZeroIncludes`).
- Paths with the same bare name share one record. The last path wins the seed (`Graph.SeedLastWins`), but every such path still runs its update against that record (`Graph.BuildOwnFields`, `Graph.BuildEntry`).
- `find_strays` prints two percentages that divide by the number of records and by the total `;` count. It raises `ZeroDivisionError` when either is zero, for instance on a tree whose files hold no `;` (`Strays.StraysDivideByZero`). The pairs are printed before that, and the first summary line too when only the total is zero; the outcome keeps them (`Strays.RaisedPairs`, `Strays.ZeroTotalExample`).
- `find_strays` can raise `KeyError` or `IndexError` on a hand-made dictionary (`Strays.CountSucceeds`). On a dictionary `create_source_dictionary` built, it never raises them (`Strays.BuildCountSucceeds`).

## Model

| member | source | states |
|---|---|---|
| Text.Strip | codetree.py:135 | the stripped line is the input with whitespace (Python's `isspace` set) removed from both ends only, and neither starts nor ends with whitespace |
| Text.CountChar | codetree.py:132 | `s.count(';')` is the number of occurrences of the character in the line |
| Text.Lower | codetree.py:36 | the lowered name has the same length, every `A`-`Z` becomes the matching `a`-`z`, and every other character stays |
| Text.LowerOfLower | codetree.py:36 | lowering a name without upper-case letters returns it unchanged |
| Text.StripUnique | codetree.py:135 | the contract of `strip()` determines its result |
| Text.LexLeTotal | codetree.py:260 | any two paths are comparable in Python's string order |
| Text.LexLeTransitive | codetree.py:260 | Python's string order is transitive |
| Text.LexLeAntisymmetric | codetree.py:260 | two paths ordered both ways are equal |
| Paths.LastIndexOfSpec | codetree.py:161-162 | `rfind` returns an occurrence of the character, and none occurs after it |
| Paths.LastIndexUnique | codetree.py:161-162 | the index `rfind` returns is the only one with that property |
| Paths.BasenameShape | codetree.py:161 | `basename` is the suffix after the last separator and holds no separator |
| Paths.SplitExt | codetree.py:162 | root + extension is the name; the extension is empty or one dot followed by no dot and no separator |
| Paths.SplitExtExamples | codetree.py:162 | `foo.h` gives (`foo`, `.h`); `a.b.cpp` gives (`a.b`, `.cpp`); `.h` has no extension; a dot in a directory name gives no extension |
| Paths.ExtOfBasename | codetree.py:107 | a path's extension is its bare name's extension, and it is non-empty exactly when the bare name has a dot preceded by a non-dot |
| Paths.JoinBasename | codetree.py:108 | the bare name of `join(root, name)` is `name` when `name` holds no separator |
| Filters.FindExtensions | codetree.py:69-70 | keeps exactly the names whose `splitext` extension is accepted, each as often as it occurs |
| Filters.FilterAppend | codetree.py:69-70 | the comprehension keeps the order: filtering a concatenation concatenates the filtered parts |
| Filters.FilterMultiplicity | codetree.py:82-89 | a kept string keeps all of its occurrences and a dropped one keeps none |
| Filters.RemoveStrings | codetree.py:72-89 | the loop with its `for`/`else` returns the strings that contain no exclusion substring, in order |
| Filters.RemoveStringsExactly | codetree.py:82-89 | membership and multiplicity of what `remove_strings` keeps; with no exclusions the input comes back unchanged |
| Filters.EmptyExclusionRemovesAll | codetree.py:85 | an empty exclusion string removes every path |
| Filters.FindFiles | codetree.py:105-111 | the result is the walked accepted names, joined to their directories in walk order, with `remove_strings` applied |
| Filters.WalkedExactly | codetree.py:106-108 | a path is gathered exactly when it is a directory joined with one of that directory's accepted file names |
| Filters.FindFilesExactly | codetree.py:106-110 | a path is returned exactly when it is gathered and contains no exclusion substring, and then it has an accepted extension |
| Extract.SearchFrom | codetree.py:32-33 | `None` exactly when no match starts at or after the position; otherwise the leftmost start with the longest end |
| Extract.GetFilenameFromString | codetree.py:24-40 | `None` exactly when the string has no match; otherwise the leftmost-longest match, lowered when `lower` holds |
| Extract.LowerFlag | codetree.py:34-38 | with `lower` the result is the lowered form of the result without it, and `None` when that is `None` |
| Extract.IncludeOfExample | codetree.py:135-137 | the line `  #include "Foo.H"` names `foo.h`: the blanks are stripped and the match is lowered |
| Extract.FirstMatchUnique | codetree.py:33 | the leftmost-longest match is unique, so the result is determined |
| Extract.FilenameShape | codetree.py:32-38 | a returned name has at least three characters, contains a dot, and has no upper-case letter when lowered |
| Extract.ProcessFile | codetree.py:126-147 | the count is the `;` total of all raw lines, and the include list holds, in line order, the lowered match of each stripped line starting with `#include` that has one |
| Extract.IncludesAppend | codetree.py:130-139 | the includes of a prefix of the lines come first, in order |
| Extract.SemicolonsAppend | codetree.py:132 | the `;` count of two runs of lines is the sum of their counts |
| Extract.SemicolonsOfAllText | codetree.py:132 | the count is the number of `;` characters in all lines together, include lines too |
| Extract.IncludesAreLowerCase | codetree.py:135-139 | every included name contains a dot and no upper-case letter |
| Extract.NoDirectiveNoIncludes | codetree.py:136 | lines none of which starts with `#include` once stripped include nothing |
| Graph.SeedKeys | codetree.py:158-174 | the seeded keys are exactly the bare names of the paths |
| Graph.SeedLastWins | codetree.py:172 | the record under a key comes from the last path with that bare name |
| Graph.SeedShape | codetree.py:161-172 | every seeded record has name = key, prefix + extension = name, a path of the list whose bare name is the key, empty lists and zero counts |
| Graph.AddReferrersEffect | codetree.py:200-209 | each included name that is a key gains the file's bare name once per include occurrence; other names are ignored; nothing else changes |
| Graph.UpdateEffect | codetree.py:185-209 | `update_source_dictionary` keeps the key set; changes nothing when the file has no includes or its bare name is not a key; otherwise sets that record's includes and count and appends referrers as above |
| Graph.UpdateKeepsClosed | codetree.py:203-209 | every referrer stays a key of the dictionary |
| Graph.PopulatePointwise | codetree.py:235-236 | when every path's bare name is a key, the update loop acts on each record independently |
| Graph.PopulatedEntryEffect | codetree.py:235-236 | the update loop keeps name, prefix, extension, path and count, and appends exactly the referrers of the key |
| Graph.PopulatedEntryOwnFields | codetree.py:186-197 | a record none of whose files has an include keeps its seeded include list and `;` count |
| Graph.PopulatedEntryLastWriter | codetree.py:196-197 | otherwise they come from the last file with that bare name that has an include |
| Graph.ReferrersExactly | codetree.py:200-209 | a name is a referrer of `k` exactly when some path with that bare name includes `k` |
| Graph.ReferrersCount | codetree.py:200-209 | there is one referrer entry per include occurrence over all files |
| Graph.UpperCaseNeverIncluded | codetree.py:137 | no file includes a name holding an upper-case letter |
| Graph.BuildEntry | codetree.py:224-242 | a finished record has its seed's name, prefix, extension and path, the referrers of its key as its list, and their number as its count |
| Graph.BuildKeys | codetree.py:224-230 | the finished keys are the bare names of the found paths |
| Graph.BuildWellFormed | codetree.py:238-242 | after finalising, every count is its list's length, every referrer is a key, and every record sits under its own name |
| Graph.BuildReferrers | codetree.py:205-209 | a referrer of `k` is exactly the bare name of a file including `k`, self-includes included |
| Graph.BuildUpperCaseUnreferenced | codetree.py:36 | a file whose name has an upper-case letter ends with no referrers and a count of 0 |
| Graph.BuildZeroIncludes | codetree.py:186-187 | a record none of whose files has an include ends with `line_count` 0 and no includes |
| Graph.BuildOwnFields | codetree.py:196-197 | otherwise its includes and `;` count are those of the last such file that has an include |
| Dictionary.SourceInfo.constructor | codetree.py:7-16 | a new record has empty strings, empty lists and zero counts |
| Dictionary.NewRecord | codetree.py:161-169 | a fresh record with the path, its bare name, and that name's `splitext` parts |
| Dictionary.CreateEmptySourceDictionary | codetree.py:149-174 | fresh records keyed by their own names, whose view is the seeded dictionary |
| Dictionary.SetOwnFields | codetree.py:196-197 | only the named record's includes and count change |
| Dictionary.AppendReferrer | codetree.py:208-209 | only the named record's referrer list gains the name |
| Dictionary.RecordFileInfo | codetree.py:186-209 | the view changes as `Graph.Update` says, and every record keeps its key as its name |
| Dictionary.UpdateSourceDictionary | codetree.py:176-209 | `process_file`, then the in-place update; the new view is `Graph.Update` of the old one |
| Dictionary.UpdateAll | codetree.py:235-236 | the update loop turns the view into `Graph.Populate` of the old one |
| Dictionary.FinalizeRecord | codetree.py:240 | only the named record's count changes, to its list's length |
| Dictionary.FinalizeAll | codetree.py:239-240 | visiting the records in any order finalises every one of them |
| Dictionary.CreateSourceDictionary | codetree.py:211-242 | `None` exactly when no file is found; otherwise a dictionary whose view is `Graph.Build` of the found paths (so every `Graph.Build…` lemma holds of it) |
| Strays.KeyLeTotal | codetree.py:260 | the sort key order is total |
| Strays.KeyLeTransitive | codetree.py:260 | the sort key order is transitive |
| Strays.InsertMultiset | codetree.py:260 | inserting adds exactly the one record |
| Strays.InsertSorted | codetree.py:260 | inserting into a sorted list keeps it sorted |
| Strays.SortByKey | codetree.py:260 | `sorted` returns a permutation of its input in ascending `(includedByCount, path)` order |
| Strays.SortedUnique | codetree.py:260 | without equal keys, two sorted permutations of the same records are equal |
| Strays.StraysIn | codetree.py:270 | the strays of a list are exactly its records with one referrer whose record has the same prefix |
| Strays.CountSucceeds | codetree.py:270 | the loop raises nothing exactly when every record with count 1 has a non-empty list whose first name is a key |
| Strays.StoppedStays | codetree.py:270 | after an exception the rest of the list is not looked at |
| Strays.CountOneEffect | codetree.py:266-275 | one pass adds the record's `;` count to the total, and for a stray adds the pair, two files and both `;` counts |
| Strays.CountTotal | codetree.py:268 | the total is the sum of the `;` counts of all records |
| Strays.CountPairs | codetree.py:270-272 | the pairs are the strays in list order with their referrers' paths, and the stray file count is twice their number |
| Strays.CountStrayLines | codetree.py:275 | the stray `;` count sums each stray's count and its referrer's |
| Strays.StraysDivideByZero | codetree.py:277-278 | the summary raises `ZeroDivisionError` exactly when the list is empty or the total is 0, keeping the tally of the whole loop; otherwise the sorted list is returned |
| Strays.CountStopped | codetree.py:266-270 | when the loop stops on an exception, it stopped at one record with count 1 whose lookup failed, every record before it was counted, and nothing after it was looked at |
| Strays.StopsAtEffect | codetree.py:268-270 | that record raises `IndexError` when its list is empty and `KeyError` of its first name otherwise, with the tally of the records before it and its `;` count added to the total |
| Strays.RaisedPairs | codetree.py:270-278 | a raised outcome keeps what was printed: for `ZeroDivisionError` the pairs of all the strays and two files each; for a lookup error the pairs of the strays before the failing record |
| Strays.SortExample | codetree.py:260 | `d/a.h` (one referrer), `d/a.cpp` and `d/b.h` (none) sort as `d/a.cpp`, `d/b.h`, `d/a.h` |
| Strays.ZeroTotalExample | codetree.py:266-278 | on those records, whose `;` counts are all 0, the pair `d/a.h -> d/a.cpp` and two stray files are counted before `ZeroDivisionError` is raised |
| Strays.WellFormedCountSucceeds | codetree.py:270 | on a finalised dictionary whose referrers are keys, no lookup fails |
| Strays.ItemsAreValues | codetree.py:255-257 | the copied list holds exactly the dictionary's records |
| Strays.ItemsDistinct | codetree.py:255-257 | no record is copied twice |
| Strays.ItemsSameMultiset | codetree.py:255-257 | any two orders of the dictionary copy the same records |
| Strays.ListValues | codetree.py:255-257 | the copy visits every key once, in some order, and lists the records in that order: as many as the dictionary has, and exactly its records |
| Strays.CountStrays | codetree.py:262-280 | the counting loop and the two divisions produce exactly `StraysOf` of the sorted list; an exception carries the tally reached when it is raised, whose pairs are already printed |
| Strays.FindStrays | codetree.py:244-280 | copy, sort and count: the outcome is `StraysOf` of the sorted copy for the order the copy used (a raised outcome keeps the pairs printed before it), and a returned list is sorted by `(includedByCount, path)` and holds exactly the dictionary's records |
| Strays.FoundSortedValues | codetree.py:255-280 | a returned list is sorted, as long as the dictionary, and a permutation of its records |
| Strays.BuildStraySound | codetree.py:244-248 | in a built dictionary a stray is a name included once over all files, by a file whose record has the same prefix |
| Strays.BuildStrayComplete | codetree.py:244-248 | and every such name is a stray |
| Strays.BuildCountSucceeds | codetree.py:270 | on a built dictionary `find_strays` raises no `KeyError` or `IndexError` |
| Strays.BuildNoTies | codetree.py:260 | in a built dictionary no two records share a sort key |
| Strays.BuildOrderIrrelevant | codetree.py:256-260 | in a built dictionary the sorted list does not depend on the dictionary's order |

## Left out

- The directory walk (`os.walk` in `find_files`, codetree.py:106), `get_immediate_subdirectories`, `print_subdir_info` and `test()`: these are file-system I/O. The walk's output is the parameter `walk`.
- Opening files and `UnicodeDecodeError` (codetree.py:128-144): each file is given as its decoded lines through the parameter `fs`. A file that fails to decode or open is not modelled.
- Extract.ProcessFile: works on a file's lines as given. It does not model the partial result left by a decode error part-way through a file.
- The printed text and the two rounded percentages of `find_strays` (codetree.py:271, codetree.py:277-278): these are output and floating point. The pairs are returned as data, in the tally of every outcome, a raised one included. The divisions are modelled only as the `ZeroDivisionError` they can raise. When the list is non-empty and the total is 0, the first summary line is printed before that error; the model holds its inputs (the stray file count in the tally and the length of the list) but not a record that it was printed.
- Strays.FindStrays: returns the sorted records as `Entry` values (snapshots of the objects), not the objects themselves.
- Strays.ListValues: Python's dictionary order is not modelled. The copy may visit the keys in any order, and `Strays.BuildOrderIrrelevant` shows the order does not change the result on a built dictionary.
- `FileInfo` (codetree.py:18-21) is a datatype. `sourceStruct.includeList = file_info.included_files` (codetree.py:196) puts the same list object into the record, but nothing appends to that list or changes it afterwards, so a value is enough.
- Paths are POSIX paths with '/' as the only separator. The Windows form of `os.path` (`ntpath`) is not part of this model.
- `code_counter.py` is not part of this model. It is a separate script whose only computation, counting `;`, is the one `process_file` does.
- Text.Lower: covers ASCII only. That is exact here, because it is only applied to matches of `[a-zA-Z0-9_.]` characters.
