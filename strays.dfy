/** `find_strays`: the records sorted by (referrer count, path), and the tally of "strays":
    records included exactly once over all files (one `#include` occurrence) where the
    record stored under the including file's bare name has the same prefix, counted
    together with that record. */
module Strays {
  import opened Text
  import opened Paths
  import opened Filters
  import opened Graph
  import opened Dictionary

  // ---------------------------------------------------------------- sorting

  /** The order of the sort key `(includedByCount, path)`. */
  predicate KeyLe(a: Entry, b: Entry) {
    a.includedByCount < b.includedByCount || (a.includedByCount == b.includedByCount && LexLe(a.path, b.path))
  }

  lemma KeyLeTotal(a: Entry, b: Entry)
    ensures KeyLe(a, b) || KeyLe(b, a)
  {
    LexLeTotal(a.path, b.path);
  }

  lemma KeyLeTransitive(a: Entry, b: Entry, c: Entry)
    requires KeyLe(a, b) && KeyLe(b, c)
    ensures KeyLe(a, c)
  {
    if a.includedByCount == b.includedByCount == c.includedByCount {
      LexLeTransitive(a.path, b.path, c.path);
    }
  }

  predicate SortedByKey(l: seq<Entry>) {
    forall i, j :: 0 <= i < j < |l| ==> KeyLe(l[i], l[j])
  }

  /** Inserts `x` after every element whose key is not greater, which keeps the sort stable. */
  function Insert(l: seq<Entry>, x: Entry): seq<Entry> {
    if l == [] then [x]
    else if !KeyLe(l[0], x) then [x] + l
    else [l[0]] + Insert(l[1..], x)
  }

  lemma {:induction false} InsertMultiset(l: seq<Entry>, x: Entry)
    ensures multiset(Insert(l, x)) == multiset(l) + multiset{x}
  {
    if l != [] && KeyLe(l[0], x) {
      InsertMultiset(l[1..], x);
      assert l == [l[0]] + l[1..];
    }
  }

  lemma {:induction false} InsertSorted(l: seq<Entry>, x: Entry)
    requires SortedByKey(l)
    ensures SortedByKey(Insert(l, x))
  {
    if l == [] {
    } else if !KeyLe(l[0], x) {
      KeyLeTotal(l[0], x);
      forall j | 0 <= j < |l| ensures KeyLe(x, l[j]) {
        if j > 0 {
          KeyLeTransitive(x, l[0], l[j]);
        }
      }
      ConsSorted(x, l);
    } else {
      InsertSorted(l[1..], x);
      InsertAboveHead(l, x);
      ConsSorted(l[0], Insert(l[1..], x));
    }
  }

  /** A record not above any record of a sorted list can go in front of it. */
  lemma ConsSorted(a: Entry, l: seq<Entry>)
    requires SortedByKey(l) && forall j :: 0 <= j < |l| ==> KeyLe(a, l[j])
    ensures SortedByKey([a] + l)
  {
    var r := [a] + l;
    forall i, j | 0 <= i < j < |r| ensures KeyLe(r[i], r[j]) {
      assert r[j] == l[j - 1];
      if i > 0 {
        assert r[i] == l[i - 1];
      }
    }
  }

  /** Inserting a record not below the head of a sorted list into its tail keeps every
      record not below the head. */
  lemma InsertAboveHead(l: seq<Entry>, x: Entry)
    requires SortedByKey(l) && l != [] && KeyLe(l[0], x)
    ensures forall j :: 0 <= j < |Insert(l[1..], x)| ==> KeyLe(l[0], Insert(l[1..], x)[j])
  {
    var rest := Insert(l[1..], x);
    InsertMultiset(l[1..], x);
    forall j | 0 <= j < |rest| ensures KeyLe(l[0], rest[j]) {
      assert rest[j] in multiset(l[1..]) + multiset{x};
      if rest[j] != x {
        var m :| 0 <= m < |l[1..]| && l[1..][m] == rest[j];
        assert l[m + 1] == rest[j];
      }
    }
  }

  /** Python's `sorted` with the key `(includedByCount, path)`: a stable insertion sort. */
  function SortByKey(items: seq<Entry>): (l: seq<Entry>)
    ensures SortedByKey(l) && multiset(l) == multiset(items)
  {
    if items == [] then []
    else
      var n := |items| - 1;
      var sorted := SortByKey(items[..n]);
      InsertSorted(sorted, items[n]);
      InsertMultiset(sorted, items[n]);
      assert items == items[..n] + [items[n]];
      Insert(sorted, items[n])
  }

  /** No two different entries of `s` have equal sort keys. */
  predicate NoTies(s: seq<Entry>) {
    forall x, y :: x in s && y in s && KeyLe(x, y) && KeyLe(y, x) ==> x == y
  }

  /** Without ties the sorted order is unique: two sorted arrangements of the same entries
      are equal, so the order the dictionary hands out its records does not matter. */
  lemma {:induction false} SortedUnique(a: seq<Entry>, b: seq<Entry>)
    requires SortedByKey(a) && SortedByKey(b) && multiset(a) == multiset(b) && NoTies(a)
    ensures a == b
    decreases |a|
  {
    assert |a| == |multiset(a)| == |b|;
    if a != [] {
      SortedHeads(a, b);
      DropHead(a);
      DropHead(b);
      NoTiesTail(a);
      SortedUnique(a[1..], b[1..]);
    }
  }

  lemma DropHead(a: seq<Entry>)
    requires a != []
    ensures multiset(a[1..]) == multiset(a) - multiset{a[0]}
    ensures SortedByKey(a) ==> SortedByKey(a[1..])
  {
    assert a == [a[0]] + a[1..];
  }

  lemma NoTiesTail(a: seq<Entry>)
    requires a != [] && NoTies(a)
    ensures NoTies(a[1..])
  {
    assert forall x :: x in a[1..] ==> x in a;
  }

  /** Two sorted arrangements of the same entries without ties start with the same entry. */
  lemma SortedHeads(a: seq<Entry>, b: seq<Entry>)
    requires SortedByKey(a) && SortedByKey(b) && multiset(a) == multiset(b) && NoTies(a)
    requires a != [] && b != []
    ensures a[0] == b[0]
  {
    assert a[0] in multiset(b) && b[0] in multiset(a);
    var i :| 0 <= i < |b| && b[i] == a[0];
    var j :| 0 <= j < |a| && a[j] == b[0];
    if i != 0 && j != 0 {
      assert KeyLe(b[0], b[i]) && KeyLe(a[0], a[j]);
      assert a[j] in a;
    }
  }

  // ---------------------------------------------------------------- counting

  /** The exceptions the counting loop and the summary lines can raise. */
  datatype Error = KeyError(key: string) | IndexError | ZeroDivisionError

  /** The printed stray pairs (`path -> referrer path`), the stray file count, the stray
      `;` count and the total `;` count. */
  datatype Tally = Tally(pairs: seq<(string, string)>, strayFiles: nat, strayLloc: int, totalLloc: int)

  /** The counting loop goes on with its tally, or has stopped on an exception with the
      tally it had reached; the pairs in that tally are already printed. */
  datatype Counting = Going(tally: Tally) | Stopped(error: Error, tally: Tally)

  /** What `find_strays` ends with: the sorted list and the tally, or the exception raised
      together with the tally reached when it was raised. */
  datatype Outcome = Found(sorted: seq<Entry>, tally: Tally) | Raised(error: Error, tally: Tally)

  /** `o` counts as a stray: one referrer, which is a key whose record has the same prefix. */
  predicate Stray(v: Dict, o: Entry) {
    o.includedByCount == 1 && |o.includedByList| > 0 && o.includedByList[0] in v
    && v[o.includedByList[0]].prefix == o.prefix
  }

  /** One pass of the counting loop over `o`. */
  function CountOne(v: Dict, t: Tally, o: Entry): Counting {
    var t' := t.(totalLloc := t.totalLloc + o.lineCount);
    if o.includedByCount != 1 then Going(t')
    else if |o.includedByList| == 0 then Stopped(IndexError, t')
    else
      var r := o.includedByList[0];
      if r !in v then Stopped(KeyError(r), t')
      else if v[r].prefix == o.prefix then
        Going(t'.(pairs := t'.pairs + [(o.path, v[r].path)], strayFiles := t'.strayFiles + 2,
                  strayLloc := t'.strayLloc + o.lineCount + v[r].lineCount))
      else Going(t')
  }

  /** The counting loop of `find_strays` over `l`; the first exception stops it. */
  function Count(v: Dict, l: seq<Entry>): Counting {
    if l == [] then Going(Tally([], 0, 0, 0))
    else
      match Count(v, l[..|l| - 1])
      case Stopped(e, t) => Stopped(e, t)
      case Going(t) => CountOne(v, t, l[|l| - 1])
  }

  /** `find_strays` on the dictionary value `v` whose records were sorted into `l`: the
      counting loop, then the two percentage lines, which divide by `len(l)` and by the
      total `;` count. */
  function StraysOf(v: Dict, l: seq<Entry>): Outcome {
    match Count(v, l)
    case Stopped(e, t) => Raised(e, t)
    case Going(t) => if |l| == 0 || t.totalLloc == 0 then Raised(ZeroDivisionError, t) else Found(l, t)
  }

  /** The strays of `l`, in order. */
  function StraysIn(v: Dict, l: seq<Entry>): (s: seq<Entry>)
    ensures forall o :: o in s <==> o in l && Stray(v, o)
    ensures forall i :: 0 <= i < |s| ==> Stray(v, s[i])
  {
    Filter(l, o => Stray(v, o))
  }

  /** The sum of the `;` counts of `l`. */
  function SumLines(l: seq<Entry>): int {
    if l == [] then 0 else SumLines(l[..|l| - 1]) + l[|l| - 1].lineCount
  }

  /** The `;` count of a stray and of its referrer, summed over the strays `s`. */
  function StrayLines(v: Dict, s: seq<Entry>): int
    requires forall i :: 0 <= i < |s| ==> Stray(v, s[i])
  {
    if s == [] then 0
    else
      var o := s[|s| - 1];
      assert Stray(v, o);
      StrayLines(v, s[..|s| - 1]) + o.lineCount + v[o.includedByList[0]].lineCount
  }

  /** No exception is raised while counting exactly when every record with one referrer has
      a non-empty list whose first name is a key. */
  lemma {:induction false} CountSucceeds(v: Dict, l: seq<Entry>)
    ensures Count(v, l).Going?
            <==> forall i :: 0 <= i < |l| && l[i].includedByCount == 1
                             ==> |l[i].includedByList| > 0 && l[i].includedByList[0] in v
  {
    if l != [] {
      var n := |l| - 1;
      CountSucceeds(v, l[..n]);
      assert forall i :: 0 <= i < n ==> l[..n][i] == l[i];
    }
  }

  /** One pass of the counting loop that raises nothing adds the record's `;` count to the
      total, and for a stray also adds the pair, two files and both `;` counts. */
  lemma CountOneEffect(v: Dict, t: Tally, o: Entry)
    requires CountOne(v, t, o).Going?
    ensures var t' := CountOne(v, t, o).tally;
            && t'.totalLloc == t.totalLloc + o.lineCount
            && (Stray(v, o) ==> t'.pairs == t.pairs + [(o.path, v[o.includedByList[0]].path)]
                                && t'.strayFiles == t.strayFiles + 2
                                && t'.strayLloc == t.strayLloc + o.lineCount + v[o.includedByList[0]].lineCount)
            && (!Stray(v, o) ==> t'.pairs == t.pairs && t'.strayFiles == t.strayFiles && t'.strayLloc == t.strayLloc)
  {
  }

  /** When counting completes, the total is the sum of the `;` counts of all records. */
  lemma {:induction false} CountTotal(v: Dict, l: seq<Entry>)
    requires Count(v, l).Going?
    ensures Count(v, l).tally.totalLloc == SumLines(l)
  {
    if l != [] {
      var n := |l| - 1;
      CountTotal(v, l[..n]);
      CountOneEffect(v, Count(v, l[..n]).tally, l[n]);
    }
  }

  /** The strays of a list are those of all but its last record, then that record if it is one. */
  lemma StraysInStep(v: Dict, l: seq<Entry>)
    requires l != []
    ensures StraysIn(v, l) == StraysIn(v, l[..|l| - 1]) + if Stray(v, l[|l| - 1]) then [l[|l| - 1]] else []
  {
  }

  /** When counting completes, the stray pairs are the strays of `l` in order with their
      referrers' paths, and two files are counted per stray. */
  lemma {:induction false} CountPairs(v: Dict, l: seq<Entry>)
    requires Count(v, l).Going?
    ensures var t := Count(v, l).tally; var s := StraysIn(v, l);
            && |t.pairs| == |s| && t.strayFiles == 2 * |s|
            && forall i :: 0 <= i < |s| ==> t.pairs[i] == (s[i].path, v[s[i].includedByList[0]].path)
  {
    if l != [] {
      var n := |l| - 1;
      CountPairs(v, l[..n]);
      CountOneEffect(v, Count(v, l[..n]).tally, l[n]);
      StraysInStep(v, l);
    }
  }

  /** When counting completes, the stray count sums the `;` counts of both files of each pair. */
  lemma {:induction false} CountStrayLines(v: Dict, l: seq<Entry>)
    requires Count(v, l).Going?
    ensures Count(v, l).tally.strayLloc == StrayLines(v, StraysIn(v, l))
  {
    if l != [] {
      var n := |l| - 1;
      CountStrayLines(v, l[..n]);
      CountOneEffect(v, Count(v, l[..n]).tally, l[n]);
      StraysInStep(v, l);
      var s' := StraysIn(v, l[..n]);
      if Stray(v, l[n]) {
        var s := s' + [l[n]];
        assert s[..|s'|] == s' && s[|s'|] == l[n];
        assert StrayLines(v, s) == StrayLines(v, s') + l[n].lineCount + v[l[n].includedByList[0]].lineCount;
        assert StraysIn(v, l) == s;
        assert Count(v, l).tally.strayLloc == Count(v, l[..n]).tally.strayLloc + l[n].lineCount + v[l[n].includedByList[0]].lineCount;
      } else {
        assert StraysIn(v, l) == s';
        assert Count(v, l).tally.strayLloc == Count(v, l[..n]).tally.strayLloc;
      }
    }
  }

  /** The summary lines raise `ZeroDivisionError` exactly when the dictionary is empty or its
      files hold no `;` at all; either way the outcome keeps the tally of the whole loop. */
  lemma StraysDivideByZero(v: Dict, l: seq<Entry>)
    requires Count(v, l).Going?
    ensures StraysOf(v, l).Raised? <==> |l| == 0 || SumLines(l) == 0
    ensures StraysOf(v, l).Raised? ==> StraysOf(v, l).error == ZeroDivisionError
    ensures StraysOf(v, l).tally == Count(v, l).tally
    ensures StraysOf(v, l).Found? ==> StraysOf(v, l).sorted == l
  {
    CountTotal(v, l);
  }

  /** The pairs printed for the strays `s`, each with its referrer's path. */
  function PairsOf(v: Dict, s: seq<Entry>): seq<(string, string)>
    requires forall i :: 0 <= i < |s| ==> Stray(v, s[i])
  {
    seq(|s|, i requires 0 <= i < |s| && Stray(v, s[i]) => (s[i].path, v[s[i].includedByList[0]].path))
  }

  /** The counting loop over `l` reaches its `i`-th record, which has one referrer but an
      empty list or a first name that is not a key. */
  predicate StopsAt(v: Dict, l: seq<Entry>, i: int) {
    0 <= i < |l| && Count(v, l[..i]).Going? && l[i].includedByCount == 1
    && (|l[i].includedByList| == 0 || l[i].includedByList[0] !in v)
  }

  /** A failed lookup raises `IndexError` for an empty list and `KeyError` of the name
      otherwise, with the tally of the records before it and that record's `;` count added
      to the total. */
  lemma StopsAtEffect(v: Dict, l: seq<Entry>, i: int)
    requires StopsAt(v, l, i)
    ensures var t := Count(v, l[..i]).tally;
            Count(v, l[..i + 1]) == Stopped(
              if |l[i].includedByList| == 0 then IndexError else KeyError(l[i].includedByList[0]),
              t.(totalLloc := t.totalLloc + l[i].lineCount))
  {
    assert l[..i + 1][..i] == l[..i];
  }

  /** When the counting loop stops, it stopped at one record and looked at nothing after it. */
  lemma {:induction false} CountStopped(v: Dict, l: seq<Entry>)
    requires Count(v, l).Stopped?
    ensures exists i :: StopsAt(v, l, i) && Count(v, l) == Count(v, l[..i + 1])
  {
    var n := |l| - 1;
    assert l[..n + 1] == l;
    if Count(v, l[..n]).Stopped? {
      CountStopped(v, l[..n]);
      var i :| StopsAt(v, l[..n], i) && Count(v, l[..n]) == Count(v, l[..n][..i + 1]);
      assert l[..n][..i] == l[..i] && l[..n][..i + 1] == l[..i + 1];
      assert StopsAt(v, l, i);
    } else {
      assert StopsAt(v, l, n);
    }
  }

  /** When `find_strays` raises, what it has printed is in the tally it carries: for a
      lookup error, the pairs of the strays before the failing record; for
      `ZeroDivisionError`, the pairs of all the strays, two files each (and, on a non-empty
      list, the first summary line, which divides by `len(l)`). */
  lemma RaisedPairs(v: Dict, l: seq<Entry>)
    requires StraysOf(v, l).Raised?
    ensures var o := StraysOf(v, l);
            o.error == ZeroDivisionError
            ==> o.tally.pairs == PairsOf(v, StraysIn(v, l)) && o.tally.strayFiles == 2 * |StraysIn(v, l)|
    ensures var o := StraysOf(v, l);
            o.error != ZeroDivisionError
            ==> exists i :: StopsAt(v, l, i)
                            && o.tally.pairs == PairsOf(v, StraysIn(v, l[..i]))
                            && o.tally.strayFiles == 2 * |StraysIn(v, l[..i])|
  {
    if Count(v, l).Going? {
      CountPairs(v, l);
    } else {
      CountStopped(v, l);
      var i :| StopsAt(v, l, i) && Count(v, l) == Count(v, l[..i + 1]);
      StopsAtEffect(v, l, i);
      CountPairs(v, l[..i]);
    }
  }

  /** In a finished dictionary, no lookup in the counting loop fails: a count of one means a
      list of one name, and every referrer is a key. */
  lemma WellFormedCountSucceeds(v: Dict, l: seq<Entry>)
    requires WellFormed(v)
    requires forall i :: 0 <= i < |l| ==> exists k :: k in v && v[k] == l[i]
    ensures Count(v, l).Going?
  {
    CountSucceeds(v, l);
    forall i | 0 <= i < |l| && l[i].includedByCount == 1
      ensures |l[i].includedByList| > 0 && l[i].includedByList[0] in v
    {
      var k :| k in v && v[k] == l[i];
      assert l[i].includedByList[0] in v[k].includedByList;
    }
  }

  // ---------------------------------------------------------------- the method

  /** `order` lists every key exactly once. */
  ghost predicate Enumerates(order: seq<string>, keys: set<string>) {
    (forall i, j :: 0 <= i < j < |order| ==> order[i] != order[j])
    && forall k :: k in order <==> k in keys
  }

  /** The records of `v` in the order `order` visits their keys. */
  function Items(v: Dict, order: seq<string>): (r: seq<Entry>)
    requires forall k :: k in order ==> k in v
    ensures |r| == |order| && forall i :: 0 <= i < |order| ==> r[i] == v[order[i]]
  {
    seq(|order|, i requires 0 <= i < |order| => v[order[i]])
  }

  /** The first loop of `find_strays`: the records in the order the dictionary hands them out. */
  method ListValues(d: SourceDictionary) returns (itemList: seq<Entry>, ghost order: seq<string>)
    ensures Enumerates(order, d.Keys)
    ensures itemList == Items(View(d), order)
    ensures |itemList| == |d| && forall x :: x in itemList <==> exists k :: k in View(d) && View(d)[k] == x
  {
    ghost var v := View(d);
    var keys := d.Keys;
    itemList := [];
    order := [];
    while keys != {}
      invariant keys <= d.Keys
      invariant forall i, j :: 0 <= i < j < |order| ==> order[i] != order[j]
      invariant forall k :: k in d ==> (k in order <==> k !in keys)
      invariant forall k :: k in order ==> k in d
      invariant itemList == Items(v, order)
      decreases keys
    {
      var k :| k in keys;
      itemList := itemList + [d[k].Snapshot()];
      order := order + [k];
      keys := keys - {k};
    }
    OrderSize(order, d.Keys);
    ItemsAreValues(v, order);
  }

  /** The counting loop and the summary lines of `find_strays` over the sorted list `l`. */
  method CountStrays(d: SourceDictionary, l: seq<Entry>) returns (outcome: Outcome)
    ensures outcome == StraysOf(View(d), l)
  {
    ghost var v := View(d);
    var count, lineCount, totalLineCount := 0, 0, 0;
    var pairs := [];
    for i := 0 to |l|
      invariant Count(v, l[..i]) == Going(Tally(pairs, count, lineCount, totalLineCount))
    {
      var o := l[i];
      assert l[..i + 1][..i] == l[..i];
      totalLineCount := totalLineCount + o.lineCount;
      if o.includedByCount == 1 {
        if |o.includedByList| == 0 {
          StoppedStays(v, l, i + 1);
          return Raised(IndexError, Tally(pairs, count, lineCount, totalLineCount));
        }
        var referrer := o.includedByList[0];
        if referrer !in d {
          StoppedStays(v, l, i + 1);
          return Raised(KeyError(referrer), Tally(pairs, count, lineCount, totalLineCount));
        }
        var partner := d[referrer];
        if partner.prefix == o.prefix {
          pairs := pairs + [(o.path, partner.path)];
          count := count + 2;
          lineCount := lineCount + o.lineCount + partner.lineCount;
        }
      }
    }
    assert l[..|l|] == l;
    if |l| == 0 || totalLineCount == 0 {
      outcome := Raised(ZeroDivisionError, Tally(pairs, count, lineCount, totalLineCount));
    } else {
      outcome := Found(l, Tally(pairs, count, lineCount, totalLineCount));
    }
  }

  /** `find_strays`: copy the records into a list in the dictionary's order, sort it by
      (referrer count, path), then count the strays and the `;` totals. */
  method FindStrays(d: SourceDictionary) returns (outcome: Outcome, ghost order: seq<string>)
    ensures Enumerates(order, d.Keys)
    ensures outcome == StraysOf(View(d), SortByKey(Items(View(d), order)))
    ensures outcome.Found? ==> SortedByKey(outcome.sorted) && |outcome.sorted| == |d|
                               && forall x :: x in outcome.sorted <==> exists k :: k in View(d) && View(d)[k] == x
  {
    var itemList;
    itemList, order := ListValues(d);
    var l := SortByKey(itemList);
    outcome := CountStrays(d, l);
    FoundSortedValues(View(d), order);
  }

  /** Once an exception is raised, counting the rest of the list changes nothing. */
  lemma {:induction false} StoppedStays(v: Dict, l: seq<Entry>, n: nat)
    requires n <= |l| && Count(v, l[..n]).Stopped?
    ensures Count(v, l) == Count(v, l[..n])
    decreases |l|
  {
    if n < |l| {
      var m := |l| - 1;
      assert l[..m][..n] == l[..n];
      StoppedStays(v, l[..m], n);
    } else {
      assert l[..n] == l;
    }
  }

  // ---------------------------------------------------------------- strays of a finished dictionary

  /** Some file that includes `k` has a bare name whose record in `v` has the prefix of
      `k`'s record. */
  predicate PartnerIncludes(v: Dict, paths: seq<string>, scans: Scans, k: string)
    requires k in v
  {
    exists p :: p in paths && k in scans(p).includedFiles && Basename(p) in v && v[Basename(p)].prefix == v[k].prefix
  }

  /** In the dictionary `create_source_dictionary` builds, a stray is a name included once
      over all files, by a file whose bare name has a record with the same prefix. */
  lemma BuildStraySound(paths: seq<string>, scans: Scans, v: Dict, k: string)
    requires v == Build(paths, scans) && k in v && Stray(v, v[k])
    ensures Inbound(paths, scans, k) == 1 && PartnerIncludes(v, paths, scans, k)
  {
    BuildEntry(paths, scans, k);
    var name := Referrers(paths, scans, k)[0];
    ReferrersExactly(paths, scans, k, name);
    var p :| p in paths && Basename(p) == name && k in scans(p).includedFiles;
    assert Basename(p) in v && v[Basename(p)].prefix == v[k].prefix;
  }

  /** Conversely, such a name is a stray. */
  lemma BuildStrayComplete(paths: seq<string>, scans: Scans, v: Dict, k: string)
    requires v == Build(paths, scans) && k in v
    requires Inbound(paths, scans, k) == 1 && PartnerIncludes(v, paths, scans, k)
    ensures Stray(v, v[k])
  {
    var p :| p in paths && k in scans(p).includedFiles && Basename(p) in v && v[Basename(p)].prefix == v[k].prefix;
    OneReferrer(paths, scans, k, p);
    BuildEntry(paths, scans, k);
    StrayByReferrer(v, v[k], Basename(p));
  }

  /** A name included once over all files, by `p`, has the bare name of `p` as its only
      referrer. */
  lemma OneReferrer(paths: seq<string>, scans: Scans, k: string, p: string)
    requires p in paths && k in scans(p).includedFiles && Inbound(paths, scans, k) == 1
    ensures |Referrers(paths, scans, k)| == 1 && Basename(p) in Referrers(paths, scans, k)
  {
    var i :| 0 <= i < |paths| && paths[i] == p;
    ReferrersComplete(paths, scans, k, i);
    ReferrersCount(paths, scans, k);
  }

  /** A record with one referrer, which is a key whose record has the same prefix, is a stray. */
  lemma StrayByReferrer(v: Dict, o: Entry, name: string)
    requires o.includedByCount == 1 && |o.includedByList| == 1 && name in o.includedByList
    requires name in v && v[name].prefix == o.prefix
    ensures Stray(v, o)
  {
    assert o.includedByList[0] == name;
  }

  /** On the dictionary `create_source_dictionary` builds, `find_strays` never raises a
      lookup error: it either reports or fails on a zero division. */
  lemma BuildCountSucceeds(paths: seq<string>, scans: Scans, order: seq<string>)
    requires Enumerates(order, Build(paths, scans).Keys)
    ensures var v := Build(paths, scans);
            Count(v, SortByKey(Items(v, order))).Going?
  {
    var v := Build(paths, scans);
    var items := Items(v, order);
    var l := SortByKey(items);
    BuildWellFormed(paths, scans);
    forall i | 0 <= i < |l| ensures exists k :: k in v && v[k] == l[i] {
      assert l[i] in multiset(items);
      var j :| 0 <= j < |items| && items[j] == l[i];
      assert v[order[j]] == l[i];
    }
    WellFormedCountSucceeds(v, l);
  }

  // ---------------------------------------------------------------- the order of the dictionary

  /** Every record of the finished dictionary comes from a path whose bare name is its key. */
  lemma BuildPathNames(paths: seq<string>, scans: Scans, k: string)
    requires k in Build(paths, scans)
    ensures Basename(Build(paths, scans)[k].path) == k
  {
    BuildEntry(paths, scans, k);
    SeedShape(paths);
  }

  /** In the finished dictionary no two records share a sort key: their paths differ, since
      the bare name of each path is its key. */
  lemma BuildNoTies(paths: seq<string>, scans: Scans, order: seq<string>)
    requires Enumerates(order, Build(paths, scans).Keys)
    ensures NoTies(Items(Build(paths, scans), order))
  {
    var v := Build(paths, scans);
    var items := Items(v, order);
    forall x, y | x in items && y in items && KeyLe(x, y) && KeyLe(y, x) ensures x == y {
      var i :| 0 <= i < |items| && items[i] == x;
      var j :| 0 <= j < |items| && items[j] == y;
      LexLeAntisymmetric(x.path, y.path);
      BuildPathNames(paths, scans, order[i]);
      BuildPathNames(paths, scans, order[j]);
    }
  }

  /** A list without repeats holds each of its elements once. */
  lemma {:induction false} DistinctMultiset(s: seq<Entry>, x: Entry)
    requires forall i, j :: 0 <= i < j < |s| ==> s[i] != s[j]
    ensures multiset(s)[x] == if x in s then 1 else 0
  {
    if s != [] {
      var n := |s| - 1;
      DistinctMultiset(s[..n], x);
      assert s == s[..n] + [s[n]];
      assert x == s[n] ==> x !in s[..n];
    }
  }

  /** The records an enumeration of the keys lists are exactly the values of the dictionary. */
  lemma ItemsAreValues(v: Dict, order: seq<string>)
    requires Enumerates(order, v.Keys)
    ensures forall x :: x in Items(v, order) <==> exists k :: k in v && v[k] == x
  {
    var items := Items(v, order);
    forall x ensures x in items <==> exists k :: k in v && v[k] == x {
      if x in items {
        var i :| 0 <= i < |items| && items[i] == x;
        assert order[i] in v;
      }
      if exists k :: k in v && v[k] == x {
        var k :| k in v && v[k] == x;
        var i :| 0 <= i < |order| && order[i] == k;
        assert items[i] == x;
      }
    }
  }

  /** When every record is stored under its own name, an enumeration lists no record twice. */
  lemma ItemsDistinct(v: Dict, order: seq<string>)
    requires NamesAreKeys(v) && Enumerates(order, v.Keys)
    ensures var items := Items(v, order); forall i, j :: 0 <= i < j < |items| ==> items[i] != items[j]
  {
    var items := Items(v, order);
    forall i, j | 0 <= i < j < |items| ensures items[i] != items[j] {
      assert items[i].name == order[i] && items[j].name == order[j];
    }
  }

  /** Two enumerations of the keys of a dictionary whose records are stored under their own
      names list the same records, each once. */
  lemma ItemsSameMultiset(v: Dict, o1: seq<string>, o2: seq<string>)
    requires NamesAreKeys(v) && Enumerates(o1, v.Keys) && Enumerates(o2, v.Keys)
    ensures multiset(Items(v, o1)) == multiset(Items(v, o2))
  {
    var a := Items(v, o1);
    var b := Items(v, o2);
    ItemsDistinct(v, o1);
    ItemsDistinct(v, o2);
    ItemsAreValues(v, o1);
    ItemsAreValues(v, o2);
    forall x ensures multiset(a)[x] == multiset(b)[x] {
      DistinctMultiset(a, x);
      DistinctMultiset(b, x);
    }
  }

  /** On the dictionary `create_source_dictionary` builds, the sorted list `find_strays`
      works on, and so its whole outcome, does not depend on the order in which the
      dictionary hands out its records. */
  lemma BuildOrderIrrelevant(paths: seq<string>, scans: Scans, o1: seq<string>, o2: seq<string>)
    requires Enumerates(o1, Build(paths, scans).Keys) && Enumerates(o2, Build(paths, scans).Keys)
    ensures var v := Build(paths, scans);
            SortByKey(Items(v, o1)) == SortByKey(Items(v, o2))
  {
    var v := Build(paths, scans);
    BuildWellFormed(paths, scans);
    ItemsSameMultiset(v, o1, o2);
    BuildNoTies(paths, scans, o1);
    var l1 := SortByKey(Items(v, o1));
    var l2 := SortByKey(Items(v, o2));
    assert forall x :: x in l1 <==> x in Items(v, o1) by {
      forall x ensures x in l1 <==> x in Items(v, o1) {
        assert x in l1 <==> x in multiset(l1);
        assert x in Items(v, o1) <==> x in multiset(Items(v, o1));
      }
    }
    SortedUnique(l1, l2);
  }

  /** What `find_strays` reports is the records of the dictionary, each once, sorted by
      (referrer count, path). */
  lemma FoundSortedValues(v: Dict, order: seq<string>)
    requires Enumerates(order, v.Keys)
    ensures var o := StraysOf(v, SortByKey(Items(v, order)));
            o.Found? ==> SortedByKey(o.sorted) && |o.sorted| == |v|
                         && multiset(o.sorted) == multiset(Items(v, order))
                         && forall x :: x in o.sorted <==> exists k :: k in v && v[k] == x
  {
    var l := SortByKey(Items(v, order));
    FoundIsInput(v, l);
    SortedValues(v, order);
  }

  /** A returned list is the list the counting loop was given. */
  lemma FoundIsInput(v: Dict, l: seq<Entry>)
    ensures StraysOf(v, l).Found? ==> StraysOf(v, l).sorted == l
  {
  }

  /** Sorting an enumeration of the records keeps them all, each as often. */
  lemma SortedValues(v: Dict, order: seq<string>)
    requires Enumerates(order, v.Keys)
    ensures var l := SortByKey(Items(v, order));
            |l| == |v| && multiset(l) == multiset(Items(v, order))
            && forall x :: x in l <==> exists k :: k in v && v[k] == x
  {
    var items := Items(v, order);
    var l := SortByKey(items);
    OrderSize(order, v.Keys);
    ItemsAreValues(v, order);
    assert |l| == |multiset(l)| == |items|;
    forall x ensures x in l <==> x in items {
      assert x in l <==> x in multiset(items);
    }
  }

  /** An enumeration without repeats is as long as the set it enumerates. */
  lemma {:induction false} OrderSize(order: seq<string>, keys: set<string>)
    requires Enumerates(order, keys)
    ensures |order| == |keys|
    decreases |order|
  {
    if order != [] {
      var n := |order| - 1;
      var rest := order[..n];
      assert Enumerates(rest, keys - {order[n]}) by {
        forall k ensures k in rest <==> k in keys - {order[n]} {
          if k in rest {
            var i :| 0 <= i < n && rest[i] == k;
            assert order[i] == k;
          }
          if k in keys - {order[n]} {
            assert k in order;
            var i :| 0 <= i < |order| && order[i] == k;
            assert rest[i] == k;
          }
        }
      }
      OrderSize(rest, keys - {order[n]});
    }
  }

  // ---------------------------------------------------------------- an example

  /** The records of the tree `d/a.h`, `d/a.cpp` (which includes `a.h` and holds no `;`)
      and `d/b.h`, as `create_source_dictionary` finishes them. */
  function ExampleHeader(): Entry { Entry("a.h", "a", ".h", "d/a.h", 0, [], 1, ["a.cpp"]) }
  function ExampleSource(): Entry { Entry("a.cpp", "a", ".cpp", "d/a.cpp", 0, ["a.h"], 0, []) }
  function ExampleOther(): Entry { Entry("b.h", "b", ".h", "d/b.h", 0, [], 0, []) }

  /** The example records sort as `a.cpp`, `b.h` (no referrer, by path), then `a.h`. */
  lemma SortExample()
    ensures SortByKey([ExampleHeader(), ExampleSource(), ExampleOther()])
            == [ExampleSource(), ExampleOther(), ExampleHeader()]
  {
    var ah, acpp, bh := ExampleHeader(), ExampleSource(), ExampleOther();
    SortExampleStart();
    assert [ah, acpp, bh][..2] == [ah, acpp];
    assert KeyLe(acpp, bh) by {
      assert "d/a.cpp"[1..] == "/a.cpp" && "d/b.h"[1..] == "/b.h";
      assert "/a.cpp"[1..] == "a.cpp" && "/b.h"[1..] == "b.h";
    }
    assert Insert([ah], bh) == [bh, ah];
  }

  /** The first two example records sort as `a.cpp` then `a.h`. */
  lemma SortExampleStart()
    ensures SortByKey([ExampleHeader(), ExampleSource()]) == [ExampleSource(), ExampleHeader()]
  {
    var ah, acpp := ExampleHeader(), ExampleSource();
    assert [ah, acpp][..1] == [ah] && [ah][..0] == [];
    assert SortByKey([ah]) == [ah];
  }

  /** The dictionary of the example. */
  function ExampleDict(): Dict {
    map["a.h" := ExampleHeader(), "a.cpp" := ExampleSource(), "b.h" := ExampleOther()]
  }

  /** On the example, the pair `d/a.h -> d/a.cpp` and its two files are counted, and only
      then does the zero `;` total raise `ZeroDivisionError`. */
  lemma ZeroTotalExample(v: Dict, l: seq<Entry>)
    requires v == ExampleDict() && l == [ExampleSource(), ExampleOther(), ExampleHeader()]
    ensures StraysOf(v, l) == Raised(ZeroDivisionError, Tally([("d/a.h", "d/a.cpp")], 2, 0, 0))
  {
    CountExampleStart(v, l[..2]);
    var ah := l[2];
    assert CountOne(v, Tally([], 0, 0, 0), ah) == Going(Tally([("d/a.h", "d/a.cpp")], 2, 0, 0)) by {
      assert ah.includedByList[0] == "a.cpp" && v["a.cpp"] == ExampleSource();
    }
  }

  /** Neither `a.cpp` nor `b.h` has a referrer, so counting them adds nothing, whatever the
      dictionary. */
  lemma CountExampleStart(v: Dict, l: seq<Entry>)
    requires l == [ExampleSource(), ExampleOther()]
    ensures Count(v, l) == Going(Tally([], 0, 0, 0))
  {
    assert l[..1] == [ExampleSource()] && l[..1][..0] == [];
    assert Count(v, l[..1]) == CountOne(v, Tally([], 0, 0, 0), l[0]);
    assert Count(v, l) == CountOne(v, Count(v, l[..1]).tally, l[1]);
  }
}
