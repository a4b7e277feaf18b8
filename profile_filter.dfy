/** The filter itself: which call sites a list of compiled filename filters keeps,
    the filtered copy of a report (call sites and, inside each, callers), and the
    filter list the command line asks for. */
module ProfileFilter {
  import opened Report
  import Glob

  /** A compiled filter: it says whether it matches a filename. */
  type Matcher = string -> bool

  /** Python's `any(f.match(name) for f in filters)`, scanning the filters in order. */
  function AnyMatches(filters: seq<Matcher>, name: string): bool {
    if filters == [] then false else filters[0](name) || AnyMatches(filters[1..], name)
  }

  /** Scanning in order finds a match exactly when some filter of the list matches. */
  lemma {:induction false} AnyMatchesIff(filters: seq<Matcher>, name: string)
    ensures AnyMatches(filters, name) <==> exists i :: 0 <= i < |filters| && filters[i](name)
    decreases |filters|
  {
    if filters != [] {
      AnyMatchesIff(filters[1..], name);
      if i :| 0 <= i < |filters| && filters[i](name) {
        if i > 0 {
          assert filters[1..][i - 1] == filters[i];
        }
      }
      if AnyMatches(filters[1..], name) {
        var j :| 0 <= j < |filters[1..]| && filters[1..][j](name);
        assert filters[j + 1](name);
      }
    }
  }

  /** Scanning a concatenated list matches when scanning either part does. */
  lemma {:induction false} AnyMatchesAppend(a: seq<Matcher>, b: seq<Matcher>, name: string)
    ensures AnyMatches(a + b, name) == (AnyMatches(a, name) || AnyMatches(b, name))
    decreases |a|
  {
    if a == [] {
      assert a + b == b;
    } else {
      AnyMatchesAppend(a[1..], b, name);
      assert (a + b)[0] == a[0] && (a + b)[1..] == a[1..] + b;
    }
  }

  /** `should_include_stats`: a key is kept exactly when no filter matches its filename;
      its line number and function name play no part, and an empty list keeps everything. */
  function ShouldInclude(key: Key, filters: seq<Matcher>): (r: bool)
    ensures r <==> forall i :: 0 <= i < |filters| ==> !filters[i](key.filename)
  {
    AnyMatchesIff(filters, key.filename);
    !AnyMatches(filters, key.filename)
  }

  /** The inner comprehension: the callers whose keys pass the filters, timings unchanged. */
  function FilterCallers(callers: map<Key, CallerTiming>, filters: seq<Matcher>): (r: map<Key, CallerTiming>)
    ensures SubMap(r, callers)
    ensures forall k :: k in callers ==> (k in r <==> ShouldInclude(k, filters))
  {
    map k | k in callers && ShouldInclude(k, filters) :: callers[k]
  }

  /** The outer comprehension: the call sites whose keys pass the filters, each with its
      counts and times unchanged and its callers filtered by the same filters. */
  function FilterStats(stats: Stats, filters: seq<Matcher>): (r: Stats)
    ensures SubReport(r, stats)
    ensures forall k :: k in stats ==> (k in r <==> ShouldInclude(k, filters))
    ensures forall k :: k in r ==> r[k].callers == FilterCallers(stats[k].callers, filters)
  {
    map k | k in stats && ShouldInclude(k, filters) :: stats[k].(callers := FilterCallers(stats[k].callers, filters))
  }

  /** No filename that a filter matches is left anywhere in the filtered report, neither
      as a call site nor as a caller of one. */
  lemma NothingExcludedRemains(stats: Stats, filters: seq<Matcher>, k: Key, i: nat)
    requires k in FilterStats(stats, filters) && i < |filters|
    ensures !filters[i](k.filename)
    ensures forall c :: c in FilterStats(stats, filters)[k].callers ==> !filters[i](c.filename)
  {
  }

  /** Every filename that some filter of `fs` matches is matched by some filter of `gs`. */
  ghost predicate Covers(fs: seq<Matcher>, gs: seq<Matcher>) {
    forall name :: AnyMatches(fs, name) ==> AnyMatches(gs, name)
  }

  /** A list holding every filter of `fs` (in any order, any number of times, among others)
      excludes everything `fs` excludes. */
  lemma CoveredByLarger(fs: seq<Matcher>, gs: seq<Matcher>)
    requires forall f :: f in fs ==> f in gs
    ensures Covers(fs, gs)
  {
    forall name | AnyMatches(fs, name) ensures AnyMatches(gs, name) {
      AnyMatchesIff(fs, name);
      AnyMatchesIff(gs, name);
      var i :| 0 <= i < |fs| && fs[i](name);
      assert fs[i] in fs;
      var j :| 0 <= j < |gs| && gs[j] == fs[i];
    }
  }

  /** The filter is monotone in its list: more exclusions only drop more call sites and
      callers, and leave what is kept unchanged. */
  lemma FilterMonotone(stats: Stats, fs: seq<Matcher>, gs: seq<Matcher>)
    requires Covers(fs, gs)
    ensures SubReport(FilterStats(stats, gs), FilterStats(stats, fs))
  {
  }

  /** Two lists that exclude the same filenames give the same report: in particular the
      order of the filters and repeated filters make no difference. */
  lemma FilterSameExclusions(stats: Stats, fs: seq<Matcher>, gs: seq<Matcher>)
    requires Covers(fs, gs) && Covers(gs, fs)
    ensures FilterStats(stats, fs) == FilterStats(stats, gs)
  {
    var a, b := FilterStats(stats, fs), FilterStats(stats, gs);
    FilterMonotone(stats, fs, gs);
    FilterMonotone(stats, gs, fs);
    forall k | k in a ensures a[k] == b[k] {
      assert a[k].callers == b[k].callers;
    }
  }

  /** Reordering the filter list does not change the report. */
  lemma FilterOrderIrrelevant(stats: Stats, fs: seq<Matcher>, gs: seq<Matcher>)
    requires forall f :: f in fs <==> f in gs
    ensures FilterStats(stats, fs) == FilterStats(stats, gs)
  {
    CoveredByLarger(fs, gs);
    CoveredByLarger(gs, fs);
    FilterSameExclusions(stats, fs, gs);
  }

  /** A key passes a concatenated list exactly when it passes both parts. */
  lemma ShouldIncludeAppend(k: Key, fs: seq<Matcher>, gs: seq<Matcher>)
    ensures ShouldInclude(k, fs + gs) == (ShouldInclude(k, fs) && ShouldInclude(k, gs))
  {
    AnyMatchesAppend(fs, gs, k.filename);
  }

  /** Filtering callers by `fs` and then by `gs` is filtering them once by both lists. */
  lemma FilterCallersCompose(callers: map<Key, CallerTiming>, fs: seq<Matcher>, gs: seq<Matcher>)
    ensures FilterCallers(FilterCallers(callers, fs), gs) == FilterCallers(callers, fs + gs)
  {
    forall c | c in callers
      ensures ShouldInclude(c, fs + gs) == (ShouldInclude(c, fs) && ShouldInclude(c, gs))
    {
      ShouldIncludeAppend(c, fs, gs);
    }
  }

  /** Filtering by `fs` and then by `gs` is filtering once by both lists together. */
  lemma FilterCompose(stats: Stats, fs: seq<Matcher>, gs: seq<Matcher>)
    ensures FilterStats(FilterStats(stats, fs), gs) == FilterStats(stats, fs + gs)
  {
    var once := FilterStats(stats, fs);
    var twice, both := FilterStats(once, gs), FilterStats(stats, fs + gs);
    forall k | k in stats ensures ShouldInclude(k, fs + gs) == (ShouldInclude(k, fs) && ShouldInclude(k, gs)) {
      ShouldIncludeAppend(k, fs, gs);
    }
    assert twice.Keys == both.Keys;
    forall k | k in twice ensures twice[k] == both[k] {
      FilterCallersCompose(stats[k].callers, fs, gs);
    }
  }

  /** Filtering twice with the same filters is filtering once. */
  lemma FilterIdempotent(stats: Stats, filters: seq<Matcher>)
    ensures FilterStats(FilterStats(stats, filters), filters) == FilterStats(stats, filters)
  {
    FilterCompose(stats, filters, filters);
    FilterOrderIrrelevant(stats, filters + filters, filters);
  }

  /** A glob compiled to a filter: it matches the filenames the whole glob matches. */
  function GlobFilter(glob: string): Matcher {
    name => Glob.Matches(glob, name)
  }

  /** The user's globs compiled one by one, in order. */
  function CompileGlobs(globs: seq<string>): (fs: seq<Matcher>)
    ensures |fs| == |globs|
    ensures forall i, name :: 0 <= i < |globs| ==> fs[i](name) == Glob.Matches(globs[i], name)
  {
    if globs == [] then [] else [GlobFilter(globs[0])] + CompileGlobs(globs[1..])
  }

  /** The filename a command line excludes: one a glob matches or, with `--remove-garbage`,
      one the library-path or the strange-name filter matches. */
  ghost predicate Excluded(name: string, globs: seq<string>, removeGarbage: bool,
                           libraryPaths: Matcher, strangeNames: Matcher)
  {
    || (removeGarbage && (libraryPaths(name) || strangeNames(name)))
    || exists i :: 0 <= i < |globs| && Glob.Matches(globs[i], name)
  }

  /** The filter list: the compiled globs, preceded by the two built-in filters when
      `--remove-garbage` is given. */
  function BuildFilters(globs: seq<string>, removeGarbage: bool,
                        libraryPaths: Matcher, strangeNames: Matcher): (fs: seq<Matcher>)
    ensures |fs| == |globs| + (if removeGarbage then 2 else 0)
    ensures removeGarbage ==> fs[0] == libraryPaths && fs[1] == strangeNames
    ensures fs[|fs| - |globs|..] == CompileGlobs(globs)
    ensures forall name :: AnyMatches(fs, name) <==> Excluded(name, globs, removeGarbage, libraryPaths, strangeNames)
  {
    var user := CompileGlobs(globs);
    var fs := if removeGarbage then [libraryPaths, strangeNames] + user else user;
    assert forall name :: AnyMatches(fs, name) <==> Excluded(name, globs, removeGarbage, libraryPaths, strangeNames) by {
      forall name ensures AnyMatches(fs, name) <==> Excluded(name, globs, removeGarbage, libraryPaths, strangeNames) {
        AnyMatchesIff(user, name);
        if removeGarbage {
          AnyMatchesAppend([libraryPaths, strangeNames], user, name);
          assert [libraryPaths, strangeNames][1..] == [strangeNames];
        }
      }
    }
    fs
  }

  /** The whole filtering step of the command: a call site, and a caller inside it, is
      kept exactly when its filename is not excluded, with everything kept unchanged. */
  function FilterProfile(stats: Stats, globs: seq<string>, removeGarbage: bool,
                         libraryPaths: Matcher, strangeNames: Matcher): (r: Stats)
    ensures SubReport(r, stats)
    ensures forall k :: k in stats ==>
      (k in r <==> !Excluded(k.filename, globs, removeGarbage, libraryPaths, strangeNames))
    ensures forall k, c :: k in r && c in stats[k].callers ==>
      (c in r[k].callers <==> !Excluded(c.filename, globs, removeGarbage, libraryPaths, strangeNames))
  {
    var filters := BuildFilters(globs, removeGarbage, libraryPaths, strangeNames);
    var r := FilterStats(stats, filters);
    assert forall name :: AnyMatches(filters, name) <==> Excluded(name, globs, removeGarbage, libraryPaths, strangeNames);
    assert forall k :: ShouldInclude(k, filters) == !AnyMatches(filters, k.filename) by {
      forall k ensures ShouldInclude(k, filters) == !AnyMatches(filters, k.filename) {
        AnyMatchesIff(filters, k.filename);
      }
    }
    r
  }

  /** `--remove-garbage` only removes: every call site and caller excluded without it is
      excluded with it too, and what it keeps is kept unchanged. */
  lemma RemoveGarbageOnlyRemoves(stats: Stats, globs: seq<string>,
                                 libraryPaths: Matcher, strangeNames: Matcher)
    ensures SubReport(FilterProfile(stats, globs, true, libraryPaths, strangeNames),
                      FilterProfile(stats, globs, false, libraryPaths, strangeNames))
  {
  }
}
