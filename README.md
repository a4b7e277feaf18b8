# filter-profiler-results, modelled in Dafny

`filter_profiler_results.py` reads a Python profiling report and writes a reduced copy
of it. It drops every call site whose source filename matches one of the user's
exclusion globs. Inside each call site it keeps, it also drops the callers whose
filename matches. It can add two built-in filters (`--remove-garbage`), and it can list
the filenames that survive (`--print-included-filenames`).

This project models that core as pure functions, because the program builds new values
and never updates one in place:

- `Report` (report.dfy) holds the report's data types. A call-site key is
  `(filename, line, symbol)`. An entry is `(nc, cc, tt, ct, callers)`, and `callers`
  maps a caller's key to its timing tuple. The predicates `SubMap` and `SubReport` say
  that one report is another with some keys dropped and nothing else changed.
- `Glob` (glob.dfy) is the matcher that a glob becomes once it is compiled. The whole
  filename must match the whole glob. `*` matches any run of characters, path
  separators included. `?` matches any one character. Every other character matches
  only itself.
- `ProfileFilter` (profile_filter.dfy) covers `should_include_stats` (Python's `any`
  over the filters), the nested dictionary comprehension in `main`, and how the filter
  list is built from the globs and `--remove-garbage`.
- `FilenameListing` (filename_listing.dfy) covers `print_included_filenames`: `sorted`
  on strings (ordered by code point), then `itertools.groupby`, which keeps the first
  name of each run of equal names.

A compiled filter is a value of type `string -> bool`. The two built-in regular
expressions that `--remove-garbage` adds become parameters (`libraryPaths`,
`strangeNames`). Every statement about `--remove-garbage` holds whatever those two
filters match.

The output is a subset of the input, not always a strict one: when no filter matches,
every key is kept. The model states plain inclusion (`SubReport`).

## Model

| member | source | states |
|---|---|---|
| `Glob.Matches` | filter_profiler_results.py:129-133 | definition without a contract: whether the anchored regex that `fnmatch.translate` makes of a glob matches the whole filename; described by `LiteralMatchesExactly`, `StarMatchesAnything`, `StarSkips`, `MatchesConcat`, `AnchoredAtStart` and `AnchoredAtEnd` |
| `Glob.AnchoredAtStart` | filter_profiler_results.py:14 | a glob that starts with a literal character only matches names that start with that character |
| `Glob.LiteralMatchesExactly` | filter_profiler_results.py:12-14 | a glob without wildcards matches exactly the one name equal to it, so matching is anchored at both ends |
| `Glob.StarMatchesAnything` | filter_profiler_results.py:8 | a lone `*` matches every filename, separators included |
| `Glob.StarSkips` | filter_profiler_results.py:8-10 | `*` followed by a glob matches any text followed by a name that glob matches |
| `Glob.MatchesConcat` | filter_profiler_results.py:129-133 | a name matching one glob, followed by a name matching a second glob, matches the two globs written one after the other |
| `Glob.StarSpansSeparators` | filter_profiler_results.py:8-10 | `prefix*suffix` matches `prefix`, then any text at all (`/` included), then `suffix` |
| `Glob.AnchoredAtEnd` | filter_profiler_results.py:12-14 | a glob that ends in a literal character only matches names that end in that character |
| `Glob.DocumentedExamples` | filter_profiler_results.py:8-14 | `foo/*/bar` matches `foo/one/two/bar`; `foo/bar` matches `foo/bar` and does not match `baz/foo/bar` |
| `ProfileFilter.AnyMatches` | filter_profiler_results.py:103 | definition without a contract: the `any(...)` scan of the filters, in order; described by `AnyMatchesIff` and `AnyMatchesAppend` |
| `ProfileFilter.AnyMatchesIff` | filter_profiler_results.py:103 | scanning the filters in order finds a match exactly when some filter in the list matches the filename |
| `ProfileFilter.AnyMatchesAppend` | filter_profiler_results.py:103 | scanning a concatenated filter list matches exactly when scanning either part matches |
| `ProfileFilter.ShouldInclude` | filter_profiler_results.py:100-106 | a key is kept exactly when no filter matches its filename; its line and symbol play no part, and an empty list keeps every key |
| `ProfileFilter.FilterCallers` | filter_profiler_results.py:145-150 | the new caller map holds exactly the input callers that pass the filters, each with its timing tuple unchanged |
| `ProfileFilter.FilterStats` | filter_profiler_results.py:144-156 | the output keys are exactly the input keys that pass; `nc`, `cc`, `tt`, `ct` are carried over; each kept entry's callers are filtered by the same filters |
| `ProfileFilter.NothingExcludedRemains` | filter_profiler_results.py:144-156 | no filename that a filter matches remains in the output, either as a call site or as a caller of a kept call site |
| `ProfileFilter.CoveredByLarger` | filter_profiler_results.py:103 | a filter list that contains every filter of another list, in any order and any number of times, excludes everything the other list excludes |
| `ProfileFilter.FilterMonotone` | filter_profiler_results.py:144-156 | if one list excludes at least what another excludes, its output is a sub-report of the other list's output |
| `ProfileFilter.FilterSameExclusions` | filter_profiler_results.py:144-156 | two filter lists that exclude the same filenames give the same output |
| `ProfileFilter.FilterOrderIrrelevant` | filter_profiler_results.py:103 | reordering the filter list, or repeating filters in it, does not change the output |
| `ProfileFilter.ShouldIncludeAppend` | filter_profiler_results.py:100-106 | a key passes a concatenated filter list exactly when it passes both parts |
| `ProfileFilter.FilterCallersCompose` | filter_profiler_results.py:145-150 | filtering a caller map by one list and then by a second equals filtering it once by both lists together |
| `ProfileFilter.FilterCompose` | filter_profiler_results.py:144-156 | filtering by one list and then by a second gives the same output as filtering once by both lists together |
| `ProfileFilter.FilterIdempotent` | filter_profiler_results.py:144-156 | filtering a second time with the same filters changes nothing |
| `ProfileFilter.GlobFilter` | filter_profiler_results.py:130 | definition without a contract: one glob compiled to a filter, matching what `Glob.Matches` accepts; described by `CompileGlobs` |
| `ProfileFilter.CompileGlobs` | filter_profiler_results.py:129-133 | there is one compiled filter per glob, in order, and the i-th matches exactly the names the i-th glob matches |
| `ProfileFilter.BuildFilters` | filter_profiler_results.py:129-141 | the list ends with the compiled globs, in order, and with `--remove-garbage` starts with the two built-in filters (and is nothing else); a name is matched exactly when a glob matches it or, with the flag, a built-in filter does |
| `ProfileFilter.FilterProfile` | filter_profiler_results.py:129-156 | a call site, and a caller inside a kept call site, is kept exactly when its filename is not excluded by the command line; everything kept is unchanged |
| `ProfileFilter.RemoveGarbageOnlyRemoves` | filter_profiler_results.py:135-141 | the output with `--remove-garbage` is a sub-report of the output without it |
| `FilenameListing.Below` | filter_profiler_results.py:113 | definition without a contract: Python's `<` on strings, which `sorted` uses; described by `BelowIrreflexive`, `BelowTransitive`, `BelowTotal` and `BelowAsymmetric` |
| `FilenameListing.BelowIrreflexive` | filter_profiler_results.py:113 | no string sorts before itself |
| `FilenameListing.BelowTransitive` | filter_profiler_results.py:113 | the string order used by `sorted` is transitive |
| `FilenameListing.BelowTotal` | filter_profiler_results.py:113 | of any two different strings, one sorts before the other |
| `FilenameListing.BelowAsymmetric` | filter_profiler_results.py:113 | two strings never sort before each other |
| `FilenameListing.Insert` | filter_profiler_results.py:113 | inserting a name into a sorted list keeps the list sorted and adds exactly that name |
| `FilenameListing.Sort` | filter_profiler_results.py:113-117 | `sorted` returns a permutation of its input, in ascending order |
| `FilenameListing.Groups` | filter_profiler_results.py:110-118 | `groupby` keys hold exactly the input's names; on sorted input, each name appears once, in strictly ascending order |
| `FilenameListing.Filenames` | filter_profiler_results.py:114-116 | the filename of each key, one per key, in the keys' order |
| `FilenameListing.IncludedFilenames` | filter_profiler_results.py:109-122 | the names written are strictly ascending, and are exactly the filenames of the given keys |
| `FilenameListing.AscendingHasNoRepeats` | filter_profiler_results.py:110-118 | a strictly ascending listing holds no filename twice |
| `FilenameListing.AscendingDeterminedByElements` | filter_profiler_results.py:113-117 | two strictly ascending sequences with the same elements are equal |
| `FilenameListing.ListingIgnoresKeyOrder` | filter_profiler_results.py:109-117 | the listing does not depend on the order in which the report yields its keys |
| `FilenameListing.ListingOfFilteredReport` | filter_profiler_results.py:109-122 | the listing of a filtered report is sorted, has no repeats, and holds exactly the filenames of input call sites that no filter matches |

## Left out

- Argument parsing, the help output and the exit status (`parse_arguments`) are
  command-line handling. The model takes the globs and the two flags as parameters.
  It does not require at least one glob, although the command line does.
- Loading the report with `pstats.Stats` and writing it out with `marshal.dump` are
  file I/O and serialisation. The model starts from the loaded map and ends with the
  filtered map.
- Writing to standard error is left out. `IncludedFilenames` gives the sequence of
  names that would be written, one per line.
- The built-in `--remove-garbage` regular expressions are parameters. Their regex
  semantics are not modelled: the library-path pattern and the `~`, `<string>` and
  `<frozen …>` pattern.
- Glob.Matches: bracket expressions (`[abc]`, `[!a-z]`) are not modelled. The matcher
  treats `[` and `]` as literal characters. `fnmatch.translate` does the same only
  when no closing `]` follows.
- The regular-expression engine itself is not modelled. The glob matcher gives the
  meaning of the translated pattern directly: anchored at the start by `match` and at
  the end by the translation, with `.` matching newlines.
- The Python 2/3 compatibility shims are left out.
- The order of a dictionary's keys is not modelled. The report is a Dafny `map`. The
  filename listing takes the keys in the report's iteration order as a parameter, and
  `ListingIgnoresKeyOrder` shows that this order does not change the result.
- A caller's value is modelled as the four-field `(nc, cc, tt, ct)` record that the C
  profiler (`cProfile`) writes. Reports from the pure-Python `profile` module store a
  plain call count there instead; the model assumes the `cProfile` format. The filter
  only copies this value, so no statement depends on its shape.
- Times are kept as `real` values that are copied and never computed with. Float
  representation plays no part.
