/** The profiling report the filter reads and writes: a map from call-site key to that
    call site's counts, times and callers. Times are carried through untouched, so they
    are kept as `real` values that nothing computes with. */
module Report {

  /** A call site: source filename, line number and function name. */
  datatype Key = Key(filename: string, line: int, symbol: string)

  /** What one caller contributes to a call site: call counts and times. */
  datatype CallerTiming = CallerTiming(nc: int, cc: int, tt: real, ct: real)

  /** One call site's record `(nc, cc, tt, ct, callers)`. */
  datatype Entry = Entry(nc: int, cc: int, tt: real, ct: real, callers: map<Key, CallerTiming>)

  type Stats = map<Key, Entry>

  /** `e` and `e'` agree on everything except, possibly, their callers. */
  predicate SameTotals(e: Entry, e': Entry) {
    e.nc == e'.nc && e.cc == e'.cc && e.tt == e'.tt && e.ct == e'.ct
  }

  /** `a` is `b` with some keys dropped and every kept key mapped as in `b`. */
  ghost predicate SubMap<V>(a: map<Key, V>, b: map<Key, V>) {
    a.Keys <= b.Keys && forall k :: k in a ==> a[k] == b[k]
  }

  /** `a` is `b` with some call sites dropped and, in the call sites kept, some callers
      dropped; nothing else differs. */
  ghost predicate SubReport(a: Stats, b: Stats) {
    && a.Keys <= b.Keys
    && forall k :: k in a ==> SameTotals(a[k], b[k]) && SubMap(a[k].callers, b[k].callers)
  }
}
