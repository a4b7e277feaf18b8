/** The `--print-included-filenames` listing: the filenames of the call sites kept by the
    filter, sorted and with repeats collapsed, one per line. Only the sequence of names
    written is modelled, not the writing. */
module FilenameListing {
  import opened Report
  import ProfileFilter

  /** Python's `a < b` on strings: the first differing character decides, by code
      point, and a proper prefix comes first. */
  predicate Below(a: string, b: string)
    decreases |a|
  {
    if a == [] then b != []
    else if b == [] then false
    else if a[0] != b[0] then a[0] < b[0]
    else Below(a[1..], b[1..])
  }

  lemma {:induction false} BelowIrreflexive(a: string)
    ensures !Below(a, a)
    decreases |a|
  {
    if a != [] {
      BelowIrreflexive(a[1..]);
    }
  }

  lemma {:induction false} BelowTransitive(a: string, b: string, c: string)
    requires Below(a, b) && Below(b, c)
    ensures Below(a, c)
    decreases |a|
  {
    if a != [] && a[0] == b[0] && b[0] == c[0] {
      BelowTransitive(a[1..], b[1..], c[1..]);
    }
  }

  /** Any two different strings are ordered one way or the other. */
  lemma {:induction false} BelowTotal(a: string, b: string)
    ensures a == b || Below(a, b) || Below(b, a)
    decreases |a|
  {
    if a != [] && b != [] && a[0] == b[0] {
      BelowTotal(a[1..], b[1..]);
      if a[1..] == b[1..] {
        assert a == [a[0]] + a[1..] && b == [b[0]] + b[1..];
      }
    }
  }

  lemma BelowAsymmetric(a: string, b: string)
    requires Below(a, b)
    ensures !Below(b, a)
  {
  }

  /** Ascending, equal neighbours allowed: the order `sorted` produces. */
  ghost predicate Sorted(s: seq<string>) {
    forall i, j :: 0 <= i < j < |s| ==> !Below(s[j], s[i])
  }

  /** Strictly ascending: sorted and without repeats. */
  ghost predicate StrictlyAscending(s: seq<string>) {
    forall i, j :: 0 <= i < j < |s| ==> Below(s[i], s[j])
  }

  /** Places `x` into sorted `s` before the first element above it. */
  function Insert(x: string, s: seq<string>): (r: seq<string>)
    requires Sorted(s)
    ensures Sorted(r) && multiset(r) == multiset(s) + multiset{x}
  {
    if s == [] then [x]
    else if Below(x, s[0]) then
      assert Sorted([x] + s) by {
        forall j | 0 < j < |[x] + s| ensures !Below(([x] + s)[j], x) {
          if j > 1 && Below(s[j - 1], x) {
            BelowTransitive(s[j - 1], x, s[0]);
          }
          if Below(([x] + s)[j], x) {
            BelowAsymmetric(x, s[0]);
          }
        }
      }
      [x] + s
    else
      var rest := Insert(x, s[1..]);
      assert s == [s[0]] + s[1..];
      assert forall y :: y in rest ==> !Below(y, s[0]) by {
        forall y | y in rest ensures !Below(y, s[0]) {
          assert y in multiset(rest);
          if y != x {
            assert y in multiset(s[1..]);
            var j :| 0 <= j < |s[1..]| && s[1..][j] == y;
            assert s[j + 1] == y;
          }
        }
      }
      assert Sorted([s[0]] + rest) by {
        forall i, j | 0 <= i < j < |[s[0]] + rest| ensures !Below(([s[0]] + rest)[j], ([s[0]] + rest)[i]) {
          if i == 0 {
            assert rest[j - 1] in rest;
          }
        }
      }
      [s[0]] + rest
  }

  /** Python's `sorted` on a list of strings: the same strings in ascending order. */
  function Sort(s: seq<string>): (r: seq<string>)
    ensures Sorted(r) && multiset(r) == multiset(s)
  {
    if s == [] then []
    else
      assert s == [s[0]] + s[1..];
      Insert(s[0], Sort(s[1..]))
  }

  /** `itertools.groupby` keeping only the group keys: each run of equal neighbours
      collapsed to one element. On a sorted input this leaves each string once. */
  function Groups(s: seq<string>): (r: seq<string>)
    ensures forall x :: x in r <==> x in s
    ensures Sorted(s) ==> StrictlyAscending(r)
  {
    if |s| <= 1 then
      s
    else if s[0] == s[1] then
      assert forall x :: x in s <==> x in s[1..] by {
        assert s == [s[0]] + s[1..];
      }
      var r := Groups(s[1..]);
      assert Sorted(s) ==> Sorted(s[1..]);
      r
    else
      var rest := Groups(s[1..]);
      assert s == [s[0]] + s[1..];
      assert Sorted(s) ==> Sorted(s[1..]);
      assert Sorted(s) ==> StrictlyAscending([s[0]] + rest) by {
        if Sorted(s) {
          BelowTotal(s[0], s[1]);
          forall y | y in rest ensures Below(s[0], y) {
            var j :| 1 <= j < |s| && s[j] == y;
            if y != s[1] {
              BelowTotal(s[1], y);
              BelowTransitive(s[0], s[1], y);
            }
          }
          forall i, j | 0 <= i < j < |[s[0]] + rest| ensures Below(([s[0]] + rest)[i], ([s[0]] + rest)[j]) {
            if i == 0 {
              assert rest[j - 1] in rest;
            }
          }
        }
      }
      [s[0]] + rest
  }

  /** The filename component of each key, in the keys' order. */
  function Filenames(keys: seq<Key>): (names: seq<string>)
    ensures |names| == |keys|
    ensures forall i :: 0 <= i < |keys| ==> names[i] == keys[i].filename
  {
    if keys == [] then [] else [keys[0].filename] + Filenames(keys[1..])
  }

  /** `print_included_filenames`, given the report's keys in its iteration order: the
      filenames of those keys, in ascending order, each written once. */
  function IncludedFilenames(keys: seq<Key>): (r: seq<string>)
    ensures StrictlyAscending(r)
    ensures forall name :: name in r <==> exists k :: k in keys && k.filename == name
  {
    var names := Filenames(keys);
    var sorted := Sort(names);
    assert forall name :: name in sorted <==> name in names by {
      forall name ensures name in sorted <==> name in names {
        assert name in sorted <==> name in multiset(sorted);
      }
    }
    Groups(sorted)
  }

  /** A strictly ascending sequence holds no string twice. */
  lemma AscendingHasNoRepeats(s: seq<string>)
    requires StrictlyAscending(s)
    ensures forall i, j :: 0 <= i < j < |s| ==> s[i] != s[j]
  {
    forall i, j | 0 <= i < j < |s| ensures s[i] != s[j] {
      BelowIrreflexive(s[i]);
    }
  }

  /** Two strictly ascending sequences with the same elements are the same sequence. */
  lemma {:induction false} AscendingDeterminedByElements(a: seq<string>, b: seq<string>)
    requires StrictlyAscending(a) && StrictlyAscending(b)
    requires forall x :: x in a <==> x in b
    ensures a == b
    decreases |a|
  {
    if a != [] {
      assert a[0] in b;
    }
    if b != [] {
      assert b[0] in a;
    }
    if a != [] && b != [] {
      if a[0] != b[0] {
        var i :| 0 < i < |a| && a[i] == b[0];
        var j :| 0 < j < |b| && b[j] == a[0];
        BelowAsymmetric(a[0], a[i]);
      }
      forall x ensures x in a[1..] <==> x in b[1..] {
        if x in a[1..] {
          var i :| 1 <= i < |a| && a[i] == x;
          BelowIrreflexive(x);
          assert x in b && x != b[0];
        }
        if x in b[1..] {
          var j :| 1 <= j < |b| && b[j] == x;
          BelowIrreflexive(x);
          assert x in a && x != a[0];
        }
      }
      AscendingDeterminedByElements(a[1..], b[1..]);
      assert a == [a[0]] + a[1..] && b == [b[0]] + b[1..];
    }
  }

  /** The listing does not depend on the order in which the report yields its keys. */
  lemma ListingIgnoresKeyOrder(keys1: seq<Key>, keys2: seq<Key>)
    requires forall k :: k in keys1 <==> k in keys2
    ensures IncludedFilenames(keys1) == IncludedFilenames(keys2)
  {
    AscendingDeterminedByElements(IncludedFilenames(keys1), IncludedFilenames(keys2));
  }

  /** Listing the report the filter produced: the names written are exactly the filenames
      of the input's call sites that no filter matches, in ascending order, each once. */
  lemma ListingOfFilteredReport(stats: Stats, filters: seq<ProfileFilter.Matcher>, keys: seq<Key>)
    requires forall k :: k in keys <==> k in ProfileFilter.FilterStats(stats, filters)
    ensures Sorted(IncludedFilenames(keys))
    ensures forall i, j :: 0 <= i < j < |IncludedFilenames(keys)| ==>
      IncludedFilenames(keys)[i] != IncludedFilenames(keys)[j]
    ensures forall name :: name in IncludedFilenames(keys) <==>
      (exists k :: k in stats && k.filename == name) &&
      (forall i :: 0 <= i < |filters| ==> !filters[i](name))
  {
    var r := IncludedFilenames(keys);
    AscendingHasNoRepeats(r);
    forall i, j | 0 <= i < j < |r| ensures !Below(r[j], r[i]) {
      BelowAsymmetric(r[i], r[j]);
    }
    forall name ensures name in r <==>
      (exists k :: k in stats && k.filename == name) && (forall i :: 0 <= i < |filters| ==> !filters[i](name))
    {
      if (exists k :: k in stats && k.filename == name) && (forall i :: 0 <= i < |filters| ==> !filters[i](name)) {
        var k :| k in stats && k.filename == name;
        assert ProfileFilter.ShouldInclude(k, filters);
      }
    }
  }
}
