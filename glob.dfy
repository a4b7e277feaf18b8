/** Shell-style filename globs as the filter compiles them: a glob is turned into a
    regular expression that must match the whole filename (anchored at the start by
    the regex `match` call and at the end by the translation), where `*` stands for
    any run of characters, path separators and newlines included, `?` for any one
    character, and every other character for itself. */
module Glob {

  /** True when `pattern` is a glob without wildcards: it stands for itself only. */
  predicate Literal(pattern: string) {
    forall i :: 0 <= i < |pattern| ==> pattern[i] != '*' && pattern[i] != '?'
  }

  /** Whether the whole of `name` matches the whole of `pattern`. */
  predicate Matches(pattern: string, name: string)
    decreases |pattern| + |name|
  {
    if pattern == [] then name == []
    else if pattern[0] == '*' then
      Matches(pattern[1..], name) || (name != [] && Matches(pattern, name[1..]))
    else
      name != [] && (pattern[0] == '?' || pattern[0] == name[0]) && Matches(pattern[1..], name[1..])
  }

  /** A glob without wildcards matches exactly one name: itself. Matching is therefore
      anchored at both ends, so `foo/bar` does not match `baz/foo/bar` or `foo/bar/baz`. */
  lemma {:induction false} LiteralMatchesExactly(pattern: string, name: string)
    requires Literal(pattern)
    ensures Matches(pattern, name) <==> name == pattern
    decreases |pattern|
  {
    if pattern != [] && name != [] {
      assert Literal(pattern[1..]) by {
        forall i | 0 <= i < |pattern[1..]| ensures pattern[1..][i] != '*' && pattern[1..][i] != '?' {
          assert pattern[1..][i] == pattern[i + 1];
        }
      }
      LiteralMatchesExactly(pattern[1..], name[1..]);
      if name == pattern {
        assert name[1..] == pattern[1..];
      }
      if Matches(pattern, name) {
        assert name == [name[0]] + name[1..];
        assert pattern == [pattern[0]] + pattern[1..];
      }
    }
  }

  /** A lone `*` matches every name, whatever separators it holds. */
  lemma {:induction false} StarMatchesAnything(name: string)
    ensures Matches("*", name)
    decreases |name|
  {
    if name != [] {
      StarMatchesAnything(name[1..]);
    } else {
      assert Matches("*"[1..], name);
    }
  }

  /** A `*` followed by `rest` matches any name ending with something `rest` matches. */
  lemma {:induction false} StarSkips(rest: string, skipped: string, tail: string)
    requires Matches(rest, tail)
    ensures Matches(['*'] + rest, skipped + tail)
    decreases |skipped|
  {
    var p := ['*'] + rest;
    assert p[1..] == rest;
    if skipped == [] {
      assert skipped + tail == tail;
    } else {
      StarSkips(rest, skipped[1..], tail);
      assert (skipped + tail)[1..] == skipped[1..] + tail;
    }
  }

  /** Matching composes: names matching two globs, concatenated, match the concatenated glob. */
  lemma {:induction false} MatchesConcat(p1: string, s1: string, p2: string, s2: string)
    requires Matches(p1, s1) && Matches(p2, s2)
    ensures Matches(p1 + p2, s1 + s2)
    decreases |p1| + |s1|
  {
    if p1 == [] {
      assert p1 + p2 == p2 && s1 + s2 == s2;
    } else {
      var p, s := p1 + p2, s1 + s2;
      assert p[0] == p1[0] && p[1..] == p1[1..] + p2;
      if p1[0] == '*' {
        if Matches(p1[1..], s1) {
          MatchesConcat(p1[1..], s1, p2, s2);
        } else {
          MatchesConcat(p1, s1[1..], p2, s2);
          assert s[1..] == s1[1..] + s2;
        }
      } else {
        MatchesConcat(p1[1..], s1[1..], p2, s2);
        assert s[0] == s1[0] && s[1..] == s1[1..] + s2;
      }
    }
  }

  /** `*` spans path separators: `prefix*suffix` matches `prefix`, then anything at all, then `suffix`. */
  lemma StarSpansSeparators(prefix: string, middle: string, suffix: string)
    requires Literal(prefix) && Literal(suffix)
    ensures Matches(prefix + "*" + suffix, prefix + middle + suffix)
  {
    LiteralMatchesExactly(prefix, prefix);
    LiteralMatchesExactly(suffix, suffix);
    StarSkips(suffix, middle, suffix);
    MatchesConcat(prefix, prefix, ['*'] + suffix, middle + suffix);
    assert prefix + "*" + suffix == prefix + (['*'] + suffix);
    assert prefix + middle + suffix == prefix + (middle + suffix);
  }

  /** A glob starting with a literal character only matches names starting with that
      character: `match` anchors the translated pattern at the start of the name. */
  lemma AnchoredAtStart(pattern: string, name: string)
    requires Matches(pattern, name)
    requires pattern != [] && pattern[0] != '*' && pattern[0] != '?'
    ensures name != [] && name[0] == pattern[0]
  {
  }

  /** A glob ending in a literal character only matches names ending in that character. */
  lemma {:induction false} AnchoredAtEnd(pattern: string, name: string)
    requires Matches(pattern, name)
    requires pattern != [] && pattern[|pattern| - 1] != '*' && pattern[|pattern| - 1] != '?'
    ensures name != [] && name[|name| - 1] == pattern[|pattern| - 1]
    decreases |pattern| + |name|
  {
    if |pattern| == 1 {
      assert name[1..] == [];
    } else if pattern[0] == '*' {
      assert pattern[1..][|pattern[1..]| - 1] == pattern[|pattern| - 1];
      if Matches(pattern[1..], name) {
        AnchoredAtEnd(pattern[1..], name);
      } else {
        AnchoredAtEnd(pattern, name[1..]);
      }
    } else {
      assert pattern[1..][|pattern[1..]| - 1] == pattern[|pattern| - 1];
      AnchoredAtEnd(pattern[1..], name[1..]);
    }
  }

  // The two examples of the filter's documentation: `foo/*/bar` matches `foo/one/two/bar`,
  // and `foo/bar` matches `foo/bar` but not `baz/foo/bar`.
  lemma DocumentedExamples()
    ensures Matches("foo/*/bar", "foo/one/two/bar")
    ensures Matches("foo/bar", "foo/bar")
    ensures !Matches("foo/bar", "baz/foo/bar")
  {
    StarSpansSeparators("foo/", "one/two", "/bar");
    assert "foo/" + "*" + "/bar" == "foo/*/bar";
    assert "foo/" + "one/two" + "/bar" == "foo/one/two/bar";
    LiteralMatchesExactly("foo/bar", "foo/bar");
    LiteralMatchesExactly("foo/bar", "baz/foo/bar");
  }
}
