/**
 * The escaping of slashes in the names the caching dummy file system hands out:
 * `escapeSlash` turns every "/" into "&slash;", `unescapeSlash` turns every "&slash;"
 * back into "/". Both map a missing (null) name to the empty string.
 *
 * Both are built on a replace-all that scans left to right and replaces non-overlapping
 * occurrences, which is how the platform's string utility replaces text.
 */
module SlashEscape {
  import opened Options

  const Slash: string := "/"
  const EscapedSlash: string := "&slash;"

  /** Whether `pat` occurs in `s` at index `i`. */
  predicate OccursAt(pat: string, s: string, i: int) {
    0 <= i && i + |pat| <= |s| && s[i..i + |pat|] == pat
  }

  /** Whether `pat` occurs somewhere in `s`. */
  ghost predicate Occurs(pat: string, s: string) {
    exists i :: OccursAt(pat, s, i)
  }

  /** Every occurrence of `from` replaced by `to`, scanning left to right; occurrences do not overlap. */
  function ReplaceAll(s: string, from: string, to: string): string
    requires |from| > 0
    decreases |s|
  {
    if |s| < |from| then s
    else if s[..|from|] == from then to + ReplaceAll(s[|from|..], from, to)
    else [s[0]] + ReplaceAll(s[1..], from, to)
  }

  /** escapeSlash: a missing name becomes the empty string; the result never contains a slash. */
  function EscapeSlash(name: Option<string>): (r: string)
    ensures name.None? ==> r == ""
    ensures '/' !in r
  {
    match name
    case None => ""
    case Some(s) =>
      EscapeHasNoSlash(s);
      ReplaceAll(s, Slash, EscapedSlash)
  }

  /** unescapeSlash: a missing name becomes the empty string; a name without "&slash;" is returned as it is. */
  function UnescapeSlash(name: Option<string>): (r: string)
    ensures name.None? ==> r == ""
    ensures name.Some? && !Occurs(EscapedSlash, name.value) ==> r == name.value
  {
    match name
    case None => ""
    case Some(s) =>
      UnescapeWithoutEscapes(s);
      ReplaceAll(s, EscapedSlash, Slash)
  }

  lemma {:induction false} EscapeHasNoSlash(s: string)
    ensures '/' !in ReplaceAll(s, Slash, EscapedSlash)
    decreases |s|
  {
    if |s| >= 1 {
      EscapeHasNoSlash(s[1..]);
      assert '/' !in EscapedSlash;
    }
  }

  lemma {:induction false} UnescapeWithoutEscapes(s: string)
    ensures !Occurs(EscapedSlash, s) ==> ReplaceAll(s, EscapedSlash, Slash) == s
    decreases |s|
  {
    if |s| >= |EscapedSlash| && !Occurs(EscapedSlash, s) {
      assert !OccursAt(EscapedSlash, s, 0);
      NotOccursTail(EscapedSlash, s);
      UnescapeWithoutEscapes(s[1..]);
      assert s == [s[0]] + s[1..];
    }
  }

  /** A text with no slash is left alone by escaping. */
  lemma {:induction false} EscapeWithoutSlashes(s: string)
    requires '/' !in s
    ensures ReplaceAll(s, Slash, EscapedSlash) == s
    decreases |s|
  {
    if |s| >= 1 {
      assert s[0] != '/';
      assert s[..1] != Slash;
      EscapeWithoutSlashes(s[1..]);
      assert s == [s[0]] + s[1..];
    }
  }

  lemma NotOccursTail(pat: string, s: string)
    requires !Occurs(pat, s) && |s| > 0
    ensures !Occurs(pat, s[1..])
  {
    forall i | 0 <= i && i + |pat| <= |s[1..]| ensures !OccursAt(pat, s[1..], i) {
      assert s[1..][i..i + |pat|] == s[i + 1..i + 1 + |pat|];
      assert !OccursAt(pat, s, i + 1);
    }
  }

  /** If an escaped text starts with a prefix free of '/' and '&', the text itself starts with it. */
  lemma {:induction false} EscapedPrefix(t: string, p: string)
    requires '/' !in p && '&' !in p
    requires |p| <= |ReplaceAll(t, Slash, EscapedSlash)| && ReplaceAll(t, Slash, EscapedSlash)[..|p|] == p
    ensures |p| <= |t| && t[..|p|] == p
    decreases |p|
  {
    if |p| > 0 {
      var e := ReplaceAll(t, Slash, EscapedSlash);
      assert e[0] == p[0];
      if t[..1] != Slash {
        assert e == [t[0]] + ReplaceAll(t[1..], Slash, EscapedSlash);
        assert ReplaceAll(t[1..], Slash, EscapedSlash)[..|p| - 1] == p[1..];
        EscapedPrefix(t[1..], p[1..]);
        assert t[..|p|] == [t[0]] + t[1..][..|p| - 1];
      }
    }
  }

  lemma EscapedPrefixNeg(t: string, p: string)
    requires '/' !in p && '&' !in p
    requires !(|p| <= |t| && t[..|p|] == p)
    ensures !(|p| <= |ReplaceAll(t, Slash, EscapedSlash)| && ReplaceAll(t, Slash, EscapedSlash)[..|p|] == p)
  {
    if |p| <= |ReplaceAll(t, Slash, EscapedSlash)| && ReplaceAll(t, Slash, EscapedSlash)[..|p|] == p {
      EscapedPrefix(t, p);
    }
  }

  /** Escaping a name that starts with a character other than '/' and has no "&slash;" does not yield a leading "&slash;". */
  lemma NoEscapeAfterPlainChar(s: string)
    requires |s| >= 1 && s[..1] != Slash && !Occurs(EscapedSlash, s)
    ensures var e := ReplaceAll(s, Slash, EscapedSlash);
            !(|e| >= |EscapedSlash| && e[..|EscapedSlash|] == EscapedSlash)
  {
    var rest := ReplaceAll(s[1..], Slash, EscapedSlash);
    var e := ReplaceAll(s, Slash, EscapedSlash);
    assert e == [s[0]] + rest;
    if s[0] == '&' {
      assert !OccursAt(EscapedSlash, s, 0);
      assert 6 <= |s[1..]| ==> s[..7] == [s[0]] + s[1..][..6];
      EscapedPrefixNeg(s[1..], "slash;");
      assert 6 <= |rest| ==> e[..7][1..] == rest[..6];
      assert EscapedSlash[1..] == "slash;";
    } else {
      assert |e| >= 1 ==> e[0] == s[0];
    }
  }

  /** Unescaping undoes escaping for every name that does not already contain "&slash;". */
  lemma {:induction false} UnescapeEscape(s: string)
    requires !Occurs(EscapedSlash, s)
    ensures UnescapeSlash(Some(EscapeSlash(Some(s)))) == s
    decreases |s|
  {
    var e := ReplaceAll(s, Slash, EscapedSlash);
    if |s| >= 1 {
      var rest := ReplaceAll(s[1..], Slash, EscapedSlash);
      NotOccursTail(EscapedSlash, s);
      UnescapeEscape(s[1..]);
      if s[..1] == Slash {
        assert e == EscapedSlash + rest;
        assert e[..|EscapedSlash|] == EscapedSlash;
        assert e[|EscapedSlash|..] == rest;
        assert s == Slash + s[1..];
      } else {
        assert e == [s[0]] + rest;
        NoEscapeAfterPlainChar(s);
        assert e[1..] == rest;
        assert s == [s[0]] + s[1..];
      }
    }
  }

  /** Escaping undoes unescaping for every name without a slash. */
  lemma {:induction false} EscapeUnescape(s: string)
    requires '/' !in s
    ensures EscapeSlash(Some(UnescapeSlash(Some(s)))) == s
    decreases |s|
  {
    var u := ReplaceAll(s, EscapedSlash, Slash);
    if |s| < |EscapedSlash| {
      EscapeWithoutSlashes(s);
    } else if s[..|EscapedSlash|] == EscapedSlash {
      var rest := ReplaceAll(s[|EscapedSlash|..], EscapedSlash, Slash);
      EscapeUnescape(s[|EscapedSlash|..]);
      assert u == Slash + rest;
      assert u[..1] == Slash && u[1..] == rest;
      assert s == EscapedSlash + s[|EscapedSlash|..];
    } else {
      var rest := ReplaceAll(s[1..], EscapedSlash, Slash);
      EscapeUnescape(s[1..]);
      assert u == [s[0]] + rest;
      assert u[..1] != Slash && u[1..] == rest;
      assert s == [s[0]] + s[1..];
    }
  }
}
