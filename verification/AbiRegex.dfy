/** The regular expressions of the version script, and the functions that match them. */
module AbiRegex {
  import opened Wrappers
  import opened AbiMap

  /** The characters from `i` up to `j` are of one class. */
  predicate Run(s: string, i: nat, j: nat, k: Class) {
    i <= j <= |s| && forall n :: i <= n < j ==> In(s[n], k)
  }

  /** White space and names have no character in common. */
  lemma ClassesApart(c: char, k: Class)
    requires k != Space
    ensures !(In(c, Space) && In(c, k))
  {
  }

  lemma PunctuationApart(k: Class)
    ensures !In('}', k) && !In(';', k) && !In('{', k)
  {
  }

  lemma SkipIs(s: string, i: nat, k: Class, j: nat)
    requires Run(s, i, j, k) && (j < |s| ==> !In(s[j], k))
    ensures Skip(s, i, k) == j
  {
    hide In;
    SkipTo(s, i, k, j);
  }

  lemma SkipRun(s: string, i: nat, k: Class)
    requires i <= |s|
    ensures Run(s, i, Skip(s, i, k), k)
  {
    hide In;
  }

  /** `strip()`: white space is removed at both ends, and only there. */
  lemma StripIs(s: string)
    ensures
      exists i: nat, j: nat ::
        Run(s, 0, i, Space) && Run(s, j, |s|, Space) && i <= j && Strip(s) == s[i..j]
  {
    hide IsSpace;
    var i, t := Skip(s, 0, Space), Trail(s);
    SkipRun(s, 0, Space);
    if i < t {
      assert Run(s, t, |s|, Space);
      assert Strip(s) == s[i..t];
    } else {
      assert Run(s, i, |s|, Space);
      assert Strip(s) == s[i..i];
    }
  }

  /** `\s*(name)\s*end\s*$` with a nonempty name of one class: section_begin_regex and
      func_line_regex.  The name is s[i..j], and the other character s[n]. */
  predicate Matches(s: string, k: Class, end: char, i: nat, j: nat, n: nat) {
    && Run(s, 0, i, Space) && i < j && Run(s, i, j, k) && Run(s, j, n, Space)
    && n < |s| && s[n] == end && Run(s, n + 1, |s|, Space)
  }

  lemma MatchIsNamed(s: string, k: Class, end: char, i: nat, j: nat, n: nat)
    requires k != Space && (end == ';' || end == '{') && Matches(s, k, end, i, j, n)
    ensures Named(s, k, end) == Some(s[i..j])
  {
    hide In;
    PunctuationApart(k);
    PunctuationApart(Space);
    ClassesApart(s[i], k);
    ClassesApart(s[j], k);
    SkipIs(s, 0, Space, i);
    SkipIs(s, i, k, j);
    SkipIs(s, j, Space, n);
    SkipIs(s, n + 1, Space, |s|);
  }

  lemma NamedIsMatch(s: string, k: Class, end: char)
    requires Named(s, k, end).Some?
    ensures
      exists i: nat, j: nat, n: nat ::
        Matches(s, k, end, i, j, n) && Named(s, k, end) == Some(s[i..j])
  {
    hide In;
    var a := Skip(s, 0, Space);
    var b := Skip(s, a, k);
    var c := Skip(s, b, Space);
    SkipRun(s, 0, Space);
    SkipRun(s, a, k);
    SkipRun(s, b, Space);
    SkipRun(s, c + 1, Space);
    assert Matches(s, k, end, a, b, c);
  }

  /** The function finds the name exactly if the line matches with it. */
  lemma NamedIff(s: string, k: Class, end: char, name: string)
    requires k != Space && (end == ';' || end == '{')
    ensures
      Named(s, k, end) == Some(name)
      <==> exists i: nat, j: nat, n: nat :: Matches(s, k, end, i, j, n) && s[i..j] == name
  {
    hide Named, In;
    if Named(s, k, end) == Some(name) {
      NamedIsMatch(s, k, end);
    }
    if i: nat, j: nat, n: nat :| Matches(s, k, end, i, j, n) && s[i..j] == name {
      MatchIsNamed(s, k, end, i, j, n);
    }
  }

  /** `\s*}\s*version?\s*;\s*$`: section_end_regex.  The brace is s[i], the version s[j..m] and the
      semicolon s[n]. */
  predicate MatchesEnd(s: string, i: nat, j: nat, m: nat, n: nat) {
    && Run(s, 0, i, Space) && i < |s| && s[i] == '}' && Run(s, i + 1, j, Space)
    && Run(s, j, m, Version) && Run(s, m, n, Space)
    && n < |s| && s[n] == ';' && Run(s, n + 1, |s|, Space)
  }

  lemma MatchIsEnd(s: string, i: nat, j: nat, m: nat, n: nat)
    requires MatchesEnd(s, i, j, m, n)
    ensures IsEnd(s)
  {
    hide In;
    PunctuationApart(Space);
    PunctuationApart(Version);
    SkipIs(s, 0, Space, i);
    SkipIs(s, n + 1, Space, |s|);
    ClassesApart(s[m], Version);
    if j < m {
      ClassesApart(s[j], Version);
      SkipIs(s, i + 1, Space, j);
      SkipIs(s, j, Version, m);
      SkipIs(s, m, Space, n);
    } else {
      SkipIs(s, i + 1, Space, n);
      SkipIs(s, n, Version, n);
      SkipIs(s, n, Space, n);
    }
  }

  /** A line ends a section exactly if it matches. */
  lemma EndIff(s: string)
    ensures IsEnd(s) <==> exists i: nat, j: nat, m: nat, n: nat :: MatchesEnd(s, i, j, m, n)
  {
    if IsEnd(s) {
      EndIsMatch(s);
    }
    if i: nat, j: nat, m: nat, n: nat :| MatchesEnd(s, i, j, m, n) {
      MatchIsEnd(s, i, j, m, n);
    }
  }

  lemma EndIsMatch(s: string)
    requires IsEnd(s)
    ensures exists i: nat, j: nat, m: nat, n: nat :: MatchesEnd(s, i, j, m, n)
  {
    hide In;
    var a := Skip(s, 0, Space);
    var b := Skip(s, a + 1, Space);
    var m := Skip(s, b, Version);
    var c := Skip(s, m, Space);
    SkipRun(s, 0, Space);
    SkipRun(s, a + 1, Space);
    SkipRun(s, b, Version);
    SkipRun(s, m, Space);
    SkipRun(s, c + 1, Space);
    assert MatchesEnd(s, a, b, m, c);
  }
}
