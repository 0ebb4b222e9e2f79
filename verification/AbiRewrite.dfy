/** Rewriting a map file: what is generated reads back as what was parsed, and rewriting it again
    changes nothing, exactly if the ABI number is written in ASCII digits. */
module AbiRewrite {
  import opened Wrappers
  import opened AbiMap

  predicate Idle(p: Parsed) {
    !p.inExperimental && !p.inInternal
  }

  /** A digit as `\d` matches it: ASCII, or of another script. */
  predicate IsDigit(c: char) {
    '0' <= c <= '9' || (c as int >= 0x660 && !IsSpace(c))
  }

  /** The part of the ABI version before the point: one or two digits. */
  predicate IsMajor(major: string) {
    1 <= |major| <= 2 && forall i :: 0 <= i < |major| ==> IsDigit(major[i])
  }

  predicate IsAscii(major: string) {
    AllIn(major, Version)
  }

  predicate IsFunction(name: string) {
    name != "" && AllIn(name, Ident)
  }

  /** A line that a section can hold verbatim. */
  predicate IsBody(line: string) {
    Stripped(line) && !IsEnd(line)
  }

  /** What the parser collects. */
  predicate Clean(p: Parsed) {
    && (forall n :: n in p.stable ==> IsFunction(n))
    && (forall i :: 0 <= i < |p.experimental| ==> IsBody(p.experimental[i]))
    && (forall i :: 0 <= i < |p.internals| ==> IsBody(p.internals[i]))
  }

  lemma NamedClean(s: string, k: Class, end: char)
    ensures Named(s, k, end).Some? ==>
      Named(s, k, end).value != "" && AllIn(Named(s, k, end).value, k)
  {
  }

  lemma StepClean(p: Parsed, raw: string)
    requires Clean(p)
    ensures Clean(Step(p, raw))
  {
    hide Named, IsEnd;
    var line := Strip(raw);
    NamedClean(line, Ident, ';');
  }

  lemma {:induction false} ParseClean(lines: seq<string>)
    ensures Clean(Parse(START, lines))
  {
    hide Step, Clean;
    if lines == [] {
      StartClean();
    } else {
      ParseClean(lines[..|lines| - 1]);
      StepClean(Parse(START, lines[..|lines| - 1]), lines[|lines| - 1]);
    }
  }

  lemma StartClean()
    ensures Clean(START)
  {
  }

  // ------------------------------------------------------------------ generated lines

  lemma StripTab(s: string)
    requires s != "" && !IsSpace(s[0]) && !IsSpace(s[|s| - 1])
    ensures Strip("\t" + s) == s && Strip(s) == s
  {
    StripIndented(s);
  }

  lemma BlankStep(p: Parsed)
    requires Idle(p)
    ensures Step(p, "") == p
  {
    NotEnd("");
    StripIndented("");
  }

  lemma EndStep(p: Parsed)
    ensures Step(p, "};") == p.(inExperimental := false, inInternal := false)
  {
    EndLine();
  }

  /** A line that no regular expression matches. */
  lemma OtherStep(p: Parsed, raw: string, line: string)
    requires Idle(p) && Strip(raw) == line && !IsEnd(line)
    requires SectionName(line) == None && FunctionName(line) == None
    ensures Step(p, raw) == p
  {
  }

  lemma GlobalStep(p: Parsed)
    requires Idle(p)
    ensures Step(p, "\tglobal:") == p
  {
    hide Named, IsEnd, Strip;
    var s := "global:";
    assert "\tglobal:" == "\t" + s;
    StripTab(s);
    NotEnd(s);
    NotNamed(s, Version, '{', 6);
    NotNamed(s, Ident, ';', 6);
    OtherStep(p, "\tglobal:", s);
  }

  lemma LocalStep(p: Parsed)
    requires Idle(p)
    ensures Step(p, "\tlocal: *;") == p
  {
    hide Named, IsEnd, Strip;
    var s := "local: *;";
    assert "\tlocal: *;" == "\t" + s;
    StripTab(s);
    NotEnd(s);
    NotNamed(s, Version, '{', 5);
    NotNamed(s, Ident, ';', 5);
    OtherStep(p, "\tlocal: *;", s);
  }

  lemma FunctionStep(p: Parsed, name: string)
    requires Idle(p) && IsFunction(name)
    ensures Step(p, "\t" + name + ";") == p.(stable := p.stable + {name})
  {
    hide Named, IsEnd, Strip;
    var s := name + [';'];
    NameNotSpace(name, Ident);
    assert s[0] == name[0] && s[|s| - 1] == ';';
    assert "\t" + name + ";" == "\t" + s;
    StripTab(s);
    NotEnd(s);
    NotNamed(s, Version, '{', |name|);
    NamedDirectly(name, Ident, ';');
  }

  lemma HeaderStep(p: Parsed, name: string)
    requires Idle(p) && name != "" && AllIn(name, Version)
    ensures
      Step(p, name + " {")
      == p.(inExperimental := name == "EXPERIMENTAL", inInternal := name == "INTERNAL",
            hasStable := p.hasStable || (name != "EXPERIMENTAL" && name != "INTERNAL"))
  {
    hide Named, IsEnd, Strip;
    var s := name + [' ', '{'];
    NameNotSpace(name, Version);
    assert s[0] == name[0] && s[|s| - 1] == '{';
    assert name + " {" == s;
    StripTab(s);
    NotEnd(s);
    NamedAfterBlank(name, Version, '{');
  }

  lemma BodyStep(p: Parsed, line: string)
    requires IsBody(line) && (p.inExperimental || p.inInternal)
    ensures
      Step(p, if line == "" then "" else "\t" + line)
      == if p.inExperimental then p.(experimental := p.experimental + [line])
         else p.(internals := p.internals + [line])
  {
    hide Named, IsEnd, Strip;
    StripIndented(line);
  }

  /** The header with an ABI number that is not in ASCII digits is not recognised. */
  lemma ForeignHeaderStep(p: Parsed, major: string)
    requires Idle(p) && IsMajor(major) && !IsAscii(major)
    ensures Step(p, "DPDK_" + major + " {") == p
  {
    hide Named, IsEnd, Strip;
    var s := "DPDK_" + major + " {";
    var n := if In(major[0], Version) then 6 else 5;
    assert s[0] == 'D' && s[|s| - 1] == '{' && s[n] == major[n - 5];
    assert forall i :: 0 <= i < n ==> In(s[i], Ident) by {
      assert s[..5] == "DPDK_" && s[5] == major[0];
    }
    StripTab(s);
    NotEnd(s);
    NotNamed(s, Version, '{', n);
    NotNamed(s, Ident, ';', n);
    OtherStep(p, s, s);
  }

  // ------------------------------------------------------------------ any section

  /** The functions named on some lines. */
  function Names(lines: seq<string>): set<string> {
    set i | 0 <= i < |lines| && FunctionName(Strip(lines[i])).Some? :: FunctionName(Strip(lines[i])).value
  }

  function StrippedAll(lines: seq<string>): (r: seq<string>)
    ensures |r| == |lines| && forall i :: 0 <= i < |r| ==> r[i] == Strip(lines[i])
  {
    seq(|lines|, i requires 0 <= i < |lines| => Strip(lines[i]))
  }

  predicate NoEnds(lines: seq<string>) {
    forall i :: 0 <= i < |lines| ==> !IsEnd(Strip(lines[i]))
  }

  predicate NoHeaders(lines: seq<string>) {
    forall i :: 0 <= i < |lines| ==> SectionName(Strip(lines[i])) == None
  }

  lemma StartStep(p: Parsed, raw: string)
    requires Idle(p) && SectionName(Strip(raw)).Some?
    ensures
      var v := SectionName(Strip(raw)).value;
      Step(p, raw)
      == p.(inExperimental := v == "EXPERIMENTAL", inInternal := v == "INTERNAL",
            hasStable := p.hasStable || (v != "EXPERIMENTAL" && v != "INTERNAL"))
  {
    hide Strip;
    assert !In('}', Version);
  }

  lemma LineStep(p: Parsed, raw: string)
    requires !IsEnd(Strip(raw))
    ensures p.inExperimental ==> Step(p, raw) == p.(experimental := p.experimental + [Strip(raw)])
    ensures p.inInternal && !p.inExperimental ==>
      Step(p, raw) == p.(internals := p.internals + [Strip(raw)])
    ensures Idle(p) && SectionName(Strip(raw)) == None ==>
      Step(p, raw)
      == match FunctionName(Strip(raw))
         case Some(name) => p.(stable := p.stable + {name})
         case None => p
  {
    hide Strip, IsEnd;
  }

  lemma {:induction false} LinesParsed(p: Parsed, lines: seq<string>)
    requires NoEnds(lines) && (Idle(p) ==> NoHeaders(lines))
    ensures
      Parse(p, lines)
      == if p.inExperimental then p.(experimental := p.experimental + StrippedAll(lines))
         else if p.inInternal then p.(internals := p.internals + StrippedAll(lines))
         else p.(stable := p.stable + Names(lines))
  {
    hide Step, Strip, IsEnd, Named;
    if lines == [] {
      assert Names(lines) == {} && p.stable + {} == p.stable;
    } else {
      var k := |lines| - 1;
      LinesParsed(p, lines[..k]);
      LineStep(Parse(p, lines[..k]), lines[k]);
      assert StrippedAll(lines) == StrippedAll(lines[..k]) + [Strip(lines[k])];
      NamesMore(lines, k);
    }
  }

  lemma NamesMore(lines: seq<string>, k: nat)
    requires |lines| == k + 1
    ensures
      Names(lines)
      == Names(lines[..k]) + match FunctionName(Strip(lines[k])) case Some(name) => {name} case None => {}
  {
    hide Strip, Named;
  }

  /** Any section of a file: of an experimental or internal one the lines are collected as they are but
      for white space at their ends, of any other the functions named. */
  lemma SectionParsed(p: Parsed, header: string, lines: seq<string>, end: string)
    requires Idle(p) && SectionName(Strip(header)).Some? && NoEnds(lines) && IsEnd(Strip(end))
    requires SectionName(Strip(header)).value !in {"EXPERIMENTAL", "INTERNAL"} ==> NoHeaders(lines)
    ensures
      var v := SectionName(Strip(header)).value;
      Parse(p, [header] + lines + [end])
      == if v == "EXPERIMENTAL" then p.(experimental := p.experimental + StrippedAll(lines))
         else if v == "INTERNAL" then p.(internals := p.internals + StrippedAll(lines))
         else p.(hasStable := true, stable := p.stable + Names(lines))
  {
    hide Step, Parse, Strip, IsEnd, Named, Names, StrippedAll;
    ParseAppend(p, [header] + lines, [end]);
    ParseAppend(p, [header], lines);
    ParseOne(p, header);
    StartStep(p, header);
    var q := Step(p, header);
    LinesParsed(q, lines);
    ParseOne(Parse(q, lines), end);
    EndsStep(Parse(q, lines), end);
  }

  lemma EndsStep(p: Parsed, raw: string)
    requires IsEnd(Strip(raw))
    ensures Step(p, raw) == p.(inExperimental := false, inInternal := false)
  {
    hide IsEnd, Strip;
  }

  // ------------------------------------------------------------------ generated sections

  function Members(names: seq<string>): set<string> {
    set n | n in names
  }

  predicate AllFunctions(names: seq<string>) {
    forall i :: 0 <= i < |names| ==> IsFunction(names[i])
  }

  predicate AllBodies(lines: seq<string>) {
    forall i :: 0 <= i < |lines| ==> IsBody(lines[i])
  }

  lemma {:induction false} FunctionLinesParsed(p: Parsed, names: seq<string>)
    requires Idle(p) && AllFunctions(names)
    ensures Parse(p, FunctionLines(names)) == p.(stable := p.stable + Members(names))
  {
    hide Step, IsFunction;
    if names != [] {
      var k := |names| - 1;
      FunctionLinesParsed(p, names[..k]);
      assert FunctionLines(names)[..k] == FunctionLines(names[..k]);
      FunctionStep(Parse(p, FunctionLines(names[..k])), names[k]);
      assert Members(names) == Members(names[..k]) + {names[k]};
    }
  }

  lemma {:induction false} BodyParsed(p: Parsed, lines: seq<string>)
    requires (p.inExperimental || p.inInternal) && AllBodies(lines)
    ensures
      Parse(p, Indented(lines))
      == if p.inExperimental then p.(experimental := p.experimental + lines)
         else p.(internals := p.internals + lines)
  {
    hide Step, IsBody;
    if lines != [] {
      var k := |lines| - 1;
      BodyParsed(p, lines[..k]);
      assert Indented(lines)[..k] == Indented(lines[..k]);
      BodyStep(Parse(p, Indented(lines[..k])), lines[k]);
      assert lines == lines[..k] + [lines[k]];
    }
  }

  lemma VerbatimParsed(p: Parsed, name: string, lines: seq<string>)
    requires Idle(p) && AllBodies(lines)
    requires name == "EXPERIMENTAL" || name == "INTERNAL"
    ensures
      Parse(p, VerbatimAbi(name, lines))
      == if name == "EXPERIMENTAL" then p.(experimental := p.experimental + lines)
         else p.(internals := p.internals + lines)
  {
    hide Step, Parse, Indented;
    ParseAppend(p, [name + " {"] + Indented(lines), ["};"]);
    ParseAppend(p, [name + " {"], Indented(lines));
    ParseOne(p, name + " {");
    HeaderStep(p, name);
    var q := Step(p, name + " {");
    BodyParsed(q, lines);
    ParseOne(Parse(q, Indented(lines)), "};");
    EndStep(Parse(q, Indented(lines)));
  }

  /** The stable section: recognised if its name is, its functions collected in any case. */
  lemma StableParsed(p: Parsed, major: string, names: seq<string>)
    requires Idle(p) && IsMajor(major) && AllFunctions(names)
    ensures
      Parse(p, StableAbi(major, names))
      == p.(hasStable := p.hasStable || IsAscii(major), stable := p.stable + Members(names))
  {
    hide Step, Parse, FunctionLines;
    var header := ["DPDK_" + major + " {"];
    var global := if names == [] then [] else ["\tglobal:", ""] + FunctionLines(names) + [""];
    ParseAppend(p, header + global, ["\tlocal: *;", "};"]);
    ParseAppend(p, header, global);
    ParseOne(p, "DPDK_" + major + " {");
    HeaderParsed(p, major);
    var q := Step(p, "DPDK_" + major + " {");
    GlobalParsed(q, names);
    LocalParsed(Parse(q, global));
  }

  lemma HeaderParsed(p: Parsed, major: string)
    requires Idle(p) && IsMajor(major)
    ensures Step(p, "DPDK_" + major + " {") == p.(hasStable := p.hasStable || IsAscii(major))
  {
    hide Step;
    if IsAscii(major) {
      var name := "DPDK_" + major;
      assert name[0] == 'D' && AllIn("DPDK_", Version);
      HeaderStep(p, name);
    } else {
      ForeignHeaderStep(p, major);
    }
  }

  lemma GlobalParsed(p: Parsed, names: seq<string>)
    requires Idle(p) && AllFunctions(names)
    ensures
      Parse(p, if names == [] then [] else ["\tglobal:", ""] + FunctionLines(names) + [""])
      == p.(stable := p.stable + Members(names))
  {
    hide Step, FunctionLines;
    if names != [] {
      hide Parse;
      var start, lines := ["\tglobal:", ""], FunctionLines(names);
      ParseAppend(p, start + lines, [""]);
      ParseAppend(p, start, lines);
      assert start == ["\tglobal:"] + [""];
      ParseAppend(p, ["\tglobal:"], [""]);
      ParseOne(p, "\tglobal:");
      GlobalStep(p);
      ParseOne(p, "");
      BlankStep(p);
      FunctionLinesParsed(p, names);
      ParseOne(Parse(p, lines), "");
      BlankStep(Parse(p, lines));
    } else {
      assert Parse(p, []) == p;
    }
  }

  lemma LocalParsed(p: Parsed)
    requires Idle(p)
    ensures Parse(p, ["\tlocal: *;", "};"]) == p
  {
    hide Step, Parse;
    assert ["\tlocal: *;", "};"] == ["\tlocal: *;"] + ["};"];
    ParseAppend(p, ["\tlocal: *;"], ["};"]);
    ParseOne(p, "\tlocal: *;");
    LocalStep(p);
    ParseOne(p, "};");
    EndStep(p);
  }

  // ------------------------------------------------------------------ the whole file

  lemma BlankParsed(p: Parsed)
    requires Idle(p)
    ensures Parse(p, [""]) == p && Parse(p, []) == p
  {
    hide Step;
    ParseOne(p, "");
    BlankStep(p);
  }

  /** What parsing the generated text gives: the verbatim lines as they were, the functions if there
      was a stable section, and the stable section itself if its number is in ASCII. */
  lemma Reparsed(major: string, p: Parsed, names: seq<string>)
    requires IsMajor(major) && Clean(p) && AllFunctions(names)
    ensures
      Parse(START, Generated(major, p, names))
      == Parsed(p.hasStable && IsAscii(major), if p.hasStable then Members(names) else {},
                p.experimental, p.internals, false, false)
  {
    hide Step, Parse, StableAbi, VerbatimAbi, IsFunction, IsBody, Stripped, IsEnd;
    var a := if p.hasStable then StableAbi(major, names) else [];
    var b := if p.hasStable && p.experimental != [] then [""] else [];
    var c := if p.experimental != [] then VerbatimAbi("EXPERIMENTAL", p.experimental) else [];
    var n := if p.hasStable || p.experimental != [] then [""] else [];
    var d := if p.internals != [] then n + VerbatimAbi("INTERNAL", p.internals) else [];
    assert Generated(major, p, names) == a + b + c + d;
    ParseAppend(START, a + b + c, d);
    ParseAppend(START, a + b, c);
    ParseAppend(START, a, b);
    BlankParsed(START);
    StableParsed(START, major, names);
    var q := Parse(START, a);
    BlankParsed(q);
    VerbatimParsed(q, "EXPERIMENTAL", p.experimental);
    var r := Parse(q, c);
    BlankParsed(r);
    ParseAppend(r, n, VerbatimAbi("INTERNAL", p.internals));
    VerbatimParsed(r, "INTERNAL", p.internals);
  }

  // ------------------------------------------------------------------ sorted names

  /** The order of `sorted`. */
  predicate Before(a: string, b: string) {
    b != "" && (a == "" || a[0] < b[0] || (a[0] == b[0] && Before(a[1..], b[1..])))
  }

  /** The first of two strings is the one with the smaller character where they first differ, or their
      common beginning. */
  lemma {:induction false} BeforeIff(a: string, b: string)
    ensures
      Before(a, b)
      <==> exists n: nat :: n <= |a| && n < |b| && a[..n] == b[..n] && (n == |a| || a[n] < b[n])
  {
    if a != "" && b != "" && a[0] == b[0] {
      BeforeIff(a[1..], b[1..]);
      if Before(a[1..], b[1..]) {
        var n: nat :| n <= |a[1..]| && n < |b[1..]| && a[1..][..n] == b[1..][..n] &&
          (n == |a[1..]| || a[1..][n] < b[1..][n]);
        assert a[..n + 1] == [a[0]] + a[1..][..n] && b[..n + 1] == [b[0]] + b[1..][..n];
      }
      if n: nat :| n <= |a| && n < |b| && a[..n] == b[..n] && (n == |a| || a[n] < b[n]) {
        assert n > 0;
        assert a[1..][..n - 1] == a[..n][1..] && b[1..][..n - 1] == b[..n][1..];
      }
    } else if b != "" {
      assert a[..0] == b[..0];
      forall n: nat | n < |b| && 0 < n <= |a|
        ensures a[..n] != b[..n]
      {
        assert a[..n][0] == a[0] && b[..n][0] == b[0];
      }
    }
  }

  predicate Ascending(names: seq<string>) {
    forall i, j :: 0 <= i < j < |names| ==> Before(names[i], names[j])
  }

  /** The list that `sorted` makes of a set. */
  predicate IsSorted(names: seq<string>, lines: set<string>) {
    Ascending(names) && Members(names) == lines
  }

  lemma {:induction false} BeforeOrder(a: string, b: string, c: string)
    ensures !Before(a, a)
    ensures Before(a, b) && Before(b, c) ==> Before(a, c)
    ensures a == b || Before(a, b) || Before(b, a)
  {
    if a != "" {
      BeforeOrder(a[1..], if b == "" then "" else b[1..], if c == "" then "" else c[1..]);
      if b != "" && a[0] == b[0] && a[1..] == b[1..] {
        assert a == [a[0]] + a[1..] && b == [b[0]] + b[1..];
      }
    }
  }

  lemma FirstIsLeast(a: seq<string>, b: seq<string>)
    requires Ascending(a) && Ascending(b) && Members(a) == Members(b) && a != []
    ensures b != [] && a[0] == b[0]
  {
    assert a[0] in Members(b);
    assert b[0] in Members(a);
    var i :| 0 <= i < |b| && b[i] == a[0];
    var j :| 0 <= j < |a| && a[j] == b[0];
    BeforeOrder(a[0], b[0], a[0]);
  }

  lemma MembersOfTail(a: seq<string>)
    requires Ascending(a) && a != []
    ensures Members(a[1..]) == Members(a) - {a[0]} && Ascending(a[1..])
  {
    BeforeOrder(a[0], a[0], a[0]);
    forall n
      ensures n in Members(a[1..]) <==> n in Members(a) && n != a[0]
    {
      if n in a[1..] {
        var i :| 0 <= i < |a[1..]| && a[1..][i] == n;
        assert a[i + 1] == n && Before(a[0], a[i + 1]);
      }
      assert a == [a[0]] + a[1..];
    }
  }

  /** A set has one sorted list. */
  lemma {:induction false} SortedOnce(a: seq<string>, b: seq<string>)
    requires Ascending(a) && Ascending(b) && Members(a) == Members(b)
    ensures a == b
  {
    assert b != [] ==> b[0] in Members(b);
    if a != [] {
      FirstIsLeast(a, b);
      MembersOfTail(a);
      MembersOfTail(b);
      SortedOnce(a[1..], b[1..]);
      assert a == [a[0]] + a[1..] && b == [b[0]] + b[1..];
    }
  }

  /** Reading the generated text and generating again gives the same text if and only if there is no
      stable section or its number is in ASCII digits. */
  lemma RewriteIsIdempotent(major: string, lines: seq<string>, names: seq<string>, again: seq<string>)
    requires IsMajor(major)
    requires
      var p := Parse(START, lines);
      IsSorted(names, p.stable) && IsSorted(again, Parse(START, Generated(major, p, names)).stable)
    ensures
      var p := Parse(START, lines);
      var text := Generated(major, p, names);
      Generated(major, Parse(START, text), again) == text <==> !p.hasStable || IsAscii(major)
  {
    hide Step, Parse, Ascending;
    var p := Parse(START, lines);
    ParseClean(lines);
    NamesAreFunctions(p, names);
    Reparsed(major, p, names);
    var text := Generated(major, p, names);
    var q := Parse(START, text);
    if p.hasStable {
      SortedOnce(names, again);
      FirstLine(major, p, names);
      FirstLine(major, q, again);
    }
  }

  lemma NamesAreFunctions(p: Parsed, names: seq<string>)
    requires Clean(p) && Members(names) == p.stable
    ensures AllFunctions(names)
  {
    hide IsFunction, IsBody;
    assert forall i :: 0 <= i < |names| ==> names[i] in Members(names);
  }

  /** The text starts with the stable section's name exactly if there is one. */
  lemma FirstLine(major: string, p: Parsed, names: seq<string>)
    ensures
      var g := Generated(major, p, names);
      (g != [] && g[0] != "" && g[0][0] == 'D') <==> p.hasStable
  {
  }

  /** With the number in Arabic-Indic digits the second run no longer sees the stable section. */
  lemma ForeignDigitsLoseSection()
    ensures
      var major, p := "\U{0662}\U{0661}", Parse(START, ["DPDK_20 {", "};"]);
      && IsMajor(major) && p.hasStable
      && !Parse(START, Generated(major, p, [])).hasStable
  {
    hide Step, Parse, Generated;
    var major := "\U{0662}\U{0661}";
    assert major[0] as int == 0x662 && major[1] as int == 0x661;
    assert ["DPDK_20 {", "};"] == ["DPDK_20 {"] + ["};"];
    ParseAppend(START, ["DPDK_20 {"], ["};"]);
    ParseOne(START, "DPDK_20 {");
    assert "DPDK_" + "20" + " {" == "DPDK_20 {" && IsMajor("20") && IsAscii("20");
    HeaderParsed(START, "20");
    var p := Step(START, "DPDK_20 {");
    ParseOne(p, "};");
    EndStep(p);
    Reparsed(major, p, []);
    assert !In(major[0], Version);
  }
}
