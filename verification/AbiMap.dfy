/**
  Linker map files as the version script reads and writes them: the classification of lines, the
  parser as a fold over them, and the text generated for what was parsed.  A file is the sequence of
  its lines, without the line ends.
*/
module AbiMap {
  import opened Wrappers

  // ------------------------------------------------------------------ characters

  /** What `strip()` removes and `\s` matches. */
  predicate IsSpace(c: char) {
    var n := c as int;
    9 <= n <= 13 || 28 <= n <= 32 || n == 0x85 || n == 0xa0 || n == 0x1680 || 0x2000 <= n <= 0x200a ||
    n == 0x2028 || n == 0x2029 || n == 0x202f || n == 0x205f || n == 0x3000
  }

  predicate IsIdent(c: char) {
    'a' <= c <= 'z' || 'A' <= c <= 'Z' || c == '_' || '0' <= c <= '9'
  }

  datatype Class = Space | Ident | Version

  /** `\s`, `[a-zA-Z_0-9]` and `[a-zA-Z0-9_\.]` */
  predicate In(c: char, k: Class) {
    match k
    case Space => IsSpace(c)
    case Ident => IsIdent(c)
    case Version => IsIdent(c) || c == '.'
  }

  predicate AllIn(s: string, k: Class) {
    forall i :: 0 <= i < |s| ==> In(s[i], k)
  }

  /** The end of the longest run of a class from `i` on. */
  function Skip(s: string, i: nat, k: Class): (j: nat)
    requires i <= |s|
    ensures i <= j <= |s|
    ensures forall n :: i <= n < j ==> In(s[n], k)
    ensures j < |s| ==> !In(s[j], k)
    decreases |s| - i
  {
    if i < |s| && In(s[i], k) then Skip(s, i + 1, k) else i
  }

  lemma SkipTo(s: string, i: nat, k: Class, j: nat)
    requires i <= j <= |s|
    requires forall n :: i <= n < j ==> In(s[n], k)
    requires j < |s| ==> !In(s[j], k)
    ensures Skip(s, i, k) == j
  {
  }

  predicate Stripped(s: string) {
    s == "" || (!IsSpace(s[0]) && !IsSpace(s[|s| - 1]))
  }

  function Trail(s: string): (t: nat)
    ensures t <= |s|
    ensures forall n :: t <= n < |s| ==> IsSpace(s[n])
    ensures t > 0 ==> !IsSpace(s[t - 1])
  {
    if s != "" && IsSpace(s[|s| - 1]) then Trail(s[..|s| - 1]) else |s|
  }

  function Strip(s: string): (r: string)
    ensures Stripped(r)
  {
    var i, t := Skip(s, 0, Space), Trail(s);
    if i < t then s[i..t] else ""
  }

  /** An indented line is read as it was without the indentation. */
  lemma StripIndented(s: string)
    requires Stripped(s)
    ensures Strip("\t" + s) == s && Strip(s) == s
  {
    var r := "\t" + s;
    assert r[0] == '\t' && IsSpace('\t');
    if s == "" {
      assert Skip(r, 0, Space) == 1;
    } else {
      assert r[1] == s[0] && r[|r| - 1] == s[|s| - 1];
      SkipTo(r, 0, Space, 1);
      SkipTo(s, 0, Space, 0);
      assert Trail(r) == |r| && Trail(s) == |s|;
      assert r[1..|r|] == s;
    }
  }

  // ------------------------------------------------------------------ lines

  /** section_end_regex */
  predicate IsEnd(s: string) {
    var a := Skip(s, 0, Space);
    a < |s| && s[a] == '}' &&
    var b := Skip(s, a + 1, Space);
    var c := Skip(s, Skip(s, b, Version), Space);
    c < |s| && s[c] == ';' && Skip(s, c + 1, Space) == |s|
  }

  /** A name of one class, then the character `end`, with white space around: section_begin_regex and
      func_line_regex. */
  function Named(s: string, k: Class, end: char): Option<string> {
    var a := Skip(s, 0, Space);
    var b := Skip(s, a, k);
    var c := Skip(s, b, Space);
    if a < b && c < |s| && s[c] == end && Skip(s, c + 1, Space) == |s| then Some(s[a..b]) else None
  }

  function SectionName(s: string): Option<string> {
    Named(s, Version, '{')
  }

  function FunctionName(s: string): Option<string> {
    Named(s, Ident, ';')
  }

  // ------------------------------------------------------------------ parsing

  datatype Parsed = Parsed(hasStable: bool, stable: set<string>, experimental: seq<string>,
                           internals: seq<string>, inExperimental: bool, inInternal: bool)

  const START := Parsed(false, {}, [], [], false, false)

  /** One turn of the loop of __parse_map_file. */
  function Step(p: Parsed, raw: string): Parsed {
    var line := Strip(raw);
    if IsEnd(line) then p.(inExperimental := false, inInternal := false)
    else if p.inExperimental then p.(experimental := p.experimental + [line])
    else if p.inInternal then p.(internals := p.internals + [line])
    else if line == "" then p
    else if SectionName(line).Some? then
      var v := SectionName(line).value;
      p.(inExperimental := v == "EXPERIMENTAL", inInternal := v == "INTERNAL",
         hasStable := p.hasStable || (v != "EXPERIMENTAL" && v != "INTERNAL"))
    else if FunctionName(line).Some? then p.(stable := p.stable + {FunctionName(line).value})
    else p
  }

  function Parse(p: Parsed, lines: seq<string>): Parsed {
    if lines == [] then p else Step(Parse(p, lines[..|lines| - 1]), lines[|lines| - 1])
  }

  lemma {:induction false} ParseAppend(p: Parsed, a: seq<string>, b: seq<string>)
    ensures Parse(p, a + b) == Parse(Parse(p, a), b)
  {
    hide Step;
    if b == [] {
      assert a + b == a;
    } else {
      var k := |b| - 1;
      assert (a + b)[..|a| + k] == a + b[..k];
      ParseAppend(p, a, b[..k]);
    }
  }

  lemma ParseOne(p: Parsed, raw: string)
    ensures Parse(p, [raw]) == Step(p, raw)
  {
    hide Step;
    assert [raw][..0] == [];
    assert Parse(p, []) == p;
  }

  // ------------------------------------------------------------------ generating

  function Indented(lines: seq<string>): (r: seq<string>)
    ensures |r| == |lines|
    ensures forall i :: 0 <= i < |r| ==> r[i] == if lines[i] == "" then "" else "\t" + lines[i]
  {
    seq(|lines|, i requires 0 <= i < |lines| => if lines[i] == "" then "" else "\t" + lines[i])
  }

  function FunctionLines(names: seq<string>): (r: seq<string>)
    ensures |r| == |names| && forall i :: 0 <= i < |r| ==> r[i] == "\t" + names[i] + ";"
  {
    seq(|names|, i requires 0 <= i < |names| => "\t" + names[i] + ";")
  }

  /** __generate_stable_abi, for the sorted names. */
  function StableAbi(major: string, names: seq<string>): seq<string> {
    ["DPDK_" + major + " {"] +
    (if names == [] then [] else ["\tglobal:", ""] + FunctionLines(names) + [""]) +
    ["\tlocal: *;", "};"]
  }

  /** __generate_experimental_abi and __generate_internal_abi */
  function VerbatimAbi(name: string, lines: seq<string>): seq<string> {
    [name + " {"] + Indented(lines) + ["};"]
  }

  /** What __main writes. */
  function Generated(major: string, p: Parsed, names: seq<string>): seq<string> {
    (if p.hasStable then StableAbi(major, names) else []) +
    (if p.hasStable && p.experimental != [] then [""] else []) +
    (if p.experimental != [] then VerbatimAbi("EXPERIMENTAL", p.experimental) else []) +
    (if p.internals != [] then
       (if p.hasStable || p.experimental != [] then [""] else []) + VerbatimAbi("INTERNAL", p.internals)
     else [])
  }

  // ------------------------------------------------------------------ reading what was generated

  /** A line that belongs to no regular expression's section end. */
  lemma NotEnd(s: string)
    requires Stripped(s) && (s == "" || s[0] != '}')
    ensures !IsEnd(s)
  {
    SkipTo(s, 0, Space, 0);
  }

  lemma EndLine()
    ensures IsEnd("};") && Strip("};") == "};"
  {
    var s := "};";
    SkipTo(s, 0, Space, 0);
    SkipTo(s, 1, Space, 1);
    SkipTo(s, 1, Version, 1);
    SkipTo(s, 2, Space, 2);
    StripIndented(s);
  }

  /** A name of the class and what comes after it, when that is not a blank. */
  lemma NamedDirectly(name: string, k: Class, end: char)
    requires k != Space && name != "" && AllIn(name, k) && !In(end, k) && !IsSpace(end)
    ensures Named(name + [end], k, end) == Some(name)
  {
    var s, n := name + [end], |name|;
    NameNotSpace(name, k);
    assert s[0] == name[0];
    SkipTo(s, 0, Space, 0);
    assert forall i :: 0 <= i < n ==> s[i] == name[i];
    SkipTo(s, 0, k, n);
    SkipTo(s, n, Space, n);
    SkipTo(s, n + 1, Space, n + 1);
    assert s[0..n] == name;
  }

  lemma NamedAfterBlank(name: string, k: Class, end: char)
    requires k != Space && name != "" && AllIn(name, k) && !IsSpace(end)
    ensures Named(name + [' ', end], k, end) == Some(name)
  {
    var s, n := name + [' ', end], |name|;
    NameNotSpace(name, k);
    assert s[0] == name[0];
    SkipTo(s, 0, Space, 0);
    assert forall i :: 0 <= i < n ==> s[i] == name[i];
    SkipTo(s, 0, k, n);
    SkipTo(s, n, Space, n + 1);
    SkipTo(s, n + 2, Space, n + 2);
    assert s[0..n] == name;
  }

  lemma NameNotSpace(name: string, k: Class)
    requires k != Space && AllIn(name, k)
    ensures forall i :: 0 <= i < |name| ==> !IsSpace(name[i]) && name[i] != '}'
  {
  }

  /** The character after the name is another. */
  lemma NotNamed(s: string, k: Class, end: char, n: nat)
    requires k != Space && n < |s| && !IsSpace(s[0])
    requires (forall i :: 0 <= i < n ==> In(s[i], k)) && !In(s[n], k) && !IsSpace(s[n]) && s[n] != end
    ensures Named(s, k, end) == None
  {
    SkipTo(s, 0, Space, 0);
    SkipTo(s, 0, k, n);
    SkipTo(s, n, Space, n);
  }
}
