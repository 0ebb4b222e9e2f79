/** The version script itself: the loops of its parser and its writers. */
module AbiScript {
  import opened Wrappers
  import opened AbiMap
  import opened AbiRewrite
  import opened AbiLinker

  /** __parse_map_file */
  method ParseMapFile(lines: seq<string>)
    returns (hasStable: bool, stable: set<string>, experimental: seq<string>, internals: seq<string>)
    ensures
      var p := Parse(START, lines);
      && hasStable == p.hasStable && stable == p.stable
      && experimental == p.experimental && internals == p.internals
  {
    hide IsEnd, Named, Strip;
    hasStable, stable, experimental, internals := false, {}, [], [];
    var inExperimental, inInternal := false, false;
    for i := 0 to |lines|
      invariant
        Parse(START, lines[..i])
        == Parsed(hasStable, stable, experimental, internals, inExperimental, inInternal)
    {
      assert lines[..i + 1][..i] == lines[..i];
      var line := Strip(lines[i]);
      if IsEnd(line) {
        inExperimental, inInternal := false, false;
        continue;
      }
      if inExperimental {
        experimental := experimental + [line];
        continue;
      }
      if inInternal {
        internals := internals + [line];
        continue;
      }
      if line == "" {
        continue;
      }
      var section := SectionName(line);
      if section.Some? {
        inExperimental := section.value == "EXPERIMENTAL";
        inInternal := section.value == "INTERNAL";
        if !inExperimental && !inInternal {
          hasStable := true;
        }
        continue;
      }
      var function_ := FunctionName(line);
      if function_.Some? {
        stable := stable + {function_.value};
      }
    }
    assert lines[..|lines|] == lines;
  }

  // ------------------------------------------------------------------ sorted

  function InsertSorted(names: seq<string>, n: string): seq<string> {
    if names == [] || Before(n, names[0]) then [n] + names
    else [names[0]] + InsertSorted(names[1..], n)
  }

  lemma {:induction false} InsertKeepsSorted(names: seq<string>, n: string)
    requires Ascending(names) && n !in Members(names)
    ensures IsSorted(InsertSorted(names, n), Members(names) + {n})
  {
    hide Before;
    if names == [] || Before(n, names[0]) {
      forall i | 0 <= i < |names|
        ensures Before(n, names[i])
      {
        if i > 0 {
          BeforeOrder(n, names[0], names[i]);
        }
      }
      assert Members([n] + names) == Members(names) + {n};
    } else {
      BeforeOrder(names[0], n, n);
      assert names[0] in Members(names);
      MembersOfTail(names);
      InsertKeepsSorted(names[1..], n);
      var r := InsertSorted(names[1..], n);
      forall i | 0 <= i < |r|
        ensures Before(names[0], r[i])
      {
        assert r[i] in Members(r);
        if r[i] != n {
          var j :| 0 <= j < |names[1..]| && names[1..][j] == r[i];
          assert Before(names[0], names[j + 1]);
        }
      }
      assert Members([names[0]] + r) == {names[0]} + Members(r);
    }
  }

  /** `sorted(lines)` */
  method Sorted(lines: set<string>) returns (names: seq<string>)
    ensures IsSorted(names, lines)
  {
    hide Before, Ascending;
    names := [];
    var rest := lines;
    EmptySorted();
    while rest != {}
      invariant rest <= lines && IsSorted(names, lines - rest)
      decreases rest
    {
      var n :| n in rest;
      InsertKeepsSorted(names, n);
      names := InsertSorted(names, n);
      rest := rest - {n};
      assert lines - rest == (lines - rest - {n}) + {n};
    }
    assert lines - rest == lines;
  }

  lemma EmptySorted()
    ensures IsSorted([], {})
  {
  }

  // ------------------------------------------------------------------ writers

  /** __generate_stable_abi */
  method GenerateStable(out: seq<string>, major: string, names: seq<string>) returns (text: seq<string>)
    ensures text == out + StableAbi(major, names)
  {
    text := out + ["DPDK_" + major + " {"];
    if names != [] {
      text := text + ["\tglobal:"];
      text := text + [""];
      ghost var start := text;
      for i := 0 to |names|
        invariant text == start + FunctionLines(names)[..i]
      {
        text := text + ["\t" + names[i] + ";"];
      }
      text := text + [""];
    }
    text := text + ["\tlocal: *;"];
    text := text + ["};"];
  }

  /** __generate_experimental_abi and __generate_internal_abi */
  method GenerateVerbatim(out: seq<string>, name: string, lines: seq<string>) returns (text: seq<string>)
    ensures text == out + VerbatimAbi(name, lines)
  {
    text := out + [name + " {"];
    ghost var start := text;
    for i := 0 to |lines|
      invariant text == start + Indented(lines)[..i]
    {
      if lines[i] == "" {
        text := text + [""];
      } else {
        text := text + ["\t" + lines[i]];
      }
    }
    text := text + ["};"];
  }

  /** The end of __main: the file is read, and written again; `names` are the sorted functions.  If there
      is a stable section, the linker reads one node of the new version first, in which exactly the
      functions collected are visible. */
  method Rewrite(lines: seq<string>, major: string) returns (text: seq<string>, names: seq<string>)
    ensures IsSorted(names, Parse(START, lines).stable)
    ensures text == Generated(major, Parse(START, lines), names)
    ensures Parse(START, lines).hasStable ==>
      var nodes := Linked(NOTHING, text).nodes;
      && nodes != [] && nodes[0].name == "DPDK_" + major
      && forall symbol :: Visible(nodes[0], symbol) <==> symbol in Parse(START, lines).stable
  {
    hide Parse, StableAbi, VerbatimAbi, IsSorted, Linked;
    var hasStable, stable, experimental, internals := ParseMapFile(lines);
    text := [];
    names := Sorted(stable);
    var needNewline := hasStable && experimental != [];
    if hasStable {
      text := GenerateStable(text, major, names);
    }
    if needNewline {
      text := text + [""];
    }
    if experimental != [] {
      text := GenerateVerbatim(text, "EXPERIMENTAL", experimental);
    }
    if internals != [] {
      if hasStable || experimental != [] {
        text := text + [""];
      }
      text := GenerateVerbatim(text, "INTERNAL", internals);
    }
    NamesLinked(lines, major, names);
  }

  lemma NamesLinked(lines: seq<string>, major: string, names: seq<string>)
    requires IsSorted(names, Parse(START, lines).stable)
    ensures
      var p := Parse(START, lines);
      p.hasStable ==>
      var nodes := Linked(NOTHING, Generated(major, p, names)).nodes;
      nodes != [] && nodes[0] == Node("DPDK_" + major, p.stable, true)
  {
    hide Parse, Generated, Linked, IsFunction, IsBody;
    var p := Parse(START, lines);
    ParseClean(lines);
    forall i | 0 <= i < |names|
      ensures IsFunction(names[i])
    {
      assert names[i] in Members(names);
    }
    if p.hasStable {
      GeneratedLinked(major, p, names);
    }
  }

  /** Running the script on its own output changes nothing exactly if there was no stable section or
      the ABI number is in ASCII digits. */
  method RewriteTwice(lines: seq<string>, major: string) returns (once: seq<string>, twice: seq<string>)
    requires IsMajor(major)
    ensures once == twice <==> !Parse(START, lines).hasStable || IsAscii(major)
  {
    hide Parse, Generated, IsSorted;
    var names, again;
    once, names := Rewrite(lines, major);
    twice, again := Rewrite(once, major);
    RewriteIsIdempotent(major, lines, names, again);
  }
}
