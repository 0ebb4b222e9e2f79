/** What the linker makes of the version script that is written: its nodes, and the symbols visible in
    them. */
module AbiLinker {
  import opened Wrappers
  import opened AbiMap
  import opened AbiRewrite

  /** A version node: the symbols it lists as global, and whether it makes all others local. */
  datatype Node = Node(name: string, listed: set<string>, hidesRest: bool)

  predicate Visible(node: Node, symbol: string) {
    symbol in node.listed || !node.hidesRest
  }

  /** The nodes read so far, the one being read, and whether its names are global ones, as they are from
      the start. */
  datatype Reading = Reading(nodes: seq<Node>, current: Option<Node>, global: bool)

  const NOTHING := Reading([], None, false)

  /** One line, of those that stand alone on theirs: the start and the end of a node, the label of the
      global symbols, a symbol, and the wildcard behind the label of the local ones. */
  function Link(r: Reading, raw: string): Reading {
    var s := Strip(raw);
    match r.current
    case None =>
      if |s| > 2 && s[|s| - 2..] == " {" then Reading(r.nodes, Some(Node(s[..|s| - 2], {}, false)), true)
      else r
    case Some(node) =>
      if s == "" then r
      else if s[0] == '}' then Reading(r.nodes + [node], None, false)
      else if s == "global:" then r.(global := true)
      else if s == "local: *;" then Reading(r.nodes, Some(node.(hidesRest := true)), false)
      else if s[|s| - 1] == ';' && r.global
      then r.(current := Some(node.(listed := node.listed + {s[..|s| - 1]})))
      else r
  }

  function Linked(r: Reading, lines: seq<string>): Reading {
    if lines == [] then r else Link(Linked(r, lines[..|lines| - 1]), lines[|lines| - 1])
  }

  lemma {:induction false} LinkedAppend(r: Reading, a: seq<string>, b: seq<string>)
    ensures Linked(r, a + b) == Linked(Linked(r, a), b)
  {
    hide Link;
    if b == [] {
      assert a + b == a;
    } else {
      var k := |b| - 1;
      assert (a + b)[..|a| + k] == a + b[..k];
      LinkedAppend(r, a, b[..k]);
    }
  }

  lemma LinkedOne(r: Reading, raw: string)
    ensures Linked(r, [raw]) == Link(r, raw)
  {
    hide Link;
    assert [raw][..0] == [];
    assert Linked(r, []) == r;
  }

  lemma NodesStep(r: Reading, raw: string)
    ensures r.nodes <= Link(r, raw).nodes
  {
    hide Strip;
  }

  /** Nodes that were read stay as they are. */
  lemma {:induction false} NodesStay(r: Reading, lines: seq<string>)
    ensures r.nodes <= Linked(r, lines).nodes
  {
    hide Link;
    if lines != [] {
      var k := |lines| - 1;
      NodesStay(r, lines[..k]);
      NodesStep(Linked(r, lines[..k]), lines[k]);
    }
  }

  lemma HeaderLinked(name: string)
    requires name != "" && !IsSpace(name[0])
    ensures Link(NOTHING, name + " {") == Reading([], Some(Node(name, {}, false)), true)
  {
    hide Strip;
    var s := name + " {";
    assert s[0] == name[0] && s[|s| - 1] == '{' && s[|s| - 2..] == " {" && s[..|s| - 2] == name;
    StripTab(s);
  }

  lemma SymbolLinked(r: Reading, name: string)
    requires r.current.Some? && r.global && IsFunction(name)
    ensures
      Link(r, "\t" + name + ";")
      == r.(current := Some(r.current.value.(listed := r.current.value.listed + {name})))
  {
    hide Strip;
    var s := name + ";";
    NameNotSpace(name, Ident);
    assert s[0] == name[0] && s[|s| - 1] == ';' && s[..|s| - 1] == name;
    assert "\t" + name + ";" == "\t" + s;
    StripTab(s);
    assert "local: *;"[5] == ':';
  }

  lemma {:induction false} SymbolsLinked(r: Reading, names: seq<string>)
    requires r.current.Some? && r.global && AllFunctions(names)
    ensures
      Linked(r, FunctionLines(names))
      == r.(current := Some(r.current.value.(listed := r.current.value.listed + Members(names))))
  {
    hide Link, IsFunction;
    if names == [] {
      assert r.current.value.listed + Members(names) == r.current.value.listed;
    } else {
      var k := |names| - 1;
      SymbolsLinked(r, names[..k]);
      assert FunctionLines(names)[..k] == FunctionLines(names[..k]);
      SymbolLinked(Linked(r, FunctionLines(names[..k])), names[k]);
      var listed := r.current.value.listed;
      assert listed + Members(names) == listed + Members(names[..k]) + {names[k]};
    }
  }

  lemma LabelsLinked(r: Reading)
    requires r.current.Some?
    ensures Link(r, "\tglobal:") == r.(global := true)
    ensures Link(r, "") == r
    ensures Link(r, "\tlocal: *;") == Reading(r.nodes, Some(r.current.value.(hidesRest := true)), false)
    ensures Link(r, "};") == Reading(r.nodes + [r.current.value], None, false)
  {
    hide Strip;
    assert "\tglobal:" == "\t" + "global:" && "\tlocal: *;" == "\t" + "local: *;";
    StripTab("global:");
    StripTab("local: *;");
    StripIndented("");
    StripTab("};");
  }

  /** The stable section is one node, in which exactly the given symbols are visible. */
  lemma StableLinked(major: string, names: seq<string>)
    requires AllFunctions(names)
    ensures
      Linked(NOTHING, StableAbi(major, names))
      == Reading([Node("DPDK_" + major, Members(names), true)], None, false)
  {
    hide Link, Linked, FunctionLines, IsFunction;
    var name := "DPDK_" + major;
    var header := ["DPDK_" + major + " {"];
    var body := if names == [] then [] else ["\tglobal:", ""] + FunctionLines(names) + [""];
    assert name[0] == 'D' && name + " {" == "DPDK_" + major + " {";
    LinkedAppend(NOTHING, header + body, ["\tlocal: *;", "};"]);
    LinkedAppend(NOTHING, header, body);
    LinkedOne(NOTHING, "DPDK_" + major + " {");
    HeaderLinked(name);
    var r := Reading([], Some(Node(name, {}, false)), true);
    BodyLinked(r, names);
    var q := Linked(r, body);
    LabelsLinked(q);
    assert ["\tlocal: *;", "};"] == ["\tlocal: *;"] + ["};"];
    LinkedAppend(q, ["\tlocal: *;"], ["};"]);
    LinkedOne(q, "\tlocal: *;");
    LabelsLinked(Link(q, "\tlocal: *;"));
    LinkedOne(Link(q, "\tlocal: *;"), "};");
  }

  lemma BodyLinked(r: Reading, names: seq<string>)
    requires r.current.Some? && r.current.value.listed == {} && r.global && AllFunctions(names)
    ensures
      Linked(r, if names == [] then [] else ["\tglobal:", ""] + FunctionLines(names) + [""])
      == r.(current := Some(r.current.value.(listed := Members(names))))
  {
    hide Link, FunctionLines, IsFunction;
    if names == [] {
      assert Linked(r, []) == r && Members(names) == {};
    } else {
      hide Linked;
      var start, lines := ["\tglobal:", ""], FunctionLines(names);
      LinkedAppend(r, start + lines, [""]);
      LinkedAppend(r, start, lines);
      assert start == ["\tglobal:"] + [""];
      LinkedAppend(r, ["\tglobal:"], [""]);
      LinkedOne(r, "\tglobal:");
      LabelsLinked(r);
      LinkedOne(r, "");
      SymbolsLinked(r, names);
      assert {} + Members(names) == Members(names);
      LinkedOne(Linked(r, lines), "");
      LabelsLinked(Linked(r, lines));
    }
  }

  /** In the whole file the stable section comes first. */
  lemma GeneratedLinked(major: string, p: Parsed, names: seq<string>)
    requires p.hasStable && AllFunctions(names)
    ensures
      var nodes := Linked(NOTHING, Generated(major, p, names)).nodes;
      nodes != [] && nodes[0] == Node("DPDK_" + major, Members(names), true)
  {
    hide Link, Linked, StableAbi, VerbatimAbi, IsFunction;
    var a := StableAbi(major, names);
    var rest := Generated(major, p, names)[|a|..];
    assert Generated(major, p, names) == a + rest;
    LinkedAppend(NOTHING, a, rest);
    StableLinked(major, names);
    NodesStay(Linked(NOTHING, a), rest);
  }
}
