/** A registry that the builder accepts from the lines `R:X`, `A:B`, `B:A`
    and `B:R` when the scan order lists `R` first: `B` and `A` are each
    other's parent, and `B` is also the parent of the root `R`. The walk up
    from the root never ends, yet the rendering of the tree and a search
    from `A` both finish, because the recursion goes down the child lists
    and the root's subtree is only `R` and `X`. */
module Scenario {
  import opened Wrappers
  import opened Arena
  import opened Ancestry
  import opened Text
  import opened Builder
  import opened Search
  import opened Render

  function CycleAboveRoot(): map<string, Node<string>> {
    map[
      "R" := Node(Some("B"), ["X"]),
      "X" := Node(Some("R"), []),
      "A" := Node(Some("B"), ["B"]),
      "B" := Node(Some("A"), ["A", "R"])
    ]
  }

  /** A registry iteration order that lists `R` first; the scan passes
      over names that are not registered yet. */
  function Scan(m: map<string, Node<string>>): seq<string> {
    ["R", "X", "A", "B"]
  }

  /** The default converter, and Java's `toString` of a `String` name:
      both are the identity. */
  function Name(s: string): string {
    s
  }

  function AfterRX(): map<string, Node<string>> {
    map["R" := Node(None, ["X"]), "X" := Node(Some("R"), [])]
  }

  function AfterAB(): map<string, Node<string>> {
    map[
      "R" := Node(None, ["X"]),
      "X" := Node(Some("R"), []),
      "A" := Node(None, ["B"]),
      "B" := Node(Some("A"), [])
    ]
  }

  function AfterBA(): map<string, Node<string>> {
    map[
      "R" := Node(None, ["X"]),
      "X" := Node(Some("R"), []),
      "A" := Node(Some("B"), ["B"]),
      "B" := Node(Some("A"), ["A"])
    ]
  }

  /** A one-character name that is not blank is its own trimmed text. */
  lemma TrimOne(s: string)
    requires |s| == 1 && !IsBlank(s[0])
    ensures Trim(s) == s
  {
    assert TrimLeft(s) == s;
    assert TrimRight(s) == s;
  }

  lemma SplitOne(b: string)
    requires |b| == 1 && b[0] != ','
    ensures Split(b, ',') == [b]
  {
    assert IndexOf(b[1..], ',') == -1;
    assert IndexOf(b, ',') == -1;
  }

  /** A line `a:b` of two one-character names reads as parent `a` with the
      single child token `b`. */
  lemma ParseSimple(a: string, b: string)
    requires |a| == 1 && !IsBlank(a[0]) && a[0] != '#' && a[0] != ':'
    requires |b| == 1 && !IsBlank(b[0]) && b[0] != ':' && b[0] != ','
    ensures Parse(a + ":" + b) == Entry(a, [b])
  {
    var line := a + ":" + b;
    assert line[..1] == a && line[2..] == b;
    assert FirstColonAt(line, 1);
    ParseAtColon(line, 1);
    TrimOne(a);
    SplitOne(b);
  }

  /** Linking a single child token `b` under `p`, when `b` may be adopted. */
  lemma LinkSimple(nodes: map<string, Node<string>>, p: string, b: string)
    requires p in nodes && |b| == 1 && !IsBlank(b[0])
    requires b !in nodes || nodes[b].parent.None? || nodes[b].parent == Some(p)
    ensures LinkChildren(nodes, p, [b], Name) == Linked(AddChild(Register(nodes, b), p, b))
  {
    TrimOne(b);
    assert [b][0] == b && [b][1..] == [];
    var linked := AddChild(Register(nodes, b), p, b);
    assert LinkChildren(linked, p, [], Name) == Linked(linked);
  }

  /** The four lines, each spelled as parent, colon, child. These literal
      equalities are lemmas of their own so that the solver proves them
      without the parser's definitions in view: proved inside the lemmas
      that read a line, they make the solver unfold the parser on the
      literal text. */
  lemma SpellRX()
    ensures "R" + ":" + "X" == "R:X"
  {
  }

  lemma SpellAB()
    ensures "A" + ":" + "B" == "A:B"
  {
  }

  lemma SpellBA()
    ensures "B" + ":" + "A" == "B:A"
  {
  }

  lemma SpellBR()
    ensures "B" + ":" + "R" == "B:R"
  {
  }

  /** An accepted line `a:b` of two one-character names, from its three
      steps: parse, link, rescan. */
  lemma Reads(t: Tree<string>, line: string, a: string, b: string, nodes: map<string, Node<string>>, root: Option<string>)
    requires |a| == 1 && !IsBlank(a[0]) && a[0] != '#' && a[0] != ':'
    requires |b| == 1 && !IsBlank(b[0]) && b[0] != ':' && b[0] != ','
    requires line == a + ":" + b
    requires LinkChildren(RegisterParent(t, a).nodes, a, [b], Name) == Linked(nodes)
    requires RecomputeRoot(nodes, RegisterParent(t, a).root, Scan(nodes)) == root
    ensures AddLine(t, line, Name, Scan) == Ok(Tree(nodes, root))
  {
    ParseSimple(a, b);
    ReadsParsed(t, line, a, [b], nodes, root);
  }

  lemma ReadsParsed(t: Tree<string>, line: string, parent: string, tokens: seq<string>, nodes: map<string, Node<string>>, root: Option<string>)
    requires Parse(line) == Entry(parent, tokens)
    requires LinkChildren(RegisterParent(t, parent).nodes, parent, tokens, Name) == Linked(nodes)
    requires RecomputeRoot(nodes, RegisterParent(t, parent).root, Scan(nodes)) == root
    ensures AddLine(t, line, Name, Scan) == Ok(Tree(nodes, root))
  {
    EntrySteps(t, line, Name, Scan);
  }

  lemma LinkRX()
    ensures LinkChildren(map["R" := Node(None, [])], "R", ["X"], Name) == Linked(AfterRX())
  {
    var start := map["R" := Node(None, [])];
    LinkSimple(start, "R", "X");
    var linked := AddChild(Register(start, "X"), "R", "X");
    assert linked.Keys == AfterRX().Keys;
    assert [] + ["X"] == ["X"];
    assert linked["R"] == AfterRX()["R"] && linked["X"] == AfterRX()["X"];
  }

  lemma StartRX()
    ensures RegisterParent(Empty(), "R") == Tree(map["R" := Node(None, [])], Some("R"))
  {
  }

  lemma RootRX()
    ensures RecomputeRoot(AfterRX(), Some("R"), Scan(AfterRX())) == Some("R")
  {
  }

  lemma ReadRX()
    ensures AddLine(Empty(), "R:X", Name, Scan) == Ok(Tree(AfterRX(), Some("R")))
  {
    StartRX();
    LinkRX();
    RootRX();
    SpellRX();
    Reads(Empty(), "R:X", "R", "X", AfterRX(), Some("R"));
  }

  lemma LinkAB()
    ensures LinkChildren(AfterRX()["A" := Node(None, [])], "A", ["B"], Name) == Linked(AfterAB())
  {
    var start := AfterRX()["A" := Node(None, [])];
    LinkSimple(start, "A", "B");
    var linked := AddChild(Register(start, "B"), "A", "B");
    assert linked.Keys == AfterAB().Keys;
    assert [] + ["B"] == ["B"];
    assert linked["R"] == AfterAB()["R"] && linked["X"] == AfterAB()["X"];
    assert linked["A"] == AfterAB()["A"] && linked["B"] == AfterAB()["B"];
  }

  lemma StartAB()
    ensures RegisterParent(Tree(AfterRX(), Some("R")), "A") == Tree(AfterRX()["A" := Node(None, [])], Some("R"))
  {
  }

  lemma RootAB()
    ensures RecomputeRoot(AfterAB(), Some("R"), Scan(AfterAB())) == Some("R")
  {
  }

  lemma ReadAB()
    ensures AddLine(Tree(AfterRX(), Some("R")), "A:B", Name, Scan) == Ok(Tree(AfterAB(), Some("R")))
  {
    StartAB();
    LinkAB();
    RootAB();
    SpellAB();
    Reads(Tree(AfterRX(), Some("R")), "A:B", "A", "B", AfterAB(), Some("R"));
  }

  lemma LinkBA()
    ensures LinkChildren(AfterAB(), "B", ["A"], Name) == Linked(AfterBA())
  {
    LinkSimple(AfterAB(), "B", "A");
    var linked := AddChild(Register(AfterAB(), "A"), "B", "A");
    assert linked.Keys == AfterBA().Keys;
    assert [] + ["A"] == ["A"];
    assert linked["R"] == AfterBA()["R"] && linked["X"] == AfterBA()["X"];
    assert linked["A"] == AfterBA()["A"] && linked["B"] == AfterBA()["B"];
  }

  lemma StartBA()
    ensures RegisterParent(Tree(AfterAB(), Some("R")), "B") == Tree(AfterAB(), Some("R"))
  {
  }

  lemma RootBA()
    ensures RecomputeRoot(AfterBA(), Some("R"), Scan(AfterBA())) == Some("R")
  {
  }

  lemma ReadBA()
    ensures AddLine(Tree(AfterAB(), Some("R")), "B:A", Name, Scan) == Ok(Tree(AfterBA(), Some("R")))
  {
    StartBA();
    LinkBA();
    RootBA();
    SpellBA();
    Reads(Tree(AfterAB(), Some("R")), "B:A", "B", "A", AfterBA(), Some("R"));
  }

  lemma LinkBR()
    ensures LinkChildren(AfterBA(), "B", ["R"], Name) == Linked(CycleAboveRoot())
  {
    LinkSimple(AfterBA(), "B", "R");
    var linked := AddChild(Register(AfterBA(), "R"), "B", "R");
    var fin := CycleAboveRoot();
    assert linked.Keys == fin.Keys;
    assert ["A"] + ["R"] == ["A", "R"];
    assert linked["R"] == fin["R"] && linked["X"] == fin["X"];
    assert linked["A"] == fin["A"] && linked["B"] == fin["B"];
  }

  lemma StartBR()
    ensures RegisterParent(Tree(AfterBA(), Some("R")), "B") == Tree(AfterBA(), Some("R"))
  {
  }

  lemma RootBR()
    ensures RecomputeRoot(CycleAboveRoot(), Some("R"), Scan(CycleAboveRoot())) == Some("R")
  {
  }

  lemma ReadBR()
    ensures AddLine(Tree(AfterBA(), Some("R")), "B:R", Name, Scan) == Ok(Tree(CycleAboveRoot(), Some("R")))
  {
    StartBR();
    LinkBR();
    RootBR();
    SpellBR();
    Reads(Tree(AfterBA(), Some("R")), "B:R", "B", "R", CycleAboveRoot(), Some("R"));
  }

  /** The constructor's loop after one accepted line. */
  lemma ReadsFirst(t: Tree<string>, first: string, rest: seq<string>, next: Tree<string>)
    requires AddLine(t, first, Name, Scan) == Ok(next)
    ensures AddLines(t, [first] + rest, Name, Scan) == AddLines(next, rest, Name, Scan)
  {
    assert ([first] + rest)[0] == first && ([first] + rest)[1..] == rest;
  }

  /** Splitting the first line off a literal list of lines, kept apart
      from the lemmas about the read loop for the same reason as the
      spellings above. */
  lemma PrependToThree(a: string, b: string, c: string, d: string)
    ensures [a] + [b, c, d] == [a, b, c, d]
  {
  }

  lemma PrependToTwo(a: string, b: string, c: string)
    ensures [a] + [b, c] == [a, b, c]
  {
  }

  lemma PrependToOne(a: string, b: string)
    ensures [a] + [b] == [a, b]
  {
  }

  lemma PrependToNone(a: string)
    ensures [a] + [] == [a]
  {
  }

  lemma FirstTwoLines()
    ensures AddLines(Empty(), ["R:X", "A:B", "B:A", "B:R"], Name, Scan)
         == AddLines(Tree(AfterAB(), Some("R")), ["B:A", "B:R"], Name, Scan)
  {
    ReadRX();
    ReadAB();
    ReadsFirst(Tree(AfterRX(), Some("R")), "A:B", ["B:A", "B:R"], Tree(AfterAB(), Some("R")));
    PrependToTwo("A:B", "B:A", "B:R");
    ReadsFirst(Empty(), "R:X", ["A:B", "B:A", "B:R"], Tree(AfterRX(), Some("R")));
    PrependToThree("R:X", "A:B", "B:A", "B:R");
  }

  lemma LastTwoLines()
    ensures AddLines(Tree(AfterAB(), Some("R")), ["B:A", "B:R"], Name, Scan) == Ok(Tree(CycleAboveRoot(), Some("R")))
  {
    ReadBA();
    ReadBR();
    ReadsFirst(Tree(AfterBA(), Some("R")), "B:R", [], Tree(CycleAboveRoot(), Some("R")));
    PrependToNone("B:R");
    ReadsFirst(Tree(AfterAB(), Some("R")), "B:A", ["B:R"], Tree(AfterBA(), Some("R")));
    PrependToOne("B:A", "B:R");
  }

  /** The constructor's loop accepts the four lines and builds the
      registry above, with `R` as the root. */
  lemma BuiltFromLines()
    ensures AddLines(Empty(), ["R:X", "A:B", "B:A", "B:R"], Name, Scan) == Ok(Tree(CycleAboveRoot(), Some("R")))
  {
    FirstTwoLines();
    LastTwoLines();
  }

  lemma CycleAboveRootLinked()
    ensures WellLinked(CycleAboveRoot())
    ensures |CycleAboveRoot()| == 4
  {
    var nodes := CycleAboveRoot();
    assert nodes.Keys == {"R", "X", "A", "B"};
    forall p, c | p in nodes && c in nodes[p].children
      ensures c in nodes && nodes[c].parent == Some(p)
    {
      assert p == "R" || p == "A" || p == "B";
    }
    forall c | c in nodes && nodes[c].parent.Some?
      ensures nodes[c].parent.value in nodes && c in nodes[nodes[c].parent.value].children
    {
      assert c == "R" || c == "X" || c == "A" || c == "B";
    }
  }

  /** The walk up from the root goes round `B`, `A`, `B`, ... */
  lemma RootWalkNeverEnds()
    ensures !Terminates(CycleAboveRoot(), "R")
  {
    var nodes := CycleAboveRoot();
    CycleAboveRootLinked();
    assert Walk(nodes, "A", 0) == None;
    assert Walk(nodes, "B", 1) == None;
    assert Walk(nodes, "A", 2) == None;
    assert Walk(nodes, "B", 3) == None;
  }

  lemma RenderX()
    ensures WellLinked(CycleAboveRoot())
    ensures RenderNode(CycleAboveRoot(), "X", "  ", Name, 3) == Done("  X\n")
  {
    CycleAboveRootLinked();
    assert RenderChildren(CycleAboveRoot(), "X", 0, "  ", Name, 3) == Done([]);
    assert "  " + Name("X") + "\n" + [] == "  X\n";
  }

  lemma RenderChildrenOfR()
    ensures WellLinked(CycleAboveRoot())
    ensures RenderChildren(CycleAboveRoot(), "R", 0, "", Name, 4) == Done("  X\n")
  {
    var nodes := CycleAboveRoot();
    RenderX();
    assert RenderChildren(nodes, "R", 1, "", Name, 4) == Done([]);
    assert "" + "  " == "  ";
    assert "  X\n" + [] == "  X\n";
  }

  lemma RenderR()
    ensures WellLinked(CycleAboveRoot())
    ensures RenderNode(CycleAboveRoot(), "R", "", Name, 4) == Done("R\n  X\n")
  {
    RenderChildrenOfR();
    assert "" + Name("R") + "\n" + "  X\n" == "R\n  X\n";
  }

  /** Java prints the root's subtree, `R` and then `X`. */
  lemma RootShows()
    ensures WellLinked(CycleAboveRoot()) && |CycleAboveRoot()| == 4
    ensures Show(Tree(CycleAboveRoot(), Some("R")), Name) == Done("Family Tree:\n\nR\n  X\n")
  {
    CycleAboveRootLinked();
    RenderR();
    assert "Family Tree:\n\n" + "R\n  X\n" == "Family Tree:\n\nR\n  X\n";
  }

  /** The search from `A` finds `B` among its children. */
  lemma SearchFromA()
    ensures WellLinked(CycleAboveRoot()) && |CycleAboveRoot()| == 4
    ensures FindInSubtree(CycleAboveRoot(), "A", "B", 4) == Done(Some("B"))
  {
    var nodes := CycleAboveRoot();
    CycleAboveRootLinked();
    assert FindInSubtree(nodes, "B", "B", 3) == Done(Some("B"));
    assert FindAmongChildren(nodes, "A", "B", 0, 4) == Done(Some("B"));
  }

  /** From `A` the child lists go round `A`, `B`, `A`: rendering `A` never
      finishes, whatever the budget. */
  lemma RenderFromACycles(fuel: nat)
    ensures WellLinked(CycleAboveRoot()) && |CycleAboveRoot()| == 4
    ensures Outline(CycleAboveRoot(), "A", fuel) == OutOfFuel
  {
    var nodes := CycleAboveRoot();
    CycleAboveRootLinked();
    var path := ["A", "B", "A"];
    assert StepsDown(nodes, path, 0) && StepsDown(nodes, path, 1);
    assert DownPath(nodes, path);
    RenderDivergesOnCycle(nodes, path, 0, 2, fuel);
  }
}
