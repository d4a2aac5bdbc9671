/** `TreeNode.toStringWithIndent` and `FamilyTree.toString`: one line per
    node in preorder, each indented two spaces per generation. `show`
    stands for Java's `toString` of a name, which is not part of this
    model.

    As in `Search`, the recursion goes down the child lists with a depth
    budget `fuel` and says `OutOfFuel` when it would go deeper. The
    rendering visits the whole subtree, so it runs out of every budget
    exactly when a path down from the node comes back to a node it has
    passed (`RenderDivergesOnCycle`, `RenderEndsUnlessCycle`), and
    `|nodes|` generations are always enough (`OutlineEndsWithinRegistrySize`). */
module Render {
  import opened Wrappers
  import opened Arena
  import opened Ancestry
  import Text

  /** One printed line: the node, and how many generations below the
      starting node it sits. */
  datatype Line<T> = Line(depth: nat, name: T)

  /** The lines of a rendering in preorder: the node first, then the lines
      of each child one generation deeper, children in list order. */
  function Outline<T>(nodes: map<T, Node<T>>, n: T, fuel: nat): (r: Fuelled<seq<Line<T>>>)
    requires WellLinked(nodes) && n in nodes
    ensures r.Done? ==> |r.value| >= 1 && r.value[0] == Line(0, n)
    decreases fuel, 1, 0
  {
    match OutlineChildren(nodes, n, 0, fuel)
    case OutOfFuel => OutOfFuel
    case Done(rest) => Done([Line(0, n)] + rest)
  }

  /** The lines of the children of `x` from the `m`-th on, each child's
      lines one generation deeper than its own outline. */
  function OutlineChildren<T>(nodes: map<T, Node<T>>, x: T, m: nat, fuel: nat): (r: Fuelled<seq<Line<T>>>)
    requires WellLinked(nodes) && x in nodes && m <= |nodes[x].children|
    ensures m == |nodes[x].children| ==> r == Done([])
    ensures r.Done? ==> |r.value| >= |nodes[x].children| - m
    decreases fuel, 0, |nodes[x].children| - m
  {
    var kids := nodes[x].children;
    if m == |kids| then Done([])
    else if fuel == 0 then OutOfFuel
    else
      ListedChildLinksBack(nodes, x, kids[m]);
      match Outline(nodes, kids[m], fuel - 1)
      case OutOfFuel => OutOfFuel
      case Done(first) =>
        match OutlineChildren(nodes, x, m + 1, fuel)
        case OutOfFuel => OutOfFuel
        case Done(rest) => Done(Deeper(first) + rest)
  }

  /** The same lines, one generation deeper. */
  function Deeper<T>(ls: seq<Line<T>>): (r: seq<Line<T>>)
    ensures |r| == |ls|
  {
    if ls == [] then [] else [Line(ls[0].depth + 1, ls[0].name)] + Deeper(ls[1..])
  }

  lemma {:induction false} DeeperAt<T>(ls: seq<Line<T>>, i: nat)
    requires i < |ls|
    ensures Deeper(ls)[i] == Line(ls[i].depth + 1, ls[i].name)
  {
    if i > 0 {
      DeeperAt(ls[1..], i - 1);
    }
  }

  function Spaces(k: nat): (r: string)
    ensures |r| == k && forall i :: 0 <= i < k ==> r[i] == ' '
  {
    if k == 0 then [] else [' '] + Spaces(k - 1)
  }

  /** The text of a list of lines: each is `indent`, two spaces per
      generation, the name, and a newline. */
  function Listing<T>(ls: seq<Line<T>>, indent: string, show: T -> string): string {
    if ls == [] then []
    else indent + Spaces(2 * ls[0].depth) + show(ls[0].name) + "\n" + Listing(ls[1..], indent, show)
  }

  /** The listing of a finished outline; a recursion that does not finish
      has no text. */
  function ListingOf<T>(o: Fuelled<seq<Line<T>>>, indent: string, show: T -> string): Fuelled<string> {
    match o
    case OutOfFuel => OutOfFuel
    case Done(ls) => Done(Listing(ls, indent, show))
  }

  /** `toStringWithIndent(indent)`: it prints the outline of `n`, every
      node of the subtree in preorder, indented by `indent` and two spaces
      per generation below `n`. */
  function RenderNode<T>(nodes: map<T, Node<T>>, n: T, indent: string, show: T -> string, fuel: nat): (r: Fuelled<string>)
    requires WellLinked(nodes) && n in nodes
    ensures r == ListingOf(Outline(nodes, n, fuel), indent, show)
    decreases fuel, 1, 0
  {
    match RenderChildren(nodes, n, 0, indent, show, fuel)
    case OutOfFuel => OutOfFuel
    case Done(below) =>
      var rest := OutlineChildren(nodes, n, 0, fuel).value;
      ListingCons(Line(0, n), rest, indent, show);
      assert indent + Spaces(2 * 0) == indent;
      Done(indent + show(n) + "\n" + below)
  }

  /** The loop over the children (lines 58-59) from the `m`-th child of
      `x` on; `indent` is the indentation of `x`, and each child is printed
      with two more spaces. */
  function RenderChildren<T>(nodes: map<T, Node<T>>, x: T, m: nat, indent: string, show: T -> string, fuel: nat): (r: Fuelled<string>)
    requires WellLinked(nodes) && x in nodes && m <= |nodes[x].children|
    ensures r == ListingOf(OutlineChildren(nodes, x, m, fuel), indent, show)
    decreases fuel, 0, |nodes[x].children| - m
  {
    var kids := nodes[x].children;
    if m == |kids| then Done([])
    else if fuel == 0 then OutOfFuel
    else
      ListedChildLinksBack(nodes, x, kids[m]);
      match RenderNode(nodes, kids[m], indent + "  ", show, fuel - 1)
      case OutOfFuel => OutOfFuel
      case Done(first) =>
        match RenderChildren(nodes, x, m + 1, indent, show, fuel)
        case OutOfFuel => OutOfFuel
        case Done(rest) =>
          var lines := Outline(nodes, kids[m], fuel - 1).value;
          var after := OutlineChildren(nodes, x, m + 1, fuel).value;
          ListingDeeper(lines, indent, show);
          ListingAppend(Deeper(lines), after, indent, show);
          Done(first + rest)
  }

  /** `FamilyTree.toString`: a header, then the rendering of the root, or
      Java's "null" for a tree without one. The root is rendered with a
      budget of `|nodes|` generations; when that runs out, no budget is
      enough and the Java recursion never returns. */
  function Show<T>(t: Tree<T>, show: T -> string): (r: Fuelled<string>)
    requires WellLinked(t.nodes)
    requires t.root.Some? ==> t.root.value in t.nodes
    ensures t.root.None? ==> r == Done("Family Tree:\n\nnull")
    ensures t.root.Some? ==> (r.Done? <==> Outline(t.nodes, t.root.value, |t.nodes|).Done?)
    ensures t.root.Some? && r.Done? ==>
      r.value == "Family Tree:\n\n" + Listing(Outline(t.nodes, t.root.value, |t.nodes|).value, "", show)
    ensures t.root.Some? && r.OutOfFuel? ==> forall fuel: nat :: Outline(t.nodes, t.root.value, fuel).OutOfFuel?
  {
    match t.root
    case None => Done("Family Tree:\n\nnull")
    case Some(n) =>
      OutlineNeverEnds(t.nodes, n);
      match RenderNode(t.nodes, n, "", show, |t.nodes|)
      case OutOfFuel => OutOfFuel
      case Done(s) => Done("Family Tree:\n\n" + s)
  }

  lemma {:induction false} ListingAppend<T>(a: seq<Line<T>>, b: seq<Line<T>>, indent: string, show: T -> string)
    ensures Listing(a + b, indent, show) == Listing(a, indent, show) + Listing(b, indent, show)
  {
    if a != [] {
      var head := indent + Spaces(2 * a[0].depth) + show(a[0].name) + "\n";
      assert (a + b)[0] == a[0];
      assert (a + b)[1..] == a[1..] + b;
      ListingAppend(a[1..], b, indent, show);
      assert Listing(a + b, indent, show) == head + Listing(a[1..] + b, indent, show);
      assert Listing(a, indent, show) == head + Listing(a[1..], indent, show);
    } else {
      assert a + b == b;
    }
  }

  lemma {:induction false} ListingDeeper<T>(ls: seq<Line<T>>, indent: string, show: T -> string)
    ensures Listing(Deeper(ls), indent, show) == Listing(ls, indent + "  ", show)
  {
    if ls == [] {
      assert Deeper(ls) == [];
    } else {
      var d := ls[0].depth;
      var x := ls[0].name;
      var tail := Deeper(ls[1..]);
      ListingCons(Line(d + 1, x), tail, indent, show);
      ListingDeeper(ls[1..], indent, show);
      Text.AppendAssoc(indent, "  ", Spaces(2 * d));
      calc {
        Listing(Deeper(ls), indent, show);
        Listing([Line(d + 1, x)] + tail, indent, show);
        indent + Spaces(2 * (d + 1)) + show(x) + "\n" + Listing(tail, indent, show);
        { SpacesStep(d); }
        indent + ("  " + Spaces(2 * d)) + show(x) + "\n" + Listing(ls[1..], indent + "  ", show);
        indent + "  " + Spaces(2 * d) + show(x) + "\n" + Listing(ls[1..], indent + "  ", show);
        Listing(ls, indent + "  ", show);
      }
    }
  }

  lemma ListingCons<T>(l: Line<T>, ls: seq<Line<T>>, indent: string, show: T -> string)
    ensures Listing([l] + ls, indent, show) == indent + Spaces(2 * l.depth) + show(l.name) + "\n" + Listing(ls, indent, show)
  {
    assert ([l] + ls)[0] == l;
    assert ([l] + ls)[1..] == ls;
  }

  lemma SpacesStep(d: nat)
    ensures Spaces(2 * (d + 1)) == "  " + Spaces(2 * d)
  {
  }

  /** A finished outline is the same with any bigger budget. */
  lemma {:induction false} OutlineFuelMonotone<T>(nodes: map<T, Node<T>>, n: T, fuel: nat, more: nat)
    requires WellLinked(nodes) && n in nodes
    requires Outline(nodes, n, fuel).Done? && fuel <= more
    ensures Outline(nodes, n, more) == Outline(nodes, n, fuel)
    decreases fuel, 1, 0
  {
    ChildrenFuelMonotone(nodes, n, 0, fuel, more);
  }

  lemma {:induction false} ChildrenFuelMonotone<T>(nodes: map<T, Node<T>>, x: T, m: nat, fuel: nat, more: nat)
    requires WellLinked(nodes) && x in nodes && m <= |nodes[x].children|
    requires OutlineChildren(nodes, x, m, fuel).Done? && fuel <= more
    ensures OutlineChildren(nodes, x, m, more) == OutlineChildren(nodes, x, m, fuel)
    decreases fuel, 0, |nodes[x].children| - m
  {
    var kids := nodes[x].children;
    if m < |kids| {
      ListedChildLinksBack(nodes, x, kids[m]);
      OutlineFuelMonotone(nodes, kids[m], fuel - 1, more - 1);
      ChildrenFuelMonotone(nodes, x, m + 1, fuel, more);
    }
  }

  /** Every printed line names a node that a path down the child lists
      reaches from `n` in exactly the printed number of generations. */
  lemma {:induction false} OutlineLinePath<T>(nodes: map<T, Node<T>>, n: T, fuel: nat, i: nat) returns (path: seq<T>)
    requires WellLinked(nodes) && n in nodes
    requires Outline(nodes, n, fuel).Done? && i < |Outline(nodes, n, fuel).value|
    ensures DownPath(nodes, path) && path[0] == n
    ensures |path| == Outline(nodes, n, fuel).value[i].depth + 1
    ensures path[|path| - 1] == Outline(nodes, n, fuel).value[i].name
    decreases fuel, 1, 0
  {
    var rest := OutlineChildren(nodes, n, 0, fuel).value;
    if i == 0 {
      path := [n];
    } else {
      assert Outline(nodes, n, fuel).value[i] == rest[i - 1];
      var below := ChildrenLinePath(nodes, n, 0, fuel, i - 1);
      DownPathCons(nodes, n, below);
      path := [n] + below;
    }
  }

  lemma {:induction false} ChildrenLinePath<T>(nodes: map<T, Node<T>>, x: T, m: nat, fuel: nat, i: nat) returns (path: seq<T>)
    requires WellLinked(nodes) && x in nodes && m <= |nodes[x].children|
    requires OutlineChildren(nodes, x, m, fuel).Done? && i < |OutlineChildren(nodes, x, m, fuel).value|
    ensures DownPath(nodes, path) && path[0] in nodes[x].children
    ensures |path| == OutlineChildren(nodes, x, m, fuel).value[i].depth
    ensures path[|path| - 1] == OutlineChildren(nodes, x, m, fuel).value[i].name
    decreases fuel, 0, |nodes[x].children| - m
  {
    var kids := nodes[x].children;
    ListedChildLinksBack(nodes, x, kids[m]);
    var first := Outline(nodes, kids[m], fuel - 1).value;
    var rest := OutlineChildren(nodes, x, m + 1, fuel).value;
    assert OutlineChildren(nodes, x, m, fuel).value == Deeper(first) + rest;
    if i < |first| {
      DeeperAt(first, i);
      path := OutlineLinePath(nodes, kids[m], fuel - 1, i);
    } else {
      path := ChildrenLinePath(nodes, x, m + 1, fuel, i - |first|);
    }
  }

  /** The converse: every node a path down the child lists reaches from
      `n` is printed, at the number of generations the path takes. */
  lemma {:induction false} OutlineHasPath<T>(nodes: map<T, Node<T>>, n: T, fuel: nat, path: seq<T>)
    requires WellLinked(nodes) && n in nodes
    requires Outline(nodes, n, fuel).Done?
    requires DownPath(nodes, path) && path[0] == n
    ensures Line(|path| - 1, path[|path| - 1]) in Outline(nodes, n, fuel).value
    decreases fuel, 1, 0
  {
    var rest := OutlineChildren(nodes, n, 0, fuel).value;
    if |path| == 1 {
      assert Outline(nodes, n, fuel).value[0] == Line(0, n);
    } else {
      DownPathTail(nodes, path);
      var i :| 0 <= i < |nodes[n].children| && nodes[n].children[i] == path[1];
      ChildrenHavePath(nodes, n, 0, fuel, i, path[1..]);
    }
  }

  lemma {:induction false} ChildrenHavePath<T>(nodes: map<T, Node<T>>, x: T, m: nat, fuel: nat, i: nat, path: seq<T>)
    requires WellLinked(nodes) && x in nodes && m <= i < |nodes[x].children|
    requires OutlineChildren(nodes, x, m, fuel).Done?
    requires DownPath(nodes, path) && path[0] == nodes[x].children[i]
    ensures Line(|path|, path[|path| - 1]) in OutlineChildren(nodes, x, m, fuel).value
    decreases fuel, 0, |nodes[x].children| - m
  {
    var kids := nodes[x].children;
    ListedChildLinksBack(nodes, x, kids[m]);
    var first := Outline(nodes, kids[m], fuel - 1).value;
    var rest := OutlineChildren(nodes, x, m + 1, fuel).value;
    assert OutlineChildren(nodes, x, m, fuel).value == Deeper(first) + rest;
    if i == m {
      OutlineHasPath(nodes, kids[m], fuel - 1, path);
      var k :| 0 <= k < |first| && first[k] == Line(|path| - 1, path[|path| - 1]);
      DeeperAt(first, k);
      assert Deeper(first)[k] == Line(|path|, path[|path| - 1]);
    } else {
      ChildrenHavePath(nodes, x, m + 1, fuel, i, path);
    }
  }

  /** An outline that runs out of budget went down a path one longer
      than the budget. */
  lemma {:induction false} OutlineUnfinishedPath<T>(nodes: map<T, Node<T>>, n: T, fuel: nat) returns (path: seq<T>)
    requires WellLinked(nodes) && n in nodes
    requires Outline(nodes, n, fuel) == OutOfFuel
    ensures DownPath(nodes, path) && path[0] == n && |path| == fuel + 2
    decreases fuel, 1, 0
  {
    var below := ChildrenUnfinishedPath(nodes, n, 0, fuel);
    DownPathCons(nodes, n, below);
    path := [n] + below;
  }

  lemma {:induction false} ChildrenUnfinishedPath<T>(nodes: map<T, Node<T>>, x: T, m: nat, fuel: nat) returns (path: seq<T>)
    requires WellLinked(nodes) && x in nodes && m <= |nodes[x].children|
    requires OutlineChildren(nodes, x, m, fuel) == OutOfFuel
    ensures DownPath(nodes, path) && path[0] in nodes[x].children && |path| == fuel + 1
    decreases fuel, 0, |nodes[x].children| - m
  {
    var kids := nodes[x].children;
    ListedChildLinksBack(nodes, x, kids[m]);
    if fuel == 0 {
      path := [kids[m]];
    } else if Outline(nodes, kids[m], fuel - 1) == OutOfFuel {
      path := OutlineUnfinishedPath(nodes, kids[m], fuel - 1);
    } else {
      path := ChildrenUnfinishedPath(nodes, x, m + 1, fuel);
    }
  }

  /** One child that can never finish keeps the loop over the children
      from finishing. */
  lemma {:induction false} ChildrenStuck<T>(nodes: map<T, Node<T>>, x: T, m: nat, i: nat, fuel: nat)
    requires WellLinked(nodes) && x in nodes && m <= i < |nodes[x].children|
    requires fuel > 0 ==> Outline(nodes, nodes[x].children[i], fuel - 1) == OutOfFuel
    ensures OutlineChildren(nodes, x, m, fuel) == OutOfFuel
    decreases i - m
  {
    if fuel > 0 && m < i {
      ListedChildLinksBack(nodes, x, nodes[x].children[m]);
      ChildrenStuck(nodes, x, m + 1, i, fuel);
    }
  }

  /** A path down that comes back to one of its own nodes: the outline of
      any node on it never finishes, whatever the budget. */
  lemma {:induction false} LassoStuck<T>(nodes: map<T, Node<T>>, path: seq<T>, loop: nat, k: nat, fuel: nat)
    requires WellLinked(nodes) && DownPath(nodes, path)
    requires loop < |path| - 1 && path[|path| - 1] == path[loop] && k < |path|
    ensures Outline(nodes, path[k], fuel) == OutOfFuel
    decreases fuel
  {
    var next := if k < |path| - 1 then k + 1 else loop + 1;
    var x := path[k];
    assert StepsDown(nodes, path, if k < |path| - 1 then k else loop);
    var i :| 0 <= i < |nodes[x].children| && nodes[x].children[i] == path[next];
    if fuel > 0 {
      LassoStuck(nodes, path, loop, next, fuel - 1);
    }
    ChildrenStuck(nodes, x, 0, i, fuel);
  }

  /** A path down from `n` that visits some node twice: rendering `n`
      never finishes, whatever the budget. */
  lemma RenderDivergesOnCycle<T>(nodes: map<T, Node<T>>, path: seq<T>, i: nat, j: nat, fuel: nat)
    requires WellLinked(nodes) && DownPath(nodes, path)
    requires i < j < |path| && path[i] == path[j]
    ensures Outline(nodes, path[0], fuel) == OutOfFuel
  {
    DownPathSlice(nodes, path, 0, j + 1);
    LassoStuck(nodes, path[..j + 1], i, 0, fuel);
  }

  /** The rendering of `n` runs out of a budget of `|nodes|` generations
      only when some path down from `n` visits a node twice. */
  lemma RenderEndsUnlessCycle<T>(nodes: map<T, Node<T>>, n: T) returns (path: seq<T>, i: nat, j: nat)
    requires WellLinked(nodes) && n in nodes
    requires Outline(nodes, n, |nodes|) == OutOfFuel
    ensures DownPath(nodes, path) && path[0] == n
    ensures i < j < |path| && path[i] == path[j]
  {
    path := OutlineUnfinishedPath(nodes, n, |nodes|);
    i, j := LongPathRepeats(nodes, path);
  }

  /** `|nodes|` generations are always enough: an outline that finishes
      with some budget finishes with that one, with the same lines. */
  lemma OutlineEndsWithinRegistrySize<T>(nodes: map<T, Node<T>>, n: T, fuel: nat)
    requires WellLinked(nodes) && n in nodes
    requires Outline(nodes, n, fuel).Done?
    ensures Outline(nodes, n, |nodes|) == Outline(nodes, n, fuel)
  {
    if Outline(nodes, n, |nodes|) == OutOfFuel {
      var path, i, j := RenderEndsUnlessCycle(nodes, n);
      RenderDivergesOnCycle(nodes, path, i, j, fuel);
      assert false;
    }
    if |nodes| <= fuel {
      OutlineFuelMonotone(nodes, n, |nodes|, fuel);
    } else {
      OutlineFuelMonotone(nodes, n, fuel, |nodes|);
    }
  }

  lemma OutlineNeverEnds<T>(nodes: map<T, Node<T>>, n: T)
    requires WellLinked(nodes) && n in nodes
    ensures Outline(nodes, n, |nodes|).OutOfFuel? ==> forall fuel: nat :: Outline(nodes, n, fuel).OutOfFuel?
  {
    forall fuel: nat | Outline(nodes, n, |nodes|).OutOfFuel?
      ensures Outline(nodes, n, fuel).OutOfFuel?
    {
      if Outline(nodes, n, fuel).Done? {
        OutlineEndsWithinRegistrySize(nodes, n, fuel);
      }
    }
  }

  /** When the walk up from `n` ends, the rendering of `n` finishes within
      `|nodes|` generations. */
  lemma OutlineFinishesWhenWalkEnds<T>(nodes: map<T, Node<T>>, n: T)
    requires WellLinked(nodes) && n in nodes && Terminates(nodes, n)
    ensures Outline(nodes, n, |nodes|).Done?
  {
    if Outline(nodes, n, |nodes|) == OutOfFuel {
      var path := OutlineUnfinishedPath(nodes, n, |nodes|);
      DownPathClimbs(nodes, path);
      assert false;
    }
  }

  /** Line `l` names a node whose chain passes through `n` exactly
      `l.depth` generations up: a descendant at that depth. */
  ghost predicate Below<T>(nodes: map<T, Node<T>>, n: T, l: Line<T>)
    requires Terminates(nodes, n)
  {
    && Terminates(nodes, l.name)
    && n in AncestorsOf(nodes, l.name)
    && |AncestorsOf(nodes, l.name)| == |AncestorsOf(nodes, n)| + l.depth
  }

  /** When the walk up from `n` ends, every printed line names a descendant
      of `n`, at exactly the printed number of generations below it. */
  lemma OutlineBelow<T>(nodes: map<T, Node<T>>, n: T, fuel: nat, i: nat)
    requires WellLinked(nodes) && n in nodes && Terminates(nodes, n)
    requires Outline(nodes, n, fuel).Done? && i < |Outline(nodes, n, fuel).value|
    ensures Below(nodes, n, Outline(nodes, n, fuel).value[i])
  {
    var path := OutlineLinePath(nodes, n, fuel, i);
    DownPathClimbs(nodes, path);
    var c := AncestorsOf(nodes, path[|path| - 1]);
    assert c[|path| - 1] == n;
  }
}
