/** `FamilyTree.addLine`: one `parent:child1,child2,...` line read into the
    registry. The Java method mutates the tree as it goes and throws on the
    first problem; here it is a pure function that returns the new tree and,
    on failure, the error together with whatever the line had already
    committed (there is no rollback). */
module Builder {
  import opened Wrappers
  import opened Text
  import opened Arena
  import Ancestry

  /** Which of the two syntax checks rejected a line. */
  datatype Syntax = NoColonOrNoChildren | EmptyParentName

  /** The `TreeException`s `addLine` throws: a malformed line (carrying the
      line), or a child that already has a different parent (carrying the
      child's text and the existing parent's name). */
  datatype LineError<T> =
    | Malformed(kind: Syntax, line: string)
    | ConflictingParent(child: string, existing: T)

  /** The syntactic reading of a line. */
  datatype Parsed = Blank | Rejected(kind: Syntax) | Entry(parentText: string, kidTokens: seq<string>)

  /** The state after a line: accepted, or rejected with the partial state. */
  datatype Applied<T(==)> = Ok(tree: Tree<T>) | Fail(error: LineError<T>, tree: Tree<T>)

  /** The outcome of linking a line's children. */
  datatype Linking<T> = Linked(nodes: map<T, Node<T>>) | Conflict(error: LineError<T>, nodes: map<T, Node<T>>)

  /** Blank and comment lines. The test is made on the untrimmed line, so a
      line of spaces, or an indented `#`, is not skipped. */
  predicate IsSkipped(line: string) {
    line == [] || line[0] == '#'
  }

  /** Position `i` holds the first colon of `line`. */
  ghost predicate FirstColonAt(line: string, i: int) {
    0 <= i < |line| && line[i] == ':' && ':' !in line[..i]
  }

  lemma FirstColonUnique(line: string, i: int, j: int)
    requires FirstColonAt(line, i) && FirstColonAt(line, j)
    ensures i == j
  {
    NoColonBefore(line, i);
    NoColonBefore(line, j);
  }

  lemma NoColonBefore(line: string, i: int)
    requires FirstColonAt(line, i)
    ensures forall k :: 0 <= k < i ==> line[k] != ':'
  {
    forall k | 0 <= k < i
      ensures line[k] != ':'
    {
      assert line[..i][k] == line[k];
    }
  }

  /** The syntax checks of `addLine`, in the Java order: skip, then the
      colon checks, then the empty parent name. The rules themselves are
      stated by `ColonRule`, `ParseAtColon` and `ParseFormatted`. */
  function Parse(line: string): (r: Parsed)
    ensures r.Blank? <==> IsSkipped(line)
    ensures r.Entry? ==> r.parentText != [] && |r.kidTokens| >= 1
  {
    if IsSkipped(line) then Blank
    else
      var colon := IndexOf(line, ':');
      if colon <= 0 || colon == |line| - 1 then Rejected(NoColonOrNoChildren)
      else
        var parentText := Trim(line[..colon]);
        if parentText == [] then Rejected(EmptyParentName)
        else Entry(parentText, Split(line[colon + 1..], ','))
  }

  /** A line that is not skipped is rejected as malformed exactly when it
      has no colon, or its first colon is its first or its last character. */
  lemma ColonRule(line: string)
    requires !IsSkipped(line)
    ensures Parse(line) == Rejected(NoColonOrNoChildren) <==>
      ':' !in line || line[0] == ':' || FirstColonAt(line, |line| - 1)
  {
    var colon := IndexOf(line, ':');
    if colon >= 0 {
      assert FirstColonAt(line, colon);
      if FirstColonAt(line, |line| - 1) {
        FirstColonUnique(line, colon, |line| - 1);
      }
    }
  }

  /** A line whose first colon sits strictly inside it is rejected when the
      text before the colon is all blanks; otherwise the parent is that text
      trimmed and the child tokens are the text after the colon cut at every
      comma. */
  lemma ParseAtColon(line: string, i: int)
    requires !IsSkipped(line)
    requires 0 < i < |line| - 1 && FirstColonAt(line, i)
    ensures Parse(line) == Rejected(EmptyParentName) <==> AllBlank(line[..i])
    ensures !AllBlank(line[..i]) ==> Parse(line) == Entry(Trim(line[..i]), Split(line[i + 1..], ','))
  {
    FirstColonUnique(line, i, IndexOf(line, ':'));
  }

  /** Round trip: a parent text and separator-free child pieces written out
      as `parent:child1,child2,...` read back as exactly those pieces. */
  lemma ParseFormatted(parent: string, kids: seq<string>)
    requires parent != [] && parent[0] != '#' && ':' !in parent && !AllBlank(parent)
    requires |kids| >= 1 && Join(kids, ',') != []
    requires forall i :: 0 <= i < |kids| ==> ',' !in kids[i]
    ensures Parse(parent + [':'] + Join(kids, ',')) == Entry(Trim(parent), kids)
  {
    var line := parent + [':'] + Join(kids, ',');
    var i := |parent|;
    assert line[..i] == parent;
    assert line[i + 1..] == Join(kids, ',');
    assert FirstColonAt(line, i);
    ParseAtColon(line, i);
    SplitJoin(kids, ',');
  }

  /** The converted names of the non-blank child tokens, left to right. */
  function ChildNames<T>(tokens: seq<string>, conv: string -> T): seq<T> {
    if tokens == [] then []
    else
      var name := Trim(tokens[0]);
      (if name == [] then [] else [conv(name)]) + ChildNames(tokens[1..], conv)
  }

  /** `c` may be linked under `p`: it is new, parentless, or already `p`'s. */
  ghost predicate MayAdopt<T>(nodes: map<T, Node<T>>, p: T, c: T) {
    c !in nodes || nodes[c].parent == None || nodes[c].parent == Some(p)
  }

  /** Every name in `names` may be linked under `p`. */
  ghost predicate AllAdoptable<T>(nodes: map<T, Node<T>>, p: T, names: seq<T>) {
    forall c :: c in names ==> MayAdopt(nodes, p, c)
  }

  /** Registering and linking `c` under `p` makes `c` adoptable and leaves
      every other node as adoptable as it was. */
  lemma LinkStep<T>(nodes: map<T, Node<T>>, p: T, c: T)
    requires p in nodes
    requires MayAdopt(nodes, p, c)
    ensures forall d :: MayAdopt(AddChild(Register(nodes, c), p, c), p, d) <==> MayAdopt(nodes, p, d)
  {
    var r := AddChild(Register(nodes, c), p, c);
    forall d
      ensures MayAdopt(r, p, d) <==> MayAdopt(nodes, p, d)
    {
      if d != c {
        if d in r {
          LinkedParentsElsewhere(nodes, p, c, d);
        }
      }
    }
  }

  /** Registering and linking an adoptable `c` under `p` keeps the links
      consistent. */
  lemma LinkStepKeepsLinks<T>(nodes: map<T, Node<T>>, p: T, c: T)
    requires p in nodes && WellLinked(nodes)
    requires MayAdopt(nodes, p, c)
    ensures WellLinked(AddChild(Register(nodes, c), p, c))
  {
    RegisterKeepsLinks(nodes, c);
    AddChildKeepsLinks(Register(nodes, c), p, c);
  }

  /** A fresh node has no links, so registering it keeps the links sound. */
  lemma RegisterKeepsLinks<T>(nodes: map<T, Node<T>>, c: T)
    requires WellLinked(nodes)
    ensures WellLinked(Register(nodes, c))
  {
    var r := Register(nodes, c);
    forall q, d | q in r && d in r[q].children
      ensures d in r && r[d].parent == Some(q)
    {
      assert q in nodes;
    }
  }

  /** The loop over the child tokens (lines 113-126): each non-blank token is
      trimmed, converted, registered on demand and linked under `p`, unless
      it already has a different parent, which stops the loop. What it
      builds is stated by `LinkedShape`, `LinkKeepsWellLinked`,
      `ConflictReport` and `ConflictKeepsEarlierLinks`. */
  function LinkChildren<T>(nodes: map<T, Node<T>>, p: T, tokens: seq<string>, conv: string -> T): (r: Linking<T>)
    requires p in nodes
    ensures p in r.nodes && nodes.Keys <= r.nodes.Keys
    ensures r.Conflict? ==> r.error.ConflictingParent? && r.error.child != []
    decreases |tokens|
  {
    if tokens == [] then Linked(nodes)
    else
      var name := Trim(tokens[0]);
      if name == [] then LinkChildren(nodes, p, tokens[1..], conv)
      else
        var c := conv(name);
        var registered := Register(nodes, c);
        if registered[c].parent.Some? && registered[c].parent.value != p then
          Conflict(ConflictingParent(name, registered[c].parent.value), registered)
        else
          LinkChildren(AddChild(registered, p, c), p, tokens[1..], conv)
  }

  /** Linking succeeds exactly when every child named may be adopted by
      `p` in the registry as it was before the line. */
  lemma {:induction false} LinkedIffAdoptable<T>(nodes: map<T, Node<T>>, p: T, tokens: seq<string>, conv: string -> T)
    requires p in nodes
    ensures LinkChildren(nodes, p, tokens, conv).Linked? <==> AllAdoptable(nodes, p, ChildNames(tokens, conv))
    decreases |tokens|
  {
    if tokens != [] {
      var name := Trim(tokens[0]);
      if name == [] {
        LinkedIffAdoptable(nodes, p, tokens[1..], conv);
      } else {
        var c := conv(name);
        assert ChildNames(tokens, conv) == [c] + ChildNames(tokens[1..], conv);
        var registered := Register(nodes, c);
        if registered[c].parent.Some? && registered[c].parent.value != p {
          assert !MayAdopt(nodes, p, c);
        } else {
          LinkStep(nodes, p, c);
          LinkedIffAdoptable(AddChild(registered, p, c), p, tokens[1..], conv);
        }
      }
    }
  }

  /** One token of a successful linking: a blank token changes nothing; a
      non-blank one names a child that may be adopted and is registered and
      linked under `p`. */
  lemma LinkedFirst<T>(nodes: map<T, Node<T>>, p: T, tokens: seq<string>, conv: string -> T)
    returns (next: map<T, Node<T>>, first: seq<T>)
    requires p in nodes && tokens != []
    requires LinkChildren(nodes, p, tokens, conv).Linked?
    ensures p in next
    ensures LinkChildren(nodes, p, tokens, conv) == LinkChildren(next, p, tokens[1..], conv)
    ensures ChildNames(tokens, conv) == first + ChildNames(tokens[1..], conv)
    ensures first == [] ==> next == nodes
    ensures first != [] ==> |first| == 1 && MayAdopt(nodes, p, first[0])
    ensures first != [] ==> next == AddChild(Register(nodes, first[0]), p, first[0])
  {
    var name := Trim(tokens[0]);
    if name == [] {
      next, first := nodes, [];
    } else {
      var c := conv(name);
      var registered := Register(nodes, c);
      assert !(registered[c].parent.Some? && registered[c].parent.value != p);
      next, first := AddChild(registered, p, c), [c];
    }
  }

  /** Linking registers the children named and nothing else. */
  lemma {:induction false} LinkedKeys<T>(nodes: map<T, Node<T>>, p: T, tokens: seq<string>, conv: string -> T)
    requires p in nodes
    requires LinkChildren(nodes, p, tokens, conv).Linked?
    ensures forall k :: k in LinkChildren(nodes, p, tokens, conv).nodes ==> k in nodes || k in ChildNames(tokens, conv)
    decreases |tokens|
  {
    if tokens != [] {
      var next, first := LinkedFirst(nodes, p, tokens, conv);
      LinkedKeys(next, p, tokens[1..], conv);
    }
  }

  /** Linking changes no parent link but those of the children named. */
  lemma {:induction false} LinkedParentsKept<T>(nodes: map<T, Node<T>>, p: T, tokens: seq<string>, conv: string -> T)
    requires p in nodes
    requires LinkChildren(nodes, p, tokens, conv).Linked?
    ensures var r := LinkChildren(nodes, p, tokens, conv).nodes;
      forall k :: k in nodes && k !in ChildNames(tokens, conv) ==> r[k].parent == nodes[k].parent
    decreases |tokens|
  {
    if tokens != [] {
      var next, first := LinkedFirst(nodes, p, tokens, conv);
      LinkedParentsKept(next, p, tokens[1..], conv);
      if first != [] {
        forall k | k in nodes && k !in ChildNames(tokens, conv)
          ensures next[k].parent == nodes[k].parent
        {
          assert k != first[0];
          LinkedParentsElsewhere(nodes, p, first[0], k);
        }
      }
    }
  }

  /** After linking, every child named has `p` as its parent. */
  lemma {:induction false} LinkedParentsSet<T>(nodes: map<T, Node<T>>, p: T, tokens: seq<string>, conv: string -> T)
    requires p in nodes
    requires LinkChildren(nodes, p, tokens, conv).Linked?
    ensures var r := LinkChildren(nodes, p, tokens, conv).nodes;
      forall c :: c in ChildNames(tokens, conv) ==> c in r && r[c].parent == Some(p)
    decreases |tokens|
  {
    if tokens != [] {
      var next, first := LinkedFirst(nodes, p, tokens, conv);
      LinkedParentsSet(next, p, tokens[1..], conv);
      if first != [] {
        LinkedParentsKept(next, p, tokens[1..], conv);
        assert first == [first[0]];
        ParentsSetStep(LinkChildren(nodes, p, tokens, conv).nodes, next, p, first[0], ChildNames(tokens[1..], conv));
      }
    }
  }

  lemma ParentsSetStep<T>(r: map<T, Node<T>>, next: map<T, Node<T>>, p: T, c: T, rest: seq<T>)
    requires forall x :: x in rest ==> x in r && r[x].parent == Some(p)
    requires c in next && next[c].parent == Some(p) && next.Keys <= r.Keys
    requires c !in rest ==> r[c].parent == next[c].parent
    ensures forall x :: x in [c] + rest ==> x in r && r[x].parent == Some(p)
  {
  }

  /** Linking appends the children named, in token order, to `p`'s child
      list; a name repeated, or already a child, is appended again. */
  lemma {:induction false} LinkedChildList<T>(nodes: map<T, Node<T>>, p: T, tokens: seq<string>, conv: string -> T)
    requires p in nodes
    requires LinkChildren(nodes, p, tokens, conv).Linked?
    ensures LinkChildren(nodes, p, tokens, conv).nodes[p].children == nodes[p].children + ChildNames(tokens, conv)
    decreases |tokens|
  {
    if tokens == [] {
      assert ChildNames(tokens, conv) == [];
      assert nodes[p].children + [] == nodes[p].children;
    } else {
      var next, first := LinkedFirst(nodes, p, tokens, conv);
      var rest := ChildNames(tokens[1..], conv);
      var final := LinkChildren(nodes, p, tokens, conv).nodes[p].children;
      assert final == next[p].children + rest by {
        LinkedChildList(next, p, tokens[1..], conv);
      }
      assert next[p].children == nodes[p].children + first by {
        if first != [] {
          LinkedChildListsElsewhere(nodes, p, first[0]);
          assert first == [first[0]];
        }
      }
      AppendAssoc(nodes[p].children, first, rest);
    }
  }

  /** Linking changes no child list but that of `p`. */
  lemma {:induction false} LinkedOtherChildLists<T>(nodes: map<T, Node<T>>, p: T, tokens: seq<string>, conv: string -> T)
    requires p in nodes
    requires LinkChildren(nodes, p, tokens, conv).Linked?
    ensures var r := LinkChildren(nodes, p, tokens, conv).nodes;
      forall k :: k in nodes && k != p ==> r[k].children == nodes[k].children
    decreases |tokens|
  {
    if tokens != [] {
      var next, first := LinkedFirst(nodes, p, tokens, conv);
      LinkedOtherChildLists(next, p, tokens[1..], conv);
      if first != [] {
        LinkedChildListsElsewhere(nodes, p, first[0]);
      }
    }
  }

  /** Every node the loop creates keeps the empty child list it was
      created with (line 119); only `p`'s list grows. */
  lemma {:induction false} LinkedNewChildLists<T>(nodes: map<T, Node<T>>, p: T, tokens: seq<string>, conv: string -> T)
    requires p in nodes
    requires LinkChildren(nodes, p, tokens, conv).Linked?
    ensures var r := LinkChildren(nodes, p, tokens, conv).nodes;
      forall k :: k in r && k !in nodes ==> r[k].children == []
    decreases |tokens|
  {
    if tokens != [] {
      var next, first := LinkedFirst(nodes, p, tokens, conv);
      LinkedNewChildLists(next, p, tokens[1..], conv);
      if first != [] {
        LinkedOtherChildLists(next, p, tokens[1..], conv);
        assert first[0] !in nodes ==> next[first[0]].children == [];
      }
    }
  }

  /** On success the line's children are registered, each has `p` as its
      parent, `p`'s child list grows by exactly those names in token order,
      a child created by the line has no children, and no other node
      changes. */
  lemma LinkedShape<T>(nodes: map<T, Node<T>>, p: T, tokens: seq<string>, conv: string -> T)
    requires p in nodes
    requires LinkChildren(nodes, p, tokens, conv).Linked?
    ensures var r := LinkChildren(nodes, p, tokens, conv).nodes;
      var names := ChildNames(tokens, conv);
      && (forall k :: k in r ==> k in nodes || k in names)
      && (forall c :: c in names ==> c in r && r[c].parent == Some(p))
      && r[p].children == nodes[p].children + names
      && (forall k :: k in nodes && k != p && k !in names ==> r[k] == nodes[k])
      && (forall c :: c in names && c != p && c in nodes ==> r[c].children == nodes[c].children)
      && (forall k :: k in r && k !in nodes ==> r[k].children == [])
      && (p !in names ==> r[p].parent == nodes[p].parent)
  {
    LinkedKeys(nodes, p, tokens, conv);
    LinkedParentsKept(nodes, p, tokens, conv);
    LinkedParentsSet(nodes, p, tokens, conv);
    LinkedChildList(nodes, p, tokens, conv);
    LinkedOtherChildLists(nodes, p, tokens, conv);
    LinkedNewChildLists(nodes, p, tokens, conv);
  }

  /** Linking keeps the parent links and child lists consistent, also when
      it stops at a conflict. */
  lemma {:induction false} LinkKeepsWellLinked<T>(nodes: map<T, Node<T>>, p: T, tokens: seq<string>, conv: string -> T)
    requires p in nodes
    ensures WellLinked(nodes) ==> WellLinked(LinkChildren(nodes, p, tokens, conv).nodes)
    decreases |tokens|
  {
    if tokens != [] {
      var name := Trim(tokens[0]);
      if name == [] {
        LinkKeepsWellLinked(nodes, p, tokens[1..], conv);
      } else {
        var c := conv(name);
        var registered := Register(nodes, c);
        if !(registered[c].parent.Some? && registered[c].parent.value != p) {
          if WellLinked(nodes) {
            LinkStepKeepsLinks(nodes, p, c);
          }
          LinkKeepsWellLinked(AddChild(registered, p, c), p, tokens[1..], conv);
        }
      }
    }
  }

  /** Linking the first `k + 1` tokens is the first token's step followed
      by linking the next `k`, provided the first token does not conflict. */
  lemma PrefixStep<T>(nodes: map<T, Node<T>>, p: T, tokens: seq<string>, k: nat, conv: string -> T)
    requires p in nodes && k < |tokens|
    requires Trim(tokens[0]) != [] ==> MayAdopt(nodes, p, conv(Trim(tokens[0])))
    ensures var name := Trim(tokens[0]);
      LinkChildren(nodes, p, tokens[..k + 1], conv) ==
        if name == [] then LinkChildren(nodes, p, tokens[1..][..k], conv)
        else LinkChildren(AddChild(Register(nodes, conv(name)), p, conv(name)), p, tokens[1..][..k], conv)
  {
    ShiftPrefix(tokens, k);
  }

  lemma ShiftPrefix(tokens: seq<string>, k: nat)
    requires k < |tokens|
    ensures tokens[..k + 1] != [] && tokens[..k + 1][0] == tokens[0] && tokens[..k + 1][1..] == tokens[1..][..k]
  {
  }

  /** A conflict names a child that already had a different parent before
      the line, and that parent. */
  lemma {:induction false} ConflictReport<T>(nodes: map<T, Node<T>>, p: T, tokens: seq<string>, conv: string -> T)
    requires p in nodes
    requires LinkChildren(nodes, p, tokens, conv).Conflict?
    ensures var r := LinkChildren(nodes, p, tokens, conv);
      && r.error.ConflictingParent?
      && r.error.child != []
      && conv(r.error.child) in nodes
      && nodes[conv(r.error.child)].parent == Some(r.error.existing)
      && r.error.existing != p
    decreases |tokens|
  {
    var r := LinkChildren(nodes, p, tokens, conv);
    var name := Trim(tokens[0]);
    if name == [] {
      assert r == LinkChildren(nodes, p, tokens[1..], conv);
      ConflictReport(nodes, p, tokens[1..], conv);
    } else {
      var c := conv(name);
      var registered := Register(nodes, c);
      if !(registered[c].parent.Some? && registered[c].parent.value != p) {
        var linked := AddChild(registered, p, c);
        assert r == LinkChildren(linked, p, tokens[1..], conv);
        ConflictReport(linked, p, tokens[1..], conv);
        LinkedParentsElsewhere(nodes, p, c, conv(r.error.child));
      }
    }
  }

  /** The conflict is met at the child token at position `j`, and there is
      no rollback: the state left behind is exactly what linking the tokens
      before `j` produces. */
  lemma {:induction false} ConflictKeepsEarlierLinks<T>(nodes: map<T, Node<T>>, p: T, tokens: seq<string>, conv: string -> T)
    returns (j: nat)
    requires p in nodes
    requires LinkChildren(nodes, p, tokens, conv).Conflict?
    ensures j < |tokens|
    ensures LinkChildren(nodes, p, tokens, conv).error.child == Trim(tokens[j])
    ensures LinkChildren(nodes, p, tokens[..j], conv) == Linked(LinkChildren(nodes, p, tokens, conv).nodes)
    decreases |tokens|, 1
  {
    var name := Trim(tokens[0]);
    if name != [] && !MayAdopt(nodes, p, conv(name)) {
      j := 0;
      assert Register(nodes, conv(name)) == nodes;
      assert tokens[..0] == [];
    } else {
      j := ConflictAfterFirst(nodes, p, tokens, conv);
    }
  }

  /** The recursive step of `ConflictKeepsEarlierLinks`: the first token
      does not conflict, so the conflict lies further on. */
  lemma {:induction false} ConflictAfterFirst<T>(nodes: map<T, Node<T>>, p: T, tokens: seq<string>, conv: string -> T)
    returns (j: nat)
    requires p in nodes && tokens != []
    requires Trim(tokens[0]) != [] ==> MayAdopt(nodes, p, conv(Trim(tokens[0])))
    requires LinkChildren(nodes, p, tokens, conv).Conflict?
    ensures j < |tokens|
    ensures LinkChildren(nodes, p, tokens, conv).error.child == Trim(tokens[j])
    ensures LinkChildren(nodes, p, tokens[..j], conv) == Linked(LinkChildren(nodes, p, tokens, conv).nodes)
    decreases |tokens|, 0
  {
    var name := Trim(tokens[0]);
    var next := if name == [] then nodes else AddChild(Register(nodes, conv(name)), p, conv(name));
    assert LinkChildren(nodes, p, tokens, conv) == LinkChildren(next, p, tokens[1..], conv);
    var k := ConflictKeepsEarlierLinks(next, p, tokens[1..], conv);
    PrefixStep(nodes, p, tokens, k, conv);
    j := k + 1;
    assert tokens[j] == tokens[1..][k];
  }

  /** Linking `c` under `p` changes no child list but that of `p`. */
  lemma LinkedChildListsElsewhere<T>(nodes: map<T, Node<T>>, p: T, c: T)
    requires p in nodes
    ensures var r := AddChild(Register(nodes, c), p, c);
      && r[p].children == nodes[p].children + [c]
      && forall k :: k in nodes && k != p ==> r[k].children == nodes[k].children
  {
  }

  /** Linking `c` under `p` changes no parent link but that of `c`. */
  lemma LinkedParentsElsewhere<T>(nodes: map<T, Node<T>>, p: T, c: T, x: T)
    requires p in nodes && x != c
    requires x in AddChild(Register(nodes, c), p, c)
    ensures x in nodes
    ensures AddChild(Register(nodes, c), p, c)[x].parent == nodes[x].parent
  {
  }

  /** A registered node without a parent. */
  ghost predicate Orphan<T>(nodes: map<T, Node<T>>, k: T) {
    k in nodes && nodes[k].parent.None?
  }

  /** Lines 129-134: scan the registry in its iteration order `scan` and
      make the first parentless node the root; keep the old root when the
      scan finds none. */
  function RecomputeRoot<T>(nodes: map<T, Node<T>>, root: Option<T>, scan: seq<T>): (r: Option<T>)
    ensures (exists i :: 0 <= i < |scan| && Orphan(nodes, scan[i])) ==>
      exists i :: (&& 0 <= i < |scan| && r == Some(scan[i]) && Orphan(nodes, scan[i])
                   && forall j :: 0 <= j < i ==> !Orphan(nodes, scan[j]))
    ensures (forall i :: 0 <= i < |scan| ==> !Orphan(nodes, scan[i])) ==> r == root
  {
    if scan == [] then root
    else if scan[0] in nodes && nodes[scan[0]].parent.None? then Some(scan[0])
    else
      var r := RecomputeRoot(nodes, root, scan[1..]);
      assert forall i :: 0 < i < |scan| ==> scan[i] == scan[1..][i - 1];
      r
  }

  /** Lines 104-111: convert and fetch-or-create the parent; a newly created
      parent becomes the root when there is none yet. */
  function RegisterParent<T>(t: Tree<T>, p: T): (r: Tree<T>)
    ensures p in r.nodes && r.nodes == Register(t.nodes, p)
    ensures p !in t.nodes && t.root.None? ==> r.root == Some(p)
    ensures p in t.nodes || t.root.Some? ==> r.root == t.root
    ensures Valid(t) ==> Valid(r)
  {
    Tree(Register(t.nodes, p), if p !in t.nodes && t.root.None? then Some(p) else t.root)
  }

  /** `addLine`. `order` stands for the registry's iteration order, which
      decides which parentless node becomes the root. */
  function AddLine<T>(t: Tree<T>, line: string, conv: string -> T, order: map<T, Node<T>> -> seq<T>): (r: Applied<T>)
    ensures IsSkipped(line) ==> r == Ok(t)
    ensures Parse(line).Rejected? ==> r == Fail(Malformed(Parse(line).kind, line), t)
    ensures t.nodes.Keys <= r.tree.nodes.Keys
    ensures Parse(line).Entry? ==> conv(Parse(line).parentText) in r.tree.nodes
  {
    match Parse(line)
    case Blank => Ok(t)
    case Rejected(kind) => Fail(Malformed(kind, line), t)
    case Entry(parentText, kids) =>
      var p := conv(parentText);
      var start := RegisterParent(t, p);
      match LinkChildren(start.nodes, p, kids, conv)
      case Linked(nodes) => Ok(Tree(nodes, RecomputeRoot(nodes, start.root, order(nodes))))
      case Conflict(e, nodes) => Fail(e, Tree(nodes, start.root))
  }

  /** Registering the parent first does not change which children may be
      linked under it. */
  lemma AdoptableAfterRegister<T>(nodes: map<T, Node<T>>, p: T, names: seq<T>)
    ensures AllAdoptable(Register(nodes, p), p, names) <==> AllAdoptable(nodes, p, names)
  {
  }

  /** The three steps of a well-formed line, spelled out for the lemmas
      below. */
  lemma EntrySteps<T>(t: Tree<T>, line: string, conv: string -> T, order: map<T, Node<T>> -> seq<T>)
    requires Parse(line).Entry?
    ensures var p := conv(Parse(line).parentText);
      var start := RegisterParent(t, p);
      var l := LinkChildren(start.nodes, p, Parse(line).kidTokens, conv);
      AddLine(t, line, conv, order) ==
        if l.Linked? then Ok(Tree(l.nodes, RecomputeRoot(l.nodes, start.root, order(l.nodes))))
        else Fail(l.error, Tree(l.nodes, start.root))
  {
  }

  /** Every line, accepted or not, keeps the registry valid. */
  lemma LineKeepsValid<T>(t: Tree<T>, line: string, conv: string -> T, order: map<T, Node<T>> -> seq<T>)
    ensures Valid(t) ==> Valid(AddLine(t, line, conv, order).tree)
  {
    if Parse(line).Entry? {
      var p := conv(Parse(line).parentText);
      var start := RegisterParent(t, p);
      EntrySteps(t, line, conv, order);
      LinkKeepsWellLinked(start.nodes, p, Parse(line).kidTokens, conv);
    }
  }

  /** Conflict rule: a well-formed line is accepted exactly when none of its
      children already has a parent other than the line's parent; otherwise
      it fails with a conflicting-parent error. */
  lemma LineAcceptedIff<T>(t: Tree<T>, line: string, conv: string -> T, order: map<T, Node<T>> -> seq<T>)
    requires Parse(line).Entry?
    ensures var r := AddLine(t, line, conv, order);
      var p := conv(Parse(line).parentText);
      && (r.Ok? <==> forall c :: c in ChildNames(Parse(line).kidTokens, conv) ==> MayAdopt(t.nodes, p, c))
      && (r.Fail? ==> r.error.ConflictingParent? && r.error.existing != p)
  {
    var p := conv(Parse(line).parentText);
    var start := RegisterParent(t, p);
    EntrySteps(t, line, conv, order);
    AdoptableAfterRegister(t.nodes, p, ChildNames(Parse(line).kidTokens, conv));
    LinkedIffAdoptable(start.nodes, p, Parse(line).kidTokens, conv);
    if LinkChildren(start.nodes, p, Parse(line).kidTokens, conv).Conflict? {
      ConflictReport(start.nodes, p, Parse(line).kidTokens, conv);
    }
  }

  /** The keys and parent links after an accepted line, and the parent's
      child list: the part of `LineLinks` that `ReapplyLine` and
      `SelfChildMakesCycle` rely on, kept apart so that their proofs do not
      carry the rest. */
  lemma LineParentLinks<T>(t: Tree<T>, line: string, conv: string -> T, order: map<T, Node<T>> -> seq<T>)
    requires Parse(line).Entry?
    requires AddLine(t, line, conv, order).Ok?
    ensures var nodes := AddLine(t, line, conv, order).tree.nodes;
      var p := conv(Parse(line).parentText);
      var names := ChildNames(Parse(line).kidTokens, conv);
      && p in nodes
      && (forall k :: k in nodes ==> k in t.nodes || k == p || k in names)
      && (forall c :: c in names ==> c in nodes && nodes[c].parent == Some(p))
      && nodes[p].children == (if p in t.nodes then t.nodes[p].children else []) + names
      && (forall k :: k in t.nodes && k != p && k !in names ==> nodes[k].parent == t.nodes[k].parent)
      && (p !in names ==> nodes[p].parent == if p in t.nodes then t.nodes[p].parent else None)
  {
    var p := conv(Parse(line).parentText);
    var start := RegisterParent(t, p);
    EntrySteps(t, line, conv, order);
    LinkedShape(start.nodes, p, Parse(line).kidTokens, conv);
  }

  /** Linking on success: the parent and every non-blank child are
      registered and nothing else is; each child's parent is the line's
      parent; the parent's child list grows by the children in order; a
      child that existed keeps its own child list and a new one has none;
      every other node is unchanged. */
  lemma LineLinks<T>(t: Tree<T>, line: string, conv: string -> T, order: map<T, Node<T>> -> seq<T>)
    requires Parse(line).Entry?
    requires AddLine(t, line, conv, order).Ok?
    ensures var nodes := AddLine(t, line, conv, order).tree.nodes;
      var p := conv(Parse(line).parentText);
      var names := ChildNames(Parse(line).kidTokens, conv);
      && p in nodes
      && (forall k :: k in nodes ==> k in t.nodes || k == p || k in names)
      && (forall c :: c in names ==> c in nodes && nodes[c].parent == Some(p))
      && nodes[p].children == (if p in t.nodes then t.nodes[p].children else []) + names
      && (forall k :: k in t.nodes && k != p && k !in names ==> nodes[k] == t.nodes[k])
      && (forall c :: c in names && c != p && c in t.nodes ==> nodes[c].children == t.nodes[c].children)
      && (forall k :: k in nodes && k !in t.nodes && k != p ==> nodes[k].children == [])
      && (p !in names ==> nodes[p].parent == if p in t.nodes then t.nodes[p].parent else None)
  {
    var p := conv(Parse(line).parentText);
    var start := RegisterParent(t, p);
    EntrySteps(t, line, conv, order);
    LinkedShape(start.nodes, p, Parse(line).kidTokens, conv);
  }

  /** Every registered key is listed by the iteration order. */
  ghost predicate ListsAll<T>(scan: seq<T>, nodes: map<T, Node<T>>) {
    forall k :: k in nodes ==> k in scan
  }

  /** Root maintenance after an accepted line: when some registered node has
      no parent the root is such a node; otherwise the root is the old one,
      or the line's parent if it was just created into an empty tree. */
  lemma RootAfterLine<T>(t: Tree<T>, line: string, conv: string -> T, order: map<T, Node<T>> -> seq<T>)
    requires Parse(line).Entry?
    requires AddLine(t, line, conv, order).Ok?
    requires ListsAll(order(AddLine(t, line, conv, order).tree.nodes), AddLine(t, line, conv, order).tree.nodes)
    ensures var after := AddLine(t, line, conv, order).tree;
      var p := conv(Parse(line).parentText);
      && ((exists k :: Orphan(after.nodes, k)) ==> after.root.Some? && Orphan(after.nodes, after.root.value))
      && ((forall k :: !Orphan(after.nodes, k)) ==>
            after.root == if p !in t.nodes && t.root.None? then Some(p) else t.root)
  {
    var after := AddLine(t, line, conv, order).tree;
    EntrySteps(t, line, conv, order);
    var scan := order(after.nodes);
    if k :| Orphan(after.nodes, k) {
      assert k in scan;
      var i :| 0 <= i < |scan| && scan[i] == k;
      assert Orphan(after.nodes, scan[i]);
    }
  }

  /** Reading the same accepted line again is accepted too and changes no
      parent link and no key, but appends the children to the parent's
      list a second time: the line is not idempotent. */
  lemma ReapplyLine<T>(t: Tree<T>, line: string, conv: string -> T, order: map<T, Node<T>> -> seq<T>)
    requires Parse(line).Entry?
    requires AddLine(t, line, conv, order).Ok?
    ensures var once := AddLine(t, line, conv, order).tree;
      var twice := AddLine(once, line, conv, order);
      var p := conv(Parse(line).parentText);
      && twice.Ok?
      && twice.tree.nodes.Keys == once.nodes.Keys
      && (forall k :: k in once.nodes ==> twice.tree.nodes[k].parent == once.nodes[k].parent)
      && twice.tree.nodes[p].children == once.nodes[p].children + ChildNames(Parse(line).kidTokens, conv)
  {
    var once := AddLine(t, line, conv, order).tree;
    var p := conv(Parse(line).parentText);
    var names := ChildNames(Parse(line).kidTokens, conv);
    LineParentLinks(t, line, conv, order);
    assert forall c :: c in names ==> MayAdopt(once.nodes, p, c);
    LineAcceptedIff(once, line, conv, order);
    var twice := AddLine(once, line, conv, order).tree;
    LineParentLinks(once, line, conv, order);
    assert twice.nodes.Keys <= once.nodes.Keys;
    forall k | k in once.nodes
      ensures twice.nodes[k].parent == once.nodes[k].parent
    {
      if k in names {
        assert once.nodes[k].parent == Some(p) == twice.nodes[k].parent;
      }
    }
  }

  /** Cycles are not prevented: an accepted line that lists its own parent
      among its children makes that node its own parent, and no ancestor
      walk from it ends. */
  lemma SelfChildMakesCycle<T>(t: Tree<T>, line: string, conv: string -> T, order: map<T, Node<T>> -> seq<T>)
    requires Parse(line).Entry?
    requires AddLine(t, line, conv, order).Ok?
    requires conv(Parse(line).parentText) in ChildNames(Parse(line).kidTokens, conv)
    ensures var nodes := AddLine(t, line, conv, order).tree.nodes;
      !Ancestry.Terminates(nodes, conv(Parse(line).parentText))
  {
    var nodes := AddLine(t, line, conv, order).tree.nodes;
    LineParentLinks(t, line, conv, order);
    Ancestry.SelfParentNeverEnds(nodes, conv(Parse(line).parentText), |nodes|);
  }

  /** The constructor's loop (line 88): the lines in order, stopping at the
      first one that fails. */
  function AddLines<T>(t: Tree<T>, lines: seq<string>, conv: string -> T, order: map<T, Node<T>> -> seq<T>): (r: Applied<T>)
    ensures t.nodes.Keys <= r.tree.nodes.Keys
    ensures Valid(t) ==> Valid(r.tree)
    decreases |lines|
  {
    if lines == [] then Ok(t)
    else
      var first := AddLine(t, lines[0], conv, order);
      LineKeepsValid(t, lines[0], conv, order);
      if first.Ok? then AddLines(first.tree, lines[1..], conv, order) else first
  }

  /** The lines that are neither blank nor comments. */
  function Content(lines: seq<string>): seq<string> {
    if lines == [] then []
    else (if IsSkipped(lines[0]) then [] else [lines[0]]) + Content(lines[1..])
  }

  /** Blank and comment lines may be mixed in anywhere: the result is the
      same as for the other lines alone. */
  lemma {:induction false} SkippedLinesIrrelevant<T>(t: Tree<T>, lines: seq<string>, conv: string -> T, order: map<T, Node<T>> -> seq<T>)
    ensures AddLines(t, Content(lines), conv, order) == AddLines(t, lines, conv, order)
    decreases |lines|
  {
    if lines != [] {
      var rest := Content(lines[1..]);
      if IsSkipped(lines[0]) {
        assert Content(lines) == rest;
        assert AddLine(t, lines[0], conv, order) == Ok(t);
        SkippedLinesIrrelevant(t, lines[1..], conv, order);
      } else {
        assert Content(lines) == [lines[0]] + rest;
        assert Content(lines)[1..] == rest;
        var first := AddLine(t, lines[0], conv, order);
        if first.Ok? {
          SkippedLinesIrrelevant(first.tree, lines[1..], conv, order);
        }
      }
    }
  }

  /** Java's `split` drops trailing empty pieces; that changes nothing,
      because the loop skips blank tokens wherever they are. */
  lemma {:induction false} TrailingBlankTokens<T>(nodes: map<T, Node<T>>, p: T, tokens: seq<string>, blanks: seq<string>, conv: string -> T)
    requires p in nodes
    requires forall i :: 0 <= i < |blanks| ==> AllBlank(blanks[i])
    ensures LinkChildren(nodes, p, tokens + blanks, conv) == LinkChildren(nodes, p, tokens, conv)
    decreases |tokens|
  {
    if tokens == [] {
      assert tokens + blanks == blanks;
      BlankTokensLinkNothing(nodes, p, blanks, conv);
    } else {
      assert (tokens + blanks)[0] == tokens[0];
      assert (tokens + blanks)[1..] == tokens[1..] + blanks;
      var name := Trim(tokens[0]);
      if name == [] {
        TrailingBlankTokens(nodes, p, tokens[1..], blanks, conv);
      } else {
        var c := conv(name);
        var registered := Register(nodes, c);
        if !(registered[c].parent.Some? && registered[c].parent.value != p) {
          TrailingBlankTokens(AddChild(registered, p, c), p, tokens[1..], blanks, conv);
        }
      }
    }
  }

  lemma {:induction false} BlankTokensLinkNothing<T>(nodes: map<T, Node<T>>, p: T, blanks: seq<string>, conv: string -> T)
    requires p in nodes
    requires forall i :: 0 <= i < |blanks| ==> AllBlank(blanks[i])
    ensures LinkChildren(nodes, p, blanks, conv) == Linked(nodes)
    decreases |blanks|
  {
    if blanks != [] {
      assert AllBlank(blanks[0]);
      BlankTokensLinkNothing(nodes, p, blanks[1..], conv);
    }
  }
}
