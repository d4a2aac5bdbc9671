/** The node store of a family tree. Java's `TreeNode` objects become entries
    of a map keyed by their names: the registry `nodesByName` maps every
    name to exactly one node, so two nodes are the same object exactly when
    their names are equal, and references become names. */
module Arena {
  import opened Wrappers

  /** One `TreeNode`: its parent's name (absent for a parentless node) and
      its children's names in insertion order. */
  datatype Node<T> = Node(parent: Option<T>, children: seq<T>)

  /** The registry together with the current `root` reference. */
  datatype Tree<T(==)> = Tree(nodes: map<T, Node<T>>, root: Option<T>)

  /** The tree before any line has been read. */
  function Empty<T(==)>(): Tree<T> {
    Tree(map[], None)
  }

  /** The structural invariant promised for every node: a child list names
      registered nodes whose parent link points back, and every parent link
      names a registered node that lists the child. */
  ghost predicate WellLinked<T>(nodes: map<T, Node<T>>) {
    ChildrenPointBack(nodes) && ParentsListChild(nodes)
  }

  ghost predicate ChildrenPointBack<T>(nodes: map<T, Node<T>>) {
    forall p, c :: p in nodes && c in nodes[p].children ==> c in nodes && nodes[c].parent == Some(p)
  }

  ghost predicate ParentsListChild<T>(nodes: map<T, Node<T>>) {
    forall c :: c in nodes && nodes[c].parent.Some? ==>
      nodes[c].parent.value in nodes && c in nodes[nodes[c].parent.value].children
  }

  lemma ListedChildLinksBack<T>(nodes: map<T, Node<T>>, p: T, c: T)
    requires WellLinked(nodes) && p in nodes && c in nodes[p].children
    ensures c in nodes && nodes[c].parent == Some(p)
  {
  }

  /** Element `i + 1` of `path` is listed among the children of element `i`. */
  ghost predicate StepsDown<T>(nodes: map<T, Node<T>>, path: seq<T>, i: int) {
    0 <= i < |path| - 1 && path[i] in nodes && path[i + 1] in nodes[path[i]].children
  }

  /** A walk down the child lists: registered nodes, each listed by the one
      before it. */
  ghost predicate DownPath<T>(nodes: map<T, Node<T>>, path: seq<T>) {
    && |path| >= 1
    && (forall i :: 0 <= i < |path| ==> path[i] in nodes)
    && (forall i :: 0 <= i < |path| - 1 ==> StepsDown(nodes, path, i))
  }

  /** A registered node followed by a walk from one of its children. */
  lemma DownPathCons<T>(nodes: map<T, Node<T>>, x: T, path: seq<T>)
    requires x in nodes && DownPath(nodes, path) && path[0] in nodes[x].children
    ensures DownPath(nodes, [x] + path)
  {
    var p := [x] + path;
    forall i | 0 <= i < |p| - 1
      ensures StepsDown(nodes, p, i)
    {
      if i > 0 {
        assert StepsDown(nodes, path, i - 1);
      }
    }
  }

  /** A walk without its first node. */
  lemma DownPathTail<T>(nodes: map<T, Node<T>>, path: seq<T>)
    requires DownPath(nodes, path) && |path| >= 2
    ensures DownPath(nodes, path[1..])
    ensures path[1] in nodes[path[0]].children
  {
    var p := path[1..];
    forall i | 0 <= i < |p| - 1
      ensures StepsDown(nodes, p, i)
    {
      assert StepsDown(nodes, path, i + 1);
    }
    assert StepsDown(nodes, path, 0);
  }

  /** Any contiguous piece of a walk. */
  lemma DownPathSlice<T>(nodes: map<T, Node<T>>, path: seq<T>, lo: nat, hi: nat)
    requires DownPath(nodes, path) && lo < hi <= |path|
    ensures DownPath(nodes, path[lo..hi])
  {
    var p := path[lo..hi];
    forall i | 0 <= i < |p| - 1
      ensures StepsDown(nodes, p, i)
    {
      assert StepsDown(nodes, path, lo + i);
    }
  }

  /** Two walks where the second starts at the node the first ends at. */
  lemma {:induction false} DownPathJoin<T>(nodes: map<T, Node<T>>, a: seq<T>, b: seq<T>)
    requires DownPath(nodes, a) && DownPath(nodes, b) && a[|a| - 1] == b[0]
    ensures DownPath(nodes, a + b[1..])
    ensures (a + b[1..])[0] == a[0] && (a + b[1..])[|a| + |b| - 2] == b[|b| - 1]
    decreases |a|
  {
    if |a| > 1 {
      DownPathTail(nodes, a);
      DownPathJoin(nodes, a[1..], b);
      assert a + b[1..] == [a[0]] + (a[1..] + b[1..]);
      DownPathCons(nodes, a[0], a[1..] + b[1..]);
    } else {
      assert a + b[1..] == b;
    }
  }

  /** Well-linked nodes, and a root that is registered and present exactly
      when some node is. */
  ghost predicate Valid<T>(t: Tree<T>) {
    && WellLinked(t.nodes)
    && (t.root.Some? ==> t.root.value in t.nodes)
    && (t.root.None? ==> t.nodes == map[])
  }

  /** Fetch-or-create: a name seen for the first time gets a fresh node with
      no parent and no children. */
  function Register<T>(nodes: map<T, Node<T>>, name: T): (r: map<T, Node<T>>)
    ensures name in r
    ensures r.Keys == nodes.Keys + {name}
    ensures forall k :: k in nodes ==> r[k] == nodes[k]
    ensures name !in nodes ==> r[name] == Node(None, [])
  {
    if name in nodes then nodes else nodes[name := Node(None, [])]
  }

  /** `TreeNode.addChild`: append `c` to `p`'s children and make `p` the
      parent of `c`, in that order (so `p == c` yields a self-loop). */
  function AddChild<T>(nodes: map<T, Node<T>>, p: T, c: T): (r: map<T, Node<T>>)
    requires p in nodes && c in nodes
    ensures r.Keys == nodes.Keys
    ensures r[p].children == nodes[p].children + [c]
    ensures r[c].parent == Some(p)
    ensures p != c ==> r[p].parent == nodes[p].parent && r[c].children == nodes[c].children
    ensures forall k :: k in nodes && k != p && k != c ==> r[k] == nodes[k]
  {
    var withChild := nodes[p := nodes[p].(children := nodes[p].children + [c])];
    withChild[c := withChild[c].(parent := Some(p))]
  }

  /** Linking a child that is parentless, or already a child of the same
      parent, keeps the parent links and child lists consistent. */
  lemma AddChildKeepsLinks<T>(nodes: map<T, Node<T>>, p: T, c: T)
    requires WellLinked(nodes)
    requires p in nodes && c in nodes
    requires nodes[c].parent == None || nodes[c].parent == Some(p)
    ensures WellLinked(AddChild(nodes, p, c))
  {
    AddChildKeepsChildLinks(nodes, p, c);
    AddChildKeepsParentLinks(nodes, p, c);
  }

  lemma AddChildKeepsChildLinks<T>(nodes: map<T, Node<T>>, p: T, c: T)
    requires WellLinked(nodes)
    requires p in nodes && c in nodes
    requires nodes[c].parent == None || nodes[c].parent == Some(p)
    ensures ChildrenPointBack(AddChild(nodes, p, c))
  {
    var r := AddChild(nodes, p, c);
    forall q, d | q in r && d in r[q].children
      ensures d in r && r[d].parent == Some(q)
    {
      if q == p {
        if d != c {
          assert d in nodes[p].children;
          assert nodes[d].parent == Some(p);
          assert r[d].parent == nodes[d].parent;
        }
      } else {
        assert r[q].children == nodes[q].children;
        assert nodes[d].parent == Some(q);
        if d == c {
          assert false;
        }
        assert r[d].parent == nodes[d].parent;
      }
    }
  }

  lemma AddChildKeepsParentLinks<T>(nodes: map<T, Node<T>>, p: T, c: T)
    requires WellLinked(nodes)
    requires p in nodes && c in nodes
    requires nodes[c].parent == None || nodes[c].parent == Some(p)
    ensures ParentsListChild(AddChild(nodes, p, c))
  {
    var r := AddChild(nodes, p, c);
    forall d | d in r && r[d].parent.Some?
      ensures r[d].parent.value in r && d in r[r[d].parent.value].children
    {
      if d != c {
        assert r[d].parent == nodes[d].parent;
        var q := nodes[d].parent.value;
        assert d in nodes[q].children;
        assert nodes[q].children <= r[q].children;
      }
    }
  }
}
