/** `TreeNode.getNodeWithName`: a preorder search of a node's subtree. Names
    identify nodes, so whatever the search finds is the target node itself;
    the search answers whether the target lies in the subtree.

    The builder does not prevent cycles, and the Java recursion goes down
    the child lists without remembering where it has been. The model
    therefore recurses with a depth budget `fuel` and says `OutOfFuel` when
    the recursion would go deeper. A bigger budget never changes a finished
    answer (`FindFuelMonotone`), and `|nodes|` generations are always
    enough (`FindEndsWithinRegistrySize`): when that budget runs out, the
    Java recursion never returns. */
module Search {
  import opened Wrappers
  import opened Arena
  import opened Ancestry

  /** The node itself if it is the target, else the first hit among its
      children searched in order, else nothing. */
  function FindInSubtree<T>(nodes: map<T, Node<T>>, n: T, target: T, fuel: nat): (r: Fuelled<Option<T>>)
    requires WellLinked(nodes) && n in nodes
    ensures r.Done? && r.value.Some? ==> r.value == Some(target) && target in nodes
    decreases fuel, 1, 0
  {
    if n == target then Done(Some(n))
    else FindAmongChildren(nodes, n, target, 0, fuel)
  }

  /** The loop over the children (lines 35-38) from the `m`-th child of `x`
      on; each child is searched one generation deeper. */
  function FindAmongChildren<T>(nodes: map<T, Node<T>>, x: T, target: T, m: nat, fuel: nat): (r: Fuelled<Option<T>>)
    requires WellLinked(nodes) && x in nodes && m <= |nodes[x].children|
    ensures r.Done? && r.value.Some? ==> r.value == Some(target) && target in nodes
    ensures m == |nodes[x].children| ==> r == Done(None)
    decreases fuel, 0, |nodes[x].children| - m
  {
    var kids := nodes[x].children;
    if m == |kids| then Done(None)
    else if fuel == 0 then OutOfFuel
    else
      ListedChildLinksBack(nodes, x, kids[m]);
      match FindInSubtree(nodes, kids[m], target, fuel - 1)
      case OutOfFuel => OutOfFuel
      case Done(Some(found)) => Done(Some(found))
      case Done(None) => FindAmongChildren(nodes, x, target, m + 1, fuel)
  }

  /** A finished search gives the same answer with any bigger budget. */
  lemma {:induction false} FindFuelMonotone<T>(nodes: map<T, Node<T>>, n: T, target: T, fuel: nat, more: nat)
    requires WellLinked(nodes) && n in nodes
    requires FindInSubtree(nodes, n, target, fuel).Done? && fuel <= more
    ensures FindInSubtree(nodes, n, target, more) == FindInSubtree(nodes, n, target, fuel)
    decreases fuel, 1, 0
  {
    if n != target {
      AmongFuelMonotone(nodes, n, target, 0, fuel, more);
    }
  }

  lemma {:induction false} AmongFuelMonotone<T>(nodes: map<T, Node<T>>, x: T, target: T, m: nat, fuel: nat, more: nat)
    requires WellLinked(nodes) && x in nodes && m <= |nodes[x].children|
    requires FindAmongChildren(nodes, x, target, m, fuel).Done? && fuel <= more
    ensures FindAmongChildren(nodes, x, target, m, more) == FindAmongChildren(nodes, x, target, m, fuel)
    decreases fuel, 0, |nodes[x].children| - m
  {
    var kids := nodes[x].children;
    if m < |kids| {
      ListedChildLinksBack(nodes, x, kids[m]);
      FindFuelMonotone(nodes, kids[m], target, fuel - 1, more - 1);
      if FindInSubtree(nodes, kids[m], target, fuel - 1) == Done(None) {
        AmongFuelMonotone(nodes, x, target, m + 1, fuel, more);
      }
    }
  }

  /** Two finished searches with different budgets agree. */
  lemma FindConsistent<T>(nodes: map<T, Node<T>>, n: T, target: T, f: nat, g: nat)
    requires WellLinked(nodes) && n in nodes
    requires FindInSubtree(nodes, n, target, f).Done? && FindInSubtree(nodes, n, target, g).Done?
    ensures FindInSubtree(nodes, n, target, f) == FindInSubtree(nodes, n, target, g)
  {
    if f <= g {
      FindFuelMonotone(nodes, n, target, f, g);
    } else {
      FindFuelMonotone(nodes, n, target, g, f);
    }
  }

  /** A hit lies below the start node: some path down the child lists
      leads from the start node to the target. */
  lemma {:induction false} FoundPath<T>(nodes: map<T, Node<T>>, n: T, target: T, fuel: nat) returns (path: seq<T>)
    requires WellLinked(nodes) && n in nodes
    requires FindInSubtree(nodes, n, target, fuel) == Done(Some(target))
    ensures DownPath(nodes, path) && path[0] == n && path[|path| - 1] == target
    ensures |path| <= fuel + 1
    decreases fuel, 1, 0
  {
    if n == target {
      path := [n];
    } else {
      var below := FoundAmongPath(nodes, n, target, 0, fuel);
      DownPathCons(nodes, n, below);
      path := [n] + below;
    }
  }

  lemma {:induction false} FoundAmongPath<T>(nodes: map<T, Node<T>>, x: T, target: T, m: nat, fuel: nat) returns (path: seq<T>)
    requires WellLinked(nodes) && x in nodes && m <= |nodes[x].children|
    requires FindAmongChildren(nodes, x, target, m, fuel) == Done(Some(target))
    ensures DownPath(nodes, path) && path[0] in nodes[x].children && path[|path| - 1] == target
    ensures |path| <= fuel
    decreases fuel, 0, |nodes[x].children| - m
  {
    var kids := nodes[x].children;
    ListedChildLinksBack(nodes, x, kids[m]);
    if FindInSubtree(nodes, kids[m], target, fuel - 1) == Done(None) {
      path := FoundAmongPath(nodes, x, target, m + 1, fuel);
    } else {
      path := FoundPath(nodes, kids[m], target, fuel - 1);
    }
  }

  /** A finished search without a hit is right: no path down the child
      lists leads from the start node to the target. */
  lemma {:induction false} MissedNoPath<T>(nodes: map<T, Node<T>>, n: T, target: T, fuel: nat, path: seq<T>)
    requires WellLinked(nodes) && n in nodes
    requires FindInSubtree(nodes, n, target, fuel) == Done(None)
    requires DownPath(nodes, path) && path[0] == n
    ensures path[|path| - 1] != target
    decreases fuel, 1, 0
  {
    if |path| > 1 {
      DownPathTail(nodes, path);
      var i :| 0 <= i < |nodes[n].children| && nodes[n].children[i] == path[1];
      AmongMissedNoPath(nodes, n, target, 0, fuel, i, path[1..]);
    }
  }

  lemma {:induction false} AmongMissedNoPath<T>(nodes: map<T, Node<T>>, x: T, target: T, m: nat, fuel: nat, i: nat, path: seq<T>)
    requires WellLinked(nodes) && x in nodes && m <= i < |nodes[x].children|
    requires FindAmongChildren(nodes, x, target, m, fuel) == Done(None)
    requires DownPath(nodes, path) && path[0] == nodes[x].children[i]
    ensures path[|path| - 1] != target
    decreases fuel, 0, |nodes[x].children| - m
  {
    var kids := nodes[x].children;
    ListedChildLinksBack(nodes, x, kids[m]);
    if i == m {
      MissedNoPath(nodes, kids[m], target, fuel - 1, path);
    } else {
      AmongMissedNoPath(nodes, x, target, m + 1, fuel, i, path);
    }
  }

  /** Searching the subtree of `z` for the target finishes, at some budget,
      without a hit. */
  ghost predicate Misses<T>(nodes: map<T, Node<T>>, z: T, target: T) {
    WellLinked(nodes) && z in nodes && exists g: nat :: FindInSubtree(nodes, z, target, g) == Done(None)
  }

  /** The search at `x` is not the target, and reaches its child `y` after
      children that all finish without a hit. */
  ghost predicate Blocked<T>(nodes: map<T, Node<T>>, target: T, x: T, y: T) {
    && WellLinked(nodes) && x in nodes && x != target
    && exists i :: 0 <= i < |nodes[x].children| && nodes[x].children[i] == y && MissesBefore(nodes, target, x, i)
  }

  ghost predicate MissesBefore<T>(nodes: map<T, Node<T>>, target: T, x: T, i: int)
    requires x in nodes
  {
    forall j :: 0 <= j < i && j < |nodes[x].children| ==> Misses(nodes, nodes[x].children[j], target)
  }

  /** Every step of `path` is one the search takes. */
  ghost predicate SearchGoesAlong<T>(nodes: map<T, Node<T>>, target: T, path: seq<T>) {
    forall k :: 0 <= k < |path| - 1 ==> Blocked(nodes, target, path[k], path[k + 1])
  }

  /** A search that runs out of budget went down a path one longer than
      the budget, along steps the search takes. */
  lemma {:induction false} FindUnfinishedPath<T>(nodes: map<T, Node<T>>, n: T, target: T, fuel: nat) returns (path: seq<T>)
    requires WellLinked(nodes) && n in nodes
    requires FindInSubtree(nodes, n, target, fuel) == OutOfFuel
    ensures DownPath(nodes, path) && path[0] == n && |path| == fuel + 2
    ensures SearchGoesAlong(nodes, target, path)
    decreases fuel, 1, 0
  {
    var below := AmongUnfinishedPath(nodes, n, target, 0, fuel);
    DownPathCons(nodes, n, below);
    path := [n] + below;
    forall k | 0 <= k < |path| - 1
      ensures Blocked(nodes, target, path[k], path[k + 1])
    {
      if k > 0 {
        assert path[k] == below[k - 1] && path[k + 1] == below[k];
      }
    }
  }

  lemma {:induction false} AmongUnfinishedPath<T>(nodes: map<T, Node<T>>, x: T, target: T, m: nat, fuel: nat) returns (path: seq<T>)
    requires WellLinked(nodes) && x in nodes && m <= |nodes[x].children| && x != target
    requires FindAmongChildren(nodes, x, target, m, fuel) == OutOfFuel
    requires MissesBefore(nodes, target, x, m)
    ensures DownPath(nodes, path) && |path| == fuel + 1
    ensures Blocked(nodes, target, x, path[0])
    ensures SearchGoesAlong(nodes, target, path)
    decreases fuel, 0, |nodes[x].children| - m
  {
    var kids := nodes[x].children;
    ListedChildLinksBack(nodes, x, kids[m]);
    if fuel == 0 || FindInSubtree(nodes, kids[m], target, fuel - 1) == OutOfFuel {
      if fuel == 0 {
        path := [kids[m]];
      } else {
        path := FindUnfinishedPath(nodes, kids[m], target, fuel - 1);
      }
      assert nodes[x].children[m] == path[0];
    } else {
      assert FindInSubtree(nodes, kids[m], target, fuel - 1) == Done(None);
      assert Misses(nodes, kids[m], target);
      path := AmongUnfinishedPath(nodes, x, target, m + 1, fuel);
    }
  }

  /** Once a child's search can never finish, neither can the loop that
      reaches it past children that only miss. */
  lemma {:induction false} AmongStuck<T>(nodes: map<T, Node<T>>, x: T, target: T, m: nat, i: nat, fuel: nat)
    requires WellLinked(nodes) && x in nodes && m <= i < |nodes[x].children|
    requires MissesBefore(nodes, target, x, i)
    requires fuel > 0 ==> FindInSubtree(nodes, nodes[x].children[i], target, fuel - 1) == OutOfFuel
    ensures FindAmongChildren(nodes, x, target, m, fuel) == OutOfFuel
    decreases i - m
  {
    var kids := nodes[x].children;
    if fuel > 0 && m < i {
      ListedChildLinksBack(nodes, x, kids[m]);
      var first := FindInSubtree(nodes, kids[m], target, fuel - 1);
      if first.Done? {
        assert Misses(nodes, kids[m], target);
        var g: nat :| FindInSubtree(nodes, kids[m], target, g) == Done(None);
        FindConsistent(nodes, kids[m], target, fuel - 1, g);
        AmongStuck(nodes, x, target, m + 1, i, fuel);
      }
    }
  }

  /** A path the search takes that comes back to one of its own nodes:
      the search from any node on it never finishes, whatever the budget. */
  lemma {:induction false} LassoStuck<T>(nodes: map<T, Node<T>>, target: T, path: seq<T>, loop: nat, k: nat, fuel: nat)
    requires WellLinked(nodes) && DownPath(nodes, path) && SearchGoesAlong(nodes, target, path)
    requires loop < |path| - 1 && path[|path| - 1] == path[loop] && k < |path|
    ensures FindInSubtree(nodes, path[k], target, fuel) == OutOfFuel
    decreases fuel
  {
    var next := if k < |path| - 1 then k + 1 else loop + 1;
    var x := path[k];
    assert Blocked(nodes, target, x, path[next]) by {
      if k == |path| - 1 {
        assert Blocked(nodes, target, path[loop], path[loop + 1]);
      }
    }
    var i :| 0 <= i < |nodes[x].children| && nodes[x].children[i] == path[next] && MissesBefore(nodes, target, x, i);
    if fuel > 0 {
      LassoStuck(nodes, target, path, loop, next, fuel - 1);
    }
    AmongStuck(nodes, x, target, 0, i, fuel);
  }

  /** `|nodes|` generations are always enough: a search that finishes with
      some budget finishes with that one and gives the same answer. So when
      the search runs out of that budget, the Java recursion never returns. */
  lemma FindEndsWithinRegistrySize<T>(nodes: map<T, Node<T>>, n: T, target: T, fuel: nat)
    requires WellLinked(nodes) && n in nodes
    requires FindInSubtree(nodes, n, target, fuel).Done?
    ensures FindInSubtree(nodes, n, target, |nodes|) == FindInSubtree(nodes, n, target, fuel)
  {
    if FindInSubtree(nodes, n, target, |nodes|) == OutOfFuel {
      var path := FindUnfinishedPath(nodes, n, target, |nodes|);
      var i, j := LongPathRepeats(nodes, path);
      var lasso := path[..j + 1];
      forall k | 0 <= k < |lasso| - 1
        ensures Blocked(nodes, target, lasso[k], lasso[k + 1])
      {
        assert lasso[k] == path[k] && lasso[k + 1] == path[k + 1];
      }
      DownPathSlice(nodes, path, 0, j + 1);
      LassoStuck(nodes, target, lasso, i, 0, fuel);
      assert false;
    }
    FindConsistent(nodes, n, target, |nodes|, fuel);
  }

  /** When the walk up from the start node ends, the search finishes within
      `|nodes|` generations, and it finds the target exactly when the start
      node is on the target's ancestor chain, itself included: when the
      target lies in the subtree of the start node. */
  lemma FindIffDescendant<T>(nodes: map<T, Node<T>>, n: T, target: T)
    requires WellLinked(nodes) && n in nodes && Terminates(nodes, n)
    ensures FindInSubtree(nodes, n, target, |nodes|).Done?
    ensures FindInSubtree(nodes, n, target, |nodes|).value.Some? <==>
      target in nodes && Terminates(nodes, target) && n in AncestorsOf(nodes, target)
  {
    var r := FindInSubtree(nodes, n, target, |nodes|);
    if r == OutOfFuel {
      var path := FindUnfinishedPath(nodes, n, target, |nodes|);
      DownPathClimbs(nodes, path);
      assert false;
    }
    if r.value.Some? {
      var path := FoundPath(nodes, n, target, |nodes|);
      DownPathClimbs(nodes, path);
      var c := AncestorsOf(nodes, target);
      assert c[|path| - 1] == n;
    } else if target in nodes && Terminates(nodes, target) && n in AncestorsOf(nodes, target) {
      var c := AncestorsOf(nodes, target);
      var k :| 0 <= k < |c| && c[k] == n;
      var path := ChainDescends(nodes, target, k);
      MissedNoPath(nodes, n, target, |nodes|, path);
      assert false;
    }
  }
}
