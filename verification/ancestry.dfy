/** Ancestor chains: the walks up the parent links in `ancestorsOf` and
    `TreeNode.collectAncestorsToList`. The builder does not prevent cycles,
    and on a cycle those Java loops never end; the model therefore walks
    with fuel and makes "the walk ends" an explicit precondition. */
module Ancestry {
  import opened Wrappers
  import opened Arena

  /** `c` is the chain that starts at `n` and follows parent links, one step
      per element, up to a parentless node. */
  ghost predicate IsChainFrom<T>(nodes: map<T, Node<T>>, n: T, c: seq<T>) {
    && |c| >= 1
    && c[0] == n
    && (forall i :: 0 <= i < |c| ==> c[i] in nodes)
    && (forall i :: 0 <= i < |c| - 1 ==> nodes[c[i]].parent == Some(c[i + 1]))
    && nodes[c[|c| - 1]].parent.None?
  }

  /** Element `i` of `c` is a registered node whose parent is element `i + 1`. */
  ghost predicate LinksUp<T>(nodes: map<T, Node<T>>, c: seq<T>, i: int) {
    0 <= i < |c| - 1 && c[i] in nodes && nodes[c[i]].parent == Some(c[i + 1])
  }

  ghost predicate Distinct<T>(s: seq<T>) {
    forall i, j :: 0 <= i < j < |s| ==> s[i] != s[j]
  }

  /** The walk from `n` taking at most `fuel` parent steps; `None` when the
      fuel runs out before a parentless node is reached. */
  function Walk<T>(nodes: map<T, Node<T>>, n: T, fuel: nat): (r: Option<seq<T>>)
    ensures r.Some? ==> IsChainFrom(nodes, n, r.value)
    decreases fuel
  {
    if n !in nodes then None
    else match nodes[n].parent
      case None => Some([n])
      case Some(q) =>
        if fuel == 0 then None
        else match Walk(nodes, q, fuel - 1)
          case None => None
          case Some(rest) => Some([n] + rest)
  }

  /** The Java walk from `n` ends. A chain never repeats a node, so one
      step per registered node is always enough fuel (`TerminatesIffChain`). */
  predicate Terminates<T>(nodes: map<T, Node<T>>, n: T) {
    Walk(nodes, n, |nodes|).Some?
  }

  /** A node has at most one chain. */
  lemma {:induction false} ChainUnique<T>(nodes: map<T, Node<T>>, n: T, c1: seq<T>, c2: seq<T>)
    requires IsChainFrom(nodes, n, c1) && IsChainFrom(nodes, n, c2)
    ensures c1 == c2
    decreases |c1|
  {
    if |c1| == 1 {
      RootChain(nodes, n, c2);
    } else {
      assert nodes[c1[0]].parent == Some(c1[1]);
      if |c2| == 1 {
        assert false;
      }
      assert nodes[c2[0]].parent == Some(c2[1]);
      assert IsChainFrom(nodes, c1[1], c1[1..]);
      assert IsChainFrom(nodes, c1[1], c2[1..]);
      ChainUnique(nodes, c1[1], c1[1..], c2[1..]);
      assert c1 == [c1[0]] + c1[1..];
      assert c2 == [c2[0]] + c2[1..];
    }
  }

  /** The chain of a parentless node is the node alone. */
  lemma RootChain<T>(nodes: map<T, Node<T>>, n: T, c: seq<T>)
    requires IsChainFrom(nodes, n, c)
    requires nodes[n].parent.None?
    ensures c == [n]
  {
    assert |c| > 1 ==> LinksUp(nodes, c, 0);
    assert c == [c[0]];
  }

  /** Every suffix of a chain is the chain of its first element. */
  lemma ChainSuffix<T>(nodes: map<T, Node<T>>, c: seq<T>, k: nat)
    requires |c| >= 1 && IsChainFrom(nodes, c[0], c)
    requires k < |c|
    ensures IsChainFrom(nodes, c[k], c[k..])
  {
    var s := c[k..];
    forall i | 0 <= i < |s| - 1
      ensures nodes[s[i]].parent == Some(s[i + 1])
    {
      assert s[i] == c[k + i] && s[i + 1] == c[k + i + 1];
    }
  }

  /** A chain never visits a node twice. */
  lemma ChainDistinct<T>(nodes: map<T, Node<T>>, c: seq<T>)
    requires |c| >= 1 && IsChainFrom(nodes, c[0], c)
    ensures Distinct(c)
  {
    forall i, j | 0 <= i < j < |c|
      ensures c[i] != c[j]
    {
      if c[i] == c[j] {
        ChainSuffix(nodes, c, i);
        ChainSuffix(nodes, c, j);
        ChainUnique(nodes, c[i], c[i..], c[j..]);
      }
    }
  }

  lemma {:induction false} DistinctLength<T>(s: seq<T>, keys: set<T>)
    requires Distinct(s)
    requires forall i :: 0 <= i < |s| ==> s[i] in keys
    ensures |s| <= |keys|
    decreases |s|
  {
    if |s| > 0 {
      var x := s[|s| - 1];
      var init := s[..|s| - 1];
      assert forall i :: 0 <= i < |init| ==> init[i] in keys - {x};
      DistinctLength(init, keys - {x});
    }
  }

  /** The walk follows any chain to its end given one step of fuel per
      parent link. */
  lemma {:induction false} WalkAlong<T>(nodes: map<T, Node<T>>, c: seq<T>, fuel: nat)
    requires |c| >= 1 && IsChainFrom(nodes, c[0], c)
    requires fuel >= |c| - 1
    ensures Walk(nodes, c[0], fuel) == Some(c)
    decreases |c|
  {
    if |c| == 1 {
      assert c == [c[0]];
    } else {
      assert nodes[c[0]].parent == Some(c[1]);
      ChainSuffix(nodes, c, 1);
      WalkAlong(nodes, c[1..], fuel - 1);
      assert c == [c[0]] + c[1..];
    }
  }

  /** The fuel-bounded walk ends exactly when the unbounded Java walk would:
      when `n` has a chain at all. */
  lemma TerminatesIffChain<T>(nodes: map<T, Node<T>>, n: T, c: seq<T>)
    requires IsChainFrom(nodes, n, c)
    ensures Terminates(nodes, n)
    ensures Walk(nodes, n, |nodes|) == Some(c)
  {
    ChainDistinct(nodes, c);
    DistinctLength(c, nodes.Keys);
    WalkAlong(nodes, c, |nodes|);
  }

  /** Some walk of any length ending means the bounded one ends too. */
  lemma WalkEndsWithinRegistrySize<T>(nodes: map<T, Node<T>>, n: T, fuel: nat)
    requires Walk(nodes, n, fuel).Some?
    ensures Terminates(nodes, n)
    ensures Walk(nodes, n, |nodes|) == Walk(nodes, n, fuel)
  {
    TerminatesIffChain(nodes, n, Walk(nodes, n, fuel).value);
  }

  /** `ancestorsOf(node)`: the node itself, its parent, its grandparent and
      so on up to a parentless node. */
  function AncestorsOf<T>(nodes: map<T, Node<T>>, n: T): (c: seq<T>)
    requires Terminates(nodes, n)
    ensures IsChainFrom(nodes, n, c)
    ensures Distinct(c)
    ensures |c| <= |nodes|
  {
    var c := Walk(nodes, n, |nodes|).value;
    ChainDistinct(nodes, c);
    DistinctLength(c, nodes.Keys);
    c
  }

  /** One step up: the chain of a node is the node followed by its
      parent's chain. */
  lemma ParentStep<T>(nodes: map<T, Node<T>>, n: T, q: T)
    requires Terminates(nodes, n)
    requires nodes[n].parent == Some(q)
    ensures Terminates(nodes, q)
    ensures AncestorsOf(nodes, n) == [n] + AncestorsOf(nodes, q)
  {
    var c := AncestorsOf(nodes, n);
    assert |c| > 1;
    ChainSuffix(nodes, c, 1);
    TerminatesIffChain(nodes, q, c[1..]);
    ChainUnique(nodes, q, c[1..], AncestorsOf(nodes, q));
    assert c == [c[0]] + c[1..];
  }

  /** One step down: a registered child of a node whose walk ends has a
      walk that ends too, one element longer. */
  lemma ChildStep<T>(nodes: map<T, Node<T>>, n: T, c: T)
    requires Terminates(nodes, n)
    requires c in nodes && nodes[c].parent == Some(n)
    ensures Terminates(nodes, c)
    ensures AncestorsOf(nodes, c) == [c] + AncestorsOf(nodes, n)
  {
    var chain := [c] + AncestorsOf(nodes, n);
    assert IsChainFrom(nodes, c, chain);
    TerminatesIffChain(nodes, c, chain);
    ChainUnique(nodes, c, chain, AncestorsOf(nodes, c));
  }

  /** A listed child of a node whose walk ends is registered, points back,
      and has the parent's chain behind itself. */
  lemma ListedChildStep<T>(nodes: map<T, Node<T>>, n: T, c: T)
    requires WellLinked(nodes) && n in nodes && Terminates(nodes, n)
    requires c in nodes[n].children
    ensures c in nodes && nodes[c].parent == Some(n)
    ensures Terminates(nodes, c)
    ensures AncestorsOf(nodes, c) == [c] + AncestorsOf(nodes, n)
  {
    ListedChildLinksBack(nodes, n, c);
    ChildStep(nodes, n, c);
  }

  /** Any suffix of a node's chain is the chain of its first element. */
  lemma AncestorSuffix<T>(nodes: map<T, Node<T>>, n: T, k: nat)
    requires Terminates(nodes, n)
    requires k < |AncestorsOf(nodes, n)|
    ensures Terminates(nodes, AncestorsOf(nodes, n)[k])
    ensures AncestorsOf(nodes, AncestorsOf(nodes, n)[k]) == AncestorsOf(nodes, n)[k..]
  {
    var c := AncestorsOf(nodes, n);
    ChainSuffix(nodes, c, k);
    TerminatesIffChain(nodes, c[k], c[k..]);
    ChainUnique(nodes, c[k], c[k..], AncestorsOf(nodes, c[k]));
  }

  /** A node that is its own parent has no chain: no walk from it ever
      ends, whatever the fuel. */
  lemma {:induction false} SelfParentNeverEnds<T>(nodes: map<T, Node<T>>, n: T, fuel: nat)
    requires n in nodes && nodes[n].parent == Some(n)
    ensures Walk(nodes, n, fuel) == None
    decreases fuel
  {
    if fuel > 0 {
      SelfParentNeverEnds(nodes, n, fuel - 1);
    }
  }

  /** `collectAncestorsToList`: the proper ancestors, parent first. */
  function CollectAncestors<T>(nodes: map<T, Node<T>>, n: T): (a: seq<T>)
    requires Terminates(nodes, n)
    ensures a == AncestorsOf(nodes, n)[1..]
  {
    match nodes[n].parent
    case None => []
    case Some(q) =>
      ParentStep(nodes, n, q);
      AncestorsOf(nodes, q)
  }

  /** Walking down the child lists from a node whose walk up ends: the
      walk up from where the path stops ends too, and passes back through
      the whole path, one generation per step. */
  lemma {:induction false} DownPathClimbs<T>(nodes: map<T, Node<T>>, path: seq<T>)
    requires WellLinked(nodes) && DownPath(nodes, path) && Terminates(nodes, path[0])
    ensures Terminates(nodes, path[|path| - 1])
    ensures |AncestorsOf(nodes, path[|path| - 1])| == |AncestorsOf(nodes, path[0])| + |path| - 1
    ensures AncestorsOf(nodes, path[|path| - 1])[|path| - 1..] == AncestorsOf(nodes, path[0])
    decreases |path|
  {
    if |path| > 1 {
      DownPathTail(nodes, path);
      ListedChildStep(nodes, path[0], path[1]);
      DownPathClimbs(nodes, path[1..]);
      var c := AncestorsOf(nodes, path[|path| - 1]);
      assert c[|path| - 2..] == AncestorsOf(nodes, path[1]);
      assert c[|path| - 1..] == c[|path| - 2..][1..];
    }
  }

  /** The other direction: from any ancestor down to the node there is a
      path along the child lists, one step per generation. */
  lemma {:induction false} ChainDescends<T>(nodes: map<T, Node<T>>, m: T, k: nat) returns (path: seq<T>)
    requires WellLinked(nodes) && Terminates(nodes, m) && k < |AncestorsOf(nodes, m)|
    ensures DownPath(nodes, path) && |path| == k + 1
    ensures path[0] == AncestorsOf(nodes, m)[k] && path[k] == m
    decreases k
  {
    var c := AncestorsOf(nodes, m);
    if k == 0 {
      path := [m];
    } else {
      var below := ChainDescends(nodes, m, k - 1);
      assert LinksUp(nodes, c, k - 1);
      assert c[k - 1] in nodes[c[k]].children;
      DownPathCons(nodes, c[k], below);
      path := [c[k]] + below;
    }
  }

  /** A path down the child lists that is longer than the registry visits
      some node twice. */
  lemma LongPathRepeats<T>(nodes: map<T, Node<T>>, path: seq<T>) returns (i: nat, j: nat)
    requires DownPath(nodes, path) && |path| > |nodes|
    ensures i < j < |path| && path[i] == path[j]
  {
    if Distinct(path) {
      DistinctLength(path, nodes.Keys);
      assert false;
    }
    i, j :| 0 <= i < j < |path| && path[i] == path[j];
  }
}
