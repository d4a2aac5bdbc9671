/** `getMostRecentCommonAncestor`: look both names up, build both inclusive
    ancestor chains, and return the first element of the first chain that
    also occurs in the second. */
module Query {
  import opened Wrappers
  import opened Arena
  import opened Ancestry

  /** The `TreeException` thrown for a name that was never registered. */
  datatype QueryError<T> = NodeNotFound(name: T)

  /** Lines 157-160: the position of the first element of `a` that also
      occurs in `b`, if any. */
  function FirstShared<T(==)>(a: seq<T>, b: seq<T>): (r: Option<nat>)
    ensures r.Some? ==> r.value < |a| && a[r.value] in b
    ensures r.Some? ==> forall i :: 0 <= i < r.value ==> a[i] !in b
    ensures r.None? ==> forall i :: 0 <= i < |a| ==> a[i] !in b
  {
    if a == [] then None
    else if a[0] in b then Some(0)
    else
      match FirstShared(a[1..], b)
      case None => None
      case Some(k) => Some(k + 1)
  }

  /** Both walks must end, but only once both names have been found:
      the Java code throws for a missing name before it walks. */
  ghost predicate Queryable<T>(t: Tree<T>, name1: T, name2: T) {
    name1 in t.nodes && name2 in t.nodes ==> Terminates(t.nodes, name1) && Terminates(t.nodes, name2)
  }

  /** The most recent common ancestor of two named nodes, or `None` when
      their chains share no node. */
  function Mrca<T>(t: Tree<T>, name1: T, name2: T): (r: Result<Option<T>, QueryError<T>>)
    requires Queryable(t, name1, name2)
    ensures name1 !in t.nodes ==> r == Failure(NodeNotFound(name1))
    ensures name1 in t.nodes && name2 !in t.nodes ==> r == Failure(NodeNotFound(name2))
    ensures name1 in t.nodes && name2 in t.nodes ==> r.Success?
    ensures r.Success? && r.value.Some? ==>
      r.value.value in AncestorsOf(t.nodes, name1) && r.value.value in AncestorsOf(t.nodes, name2)
    ensures r.Success? && r.value.None? ==>
      forall x :: x in AncestorsOf(t.nodes, name1) ==> x !in AncestorsOf(t.nodes, name2)
  {
    if name1 !in t.nodes then Failure(NodeNotFound(name1))
    else if name2 !in t.nodes then Failure(NodeNotFound(name2))
    else
      var chain1 := AncestorsOf(t.nodes, name1);
      match FirstShared(chain1, AncestorsOf(t.nodes, name2))
      case None => Success(None)
      case Some(i) => Success(Some(chain1[i]))
  }

  /** The result is the deepest common ancestor: every node that is an
      inclusive ancestor of both names is an inclusive ancestor of it. */
  lemma MrcaIsDeepest<T>(t: Tree<T>, name1: T, name2: T, b: T)
    requires name1 in t.nodes && name2 in t.nodes
    requires Terminates(t.nodes, name1) && Terminates(t.nodes, name2)
    requires b in AncestorsOf(t.nodes, name1) && b in AncestorsOf(t.nodes, name2)
    ensures Mrca(t, name1, name2).value.Some?
    ensures Terminates(t.nodes, Mrca(t, name1, name2).value.value)
    ensures b in AncestorsOf(t.nodes, Mrca(t, name1, name2).value.value)
  {
    var chain1 := AncestorsOf(t.nodes, name1);
    var chain2 := AncestorsOf(t.nodes, name2);
    var j :| 0 <= j < |chain1| && chain1[j] == b;
    assert FirstShared(chain1, chain2).Some?;
    var i := FirstShared(chain1, chain2).value;
    assert Mrca(t, name1, name2) == Success(Some(chain1[i]));
    assert i <= j;
    AncestorSuffix(t.nodes, name1, i);
    assert chain1[i..][j - i] == b;
  }

  /** Each node is its own most recent common ancestor. */
  lemma MrcaSelf<T>(t: Tree<T>, x: T)
    requires x in t.nodes && Terminates(t.nodes, x)
    ensures Mrca(t, x, x) == Success(Some(x))
  {
    assert AncestorsOf(t.nodes, x)[0] == x;
  }

  /** When one node is an inclusive ancestor of the other, that ancestor is
      the answer, whichever order the names are given in. */
  lemma MrcaOfAncestor<T>(t: Tree<T>, x: T, y: T)
    requires y in t.nodes && Terminates(t.nodes, y)
    requires x in AncestorsOf(t.nodes, y)
    ensures Terminates(t.nodes, x)
    ensures Mrca(t, x, y) == Success(Some(x))
    ensures Mrca(t, y, x) == Success(Some(x))
  {
    var chain := AncestorsOf(t.nodes, y);
    var k :| 0 <= k < |chain| && chain[k] == x;
    AncestorSuffix(t.nodes, y, k);
    assert AncestorsOf(t.nodes, x)[0] == x;
    var up := AncestorsOf(t.nodes, x);
    assert forall i :: 0 <= i < k ==> chain[i] !in up;
    assert chain[k] in up;
  }

  /** Two nodes on each other's chains are the same node. */
  lemma AncestorAntisymmetric<T>(nodes: map<T, Node<T>>, a: T, b: T)
    requires Terminates(nodes, a) && Terminates(nodes, b)
    requires a in AncestorsOf(nodes, b) && b in AncestorsOf(nodes, a)
    ensures a == b
  {
    var chainA := AncestorsOf(nodes, a);
    var k :| 0 <= k < |chainA| && chainA[k] == b;
    AncestorSuffix(nodes, a, k);
    var j :| k <= j < |chainA| && chainA[j] == a;
    assert chainA[0] == a;
  }

  /** The answer does not depend on the order of the two names. */
  lemma MrcaSymmetric<T>(t: Tree<T>, name1: T, name2: T)
    requires Queryable(t, name1, name2)
    requires name1 in t.nodes && name2 in t.nodes
    ensures Queryable(t, name2, name1)
    ensures Mrca(t, name1, name2) == Mrca(t, name2, name1)
  {
    var chain1 := AncestorsOf(t.nodes, name1);
    var chain2 := AncestorsOf(t.nodes, name2);
    var r12 := Mrca(t, name1, name2).value;
    var r21 := Mrca(t, name2, name1).value;
    if r12.Some? {
      MrcaIsDeepest(t, name2, name1, r12.value);
      MrcaIsDeepest(t, name1, name2, r21.value);
      AncestorAntisymmetric(t.nodes, r12.value, r21.value);
    }
  }

  /** In a tree with a single parentless node every query succeeds with a
      node: both chains end at that node. */
  lemma MrcaExistsWithSingleRoot<T>(t: Tree<T>, name1: T, name2: T)
    requires name1 in t.nodes && name2 in t.nodes
    requires Terminates(t.nodes, name1) && Terminates(t.nodes, name2)
    requires forall a, b :: a in t.nodes && b in t.nodes && t.nodes[a].parent.None? && t.nodes[b].parent.None? ==> a == b
    ensures Mrca(t, name1, name2).value.Some?
  {
    var chain1 := AncestorsOf(t.nodes, name1);
    var chain2 := AncestorsOf(t.nodes, name2);
    assert chain1[|chain1| - 1] == chain2[|chain2| - 1];
    MrcaIsDeepest(t, name1, name2, chain1[|chain1| - 1]);
  }
}
