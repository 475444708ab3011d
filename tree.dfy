/** The node type of binary_tree.c as a value, and the read-only traversals. */
module BinaryTree {

  /** The C `int` of a node's `data` field and of the bound parameters. */
  type Int32 = x: int | -0x8000_0000 <= x <= 0x7fff_ffff

  const IntMin: Int32 := -0x8000_0000
  const IntMax: Int32 := 0x7fff_ffff

  /** A tree is owned strictly top-down, so a pointer to a node is its subtree. */
  datatype Tree = Nil | Node(left: Tree, value: Int32, right: Tree)

  /** One step down from a node. */
  datatype Dir = Left | Right

  function Size(t: Tree): nat
  {
    match t
    case Nil => 0
    case Node(l, _, r) => Size(l) + 1 + Size(r)
  }

  /** The values held by the nodes of `t`, with their multiplicities. */
  function Elems(t: Tree): multiset<int>
  {
    match t
    case Nil => multiset{}
    case Node(l, v, r) => Elems(l) + multiset{v} + Elems(r)
  }

  predicate IsLeaf(t: Tree)
  {
    t.Node? && t.left == Nil && t.right == Nil
  }

  /** The subtree reached by following `p` from the root; Nil once the path leaves the tree. */
  function Subtree(t: Tree, p: seq<Dir>): Tree
    decreases |p|
  {
    if p == [] || t == Nil then t
    else if p[0] == Left then Subtree(t.left, p[1..])
    else Subtree(t.right, p[1..])
  }

  lemma {:induction false} SubtreeConcat(t: Tree, p: seq<Dir>, q: seq<Dir>)
    ensures Subtree(t, p + q) == Subtree(Subtree(t, p), q)
    decreases |p|
  {
    if p != [] && t.Node? {
      assert (p + q)[1..] == p[1..] + q;
      if p[0] == Left {
        SubtreeConcat(t.left, p[1..], q);
      } else {
        SubtreeConcat(t.right, p[1..], q);
      }
    } else if p == [] {
      assert p + q == q;
    } else {
      SubtreeOfNil(q);
    }
  }

  lemma {:induction false} SubtreeOfNil(p: seq<Dir>)
    ensures Subtree(Nil, p) == Nil
  {
  }

  /**
   * `a` is a root-anchored, prefix-closed part of `b`: every node of `a` sits at the
   * same position in `b` with the same value, so dropping a node drops its whole subtree.
   */
  predicate Embedded(a: Tree, b: Tree)
  {
    match a
    case Nil => true
    case Node(al, av, ar) => b.Node? && av == b.value && Embedded(al, b.left) && Embedded(ar, b.right)
  }

  /** A tree embedded in another has no more nodes and no values the other lacks. */
  lemma {:induction false} EmbeddedShrinks(a: Tree, b: Tree)
    requires Embedded(a, b)
    ensures Size(a) <= Size(b)
    ensures Elems(a) <= Elems(b)
  {
    if a.Node? {
      EmbeddedShrinks(a.left, b.left);
      EmbeddedShrinks(a.right, b.right);
    }
  }

  /** createNode: a fresh node holding `data` with no children. */
  function CreateNode(data: Int32): (t: Tree)
    ensures IsLeaf(t) && t.value == data
    ensures Size(t) == 1 && Elems(t) == multiset{data}
  {
    Node(Nil, data, Nil)
  }

  /** The values inorderTraversal prints, in the order it prints them. */
  function Inorder(t: Tree): (s: seq<int>)
    ensures |s| == Size(t)
  {
    match t
    case Nil => []
    case Node(l, v, r) => Inorder(l) + [v] + Inorder(r)
  }

  /** The values preorderTraversal prints, in the order it prints them. */
  function Preorder(t: Tree): (s: seq<int>)
    ensures |s| == Size(t)
    ensures t.Node? ==> s[0] == t.value
  {
    match t
    case Nil => []
    case Node(l, v, r) => [v] + Preorder(l) + Preorder(r)
  }

  /** Both traversals print every node's value exactly once, so each is a permutation of the other. */
  lemma {:induction false} TraversalsPermute(t: Tree)
    ensures multiset(Inorder(t)) == Elems(t)
    ensures multiset(Preorder(t)) == Elems(t)
  {
    if t.Node? {
      TraversalsPermute(t.left);
      TraversalsPermute(t.right);
    }
  }

  predicate Sorted(s: seq<int>)
  {
    forall i, j :: 0 <= i < j < |s| ==> s[i] <= s[j]
  }

  predicate AllAtMost(t: Tree, bound: int)
  {
    forall x :: x in Elems(t) ==> x <= bound
  }

  predicate AllAtLeast(t: Tree, bound: int)
  {
    forall x :: x in Elems(t) ==> bound <= x
  }

  /**
   * Search-tree order with duplicates allowed on either side: every value in a
   * node's left subtree is at most the node's value, every value in its right
   * subtree at least.
   */
  predicate IsBst(t: Tree)
  {
    match t
    case Nil => true
    case Node(l, v, r) => IsBst(l) && IsBst(r) && AllAtMost(l, v) && AllAtLeast(r, v)
  }

  lemma SortedConcat(a: seq<int>, v: int, b: seq<int>)
    ensures Sorted(a + [v] + b) <==>
              Sorted(a) && Sorted(b) && (forall x :: x in a ==> x <= v) && (forall x :: x in b ==> v <= x)
  {
    if Sorted(a + [v] + b) {
      SortedConcatSplits(a, v, b);
    }
    if Sorted(a) && Sorted(b) && (forall x :: x in a ==> x <= v) && (forall x :: x in b ==> v <= x) {
      SortedConcatJoins(a, v, b);
    }
  }

  lemma SortedConcatSplits(a: seq<int>, v: int, b: seq<int>)
    requires Sorted(a + [v] + b)
    ensures Sorted(a) && Sorted(b) && (forall x :: x in a ==> x <= v) && (forall x :: x in b ==> v <= x)
  {
    var s := a + [v] + b;
    assert forall i :: 0 <= i < |a| ==> s[i] == a[i];
    assert forall i :: 0 <= i < |b| ==> s[|a| + 1 + i] == b[i];
    assert s[|a|] == v;
    forall x | x in a ensures x <= v {
      var i :| 0 <= i < |a| && a[i] == x;
      assert s[i] == x;
    }
    forall x | x in b ensures v <= x {
      var i :| 0 <= i < |b| && b[i] == x;
      assert s[|a| + 1 + i] == x;
    }
  }

  lemma SortedConcatJoins(a: seq<int>, v: int, b: seq<int>)
    requires Sorted(a) && Sorted(b) && (forall x :: x in a ==> x <= v) && (forall x :: x in b ==> v <= x)
    ensures Sorted(a + [v] + b)
  {
    var s := a + [v] + b;
    forall i, j | 0 <= i < j < |s| ensures s[i] <= s[j] {
      if j < |a| {
        assert s[i] == a[i] && s[j] == a[j];
      } else if i > |a| {
        assert s[i] == b[i - |a| - 1] && s[j] == b[j - |a| - 1];
      } else {
        assert s[i] <= v by {
          if i < |a| { assert s[i] == a[i] && a[i] in a; }
        }
        assert v <= s[j] by {
          if j > |a| { assert s[j] == b[j - |a| - 1] && b[j - |a| - 1] in b; }
        }
      }
    }
  }

  /** The in-order output is sorted exactly when the tree is in search-tree order. */
  lemma {:induction false} InorderSortedIffBst(t: Tree)
    ensures Sorted(Inorder(t)) <==> IsBst(t)
  {
    match t
    case Nil =>
    case Node(l, v, r) =>
      InorderSortedIffBst(l);
      InorderSortedIffBst(r);
      SortedConcat(Inorder(l), v, Inorder(r));
      InorderHoldsElems(l);
      InorderHoldsElems(r);
  }

  lemma InorderHoldsElems(t: Tree)
    ensures forall x :: x in Inorder(t) <==> x in Elems(t)
  {
    TraversalsPermute(t);
    assert forall x :: x in Inorder(t) <==> x in multiset(Inorder(t));
  }
}
