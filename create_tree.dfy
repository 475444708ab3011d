/**
 * createTreeHelper / createTree: building a tree from a level-order array in which
 * position i has its children at 2i+1 and 2i+2, and -1 or a position past `size`
 * stands for "no node here".
 */
module LevelOrder {
  import opened BinaryTree

  /** The array value that marks an absent node. */
  const Sentinel: Int32 := -1

  /** Position `i` holds a node: it lies among the first `size` entries and is not the sentinel. */
  predicate Present(arr: seq<Int32>, size: int, i: nat)
    requires size <= |arr|
  {
    i < size && arr[i] != Sentinel
  }

  /** The array position of a node's child in direction `d`. */
  function ChildIndex(i: nat, d: Dir): nat
  {
    if d == Left then 2 * i + 1 else 2 * i + 2
  }

  /** The array position reached from position `i` by following `p`. */
  function PathIndex(i: nat, p: seq<Dir>): nat
    decreases |p|
  {
    if p == [] then i else PathIndex(ChildIndex(i, p[0]), p[1..])
  }

  /** Every position strictly above the end of `p`, starting at `i`, holds a node. */
  predicate Reaches(arr: seq<Int32>, size: int, i: nat, p: seq<Dir>)
    requires size <= |arr|
    decreases |p|
  {
    p == [] || (Present(arr, size, i) && Reaches(arr, size, ChildIndex(i, p[0]), p[1..]))
  }

  /**
   * createTreeHelper: the subtree for position `index`. The caller's array has at
   * least `size` entries; a negative `size` builds nothing.
   */
  function CreateTreeHelper(arr: seq<Int32>, size: int, index: nat): (t: Tree)
    requires size <= |arr|
    ensures t == Nil <==> !Present(arr, size, index)
    ensures t.Node? ==> t.value == arr[index]
    ensures t.Node? ==> (t.left.Node? <==> Present(arr, size, 2 * index + 1))
    ensures t.Node? ==> (t.right.Node? <==> Present(arr, size, 2 * index + 2))
    decreases if index < size then size - index else 0
  {
    if index >= size || arr[index] == Sentinel then Nil
    else Node(CreateTreeHelper(arr, size, 2 * index + 1), arr[index], CreateTreeHelper(arr, size, 2 * index + 2))
  }

  /** createTree: absent exactly for an empty array or a sentinel at the root position. */
  function CreateTree(arr: seq<Int32>, size: int): (t: Tree)
    requires size <= |arr|
    ensures t == Nil <==> size <= 0 || arr[0] == Sentinel
    ensures t.Node? ==> t.value == arr[0]
    ensures Sentinel !in Elems(t)
    ensures Size(t) <= if size > 0 then size else 0
  {
    CreateTreeSize(arr, size);
    CreateTreeNoSentinel(arr, size, 0);
    CreateTreeHelper(arr, size, 0)
  }

  /** No node ever holds the sentinel value. */
  lemma {:induction false} CreateTreeNoSentinel(arr: seq<Int32>, size: int, i: nat)
    requires size <= |arr|
    ensures Sentinel !in Elems(CreateTreeHelper(arr, size, i))
    decreases if i < size then size - i else 0
  {
    if Present(arr, size, i) {
      CreateTreeNoSentinel(arr, size, 2 * i + 1);
      CreateTreeNoSentinel(arr, size, 2 * i + 2);
    }
  }

  /**
   * Following `p` from the node built at `i` leads to the node built at the position
   * `p` names, provided every position above it holds a node; otherwise to nothing.
   */
  lemma {:induction false} CreateTreeShape(arr: seq<Int32>, size: int, i: nat, p: seq<Dir>)
    requires size <= |arr|
    ensures Subtree(CreateTreeHelper(arr, size, i), p)
            == if Reaches(arr, size, i, p) then CreateTreeHelper(arr, size, PathIndex(i, p)) else Nil
    decreases |p|
  {
    if p != [] && Present(arr, size, i) {
      CreateTreeShape(arr, size, ChildIndex(i, p[0]), p[1..]);
    }
  }

  /** The tree has a node at path `p` exactly when every position on the way is present, and it holds that position's entry. */
  lemma CreateTreeNodeAt(arr: seq<Int32>, size: int, p: seq<Dir>)
    requires size <= |arr|
    ensures var n := Subtree(CreateTree(arr, size), p);
            n.Node? <==> Reaches(arr, size, 0, p) && Present(arr, size, PathIndex(0, p))
    ensures var n := Subtree(CreateTree(arr, size), p);
            n.Node? ==> Present(arr, size, PathIndex(0, p)) && n.value == arr[PathIndex(0, p)]
  {
    CreateTreeShape(arr, size, 0, p);
  }

  lemma {:induction false} AbsentCutsPath(arr: seq<Int32>, size: int, i: nat, p: seq<Dir>, k: nat)
    requires size <= |arr|
    requires k < |p| && !Present(arr, size, PathIndex(i, p[..k]))
    ensures !Reaches(arr, size, i, p)
    decreases k
  {
    if k > 0 && Present(arr, size, i) {
      assert p[..k][0] == p[0];
      assert p[..k][1..] == p[1..][..k - 1];
      AbsentCutsPath(arr, size, ChildIndex(i, p[0]), p[1..], k - 1);
    }
  }

  /**
   * No descendant of an absent position is ever built, whatever the array holds
   * at the descendant's own position.
   */
  lemma AbsentHasNoDescendants(arr: seq<Int32>, size: int, p: seq<Dir>, k: nat)
    requires size <= |arr|
    requires k <= |p| && !Present(arr, size, PathIndex(0, p[..k]))
    ensures Subtree(CreateTree(arr, size), p) == Nil
  {
    CreateTreeShape(arr, size, 0, p);
    if k < |p| {
      AbsentCutsPath(arr, size, 0, p, k);
    } else {
      assert p[..k] == p;
    }
  }

  /** Position `k` lies in the level-order subtree rooted at position `i`. */
  predicate InSubtreeOf(k: nat, i: nat)
    decreases k
  {
    k == i || (k > i && InSubtreeOf((k - 1) / 2, i))
  }

  /** The positions createTreeHelper turns into nodes below (and at) position `i`. */
  ghost function BuiltIndices(arr: seq<Int32>, size: int, i: nat): set<nat>
    requires size <= |arr|
    decreases if i < size then size - i else 0
  {
    if !Present(arr, size, i) then {}
    else {i} + BuiltIndices(arr, size, 2 * i + 1) + BuiltIndices(arr, size, 2 * i + 2)
  }

  lemma {:induction false} InSubtreeOfParent(k: nat, c: nat, i: nat)
    requires c == 2 * i + 1 || c == 2 * i + 2
    requires InSubtreeOf(k, c)
    ensures InSubtreeOf(k, i)
    decreases k
  {
    if k != c {
      InSubtreeOfParent((k - 1) / 2, c, i);
    }
  }

  /** The level-order subtrees of two siblings share no position. */
  lemma {:induction false} SiblingSubtreesDisjoint(k: nat, i: nat)
    ensures !(InSubtreeOf(k, 2 * i + 1) && InSubtreeOf(k, 2 * i + 2))
    decreases k
  {
    if k > 2 * i + 2 {
      SiblingSubtreesDisjoint((k - 1) / 2, i);
    }
  }

  lemma {:induction false} BuiltIndicesBelow(arr: seq<Int32>, size: int, i: nat)
    requires size <= |arr|
    ensures forall k :: k in BuiltIndices(arr, size, i) ==> i <= k < size && InSubtreeOf(k, i)
    decreases if i < size then size - i else 0
  {
    if Present(arr, size, i) {
      BuiltIndicesBelow(arr, size, 2 * i + 1);
      BuiltIndicesBelow(arr, size, 2 * i + 2);
      forall k | k in BuiltIndices(arr, size, 2 * i + 1) ensures InSubtreeOf(k, i) {
        InSubtreeOfParent(k, 2 * i + 1, i);
      }
      forall k | k in BuiltIndices(arr, size, 2 * i + 2) ensures InSubtreeOf(k, i) {
        InSubtreeOfParent(k, 2 * i + 2, i);
      }
    }
  }

  /** Each node comes from its own array position. */
  lemma {:induction false} SizeIsBuiltIndices(arr: seq<Int32>, size: int, i: nat)
    requires size <= |arr|
    ensures Size(CreateTreeHelper(arr, size, i)) == |BuiltIndices(arr, size, i)|
    decreases if i < size then size - i else 0
  {
    if Present(arr, size, i) {
      var l, r := BuiltIndices(arr, size, 2 * i + 1), BuiltIndices(arr, size, 2 * i + 2);
      SizeIsBuiltIndices(arr, size, 2 * i + 1);
      SizeIsBuiltIndices(arr, size, 2 * i + 2);
      assert l !! r by {
        BuiltIndicesBelow(arr, size, 2 * i + 1);
        BuiltIndicesBelow(arr, size, 2 * i + 2);
        forall k | k in l ensures k !in r {
          SiblingSubtreesDisjoint(k, i);
        }
      }
      assert i !in l && i !in r by {
        BuiltIndicesBelow(arr, size, 2 * i + 1);
        BuiltIndicesBelow(arr, size, 2 * i + 2);
      }
      DisjointUnionSize({i}, l);
      DisjointUnionSize({i} + l, r);
    }
  }

  lemma DisjointUnionSize(a: set<nat>, b: set<nat>)
    requires a !! b
    ensures |a + b| == |a| + |b|
  {
    assert a * b == {};
  }

  /** The positions 0 .. n-1. */
  ghost function Range(n: nat): (s: set<nat>)
    ensures forall k: nat :: k in s <==> k < n
    ensures |s| == n
  {
    if n == 0 then {} else Range(n - 1) + {n - 1}
  }

  lemma SubsetSize(a: set<nat>, b: set<nat>)
    requires a <= b
    ensures |a| <= |b|
  {
    assert b == a + (b - a);
  }

  /** The tree never has more nodes than the array has entries. */
  lemma CreateTreeSize(arr: seq<Int32>, size: int)
    requires size <= |arr|
    ensures Size(CreateTreeHelper(arr, size, 0)) <= if size > 0 then size else 0
  {
    SizeIsBuiltIndices(arr, size, 0);
    BuiltIndicesBelow(arr, size, 0);
    if size > 0 {
      SubsetSize(BuiltIndices(arr, size, 0), Range(size));
    }
  }

  lemma {:induction false} ChildBuilt(arr: seq<Int32>, size: int, i: nat, k: nat, d: Dir)
    requires size <= |arr|
    requires k in BuiltIndices(arr, size, i) && Present(arr, size, ChildIndex(k, d))
    ensures ChildIndex(k, d) in BuiltIndices(arr, size, i)
    decreases if i < size then size - i else 0
  {
    if k != i {
      if k in BuiltIndices(arr, size, 2 * i + 1) {
        ChildBuilt(arr, size, 2 * i + 1, k, d);
      } else {
        ChildBuilt(arr, size, 2 * i + 2, k, d);
      }
    } else {
      var c := ChildIndex(k, d);
      assert c in BuiltIndices(arr, size, c);
    }
  }

  lemma {:induction false} EveryPositionBuilt(arr: seq<Int32>, size: int, k: nat)
    requires size <= |arr|
    requires forall j :: 0 <= j < size ==> arr[j] != Sentinel
    requires k < size
    ensures k in BuiltIndices(arr, size, 0)
    decreases k
  {
    if k > 0 {
      var parent := (k - 1) / 2;
      EveryPositionBuilt(arr, size, parent);
      ChildBuilt(arr, size, 0, parent, if k % 2 == 1 then Left else Right);
    }
  }

  /** An array with no sentinel among its `size` entries builds a tree of exactly `size` nodes. */
  lemma CreateTreeComplete(arr: seq<Int32>, size: int)
    requires size <= |arr|
    requires forall j :: 0 <= j < size ==> arr[j] != Sentinel
    ensures Size(CreateTree(arr, size)) == if size > 0 then size else 0
  {
    SizeIsBuiltIndices(arr, size, 0);
    BuiltIndicesBelow(arr, size, 0);
    if size > 0 {
      forall k: nat | k < size ensures k in BuiltIndices(arr, size, 0) {
        EveryPositionBuilt(arr, size, k);
      }
      assert BuiltIndices(arr, size, 0) == Range(size);
    }
  }
}
