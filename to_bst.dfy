/**
 * toBSTHelper / toBST: top-down pruning with an inherited window [minValue, maxValue];
 * a node outside its window is dropped together with everything below it.
 */
module BstPrune {
  import opened BinaryTree

  /** Every value of `t` lies in the window [lo, hi]. */
  predicate AllWithin(t: Tree, lo: int, hi: int)
  {
    AllAtLeast(t, lo) && AllAtMost(t, hi)
  }

  /**
   * toBSTHelper. The node's own value becomes the upper bound of its left child's
   * window and the lower bound of its right child's, both inclusive, so a child
   * equal to its parent is kept on either side.
   */
  function ToBstHelper(t: Tree, minValue: int, maxValue: int): (r: Tree)
    ensures Embedded(r, t)
    ensures IsBst(r)
    ensures AllWithin(r, minValue, maxValue)
  {
    match t
    case Nil => Nil
    case Node(l, v, rt) =>
      if v < minValue || v > maxValue then Nil
      else Node(ToBstHelper(l, minValue, v), v, ToBstHelper(rt, v, maxValue))
  }

  /** toBST: the window of the root is the whole range of a C int. */
  function ToBst(t: Tree): (r: Tree)
    ensures t.Node? ==> r.Node? && r.value == t.value
    ensures Embedded(r, t)
    ensures Size(r) <= Size(t) && Elems(r) <= Elems(t)
    ensures IsBst(r)
    ensures Sorted(Inorder(r))
  {
    EmbeddedShrinks(ToBstHelper(t, IntMin, IntMax), t);
    InorderSortedIffBst(ToBstHelper(t, IntMin, IntMax));
    ToBstHelper(t, IntMin, IntMax)
  }

  /** A tree already in search-tree order inside the window is left as it is. */
  lemma {:induction false} ToBstKeepsSearchTree(t: Tree, lo: int, hi: int)
    requires IsBst(t) && AllWithin(t, lo, hi)
    ensures ToBstHelper(t, lo, hi) == t
  {
    if t.Node? {
      assert t.value in Elems(t);
      assert AllWithin(t.left, lo, t.value) by {
        forall x | x in Elems(t.left) ensures lo <= x {
          assert x in Elems(t);
        }
      }
      assert AllWithin(t.right, t.value, hi) by {
        forall x | x in Elems(t.right) ensures x <= hi {
          assert x in Elems(t);
        }
      }
      ToBstKeepsSearchTree(t.left, lo, t.value);
      ToBstKeepsSearchTree(t.right, t.value, hi);
    }
  }

  /** Pruning the pruned tree again changes nothing. */
  lemma ToBstIdempotent(t: Tree)
    ensures ToBst(ToBst(t)) == ToBst(t)
  {
    ToBstKeepsSearchTree(ToBst(t), IntMin, IntMax);
  }

  /** The lower bound of the window toBSTHelper gives the node at the end of `p`. */
  function WindowLow(t: Tree, p: seq<Dir>, lo: int, hi: int): int
    decreases |p|
  {
    if p == [] || t == Nil then lo
    else if p[0] == Left then WindowLow(t.left, p[1..], lo, t.value)
    else WindowLow(t.right, p[1..], t.value, hi)
  }

  /** The upper bound of the window toBSTHelper gives the node at the end of `p`. */
  function WindowHigh(t: Tree, p: seq<Dir>, lo: int, hi: int): int
    decreases |p|
  {
    if p == [] || t == Nil then hi
    else if p[0] == Left then WindowHigh(t.left, p[1..], lo, t.value)
    else WindowHigh(t.right, p[1..], t.value, hi)
  }

  /** Every node strictly above the end of `p` lies inside its own window. */
  predicate AncestorsFit(t: Tree, p: seq<Dir>, lo: int, hi: int)
    decreases |p|
  {
    p == [] ||
    (t.Node? && lo <= t.value <= hi &&
     if p[0] == Left then AncestorsFit(t.left, p[1..], lo, t.value)
     else AncestorsFit(t.right, p[1..], t.value, hi))
  }

  /**
   * What is left at a position is the pruning of the original subtree there with
   * the window its ancestors give it, provided each ancestor fit its own window;
   * otherwise nothing is left there.
   */
  lemma {:induction false} ToBstAt(t: Tree, lo: int, hi: int, p: seq<Dir>)
    ensures Subtree(ToBstHelper(t, lo, hi), p)
            == if AncestorsFit(t, p, lo, hi)
               then ToBstHelper(Subtree(t, p), WindowLow(t, p, lo, hi), WindowHigh(t, p, lo, hi))
               else Nil
    decreases |p|
  {
    if p != [] && t.Node? && lo <= t.value <= hi {
      var pruned := ToBstHelper(t, lo, hi);
      assert pruned == Node(ToBstHelper(t.left, lo, t.value), t.value, ToBstHelper(t.right, t.value, hi));
      if p[0] == Left {
        assert Subtree(pruned, p) == Subtree(ToBstHelper(t.left, lo, t.value), p[1..]);
        ToBstAt(t.left, lo, t.value, p[1..]);
      } else {
        assert Subtree(pruned, p) == Subtree(ToBstHelper(t.right, t.value, hi), p[1..]);
        ToBstAt(t.right, t.value, hi, p[1..]);
      }
    }
  }

  /**
   * A node whose value lies outside the window its ancestors give it is removed
   * together with every node below it, whatever their values.
   */
  lemma ToBstDropsWholeSubtree(t: Tree, p: seq<Dir>, q: seq<Dir>)
    requires Subtree(t, p).Node?
    requires var v := Subtree(t, p).value;
             v < WindowLow(t, p, IntMin, IntMax) || v > WindowHigh(t, p, IntMin, IntMax)
    ensures Subtree(ToBst(t), p + q) == Nil
  {
    ToBstAt(t, IntMin, IntMax, p);
    SubtreeConcat(ToBst(t), p, q);
    SubtreeOfNil(q);
  }
}
