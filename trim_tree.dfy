/**
 * trimTreeHelper / trimTree: bottom-up removal of leaves whose root-to-leaf sum
 * lies outside [low, high], cascading upward as parents become leaves.
 */
module PathSumTrim {
  import opened BinaryTree

  predicate InRange(x: int, low: int, high: int)
  {
    low <= x <= high
  }

  /** The root-to-node sum of every node of `t`, where `sum` is the sum of the values above `t`. */
  function PathSums(t: Tree, sum: int): set<int>
  {
    match t
    case Nil => {}
    case Node(l, v, r) => {sum + v} + PathSums(l, sum + v) + PathSums(r, sum + v)
  }

  /** The root-to-leaf sum of every leaf of `t`, where `sum` is the sum of the values above `t`. */
  function LeafSums(t: Tree, sum: int): set<int>
  {
    match t
    case Nil => {}
    case Node(l, v, r) =>
      if l == Nil && r == Nil then {sum + v} else LeafSums(l, sum + v) + LeafSums(r, sum + v)
  }

  /** The sum of the values strictly above the end of `p`, added to `sum`. */
  function SumAbove(t: Tree, p: seq<Dir>, sum: int): int
    decreases |p|
  {
    if p == [] || t == Nil then sum
    else if p[0] == Left then SumAbove(t.left, p[1..], sum + t.value)
    else SumAbove(t.right, p[1..], sum + t.value)
  }

  /**
   * trimTreeHelper: `currentSum` is the sum of the values above `t`. The children
   * are trimmed first; a node that is then a leaf is dropped when its own path
   * sum is out of range. Surviving nodes keep their values and positions.
   * Path sums are unbounded integers.
   */
  function TrimTreeHelper(t: Tree, low: Int32, high: Int32, currentSum: int): (r: Tree)
    ensures Embedded(r, t)
  {
    match t
    case Nil => Nil
    case Node(l, v, rt) =>
      var s := currentSum + v;
      var l' := TrimTreeHelper(l, low, high, s);
      var r' := TrimTreeHelper(rt, low, high, s);
      if l' == Nil && r' == Nil && (s < low || s > high) then Nil else Node(l', v, r')
  }

  /** Every leaf left after trimming has its root-to-leaf sum in range. */
  lemma {:induction false} TrimLeavesInRange(t: Tree, low: Int32, high: Int32, sum: int)
    ensures forall x :: x in LeafSums(TrimTreeHelper(t, low, high, sum), sum) ==> InRange(x, low, high)
  {
    if t.Node? {
      TrimLeavesInRange(t.left, low, high, sum + t.value);
      TrimLeavesInRange(t.right, low, high, sum + t.value);
    }
  }

  /**
   * A subtree disappears exactly when none of its nodes has its path sum in range:
   * a node whose own sum is out of range survives as long as something below it does.
   */
  lemma {:induction false} TrimRemovesExactly(t: Tree, low: Int32, high: Int32, sum: int)
    ensures TrimTreeHelper(t, low, high, sum) == Nil <==> forall x :: x in PathSums(t, sum) ==> !InRange(x, low, high)
  {
    if t.Node? {
      var s := sum + t.value;
      TrimRemovesExactly(t.left, low, high, s);
      TrimRemovesExactly(t.right, low, high, s);
      assert PathSums(t, sum) == {s} + PathSums(t.left, s) + PathSums(t.right, s);
      assert (forall x :: x in PathSums(t, sum) ==> !InRange(x, low, high)) <==>
             !InRange(s, low, high)
             && (forall x :: x in PathSums(t.left, s) ==> !InRange(x, low, high))
             && (forall x :: x in PathSums(t.right, s) ==> !InRange(x, low, high));
    }
  }

  /**
   * What is left at any position is the trimming of the original subtree there,
   * given the sum above it: each node's fate depends on its own subtree only.
   */
  lemma {:induction false} TrimAt(t: Tree, low: Int32, high: Int32, sum: int, p: seq<Dir>)
    ensures Subtree(TrimTreeHelper(t, low, high, sum), p)
            == TrimTreeHelper(Subtree(t, p), low, high, SumAbove(t, p, sum))
    decreases |p|
  {
    if p != [] && t.Node? {
      var s := sum + t.value;
      if p[0] == Left {
        TrimAt(t.left, low, high, s, p[1..]);
      } else {
        TrimAt(t.right, low, high, s, p[1..]);
      }
    }
  }

  /** Trimming a trimmed tree again with the same bounds changes nothing. */
  lemma {:induction false} TrimIdempotent(t: Tree, low: Int32, high: Int32, sum: int)
    ensures TrimTreeHelper(TrimTreeHelper(t, low, high, sum), low, high, sum) == TrimTreeHelper(t, low, high, sum)
  {
    if t.Node? {
      TrimIdempotent(t.left, low, high, sum + t.value);
      TrimIdempotent(t.right, low, high, sum + t.value);
    }
  }

  /** trimTree: the trimming seen from the root, where the sum above is 0. */
  function TrimTree(t: Tree, low: Int32, high: Int32): (r: Tree)
    ensures Embedded(r, t)
    ensures Size(r) <= Size(t) && Elems(r) <= Elems(t)
    ensures forall x :: x in LeafSums(r, 0) ==> InRange(x, low, high)
    ensures r == Nil <==> forall x :: x in PathSums(t, 0) ==> !InRange(x, low, high)
    ensures TrimTreeHelper(r, low, high, 0) == r
  {
    EmbeddedShrinks(TrimTreeHelper(t, low, high, 0), t);
    TrimLeavesInRange(t, low, high, 0);
    TrimRemovesExactly(t, low, high, 0);
    TrimIdempotent(t, low, high, 0);
    TrimTreeHelper(t, low, high, 0)
  }
}
