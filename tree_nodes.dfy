/**
 * The heap side of binary_tree.c: nodes are objects whose `left` and `right`
 * fields the pruning helpers overwrite in place. Each node keeps, as ghost
 * state, the set of objects it owns (`Repr`) and the value tree it stands for
 * (`Model`); every operation is proved against the value-level definition.
 */
module TreeNodes {
  import opened BinaryTree
  import LevelOrder
  import PathSumTrim
  import BstPrune

  class TreeNode {
    var data: Int32
    var left: TreeNode?
    var right: TreeNode?
    ghost var Repr: set<object>
    ghost var Model: Tree

    /** Ownership is a tree: each child owns a part of `Repr` that excludes this node and the other child's part. */
    ghost predicate Valid()
      reads this, Repr
      decreases Repr
    {
      && this in Repr
      && (left != null ==>
            left in Repr && left.Repr <= Repr && this !in left.Repr && left.Valid())
      && (right != null ==>
            right in Repr && right.Repr <= Repr && this !in right.Repr && right.Valid())
      && (left != null && right != null ==> left.Repr !! right.Repr)
      && Model == Node(ModelOf(left), data, ModelOf(right))
    }

    /** createNode: a node holding `data` with no children. */
    constructor (data: Int32)
      ensures Valid() && fresh(Repr)
      ensures this.data == data && left == null && right == null
      ensures Model == CreateNode(data)
    {
      this.data := data;
      left := null;
      right := null;
      Repr := {this};
      Model := Node(Nil, data, Nil);
    }
  }

  /** The value tree a possibly absent node stands for. */
  ghost function ModelOf(n: TreeNode?): Tree
    reads n
  {
    if n == null then Nil else n.Model
  }

  /** The objects a possibly absent node owns. */
  ghost function ReprOf(n: TreeNode?): set<object>
    reads n
  {
    if n == null then {} else n.Repr
  }

  ghost predicate ValidOrNull(n: TreeNode?)
    reads n, ReprOf(n)
  {
    n != null ==> n.Valid()
  }

  /**
   * Makes `l` and `r` the children of `node`, which owns them from then on.
   * (The ghost bookkeeping that goes with `node->left = ...; node->right = ...;`.)
   */
  method Attach(node: TreeNode, l: TreeNode?, r: TreeNode?)
    requires ValidOrNull(l) && ValidOrNull(r)
    requires node !in ReprOf(l) && node !in ReprOf(r) && ReprOf(l) !! ReprOf(r)
    modifies node
    ensures node.Valid() && ValidOrNull(l) && ValidOrNull(r)
    ensures node.left == l && node.right == r && node.data == old(node.data)
    ensures node.Repr == {node} + ReprOf(l) + ReprOf(r)
    ensures node.Model == Node(ModelOf(l), node.data, ModelOf(r))
  {
    node.left := l;
    node.right := r;
    node.Repr := {node} + ReprOf(l) + ReprOf(r);
    node.Model := Node(ModelOf(l), node.data, ModelOf(r));
  }

  /** createTreeHelper on the heap: allocates the nodes for position `index` and below. */
  method CreateTreeHelper(arr: seq<Int32>, size: int, index: nat) returns (node: TreeNode?)
    requires size <= |arr|
    ensures ValidOrNull(node) && fresh(ReprOf(node))
    ensures ModelOf(node) == LevelOrder.CreateTreeHelper(arr, size, index)
    decreases if index < size then size - index else 0
  {
    if index >= size || arr[index] == LevelOrder.Sentinel {
      return null;
    }
    var n := new TreeNode(arr[index]);
    var l := CreateTreeHelper(arr, size, 2 * index + 1);
    var r := CreateTreeHelper(arr, size, 2 * index + 2);
    Attach(n, l, r);
    node := n;
  }

  /** createTree on the heap. */
  method CreateTree(arr: seq<Int32>, size: int) returns (root: TreeNode?)
    requires size <= |arr|
    ensures ValidOrNull(root) && fresh(ReprOf(root))
    ensures ModelOf(root) == LevelOrder.CreateTree(arr, size)
  {
    root := CreateTreeHelper(arr, size, 0);
  }

  /** inorderTraversal: the values it prints, in order. */
  method InorderTraversal(root: TreeNode?) returns (out: seq<int>)
    requires ValidOrNull(root)
    ensures out == Inorder(ModelOf(root))
    decreases ReprOf(root)
  {
    if root == null {
      return [];
    }
    var l := InorderTraversal(root.left);
    var r := InorderTraversal(root.right);
    out := l + [root.data] + r;
  }

  /** preorderTraversal: the values it prints, in order. */
  method PreorderTraversal(root: TreeNode?) returns (out: seq<int>)
    requires ValidOrNull(root)
    ensures out == Preorder(ModelOf(root))
    decreases ReprOf(root)
  {
    if root == null {
      return [];
    }
    var l := PreorderTraversal(root.left);
    var r := PreorderTraversal(root.right);
    out := [root.data] + l + r;
  }

  /**
   * trimTreeHelper in place: the children are trimmed and reattached first; the
   * node is then released when it has become a leaf with its path sum out of range.
   * What is returned is the node itself or nothing, and it owns no new objects.
   */
  method TrimTreeHelper(root: TreeNode?, low: Int32, high: Int32, currentSum: int) returns (r: TreeNode?)
    requires ValidOrNull(root)
    modifies ReprOf(root)
    ensures r == null || r == root
    ensures ValidOrNull(r) && ReprOf(r) <= old(ReprOf(root))
    ensures ModelOf(r) == PathSumTrim.TrimTreeHelper(old(ModelOf(root)), low, high, currentSum)
    decreases ReprOf(root)
  {
    if root == null {
      return null;
    }
    var sum := currentSum + root.data;
    ghost var right, rightRepr := root.right, ReprOf(root.right);
    assert ValidOrNull(root.left) && ValidOrNull(right);
    assert root !in ReprOf(root.left) && ReprOf(root.left) !! rightRepr;
    assert right != null ==> right in rightRepr;
    var l := TrimTreeHelper(root.left, low, high, sum);
    assert root.right == right && ValidOrNull(right) && ReprOf(right) == rightRepr;
    var rt := TrimTreeHelper(root.right, low, high, sum);
    Attach(root, l, rt);
    if root.left == null && root.right == null && (sum < low || sum > high) {
      return null;
    }
    return root;
  }

  /** trimTree in place. */
  method TrimTree(root: TreeNode?, low: Int32, high: Int32) returns (r: TreeNode?)
    requires ValidOrNull(root)
    modifies ReprOf(root)
    ensures r == null || r == root
    ensures ValidOrNull(r) && ReprOf(r) <= old(ReprOf(root))
    ensures ModelOf(r) == PathSumTrim.TrimTree(old(ModelOf(root)), low, high)
  {
    r := TrimTreeHelper(root, low, high, 0);
  }

  /**
   * toBSTHelper in place: a node outside its window is released with its whole
   * subtree; otherwise its children are pruned with the narrowed windows and
   * reattached.
   */
  method ToBstHelper(root: TreeNode?, minValue: int, maxValue: int) returns (r: TreeNode?)
    requires ValidOrNull(root)
    modifies ReprOf(root)
    ensures r == null || r == root
    ensures ValidOrNull(r) && ReprOf(r) <= old(ReprOf(root))
    ensures ModelOf(r) == BstPrune.ToBstHelper(old(ModelOf(root)), minValue, maxValue)
    decreases ReprOf(root)
  {
    if root == null {
      return null;
    }
    if root.data < minValue || root.data > maxValue {
      return null;
    }
    ghost var right, rightRepr := root.right, ReprOf(root.right);
    assert ValidOrNull(root.left) && ValidOrNull(right);
    assert root !in ReprOf(root.left) && ReprOf(root.left) !! rightRepr;
    assert right != null ==> right in rightRepr;
    var l := ToBstHelper(root.left, minValue, root.data);
    assert root.right == right && ValidOrNull(right) && ReprOf(right) == rightRepr;
    var rt := ToBstHelper(root.right, root.data, maxValue);
    Attach(root, l, rt);
    return root;
  }

  /** toBST in place: the root of a non-empty tree is always the node returned. */
  method ToBst(root: TreeNode?) returns (r: TreeNode?)
    requires ValidOrNull(root)
    modifies ReprOf(root)
    ensures r == root
    ensures ValidOrNull(r) && ReprOf(r) <= old(ReprOf(root))
    ensures ModelOf(r) == BstPrune.ToBst(old(ModelOf(root)))
  {
    r := ToBstHelper(root, IntMin, IntMax);
  }
}
