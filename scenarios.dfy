/** Worked examples of the operations on small concrete inputs. */
module Scenarios {
  import opened BinaryTree
  import opened LevelOrder
  import opened PathSumTrim
  import opened BstPrune

  /** The level-order array [8,3,10,1,6,-1,14,-1,-1,4,7,-1,-1,-1,13]. */
  function ExampleArray(): seq<Int32>
  {
    [8, 3, 10, 1, 6, -1, 14, -1, -1, 4, 7, -1, -1, -1, 13]
  }

  /** The tree the example array describes. */
  function ExampleTree(): Tree
  {
    Node(Node(Node(Nil, 1, Nil), 3, Node(Node(Nil, 4, Nil), 6, Node(Nil, 7, Nil))), 8, Node(Nil, 10, Node(Nil, 14, Node(Nil, 13, Nil))))
  }

  /** The example array gives nine nodes; 13 sits at position 14, the right child of 14. */
  lemma LevelOrderExample()
    ensures CreateTree(ExampleArray(), 15) == ExampleTree()
    ensures Size(ExampleTree()) == 9
  {
    LevelOrderExampleLeft();
    LevelOrderExampleRight();
  }

  lemma LevelOrderExampleLeft()
    ensures CreateTreeHelper(ExampleArray(), 15, 1)
            == Node(Node(Nil, 1, Nil), 3, Node(Node(Nil, 4, Nil), 6, Node(Nil, 7, Nil)))
  {
    var arr := ExampleArray();
    assert CreateTreeHelper(arr, 15, 3) == Node(Nil, 1, Nil);
    assert CreateTreeHelper(arr, 15, 4) == Node(Node(Nil, 4, Nil), 6, Node(Nil, 7, Nil));
  }

  lemma LevelOrderExampleRight()
    ensures CreateTreeHelper(ExampleArray(), 15, 2) == Node(Nil, 10, Node(Nil, 14, Node(Nil, 13, Nil)))
  {
    var arr := ExampleArray();
    assert CreateTreeHelper(arr, 15, 6) == Node(Nil, 14, Node(Nil, 13, Nil));
  }

  /** So the in-order output of the example is not sorted. */
  lemma InorderExample()
    ensures Inorder(ExampleTree()) == [1, 3, 4, 6, 7, 8, 10, 14, 13]
    ensures !Sorted(Inorder(ExampleTree()))
  {
    assert Inorder(Node(Node(Nil, 1, Nil), 3, Node(Node(Nil, 4, Nil), 6, Node(Nil, 7, Nil)))) == [1, 3, 4, 6, 7];
    assert Inorder(Node(Nil, 10, Node(Nil, 14, Node(Nil, 13, Nil)))) == [10, 14, 13];
    var s := Inorder(ExampleTree());
    assert s[7] == 14 && s[8] == 13;
  }

  lemma PreorderExample()
    ensures Preorder(ExampleTree()) == [8, 3, 1, 6, 4, 7, 10, 14, 13]
  {
  }

  /** toBST on the example keeps everything but 13, which is below its parent 14 on the right. */
  lemma ToBstExample()
    ensures ToBst(ExampleTree()) == Node(Node(Node(Nil, 1, Nil), 3, Node(Node(Nil, 4, Nil), 6, Node(Nil, 7, Nil))), 8, Node(Nil, 10, Node(Nil, 14, Nil)))
  {
    ToBstExampleLeft();
    ToBstExampleRight();
  }

  lemma ToBstExampleLeft()
    ensures ToBstHelper(Node(Node(Nil, 1, Nil), 3, Node(Node(Nil, 4, Nil), 6, Node(Nil, 7, Nil))), IntMin, 8)
            == Node(Node(Nil, 1, Nil), 3, Node(Node(Nil, 4, Nil), 6, Node(Nil, 7, Nil)))
  {
    assert ToBstHelper(Node(Nil, 1, Nil), IntMin, 3) == Node(Nil, 1, Nil);
    assert ToBstHelper(Node(Node(Nil, 4, Nil), 6, Node(Nil, 7, Nil)), 3, 8) == Node(Node(Nil, 4, Nil), 6, Node(Nil, 7, Nil));
  }

  lemma ToBstExampleRight()
    ensures ToBstHelper(Node(Nil, 10, Node(Nil, 14, Node(Nil, 13, Nil))), 8, IntMax) == Node(Nil, 10, Node(Nil, 14, Nil))
  {
  }

  /**
   * [1,2,3] trimmed to [4, 10]: the leaf 2 (path sum 3) goes, the leaf 3 (path
   * sum 4) stays, so the root keeps one child.
   */
  lemma TrimExample()
    ensures TrimTree(CreateTree([1, 2, 3], 3), 4, 10) == Node(Nil, 1, Node(Nil, 3, Nil))
  {
    var arr: seq<Int32> := [1, 2, 3];
    assert CreateTree(arr, 3) == Node(Node(Nil, 2, Nil), 1, Node(Nil, 3, Nil));
  }

  /** With both leaves out of range the root becomes a leaf and goes too. */
  lemma TrimCascadeExample()
    ensures TrimTree(CreateTree([1, 2, 3], 3), 10, 20) == Nil
  {
    var arr: seq<Int32> := [1, 2, 3];
    assert CreateTree(arr, 3) == Node(Node(Nil, 2, Nil), 1, Node(Nil, 3, Nil));
  }

  /** A child equal to its parent is kept on either side: the window bounds are inclusive. */
  lemma ToBstKeepsEqualChildren(v: Int32)
    ensures ToBst(Node(Node(Nil, v, Nil), v, Node(Nil, v, Nil))) == Node(Node(Nil, v, Nil), v, Node(Nil, v, Nil))
  {
    assert ToBstHelper(Node(Nil, v, Nil), IntMin, v) == Node(Nil, v, Nil);
    assert ToBstHelper(Node(Nil, v, Nil), v, IntMax) == Node(Nil, v, Nil);
  }
}
