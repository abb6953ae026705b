/** Inputs on which the rotation dispatch as written leaves a node out of
    balance after a deletion or a join, next to the corrected dispatch, which
    keeps every node balanced. */
module Findings {
  import opened Entries
  import opened AvlNode
  import opened Rotation
  import opened Deletion
  import opened TreeJoin

  function Leaf(k: int): Tree<int> {
    Node(Virtual, k, k, Virtual, 0)
  }

  /** Eight keys: the root 3 has a left subtree of height one and a right
      subtree of height two whose root 7 has balance factor 0. */
  function EightKeys(): Tree<int> {
    Node(Two(), 3, 3, Right7(), 3)
  }

  /** The left subtree of `EightKeys`: 2 above the leaf 1. */
  function Two(): Tree<int> {
    Node(Leaf(1), 2, 2, Virtual, 1)
  }

  /** The right subtree of `EightKeys`, rooted at 7. */
  function Right7(): Tree<int> {
    Node(Node(Leaf(4), 5, 5, Virtual, 1), 7, 7, Node(Leaf(8), 9, 9, Virtual, 1), 2)
  }

  /** The tree as the code as written leaves it after deleting key 1. */
  function AfterDelete(): Tree<int> {
    Node(Node(Leaf(2), 3, 3, Leaf(4), 1), 5, 5, Node(Virtual, 7, 7, Node(Leaf(8), 9, 9, Virtual, 1), 2), 3)
  }

  /** Deleting key 1 leaves the root two lower on the left than on the right,
      while the right child has balance factor 0; the double rotation the
      code performs there leaves node 7 with balance factor -2. */
  lemma DeleteAsWrittenUnbalances()
    ensures Avl(EightKeys()) && HasKey(InOrder(EightKeys()), 1)
    ensures DeleteKey(EightKeys(), 1, AsWritten) == AfterDelete()
    ensures !Balanced(AfterDelete())
  {
    DeleteLeftmost();
    RotateAtRoot();
  }

  lemma TwoAvl()
    ensures InOrder(Two()) == [(1, 1), (2, 2)]
    ensures Avl(Two()) && HasKey(InOrder(Two()), 1)
  {
    assert InOrder(Leaf(1)) == [(1, 1)];
    assert (1, 1) in InOrder(Two());
  }

  lemma Right7Avl()
    ensures InOrder(Right7()) == [(4, 4), (5, 5), (7, 7), (8, 8), (9, 9)]
    ensures Avl(Right7())
  {
  }

  lemma EightKeysAvl()
    ensures Avl(EightKeys()) && HasKey(InOrder(EightKeys()), 1)
  {
    TwoAvl();
    Right7Avl();
    var a := InOrder(Two());
    var b := InOrder(Right7());
    assert a[0] == (1, 1);
    assert AllBelow(a, 3);
    assert AllAbove(b, 3);
    SortedJoin(a, (3, 3), b);
    assert InOrder(EightKeys()) == a + [(3, 3)] + b;
    assert (1, 1) in InOrder(EightKeys());
  }

  /** The deletion reaches the leaf 1, removes it, and leaves the leaf 2
      below the root, whose pass then runs with the as-written dispatch. */
  lemma DeleteLeftmost()
    ensures Avl(EightKeys()) && HasKey(InOrder(EightKeys()), 1)
    ensures DeleteKey(EightKeys(), 1, AsWritten) ==
      Rebalanced(Node(Leaf(2), 3, 3, Right7(), 3), AsWritten)
  {
    EightKeysAvl();
    DeleteBelowTwo();
    DescendFromThree();
    var t := EightKeys();
    assert t.(left := Leaf(2)) == Node(Leaf(2), 3, 3, Right7(), 3);
  }

  /** Key 1 is below the root 3, so the deletion continues on the left. */
  lemma DescendFromThree()
    ensures Avl(EightKeys()) && HasKey(InOrder(EightKeys()), 1)
    ensures DeleteKey(EightKeys(), 1, AsWritten) == DeleteLeft(EightKeys(), 1, AsWritten)
  {
    EightKeysAvl();
  }

  /** Below the root, deleting the leaf 1 leaves node 2 as a leaf. */
  lemma DeleteBelowTwo()
    ensures Avl(Two()) && HasKey(InOrder(Two()), 1)
    ensures DeleteKey(Two(), 1, AsWritten) == Leaf(2)
  {
    TwoAvl();
    DeleteLeafOne();
    var l := Two();
    assert DeleteKey(l, 1, AsWritten) == DeleteLeft(l, 1, AsWritten);
    assert FixHeight(Node(Virtual, 2, 2, Virtual, 1)) == Leaf(2);
  }

  /** Deleting the only key of a leaf leaves a virtual node. */
  lemma DeleteLeafOne()
    ensures Avl(Leaf(1)) && HasKey(InOrder(Leaf(1)), 1)
    ensures DeleteKey(Leaf(1), 1, AsWritten) == Virtual
  {
    assert InOrder(Leaf(1)) == [(1, 1)];
    assert (1, 1) in InOrder(Leaf(1));
    assert DeleteKey(Leaf(1), 1, AsWritten) == DeleteAt(Leaf(1), AsWritten);
  }

  /** At the root the right child has balance factor 0, so the code rotates
      right at 7 and then left at the root. */
  lemma RotateAtRoot()
    ensures Rebalanced(Node(Leaf(2), 3, 3, Right7(), 3), AsWritten) == AfterDelete()
    ensures !Balanced(AfterDelete())
  {
    var t := Node(Leaf(2), 3, 3, Right7(), 3);
    assert FixHeight(t) == t;
    assert BalanceFactor(Right7()) == 0;
    var r := RightRotate(Right7());
    assert r == Node(Leaf(4), 5, 5, Node(Virtual, 7, 7, Node(Leaf(8), 9, 9, Virtual, 1), 2), 3);
    assert Rotate(t, AsWritten) == LeftRotate(t.(right := r));
  }

  /** The keys 1 and 2, to be joined below the separator 3. */
  function Small(): Tree<int> {
    Node(Virtual, 1, 1, Leaf(2), 1)
  }

  /** The keys 4 to 7, one level taller, to be joined above the separator. */
  function Large(): Tree<int> {
    Node(Node(Virtual, 4, 4, Leaf(5), 1), 6, 6, Leaf(7), 2)
  }

  /** The separator joined with `Small` and the left child of `Large`. */
  function Attached(): Tree<int> {
    Node(Small(), 3, 3, Node(Virtual, 4, 4, Leaf(5), 1), 2)
  }

  /** The tree as the code as written leaves it after the join. */
  function AfterJoin(): Tree<int> {
    Node(Node(Small(), 3, 3, Virtual, 2), 4, 4, Node(Leaf(5), 6, 6, Leaf(7), 1), 3)
  }

  /** Joining `Small` and `Large` through 3: the separator goes below 6 with
      balance factor 0, node 6 is then two higher on the left, and the double
      rotation the code performs there leaves node 3 with balance factor 2. */
  lemma JoinAsWrittenUnbalances()
    ensures Avl(Small()) && Avl(Large())
    ensures AllBelow(InOrder(Small()), 3) && AllAbove(InOrder(Large()), 3)
    ensures JoinTrees(Small(), 3, 3, Large(), AsWritten) == AfterJoin()
    ensures !Balanced(AfterJoin())
  {
    JoinInputs();
    assert JoinTrees(Small(), 3, 3, Large(), AsWritten) == JoinLeftSpine(Small(), 3, 3, Large(), AsWritten);
    AttachBelowSix();
    RotateAtSix();
  }

  lemma JoinInputs()
    ensures Avl(Small()) && Avl(Large())
    ensures AllBelow(InOrder(Small()), 3) && AllAbove(InOrder(Large()), 3)
  {
    assert InOrder(Small()) == [(1, 1), (2, 2)];
    assert InOrder(Large()) == [(4, 4), (5, 5), (6, 6), (7, 7)];
  }

  /** The walk down the left spine of `Large` stops at 4, which is no taller
      than `Small`, and the separator is attached there. */
  lemma AttachBelowSix()
    ensures HeightsOk(Small()) && Balanced(Small()) && HeightsOk(Large()) && Balanced(Large())
    ensures JoinLeftSpine(Small(), 3, 3, Large(), AsWritten) ==
      Rebalanced(Node(Attached(), 6, 6, Leaf(7), 2), AsWritten)
  {
    JoinInputs();
    var l := Node(Virtual, 4, 4, Leaf(5), 1);
    assert JoinLeftSpine(Small(), 3, 3, l, AsWritten) == Rebalanced(Node(Small(), 3, 3, l, -1), AsWritten);
    assert FixHeight(Node(Small(), 3, 3, l, -1)) == Attached();
  }

  /** At 6 the left child has balance factor 0, so the code rotates left at
      3 and then right at 6. */
  lemma RotateAtSix()
    ensures Rebalanced(Node(Attached(), 6, 6, Leaf(7), 2), AsWritten) == AfterJoin()
    ensures !Balanced(AfterJoin())
  {
    var t := Node(Attached(), 6, 6, Leaf(7), 2);
    var f := FixHeight(t);
    assert f == t.(height := 3);
    assert BalanceFactor(Attached()) == 0;
    var y := LeftRotate(Attached());
    assert y == Node(Node(Small(), 3, 3, Virtual, 2), 4, 4, Leaf(5), 3);
    assert Rotate(f, AsWritten) == RightRotate(f.(left := y));
  }
}
