/** Insertion: the descent to a virtual node, the new leaf, and the upward
    rebalancing loop with its count of promotions. */
module Insertion {
  import opened Entries
  import opened AvlNode
  import opened Rotation

  /** Rotating never reads the cached height of the rotated node except to
      give the pivot a provisional height, which a later pass of the loop
      replaces. */
  lemma RotateIgnoresCachedHeight<V>(t: Tree<V>, h: int, d: Dispatch)
    requires CanRotate(t, d)
    ensures CanRotate(t.(height := h), d)
    ensures FixHeight(Rotate(t.(height := h), d)) == FixHeight(Rotate(t, d))
  {
  }

  /** One pass of the insert-side rebalancing loop at a node whose child on
      the insertion path has just been replaced. A node within the balance
      bound counts a promotion when its height must grow and has its height
      recomputed; otherwise it is rotated, the loop's next pass revisits the
      demoted node, whose height is already correct, and the pass after that
      examines the pivot. The pair holds the
      resulting subtree and the promotions counted at this level. */
  function InsertStep<V>(t: Tree<V>): (r: (Tree<V>, nat))
    requires Rebalanceable(t)
    ensures r.0 == Rebalanced(t, AsWritten)
    ensures -1 <= BalanceFactor(t) <= 1 || (HeavyLeans(t) && t.height >= CalcHeight(t) - 1) ==>
      (r.1 == 1 <==> t.height < Height(r.0)) && r.1 <= 1
  {
    if -1 <= BalanceFactor(t) <= 1 then
      (FixHeight(t), if t.height < CalcHeight(t) then 1 else 0)
    else
      RotationStep(t);
      var p := Rotate(t, AsWritten);
      (FixHeight(p), if p.height < CalcHeight(p) then 1 else 0)
  }

  /** The rotation branch of the insert-side loop does what the delete-side
      pass does, although it rotates before recomputing the node's height. */
  lemma RotationStep<V>(t: Tree<V>)
    requires Rebalanceable(t) && !(-1 <= BalanceFactor(t) <= 1)
    ensures CanRotate(t, AsWritten)
    ensures FixHeight(Rotate(t, AsWritten)) == Rebalanced(t, AsWritten)
    ensures HeavyLeans(t) && t.height >= CalcHeight(t) - 1 ==>
      Rotate(t, AsWritten).height >= CalcHeight(Rotate(t, AsWritten))
  {
    var f := FixHeight(t);
    if BalanceFactor(t) == 2 {
      RebalanceLeftHeavy(f, AsWritten);
    } else {
      RebalanceRightHeavy(f, AsWritten);
    }
    RotateIgnoresCachedHeight(f, t.height, AsWritten);
    assert f.(height := t.height) == t;
    PivotNotPromoted(t);
  }

  /** After an insertion the pivot of a rotation keeps a provisional height at
      least as large as the one its children give it, so the pass that
      reaches it counts no promotion. */
  lemma PivotNotPromoted<V>(t: Tree<V>)
    requires Rebalanceable(t) && !(-1 <= BalanceFactor(t) <= 1)
    requires CanRotate(t, AsWritten)
    ensures HeavyLeans(t) && t.height >= CalcHeight(t) - 1 ==>
      Rotate(t, AsWritten).height >= CalcHeight(Rotate(t, AsWritten))
  {
    HeightRange(t.left);
    HeightRange(t.right);
    if HeavyLeans(t) && t.height >= CalcHeight(t) - 1 {
      if BalanceFactor(t) == 2 {
        HeightRange(t.left.left);
        HeightRange(t.left.right);
        if !SingleRight(t, AsWritten) {
          HeightRange(t.left.right.left);
          HeightRange(t.left.right.right);
        }
      } else {
        HeightRange(t.right.left);
        HeightRange(t.right.right);
        if !SingleLeft(t, AsWritten) {
          HeightRange(t.right.left.left);
          HeightRange(t.right.left.right);
        }
      }
    }
  }

  /** Inserts an absent key: descend from the root (a node whose key is
      smaller than `k` sends the search right, any other node left), fill
      the virtual node reached with a leaf of height 0, then rebalance every
      ancestor on the way back up. The triple holds the new tree, the
      number of edges descended, and the number of promotions counted. */
  function InsertRec<V>(t: Tree<V>, k: int, v: V): (r: (Tree<V>, nat, nat))
    requires Avl(t) && !HasKey(InOrder(t), k)
    ensures InsertedOk(t, k, v, r)
    decreases t, 1
  {
    if t.Virtual? then
      InsertLeaf(k, v);
      (Node(Virtual, k, v, Virtual, 0), 0, 0)
    else
      HasKeyNode(t, k);
      if t.key < k then InsertRight(t, k, v) else InsertLeft(t, k, v)
  }

  /** The insertion below a node whose key is smaller than the new one. */
  function InsertRight<V>(t: Tree<V>, k: int, v: V): (r: (Tree<V>, nat, nat))
    requires t.Node? && Avl(t) && t.key < k && !HasKey(InOrder(t), k)
    ensures InsertedOk(t, k, v, r)
    decreases t, 0
  {
    BstNode(t);
    DescendRight(t, k);
    var sub := InsertRec(t.right, k, v);
    InsertRightLevel(t, k, v, sub);
    var step := InsertStep(t.(right := sub.0));
    (step.0, sub.1 + 1, sub.2 + step.1)
  }

  /** The insertion below a node whose key is larger than the new one. */
  function InsertLeft<V>(t: Tree<V>, k: int, v: V): (r: (Tree<V>, nat, nat))
    requires t.Node? && Avl(t) && k < t.key && !HasKey(InOrder(t), k)
    ensures InsertedOk(t, k, v, r)
    decreases t, 0
  {
    BstNode(t);
    DescendLeft(t, k);
    var sub := InsertRec(t.left, k, v);
    InsertLeftLevel(t, k, v, sub);
    var step := InsertStep(t.(left := sub.0));
    (step.0, sub.1 + 1, sub.2 + step.1)
  }

  /** What inserting `(k, v)` into `t` must deliver: an AVL tree holding the
      new entry at its sorted place, at most one level higher and leaning
      when it grew, the length of the descent, and one promotion for each
      level node at the bottom of the descent, which reaches the number of
      edges exactly when the whole tree grew. */
  ghost predicate InsertedOk<V>(t: Tree<V>, k: int, v: V, r: (Tree<V>, nat, nat)) {
    Avl(r.0) &&
    InOrder(r.0) == Below(InOrder(t), k) + [(k, v)] + Above(InOrder(t), k) &&
    Height(t) <= Height(r.0) <= Height(t) + 1 &&
    (Height(r.0) == Height(t) + 1 && Height(r.0) >= 1 ==> r.0.Node? && BalanceFactor(r.0) != 0) &&
    r.1 == |DescentPath(t, k)| &&
    r.2 == LevelRun(t, k) &&
    (r.2 == r.1 <==> Height(r.0) == Height(t) + 1)
  }

  /** The length of the run of level nodes (balance factor 0) at the bottom
      of the descent for `k`, counted upward from the virtual node reached
      and ending at the first node that leans. Read off the tree before the
      insertion, these are exactly the ancestors that an insertion of `k`
      makes taller, so each of them counts one promotion. */
  ghost function LevelRun<V>(t: Tree<V>, k: int): (r: nat)
    ensures r <= |DescentPath(t, k)|
  {
    if t.Virtual? then 0
    else
      var c := if t.key < k then t.right else t.left;
      var p := LevelRun(c, k);
      if p == |DescentPath(c, k)| && BalanceFactor(t) == 0 then p + 1 else p
  }

  /** The new leaf that fills the virtual root of an empty tree. */
  lemma InsertLeaf<V>(k: int, v: V)
    ensures InsertedOk(Virtual, k, v, (Node(Virtual, k, v, Virtual, 0), 0, 0))
  {
    assert InOrder(Node(Virtual, k, v, Virtual, 0)) == [(k, v)];
    var leaf: Tree<V> := Node(Virtual, k, v, Virtual, 0);
    assert HeightsOk<V>(Virtual) && Balanced<V>(Virtual);
    assert CalcHeight(leaf) == 0 && BalanceFactor(leaf) == 0;
    assert Sorted(InOrder(leaf));
    var none: seq<Entry<V>> := [];
    assert Below(none, k) == [] && Above(none, k) == [];
  }

  /** One level of the insertion into the right subtree. */
  lemma InsertRightLevel<V>(t: Tree<V>, k: int, v: V, sub: (Tree<V>, nat, nat))
    requires t.Node? && Avl(t) && t.key < k
    requires InsertedOk(t.right, k, v, sub)
    ensures Rebalanceable(t.(right := sub.0))
    ensures var step := InsertStep(t.(right := sub.0));
      InsertedOk(t, k, v, (step.0, sub.1 + 1, sub.2 + step.1))
  {
    BstNode(t);
    GrowRightStep(t, sub.0);
    InsertedAbove(t, sub.0, k, v);
  }

  /** One level of the insertion into the left subtree. */
  lemma InsertLeftLevel<V>(t: Tree<V>, k: int, v: V, sub: (Tree<V>, nat, nat))
    requires t.Node? && Avl(t) && k < t.key
    requires InsertedOk(t.left, k, v, sub)
    ensures Rebalanceable(t.(left := sub.0))
    ensures var step := InsertStep(t.(left := sub.0));
      InsertedOk(t, k, v, (step.0, sub.1 + 1, sub.2 + step.1))
  {
    BstNode(t);
    GrowLeftStep(t, sub.0);
    InsertedBelow(t, sub.0, k, v);
  }

  /** Heights and balance at a node whose right subtree was replaced by one
      at most one higher, which leans if it grew. */
  lemma GrowRightStep<V>(t: Tree<V>, c: Tree<V>)
    requires t.Node? && HeightsOk(t) && Balanced(t) && HeightsOk(c) && Balanced(c)
    requires Height(t.right) <= Height(c) <= Height(t.right) + 1
    requires Height(c) == Height(t.right) + 1 && Height(c) >= 1 ==> c.Node? && BalanceFactor(c) != 0
    ensures Rebalanceable(t.(right := c))
    ensures var s := InsertStep(t.(right := c));
      HeightsOk(s.0) && Balanced(s.0) &&
      Height(t) <= Height(s.0) <= Height(t) + 1 &&
      (Height(s.0) == Height(t) + 1 && Height(s.0) >= 1 ==> s.0.Node? && BalanceFactor(s.0) != 0) &&
      s.1 <= 1 && (s.1 == 1 <==> Height(s.0) == Height(t) + 1) &&
      (s.1 == 1 <==> Height(c) == Height(t.right) + 1 && BalanceFactor(t) == 0)
  {
    HeightRange(t.left);
    HeightRange(t.right);
    HeightRange(c);
  }

  /** Mirror of `GrowRightStep`. */
  lemma GrowLeftStep<V>(t: Tree<V>, c: Tree<V>)
    requires t.Node? && HeightsOk(t) && Balanced(t) && HeightsOk(c) && Balanced(c)
    requires Height(t.left) <= Height(c) <= Height(t.left) + 1
    requires Height(c) == Height(t.left) + 1 && Height(c) >= 1 ==> c.Node? && BalanceFactor(c) != 0
    ensures Rebalanceable(t.(left := c))
    ensures var s := InsertStep(t.(left := c));
      HeightsOk(s.0) && Balanced(s.0) &&
      Height(t) <= Height(s.0) <= Height(t) + 1 &&
      (Height(s.0) == Height(t) + 1 && Height(s.0) >= 1 ==> s.0.Node? && BalanceFactor(s.0) != 0) &&
      s.1 <= 1 && (s.1 == 1 <==> Height(s.0) == Height(t) + 1) &&
      (s.1 == 1 <==> Height(c) == Height(t.left) + 1 && BalanceFactor(t) == 0)
  {
    HeightRange(t.left);
    HeightRange(t.right);
    HeightRange(c);
  }

  /** Order after inserting into the right subtree. */
  lemma InsertedAbove<V>(t: Tree<V>, c: Tree<V>, k: int, v: V)
    requires t.Node? && Bst(t) && t.key < k
    requires InOrder(c) == Below(InOrder(t.right), k) + [(k, v)] + Above(InOrder(t.right), k)
    ensures InOrder(t.(right := c)) == Below(InOrder(t), k) + [(k, v)] + Above(InOrder(t), k)
    ensures Bst(t.(right := c))
  {
    FilterRight(t, k);
    var b, a := Below(InOrder(t.right), k), Above(InOrder(t.right), k);
    assert InOrder(t.(right := c)) == InOrder(t.left) + [(t.key, t.value)] + (b + [(k, v)] + a);
    Regroup(InOrder(t.left) + [(t.key, t.value)], b, [(k, v)], a);
    InsertSorted(InOrder(t), (k, v));
  }

  /** Order after inserting into the left subtree. */
  lemma InsertedBelow<V>(t: Tree<V>, c: Tree<V>, k: int, v: V)
    requires t.Node? && Bst(t) && k < t.key
    requires InOrder(c) == Below(InOrder(t.left), k) + [(k, v)] + Above(InOrder(t.left), k)
    ensures InOrder(t.(left := c)) == Below(InOrder(t), k) + [(k, v)] + Above(InOrder(t), k)
    ensures Bst(t.(left := c))
  {
    FilterLeft(t, k);
    var b, a := Below(InOrder(t.left), k), Above(InOrder(t.left), k);
    assert InOrder(t.(left := c)) == (b + [(k, v)] + a) + [(t.key, t.value)] + InOrder(t.right);
    Regroup(b, [(k, v)], a + [(t.key, t.value)], InOrder(t.right));
    Regroup(b + [(k, v)], a, [(t.key, t.value)], InOrder(t.right));
    InsertSorted(InOrder(t), (k, v));
  }
}
