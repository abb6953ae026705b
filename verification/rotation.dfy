/** The two single rotations, the dispatch that picks single or double
    rotations at a node whose balance factor is out of range, and one pass
    of the upward rebalancing loop at one node. */
module Rotation {
  import opened Entries
  import opened AvlNode

  /** Which rotation a node at balance factor +-2 receives when its heavy
      child has balance factor 0. `AsWritten` gives it a double rotation, as
      the code does; `Corrected` gives it a single rotation, as the textbook
      AVL algorithm does. All other cases are the same for both. */
  datatype Dispatch = AsWritten | Corrected

  /** The left child becomes the root of the subtree. The pivot's height is
      computed while the demoted node still carries its old cached height;
      only the demoted node's height is recomputed from its new children. */
  function RightRotate<V>(t: Tree<V>): (r: Tree<V>)
    requires t.Node? && t.left.Node?
    ensures InOrder(r) == InOrder(t)
    ensures r.Node? && r.right.Node? && r.right.key == t.key && r.key == t.left.key
    ensures HeightsOk(t.left.left) && HeightsOk(t.left.right) && HeightsOk(t.right) ==>
      HeightsOk(r.left) && HeightsOk(r.right)
  {
    var p := t.left;
    var n := t.(left := p.right);
    var q := FixHeight(p.(right := n));
    q.(right := FixHeight(n))
  }

  /** The right child becomes the root of the subtree; heights as in `RightRotate`. */
  function LeftRotate<V>(t: Tree<V>): (r: Tree<V>)
    requires t.Node? && t.right.Node?
    ensures InOrder(r) == InOrder(t)
    ensures r.Node? && r.left.Node? && r.left.key == t.key && r.key == t.right.key
    ensures HeightsOk(t.right.left) && HeightsOk(t.right.right) && HeightsOk(t.left) ==>
      HeightsOk(r.left) && HeightsOk(r.right)
  {
    var p := t.right;
    var n := t.(right := p.left);
    var q := FixHeight(p.(left := n));
    q.(left := FixHeight(n))
  }

  /** Whether the node at balance factor 2 (left-heavy) gets a single right rotation. */
  predicate SingleRight<V>(t: Tree<V>, d: Dispatch)
    requires t.Node? && t.left.Node?
  {
    BalanceFactor(t.left) == 1 || (d.Corrected? && BalanceFactor(t.left) == 0)
  }

  /** Whether the right-heavy node gets a single left rotation. */
  predicate SingleLeft<V>(t: Tree<V>, d: Dispatch)
    requires t.Node? && t.right.Node?
  {
    BalanceFactor(t.right) == -1 || (d.Corrected? && BalanceFactor(t.right) == 0)
  }

  /** The dispatch reaches real nodes at every rotation it performs; when it
      does not, the code dereferences a virtual node's missing child. */
  predicate CanRotate<V>(t: Tree<V>, d: Dispatch) {
    t.Node? &&
    if BalanceFactor(t) == 2 then
      t.left.Node? && (SingleRight(t, d) || t.left.right.Node?)
    else
      t.right.Node? && (SingleLeft(t, d) || t.right.left.Node?)
  }

  /** Rotates at a node with an out-of-range balance factor: single or double
      rotation towards the lighter side. */
  function Rotate<V>(t: Tree<V>, d: Dispatch): (r: Tree<V>)
    requires CanRotate(t, d)
    ensures InOrder(r) == InOrder(t)
    ensures r.Node?
  {
    if BalanceFactor(t) == 2 then
      if SingleRight(t, d) then RightRotate(t)
      else RightRotate(t.(left := LeftRotate(t.left)))
    else
      if SingleLeft(t, d) then LeftRotate(t)
      else LeftRotate(t.(right := RightRotate(t.right)))
  }

  /** The root of `t` alone is within the AVL balance bound. */
  predicate RootBalanced<V>(t: Tree<V>) {
    t.Virtual? || -1 <= BalanceFactor(t) <= 1
  }

  /** A node at balance factor +-2 whose heavy child is not level: the case in
      which both dispatches agree. */
  predicate HeavyLeans<V>(t: Tree<V>)
    requires t.Node?
  {
    (BalanceFactor(t) == 2 ==> t.left.Node? && BalanceFactor(t.left) != 0) &&
    (BalanceFactor(t) == -2 ==> t.right.Node? && BalanceFactor(t.right) != 0)
  }

  /** What one node may look like when the upward rebalancing loop reaches
      it: consistent children whose heights differ by at most two, and a
      heavy child whose own root is within the balance bound. */
  predicate Rebalanceable<V>(t: Tree<V>) {
    t.Node? && HeightsOk(t.left) && HeightsOk(t.right) &&
    -2 <= BalanceFactor(t) <= 2 &&
    (BalanceFactor(t) == 2 ==> RootBalanced(t.left)) &&
    (BalanceFactor(t) == -2 ==> RootBalanced(t.right))
  }

  /** One pass of the delete-side rebalancing loop at one node: recompute its
      height and, if its balance factor is out of range, rotate and let the
      loop's next pass fix the pivot's height. The pass after that finds the
      pivot balanced, so it rotates nothing more. */
  function Rebalanced<V>(t: Tree<V>, d: Dispatch): (r: Tree<V>)
    requires Rebalanceable(t)
    ensures r.Node? && HeightsOk(r) && RootBalanced(r)
    ensures InOrder(r) == InOrder(t)
    ensures -1 <= BalanceFactor(t) <= 1 ==> r == FixHeight(t)
    ensures BalanceFactor(t) == 2 && t.left.Node? ==>
      Height(r) == (if BalanceFactor(t.left) == 0 then CalcHeight(t) else CalcHeight(t) - 1)
    ensures BalanceFactor(t) == -2 && t.right.Node? ==>
      Height(r) == (if BalanceFactor(t.right) == 0 then CalcHeight(t) else CalcHeight(t) - 1)
    ensures Balanced(t.left) && Balanced(t.right) && (d.Corrected? || HeavyLeans(t)) ==> Balanced(r)
  {
    var f := FixHeight(t);
    if -1 <= BalanceFactor(f) <= 1 then f
    else if BalanceFactor(f) == 2 then
      RebalanceLeftHeavy(f, d);
      FixHeight(Rotate(f, d))
    else
      RebalanceRightHeavy(f, d);
      FixHeight(Rotate(f, d))
  }

  /** The rotation cases at a left-heavy node. */
  lemma RebalanceLeftHeavy<V>(f: Tree<V>, d: Dispatch)
    requires Rebalanceable(f) && BalanceFactor(f) == 2 && f.height == CalcHeight(f)
    ensures CanRotate(f, d)
    ensures var r := FixHeight(Rotate(f, d));
      HeightsOk(r) && RootBalanced(r) &&
      Height(r) == (if BalanceFactor(f.left) == 0 then f.height else f.height - 1) &&
      (Balanced(f.left) && Balanced(f.right) && (d.Corrected? || BalanceFactor(f.left) != 0) ==> Balanced(r))
  {
    HeightRange(f.left);
    HeightRange(f.right);
    HeightRange(f.left.left);
    HeightRange(f.left.right);
    if SingleRight(f, d) {
      SingleRightCase(f);
    } else {
      DoubleRightCase(f);
    }
  }

  /** A single right rotation at a node whose left child is two higher and
      leans left or not at all. */
  lemma SingleRightCase<V>(f: Tree<V>)
    requires f.Node? && f.left.Node? && HeightsOk(f.left) && HeightsOk(f.right)
    requires f.height == CalcHeight(f) && BalanceFactor(f) == 2
    requires BalanceFactor(f.left) == 1 || BalanceFactor(f.left) == 0
    ensures var r := FixHeight(RightRotate(f));
      HeightsOk(r) && RootBalanced(r) &&
      Height(r) == (if BalanceFactor(f.left) == 0 then f.height else f.height - 1) &&
      (Balanced(f.left) && Balanced(f.right) ==> Balanced(r))
  {
    var l := f.left;
    HeightRange(f.right);
    var r := FixHeight(RightRotate(f));
    assert r.left == l.left;
    assert r.right == Node(l.right, f.key, f.value, f.right, Max(Height(l.right), Height(f.right)) + 1);
  }

  /** A left rotation at the left child followed by a right rotation at the
      node, when the left child is two higher and leans right or not at all. */
  lemma DoubleRightCase<V>(f: Tree<V>)
    requires f.Node? && f.left.Node? && f.left.right.Node? && HeightsOk(f.left) && HeightsOk(f.right)
    requires f.height == CalcHeight(f) && BalanceFactor(f) == 2
    requires BalanceFactor(f.left) == -1 || BalanceFactor(f.left) == 0
    ensures var r := FixHeight(RightRotate(f.(left := LeftRotate(f.left))));
      HeightsOk(r) && RootBalanced(r) &&
      Height(r) == (if BalanceFactor(f.left) == 0 then f.height else f.height - 1) &&
      (Balanced(f.left) && Balanced(f.right) && BalanceFactor(f.left) == -1 ==> Balanced(r))
  {
    var l := f.left;
    var lr := l.right;
    var a, b, c, e := l.left, lr.left, lr.right, f.right;
    HeightRange(a);
    HeightRange(b);
    HeightRange(c);
    HeightRange(e);
    var r := FixHeight(RightRotate(f.(left := LeftRotate(f.left))));
    assert r.left == Node(a, l.key, l.value, b, Max(Height(a), Height(b)) + 1);
    assert r.right == Node(c, f.key, f.value, e, Max(Height(c), Height(e)) + 1);
    if Balanced(l) && Balanced(e) && BalanceFactor(l) == -1 {
      assert Balanced(lr) && Balanced(a);
      assert Balanced(r.left) && Balanced(r.right);
    }
  }

  /** The rotation cases at a right-heavy node. */
  lemma RebalanceRightHeavy<V>(f: Tree<V>, d: Dispatch)
    requires Rebalanceable(f) && BalanceFactor(f) == -2 && f.height == CalcHeight(f)
    ensures CanRotate(f, d)
    ensures var r := FixHeight(Rotate(f, d));
      HeightsOk(r) && RootBalanced(r) &&
      Height(r) == (if BalanceFactor(f.right) == 0 then f.height else f.height - 1) &&
      (Balanced(f.left) && Balanced(f.right) && (d.Corrected? || BalanceFactor(f.right) != 0) ==> Balanced(r))
  {
    HeightRange(f.left);
    HeightRange(f.right);
    HeightRange(f.right.left);
    HeightRange(f.right.right);
    if SingleLeft(f, d) {
      SingleLeftCase(f);
    } else {
      DoubleLeftCase(f);
    }
  }

  /** Mirror of `SingleRightCase`. */
  lemma SingleLeftCase<V>(f: Tree<V>)
    requires f.Node? && f.right.Node? && HeightsOk(f.left) && HeightsOk(f.right)
    requires f.height == CalcHeight(f) && BalanceFactor(f) == -2
    requires BalanceFactor(f.right) == -1 || BalanceFactor(f.right) == 0
    ensures var r := FixHeight(LeftRotate(f));
      HeightsOk(r) && RootBalanced(r) &&
      Height(r) == (if BalanceFactor(f.right) == 0 then f.height else f.height - 1) &&
      (Balanced(f.left) && Balanced(f.right) ==> Balanced(r))
  {
    var l := f.right;
    HeightRange(f.left);
    var r := FixHeight(LeftRotate(f));
    assert r.right == l.right;
    assert r.left == Node(f.left, f.key, f.value, l.left, Max(Height(f.left), Height(l.left)) + 1);
  }

  /** Mirror of `DoubleRightCase`. */
  lemma DoubleLeftCase<V>(f: Tree<V>)
    requires f.Node? && f.right.Node? && f.right.left.Node? && HeightsOk(f.left) && HeightsOk(f.right)
    requires f.height == CalcHeight(f) && BalanceFactor(f) == -2
    requires BalanceFactor(f.right) == 1 || BalanceFactor(f.right) == 0
    ensures var r := FixHeight(LeftRotate(f.(right := RightRotate(f.right))));
      HeightsOk(r) && RootBalanced(r) &&
      Height(r) == (if BalanceFactor(f.right) == 0 then f.height else f.height - 1) &&
      (Balanced(f.left) && Balanced(f.right) && BalanceFactor(f.right) == 1 ==> Balanced(r))
  {
    var l := f.right;
    var rl := l.left;
    var a, b, c, e := f.left, rl.left, rl.right, l.right;
    HeightRange(a);
    HeightRange(b);
    HeightRange(c);
    HeightRange(e);
    var r := FixHeight(LeftRotate(f.(right := RightRotate(f.right))));
    assert r.left == Node(a, f.key, f.value, b, Max(Height(a), Height(b)) + 1);
    assert r.right == Node(c, l.key, l.value, e, Max(Height(c), Height(e)) + 1);
    if Balanced(l) && Balanced(a) && BalanceFactor(l) == 1 {
      assert Balanced(rl) && Balanced(e);
      assert Balanced(r.left) && Balanced(r.right);
    }
  }
}
