/** Deletion: the three cases at the deleted node (leaf, one real child, two
    real children with the in-order successor moved into its place), the
    delete-side rebalancing pass at every ancestor, and the recomputation of
    the cached maximum. */
module Deletion {
  import opened Wrappers
  import opened Entries
  import opened AvlNode
  import opened Rotation

  /** The node reached from `u` by following left children to the end. */
  function Leftmost<V>(u: Tree<V>): (r: Tree<V>)
    requires u.Node?
    ensures r.Node? && r.left.Virtual? && Occurs(r, u)
    ensures |InOrder(u)| > 0 && (r.key, r.value) == InOrder(u)[0]
    decreases u
  {
    if u.left.Virtual? then u else Leftmost(u.left)
  }

  /** The in-order successor of a node that has a real right child: the
      leftmost node of its right subtree, whose entry directly follows the
      node's own in the in-order list. */
  function Successor<V>(t: Tree<V>): (r: Tree<V>)
    requires t.Node? && t.right.Node?
    ensures r.Node? && r.left.Virtual? && Occurs(r, t.right)
    ensures |InOrder(t)| > |InOrder(t.left)| + 1
    ensures (r.key, r.value) == InOrder(t)[|InOrder(t.left)| + 1]
  {
    var r := Leftmost(t.right);
    assert InOrder(t) == InOrder(t.left) + [(t.key, t.value)] + InOrder(t.right);
    r
  }

  /** Removes the leftmost node of `u`: the successor's right child takes its
      place, and the delete-side pass runs at every node from the
      successor's old parent up to `u`. */
  function DetachMin<V>(u: Tree<V>, d: Dispatch): (r: Tree<V>)
    requires u.Node? && HeightsOk(u) && Balanced(u)
    ensures |InOrder(u)| > 0 && InOrder(r) == InOrder(u)[1..]
    ensures HeightsOk(r) && RootBalanced(r)
    ensures Height(u) - 1 <= Height(r) <= Height(u)
    ensures d.Corrected? ==> Balanced(r)
    decreases u
  {
    if u.left.Virtual? then
      DetachRoot(u);
      u.right
    else
      var c := DetachMin(u.left, d);
      ShrinkLeftStep(u, c, d);
      DetachBelow(u, c);
      Rebalanced(u.(left := c), d)
  }

  /** A node without a real left child leaves its right child in its place. */
  lemma DetachRoot<V>(u: Tree<V>)
    requires u.Node? && u.left.Virtual? && HeightsOk(u) && Balanced(u)
    ensures |InOrder(u)| > 0 && InOrder(u.right) == InOrder(u)[1..]
    ensures HeightsOk(u.right) && Balanced(u.right) && Height(u.right) == Height(u) - 1
  {
    HeightRange(u.right);
  }

  /** Dropping the first entry of the left subtree drops the first entry of
      the whole. */
  lemma DetachBelow<V>(u: Tree<V>, c: Tree<V>)
    requires u.Node? && |InOrder(u.left)| > 0 && InOrder(c) == InOrder(u.left)[1..]
    ensures |InOrder(u)| > 0 && InOrder(u.(left := c)) == InOrder(u)[1..]
  {
    assert InOrder(u) == InOrder(u.left) + ([(u.key, u.value)] + InOrder(u.right));
    assert InOrder(u.(left := c)) == InOrder(c) + ([(u.key, u.value)] + InOrder(u.right));
  }

  /** Heights and balance at a node whose left subtree was replaced by one
      at most one lower whose root is balanced. */
  lemma ShrinkLeftStep<V>(t: Tree<V>, c: Tree<V>, d: Dispatch)
    requires t.Node? && HeightsOk(t) && Balanced(t)
    requires HeightsOk(c) && RootBalanced(c) && Height(t.left) - 1 <= Height(c) <= Height(t.left)
    ensures Rebalanceable(t.(left := c))
    ensures var r := Rebalanced(t.(left := c), d);
      Height(t) - 1 <= Height(r) <= Height(t) &&
      (d.Corrected? && Balanced(c) ==> Balanced(r))
  {
    HeightRange(t.left);
    HeightRange(t.right);
    HeightRange(c);
  }

  /** Mirror of `ShrinkLeftStep`. */
  lemma ShrinkRightStep<V>(t: Tree<V>, c: Tree<V>, d: Dispatch)
    requires t.Node? && HeightsOk(t) && Balanced(t)
    requires HeightsOk(c) && RootBalanced(c) && Height(t.right) - 1 <= Height(c) <= Height(t.right)
    ensures Rebalanceable(t.(right := c))
    ensures var r := Rebalanced(t.(right := c), d);
      Height(t) - 1 <= Height(r) <= Height(t) &&
      (d.Corrected? && Balanced(c) ==> Balanced(r))
  {
    HeightRange(t.left);
    HeightRange(t.right);
    HeightRange(c);
  }

  /** Deletes the root of `t`, which is the node being deleted, and runs the
      delete-side pass where the code starts it: nowhere for a leaf, at the
      spliced-in child for a node with one real child, and from the
      successor's old parent up to the successor's new place otherwise. */
  function DeleteAt<V>(t: Tree<V>, d: Dispatch): (r: Tree<V>)
    requires t.Node? && HeightsOk(t) && Balanced(t)
    ensures InOrder(r) == InOrder(t.left) + InOrder(t.right)
    ensures HeightsOk(r) && RootBalanced(r)
    ensures Height(t) - 1 <= Height(r) <= Height(t)
    ensures d.Corrected? ==> Balanced(r)
  {
    HeightRange(t.left);
    HeightRange(t.right);
    if t.left.Virtual? && t.right.Virtual? then Virtual
    else if t.left.Virtual? then
      assert Balanced(t.right) && HeightsOk(t.right);
      Rebalanced(t.right, d)
    else if t.right.Virtual? then
      assert Balanced(t.left) && HeightsOk(t.left);
      Rebalanced(t.left, d)
    else
      var s := Successor(t);
      var c := DetachMin(t.right, d);
      var n := Node(t.left, s.key, s.value, c, s.height);
      ReplaceStep(t, c, s, d);
      Rebalanced(n, d)
  }

  /** The successor in the deleted node's place, above the right subtree
      without its leftmost node. */
  lemma ReplaceStep<V>(t: Tree<V>, c: Tree<V>, s: Tree<V>, d: Dispatch)
    requires t.Node? && t.right.Node? && HeightsOk(t) && Balanced(t)
    requires |InOrder(t.right)| > 0 && InOrder(c) == InOrder(t.right)[1..]
    requires s.Node? && (s.key, s.value) == InOrder(t.right)[0]
    requires HeightsOk(c) && RootBalanced(c) && Height(t.right) - 1 <= Height(c) <= Height(t.right)
    ensures Rebalanceable(Node(t.left, s.key, s.value, c, s.height))
    ensures var r := Rebalanced(Node(t.left, s.key, s.value, c, s.height), d);
      InOrder(r) == InOrder(t.left) + InOrder(t.right) &&
      Height(t) - 1 <= Height(r) <= Height(t) &&
      (d.Corrected? && Balanced(c) ==> Balanced(r))
  {
    var t2 := Node(t.left, s.key, s.value, t.right, t.height);
    assert HeightsOk(t2) && Balanced(t2);
    ShrinkRightStep(t2, c, d);
    var n := Node(t.left, s.key, s.value, c, s.height);
    RebalancedIgnoresHeight(n, t.height, d);
    assert n.(height := t.height) == t2.(right := c);
    ReplaceOrder(t, c, s);
  }

  /** Putting the first entry of the right subtree in the deleted node's place
      removes exactly the deleted node's entry. */
  lemma ReplaceOrder<V>(t: Tree<V>, c: Tree<V>, s: Tree<V>)
    requires t.Node? && |InOrder(t.right)| > 0 && InOrder(c) == InOrder(t.right)[1..]
    requires s.Node? && (s.key, s.value) == InOrder(t.right)[0]
    ensures InOrder(Node(t.left, s.key, s.value, c, s.height)) == InOrder(t.left) + InOrder(t.right)
  {
    var rr := InOrder(t.right);
    assert rr == [rr[0]] + rr[1..];
  }

  /** The pass at a node recomputes the node's height before reading it. */
  lemma RebalancedIgnoresHeight<V>(t: Tree<V>, h: int, d: Dispatch)
    requires Rebalanceable(t)
    ensures Rebalanceable(t.(height := h))
    ensures Rebalanced(t.(height := h), d) == Rebalanced(t, d)
  {
    assert FixHeight(t.(height := h)) == FixHeight(t);
  }

  /** What deleting key `k` from `t` must deliver: the in-order list without
      the entry for `k`, consistent heights, a balanced root, a height at
      most one lower, and full balance under the corrected dispatch. */
  ghost predicate DeletedOk<V>(t: Tree<V>, k: int, d: Dispatch, r: Tree<V>) {
    InOrder(r) == Below(InOrder(t), k) + Above(InOrder(t), k) &&
    Bst(r) && HeightsOk(r) && RootBalanced(r) &&
    Height(t) - 1 <= Height(r) <= Height(t) &&
    (d.Corrected? ==> Balanced(r))
  }

  /** Deletes the node holding `k`: the deleted node's position is found by
      key, since keys are distinct, and the delete-side pass then runs at
      every ancestor up to the root. */
  function DeleteKey<V>(t: Tree<V>, k: int, d: Dispatch): (r: Tree<V>)
    requires Avl(t) && HasKey(InOrder(t), k)
    ensures DeletedOk(t, k, d, r)
    decreases t, 1
  {
    HasKeyNode(t, k);
    if t.key == k then
      DeleteHere(t, d);
      DeleteAt(t, d)
    else if k < t.key then DeleteLeft(t, k, d)
    else DeleteRight(t, k, d)
  }

  /** Deleting the root's own key. */
  lemma DeleteHere<V>(t: Tree<V>, d: Dispatch)
    requires t.Node? && Avl(t)
    ensures DeletedOk(t, t.key, d, DeleteAt(t, d))
  {
    DescendHere(t);
    RemoveSorted(InOrder(t), t.key);
  }

  /** The deletion below a node whose key is larger than `k`. */
  function DeleteLeft<V>(t: Tree<V>, k: int, d: Dispatch): (r: Tree<V>)
    requires t.Node? && Avl(t) && k < t.key && HasKey(InOrder(t), k)
    ensures DeletedOk(t, k, d, r)
    decreases t, 0
  {
    BstNode(t);
    DescendLeft(t, k);
    var c := DeleteKey(t.left, k, d);
    DeleteLeftLevel(t, k, d, c);
    Rebalanced(t.(left := c), d)
  }

  /** The deletion below a node whose key is smaller than `k`. */
  function DeleteRight<V>(t: Tree<V>, k: int, d: Dispatch): (r: Tree<V>)
    requires t.Node? && Avl(t) && t.key < k && HasKey(InOrder(t), k)
    ensures DeletedOk(t, k, d, r)
    decreases t, 0
  {
    BstNode(t);
    DescendRight(t, k);
    var c := DeleteKey(t.right, k, d);
    DeleteRightLevel(t, k, d, c);
    Rebalanced(t.(right := c), d)
  }

  /** One level of a deletion in the left subtree. */
  lemma DeleteLeftLevel<V>(t: Tree<V>, k: int, d: Dispatch, c: Tree<V>)
    requires t.Node? && Avl(t) && k < t.key
    requires DeletedOk(t.left, k, d, c)
    ensures Rebalanceable(t.(left := c))
    ensures DeletedOk(t, k, d, Rebalanced(t.(left := c), d))
  {
    BstNode(t);
    ShrinkLeftStep(t, c, d);
    FilterLeft(t, k);
    var b, a := Below(InOrder(t.left), k), Above(InOrder(t.left), k);
    assert InOrder(t.(left := c)) == (b + a) + [(t.key, t.value)] + InOrder(t.right);
    Regroup(b, a, [(t.key, t.value)], InOrder(t.right));
    RemoveSorted(InOrder(t), k);
  }

  /** One level of a deletion in the right subtree. */
  lemma DeleteRightLevel<V>(t: Tree<V>, k: int, d: Dispatch, c: Tree<V>)
    requires t.Node? && Avl(t) && t.key < k
    requires DeletedOk(t.right, k, d, c)
    ensures Rebalanceable(t.(right := c))
    ensures DeletedOk(t, k, d, Rebalanced(t.(right := c), d))
  {
    BstNode(t);
    ShrinkRightStep(t, c, d);
    DeletedRightOrder(t, k, c);
    RemoveSorted(InOrder(t), k);
  }

  lemma DeletedRightOrder<V>(t: Tree<V>, k: int, c: Tree<V>)
    requires t.Node? && Bst(t) && t.key < k
    requires InOrder(c) == Below(InOrder(t.right), k) + Above(InOrder(t.right), k)
    ensures InOrder(t.(right := c)) == Below(InOrder(t), k) + Above(InOrder(t), k)
  {
    FilterRight(t, k);
    SpliceRight(InOrder(t), InOrder(t.left), (t.key, t.value), InOrder(t.right), InOrder(c), k);
  }

  lemma SpliceRight<V>(s: seq<Entry<V>>, l: seq<Entry<V>>, e: Entry<V>, r: seq<Entry<V>>, c: seq<Entry<V>>, k: int)
    requires Below(s, k) == l + [e] + Below(r, k) && Above(s, k) == Above(r, k)
    requires c == Below(r, k) + Above(r, k)
    ensures l + [e] + c == Below(s, k) + Above(s, k)
  {
  }

  /** Recomputes the cached maximum by walking right from the root; an empty
      tree has none. */
  method UpdateMax<V>(root: Tree<V>) returns (m: Option<Entry<V>>)
    ensures m == LastEntry(InOrder(root))
    ensures m.None? <==> root.Virtual?
  {
    if root.Virtual? {
      return None;
    }
    var node := root;
    while node.right.Node?
      invariant node.Node?
      invariant LastEntry(InOrder(node)) == LastEntry(InOrder(root))
      decreases node
    {
      LastOfRight(node);
      node := node.right;
    }
    LastOfRight(node);
    m := Some((node.key, node.value));
  }

  /** The last entry of a real node is its right subtree's, or its own when
      it has no real right child. */
  lemma LastOfRight<V>(t: Tree<V>)
    requires t.Node?
    ensures t.right.Node? ==> LastEntry(InOrder(t)) == LastEntry(InOrder(t.right))
    ensures t.right.Virtual? ==> LastEntry(InOrder(t)) == Some((t.key, t.value))
  {
    if t.right.Node? {
      assert |InOrder(t.right)| > 0;
    }
  }
}
