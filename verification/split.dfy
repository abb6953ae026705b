/** Split: the entries below and above the key of a node of the tree, as two
    AVL trees, built by joining on the way back up from that node. */
module TreeSplit {
  import opened Entries
  import opened AvlNode
  import opened Rotation
  import opened TreeJoin

  /** Splits at the node holding `k`. At that node the result is its two
      subtrees. Above it, the part of the recursive result on the far side
      of the current root is joined with the root's other subtree, using the
      root's entry as the separator. The joins use the corrected dispatch,
      which keeps both halves AVL trees. */
  function SplitTree<V>(t: Tree<V>, k: int): (r: (Tree<V>, Tree<V>))
    requires Avl(t) && HasKey(InOrder(t), k)
    ensures SplitOk(t, k, r)
    decreases t, 1
  {
    HasKeyNode(t, k);
    if k == t.key then
      DescendHere(t);
      (t.left, t.right)
    else if k < t.key then SplitLeft(t, k)
    else SplitRight(t, k)
  }

  /** What splitting at `k` must deliver: two AVL trees holding exactly the
      entries below and above `k`, each in its original order. */
  ghost predicate SplitOk<V>(t: Tree<V>, k: int, r: (Tree<V>, Tree<V>)) {
    Avl(r.0) && Avl(r.1) &&
    InOrder(r.0) == Below(InOrder(t), k) && InOrder(r.1) == Above(InOrder(t), k)
  }

  /** The split point lies in the left subtree. */
  function SplitLeft<V>(t: Tree<V>, k: int): (r: (Tree<V>, Tree<V>))
    requires t.Node? && Avl(t) && k < t.key && HasKey(InOrder(t), k)
    ensures SplitOk(t, k, r)
    decreases t, 0
  {
    BstNode(t);
    DescendLeft(t, k);
    var parts := SplitTree(t.left, k);
    SplitLeftLevel(t, k, parts);
    (parts.0, JoinTrees(parts.1, t.key, t.value, t.right, Corrected))
  }

  /** The split point lies in the right subtree. */
  function SplitRight<V>(t: Tree<V>, k: int): (r: (Tree<V>, Tree<V>))
    requires t.Node? && Avl(t) && t.key < k && HasKey(InOrder(t), k)
    ensures SplitOk(t, k, r)
    decreases t, 0
  {
    BstNode(t);
    DescendRight(t, k);
    var parts := SplitTree(t.right, k);
    SplitRightLevel(t, k, parts);
    (JoinTrees(t.left, t.key, t.value, parts.0, Corrected), parts.1)
  }

  /** One level above a split point in the left subtree. */
  lemma SplitLeftLevel<V>(t: Tree<V>, k: int, parts: (Tree<V>, Tree<V>))
    requires t.Node? && Avl(t) && k < t.key
    requires SplitOk(t.left, k, parts)
    ensures AllBelow(InOrder(parts.1), t.key) && AllAbove(InOrder(t.right), t.key) && Avl(t.right)
    ensures SplitOk(t, k, (parts.0, JoinTrees(parts.1, t.key, t.value, t.right, Corrected)))
  {
    BstNode(t);
    FilterLeft(t, k);
    FilterMembers(InOrder(t.left), k);
    var j := JoinTrees(parts.1, t.key, t.value, t.right, Corrected);
    assert InOrder(j) == Above(InOrder(t.left), k) + [(t.key, t.value)] + InOrder(t.right);
  }

  /** One level above a split point in the right subtree. */
  lemma SplitRightLevel<V>(t: Tree<V>, k: int, parts: (Tree<V>, Tree<V>))
    requires t.Node? && Avl(t) && t.key < k
    requires SplitOk(t.right, k, parts)
    ensures AllBelow(InOrder(t.left), t.key) && AllAbove(InOrder(parts.0), t.key) && Avl(t.left)
    ensures SplitOk(t, k, (JoinTrees(t.left, t.key, t.value, parts.0, Corrected), parts.1))
  {
    BstNode(t);
    FilterRight(t, k);
    FilterMembers(InOrder(t.right), k);
    var j := JoinTrees(t.left, t.key, t.value, parts.0, Corrected);
    assert InOrder(j) == InOrder(t.left) + [(t.key, t.value)] + Below(InOrder(t.right), k);
  }
}
