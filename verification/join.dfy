/** Join: two trees and a separating entry become one tree. The taller tree
    is walked down its spine facing the shorter one until the heights meet,
    a new node for the separator is spliced in there, and the delete-side
    rebalancing pass runs from the new node up to the root. */
module TreeJoin {
  import opened Entries
  import opened AvlNode
  import opened Rotation
  import opened Insertion

  /** The shorter tree `t1` holds the smaller keys: walk down the left spine
      of `t2` while the current node is higher than `t1`, attach a new node
      with `t1` on its left and the rest of that spine on its right, and run
      the pass at every node on the way back up. */
  function JoinLeftSpine<V>(t1: Tree<V>, k: int, v: V, t2: Tree<V>, d: Dispatch): (r: Tree<V>)
    requires t1.Node? && HeightsOk(t1) && Balanced(t1)
    requires HeightsOk(t2) && Balanced(t2) && Height(t2) >= Height(t1) - 1
    ensures InOrder(r) == InOrder(t1) + [(k, v)] + InOrder(t2)
    ensures r.Node? && HeightsOk(r) && RootBalanced(r)
    ensures Max(Height(t1), Height(t2)) <= Height(r) <= Max(Height(t1), Height(t2)) + 1
    ensures d.Corrected? ==> Balanced(r)
    decreases t2
  {
    HeightRange(t1);
    HeightRange(t2);
    if Height(t2) > Height(t1) then
      var c := JoinLeftSpine(t1, k, v, t2.left, d);
      JoinLeftLevel(t1, k, v, t2, c, d);
      Rebalanced(t2.(left := c), d)
    else
      Rebalanced(Node(t1, k, v, t2, -1), d)
  }

  /** One level of the walk back up the left spine. */
  lemma JoinLeftLevel<V>(t1: Tree<V>, k: int, v: V, t2: Tree<V>, c: Tree<V>, d: Dispatch)
    requires t1.Node? && HeightsOk(t1) && t2.Node? && HeightsOk(t2) && Balanced(t2)
    requires Height(t2) > Height(t1)
    requires InOrder(c) == InOrder(t1) + [(k, v)] + InOrder(t2.left)
    requires HeightsOk(c) && RootBalanced(c)
    requires Max(Height(t1), Height(t2.left)) <= Height(c) <= Max(Height(t1), Height(t2.left)) + 1
    ensures Rebalanceable(t2.(left := c))
    ensures var r := Rebalanced(t2.(left := c), d);
      InOrder(r) == InOrder(t1) + [(k, v)] + InOrder(t2) &&
      Height(t2) <= Height(r) <= Height(t2) + 1 &&
      (d.Corrected? && Balanced(c) ==> Balanced(r))
  {
    HeightRange(t2.left);
    HeightRange(t2.right);
    Regroup(InOrder(t1) + [(k, v)], InOrder(t2.left), [(t2.key, t2.value)], InOrder(t2.right));
  }

  /** Mirror of `JoinLeftSpine`: the shorter tree `t2` holds the larger keys,
      and the walk goes down the right spine of `t1`. */
  function JoinRightSpine<V>(t1: Tree<V>, k: int, v: V, t2: Tree<V>, d: Dispatch): (r: Tree<V>)
    requires t2.Node? && HeightsOk(t2) && Balanced(t2)
    requires HeightsOk(t1) && Balanced(t1) && Height(t1) >= Height(t2) - 1
    ensures InOrder(r) == InOrder(t1) + [(k, v)] + InOrder(t2)
    ensures r.Node? && HeightsOk(r) && RootBalanced(r)
    ensures Max(Height(t1), Height(t2)) <= Height(r) <= Max(Height(t1), Height(t2)) + 1
    ensures d.Corrected? ==> Balanced(r)
    decreases t1
  {
    HeightRange(t1);
    HeightRange(t2);
    if Height(t1) > Height(t2) then
      var c := JoinRightSpine(t1.right, k, v, t2, d);
      JoinRightLevel(t1, k, v, t2, c, d);
      Rebalanced(t1.(right := c), d)
    else
      Rebalanced(Node(t1, k, v, t2, -1), d)
  }

  /** One level of the walk back up the right spine. */
  lemma JoinRightLevel<V>(t1: Tree<V>, k: int, v: V, t2: Tree<V>, c: Tree<V>, d: Dispatch)
    requires t2.Node? && HeightsOk(t2) && t1.Node? && HeightsOk(t1) && Balanced(t1)
    requires Height(t1) > Height(t2)
    requires InOrder(c) == InOrder(t1.right) + [(k, v)] + InOrder(t2)
    requires HeightsOk(c) && RootBalanced(c)
    requires Max(Height(t1.right), Height(t2)) <= Height(c) <= Max(Height(t1.right), Height(t2)) + 1
    ensures Rebalanceable(t1.(right := c))
    ensures var r := Rebalanced(t1.(right := c), d);
      InOrder(r) == InOrder(t1) + [(k, v)] + InOrder(t2) &&
      Height(t1) <= Height(r) <= Height(t1) + 1 &&
      (d.Corrected? && Balanced(c) ==> Balanced(r))
  {
    HeightRange(t1.left);
    HeightRange(t1.right);
    Regroup(InOrder(t1.left), [(t1.key, t1.value)], InOrder(t1.right) + [(k, v)], InOrder(t2));
    Regroup(InOrder(t1.left) + [(t1.key, t1.value)], InOrder(t1.right), [(k, v)], InOrder(t2));
  }

  /** Joins `small`, whose keys are all below `k`, with `large`, whose keys
      are all above it. An empty side makes the join an insertion of the
      separator into the other side; otherwise the taller tree is walked
      down (the larger-key tree when the heights are equal). */
  function JoinTrees<V>(small: Tree<V>, k: int, v: V, large: Tree<V>, d: Dispatch): (r: Tree<V>)
    requires Avl(small) && Avl(large)
    requires AllBelow(InOrder(small), k) && AllAbove(InOrder(large), k)
    ensures JoinedOk(small, k, v, large, d, r)
  {
    if small.Virtual? then
      JoinIntoLarge(small, k, v, large, d);
      InsertRec(large, k, v).0
    else if large.Virtual? then
      JoinIntoSmall(small, k, v, large, d);
      InsertRec(small, k, v).0
    else
      JoinSpines(small, k, v, large, d);
      if Height(small) <= Height(large) then JoinLeftSpine(small, k, v, large, d)
      else JoinRightSpine(small, k, v, large, d)
  }

  /** What joining must deliver: the two in-order lists with the separator
      between them, in a search tree with consistent heights and a balanced
      root, at most one level higher than the taller input, and fully
      balanced under the corrected dispatch. */
  ghost predicate JoinedOk<V>(small: Tree<V>, k: int, v: V, large: Tree<V>, d: Dispatch, r: Tree<V>) {
    InOrder(r) == InOrder(small) + [(k, v)] + InOrder(large) &&
    r.Node? && Bst(r) && HeightsOk(r) && RootBalanced(r) &&
    Max(Height(small), Height(large)) <= Height(r) <= Max(Height(small), Height(large)) + 1 &&
    (d.Corrected? ==> Balanced(r))
  }

  /** Both sides real: the spine walk. */
  lemma JoinSpines<V>(small: Tree<V>, k: int, v: V, large: Tree<V>, d: Dispatch)
    requires small.Node? && large.Node? && Avl(small) && Avl(large)
    requires AllBelow(InOrder(small), k) && AllAbove(InOrder(large), k)
    ensures Height(small) <= Height(large) ==> JoinedOk(small, k, v, large, d, JoinLeftSpine(small, k, v, large, d))
    ensures Height(small) > Height(large) ==> JoinedOk(small, k, v, large, d, JoinRightSpine(small, k, v, large, d))
  {
    SortedAround(InOrder(small), (k, v), InOrder(large));
  }

  /** An empty smaller side: the separator is inserted below every key of the other tree. */
  lemma JoinIntoLarge<V>(small: Tree<V>, k: int, v: V, t: Tree<V>, d: Dispatch)
    requires small.Virtual? && Avl(t) && AllAbove(InOrder(t), k)
    ensures !HasKey(InOrder(t), k)
    ensures JoinedOk(small, k, v, t, d, InsertRec(t, k, v).0)
  {
    FilterAllAbove(InOrder(t), k);
    var r := InsertRec(t, k, v).0;
    assert Height(small) == -1;
    HeightRange(t);
    assert InOrder(r) == [] + [(k, v)] + InOrder(t);
  }

  /** An empty larger side: the separator is inserted above every key of the other tree. */
  lemma JoinIntoSmall<V>(t: Tree<V>, k: int, v: V, large: Tree<V>, d: Dispatch)
    requires large.Virtual? && Avl(t) && AllBelow(InOrder(t), k)
    ensures !HasKey(InOrder(t), k)
    ensures JoinedOk(t, k, v, large, d, InsertRec(t, k, v).0)
  {
    FilterAllBelow(InOrder(t), k);
    var r := InsertRec(t, k, v).0;
    HeightRange(t);
    assert InOrder(r) == InOrder(t) + [(k, v)] + [];
  }
}
