/** The AVL node: a real node holding a key, a value, two children and a
    cached height, or a virtual node standing in for a missing child. The
    tree below a node is an immutable value, so "the node" and "the subtree
    rooted at it" are the same thing here. */
module AvlNode {
  import opened Wrappers
  import opened Entries

  datatype Tree<V> =
    | Virtual
    | Node(left: Tree<V>, key: int, value: V, right: Tree<V>, height: int)

  function Max(a: int, b: int): int {
    if a < b then b else a
  }

  /** The cached height; a virtual node has height -1. */
  function Height<V>(t: Tree<V>): int {
    if t.Virtual? then -1 else t.height
  }

  /** The height a node ought to have according to its children's cached
      heights; -1 for a virtual node. */
  function CalcHeight<V>(t: Tree<V>): int {
    if t.Virtual? then -1 else Max(Height(t.left), Height(t.right)) + 1
  }

  /** Left height minus right height, read from the children's caches.
      Only defined on a real node: a virtual node has no children. */
  function BalanceFactor<V>(t: Tree<V>): int
    requires t.Node?
  {
    Height(t.left) - Height(t.right)
  }

  /** The in-order list of (key, value) entries: the dictionary's content. */
  function InOrder<V>(t: Tree<V>): seq<Entry<V>> {
    match t
    case Virtual => []
    case Node(l, k, v, r, _) => InOrder(l) + [(k, v)] + InOrder(r)
  }

  /** Search-tree order, stated on the abstraction: keys strictly ascend in order. */
  ghost predicate Bst<V>(t: Tree<V>) {
    Sorted(InOrder(t))
  }

  /** Every real node caches 1 + the larger of its children's heights. */
  predicate HeightsOk<V>(t: Tree<V>) {
    t.Virtual? || (HeightsOk(t.left) && HeightsOk(t.right) && t.height == CalcHeight(t))
  }

  /** Every real node has balance factor -1, 0 or 1. */
  predicate Balanced<V>(t: Tree<V>) {
    t.Virtual? || (Balanced(t.left) && Balanced(t.right) && -1 <= BalanceFactor(t) <= 1)
  }

  /** The full AVL invariant. */
  ghost predicate Avl<V>(t: Tree<V>) {
    Bst(t) && HeightsOk(t) && Balanced(t)
  }

  /** Recomputes a real node's cached height from its children; a virtual
      node is left alone. */
  function FixHeight<V>(t: Tree<V>): (r: Tree<V>)
    ensures InOrder(r) == InOrder(t)
    ensures r.Virtual? == t.Virtual?
    ensures r.Node? ==> r == t.(height := r.height)
    ensures t.Node? && HeightsOk(t.left) && HeightsOk(t.right) ==> HeightsOk(r)
    ensures HeightsOk(t) ==> r == t
  {
    if t.Virtual? then t else t.(height := CalcHeight(t))
  }

  /** Height of the tree measured on its structure, ignoring every cache. */
  function TrueHeight<V>(t: Tree<V>): int {
    if t.Virtual? then -1 else Max(TrueHeight(t.left), TrueHeight(t.right)) + 1
  }

  /** With consistent caches, the cached height is the structural height. */
  lemma {:induction false} CachedHeightIsTrue<V>(t: Tree<V>)
    requires HeightsOk(t)
    ensures Height(t) == TrueHeight(t)
  {
    if t.Node? {
      CachedHeightIsTrue(t.left);
      CachedHeightIsTrue(t.right);
    }
  }

  /** Heights of consistent trees are at least -1, and at least 0 for a real node. */
  lemma HeightRange<V>(t: Tree<V>)
    requires HeightsOk(t)
    ensures Height(t) >= -1
    ensures t.Node? ==> Height(t) >= 0
  {
    if t.Node? {
      HeightRange(t.left);
      HeightRange(t.right);
    }
  }

  /** The set of keys held by real nodes. */
  function Keys<V>(t: Tree<V>): set<int> {
    if t.Virtual? then {} else Keys(t.left) + {t.key} + Keys(t.right)
  }

  /** Search-tree order stated on the structure: every real node separates the
      keys of its left subtree from those of its right subtree. */
  ghost predicate SearchOrdered<V>(t: Tree<V>) {
    t.Virtual? ||
    (SearchOrdered(t.left) && SearchOrdered(t.right) &&
     (forall x | x in Keys(t.left) :: x < t.key) &&
     (forall x | x in Keys(t.right) :: t.key < x))
  }

  /** The keys of the in-order list are the keys of the real nodes. */
  lemma {:induction false} KeysOfInOrder<V>(t: Tree<V>)
    ensures forall e | e in InOrder(t) :: e.0 in Keys(t)
    ensures forall x | x in Keys(t) :: HasKey(InOrder(t), x)
  {
    if t.Node? {
      KeysOfInOrder(t.left);
      KeysOfInOrder(t.right);
      forall x | x in Keys(t) ensures HasKey(InOrder(t), x) {
        if x in Keys(t.left) {
          var e :| e in InOrder(t.left) && e.0 == x;
          assert e in InOrder(t);
        } else if x == t.key {
          assert (t.key, t.value) in InOrder(t);
        } else {
          var e :| e in InOrder(t.right) && e.0 == x;
          assert e in InOrder(t);
        }
      }
    }
  }

  /** The in-order list is sorted exactly when every node separates its subtrees. */
  lemma {:induction false} SortedIffSearchOrdered<V>(t: Tree<V>)
    ensures Bst(t) <==> SearchOrdered(t)
  {
    if t.Node? {
      SortedIffSearchOrdered(t.left);
      SortedIffSearchOrdered(t.right);
      KeysOfInOrder(t.left);
      KeysOfInOrder(t.right);
      SortedAround(InOrder(t.left), (t.key, t.value), InOrder(t.right));
    }
  }

  /** Search-tree order at one real node, in terms of its subtrees. */
  lemma BstNode<V>(t: Tree<V>)
    requires t.Node?
    ensures Bst(t) <==>
      Bst(t.left) && Bst(t.right) && AllBelow(InOrder(t.left), t.key) && AllAbove(InOrder(t.right), t.key)
  {
    SortedAround(InOrder(t.left), (t.key, t.value), InOrder(t.right));
  }

  /** A key is present at a real node exactly when it is the node's own key or
      present in one of its subtrees. */
  lemma HasKeyNode<V>(t: Tree<V>, k: int)
    requires t.Node?
    ensures HasKey(InOrder(t), k) <==>
      HasKey(InOrder(t.left), k) || k == t.key || HasKey(InOrder(t.right), k)
  {
    if HasKey(InOrder(t), k) {
      var e :| e in InOrder(t) && e.0 == k;
      assert e in InOrder(t.left) || e == (t.key, t.value) || e in InOrder(t.right);
    }
    if HasKey(InOrder(t.left), k) {
      var e :| e in InOrder(t.left) && e.0 == k;
      assert e in InOrder(t);
    }
    if HasKey(InOrder(t.right), k) {
      var e :| e in InOrder(t.right) && e.0 == k;
      assert e in InOrder(t);
    }
    assert (t.key, t.value) in InOrder(t);
  }

  /** `s` is the subtree rooted at one of the real nodes of `t`. */
  ghost predicate Occurs<V>(s: Tree<V>, t: Tree<V>) {
    t.Node? && (s == t || Occurs(s, t.left) || Occurs(s, t.right))
  }

  /** The entry of a real node occurs in the in-order list of every tree it belongs to. */
  lemma {:induction false} OccursEntry<V>(s: Tree<V>, t: Tree<V>)
    requires Occurs(s, t) && s.Node?
    ensures (s.key, s.value) in InOrder(t)
  {
    if s != t {
      if Occurs(s, t.left) {
        OccursEntry(s, t.left);
      } else {
        OccursEntry(s, t.right);
      }
    }
  }

  /** The real node holding key `k`, if any, found by looking everywhere
      rather than by following the search order. */
  function NodeAt<V>(t: Tree<V>, k: int): (r: Option<Tree<V>>)
    ensures r.Some? <==> HasKey(InOrder(t), k)
    ensures r.Some? ==> r.value.Node? && r.value.key == k && Occurs(r.value, t)
  {
    if t.Virtual? then None
    else
      HasKeyNode(t, k);
      if t.key == k then Some(t)
      else if NodeAt(t.left, k).Some? then NodeAt(t.left, k)
      else NodeAt(t.right, k)
  }

  /** The number of edges from the root of `t` down to the node holding `k`. */
  function KeyDepth<V>(t: Tree<V>, k: int): nat
    requires HasKey(InOrder(t), k)
  {
    HasKeyNode(t, k);
    if t.key == k then 0
    else if NodeAt(t.left, k).Some? then 1 + KeyDepth(t.left, k)
    else 1 + KeyDepth(t.right, k)
  }

  /** The turns (true = right) of the descent that looks for the place of key
      `k`, ending at a virtual node; a node whose key is not smaller than `k`
      sends the descent left. */
  function DescentPath<V>(t: Tree<V>, k: int): seq<bool> {
    if t.Virtual? then []
    else if t.key < k then [true] + DescentPath(t.right, k)
    else [false] + DescentPath(t.left, k)
  }

  /** The nodes met walking from `t` down its right children, ending at the
      node with the largest key. */
  function RightSpine<V>(t: Tree<V>): (s: seq<Tree<V>>)
    ensures |s| == 0 <==> t.Virtual?
    ensures forall i | 0 <= i < |s| :: s[i].Node?
    ensures forall i | 0 <= i < |s| - 1 :: s[i + 1] == s[i].right
    ensures |s| > 0 ==> s[0] == t && s[|s| - 1].right.Virtual?
  {
    if t.Virtual? then [] else [t] + RightSpine(t.right)
  }

  /** One step of a search from a real node whose key exceeds `k`: everything
      about `k` is decided in the left subtree. */
  lemma DescendLeft<V>(t: Tree<V>, k: int)
    requires t.Node? && Bst(t) && k < t.key
    ensures Bst(t.left) && Bst(t.right)
    ensures HasKey(InOrder(t), k) <==> HasKey(InOrder(t.left), k)
    ensures NodeAt(t, k) == NodeAt(t.left, k)
    ensures HasKey(InOrder(t.left), k) ==> KeyDepth(t, k) == 1 + KeyDepth(t.left, k)
  {
    BstNode(t);
    HasKeyNode(t, k);
    assert !HasKey(InOrder(t.right), k);
  }

  /** The entries of a search tree below and above a key smaller than the root's. */
  lemma FilterLeft<V>(t: Tree<V>, k: int)
    requires t.Node? && Bst(t) && k < t.key
    ensures Below(InOrder(t), k) == Below(InOrder(t.left), k)
    ensures Above(InOrder(t), k) == Above(InOrder(t.left), k) + [(t.key, t.value)] + InOrder(t.right)
  {
    BstNode(t);
    var l, e, r := InOrder(t.left), (t.key, t.value), InOrder(t.right);
    FilterAround(l, e, r, k);
    FilterAllAbove(r, k);
    assert Below([e], k) == [] && Above([e], k) == [e];
  }

  /** One step of a search from a real node whose key is below `k`. */
  lemma DescendRight<V>(t: Tree<V>, k: int)
    requires t.Node? && Bst(t) && t.key < k
    ensures Bst(t.left) && Bst(t.right)
    ensures HasKey(InOrder(t), k) <==> HasKey(InOrder(t.right), k)
    ensures NodeAt(t, k) == NodeAt(t.right, k)
    ensures HasKey(InOrder(t.right), k) ==> KeyDepth(t, k) == 1 + KeyDepth(t.right, k)
  {
    BstNode(t);
    HasKeyNode(t, k);
    assert !HasKey(InOrder(t.left), k);
  }

  /** The entries of a search tree below and above a key larger than the root's. */
  lemma FilterRight<V>(t: Tree<V>, k: int)
    requires t.Node? && Bst(t) && t.key < k
    ensures Below(InOrder(t), k) == InOrder(t.left) + [(t.key, t.value)] + Below(InOrder(t.right), k)
    ensures Above(InOrder(t), k) == Above(InOrder(t.right), k)
  {
    BstNode(t);
    var l, e, r := InOrder(t.left), (t.key, t.value), InOrder(t.right);
    FilterAround(l, e, r, k);
    FilterAllBelow(l, k);
    assert Below([e], k) == [e] && Above([e], k) == [];
  }

  /** At the node holding `k`, the entries below and above `k` are exactly its
      two subtrees. */
  lemma DescendHere<V>(t: Tree<V>)
    requires t.Node? && Bst(t)
    ensures Bst(t.left) && Bst(t.right)
    ensures Below(InOrder(t), t.key) == InOrder(t.left)
    ensures Above(InOrder(t), t.key) == InOrder(t.right)
  {
    BstNode(t);
    FilterSeparated(InOrder(t.left), (t.key, t.value), InOrder(t.right));
  }
}
