/** The finger walks: the climb from the maximum node up the right spine,
    and why the descent that follows it reaches the same place as a descent
    from the root. */
module Finger {
  import opened Entries
  import opened AvlNode

  /** Every node of the right spine belongs to the tree. */
  lemma {:induction false} SpineOccurs<V>(t: Tree<V>, m: int)
    requires 0 <= m < |RightSpine(t)|
    ensures Occurs(RightSpine(t)[m], t)
    decreases t
  {
    if m > 0 {
      SpineOccurs(t.right, m - 1);
    }
  }

  /** A subtree of a search tree is a search tree. */
  lemma {:induction false} OccursBst<V>(s: Tree<V>, t: Tree<V>)
    requires Bst(t) && Occurs(s, t)
    ensures Bst(s)
    decreases t
  {
    BstNode(t);
    if s != t {
      if Occurs(s, t.left) {
        OccursBst(s, t.left);
      } else {
        OccursBst(s, t.right);
      }
    }
  }

  /** Keys grow along the right spine of a search tree. */
  lemma SpineKeysAscend<V>(t: Tree<V>, m: int)
    requires Bst(t) && 0 < m < |RightSpine(t)|
    ensures t.key < RightSpine(t)[m].key
  {
    SpineOccurs(t.right, m - 1);
    OccursEntry(RightSpine(t.right)[m - 1], t.right);
    BstNode(t);
  }

  /** `n` right turns. */
  function Rights(n: nat): (s: seq<bool>)
    ensures |s| == n && forall i | 0 <= i < n :: s[i]
  {
    if n == 0 then [] else [true] + Rights(n - 1)
  }

  /** Climbing to the spine node at index `i` loses nothing when every
      spine node above it has a key smaller than `k`, which holds as soon as
      its parent's does: everything about `k` is decided below it. */
  lemma {:induction false} ClimbedPosition<V>(t: Tree<V>, i: int, k: int)
    requires Bst(t) && 0 <= i < |RightSpine(t)|
    requires i == 0 || RightSpine(t)[i - 1].key < k
    ensures Bst(RightSpine(t)[i])
    ensures NodeAt(t, k) == NodeAt(RightSpine(t)[i], k)
    ensures HasKey(InOrder(t), k) <==> HasKey(InOrder(RightSpine(t)[i]), k)
    ensures HasKey(InOrder(t), k) ==> KeyDepth(t, k) == i + KeyDepth(RightSpine(t)[i], k)
    decreases t
  {
    if i > 0 {
      ClimbOne(t, i, k);
      ClimbedPosition(t.right, i - 1, k);
    }
  }

  /** The descent from the root turns right `i` times to reach the spine
      node at index `i` under the same condition. */
  lemma {:induction false} ClimbedPath<V>(t: Tree<V>, i: int, k: int)
    requires Bst(t) && 0 <= i < |RightSpine(t)|
    requires i == 0 || RightSpine(t)[i - 1].key < k
    ensures DescentPath(t, k) == Rights(i) + DescentPath(RightSpine(t)[i], k)
    decreases t
  {
    if i > 0 {
      ClimbOne(t, i, k);
      ClimbedPath(t.right, i - 1, k);
      assert Rights(i) == [true] + Rights(i - 1);
    }
  }

  /** One step of the climb: the root turns right and the spine shifts by one. */
  lemma ClimbOne<V>(t: Tree<V>, i: int, k: int)
    requires Bst(t) && 0 < i < |RightSpine(t)|
    requires RightSpine(t)[i - 1].key < k
    ensures t.key < k && Bst(t.right)
    ensures 0 <= i - 1 < |RightSpine(t.right)| && RightSpine(t)[i] == RightSpine(t.right)[i - 1]
    ensures i - 1 == 0 || RightSpine(t.right)[i - 2].key < k
    ensures NodeAt(t, k) == NodeAt(t.right, k)
    ensures HasKey(InOrder(t), k) <==> HasKey(InOrder(t.right), k)
    ensures HasKey(InOrder(t.right), k) ==> KeyDepth(t, k) == 1 + KeyDepth(t.right, k)
    ensures DescentPath(t, k) == [true] + DescentPath(t.right, k)
  {
    var s, s' := RightSpine(t), RightSpine(t.right);
    assert s == [t] + s';
    if i > 1 {
      SpineKeysAscend(t, i - 1);
      assert s'[i - 2] == s[i - 1];
    }
    DescendRight(t, k);
  }

  /** The index on the right spine where the finger search's climb stops:
      the climb leaves a node while `k` is smaller than its key and it is not
      the root. */
  function SearchStop<V>(t: Tree<V>, k: int, i: int): (j: int)
    requires 0 <= i < |RightSpine(t)|
    ensures 0 <= j <= i
    ensures j == 0 || RightSpine(t)[j].key <= k
    ensures forall m | j < m <= i :: k < RightSpine(t)[m].key
  {
    if i == 0 || RightSpine(t)[i].key <= k then i else SearchStop(t, k, i - 1)
  }

  /** The index where the finger insertion's climb stops: it additionally
      stops below a parent whose key is not larger than `k`. */
  function InsertStop<V>(t: Tree<V>, k: int, i: int): (j: int)
    requires 0 <= i < |RightSpine(t)|
    ensures 0 <= j <= i
    ensures j == 0 || RightSpine(t)[j].key <= k || RightSpine(t)[j - 1].key <= k
    ensures j < i ==> forall m | j <= m <= i :: k < RightSpine(t)[m].key
  {
    var s := RightSpine(t);
    if i == 0 || s[i].key <= k || s[i - 1].key <= k then i
    else InsertStop(t, k, i - 1)
  }

  /** Each spine node's key is smaller than the next one's. */
  lemma SpineStepAscends<V>(t: Tree<V>, m: int)
    requires Bst(t) && 0 < m < |RightSpine(t)|
    ensures RightSpine(t)[m - 1].key < RightSpine(t)[m].key
  {
    var s := RightSpine(t);
    SpineOccurs(t, m - 1);
    OccursBst(s[m - 1], t);
    BstNode(s[m - 1]);
    assert s[m] == s[m - 1].right;
    assert (s[m].key, s[m].value) in InOrder(s[m]);
  }

  /** Where the finger search's climb stops, the spine node above (if any)
      has a key below `k`, so the search from the stop decides everything
      about `k` the way the search from the root does. */
  lemma SearchStopPosition<V>(t: Tree<V>, k: int)
    requires Bst(t) && t.Node?
    ensures var j := SearchStop(t, k, |RightSpine(t)| - 1);
      var s := RightSpine(t)[j];
      Bst(s) && NodeAt(t, k) == NodeAt(s, k) &&
      (HasKey(InOrder(t), k) <==> HasKey(InOrder(s), k)) &&
      (HasKey(InOrder(t), k) ==> KeyDepth(t, k) == j + KeyDepth(s, k)) &&
      |DescentPath(t, k)| == j + |DescentPath(s, k)|
  {
    var j := SearchStop(t, k, |RightSpine(t)| - 1);
    if j > 0 {
      SpineStepAscends(t, j);
    }
    ClimbedPosition(t, j, k);
    ClimbedPath(t, j, k);
  }

  /** The same for the finger insertion's climb, for a key the tree lacks:
      the descent from the stop is the tail of the descent from the root. */
  lemma InsertStopPosition<V>(t: Tree<V>, k: int)
    requires Bst(t) && t.Node? && !HasKey(InOrder(t), k)
    ensures var j := InsertStop(t, k, |RightSpine(t)| - 1);
      DescentPath(t, k) == Rights(j) + DescentPath(RightSpine(t)[j], k)
  {
    var s := RightSpine(t);
    var j := InsertStop(t, k, |s| - 1);
    if j > 0 {
      SpineStepAscends(t, j);
      SpineOccurs(t, j - 1);
      OccursEntry(s[j - 1], t);
    }
    ClimbedPath(t, j, k);
  }
}
