/** The dictionary: a tree together with its cached maximum entry and item
    count, and the public operations on it. */
module Dictionary {
  import opened Wrappers
  import opened Entries
  import opened AvlNode
  import opened Rotation
  import opened Insertion
  import opened Deletion
  import opened TreeJoin
  import opened TreeSplit
  import opened Finger

  /** The tree, the entry of its node with the largest key, and the number
      of items. An empty dictionary has a virtual root and no maximum. */
  datatype Dict<V> = Dict(root: Tree<V>, max: Option<Entry<V>>, size: nat)

  /** The items in ascending key order, as the in-order walk lists them. */
  function Items<V>(d: Dict<V>): seq<Entry<V>> {
    InOrder(d.root)
  }

  /** The caches agree with the tree, which is a search tree whose cached
      heights are the true ones. */
  ghost predicate Consistent<V>(d: Dict<V>) {
    Bst(d.root) && HeightsOk(d.root) &&
    d.size == |Items(d)| && d.max == LastEntry(Items(d))
  }

  /** A consistent dictionary whose tree is balanced at every node. */
  ghost predicate Valid<V>(d: Dict<V>) {
    Consistent(d) && Balanced(d.root)
  }

  /** A new dictionary, with no root, no maximum and no items. */
  function Empty<V>(): (d: Dict<V>)
    ensures Valid(d) && Items(d) == []
  {
    Dict(Virtual, None, 0)
  }

  /** The search loop from a real node: stop at the node holding `k` or at
      a virtual node, adding one edge per step down; a miss gives back the
      last edge, the one into the virtual node. */
  method Descend<V>(start: Tree<V>, k: int, edges0: nat) returns (found: Option<Tree<V>>, edges: nat)
    requires Bst(start) && start.Node? && edges0 >= 1
    ensures found == NodeAt(start, k)
    ensures found.Some? ==> edges == edges0 + KeyDepth(start, k)
    ensures found.None? ==> edges == edges0 + |DescentPath(start, k)| - 1
  {
    var node := start;
    edges := edges0;
    while node.Node? && node.key != k
      invariant Bst(node)
      invariant edges >= edges0
      invariant NodeAt(start, k) == NodeAt(node, k)
      invariant HasKey(InOrder(node), k) ==> KeyDepth(start, k) == edges - edges0 + KeyDepth(node, k)
      invariant |DescentPath(start, k)| == edges - edges0 + |DescentPath(node, k)|
      decreases node
    {
      if node.key < k {
        DescendRight(node, k);
        node := node.right;
      } else {
        DescendLeft(node, k);
        node := node.left;
      }
      edges := edges + 1;
    }
    if node.Node? {
      found := Some(node);
    } else {
      found := None;
      edges := edges - 1;
    }
  }

  /** Search from the root. The node holding `k` comes back exactly when `k`
      is present, with one more than its depth as the edge count; a miss
      reports the length of the descent, and an empty dictionary reports 1. */
  method Search<V>(d: Dict<V>, k: int) returns (found: Option<Tree<V>>, edges: nat)
    requires Bst(d.root)
    ensures found == NodeAt(d.root, k)
    ensures found.Some? <==> HasKey(Items(d), k)
    ensures found.Some? ==> found.value.Node? && found.value.key == k && Occurs(found.value, d.root)
    ensures found.Some? ==> edges == KeyDepth(d.root, k) + 1
    ensures d.root.Virtual? ==> found.None? && edges == 1
    ensures d.root.Node? && found.None? ==> edges == |DescentPath(d.root, k)|
  {
    if d.root.Virtual? {
      return None, 1;
    }
    found, edges := Descend(d.root, k, 1);
  }

  /** Search from the maximum: climb the right spine while `k` is below the
      current node's key and the root is not reached, one edge per step, then
      search from there. It finds the very node a search from the root
      finds, and it needs no balance to do so. The spine node where the climb
      stops sits at depth `j`, so the edge count is one, plus the climb, plus
      the depth of the node found (or the length of the descent, on a miss)
      below that stop. An empty dictionary has no maximum to start from, and
      the search raises. */
  method FingerSearch<V>(d: Dict<V>, k: int) returns (r: Outcome<(Option<Tree<V>>, nat)>)
    requires Consistent(d)
    ensures r.Raised? <==> d.root.Virtual?
    ensures r.Done? ==> r.value.0 == NodeAt(d.root, k)
    ensures r.Done? ==> d.root.Node?
    ensures r.Done? && d.root.Node? ==>
      var j := SearchStop(d.root, k, |RightSpine(d.root)| - 1);
      var climbed := |RightSpine(d.root)| - 1 - j;
      (r.value.0.Some? ==> r.value.1 == 1 + climbed + KeyDepth(d.root, k) - j) &&
      (r.value.0.None? ==> r.value.1 == climbed + |DescentPath(d.root, k)| - j)
  {
    if d.max.None? {
      return Raised;
    }
    assert |Items(d)| > 0;
    var i, climbed := SearchClimb(d.root, k);
    SearchStopPosition(d.root, k);
    var found, edges := Descend(RightSpine(d.root)[i], k, climbed + 1);
    return Done((found, edges));
  }

  /** The finger search's climb from the last node of the right spine: the
      index where it stops, and one edge per step up. */
  method SearchClimb<V>(t: Tree<V>, k: int) returns (i: nat, edges: nat)
    requires t.Node?
    ensures i == SearchStop(t, k, |RightSpine(t)| - 1)
    ensures edges == |RightSpine(t)| - 1 - i
  {
    var spine := RightSpine(t);
    i := |spine| - 1;
    edges := 0;
    while 0 < i && k < spine[i].key
      invariant 0 <= i < |spine|
      invariant SearchStop(t, k, |spine| - 1) == SearchStop(t, k, i)
      invariant edges == |spine| - 1 - i
    {
      i := i - 1;
      edges := edges + 1;
    }
  }

  /** Insert an absent key: descend from the root to a virtual node, one
      edge per step, put the new entry there and rebalance the ancestors. The
      items gain the entry at its sorted place, the size grows by one, and the
      maximum becomes the new entry exactly when its key exceeds the old
      maximum's. The node returned holds the new entry; one promotion is
      counted for each level node at the bottom of the descent, which is
      every node on it exactly when the tree grew taller. */
  method Insert<V>(d: Dict<V>, k: int, v: V) returns (r: Dict<V>, node: Tree<V>, edges: nat, promotes: nat)
    requires Valid(d) && !HasKey(Items(d), k)
    ensures Valid(r)
    ensures Items(r) == Below(Items(d), k) + [(k, v)] + Above(Items(d), k)
    ensures r.size == d.size + 1
    ensures r.max == (if d.max.None? || d.max.value.0 < k then Some((k, v)) else d.max)
    ensures node.Node? && node.key == k && node.value == v && Occurs(node, r.root)
    ensures edges == |DescentPath(d.root, k)|
    ensures promotes == LevelRun(d.root, k)
    ensures promotes == edges <==> Height(r.root) == Height(d.root) + 1
    ensures r.root == InsertRec(d.root, k, v).0 && promotes == InsertRec(d.root, k, v).2
  {
    var res := InsertRec(d.root, k, v);
    var m := d.max;
    if d.max.None? || d.max.value.0 < k {
      m := Some((k, v));
    }
    MaxAfterInsert(Items(d), k, v);
    FilterCountAbsent(Items(d), k);
    r := Dict(res.0, m, d.size + 1);
    assert Items(r) == Below(Items(d), k) + [(k, v)] + Above(Items(d), k);
    assert (k, v) in Items(r);
    var at := NodeAt(res.0, k);
    node := at.value;
    OccursEntry(node, res.0);
    ValueAtKey(Items(r), (node.key, node.value), (k, v));
    edges := res.1;
    promotes := res.2;
  }

  /** Insert an absent key starting from the maximum: an empty dictionary
      is handed to `Insert`; otherwise climb the right spine while `k` is
      below both the current node's key and its parent's, one edge per step,
      then descend to a virtual node. The descent from the stop is the tail of
      the descent from the root, so the entry lands at the same virtual node
      and the resulting dictionary is the one `Insert` builds. */
  method FingerInsert<V>(d: Dict<V>, k: int, v: V) returns (r: Dict<V>, node: Tree<V>, edges: nat, promotes: nat)
    requires Valid(d) && !HasKey(Items(d), k)
    ensures Valid(r)
    ensures Items(r) == Below(Items(d), k) + [(k, v)] + Above(Items(d), k)
    ensures r.size == d.size + 1
    ensures r.max == (if d.max.None? || d.max.value.0 < k then Some((k, v)) else d.max)
    ensures node.Node? && node.key == k && node.value == v && Occurs(node, r.root)
    ensures r.root == InsertRec(d.root, k, v).0 && promotes == InsertRec(d.root, k, v).2
    ensures promotes == LevelRun(d.root, k)
    ensures d.root.Virtual? ==> edges == 0
    ensures d.root.Node? ==>
      var j := InsertStop(d.root, k, |RightSpine(d.root)| - 1);
      DescentPath(d.root, k) == Rights(j) + DescentPath(RightSpine(d.root)[j], k) &&
      edges == |RightSpine(d.root)| - 1 - j + |DescentPath(RightSpine(d.root)[j], k)|
  {
    if d.max.None? {
      r, node, edges, promotes := Insert(d, k, v);
      return;
    }
    assert |Items(d)| > 0;
    var i;
    i, edges := InsertClimb(d.root, k);
    InsertStopPosition(d.root, k);
    edges := DescentLength(RightSpine(d.root)[i], k, edges);
    var e;
    r, node, e, promotes := Insert(d, k, v);
  }

  /** The finger insertion's climb from the last node of the right spine:
      the index where it stops, and one edge per step up. */
  method InsertClimb<V>(t: Tree<V>, k: int) returns (i: nat, edges: nat)
    requires t.Node?
    ensures i == InsertStop(t, k, |RightSpine(t)| - 1)
    ensures edges == |RightSpine(t)| - 1 - i
  {
    var spine := RightSpine(t);
    i := |spine| - 1;
    edges := 0;
    while 0 < i && k < spine[i].key && k < spine[i - 1].key
      invariant 0 <= i < |spine|
      invariant InsertStop(t, k, |spine| - 1) == InsertStop(t, k, i)
      invariant edges == |spine| - 1 - i
    {
      i := i - 1;
      edges := edges + 1;
    }
  }

  /** The insertion's search loop: step down from `start` to a virtual node,
      one edge per step. */
  method DescentLength<V>(start: Tree<V>, k: int, edges0: nat) returns (edges: nat)
    ensures edges == edges0 + |DescentPath(start, k)|
  {
    var at := start;
    edges := edges0;
    while at.Node?
      invariant edges + |DescentPath(at, k)| == edges0 + |DescentPath(start, k)|
      decreases at
    {
      if at.key < k {
        at := at.right;
      } else {
        at := at.left;
      }
      edges := edges + 1;
    }
  }

  /** Two entries of a sorted sequence with the same key are the same entry. */
  lemma ValueAtKey<V>(s: seq<Entry<V>>, a: Entry<V>, b: Entry<V>)
    requires Sorted(s) && a in s && b in s && a.0 == b.0
    ensures a == b
  {
  }

  /** After placing `(k, v)` among entries that lack `k`, the last entry is
      the new one when `k` exceeds the old last key (or there was none), and
      the old last entry otherwise. */
  lemma MaxAfterInsert<V>(s: seq<Entry<V>>, k: int, v: V)
    requires Sorted(s) && !HasKey(s, k)
    ensures var m := LastEntry(s);
      LastEntry(Below(s, k) + [(k, v)] + Above(s, k)) ==
        (if m.None? || m.value.0 < k then Some((k, v)) else m)
  {
    if |s| > 0 {
      var last := s[|s| - 1];
      if last.0 < k {
        LastBelow(s, k);
        FilterAllBelow(s, k);
        assert Below(s, k) + [(k, v)] + Above(s, k) == s + [(k, v)];
      } else {
        assert last in s;
        LastAbove(s, k);
        var c := Below(s, k) + [(k, v)] + Above(s, k);
        var a := Above(s, k);
        assert c == (Below(s, k) + [(k, v)]) + a;
        assert c[|c| - 1] == a[|a| - 1];
      }
    }
  }

  /** Every key of a sorted sequence is at most its last one. */
  lemma LastBelow<V>(s: seq<Entry<V>>, k: int)
    requires Sorted(s) && |s| > 0 && s[|s| - 1].0 < k
    ensures AllBelow(s, k)
  {
    forall e | e in s ensures e.0 < k {
      var i :| 0 <= i < |s| && s[i] == e;
    }
  }

  /** When the last key exceeds `k`, the last entry above `k` is the last
      entry. */
  lemma {:induction false} LastAbove<V>(s: seq<Entry<V>>, k: int)
    requires |s| > 0 && k < s[|s| - 1].0
    ensures |Above(s, k)| > 0 && Above(s, k)[|Above(s, k)| - 1] == s[|s| - 1]
  {
    var t := s[1..];
    if |s| == 1 {
      assert Above(s, k) == [s[0]] + Above(t, k);
      assert Above(t, k) == [];
    } else {
      LastAbove(t, k);
      assert t[|t| - 1] == s[|s| - 1];
      var a := Above(t, k);
      if k < s[0].0 {
        assert Above(s, k) == [s[0]] + a;
        assert ([s[0]] + a)[|a|] == a[|a| - 1];
      } else {
        assert Above(s, k) == a;
      }
    }
  }

  /** Delete a node: nothing happens for no node or a virtual one.
      Otherwise exactly that node's entry leaves the items, the size drops by
      one, the maximum is cleared when nothing is left and otherwise is the
      last remaining entry, recomputed by a walk when the deleted node was
      the maximum. Heights stay consistent and the root balanced for either
      rotation dispatch; the corrected one keeps the dictionary valid. */
  method Delete<V>(d: Dict<V>, node: Option<Tree<V>>, disp: Dispatch) returns (r: Dict<V>)
    requires Valid(d)
    requires node.Some? && node.value.Node? ==> Occurs(node.value, d.root)
    ensures node.None? || node.value.Virtual? ==> r == d
    ensures node.Some? && node.value.Node? ==>
      var k := node.value.key;
      Items(d) == Below(Items(d), k) + [(k, node.value.value)] + Above(Items(d), k) &&
      Items(r) == Below(Items(d), k) + Above(Items(d), k) &&
      r.size + 1 == d.size
    ensures Consistent(r) && RootBalanced(r.root)
    ensures r.max.None? <==> r.size == 0
    ensures disp.Corrected? ==> Valid(r)
  {
    if node.None? || node.value.Virtual? {
      return d;
    }
    var n := node.value;
    OccursEntry(n, d.root);
    EntryAround(Items(d), (n.key, n.value));
    var root := DeleteKey(d.root, n.key, disp);
    var size := d.size - 1;
    var m: Option<Entry<V>>;
    if size == 0 {
      m := None;
    } else if d.max.value.0 == n.key {
      m := UpdateMax(root);
    } else {
      m := d.max;
      MaxAfterDelete(Items(d), (n.key, n.value));
    }
    r := Dict(root, m, size);
  }

  /** Removing an entry other than the last leaves the last entry in place. */
  lemma MaxAfterDelete<V>(s: seq<Entry<V>>, e: Entry<V>)
    requires s == Below(s, e.0) + [e] + Above(s, e.0)
    requires LastEntry(s).Some? && LastEntry(s).value.0 != e.0
    ensures LastEntry(Below(s, e.0) + Above(s, e.0)) == LastEntry(s)
  {
    var a := Above(s, e.0);
    assert |a| > 0;
    var c := Below(s, e.0) + a;
    assert c[|c| - 1] == a[|a| - 1] == s[|s| - 1];
  }

  /** Every key of `lo` is below `k` and every key of `hi` above it. */
  ghost predicate Separated<V>(lo: seq<Entry<V>>, k: int, hi: seq<Entry<V>>) {
    AllBelow(lo, k) && AllAbove(hi, k)
  }

  /** Join `d1` with `d2` through a separating entry, in either orientation.
      An empty side makes it an insertion into the other side; otherwise the
      root key of `d1` tells the orientation and the trees are joined. The
      items are the smaller side's, the separator, and the larger side's;
      the size is both sizes plus one; the maximum is the larger side's, or
      the separator when that side is empty. */
  method Join<V>(d1: Dict<V>, d2: Dict<V>, k: int, v: V, disp: Dispatch) returns (r: Dict<V>)
    requires Valid(d1) && Valid(d2)
    requires Separated(Items(d1), k, Items(d2)) || Separated(Items(d2), k, Items(d1))
    ensures Separated(Items(d1), k, Items(d2)) ==> Items(r) == Items(d1) + [(k, v)] + Items(d2)
    ensures Separated(Items(d2), k, Items(d1)) ==> Items(r) == Items(d2) + [(k, v)] + Items(d1)
    ensures r.size == d1.size + d2.size + 1
    ensures var larger := if Separated(Items(d1), k, Items(d2)) then d2 else d1;
      r.max == (if larger.max.Some? then larger.max else Some((k, v)))
    ensures Consistent(r) && RootBalanced(r.root)
    ensures disp.Corrected? ==> Valid(r)
  {
    var lo1 := Separated(Items(d1), k, Items(d2));
    if d1.root.Virtual? {
      JoinEmpty(d1, d2, k, v);
      r := InsertSeparator(d2, k, v);
    } else if d2.root.Virtual? {
      JoinEmpty(d2, d1, k, v);
      r := InsertSeparator(d1, k, v);
    } else if d1.root.key < k {
      JoinOrientation(d1, d2, k);
      r := JoinNonEmpty(d1, d2, k, v, disp);
    } else {
      JoinOrientation(d1, d2, k);
      r := JoinNonEmpty(d2, d1, k, v, disp);
    }
  }

  /** The join with an empty side: insert the separator into the other one. */
  method InsertSeparator<V>(d: Dict<V>, k: int, v: V) returns (r: Dict<V>)
    requires Valid(d) && !HasKey(Items(d), k)
    requires AllBelow(Items(d), k) || AllAbove(Items(d), k)
    ensures Valid(r) && r.size == d.size + 1
    ensures AllBelow(Items(d), k) ==> Items(r) == Items(d) + [(k, v)] && r.max == Some((k, v))
    ensures AllAbove(Items(d), k) ==>
      Items(r) == [(k, v)] + Items(d) && r.max == (if d.max.Some? then d.max else Some((k, v)))
  {
    if AllBelow(Items(d), k) {
      PlaceAtEnd(Items(d), k, v);
    }
    if AllAbove(Items(d), k) {
      PlaceAtFront(Items(d), k, v);
    }
    var node, edges, promotes;
    r, node, edges, promotes := Insert(d, k, v);
  }

  /** Placing an entry above every key appends it, and it becomes the last. */
  lemma PlaceAtEnd<V>(s: seq<Entry<V>>, k: int, v: V)
    requires AllBelow(s, k)
    ensures Below(s, k) + [(k, v)] + Above(s, k) == s + [(k, v)]
    ensures LastEntry(s).None? || LastEntry(s).value.0 < k
  {
    FilterAllBelow(s, k);
    if |s| > 0 {
      assert s[|s| - 1] in s;
    }
  }

  /** Placing an entry below every key prepends it, and the last entry stays. */
  lemma PlaceAtFront<V>(s: seq<Entry<V>>, k: int, v: V)
    requires AllAbove(s, k)
    ensures Below(s, k) + [(k, v)] + Above(s, k) == [(k, v)] + s
    ensures LastEntry(s).None? || k < LastEntry(s).value.0
  {
    FilterAllAbove(s, k);
    if |s| > 0 {
      assert s[|s| - 1] in s;
    }
  }

  /** With one side empty, the separator is absent from the other side, and
      the insertion's result is the join's. */
  lemma JoinEmpty<V>(e: Dict<V>, d: Dict<V>, k: int, v: V)
    requires Valid(e) && Valid(d) && e.root.Virtual?
    requires Separated(Items(e), k, Items(d)) || Separated(Items(d), k, Items(e))
    ensures !HasKey(Items(d), k)
    ensures Items(e) == [] && e.size == 0 && e.max.None?
    ensures Separated(Items(e), k, Items(d)) <==> AllAbove(Items(d), k)
    ensures Separated(Items(d), k, Items(e)) <==> AllBelow(Items(d), k)
  {
  }

  /** With both sides non-empty, the root key of `d1` tells which side holds
      the smaller keys. */
  lemma JoinOrientation<V>(d1: Dict<V>, d2: Dict<V>, k: int)
    requires d1.root.Node? && d2.root.Node?
    requires Separated(Items(d1), k, Items(d2)) || Separated(Items(d2), k, Items(d1))
    ensures Separated(Items(d1), k, Items(d2)) <==> d1.root.key < k
    ensures Separated(Items(d2), k, Items(d1)) <==> !(d1.root.key < k)
  {
    assert (d1.root.key, d1.root.value) in Items(d1);
    assert (d2.root.key, d2.root.value) in Items(d2);
  }

  /** The join of two non-empty dictionaries, `lo` holding the smaller keys. */
  method JoinNonEmpty<V>(lo: Dict<V>, hi: Dict<V>, k: int, v: V, disp: Dispatch) returns (r: Dict<V>)
    requires Valid(lo) && Valid(hi) && lo.root.Node? && hi.root.Node?
    requires Separated(Items(lo), k, Items(hi))
    ensures Items(r) == Items(lo) + [(k, v)] + Items(hi)
    ensures r.size == lo.size + hi.size + 1 && r.max == hi.max
    ensures Consistent(r) && RootBalanced(r.root)
    ensures disp.Corrected? ==> Valid(r)
  {
    var root := JoinTrees(lo.root, k, v, hi.root, disp);
    assert |Items(hi)| > 0;
    var c := Items(lo) + [(k, v)] + Items(hi);
    assert c[|c| - 1] == Items(hi)[|Items(hi)| - 1];
    r := Dict(root, hi.max, lo.size + hi.size + 1);
  }

  /** Join as the code is written: when both sides are non-empty and `d1`
      holds the larger keys, the join is redone from `d2`'s side and the size
      is then read through a method the tree does not have, which raises.
      Every other case completes as `Join` does with the rotation dispatch
      as written. */
  method JoinAsWritten<V>(d1: Dict<V>, d2: Dict<V>, k: int, v: V) returns (r: Outcome<Dict<V>>)
    requires Valid(d1) && Valid(d2)
    requires Separated(Items(d1), k, Items(d2)) || Separated(Items(d2), k, Items(d1))
    ensures r.Raised? <==> d1.root.Node? && d2.root.Node? && Separated(Items(d2), k, Items(d1))
    ensures r.Done? ==>
      Items(r.value) == (if Separated(Items(d1), k, Items(d2)) then Items(d1) + [(k, v)] + Items(d2)
                         else Items(d2) + [(k, v)] + Items(d1))
    ensures r.Done? ==> Consistent(r.value) && r.value.size == d1.size + d2.size + 1
  {
    if d1.root.Node? && d2.root.Node? {
      JoinOrientation(d1, d2, k);
      if !(d1.root.key < k) {
        return Raised;
      }
    }
    var t := Join(d1, d2, k, v, AsWritten);
    return Done(t);
  }

  /** Two one-entry dictionaries, the first holding the larger key, are a
      legitimate input to join, and one on which the code as written raises. */
  lemma JoinReversedRaises<V>(v: V)
    ensures var d1 := Dict(Node(Virtual, 5, v, Virtual, 0), Some((5, v)), 1);
      var d2 := Dict(Node(Virtual, 1, v, Virtual, 0), Some((1, v)), 1);
      Valid(d1) && Valid(d2) && Separated(Items(d2), 3, Items(d1)) &&
      d1.root.Node? && d2.root.Node?
  {
    var d1 := Dict(Node(Virtual, 5, v, Virtual, 0), Some((5, v)), 1);
    var d2 := Dict(Node(Virtual, 1, v, Virtual, 0), Some((1, v)), 1);
    var none: seq<Entry<V>> := [];
    assert InOrder<V>(Virtual) == none;
    assert Items(d1) == none + [(5, v)] + none == [(5, v)];
    assert Items(d2) == none + [(1, v)] + none == [(1, v)];
  }

  /** Split at a node of the dictionary: the left tree holds exactly the
      entries with smaller keys and the right tree those with larger keys,
      each in its original order and each an AVL tree, and each maximum is
      recomputed by the walk to the rightmost node. */
  method Split<V>(d: Dict<V>, node: Tree<V>)
    returns (left: Tree<V>, leftMax: Option<Entry<V>>, right: Tree<V>, rightMax: Option<Entry<V>>)
    requires Valid(d) && node.Node? && Occurs(node, d.root)
    ensures Avl(left) && Avl(right)
    ensures InOrder(left) == Below(Items(d), node.key) && InOrder(right) == Above(Items(d), node.key)
    ensures Items(d) == InOrder(left) + [(node.key, node.value)] + InOrder(right)
    ensures leftMax == LastEntry(InOrder(left)) && rightMax == LastEntry(InOrder(right))
  {
    OccursEntry(node, d.root);
    EntryAround(Items(d), (node.key, node.value));
    var parts := SplitTree(d.root, node.key);
    left, right := parts.0, parts.1;
    leftMax := UpdateMax(left);
    rightMax := UpdateMax(right);
  }

  /** The in-order walk, appending each real node's entry after its left
      subtree's and before its right subtree's. What it appends carries
      exactly the keys of the subtree's real nodes, and comes out in
      ascending key order whenever every node separates the keys of its two
      subtrees. */
  method ToArrayRec<V>(node: Tree<V>, acc: seq<Entry<V>>) returns (arr: seq<Entry<V>>)
    ensures arr == acc + InOrder(node)
    ensures |acc| <= |arr| && arr[..|acc|] == acc && ListsSubtree(node, arr[|acc|..])
    decreases node
  {
    arr := acc;
    if node.Node? {
      var lower := ToArrayRec(node.left, acc);
      arr := ToArrayRec(node.right, lower + [(node.key, node.value)]);
      assert arr == acc + (InOrder(node.left) + [(node.key, node.value)] + InOrder(node.right));
    }
    WalkAppends(node, acc, arr);
  }

  /** A list that carries exactly the keys of the real nodes of `node`, in
      ascending order whenever every node separates its subtrees' keys. */
  ghost predicate ListsSubtree<V>(node: Tree<V>, part: seq<Entry<V>>) {
    (set e | e in part :: e.0) == Keys(node) &&
    (SearchOrdered(node) ==> Sorted(part))
  }

  /** What the in-order walk appends, described without the walk itself. */
  lemma WalkAppends<V>(node: Tree<V>, acc: seq<Entry<V>>, arr: seq<Entry<V>>)
    requires arr == acc + InOrder(node)
    ensures |acc| <= |arr| && arr[..|acc|] == acc && ListsSubtree(node, arr[|acc|..])
  {
    var part := arr[|acc|..];
    assert part == InOrder(node);
    KeysOfInOrder(node);
    SortedIffSearchOrdered(node);
    forall x | x in Keys(node) ensures x in (set e | e in part :: e.0) {
      var e :| e in part && e.0 == x;
    }
  }

  /** The items as a list: in strictly ascending key order, as many as the
      cached size, and ending with the cached maximum. */
  method AvlToArray<V>(d: Dict<V>) returns (arr: seq<Entry<V>>)
    ensures arr == Items(d)
    ensures Consistent(d) ==> Sorted(arr) && |arr| == d.size && LastEntry(arr) == d.max
  {
    arr := ToArrayRec(d.root, []);
  }
}
