/** Laws that relate the operations to one another, stated on the in-order
    lists of the trees they build. */
module Laws {
  import opened Entries
  import opened AvlNode
  import opened Rotation
  import opened Insertion
  import opened Deletion
  import opened TreeJoin
  import opened TreeSplit

  /** Splitting at a node and joining the halves back through that node's
      entry gives the original list of entries. */
  lemma SplitThenJoin<V>(t: Tree<V>, n: Tree<V>)
    requires Avl(t) && n.Node? && Occurs(n, t)
    ensures HasKey(InOrder(t), n.key)
    ensures var p := SplitTree(t, n.key);
      AllBelow(InOrder(p.0), n.key) && AllAbove(InOrder(p.1), n.key) &&
      InOrder(JoinTrees(p.0, n.key, n.value, p.1, Corrected)) == InOrder(t)
  {
    OccursEntry(n, t);
    EntryAround(InOrder(t), (n.key, n.value));
    FilterMembers(InOrder(t), n.key);
  }

  /** Joining two trees through a separator and splitting the result at the
      separator's key gives back the two lists of entries. */
  lemma JoinThenSplit<V>(a: Tree<V>, k: int, v: V, b: Tree<V>)
    requires Avl(a) && Avl(b) && AllBelow(InOrder(a), k) && AllAbove(InOrder(b), k)
    ensures var j := JoinTrees(a, k, v, b, Corrected);
      Avl(j) && HasKey(InOrder(j), k) &&
      InOrder(SplitTree(j, k).0) == InOrder(a) && InOrder(SplitTree(j, k).1) == InOrder(b)
  {
    var j := JoinTrees(a, k, v, b, Corrected);
    assert (k, v) in InOrder(j);
    FilterSeparated(InOrder(a), (k, v), InOrder(b));
  }

  /** Deleting a key and putting its entry back gives the original list of
      entries. Under either dispatch the deletion leaves a search tree with
      consistent heights and a balanced root, without the key, whose entries
      regain the original list when the entry is placed back at its sorted
      position. Under the corrected dispatch the deletion also leaves an AVL
      tree, and inserting the entry into it restores the original list. */
  lemma DeleteThenReinsert<V>(t: Tree<V>, k: int, v: V, disp: Dispatch)
    requires Avl(t) && (k, v) in InOrder(t)
    ensures HasKey(InOrder(t), k)
    ensures var u := DeleteKey(t, k, disp);
      Bst(u) && HeightsOk(u) && RootBalanced(u) && !HasKey(InOrder(u), k) &&
      Below(InOrder(u), k) + [(k, v)] + Above(InOrder(u), k) == InOrder(t)
    ensures disp.Corrected? ==> var u := DeleteKey(t, k, disp);
      Avl(u) && InOrder(InsertRec(u, k, v).0) == InOrder(t)
  {
    EntryAround(InOrder(t), (k, v));
    ReinsertEntries(InOrder(t), k, v);
  }

  /** The list-level step: removing the entry for `k` and placing `(k, v)`
      back among what is left restores a sorted list that held `(k, v)`. */
  lemma ReinsertEntries<V>(s: seq<Entry<V>>, k: int, v: V)
    requires Sorted(s) && (k, v) in s
    ensures var c := Below(s, k) + Above(s, k);
      !HasKey(c, k) && Below(c, k) + [(k, v)] + Above(c, k) == s
  {
    EntryAround(s, (k, v));
    FilterMembers(s, k);
    FiltersOfSeparated(Below(s, k), Above(s, k), k);
  }

  /** Entries all below `k` followed by entries all above it filter back into
      the two parts, and hold no entry for `k`. */
  lemma FiltersOfSeparated<V>(b: seq<Entry<V>>, a: seq<Entry<V>>, k: int)
    requires AllBelow(b, k) && AllAbove(a, k)
    ensures Below(b + a, k) == b && Above(b + a, k) == a
    ensures !HasKey(b + a, k)
  {
    FilterAppend(b, a, k);
    FilterAllBelow(b, k);
    FilterAllAbove(a, k);
    assert Below(b + a, k) == b + [];
    assert Above(b + a, k) == [] + a;
    NoKeyBetween(b, a, k);
  }

  /** Entries all below `k` followed by entries all above it have no entry
      for `k`. */
  lemma NoKeyBetween<V>(b: seq<Entry<V>>, a: seq<Entry<V>>, k: int)
    requires AllBelow(b, k) && AllAbove(a, k)
    ensures !HasKey(b + a, k)
  {
    forall e | e in b + a ensures e.0 != k {
      if e in b {
      } else {
        assert e in a;
      }
    }
  }

  /** Inserting an absent key and deleting it again gives the original list
      of entries, under either dispatch. */
  lemma InsertThenDelete<V>(t: Tree<V>, k: int, v: V, disp: Dispatch)
    requires Avl(t) && !HasKey(InOrder(t), k)
    ensures var u := InsertRec(t, k, v).0;
      Avl(u) && HasKey(InOrder(u), k) && InOrder(DeleteKey(u, k, disp)) == InOrder(t)
  {
    var s := InOrder(t);
    var u := InsertRec(t, k, v).0;
    assert (k, v) in InOrder(u);
    FilterSorted(s, k);
    FilterMembers(s, k);
    FilterSeparated(Below(s, k), (k, v), Above(s, k));
    FilterAbsent(s, k);
  }
}
