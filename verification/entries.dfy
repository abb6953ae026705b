/** Sequences of (key, value) entries: the abstract view of the dictionary,
    as produced by an in-order walk of the tree. */
module Entries {
  import opened Wrappers

  /** A dictionary entry: an integer key and the value stored with it. */
  type Entry<V> = (int, V)

  /** Keys strictly ascending from left to right. */
  ghost predicate Sorted<V>(s: seq<Entry<V>>) {
    forall i, j | 0 <= i < j < |s| :: s[i].0 < s[j].0
  }

  /** Every key of `s` is smaller than `k`. */
  ghost predicate AllBelow<V>(s: seq<Entry<V>>, k: int) {
    forall e | e in s :: e.0 < k
  }

  /** Every key of `s` is larger than `k`. */
  ghost predicate AllAbove<V>(s: seq<Entry<V>>, k: int) {
    forall e | e in s :: k < e.0
  }

  /** Some entry of `s` has key `k`. */
  ghost predicate HasKey<V>(s: seq<Entry<V>>, k: int) {
    exists e | e in s :: e.0 == k
  }

  /** The entries of `s` whose key is smaller than `k`, in their original order. */
  function Below<V>(s: seq<Entry<V>>, k: int): (r: seq<Entry<V>>)
    ensures |r| <= |s|
  {
    if |s| == 0 then []
    else if s[0].0 < k then [s[0]] + Below(s[1..], k)
    else Below(s[1..], k)
  }

  /** The entries of `s` whose key is larger than `k`, in their original order. */
  function Above<V>(s: seq<Entry<V>>, k: int): (r: seq<Entry<V>>)
    ensures |r| <= |s|
  {
    if |s| == 0 then []
    else if k < s[0].0 then [s[0]] + Above(s[1..], k)
    else Above(s[1..], k)
  }

  /** The filters keep exactly the entries on their side of `k`. */
  lemma {:induction false} FilterMembers<V>(s: seq<Entry<V>>, k: int)
    ensures forall e | e in Below(s, k) :: e in s && e.0 < k
    ensures forall e | e in s && e.0 < k :: e in Below(s, k)
    ensures forall e | e in Above(s, k) :: e in s && k < e.0
    ensures forall e | e in s && k < e.0 :: e in Above(s, k)
  {
    if |s| > 0 {
      FilterMembers(s[1..], k);
      assert s == [s[0]] + s[1..];
    }
  }

  /** A sequence split around one entry is sorted exactly when both sides are
      sorted and lie on the correct side of that entry's key. */
  lemma SortedAround<V>(a: seq<Entry<V>>, e: Entry<V>, b: seq<Entry<V>>)
    ensures Sorted(a + [e] + b) <==> Sorted(a) && Sorted(b) && AllBelow(a, e.0) && AllAbove(b, e.0)
  {
    if Sorted(a + [e] + b) {
      SortedParts(a, e, b);
    }
    if Sorted(a) && Sorted(b) && AllBelow(a, e.0) && AllAbove(b, e.0) {
      SortedJoin(a, e, b);
    }
  }

  lemma SortedParts<V>(a: seq<Entry<V>>, e: Entry<V>, b: seq<Entry<V>>)
    requires Sorted(a + [e] + b)
    ensures Sorted(a) && Sorted(b) && AllBelow(a, e.0) && AllAbove(b, e.0)
  {
    var c := a + [e] + b;
    assert c[|a|] == e;
    forall i, j | 0 <= i < j < |a| ensures a[i].0 < a[j].0 {
      assert c[i] == a[i] && c[j] == a[j];
    }
    forall i, j | 0 <= i < j < |b| ensures b[i].0 < b[j].0 {
      assert c[|a| + 1 + i] == b[i] && c[|a| + 1 + j] == b[j];
    }
    forall x | x in a ensures x.0 < e.0 {
      var i :| 0 <= i < |a| && a[i] == x;
      assert c[i] == x;
    }
    forall x | x in b ensures e.0 < x.0 {
      var i :| 0 <= i < |b| && b[i] == x;
      assert c[|a| + 1 + i] == x;
    }
  }

  lemma SortedJoin<V>(a: seq<Entry<V>>, e: Entry<V>, b: seq<Entry<V>>)
    requires Sorted(a) && Sorted(b) && AllBelow(a, e.0) && AllAbove(b, e.0)
    ensures Sorted(a + [e] + b)
  {
    var c := a + [e] + b;
    forall i, j | 0 <= i < j < |c| ensures c[i].0 < c[j].0 {
      var x, y := c[i], c[j];
      if i < |a| {
        assert x == a[i] && x in a;
        if j < |a| {
          assert y == a[j];
        } else if j > |a| {
          assert y == b[j - |a| - 1] && y in b;
        }
      } else if i == |a| {
        assert y == b[j - |a| - 1] && y in b;
      } else {
        assert x == b[i - |a| - 1] && y == b[j - |a| - 1];
      }
    }
  }

  /** Filtering distributes over concatenation. */
  lemma FilterAppend<V>(a: seq<Entry<V>>, b: seq<Entry<V>>, k: int)
    ensures Below(a + b, k) == Below(a, k) + Below(b, k)
    ensures Above(a + b, k) == Above(a, k) + Above(b, k)
  {
    BelowAppend(a, b, k);
    AboveAppend(a, b, k);
  }

  lemma {:induction false} BelowAppend<V>(a: seq<Entry<V>>, b: seq<Entry<V>>, k: int)
    ensures Below(a + b, k) == Below(a, k) + Below(b, k)
  {
    if |a| == 0 {
      assert a + b == b;
    } else {
      var c := a + b;
      assert c[0] == a[0] && c[1..] == a[1..] + b;
      BelowAppend(a[1..], b, k);
      if a[0].0 < k {
        assert Below(c, k) == [a[0]] + (Below(a[1..], k) + Below(b, k));
      } else {
        assert Below(c, k) == Below(a[1..], k) + Below(b, k);
      }
    }
  }

  lemma {:induction false} AboveAppend<V>(a: seq<Entry<V>>, b: seq<Entry<V>>, k: int)
    ensures Above(a + b, k) == Above(a, k) + Above(b, k)
  {
    if |a| == 0 {
      assert a + b == b;
    } else {
      var c := a + b;
      assert c[0] == a[0] && c[1..] == a[1..] + b;
      AboveAppend(a[1..], b, k);
      if k < a[0].0 {
        assert Above(c, k) == [a[0]] + (Above(a[1..], k) + Above(b, k));
      } else {
        assert Above(c, k) == Above(a[1..], k) + Above(b, k);
      }
    }
  }

  /** When every key is below `k`, the filters keep everything or nothing. */
  lemma {:induction false} FilterAllBelow<V>(s: seq<Entry<V>>, k: int)
    requires AllBelow(s, k)
    ensures Below(s, k) == s
    ensures Above(s, k) == []
  {
    if |s| > 0 {
      assert s[0] in s;
      assert s == [s[0]] + s[1..];
      FilterAllBelow(s[1..], k);
    }
  }

  /** When every key is above `k`, the filters keep nothing or everything. */
  lemma {:induction false} FilterAllAbove<V>(s: seq<Entry<V>>, k: int)
    requires AllAbove(s, k)
    ensures Below(s, k) == []
    ensures Above(s, k) == s
  {
    if |s| > 0 {
      assert s[0] in s;
      assert s == [s[0]] + s[1..];
      FilterAllAbove(s[1..], k);
    }
  }

  /** Filtering a sorted sequence keeps it sorted. */
  lemma {:induction false} FilterSorted<V>(s: seq<Entry<V>>, k: int)
    requires Sorted(s)
    ensures Sorted(Below(s, k)) && Sorted(Above(s, k))
  {
    if |s| > 0 {
      TailSorted(s);
      FilterSorted(s[1..], k);
      FilterMembers(s[1..], k);
      SortedCons(s[0], Below(s[1..], k));
      SortedCons(s[0], Above(s[1..], k));
    }
  }

  /** The tail of a sorted sequence is sorted and lies above its head. */
  lemma TailSorted<V>(s: seq<Entry<V>>)
    requires Sorted(s) && |s| > 0
    ensures Sorted(s[1..]) && AllAbove(s[1..], s[0].0)
  {
    forall e | e in s[1..] ensures s[0].0 < e.0 {
      var i :| 0 <= i < |s[1..]| && s[1..][i] == e;
      assert s[i + 1] == e;
    }
  }

  /** An entry below a sorted sequence extends it to a sorted one. */
  lemma SortedCons<V>(x: Entry<V>, s: seq<Entry<V>>)
    requires Sorted(s) && AllAbove(s, x.0)
    ensures Sorted([x] + s)
  {
    var c := [x] + s;
    forall i, j | 0 <= i < j < |c| ensures c[i].0 < c[j].0 {
      assert c[j] == s[j - 1];
      if i > 0 {
        assert c[i] == s[i - 1];
      } else {
        assert s[j - 1] in s;
      }
    }
  }

  /** A sorted sequence holding key `k` is exactly the entries below `k`, the
      one entry with key `k`, and the entries above `k`. */
  lemma SplitAtKey<V>(s: seq<Entry<V>>, i: int)
    requires Sorted(s) && 0 <= i < |s|
    ensures s == Below(s, s[i].0) + [s[i]] + Above(s, s[i].0)
  {
    assert s == s[..i] + [s[i]] + s[i + 1..];
    SortedParts(s[..i], s[i], s[i + 1..]);
    FilterSeparated(s[..i], s[i], s[i + 1..]);
  }

  /** Filtering at the key of an entry that separates the smaller keys from the
      larger ones gives back the two sides. */
  lemma FilterSeparated<V>(a: seq<Entry<V>>, x: Entry<V>, b: seq<Entry<V>>)
    requires AllBelow(a, x.0) && AllAbove(b, x.0)
    ensures Below(a + [x] + b, x.0) == a
    ensures Above(a + [x] + b, x.0) == b
  {
    var k := x.0;
    FilterAllBelow(a, k);
    FilterAllAbove(b, k);
    FilterAround(a, x, b, k);
    assert Below([x], k) == [] && Above([x], k) == [];
  }

  /** Filtering a sequence split around one entry filters each side. */
  lemma FilterAround<V>(a: seq<Entry<V>>, x: Entry<V>, b: seq<Entry<V>>, k: int)
    ensures Below(a + [x] + b, k) == Below(a, k) + Below([x], k) + Below(b, k)
    ensures Above(a + [x] + b, k) == Above(a, k) + Above([x], k) + Above(b, k)
  {
    FilterAppend(a + [x], b, k);
    FilterAppend(a, [x], k);
  }

  /** Placing a new entry between the smaller and the larger keys of a
      sorted sequence that lacks its key keeps it sorted. */
  lemma InsertSorted<V>(s: seq<Entry<V>>, e: Entry<V>)
    requires Sorted(s)
    ensures Sorted(Below(s, e.0) + [e] + Above(s, e.0))
  {
    FilterSorted(s, e.0);
    FilterMembers(s, e.0);
    SortedJoin(Below(s, e.0), e, Above(s, e.0));
  }

  lemma Regroup<T>(a: seq<T>, b: seq<T>, c: seq<T>, d: seq<T>)
    ensures a + (b + c + d) == (a + b) + c + d
    ensures (a + b + c) + d == a + b + (c + d)
  {
  }

  /** Two sorted sequences separated by a key concatenate to a sorted one. */
  lemma SortedAppend<V>(a: seq<Entry<V>>, b: seq<Entry<V>>, k: int)
    requires Sorted(a) && Sorted(b) && AllBelow(a, k) && AllAbove(b, k)
    ensures Sorted(a + b)
  {
    var c := a + b;
    forall i, j | 0 <= i < j < |c| ensures c[i].0 < c[j].0 {
      if j < |a| {
        assert c[i] == a[i] && c[j] == a[j];
      } else if i >= |a| {
        assert c[i] == b[i - |a|] && c[j] == b[j - |a|];
      } else {
        assert c[i] == a[i] && c[i] in a;
        assert c[j] == b[j - |a|] && c[j] in b;
      }
    }
  }

  /** Removing the entry with key `k` from a sorted sequence keeps it sorted. */
  lemma RemoveSorted<V>(s: seq<Entry<V>>, k: int)
    requires Sorted(s)
    ensures Sorted(Below(s, k) + Above(s, k))
  {
    FilterSorted(s, k);
    FilterMembers(s, k);
    SortedAppend(Below(s, k), Above(s, k), k);
  }

  /** A sorted sequence holding entry `e` is the entries below its key, `e`,
      and the entries above its key. */
  lemma EntryAround<V>(s: seq<Entry<V>>, e: Entry<V>)
    requires Sorted(s) && e in s
    ensures s == Below(s, e.0) + [e] + Above(s, e.0)
    ensures HasKey(s, e.0)
  {
    var i :| 0 <= i < |s| && s[i] == e;
    SplitAtKey(s, i);
  }

  /** Without an entry for `k`, the two filters together keep every entry. */
  lemma {:induction false} FilterCountAbsent<V>(s: seq<Entry<V>>, k: int)
    requires !HasKey(s, k)
    ensures |Below(s, k)| + |Above(s, k)| == |s|
  {
    if |s| > 0 {
      assert s[0] in s;
      assert forall e | e in s[1..] :: e in s;
      FilterCountAbsent(s[1..], k);
    }
  }

  /** A sorted sequence without an entry for `k` is its entries below `k`
      followed by those above it. */
  lemma {:induction false} FilterAbsent<V>(s: seq<Entry<V>>, k: int)
    requires Sorted(s) && !HasKey(s, k)
    ensures s == Below(s, k) + Above(s, k)
  {
    if |s| > 0 {
      assert s[0] in s;
      if s[0].0 < k {
        TailOf(s, k);
        FilterAbsent(s[1..], k);
        ConsFilters(s[0], s[1..], k);
        assert s == [s[0]] + s[1..];
      } else {
        FirstAbove(s, k);
        FilterAllAbove(s, k);
      }
    }
  }

  /** An entry below `k` in front of a sequence that the filters split
      keeps it split. */
  lemma ConsFilters<V>(x: Entry<V>, t: seq<Entry<V>>, k: int)
    requires x.0 < k && t == Below(t, k) + Above(t, k)
    ensures [x] + t == Below([x] + t, k) + Above([x] + t, k)
  {
    var s := [x] + t;
    assert s[0] == x && s[1..] == t;
    assert Below(s, k) == [x] + Below(t, k);
    assert Above(s, k) == Above(t, k);
  }

  /** The tail of a sorted sequence without key `k` is one too. */
  lemma TailOf<V>(s: seq<Entry<V>>, k: int)
    requires Sorted(s) && !HasKey(s, k) && |s| > 0
    ensures Sorted(s[1..]) && !HasKey(s[1..], k)
  {
    assert forall e | e in s[1..] :: e in s;
  }

  /** When the first key of a sorted sequence is above `k`, all are. */
  lemma FirstAbove<V>(s: seq<Entry<V>>, k: int)
    requires Sorted(s) && |s| > 0 && k < s[0].0
    ensures AllAbove(s, k)
  {
    forall e | e in s ensures k < e.0 {
      var i :| 0 <= i < |s| && s[i] == e;
    }
  }

  /** The last entry, which carries the largest key of a sorted sequence. */
  function LastEntry<V>(s: seq<Entry<V>>): Option<Entry<V>> {
    if |s| == 0 then None else Some(s[|s| - 1])
  }
}
