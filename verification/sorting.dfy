/**
 * A stable sort of a sequence by a value-valued key, ascending or descending: the order
 * `sort_values` puts rows in. Elements with equal keys keep their relative order.
 */
module Sorting {
  import opened Values
  import opened Seqs

  /** Every earlier element's key is ordered no later than every later element's key. */
  predicate SortedBy<T>(s: seq<T>, key: T -> Cell, ascending: bool) {
    forall a, b :: 0 <= a < b < |s| ==> CellOrdered(key(s[a]), key(s[b]), ascending)
  }

  /** The elements of `s` whose key is `v`, in their original order. */
  function WithKey<T>(s: seq<T>, key: T -> Cell, v: Cell): seq<T>
  {
    if |s| == 0 then [] else (if key(s[0]) == v then [s[0]] else []) + WithKey(s[1..], key, v)
  }

  lemma {:induction false} WithKeyConcat<T>(a: seq<T>, b: seq<T>, key: T -> Cell, v: Cell)
    ensures WithKey(a + b, key, v) == WithKey(a, key, v) + WithKey(b, key, v)
  {
    if |a| == 0 {
      assert a + b == b;
    } else {
      var head := if key(a[0]) == v then [a[0]] else [];
      assert (a + b)[0] == a[0];
      assert (a + b)[1..] == a[1..] + b;
      WithKeyConcat(a[1..], b, key, v);
      assert WithKey(a + b, key, v) == head + (WithKey(a[1..], key, v) + WithKey(b, key, v));
      assert WithKey(a, key, v) == head + WithKey(a[1..], key, v);
    }
  }

  /** Insert `x` into `s` just after the last element whose key is ordered no later than `x`'s. */
  function Insert<T>(s: seq<T>, x: T, key: T -> Cell, ascending: bool): seq<T>
  {
    if |s| == 0 then [x]
    else if CellOrdered(key(s[|s| - 1]), key(x), ascending) then s + [x]
    else Insert(s[..|s| - 1], x, key, ascending) + [s[|s| - 1]]
  }

  /** Insertion adds `x` and loses nothing. */
  lemma {:induction false} InsertMultiset<T>(s: seq<T>, x: T, key: T -> Cell, ascending: bool)
    ensures multiset(Insert(s, x, key, ascending)) == multiset(s) + multiset{x}
  {
    if |s| > 0 && !CellOrdered(key(s[|s| - 1]), key(x), ascending) {
      assert s == s[..|s| - 1] + [s[|s| - 1]];
      InsertMultiset(s[..|s| - 1], x, key, ascending);
    }
  }

  lemma {:induction false} InsertSorted<T>(s: seq<T>, x: T, key: T -> Cell, ascending: bool)
    requires SortedBy(s, key, ascending)
    ensures SortedBy(Insert(s, x, key, ascending), key, ascending)
  {
    if |s| > 0 && !CellOrdered(key(s[|s| - 1]), key(x), ascending) {
      var init, last := s[..|s| - 1], s[|s| - 1];
      InsertSorted(init, x, key, ascending);
      var r' := Insert(init, x, key, ascending);
      var r := r' + [last];
      InsertMultiset(init, x, key, ascending);
      CellOrderedTotalOrder(key(last), key(x), key(x), ascending);
      forall y | y in multiset(r')
        ensures CellOrdered(key(y), key(last), ascending)
      {
        if y != x {
          assert y in multiset(init);
          var k :| 0 <= k < |init| && init[k] == y;
          assert s[k] == y;
        }
      }
      forall a, b | 0 <= a < b < |r|
        ensures CellOrdered(key(r[a]), key(r[b]), ascending)
      {
        if b == |r'| {
          assert r[a] in multiset(r');
        } else {
          assert r[a] == r'[a] && r[b] == r'[b];
        }
      }
    } else if |s| > 0 {
      var r := s + [x];
      forall a, b | 0 <= a < b < |r|
        ensures CellOrdered(key(r[a]), key(r[b]), ascending)
      {
        if b == |s| {
          CellOrderedTotalOrder(key(s[a]), key(s[|s| - 1]), key(x), ascending);
        }
      }
    }
  }

  /** Among the elements with key `v`, `x` is placed after all those already in `s`. */
  lemma {:induction false} InsertStable<T>(s: seq<T>, x: T, key: T -> Cell, ascending: bool, v: Cell)
    ensures WithKey(Insert(s, x, key, ascending), key, v)
         == WithKey(s, key, v) + (if key(x) == v then [x] else [])
  {
    if |s| == 0 {
      assert Insert(s, x, key, ascending) == [x];
    } else if CellOrdered(key(s[|s| - 1]), key(x), ascending) {
      assert Insert(s, x, key, ascending) == s + [x];
      WithKeyConcat(s, [x], key, v);
    } else {
      var init, last := s[..|s| - 1], s[|s| - 1];
      var r' := Insert(init, x, key, ascending);
      InsertStable(init, x, key, ascending, v);
      assert Insert(s, x, key, ascending) == r' + [last];
      WithKeyConcat(r', [last], key, v);
      assert s == init + [last];
      WithKeyConcat(init, [last], key, v);
      CellOrderedTotalOrder(key(last), key(x), key(x), ascending);
    }
  }

  /**
   * Stable sort of `s` by `key`: a permutation of `s`, ordered by key in the chosen
   * direction, in which the elements sharing any one key keep their original order.
   */
  function SortBy<T(==)>(s: seq<T>, key: T -> Cell, ascending: bool): (r: seq<T>)
    decreases |s|
    ensures multiset(r) == multiset(s)
    ensures SortedBy(r, key, ascending)
    ensures forall v :: WithKey(r, key, v) == WithKey(s, key, v)
  {
    if |s| == 0 then []
    else
      var sorted := SortBy(s[..|s| - 1], key, ascending);
      SortStep(s, sorted, key, ascending);
      Insert(sorted, s[|s| - 1], key, ascending)
  }

  /** Inserting the last element into the sorted prefix sorts the whole sequence. */
  lemma SortStep<T>(s: seq<T>, sorted: seq<T>, key: T -> Cell, ascending: bool)
    requires |s| > 0
    requires multiset(sorted) == multiset(s[..|s| - 1])
    requires SortedBy(sorted, key, ascending)
    requires forall v :: WithKey(sorted, key, v) == WithKey(s[..|s| - 1], key, v)
    ensures var r := Insert(sorted, s[|s| - 1], key, ascending);
      && multiset(r) == multiset(s)
      && SortedBy(r, key, ascending)
      && forall v :: WithKey(r, key, v) == WithKey(s, key, v)
  {
    var init, x := s[..|s| - 1], s[|s| - 1];
    assert s == init + [x];
    InsertMultiset(sorted, x, key, ascending);
    InsertSorted(sorted, x, key, ascending);
    forall v
      ensures WithKey(Insert(sorted, x, key, ascending), key, v) == WithKey(s, key, v)
    {
      InsertStable(sorted, x, key, ascending, v);
      WithKeyConcat(init, [x], key, v);
    }
  }

  /** A sorted sequence is its own sort. */
  lemma {:induction false} SortBySorted<T>(s: seq<T>, key: T -> Cell, ascending: bool)
    requires SortedBy(s, key, ascending)
    decreases |s|
    ensures SortBy(s, key, ascending) == s
  {
    if |s| > 0 {
      var init := s[..|s| - 1];
      assert SortedBy(init, key, ascending);
      SortBySorted(init, key, ascending);
    }
  }

  /** Deleting elements from a sorted sequence leaves it sorted. */
  lemma {:induction false} SubseqSorted<T(!new)>(a: seq<T>, b: seq<T>, key: T -> Cell, ascending: bool)
    requires IsSubseq(a, b) && SortedBy(b, key, ascending)
    decreases |b|
    ensures SortedBy(a, key, ascending)
  {
    if |a| > 0 {
      assert SortedBy(b[1..], key, ascending);
      if a[0] == b[0] && IsSubseq(a[1..], b[1..]) {
        SubseqSorted(a[1..], b[1..], key, ascending);
        SubseqMembers(a[1..], b[1..]);
        forall y | 0 < y < |a|
          ensures CellOrdered(key(a[0]), key(a[y]), ascending)
        {
          assert a[y] in a[1..];
          var k :| 0 <= k < |b[1..]| && b[1..][k] == a[y];
          assert b[k + 1] == a[y];
        }
      } else {
        SubseqSorted(a, b[1..], key, ascending);
      }
    }
  }
}
