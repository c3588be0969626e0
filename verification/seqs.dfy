/**
 * Order-preserving sequence operations the table transformations are built from:
 * filtering by a predicate and removing repeated elements.
 */
module Seqs {

  /** `a` can be obtained from `b` by deleting elements (order is kept). */
  predicate IsSubseq<T(==,!new)>(a: seq<T>, b: seq<T>)
    decreases |b|
  {
    |a| == 0 || (|b| > 0 && ((a[0] == b[0] && IsSubseq(a[1..], b[1..])) || IsSubseq(a, b[1..])))
  }

  /** Every sequence is a subsequence of itself. */
  lemma {:induction false} SubseqOfItself<T(!new)>(s: seq<T>)
    ensures IsSubseq(s, s)
  {
    if |s| > 0 {
      SubseqOfItself(s[1..]);
    }
  }

  /** No element occurs twice. */
  predicate Distinct<T(==,!new)>(s: seq<T>) {
    forall a, b :: 0 <= a < b < |s| ==> s[a] != s[b]
  }

  /** The elements of `s` that satisfy `p`, in their original order. */
  function Filter<T(==,!new)>(s: seq<T>, p: T -> bool): (r: seq<T>)
    ensures |r| <= |s|
    ensures forall x :: x in r <==> x in s && p(x)
    ensures IsSubseq(r, s)
  {
    if |s| == 0 then []
    else if p(s[0]) then [s[0]] + Filter(s[1..], p) else Filter(s[1..], p)
  }

  /** Each element keeps its multiplicity if it satisfies `p` and disappears otherwise. */
  lemma {:induction false} FilterMultiset<T(!new)>(s: seq<T>, p: T -> bool)
    ensures forall x :: multiset(Filter(s, p))[x] == if p(x) then multiset(s)[x] else 0
  {
    if |s| > 0 {
      assert s == [s[0]] + s[1..];
      FilterMultiset(s[1..], p);
    }
  }

  /** Filtering distributes over concatenation. */
  lemma {:induction false} FilterConcat<T(!new)>(a: seq<T>, b: seq<T>, p: T -> bool)
    ensures Filter(a + b, p) == Filter(a, p) + Filter(b, p)
  {
    if |a| == 0 {
      assert a + b == b;
    } else {
      assert (a + b)[0] == a[0];
      assert (a + b)[1..] == a[1..] + b;
      FilterConcat(a[1..], b, p);
    }
  }

  /** Filtering twice by the same predicate is filtering once. */
  lemma {:induction false} FilterIdempotent<T(!new)>(s: seq<T>, p: T -> bool)
    ensures Filter(Filter(s, p), p) == Filter(s, p)
  {
    if |s| > 0 {
      FilterIdempotent(s[1..], p);
    }
  }

  /** Membership is preserved by keeping a subsequence. */
  lemma {:induction false} SubseqMembers<T(!new)>(a: seq<T>, b: seq<T>)
    requires IsSubseq(a, b)
    decreases |b|
    ensures forall x :: x in a ==> x in b
  {
    if |a| > 0 {
      if a[0] == b[0] && IsSubseq(a[1..], b[1..]) {
        SubseqMembers(a[1..], b[1..]);
        assert forall x :: x in a ==> x == a[0] || x in a[1..];
      } else {
        SubseqMembers(a, b[1..]);
      }
    }
  }

  /** A subsequence is no longer than the sequence it is taken from. */
  lemma {:induction false} SubseqLength<T(!new)>(a: seq<T>, b: seq<T>)
    requires IsSubseq(a, b)
    decreases |b|
    ensures |a| <= |b|
  {
    if |a| > 0 {
      if a[0] == b[0] && IsSubseq(a[1..], b[1..]) {
        SubseqLength(a[1..], b[1..]);
      } else {
        SubseqLength(a, b[1..]);
      }
    }
  }

  /** The elements of `s` not in `seen`, each kept at its first occurrence. */
  function DedupAfter<T(==,!new)>(s: seq<T>, seen: seq<T>): (r: seq<T>)
    ensures Distinct(r)
    ensures forall x :: x in r <==> x in s && x !in seen
    ensures IsSubseq(r, s)
  {
    if |s| == 0 then []
    else if s[0] in seen then DedupAfter(s[1..], seen)
    else
      var rest := DedupAfter(s[1..], seen + [s[0]]);
      assert forall x :: x in s <==> x == s[0] || x in s[1..];
      assert s[0] !in rest;
      assert forall b :: 0 < b <= |rest| ==> ([s[0]] + rest)[b] == rest[b - 1];
      [s[0]] + rest
  }

  /** Keep the first occurrence of every element of `s`, in order (`drop_duplicates`). */
  function Dedup<T(==,!new)>(s: seq<T>): (r: seq<T>)
    ensures Distinct(r)
    ensures forall x :: x in r <==> x in s
    ensures IsSubseq(r, s)
    ensures |r| <= |s|
  {
    var r := DedupAfter(s, []);
    SubseqLength(r, s);
    r
  }

  /**
   * Reference definition of "first occurrences": the elements `s[k]` that do not
   * occur in `s[..k]`, listed in increasing `k`.
   */
  function FirstOccurrences<T(==,!new)>(s: seq<T>): seq<T>
    decreases |s|
  {
    if |s| == 0 then []
    else
      var init := s[..|s| - 1];
      if s[|s| - 1] in init then FirstOccurrences(init) else FirstOccurrences(init) + [s[|s| - 1]]
  }

  lemma {:induction false} DedupAfterPrefix<T(!new)>(p: seq<T>, s: seq<T>)
    decreases |s|
    ensures FirstOccurrences(p + s) == FirstOccurrences(p) + DedupAfter(s, p)
  {
    if |s| == 0 {
      assert p + s == p;
    } else {
      var p' := p + [s[0]];
      assert p + s == p' + s[1..];
      DedupAfterPrefix(p', s[1..]);
      assert p'[..|p'| - 1] == p;
      if s[0] in p {
        assert forall x :: x in p' <==> x in p;
        DedupAfterSeenSame(s[1..], p', p);
      }
    }
  }

  /** `DedupAfter` only depends on which elements have been seen. */
  lemma {:induction false} DedupAfterSeenSame<T(!new)>(s: seq<T>, seen1: seq<T>, seen2: seq<T>)
    requires forall x :: x in seen1 <==> x in seen2
    decreases |s|
    ensures DedupAfter(s, seen1) == DedupAfter(s, seen2)
  {
    if |s| > 0 {
      DedupAfterSeenSame(s[1..], seen1 + [s[0]], seen2 + [s[0]]);
      DedupAfterSeenSame(s[1..], seen1, seen2);
    }
  }

  /** `Dedup` keeps exactly the first occurrence of each element. */
  lemma DedupIsFirstOccurrences<T(!new)>(s: seq<T>)
    ensures Dedup(s) == FirstOccurrences(s)
  {
    DedupAfterPrefix([], s);
    assert [] + s == s;
  }

  lemma {:induction false} DedupAfterDistinct<T(!new)>(s: seq<T>, seen: seq<T>)
    requires Distinct(s)
    requires forall x :: x in s ==> x !in seen
    decreases |s|
    ensures DedupAfter(s, seen) == s
  {
    if |s| > 0 {
      assert forall x :: x in s[1..] ==> x != s[0];
      DedupAfterDistinct(s[1..], seen + [s[0]]);
    }
  }

  /** A sequence without repetitions is its own deduplication. */
  lemma DedupOfDistinct<T(!new)>(s: seq<T>)
    requires Distinct(s)
    ensures Dedup(s) == s
  {
    DedupAfterDistinct(s, []);
  }

  /** Removing duplicates twice is removing them once. */
  lemma DedupIdempotent<T(!new)>(s: seq<T>)
    ensures Dedup(Dedup(s)) == Dedup(s)
  {
    DedupOfDistinct(Dedup(s));
  }
}
