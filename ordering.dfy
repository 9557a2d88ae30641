/**
 * Orders and collection shapes the browser code relies on: the code-unit
 * order of `<` and of `sort()` without a comparator, the order of
 * `localeCompare`, a stable sort (`Array.prototype.sort`), and the
 * first-occurrence de-duplication of `new Set(...)` and of a `Map` filled
 * with `if (!map.has(key)) map.set(key, ...)`.
 */
module Ordering {
  import opened Text

  /** Strict lexicographic order on characters, as `<` compares two strings. */
  predicate CodeLess(a: string, b: string)
    decreases |a|
  {
    if |a| == 0 then |b| > 0
    else if |b| == 0 then false
    else if a[0] != b[0] then a[0] < b[0]
    else CodeLess(a[1..], b[1..])
  }

  predicate CodeLeq(a: string, b: string) {
    a == b || CodeLess(a, b)
  }

  lemma {:induction false} CodeLessIrreflexive(a: string)
    ensures !CodeLess(a, a)
    decreases |a|
  {
    if |a| > 0 {
      CodeLessIrreflexive(a[1..]);
    }
  }

  lemma {:induction false} CodeLessTransitive(a: string, b: string, c: string)
    requires CodeLess(a, b) && CodeLess(b, c)
    ensures CodeLess(a, c)
    decreases |a|
  {
    if |a| > 0 && a[0] == b[0] && b[0] == c[0] {
      CodeLessTransitive(a[1..], b[1..], c[1..]);
    }
  }

  lemma {:induction false} CodeLessTrichotomy(a: string, b: string)
    ensures a == b || CodeLess(a, b) || CodeLess(b, a)
    decreases |a|
  {
    if |a| > 0 && |b| > 0 && a[0] == b[0] {
      CodeLessTrichotomy(a[1..], b[1..]);
      if a[1..] == b[1..] {
        assert a == [a[0]] + a[1..] && b == [b[0]] + b[1..];
      }
    }
  }

  lemma {:induction false} CodeLessAsymmetric(a: string, b: string)
    requires CodeLess(a, b)
    ensures !CodeLess(b, a)
  {
    if CodeLess(b, a) {
      CodeLessTransitive(a, b, a);
      CodeLessIrreflexive(a);
    }
  }

  /**
   * The order `localeCompare` is modelled by: strings are compared by
   * their case-folded forms first, and strings that differ only in case
   * are ordered by their characters.  It is a strict total order.
   */
  predicate LocaleLess(a: string, b: string) {
    CodeLess(Fold(a), Fold(b)) || (Fold(a) == Fold(b) && CodeLess(a, b))
  }

  predicate LocaleLeq(a: string, b: string) {
    a == b || LocaleLess(a, b)
  }

  lemma LocaleLessIrreflexive(a: string)
    ensures !LocaleLess(a, a)
  {
    CodeLessIrreflexive(a);
    CodeLessIrreflexive(Fold(a));
  }

  lemma LocaleLessTransitive(a: string, b: string, c: string)
    requires LocaleLess(a, b) && LocaleLess(b, c)
    ensures LocaleLess(a, c)
  {
    if CodeLess(Fold(a), Fold(b)) && CodeLess(Fold(b), Fold(c)) {
      CodeLessTransitive(Fold(a), Fold(b), Fold(c));
    } else if Fold(a) == Fold(b) && Fold(b) == Fold(c) {
      CodeLessTransitive(a, b, c);
    }
  }

  lemma LocaleLessTrichotomy(a: string, b: string)
    ensures a == b || LocaleLess(a, b) || LocaleLess(b, a)
  {
    CodeLessTrichotomy(Fold(a), Fold(b));
    CodeLessTrichotomy(a, b);
  }

  lemma LocaleLessAsymmetric(a: string, b: string)
    requires LocaleLess(a, b)
    ensures !LocaleLess(b, a)
  {
    if LocaleLess(b, a) {
      LocaleLessTransitive(a, b, a);
      LocaleLessIrreflexive(a);
    }
  }

  /** The code-unit order of `sort()` without a comparator is a total preorder. */
  lemma CodeLeqTotalPreorder()
    ensures TotalPreorder(CodeLeq)
  {
    forall a, b
      ensures CodeLeq(a, b) || CodeLeq(b, a)
    {
      CodeLessTrichotomy(a, b);
    }
    forall a, b, c | CodeLeq(a, b) && CodeLeq(b, c)
      ensures CodeLeq(a, c)
    {
      if a != b && b != c {
        CodeLessTransitive(a, b, c);
      }
    }
  }

  /** The `localeCompare` order is a total preorder, so sorting by it yields an ordered sequence. */
  lemma LocaleLeqTotalPreorder()
    ensures TotalPreorder(LocaleLeq)
  {
    forall a, b
      ensures LocaleLeq(a, b) || LocaleLeq(b, a)
    {
      LocaleLessTrichotomy(a, b);
    }
    forall a, b, c | LocaleLeq(a, b) && LocaleLeq(b, c)
      ensures LocaleLeq(a, c)
    {
      if a != b && b != c {
        LocaleLessTransitive(a, b, c);
      }
    }
  }

  // ---- stable sorting by a comparison ----

  /** A comparison `leq` that is total and transitive (a total preorder). */
  ghost predicate TotalPreorder<T(!new)>(leq: (T, T) -> bool) {
    && (forall a, b :: leq(a, b) || leq(b, a))
    && (forall a, b, c :: leq(a, b) && leq(b, c) ==> leq(a, c))
  }

  predicate SortedBy<T>(s: seq<T>, leq: (T, T) -> bool) {
    forall i, j :: 0 <= i < j < |s| ==> leq(s[i], s[j])
  }

  /** Inserts `x` before the first element it is not after, so equal elements keep their order. */
  function Insert<T>(x: T, s: seq<T>, leq: (T, T) -> bool): (r: seq<T>)
    ensures multiset(r) == multiset(s) + multiset{x}
    ensures |r| == |s| + 1
  {
    if |s| == 0 then [x]
    else if leq(x, s[0]) then [x] + s
    else
      assert s == [s[0]] + s[1..];
      [s[0]] + Insert(x, s[1..], leq)
  }

  /** A stable sort (insertion sort), as `Array.prototype.sort` with a comparator. */
  function SortBy<T>(s: seq<T>, leq: (T, T) -> bool): (r: seq<T>)
    ensures multiset(r) == multiset(s)
    ensures |r| == |s|
  {
    if |s| == 0 then []
    else
      assert s == [s[0]] + s[1..];
      Insert(s[0], SortBy(s[1..], leq), leq)
  }

  lemma {:induction false} InsertSorted<T(!new)>(x: T, s: seq<T>, leq: (T, T) -> bool)
    requires TotalPreorder(leq) && SortedBy(s, leq)
    ensures SortedBy(Insert(x, s, leq), leq)
    decreases |s|
  {
    if |s| > 0 && !leq(x, s[0]) {
      InsertSorted(x, s[1..], leq);
      var r := Insert(x, s[1..], leq);
      forall k | 0 <= k < |r|
        ensures leq(s[0], r[k])
      {
        assert r[k] in multiset(r);
        if r[k] != x {
          assert r[k] in multiset(s[1..]);
          var j :| 0 <= j < |s[1..]| && s[1..][j] == r[k];
          assert s[j + 1] == r[k];
        }
      }
    }
  }

  /** The sort yields an ordered sequence when the comparison is a total preorder. */
  lemma {:induction false} SortBySorted<T(!new)>(s: seq<T>, leq: (T, T) -> bool)
    requires TotalPreorder(leq)
    ensures SortedBy(SortBy(s, leq), leq)
    decreases |s|
  {
    if |s| > 0 {
      SortBySorted(s[1..], leq);
      InsertSorted(s[0], SortBy(s[1..], leq), leq);
    }
  }

  predicate Distinct<T(==)>(s: seq<T>) {
    forall i, j :: 0 <= i < j < |s| ==> s[i] != s[j]
  }

  lemma {:induction false} DistinctCount<T>(s: seq<T>, x: T)
    requires Distinct(s)
    ensures multiset(s)[x] <= 1
    decreases |s|
  {
    if |s| > 0 {
      assert s == [s[0]] + s[1..];
      DistinctCount(s[1..], x);
      assert s[0] !in s[1..];
    }
  }

  /** Sorting never duplicates an element: a permutation of distinct elements is distinct. */
  lemma SortByDistinct<T>(s: seq<T>, leq: (T, T) -> bool)
    requires Distinct(s)
    ensures Distinct(SortBy(s, leq))
  {
    var r := SortBy(s, leq);
    forall i, j | 0 <= i < j < |r|
      ensures r[i] != r[j]
    {
      PermutationKeepsDistinct(s, r, i, j);
    }
  }

  lemma PermutationKeepsDistinct<T>(s: seq<T>, r: seq<T>, i: int, j: int)
    requires Distinct(s) && multiset(r) == multiset(s) && 0 <= i < j < |r|
    ensures r[i] != r[j]
  {
    DistinctCount(s, r[i]);
    assert r == r[..j] + r[j..];
    assert r[i] in r[..j] && r[j] in r[j..];
    assert multiset(r)[r[i]] == multiset(r[..j])[r[i]] + multiset(r[j..])[r[i]];
  }

  // ---- first-occurrence de-duplication ----

  /** Keeps the first element of each key, in order; keys already in `seen` are dropped. */
  function DedupFrom<T, K(==)>(s: seq<T>, key: T -> K, seen: set<K>): (r: seq<T>)
    ensures |r| <= |s|
  {
    if |s| == 0 then []
    else if key(s[0]) in seen then DedupFrom(s[1..], key, seen)
    else [s[0]] + DedupFrom(s[1..], key, seen + {key(s[0])})
  }

  function DedupBy<T, K(==)>(s: seq<T>, key: T -> K): seq<T> {
    DedupFrom(s, key, {})
  }

  /** The first element of `s` whose key is `k`. */
  function FirstWithKey<T, K(==)>(s: seq<T>, key: T -> K, k: K): T
    requires exists x :: x in s && key(x) == k
  {
    if key(s[0]) == k then s[0] else FirstWithKey(s[1..], key, k)
  }

  lemma {:induction false} DedupFromSpec<T, K>(s: seq<T>, key: T -> K, seen: set<K>)
    ensures forall x :: x in DedupFrom(s, key, seen) ==> x in s && key(x) !in seen
    ensures forall x :: x in DedupFrom(s, key, seen) ==> x == FirstWithKey(s, key, key(x))
    ensures forall i, j :: 0 <= i < j < |DedupFrom(s, key, seen)| ==>
      key(DedupFrom(s, key, seen)[i]) != key(DedupFrom(s, key, seen)[j])
    ensures forall x :: x in s && key(x) !in seen ==> exists y :: y in DedupFrom(s, key, seen) && key(y) == key(x)
    decreases |s|
  {
    if |s| > 0 {
      var seen' := if key(s[0]) in seen then seen else seen + {key(s[0])};
      DedupFromSpec(s[1..], key, seen');
      var r := DedupFrom(s, key, seen);
      var rest := DedupFrom(s[1..], key, seen');
      assert r == if key(s[0]) in seen then rest else [s[0]] + rest;
      forall x | x in r
        ensures x in s && key(x) !in seen && x == FirstWithKey(s, key, key(x))
      {
        if x in rest {
          assert x in s[1..];
        }
      }
      forall x | x in s && key(x) !in seen
        ensures exists y :: y in r && key(y) == key(x)
      {
        if x != s[0] {
          assert x in s[1..];
          if key(x) == key(s[0]) {
            assert s[0] in r;
          }
        } else {
          assert s[0] in r;
        }
      }
    }
  }

  /** De-duplication keeps exactly one element per key, the first one, in the original order. */
  lemma DedupBySpec<T, K>(s: seq<T>, key: T -> K)
    ensures forall x :: x in DedupBy(s, key) ==> x in s && x == FirstWithKey(s, key, key(x))
    ensures forall i, j :: 0 <= i < j < |DedupBy(s, key)| ==> key(DedupBy(s, key)[i]) != key(DedupBy(s, key)[j])
    ensures forall x :: x in s ==> exists y :: y in DedupBy(s, key) && key(y) == key(x)
  {
    DedupFromSpec(s, key, {});
  }

  /** The first element with a key is in the sequence and has that key. */
  lemma {:induction false} FirstWithKeyIn<T, K>(s: seq<T>, key: T -> K, k: K)
    requires exists x :: x in s && key(x) == k
    ensures FirstWithKey(s, key, k) in s && key(FirstWithKey(s, key, k)) == k
    decreases |s|
  {
    if key(s[0]) != k {
      var x :| x in s && key(x) == k;
      assert x in s[1..];
      FirstWithKeyIn(s[1..], key, k);
    }
  }

  /** The first element with the key sits at an index before which no element has the key. */
  lemma {:induction false} FirstWithKeyIndex<T, K>(s: seq<T>, key: T -> K, k: K) returns (i: int)
    requires exists x :: x in s && key(x) == k
    ensures 0 <= i < |s| && s[i] == FirstWithKey(s, key, k) && key(s[i]) == k
    ensures forall j :: 0 <= j < i ==> key(s[j]) != k
    decreases |s|
  {
    if key(s[0]) == k {
      i := 0;
    } else {
      var x :| x in s && key(x) == k;
      assert x in s[1..];
      var i' := FirstWithKeyIndex(s[1..], key, k);
      i := i' + 1;
      forall j | 0 <= j < i
        ensures key(s[j]) != k
      {
        if j > 0 {
          assert s[j] == s[1..][j - 1];
        }
      }
    }
  }

  /** When `a` already has an element with the key, appending `b` does not change the first one. */
  lemma {:induction false} FirstWithKeyAppend<T, K>(a: seq<T>, b: seq<T>, key: T -> K, k: K)
    requires exists x :: x in a && key(x) == k
    ensures FirstWithKey(a + b, key, k) == FirstWithKey(a, key, k)
    decreases |a|
  {
    assert (a + b)[0] == a[0];
    if key(a[0]) != k {
      var x :| x in a && key(x) == k;
      assert x in a[1..];
      assert (a + b)[1..] == a[1..] + b;
      FirstWithKeyAppend(a[1..], b, key, k);
    }
  }

  /** Sorting keeps the keys of the elements pairwise distinct. */
  lemma SortByKeysDistinct<T, K>(s: seq<T>, leq: (T, T) -> bool, key: T -> K)
    requires forall i, j :: 0 <= i < j < |s| ==> key(s[i]) != key(s[j])
    ensures forall i, j :: 0 <= i < j < |SortBy(s, leq)| ==> key(SortBy(s, leq)[i]) != key(SortBy(s, leq)[j])
  {
    var r := SortBy(s, leq);
    assert Distinct(s);
    SortByDistinct(s, leq);
    forall i, j | 0 <= i < j < |r|
      ensures key(r[i]) != key(r[j])
    {
      assert r[i] in multiset(r) && r[j] in multiset(r);
      var p :| 0 <= p < |s| && s[p] == r[i];
      var q :| 0 <= q < |s| && s[q] == r[j];
      assert p != q;
    }
  }

  // ---- order-preserving selection ----

  /** `a` is `b` with some elements left out, the rest kept in order. */
  predicate Subseq<T(==)>(a: seq<T>, b: seq<T>)
    decreases |b|
  {
    |a| == 0
    || (|b| > 0
        && ((a[|a| - 1] == b[|b| - 1] && Subseq(a[..|a| - 1], b[..|b| - 1]))
            || Subseq(a, b[..|b| - 1])))
  }

  lemma {:induction false} SubseqLength<T>(a: seq<T>, b: seq<T>)
    requires Subseq(a, b)
    ensures |a| <= |b|
    decreases |b|
  {
    if |a| > 0 {
      if a[|a| - 1] == b[|b| - 1] && Subseq(a[..|a| - 1], b[..|b| - 1]) {
        SubseqLength(a[..|a| - 1], b[..|b| - 1]);
      } else {
        SubseqLength(a, b[..|b| - 1]);
      }
    }
  }

  lemma {:induction false} SubseqElements<T>(a: seq<T>, b: seq<T>)
    requires Subseq(a, b)
    ensures forall x :: x in a ==> x in b
    decreases |b|
  {
    if |a| > 0 {
      if a[|a| - 1] == b[|b| - 1] && Subseq(a[..|a| - 1], b[..|b| - 1]) {
        SubseqElements(a[..|a| - 1], b[..|b| - 1]);
        assert a == a[..|a| - 1] + [a[|a| - 1]];
        assert b == b[..|b| - 1] + [b[|b| - 1]];
      } else {
        SubseqElements(a, b[..|b| - 1]);
        assert b == b[..|b| - 1] + [b[|b| - 1]];
      }
    }
  }

  /** The elements satisfying `p`, in their order (`Array.prototype.filter`, LINQ `Where`). */
  function Filter<T>(s: seq<T>, p: T -> bool): (r: seq<T>)
    ensures |r| <= |s|
    decreases |s|
  {
    if |s| == 0 then []
    else Filter(s[..|s| - 1], p) + (if p(s[|s| - 1]) then [s[|s| - 1]] else [])
  }

  /** The filter keeps exactly the elements satisfying the predicate, in order. */
  lemma {:induction false} FilterSpec<T>(s: seq<T>, p: T -> bool)
    ensures forall x :: x in Filter(s, p) <==> x in s && p(x)
    ensures Subseq(Filter(s, p), s)
    decreases |s|
  {
    if |s| > 0 {
      var init := s[..|s| - 1];
      FilterSpec(init, p);
      assert s == init + [s[|s| - 1]];
      assert s[..|s| - 1] == init;
      var r := Filter(s, p);
      if p(s[|s| - 1]) {
        assert r[..|r| - 1] == Filter(init, p) && r[|r| - 1] == s[|s| - 1];
      } else {
        assert r == Filter(init, p);
      }
    }
  }

  lemma {:induction false} FilterAppend<T>(a: seq<T>, b: seq<T>, p: T -> bool)
    ensures Filter(a + b, p) == Filter(a, p) + Filter(b, p)
    decreases |b|
  {
    if |b| > 0 {
      var b' := b[..|b| - 1];
      FilterAppend(a, b', p);
      assert (a + b)[..|a + b| - 1] == a + b';
    } else {
      assert a + b == a;
    }
  }

  /** A filter and its complement split a sequence: together they are as long as it. */
  lemma {:induction false} FilterComplement<T>(s: seq<T>, p: T -> bool, q: T -> bool)
    requires forall x :: q(x) == !p(x)
    ensures |Filter(s, p)| + |Filter(s, q)| == |s|
    ensures multiset(Filter(s, p)) + multiset(Filter(s, q)) == multiset(s)
    decreases |s|
  {
    if |s| > 0 {
      FilterComplement(s[..|s| - 1], p, q);
      assert s == s[..|s| - 1] + [s[|s| - 1]];
    }
  }

  /** Filtering with a predicate that holds nowhere keeps nothing; one that holds everywhere keeps everything. */
  lemma {:induction false} FilterTrivial<T>(s: seq<T>, p: T -> bool)
    ensures (forall x :: x in s ==> !p(x)) ==> Filter(s, p) == []
    ensures (forall x :: x in s ==> p(x)) ==> Filter(s, p) == s
    decreases |s|
  {
    if |s| > 0 {
      FilterTrivial(s[..|s| - 1], p);
      assert s == s[..|s| - 1] + [s[|s| - 1]];
    }
  }

  /** Filtering keeps a sequence free of repeats. */
  lemma {:induction false} FilterDistinct<T>(s: seq<T>, p: T -> bool)
    requires Distinct(s)
    ensures Distinct(Filter(s, p))
    decreases |s|
  {
    if |s| > 0 {
      var init, last := s[..|s| - 1], s[|s| - 1];
      assert Distinct(init) by {
        forall i, j | 0 <= i < j < |init|
          ensures init[i] != init[j]
        {
          assert init[i] == s[i] && init[j] == s[j];
        }
      }
      FilterDistinct(init, p);
      FilterSpec(init, p);
      var f := Filter(init, p);
      assert s[..|s| - 1] == init;
      assert Filter(s, p) == f + (if p(last) then [last] else []);
      assert last !in f;
      if p(last) {
        DistinctSnoc(f, last);
      }
    }
  }

  lemma DistinctSnoc<T>(s: seq<T>, x: T)
    requires Distinct(s) && x !in s
    ensures Distinct(s + [x])
  {
    forall i, j | 0 <= i < j < |s| + 1
      ensures (s + [x])[i] != (s + [x])[j]
    {
      if j == |s| {
        assert s[i] in s;
      } else {
        assert (s + [x])[i] == s[i] && (s + [x])[j] == s[j];
      }
    }
  }

  lemma CodeLeqAntisymmetric(a: string, b: string)
    requires CodeLeq(a, b) && CodeLeq(b, a)
    ensures a == b
  {
    if a != b {
      CodeLessTransitive(a, b, a);
      CodeLessIrreflexive(a);
    }
  }

  /** The least element of a sorted sequence is its head. */
  lemma SortedHeadLeast(a: seq<string>, x: string)
    requires SortedBy(a, CodeLeq) && x in a
    ensures CodeLeq(a[0], x)
  {
    var k :| 0 <= k < |a| && a[k] == x;
    if k > 0 {
      assert CodeLeq(a[0], a[k]);
    }
  }

  /** Two sequences sorted in code-unit order with the same elements are equal: the default sort has one answer. */
  lemma {:induction false} SortedCodeUnique(a: seq<string>, b: seq<string>)
    requires SortedBy(a, CodeLeq) && SortedBy(b, CodeLeq) && multiset(a) == multiset(b)
    ensures a == b
    decreases |a|
  {
    assert |a| == |multiset(a)| == |multiset(b)| == |b|;
    if |a| > 0 {
      assert a[0] in multiset(b) && b[0] in multiset(a);
      SortedHeadLeast(b, a[0]);
      SortedHeadLeast(a, b[0]);
      CodeLeqAntisymmetric(a[0], b[0]);
      TailMultiset(a);
      TailMultiset(b);
      SortedCodeUnique(a[1..], b[1..]);
      assert a == [a[0]] + a[1..] && b == [b[0]] + b[1..];
    }
  }

  lemma TailMultiset<T>(a: seq<T>)
    requires |a| > 0
    ensures multiset(a[1..]) == multiset(a) - multiset{a[0]}
  {
    assert a == [a[0]] + a[1..];
  }

  /** Sequences without repeats and with the same elements are permutations of each other. */
  lemma SameElementsPermutation<T>(a: seq<T>, b: seq<T>)
    requires Distinct(a) && Distinct(b)
    requires forall x :: x in a <==> x in b
    ensures multiset(a) == multiset(b)
  {
    forall x
      ensures multiset(a)[x] == multiset(b)[x]
    {
      DistinctCount(a, x);
      DistinctCount(b, x);
      if x in a {
        assert x in multiset(a) && x in multiset(b);
      } else {
        assert x !in multiset(a) && x !in multiset(b);
      }
    }
  }
}
