/**
 * The orderings and clean-ups applied to lists of action strings:
 * `Array.prototype.sort()` with its default comparison, and the
 * first-occurrence de-duplication done with a `Set` (`new Set(...)` or the
 * filter in expand.ts).
 */
module Ordering {

  /**
   * Lexicographic order on strings, by character code: the order the default
   * comparison of `Array.prototype.sort` uses. (Dafny's `<` on sequences is
   * proper prefix, so the order is spelled out.)
   */
  predicate Below(a: string, b: string)
    decreases |a|
  {
    |b| > 0 && (|a| == 0 || a[0] < b[0] || (a[0] == b[0] && Below(a[1..], b[1..])))
  }

  predicate LessEq(a: string, b: string) {
    a == b || Below(a, b)
  }

  lemma {:induction false} BelowIrreflexive(a: string)
    ensures !Below(a, a)
    decreases |a|
  {
    if |a| > 0 {
      BelowIrreflexive(a[1..]);
    }
  }

  lemma {:induction false} BelowTransitive(a: string, b: string, c: string)
    requires Below(a, b) && Below(b, c)
    ensures Below(a, c)
    decreases |a|
  {
    if |a| > 0 && a[0] == b[0] && b[0] == c[0] {
      BelowTransitive(a[1..], b[1..], c[1..]);
    }
  }

  lemma {:induction false} BelowTotal(a: string, b: string)
    ensures a == b || Below(a, b) || Below(b, a)
    decreases |a|
  {
    if |a| > 0 && |b| > 0 && a[0] == b[0] {
      BelowTotal(a[1..], b[1..]);
      if a[1..] == b[1..] {
        assert a == [a[0]] + a[1..] && b == [b[0]] + b[1..];
      }
    }
  }

  lemma BelowAsymmetric(a: string, b: string)
    requires Below(a, b)
    ensures !Below(b, a)
  {
    if Below(b, a) {
      BelowTransitive(a, b, a);
      BelowIrreflexive(a);
    }
  }

  /** Ascending, repeats allowed */
  predicate Sorted(xs: seq<string>) {
    forall i, j | 0 <= i < j < |xs| :: LessEq(xs[i], xs[j])
  }

  /** Ascending without repeats */
  predicate StrictlySorted(xs: seq<string>) {
    forall i, j | 0 <= i < j < |xs| :: Below(xs[i], xs[j])
  }

  predicate NoDuplicates<T(==)>(xs: seq<T>) {
    forall i, j | 0 <= i < j < |xs| :: xs[i] != xs[j]
  }

  function Elements<T>(xs: seq<T>): set<T> {
    set x | x in xs
  }

  /** Places `x` into an ascending list, before the first element it does not exceed */
  function Insert(x: string, xs: seq<string>): (r: seq<string>)
    requires Sorted(xs)
    ensures Sorted(r)
    ensures multiset(r) == multiset(xs) + multiset{x}
  {
    if |xs| == 0 then [x]
    else if LessEq(x, xs[0]) then
      InsertFront(x, xs);
      [x] + xs
    else
      var rest := Insert(x, xs[1..]);
      InsertBehind(x, xs, rest);
      [xs[0]] + rest
  }

  /** A list stays ascending with an element put in front that does not exceed its head */
  lemma InsertFront(x: string, xs: seq<string>)
    requires Sorted(xs) && |xs| > 0 && LessEq(x, xs[0])
    ensures Sorted([x] + xs)
  {
    forall j | 0 < j < |xs| ensures LessEq(x, xs[j]) {
      if x != xs[0] && xs[0] != xs[j] {
        BelowTransitive(x, xs[0], xs[j]);
      }
    }
    SortedCons(x, xs);
  }

  /** The head stays in front of the rest with `x` inserted when `x` exceeds it */
  lemma InsertBehind(x: string, xs: seq<string>, rest: seq<string>)
    requires Sorted(xs) && |xs| > 0 && !LessEq(x, xs[0])
    requires Sorted(rest) && multiset(rest) == multiset(xs[1..]) + multiset{x}
    ensures Sorted([xs[0]] + rest)
    ensures multiset([xs[0]] + rest) == multiset(xs) + multiset{x}
  {
    assert xs == [xs[0]] + xs[1..];
    BelowTotal(x, xs[0]);
    forall y | y in rest ensures LessEq(xs[0], y) {
      assert y in multiset(rest);
      if y != x {
        assert y in multiset(xs[1..]);
        var j :| 0 <= j < |xs[1..]| && xs[1..][j] == y;
        assert xs[j + 1] == y;
      }
    }
    SortedCons(xs[0], rest);
  }

  lemma SortedCons(h: string, xs: seq<string>)
    requires Sorted(xs) && forall y | y in xs :: LessEq(h, y)
    ensures Sorted([h] + xs)
  {
    var r := [h] + xs;
    forall i, j | 0 <= i < j < |r| ensures LessEq(r[i], r[j]) {
      assert r[j] == xs[j - 1];
      if i > 0 {
        assert r[i] == xs[i - 1];
      }
    }
  }

  /** `Array.prototype.sort()` on strings: the ascending permutation of the input */
  function Sort(xs: seq<string>): (r: seq<string>)
    ensures Sorted(r)
    ensures multiset(r) == multiset(xs)
  {
    if |xs| == 0 then []
    else
      assert xs == [xs[0]] + xs[1..];
      Insert(xs[0], Sort(xs[1..]))
  }

  /** Sorting keeps exactly the elements it was given */
  lemma SortMembers(xs: seq<string>)
    ensures forall x :: x in Sort(xs) <==> x in xs
  {
    forall x ensures x in Sort(xs) <==> x in xs {
      assert x in Sort(xs) <==> x in multiset(Sort(xs));
      assert x in xs <==> x in multiset(xs);
    }
  }

  /** Two ascending lists with the same elements, counted with repetition, are equal */
  lemma {:induction false} SortedUnique(a: seq<string>, b: seq<string>)
    requires Sorted(a) && Sorted(b)
    requires multiset(a) == multiset(b)
    ensures a == b
    decreases |a|
  {
    assert |a| == |multiset(a)| == |multiset(b)| == |b|;
    if |a| > 0 {
      SortedHeads(a, b);
      DropHead(a);
      DropHead(b);
      SortedUnique(a[1..], b[1..]);
      assert a == [a[0]] + a[1..] && b == [b[0]] + b[1..];
    }
  }

  /** Two ascending lists with the same elements start alike */
  lemma SortedHeads(a: seq<string>, b: seq<string>)
    requires Sorted(a) && Sorted(b) && |a| > 0 && |b| > 0
    requires multiset(a) == multiset(b)
    ensures a[0] == b[0]
  {
    assert a[0] in multiset(b);
    assert b[0] in multiset(a);
    var i :| 0 <= i < |b| && b[i] == a[0];
    var j :| 0 <= j < |a| && a[j] == b[0];
    assert LessEq(b[0], a[0]) && LessEq(a[0], b[0]);
    if a[0] != b[0] {
      BelowAsymmetric(a[0], b[0]);
    }
  }

  /** The tail of an ascending list is ascending and holds the rest of its elements */
  lemma DropHead(a: seq<string>)
    requires Sorted(a) && |a| > 0
    ensures Sorted(a[1..])
    ensures multiset(a[1..]) == multiset(a) - multiset{a[0]}
  {
    assert a == [a[0]] + a[1..];
  }

  /** Sorting a list that is already ascending leaves it unchanged */
  lemma SortSorted(xs: seq<string>)
    requires Sorted(xs)
    ensures Sort(xs) == xs
  {
    SortedUnique(Sort(xs), xs);
  }

  /** `a` is `b` with some elements left out, the rest kept in order */
  predicate Subsequence<T(==)>(a: seq<T>, b: seq<T>)
    decreases |b|
  {
    |a| == 0 || (|b| > 0 && ((a[0] == b[0] && Subsequence(a[1..], b[1..])) || Subsequence(a, b[1..])))
  }

  /** Position of the first occurrence of `x`, or `|xs|` when there is none */
  function FirstIndex<T(==)>(xs: seq<T>, x: T): (k: nat)
    ensures k <= |xs| && x !in xs[..k]
    ensures x in xs ==> k < |xs| && xs[k] == x
  {
    if |xs| == 0 then 0 else if xs[0] == x then 0 else 1 + FirstIndex(xs[1..], x)
  }

  /**
   * The filter of expand.ts:102-109: walks left to right, keeping an element
   * only if `seen` does not yet hold it, then adding it to `seen`.
   */
  function DedupeFrom<T(==)>(xs: seq<T>, seen: set<T>): (r: seq<T>)
    ensures NoDuplicates(r)
    ensures Elements(r) == Elements(xs) - seen
    ensures forall i, j | 0 <= i < j < |r| :: FirstIndex(xs, r[i]) < FirstIndex(xs, r[j])
  {
    if |xs| == 0 then []
    else if xs[0] in seen then
      var r := DedupeFrom(xs[1..], seen);
      ElementsCons(xs);
      FirstIndexTail(xs, r);
      r
    else
      var rest := DedupeFrom(xs[1..], seen + {xs[0]});
      ElementsCons(xs);
      FirstIndexTail(xs, rest);
      KeepHeadOrder(xs, rest);
      var r := [xs[0]] + rest;
      assert r[1..] == rest;
      ElementsCons(r);
      r
  }

  lemma ElementsCons<T>(xs: seq<T>)
    requires |xs| > 0
    ensures Elements(xs) == {xs[0]} + Elements(xs[1..])
  {
    assert xs == [xs[0]] + xs[1..];
  }

  /** Past the head, first occurrences in `xs` are one further on than in its tail */
  lemma FirstIndexTail<T>(xs: seq<T>, r: seq<T>)
    requires |xs| > 0 && forall x | x in r :: x != xs[0]
    ensures forall x | x in r :: FirstIndex(xs, x) == 1 + FirstIndex(xs[1..], x)
  {
  }

  /** The head of `xs` ahead of elements in tail first-occurrence order keeps first-occurrence order */
  lemma KeepHeadOrder<T>(xs: seq<T>, rest: seq<T>)
    requires |xs| > 0 && forall x | x in rest :: x != xs[0]
    requires forall x | x in rest :: FirstIndex(xs, x) == 1 + FirstIndex(xs[1..], x)
    requires forall i, j | 0 <= i < j < |rest| :: FirstIndex(xs[1..], rest[i]) < FirstIndex(xs[1..], rest[j])
    ensures var r := [xs[0]] + rest;
      forall i, j | 0 <= i < j < |r| :: FirstIndex(xs, r[i]) < FirstIndex(xs, r[j])
  {
    var r := [xs[0]] + rest;
    forall i, j | 0 <= i < j < |r| ensures FirstIndex(xs, r[i]) < FirstIndex(xs, r[j]) {
      assert r[j] == rest[j - 1];
      if i > 0 {
        assert r[i] == rest[i - 1];
      }
    }
  }

  /**
   * First-occurrence de-duplication: no repeats, the same elements, and the
   * elements in the order of their first occurrence in `xs`.
   */
  function Dedupe<T(==)>(xs: seq<T>): (r: seq<T>)
    ensures NoDuplicates(r)
    ensures Elements(r) == Elements(xs)
    ensures forall i, j | 0 <= i < j < |r| :: FirstIndex(xs, r[i]) < FirstIndex(xs, r[j])
  {
    DedupeFrom(xs, {})
  }

  /** De-duplicating a list without repeats leaves it unchanged */
  lemma {:induction false} DedupeNoDuplicates<T>(xs: seq<T>)
    requires NoDuplicates(xs)
    ensures Dedupe(xs) == xs
  {
    FirstIndexDistinct(xs);
    DedupeOrderUnique(xs, Dedupe(xs));
  }

  /** In a repeat-free list every element first occurs where it stands */
  lemma FirstIndexDistinct<T>(xs: seq<T>)
    requires NoDuplicates(xs)
    ensures forall i | 0 <= i < |xs| :: FirstIndex(xs, xs[i]) == i
  {
    forall i | 0 <= i < |xs| ensures FirstIndex(xs, xs[i]) == i {
      assert xs[i] in xs;
    }
  }

  /** A repeat-free list holding every element of `xs` in first-occurrence order is `xs` itself */
  lemma DedupeOrderUnique<T>(xs: seq<T>, r: seq<T>)
    requires NoDuplicates(xs) && NoDuplicates(r)
    requires Elements(r) == Elements(xs)
    requires forall i | 0 <= i < |xs| :: FirstIndex(xs, xs[i]) == i
    requires forall i, j | 0 <= i < j < |r| :: FirstIndex(xs, r[i]) < FirstIndex(xs, r[j])
    ensures r == xs
  {
    assert |r| == |xs| by {
      NoDuplicatesCard(r);
      NoDuplicatesCard(xs);
    }
    forall i | 0 <= i < |r| ensures r[i] == xs[i] {
      RankIsIndex(xs, r, i);
    }
  }

  lemma {:induction false} RankIsIndex<T>(xs: seq<T>, r: seq<T>, i: nat)
    requires |r| == |xs| && i < |r|
    requires Elements(r) == Elements(xs)
    requires forall k | 0 <= k < |xs| :: FirstIndex(xs, xs[k]) == k
    requires forall a, b | 0 <= a < b < |r| :: FirstIndex(xs, r[a]) < FirstIndex(xs, r[b])
    ensures r[i] == xs[i]
  {
    // the positions FirstIndex(xs, r[k]) are strictly increasing values in [0, |xs|)
    assert forall k | 0 <= k < |r| :: r[k] in Elements(xs);
    var f := seq(|r|, k requires 0 <= k < |r| => assert r[k] in Elements(xs); FirstIndex(xs, r[k]));
    StrictlyIncreasingIsIdentity(f, |xs|);
    assert f[i] == i;
  }

  lemma {:induction false} StrictlyIncreasingIsIdentity(f: seq<nat>, n: nat)
    requires |f| == n
    requires forall k | 0 <= k < |f| :: f[k] < n
    requires forall a, b | 0 <= a < b < |f| :: f[a] < f[b]
    ensures forall k | 0 <= k < |f| :: f[k] == k
    decreases n
  {
    if n > 0 {
      var g := f[..n - 1];
      assert forall k | 0 <= k < |g| :: g[k] < f[n - 1] <= n - 1;
      StrictlyIncreasingIsIdentity(g, n - 1);
      assert f[n - 1] >= n - 1 by {
        if n > 1 {
          assert g[n - 2] == n - 2;
        }
      }
    }
  }

  lemma {:induction false} NoDuplicatesCard<T>(xs: seq<T>)
    requires NoDuplicates(xs)
    ensures |Elements(xs)| == |xs|
    decreases |xs|
  {
    if |xs| > 0 {
      var t := xs[1..];
      NoDuplicatesCard(t);
      assert Elements(xs) == {xs[0]} + Elements(t);
      assert xs[0] !in Elements(t);
    }
  }

  /** A list without repeats keeps that property under permutation */
  lemma NoDuplicatesMultiset<T>(xs: seq<T>, ys: seq<T>)
    requires NoDuplicates(xs)
    requires multiset(xs) == multiset(ys)
    ensures NoDuplicates(ys)
  {
    forall i, j | 0 <= i < j < |ys| ensures ys[i] != ys[j] {
      if ys[i] == ys[j] {
        assert ys == ys[..i] + [ys[i]] + ys[i + 1..j] + [ys[j]] + ys[j + 1..];
        assert multiset(ys)[ys[i]] >= 2;
        CountAtMostOne(xs, ys[i]);
      }
    }
  }

  lemma {:induction false} CountAtMostOne<T>(xs: seq<T>, x: T)
    requires NoDuplicates(xs)
    ensures multiset(xs)[x] <= 1
    decreases |xs|
  {
    if |xs| > 0 {
      assert xs == [xs[0]] + xs[1..];
      CountAtMostOne(xs[1..], x);
      if xs[0] == x {
        assert x !in xs[1..];
      }
    }
  }

  /**
   * `Array.from(new Set(xs)).sort()`: ascending without repeats, holding
   * exactly the elements of `xs`.
   */
  function SortedSet(xs: seq<string>): (r: seq<string>)
    ensures StrictlySorted(r)
    ensures Elements(r) == Elements(xs)
  {
    var d := Dedupe(xs);
    var r := Sort(d);
    NoDuplicatesMultiset(d, r);
    assert forall x :: x in r <==> x in d by {
      forall x ensures x in r <==> x in d {
        assert x in r <==> x in multiset(r);
        assert x in d <==> x in multiset(d);
      }
    }
    r
  }

  lemma ElementsEmpty<T>(xs: seq<T>)
    ensures Elements(xs) == {} <==> |xs| == 0
  {
    if |xs| > 0 {
      assert xs[0] in Elements(xs);
    }
  }

  /** Two strictly ascending lists with the same elements are equal */
  lemma {:induction false} StrictlySortedUnique(a: seq<string>, b: seq<string>)
    requires StrictlySorted(a) && StrictlySorted(b)
    requires Elements(a) == Elements(b)
    ensures a == b
    decreases |a|
  {
    ElementsEmpty(a);
    ElementsEmpty(b);
    if |a| == 0 {
    } else {
      assert a[0] in Elements(b);
      assert |b| > 0;
      assert b[0] in Elements(a);
      if a[0] != b[0] {
        var i :| 0 <= i < |b| && b[i] == a[0];
        var j :| 0 <= j < |a| && a[j] == b[0];
        BelowAsymmetric(b[0], a[0]);
      }
      assert Elements(a[1..]) == Elements(b[1..]) by {
        forall x ensures x in Elements(a[1..]) <==> x in Elements(b[1..]) {
          if x in a[1..] {
            assert x in Elements(a);
            assert x != a[0] by {
              var k :| 1 <= k < |a| && a[k] == x;
              BelowIrreflexive(a[0]);
            }
            var k :| 0 <= k < |b| && b[k] == x;
          }
          if x in b[1..] {
            assert x in Elements(b);
            assert x != b[0] by {
              var k :| 1 <= k < |b| && b[k] == x;
              BelowIrreflexive(b[0]);
            }
            var k :| 0 <= k < |a| && a[k] == x;
          }
        }
      }
      StrictlySortedUnique(a[1..], b[1..]);
      assert a == [a[0]] + a[1..] && b == [b[0]] + b[1..];
    }
  }
}
