/** Sequence utilities shared by the listings: order-preserving filtering,
    sorting by a descending integer key, and the page slice that Spring's
    `PageRequest.of(from / size, size, sort)` selects. */
module Seqs {

  /** `ys` is left when some elements of `xs` are deleted: what it keeps
      stays in the order it had in `xs`. */
  ghost predicate Subsequence<T>(ys: seq<T>, xs: seq<T>)
    decreases |xs|
  {
    || ys == []
    || (xs != [] && ((ys[0] == xs[0] && Subsequence(ys[1..], xs[1..])) || Subsequence(ys, xs[1..])))
  }

  /** Keeps the elements of `xs` that satisfy `p`, in their original order. */
  function Filter<T(!new)>(p: T -> bool, xs: seq<T>): (r: seq<T>)
    ensures |r| <= |xs|
    ensures forall i :: 0 <= i < |r| ==> p(r[i])
    ensures forall x :: x in r <==> x in xs && p(x)
  {
    if xs == [] then []
    else
      var rest := Filter(p, xs[1..]);
      if p(xs[0]) then [xs[0]] + rest else rest
  }

  /** Filtering keeps the relative order of what it keeps. */
  lemma {:induction false} FilterKeepsOrder<T(!new)>(p: T -> bool, xs: seq<T>)
    ensures Subsequence(Filter(p, xs), xs)
  {
    if xs != [] {
      FilterKeepsOrder(p, xs[1..]);
    }
  }

  /** A list none of whose elements is accepted filters to the empty list. */
  lemma {:induction false} FilterNone<T(!new)>(p: T -> bool, xs: seq<T>)
    requires forall i :: 0 <= i < |xs| ==> !p(xs[i])
    ensures Filter(p, xs) == []
  {
    if xs != [] {
      FilterNone(p, xs[1..]);
    }
  }

  /** Filtering keeps every accepted element as often as it occurs and drops
      every other one entirely. */
  lemma {:induction false} FilterCounts<T(!new)>(p: T -> bool, xs: seq<T>)
    ensures forall x :: multiset(Filter(p, xs))[x] == if p(x) then multiset(xs)[x] else 0
  {
    if xs != [] {
      FilterCounts(p, xs[1..]);
      assert xs == [xs[0]] + xs[1..];
    }
  }

  /** A predicate and its complement split a list: together their filters
      hold every element as often as the list does, and they share none. */
  lemma FilterPartition<T(!new)>(p: T -> bool, q: T -> bool, xs: seq<T>)
    requires forall x :: q(x) <==> !p(x)
    ensures multiset(Filter(p, xs)) + multiset(Filter(q, xs)) == multiset(xs)
    ensures multiset(Filter(p, xs)) !! multiset(Filter(q, xs))
  {
    var a, b := multiset(Filter(p, xs)), multiset(Filter(q, xs));
    FilterCounts(p, xs);
    FilterCounts(q, xs);
    assert a + b == multiset(xs) by {
      forall x
        ensures (a + b)[x] == multiset(xs)[x]
      {
        assert q(x) == !p(x);
      }
    }
    forall x | x in a
      ensures x !in b
    {
      assert q(x) == !p(x);
    }
  }

  /** Filtering distributes over concatenation. */
  lemma {:induction false} FilterAppend<T(!new)>(p: T -> bool, xs: seq<T>, ys: seq<T>)
    ensures Filter(p, xs + ys) == Filter(p, xs) + Filter(p, ys)
  {
    if xs == [] {
      assert xs + ys == ys;
    } else {
      assert (xs + ys)[1..] == xs[1..] + ys;
      FilterAppend(p, xs[1..], ys);
    }
  }

  /** One step of a filtering loop: the filtered prefix grows by the next
      element exactly when it satisfies `p`. */
  lemma FilterStep<T(!new)>(p: T -> bool, xs: seq<T>, i: nat)
    requires i < |xs|
    ensures Filter(p, xs[..i + 1]) == Filter(p, xs[..i]) + (if p(xs[i]) then [xs[i]] else [])
  {
    assert xs[..i + 1] == xs[..i] + [xs[i]];
    FilterAppend(p, xs[..i], [xs[i]]);
    assert [xs[i]][1..] == [];
  }

  /** Narrowing a filtered list by a stronger predicate is filtering by the
      stronger predicate alone. */
  lemma {:induction false} FilterNarrow<T(!new)>(p: T -> bool, q: T -> bool, xs: seq<T>)
    requires forall x :: p(x) ==> q(x)
    ensures Filter(p, Filter(q, xs)) == Filter(p, xs)
  {
    if xs != [] {
      FilterNarrow(p, q, xs[1..]);
    }
  }

  /** `xs` is ordered by `key`, largest first (ties in any order). */
  ghost predicate SortedDesc<T>(xs: seq<T>, key: T -> int)
  {
    forall i, j :: 0 <= i < j < |xs| ==> key(xs[i]) >= key(xs[j])
  }

  /** Inserts `x` into the descending list `xs` before the first element whose
      key is at most `x`'s, so `x` goes ahead of its equals. */
  function InsertDesc<T>(x: T, xs: seq<T>, key: T -> int): (r: seq<T>)
    requires SortedDesc(xs, key)
    ensures SortedDesc(r, key)
    ensures multiset(r) == multiset(xs) + multiset{x}
  {
    if xs == [] then [x]
    else if key(x) >= key(xs[0]) then [x] + xs
    else
      var rest := InsertDesc(x, xs[1..], key);
      assert xs == [xs[0]] + xs[1..];
      ConsSorted(xs[0], xs[1..], x, rest, key);
      [xs[0]] + rest
  }

  /** Putting `h` in front of `rest` keeps the order when every element of
      `rest` comes from the tail of a list headed by `h` or is a smaller `x`. */
  lemma ConsSorted<T>(h: T, tail: seq<T>, x: T, rest: seq<T>, key: T -> int)
    requires SortedDesc([h] + tail, key)
    requires key(x) < key(h)
    requires SortedDesc(rest, key)
    requires multiset(rest) == multiset(tail) + multiset{x}
    ensures SortedDesc([h] + rest, key)
  {
    forall j | 0 <= j < |rest|
      ensures key(rest[j]) <= key(h)
    {
      assert rest[j] in multiset(rest);
      if rest[j] != x {
        assert rest[j] in multiset(tail);
        var k :| 0 <= k < |tail| && tail[k] == rest[j];
        assert ([h] + tail)[0] == h && ([h] + tail)[k + 1] == tail[k];
      }
    }
  }

  /** The listing order of the repositories: a permutation of `xs` sorted by
      `key`, largest first. */
  function SortDesc<T>(xs: seq<T>, key: T -> int): (r: seq<T>)
    ensures SortedDesc(r, key)
    ensures multiset(r) == multiset(xs)
    ensures |r| == |xs|
  {
    if xs == [] then []
    else
      assert xs == [xs[0]] + xs[1..];
      InsertDesc(xs[0], SortDesc(xs[1..], key), key)
  }

  /** Where page `p` starts when pages hold `size` elements: `size` added
      up `p` times. Kept recursive so that the paging contracts below stay
      linear; `OffsetIsProduct` connects it to `p * size`. */
  function Offset(p: nat, size: nat): nat
  {
    if p == 0 then 0 else Offset(p - 1, size) + size
  }

  lemma {:induction false} OffsetIsProduct(p: nat, size: nat)
    ensures Offset(p, size) == p * size
  {
    if p > 0 {
      OffsetIsProduct(p - 1, size);
    }
  }

  /** The zero-based page index `PageRequest.of` receives: `from / size`. Both
      operands are non-negative, so Java's truncating division agrees with
      Dafny's. The page it names is the one whose window holds `from`. */
  function PageIndex(from: int, size: int): (p: nat)
    requires from >= 0 && size >= 1
    ensures p * size <= from < (p + 1) * size
    ensures Offset(p, size) <= from < Offset(p, size) + size
  {
    OffsetIsProduct(from / size, size);
    from / size
  }

  /** How many elements page `p` holds when `n` elements are cut into pages
      of `size`: full pages first, then at most one partial page, then
      empty ones. */
  function PageLength(n: nat, p: nat, size: int): nat
    requires size >= 1
  {
    var lo := Offset(p, size);
    if lo >= n then 0
    else if lo + size <= n then size
    else n - lo
  }

  /** The bounds of page `p` of a list of length `n` when pages hold `size`
      elements: `[Offset(p), Offset(p) + size)`, clipped to the list. */
  function PageBounds(n: nat, p: nat, size: int): (b: (nat, nat))
    requires size >= 1
    ensures b.0 <= b.1 <= n && b.1 - b.0 <= size
    ensures Offset(p, size) >= n ==> b.0 == b.1
    ensures Offset(p, size) < n ==> b.0 == Offset(p, size)
    ensures Offset(p, size) < n ==> b.1 == (if Offset(p, size) + size <= n then Offset(p, size) + size else n)
  {
    var lo := if Offset(p, size) <= n then Offset(p, size) else n;
    var hi := if lo + size <= n then lo + size else n;
    (lo, hi)
  }

  /** The elements of page `p` of `xs` when pages hold `size` elements. */
  function PageSlice<T>(xs: seq<T>, p: nat, size: int): (r: seq<T>)
    requires size >= 1
    ensures |r| <= size
    ensures |r| == PageLength(|xs|, p, size)
    ensures Offset(p, size) >= |xs| ==> r == []
    ensures forall i :: 0 <= i < |r| ==> Offset(p, size) + i < |xs| && r[i] == xs[Offset(p, size) + i]
  {
    var b := PageBounds(|xs|, p, size);
    xs[b.0..b.1]
  }

  /** Page `p` of `xs` sorted by `key` descending: the contents of the
      `Page` a repository returns for `PageRequest.of(p, size, sort)`. Its
      elements are the ones at positions `Offset(p, size)` (that is,
      `p * size`) onwards of the sorted list, as many as page `p` holds. */
  function SortedPage<T>(xs: seq<T>, key: T -> int, p: nat, size: int): (r: seq<T>)
    requires size >= 1
    ensures |r| <= size
    ensures |r| == PageLength(|xs|, p, size)
    ensures multiset(r) <= multiset(xs)
    ensures forall i :: 0 <= i < |r| ==> r[i] in xs
    ensures SortedDesc(r, key)
  {
    PageOfSorted(xs, key, p, size);
    PageSlice(SortDesc(xs, key), p, size)
  }

  /** A page cut from the descending order is itself descending and is
      contained in the input. */
  lemma PageOfSorted<T>(xs: seq<T>, key: T -> int, p: nat, size: int)
    requires size >= 1
    ensures multiset(PageSlice(SortDesc(xs, key), p, size)) <= multiset(xs)
    ensures SortedDesc(PageSlice(SortDesc(xs, key), p, size), key)
    ensures forall i :: 0 <= i < |PageSlice(SortDesc(xs, key), p, size)| ==> PageSlice(SortDesc(xs, key), p, size)[i] in xs
  {
    var sorted := SortDesc(xs, key);
    var r := PageSlice(sorted, p, size);
    assert multiset(r) <= multiset(xs) && SortedDesc(r, key) by {
      var b := PageBounds(|sorted|, p, size);
      SliceOfSorted(sorted, b.0, b.1, key);
    }
    forall i | 0 <= i < |r|
      ensures r[i] in xs
    {
      assert r[i] in multiset(r);
    }
  }

  /** Page `p` holds the elements at positions `Offset(p, size)` onwards of
      the sorted list, in that order. */
  lemma SortedPageAt<T>(xs: seq<T>, key: T -> int, p: nat, size: int) returns (lo: nat)
    requires size >= 1
    ensures lo == Offset(p, size)
    ensures forall i :: 0 <= i < |SortedPage(xs, key, p, size)| ==>
      lo + i < |xs| && SortedPage(xs, key, p, size)[i] == SortDesc(xs, key)[lo + i]
  {
    lo := Offset(p, size);
    assert SortedPage(xs, key, p, size) == PageSlice(SortDesc(xs, key), p, size);
  }

  /** Two runs of a list that do not overlap hold, together, no element
      more often than the list does. */
  lemma DisjointRuns<T>(s: seq<T>, a: seq<T>, lo: nat, b: seq<T>, lo': nat)
    requires lo + |a| <= lo'
    requires forall i :: 0 <= i < |a| ==> lo + i < |s| && a[i] == s[lo + i]
    requires forall j :: 0 <= j < |b| ==> lo' + j < |s| && b[j] == s[lo' + j]
    ensures multiset(a) + multiset(b) <= multiset(s)
  {
    if a != [] {
      var i := |a| - 1;
      var last := a[i];
      assert last == s[lo + i];
      assert a == s[lo..lo + |a|];
    }
    if b != [] {
      var j := |b| - 1;
      var last := b[j];
      assert last == s[lo' + j];
      assert b == s[lo'..lo' + |b|];
    }
    if a == [] && b != [] {
      assert s == s[..lo'] + b + s[lo' + |b|..];
    } else if a != [] && b == [] {
      assert s == s[..lo] + a + s[lo + |a|..];
    } else if a != [] {
      assert s == s[..lo] + a + s[lo + |a|..lo'] + b + s[lo' + |b|..];
    }
  }

  /** A later page starts at or after the end of an earlier one. */
  lemma {:induction false} LaterPageStartsAfter(p: nat, q: nat, size: nat)
    requires p < q
    ensures Offset(p, size) + size <= Offset(q, size)
  {
    if q > p + 1 {
      LaterPageStartsAfter(p, q - 1, size);
    }
  }

  /** Distinct pages of any list share no position: for `p < q`, pages
      `p` and `q` of `s` together hold no element more often than `s`. */
  lemma SlicesDisjoint<T>(s: seq<T>, p: nat, q: nat, size: int)
    requires size >= 1 && p < q
    ensures multiset(PageSlice(s, p, size)) + multiset(PageSlice(s, q, size)) <= multiset(s)
  {
    var a, b := PageSlice(s, p, size), PageSlice(s, q, size);
    LaterPageStartsAfter(p, q, size);
    DisjointRuns(s, a, Offset(p, size), b, Offset(q, size));
  }

  /** Distinct pages never hand out the same element twice: for `p < q`,
      pages `p` and `q` together hold no element more often than `xs`. */
  lemma PagesDisjoint<T>(xs: seq<T>, key: T -> int, p: nat, q: nat, size: int)
    requires size >= 1 && p < q
    ensures multiset(SortedPage(xs, key, p, size)) + multiset(SortedPage(xs, key, q, size)) <= multiset(xs)
  {
    assert SortedPage(xs, key, p, size) == PageSlice(SortDesc(xs, key), p, size);
    assert SortedPage(xs, key, q, size) == PageSlice(SortDesc(xs, key), q, size);
    SlicesDisjoint(SortDesc(xs, key), p, q, size);
  }

  /** Pages come in key order: for `p < q`, every key on page `p` is at
      least every key on page `q`. */
  lemma PagesInOrder<T>(xs: seq<T>, key: T -> int, p: nat, q: nat, size: int)
    requires size >= 1 && p < q
    ensures forall i, j :: 0 <= i < |SortedPage(xs, key, p, size)| && 0 <= j < |SortedPage(xs, key, q, size)| ==>
      key(SortedPage(xs, key, p, size)[i]) >= key(SortedPage(xs, key, q, size)[j])
  {
    var sorted := SortDesc(xs, key);
    var a, b := SortedPage(xs, key, p, size), SortedPage(xs, key, q, size);
    var lo := SortedPageAt(xs, key, p, size);
    var lo' := SortedPageAt(xs, key, q, size);
    LaterPageStartsAfter(p, q, size);
    forall i, j | 0 <= i < |a| && 0 <= j < |b|
      ensures key(a[i]) >= key(b[j])
    {
      assert a[i] == sorted[lo + i] && b[j] == sorted[lo' + j];
    }
  }

  /** When the first page is large enough, it holds every element. */
  lemma FirstPageHoldsAll<T>(xs: seq<T>, key: T -> int, size: int)
    requires 1 <= size && |xs| <= size
    ensures multiset(SortedPage(xs, key, 0, size)) == multiset(xs)
  {
    assert PageSlice(SortDesc(xs, key), 0, size) == SortDesc(xs, key);
  }

  /** A contiguous slice of a descending list is descending and is contained
      in the list as a multiset. */
  lemma SliceOfSorted<T>(xs: seq<T>, lo: int, hi: int, key: T -> int)
    requires 0 <= lo <= hi <= |xs|
    requires SortedDesc(xs, key)
    ensures SortedDesc(xs[lo..hi], key)
    ensures multiset(xs[lo..hi]) <= multiset(xs)
  {
    assert xs == xs[..lo] + xs[lo..hi] + xs[hi..];
  }

  /** Consecutive pages tile the sorted list: page `p` followed by page `p + 1`
      is exactly the slice of the sorted list covering both, so two
      consecutive pages never overlap and never skip an element. */
  lemma ConsecutivePages<T>(xs: seq<T>, p: nat, size: int)
    requires size >= 1
    requires Offset(p, size) + size + size <= |xs|
    ensures PageSlice(xs, p, size) + PageSlice(xs, p + 1, size) == xs[Offset(p, size)..Offset(p, size) + size + size]
  {
    var a := PageSlice(xs, p, size);
    var b := PageSlice(xs, p + 1, size);
    assert |a| == size && |b| == size;
    assert forall i :: 0 <= i < |a + b| ==> (a + b)[i] == xs[Offset(p, size) + i];
  }

  /** Every offset in the same page window selects the same page: the
      effective offset is `from` rounded down to a multiple of `size`. */
  lemma PageOffsetRoundsDown(from: int, size: int)
    requires from >= 0 && size >= 1
    ensures PageIndex(from, size) == PageIndex(from - from % size, size)
    ensures PageIndex(from, size) * size == from - from % size
  {
    var p := PageIndex(from, size);
    OffsetIsProduct(p, size);
    assert p * size == from - from % size;
    var q := PageIndex(from - from % size, size);
    if q < p {
      LaterPageStartsAfter(q, p, size);
    } else if p < q {
      LaterPageStartsAfter(p, q, size);
    }
  }
}
