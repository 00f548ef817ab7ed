/**
 * Ordering annotations by their begin offset.
 *
 * The annotation index hands out annotations in ascending order of begin;
 * the previous-annotations query sorts its result in descending order of
 * begin with the library's stable sort. The sort is modelled by a stable
 * insertion sort: `SortDescending` is its definition on values and
 * `SortDescendingByBegin` runs it in place on an array.
 */
module BeginOrder {
  import opened Spans
  import opened SpanSequences

  /** Ascending (non-decreasing) by begin: the iteration order of an annotation index. */
  predicate AscendingByBegin(s: seq<Span>) {
    forall i, j :: 0 <= i < j < |s| ==> s[i].begin <= s[j].begin
  }

  /** Descending (non-increasing) by begin: nearest first, for annotations before an anchor. */
  predicate DescendingByBegin(s: seq<Span>) {
    forall i, j :: 0 <= i < j < |s| ==> s[i].begin >= s[j].begin
  }

  /**
   * Inserts `x` into a list sorted descending by begin, after every
   * element whose begin is at least `x.begin`, so that among equal begins
   * the element that came later stays later.
   */
  function InsertDescending(sorted: seq<Span>, x: Span): (r: seq<Span>)
    ensures |r| == |sorted| + 1
  {
    if sorted == [] then [x]
    else if sorted[|sorted| - 1].begin >= x.begin then sorted + [x]
    else InsertDescending(sorted[..|sorted| - 1], x) + [sorted[|sorted| - 1]]
  }

  /** Stable insertion sort, descending by begin. */
  function SortDescending(s: seq<Span>): (r: seq<Span>)
    ensures |r| == |s|
  {
    if s == [] then [] else InsertDescending(SortDescending(s[..|s| - 1]), s[|s| - 1])
  }

  /** The position `j` where the in-place sort stops shifting is where `x` goes. */
  lemma {:induction false} InsertDescendingAt(sorted: seq<Span>, x: Span, j: nat)
    requires j <= |sorted|
    requires forall k :: j <= k < |sorted| ==> sorted[k].begin < x.begin
    requires j > 0 ==> sorted[j - 1].begin >= x.begin
    ensures InsertDescending(sorted, x) == sorted[..j] + [x] + sorted[j..]
  {
    if j < |sorted| {
      var n := |sorted| - 1;
      InsertDescendingAt(sorted[..n], x, j);
      assert sorted[..n][..j] + [x] + sorted[..n][j..] + [sorted[n]] == sorted[..j] + [x] + sorted[j..];
    }
  }

  /** Inserting keeps a lower bound that every element and `x` respect. */
  lemma {:induction false} InsertDescendingBound(sorted: seq<Span>, x: Span, m: int)
    requires forall k :: 0 <= k < |sorted| ==> sorted[k].begin >= m
    requires x.begin >= m
    ensures forall k :: 0 <= k < |sorted| + 1 ==> InsertDescending(sorted, x)[k].begin >= m
  {
    if sorted != [] && sorted[|sorted| - 1].begin < x.begin {
      InsertDescendingBound(sorted[..|sorted| - 1], x, m);
    }
  }

  lemma {:induction false} InsertDescendingSorted(sorted: seq<Span>, x: Span)
    requires DescendingByBegin(sorted)
    ensures DescendingByBegin(InsertDescending(sorted, x))
  {
    if sorted != [] {
      var n := |sorted| - 1;
      if sorted[n].begin < x.begin {
        InsertDescendingSorted(sorted[..n], x);
        InsertDescendingBound(sorted[..n], x, sorted[n].begin);
      }
    }
  }

  lemma {:induction false} InsertDescendingPermutes(sorted: seq<Span>, x: Span)
    ensures multiset(InsertDescending(sorted, x)) == multiset(sorted) + multiset{x}
  {
    if sorted != [] {
      var n := |sorted| - 1;
      assert sorted == sorted[..n] + [sorted[n]];
      if sorted[n].begin < x.begin {
        InsertDescendingPermutes(sorted[..n], x);
      }
    }
  }

  /** The sorted list is descending by begin. */
  lemma {:induction false} SortDescendingSorted(s: seq<Span>)
    ensures DescendingByBegin(SortDescending(s))
  {
    if s != [] {
      var n := |s| - 1;
      SortDescendingSorted(s[..n]);
      InsertDescendingSorted(SortDescending(s[..n]), s[n]);
    }
  }

  /** The sorted list is a permutation of its input. */
  lemma {:induction false} SortDescendingPermutes(s: seq<Span>)
    ensures multiset(SortDescending(s)) == multiset(s)
  {
    if s != [] {
      var n := |s| - 1;
      SortDescendingPermutes(s[..n]);
      InsertDescendingPermutes(SortDescending(s[..n]), s[n]);
      assert s == s[..n] + [s[n]];
      assert multiset(s) == multiset(s[..n]) + multiset{s[n]};
    }
  }

  /** The test "begins at offset `b`". */
  function BeginsAt(b: nat): Span -> bool {
    (c: Span) => c.begin == b
  }

  /** Inserting keeps the relative order of the elements with any one begin. */
  lemma {:induction false} InsertDescendingStable(sorted: seq<Span>, x: Span, b: nat)
    ensures Filter(InsertDescending(sorted, x), BeginsAt(b))
         == Filter(sorted, BeginsAt(b)) + Filter([x], BeginsAt(b))
  {
    if sorted == [] {
      assert Filter([], BeginsAt(b)) == [];
    } else {
      var n := |sorted| - 1;
      var y := sorted[n];
      if y.begin >= x.begin {
        assert InsertDescending(sorted, x) == sorted + [x];
        FilterAppend(sorted, [x], BeginsAt(b));
      } else {
        var shifted := InsertDescending(sorted[..n], x);
        assert InsertDescending(sorted, x) == shifted + [y];
        assert sorted == sorted[..n] + [y];
        InsertDescendingStable(sorted[..n], x, b);
        FilterAppend(shifted, [y], BeginsAt(b));
        FilterAppend(sorted[..n], [y], BeginsAt(b));
        // `x` and `y` begin apart, so at most one of them passes the test
        FilterSnoc([], x, BeginsAt(b));
        FilterSnoc([], y, BeginsAt(b));
        assert Filter([x], BeginsAt(b)) == [] || Filter([y], BeginsAt(b)) == [];
      }
    }
  }

  /**
   * The sort is stable: for every begin offset, the elements with that
   * begin keep their input order.
   */
  lemma {:induction false} SortDescendingStable(s: seq<Span>, b: nat)
    ensures Filter(SortDescending(s), BeginsAt(b)) == Filter(s, BeginsAt(b))
  {
    if s != [] {
      var n := |s| - 1;
      SortDescendingStable(s[..n], b);
      InsertDescendingStable(SortDescending(s[..n]), s[n], b);
      FilterAppend(s[..n], [s[n]], BeginsAt(b));
      assert s == s[..n] + [s[n]];
    }
  }

  /** A list already sorted descending is left as it is. */
  lemma {:induction false} SortDescendingIdentity(s: seq<Span>)
    requires DescendingByBegin(s)
    ensures SortDescending(s) == s
  {
    if s != [] {
      var n := |s| - 1;
      var prefix := s[..n];
      assert DescendingByBegin(prefix);
      SortDescendingIdentity(prefix);
      assert n > 0 ==> prefix[n - 1].begin >= s[n].begin;
      assert InsertDescending(prefix, s[n]) == prefix + [s[n]];
      assert s == prefix + [s[n]];
    }
  }

  /**
   * One step of the in-place sort: shifts the sorted prefix `a[..i]` right
   * until `a[i]` can be placed.
   */
  method InsertIntoPrefix(a: array<Span>, i: nat)
    requires i < a.Length
    modifies a
    ensures a[..i + 1] == InsertDescending(old(a[..i]), old(a[i]))
    ensures a[i + 1..] == old(a[i + 1..])
  {
    ghost var sorted := a[..i];
    ghost var rest := a[i + 1..];
    var x := a[i];
    var j := i;
    while j > 0 && a[j - 1].begin < x.begin
      invariant 0 <= j <= i
      invariant forall k :: 0 <= k < j ==> a[k] == sorted[k]
      invariant forall k :: j < k <= i ==> a[k] == sorted[k - 1]
      invariant forall k :: j <= k < i ==> sorted[k].begin < x.begin
      invariant a[i + 1..] == rest
    {
      a[j] := a[j - 1];
      j := j - 1;
    }
    a[j] := x;
    InsertDescendingAt(sorted, x, j);
    assert a[..i + 1] == sorted[..j] + [x] + sorted[j..];
  }

  /**
   * Sorts `a` in place, descending by begin, stably: the library sort the
   * previous-annotations query applies to its result list.
   */
  method SortDescendingByBegin(a: array<Span>)
    modifies a
    ensures a[..] == SortDescending(old(a[..]))
  {
    ghost var input := a[..];
    var i := 0;
    while i < a.Length
      invariant 0 <= i <= a.Length
      invariant a[..i] == SortDescending(input[..i])
      invariant a[i..] == input[i..]
    {
      InsertIntoPrefix(a, i);
      assert input[..i + 1][..i] == input[..i];
      i := i + 1;
    }
    assert input[..a.Length] == input;
  }
}
