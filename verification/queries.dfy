/**
 * The span queries of the UIMA helper class: given an anchor annotation
 * and the annotations of an index (in the index's iteration order), find
 * the annotations that contain the anchor, that the anchor covers, that
 * precede or follow it (up to a count), that are its closest neighbours,
 * or that lie wholly before it.
 *
 * Each query is a method with the loop of the Java method; its result is
 * tied to a specification function, and the lemmas below state what the
 * specification functions promise.
 */
module UimaFunctions {
  import opened Spans
  import opened SpanSequences
  import opened BeginOrder

  // ---------------------------------------------------------------------
  // Containing and covered annotations
  // ---------------------------------------------------------------------

  /** The annotations of `index` that completely span `anchor`, in index order. */
  function Containing(index: seq<Span>, anchor: Span): seq<Span> {
    Filter(index, c => CompletelyCovers(c, anchor))
  }

  /** The annotations of `index` that `anchor` completely spans, in index order. */
  function Covered(index: seq<Span>, anchor: Span): seq<Span> {
    Filter(index, c => CompletelyCovers(anchor, c))
  }

  /** Scans the index and keeps every annotation that completely spans the anchor. */
  method GetAllContainingAnnotations(anchor: Span, index: seq<Span>) returns (annotations: seq<Span>)
    ensures annotations == Containing(index, anchor)
    ensures forall x :: x in annotations <==> x in index && CompletelyCovers(x, anchor)
    ensures IsSubsequence(annotations, index)
  {
    annotations := [];
    var i := 0;
    while i < |index|
      invariant 0 <= i <= |index|
      invariant annotations == Filter(index[..i], c => CompletelyCovers(c, anchor))
    {
      var current := index[i];
      if CompletelyCovers(current, anchor) {
        annotations := annotations + [current];
      }
      assert index[..i + 1][..i] == index[..i];
      i := i + 1;
    }
    assert index[..i] == index;
    FilterMembers(index, c => CompletelyCovers(c, anchor));
    FilterIsSubsequence(index, c => CompletelyCovers(c, anchor));
  }

  /** Scans the index and keeps every annotation the anchor completely spans. */
  method GetAllCoveredAnnotations(anchor: Span, index: seq<Span>) returns (annotations: seq<Span>)
    ensures annotations == Covered(index, anchor)
    ensures forall x :: x in annotations <==> x in index && CompletelyCovers(anchor, x)
    ensures IsSubsequence(annotations, index)
  {
    annotations := [];
    var i := 0;
    while i < |index|
      invariant 0 <= i <= |index|
      invariant annotations == Filter(index[..i], c => CompletelyCovers(anchor, c))
    {
      var current := index[i];
      if CompletelyCovers(anchor, current) {
        annotations := annotations + [current];
      }
      assert index[..i + 1][..i] == index[..i];
      i := i + 1;
    }
    assert index[..i] == index;
    FilterMembers(index, c => CompletelyCovers(anchor, c));
    FilterIsSubsequence(index, c => CompletelyCovers(anchor, c));
  }

  /**
   * An annotation is both containing and covered exactly when it occupies
   * the anchor's range; in particular the anchor itself, when the index
   * holds it, is returned by both queries.
   */
  lemma ContainingAndCovered(index: seq<Span>, anchor: Span)
    ensures forall x :: x in Containing(index, anchor) && x in Covered(index, anchor)
                    <==> x in index && CoversSameSpan(x, anchor)
    ensures anchor in index ==> anchor in Containing(index, anchor) && anchor in Covered(index, anchor)
  {
    FilterMembers(index, c => CompletelyCovers(c, anchor));
    FilterMembers(index, c => CompletelyCovers(anchor, c));
  }

  /**
   * A larger anchor covers more and is contained in less: the queries are
   * monotone along the coverage relation.
   */
  lemma CoverageMonotone(index: seq<Span>, outer: Span, inner: Span)
    requires CompletelyCovers(outer, inner)
    ensures IsSubsequence(Covered(index, inner), Covered(index, outer))
    ensures IsSubsequence(Containing(index, outer), Containing(index, inner))
  {
    forall c | CompletelyCovers(inner, c) ensures CompletelyCovers(outer, c) {
      CompletelyCoversTransitive(outer, inner, c);
    }
    FilterRefines(index, c => CompletelyCovers(inner, c), c => CompletelyCovers(outer, c));
    forall c | CompletelyCovers(c, outer) ensures CompletelyCovers(c, inner) {
      CompletelyCoversTransitive(c, outer, inner);
    }
    FilterRefines(index, c => CompletelyCovers(c, outer), c => CompletelyCovers(c, inner));
  }

  // ---------------------------------------------------------------------
  // Bounded previous annotations
  // ---------------------------------------------------------------------

  /** The scan for previous annotations stops at the anchor itself or at the first annotation not before it. */
  predicate StopsPreviousScan(c: Span, anchor: Span) {
    Identical(c, anchor) || c.begin >= anchor.begin
  }

  /** The length of the longest prefix of `index` that the previous scan collects. */
  function ScanLength(index: seq<Span>, anchor: Span): (n: nat)
    ensures n <= |index|
    ensures forall k :: 0 <= k < n ==> !StopsPreviousScan(index[k], anchor)
    ensures n < |index| ==> StopsPreviousScan(index[n], anchor)
  {
    if index == [] || StopsPreviousScan(index[0], anchor) then 0
    else 1 + ScanLength(index[1..], anchor)
  }

  /** The annotations the previous scan collects, in index order. */
  function Collected(index: seq<Span>, anchor: Span): seq<Span> {
    index[..ScanLength(index, anchor)]
  }

  /** The previous-annotations result: the last `maxReturn` collected annotations, nearest first. */
  function Previous(index: seq<Span>, anchor: Span, maxReturn: int): seq<Span> {
    SortDescending(KeepLast(Collected(index, anchor), maxReturn))
  }

  /**
   * Every previous annotation begins before the anchor and is not the
   * anchor; the list is nearest first, holds exactly the kept suffix of
   * the collected prefix, and is capped at `maxReturn` when that is
   * positive.
   */
  lemma PreviousProperties(index: seq<Span>, anchor: Span, maxReturn: int)
    ensures forall x :: x in Previous(index, anchor, maxReturn) ==> x.begin < anchor.begin && !Identical(x, anchor)
    ensures DescendingByBegin(Previous(index, anchor, maxReturn))
    ensures multiset(Previous(index, anchor, maxReturn)) == multiset(KeepLast(Collected(index, anchor), maxReturn))
    ensures maxReturn >= 1 ==> |Previous(index, anchor, maxReturn)| <= maxReturn
    ensures maxReturn < 1 ==> multiset(Previous(index, anchor, maxReturn)) == multiset(Collected(index, anchor))
  {
    var kept := KeepLast(Collected(index, anchor), maxReturn);
    SortDescendingSorted(kept);
    SortDescendingPermutes(kept);
    CollectedBeforeAnchor(index, anchor);
    forall x | x in Previous(index, anchor, maxReturn)
      ensures x.begin < anchor.begin && !Identical(x, anchor)
    {
      assert x in multiset(kept);
      assert x in Collected(index, anchor);
    }
  }

  /** Every collected annotation begins before the anchor and is not it. */
  lemma CollectedBeforeAnchor(index: seq<Span>, anchor: Span)
    ensures forall x :: x in Collected(index, anchor) ==> x.begin < anchor.begin && !Identical(x, anchor)
  {
    var collected := Collected(index, anchor);
    forall x | x in collected ensures x.begin < anchor.begin && !Identical(x, anchor) {
      var k :| 0 <= k < |collected| && collected[k] == x;
      assert !StopsPreviousScan(index[k], anchor);
    }
  }

  predicate BeginsBefore(c: Span, anchor: Span) {
    c.begin < anchor.begin
  }

  /** The anchor's identity only ever belongs to annotations with the anchor's begin. */
  predicate IdentityKeepsBegin(index: seq<Span>, anchor: Span) {
    forall k :: 0 <= k < |index| && Identical(index[k], anchor) ==> index[k].begin == anchor.begin
  }

  /**
   * On an index sorted by begin, the scan collects exactly the annotations
   * that begin before the anchor: stopping at the anchor itself loses
   * nothing there.
   */
  lemma CollectedOnSortedIndex(index: seq<Span>, anchor: Span)
    requires AscendingByBegin(index)
    requires IdentityKeepsBegin(index, anchor)
    ensures Collected(index, anchor) == Filter(index, c => BeginsBefore(c, anchor))
  {
    ScanStopsForGood(index, anchor);
    FilterPrefix(index, ScanLength(index, anchor), c => BeginsBefore(c, anchor));
  }

  /** On an index sorted by begin, nothing after the point where the previous scan stops begins before the anchor. */
  lemma ScanStopsForGood(index: seq<Span>, anchor: Span)
    requires AscendingByBegin(index)
    requires IdentityKeepsBegin(index, anchor)
    ensures forall k :: ScanLength(index, anchor) <= k < |index| ==> index[k].begin >= anchor.begin
  {
    var n := ScanLength(index, anchor);
    if n < |index| {
      assert index[n].begin >= anchor.begin;
      forall k | n <= k < |index| ensures index[k].begin >= anchor.begin {
        assert index[k].begin >= index[n].begin;
      }
    }
  }

  /**
   * On an index sorted by begin, any collected annotation that the cap
   * leaves out begins no later than every one returned: the result holds
   * the closest preceding annotations.
   */
  lemma PreviousAreClosest(index: seq<Span>, anchor: Span, maxReturn: int)
    requires AscendingByBegin(index)
    ensures forall x, y ::
              (x in Collected(index, anchor) && x !in Previous(index, anchor, maxReturn) &&
               y in Previous(index, anchor, maxReturn)) ==> x.begin <= y.begin
  {
    var collected := Collected(index, anchor);
    var kept := KeepLast(collected, maxReturn);
    var previous := SortDescending(kept);
    SortDescendingPermutes(kept);
    assert AscendingByBegin(collected);
    forall x, y | x in collected && x !in previous && y in previous
      ensures x.begin <= y.begin
    {
      assert x !in multiset(kept) && y in multiset(kept);
      SuffixHoldsLatest(collected, |collected| - |kept|, x, y);
    }
  }

  /** In an ascending list, what lies only before a suffix begins no later than what is in it. */
  lemma SuffixHoldsLatest(s: seq<Span>, first: nat, x: Span, y: Span)
    requires AscendingByBegin(s) && first <= |s|
    requires x in s && x !in s[first..] && y in s[first..]
    ensures x.begin <= y.begin
  {
    var i :| 0 <= i < |s| && s[i] == x;
    var j :| 0 <= j < |s| - first && s[first..][j] == y;
    assert s[first + j] == y;
  }

  /**
   * Collects the annotations before the anchor up to the first that is not
   * before it, keeps the last `maxReturn` of them (all when `maxReturn < 1`)
   * and sorts them nearest first.
   */
  method GetPreviousAnnotations(anchor: Span, maxReturn: int, index: seq<Span>) returns (previousList: seq<Span>)
    ensures previousList == Previous(index, anchor, maxReturn)
    ensures forall x :: x in previousList ==> x.begin < anchor.begin && !Identical(x, anchor)
    ensures DescendingByBegin(previousList)
    ensures maxReturn >= 1 ==> |previousList| <= maxReturn
    ensures maxReturn < 1 ==> multiset(previousList) == multiset(Collected(index, anchor))
  {
    // collect the annotations before the anchor, stopping at the first that is not
    var annotations: seq<Span> := [];
    var i := 0;
    while i < |index|
      invariant 0 <= i <= |index|
      invariant annotations == index[..i]
      invariant forall k :: 0 <= k < i ==> !StopsPreviousScan(index[k], anchor)
    {
      var current := index[i];
      if Identical(current, anchor) || current.begin >= anchor.begin {
        break;
      }
      annotations := annotations + [current];
      i := i + 1;
    }
    assert i < |index| ==> StopsPreviousScan(index[i], anchor);
    assert ScanLength(index, anchor) == i;
    assert annotations == Collected(index, anchor);

    // keep the last maxReturn of them, then sort those nearest first
    var kept: seq<Span>;
    if maxReturn < 1 {
      kept := annotations;
    } else {
      var first := if |annotations| - maxReturn > 0 then |annotations| - maxReturn else 0;
      kept := annotations[first..];
    }
    assert kept == KeepLast(Collected(index, anchor), maxReturn);
    var list := new Span[|kept|](k requires 0 <= k < |kept| => kept[k]);
    assert list[..] == kept;
    SortDescendingByBegin(list);
    previousList := list[..];
    PreviousProperties(index, anchor, maxReturn);
  }

  // ---------------------------------------------------------------------
  // Bounded next annotations
  // ---------------------------------------------------------------------

  /** An annotation the next scan accepts: not the anchor, and beginning after it. */
  predicate FollowsAnchor(c: Span, anchor: Span) {
    !Identical(c, anchor) && c.begin > anchor.begin
  }

  /** Every annotation the next scan accepts, in index order. */
  function Accepted(index: seq<Span>, anchor: Span): seq<Span> {
    Filter(index, c => FollowsAnchor(c, anchor))
  }

  /** The next-annotations result: the first `maxReturn` accepted annotations, in index order. */
  function Next(index: seq<Span>, anchor: Span, maxReturn: int): seq<Span> {
    Take(Accepted(index, anchor), maxReturn)
  }

  /**
   * Every next annotation begins after the anchor and is not the anchor;
   * the result is a sub-sequence of the index, and it is capped at
   * `maxReturn` when that is positive.
   */
  lemma NextProperties(index: seq<Span>, anchor: Span, maxReturn: int)
    ensures forall x :: x in Next(index, anchor, maxReturn) ==> x.begin > anchor.begin && !Identical(x, anchor)
    ensures IsSubsequence(Next(index, anchor, maxReturn), index)
    ensures maxReturn >= 1 ==> |Next(index, anchor, maxReturn)| <= maxReturn
    ensures maxReturn < 1 ==> Next(index, anchor, maxReturn) == Accepted(index, anchor)
  {
    var accepted := Accepted(index, anchor);
    FilterMembers(index, c => FollowsAnchor(c, anchor));
    FilterIsSubsequence(index, c => FollowsAnchor(c, anchor));
    var r := Next(index, anchor, maxReturn);
    assert accepted == r + accepted[|r|..];
    forall x | x in r ensures x in accepted {
      var k :| 0 <= k < |r| && r[k] == x;
      assert accepted[k] == x;
    }
    TakeIsSubsequence(r, accepted[|r|..], index);
  }

  /** A prefix of a sub-sequence is a sub-sequence. */
  lemma {:induction false} TakeIsSubsequence(r: seq<Span>, rest: seq<Span>, s: seq<Span>)
    requires IsSubsequence(r + rest, s)
    ensures IsSubsequence(r, s)
    decreases |rest|
  {
    if rest == [] {
      assert r + rest == r;
    } else {
      var n := |rest| - 1;
      SubsequenceDropLast(r + rest, s);
      assert (r + rest)[..|r + rest| - 1] == r + rest[..n];
      TakeIsSubsequence(r, rest[..n], s);
    }
  }

  /**
   * On an index sorted by begin, the next annotations come nearest first,
   * and every accepted annotation left out by the cap begins no earlier
   * than any returned one.
   */
  lemma NextOnSortedIndex(index: seq<Span>, anchor: Span, maxReturn: int)
    requires AscendingByBegin(index)
    ensures AscendingByBegin(Next(index, anchor, maxReturn))
    ensures forall i, j :: 0 <= i < |Next(index, anchor, maxReturn)| <= j < |Accepted(index, anchor)|
                        ==> Next(index, anchor, maxReturn)[i].begin <= Accepted(index, anchor)[j].begin
  {
    FilterAscending(index, c => FollowsAnchor(c, anchor));
  }

  /** Filtering keeps an ascending order. */
  lemma {:induction false} FilterAscending(s: seq<Span>, p: Span -> bool)
    requires AscendingByBegin(s)
    ensures AscendingByBegin(Filter(s, p))
  {
    if s != [] {
      var n := |s| - 1;
      FilterAscending(s[..n], p);
      FilterMembers(s[..n], p);
      if p(s[n]) {
        var f := Filter(s[..n], p);
        forall k | 0 <= k < |f| ensures f[k].begin <= s[n].begin {
          assert f[k] in s[..n];
        }
      }
    }
  }

  /**
   * Keeps the annotations that begin after the anchor, in index order,
   * stopping once `maxReturn` are kept (never when `maxReturn < 1`).
   */
  method GetNextAnnotations(anchor: Span, maxReturn: int, index: seq<Span>) returns (annotations: seq<Span>)
    ensures annotations == Next(index, anchor, maxReturn)
    ensures forall x :: x in annotations ==> x.begin > anchor.begin && !Identical(x, anchor)
    ensures maxReturn >= 1 ==> |annotations| <= maxReturn
    ensures maxReturn < 1 ==> annotations == Accepted(index, anchor)
  {
    annotations := [];
    var numAdded := 0;
    var i := 0;
    while i < |index|
      invariant 0 <= i <= |index|
      invariant annotations == Filter(index[..i], c => FollowsAnchor(c, anchor))
      invariant numAdded == |annotations|
      invariant maxReturn > 0 ==> numAdded <= maxReturn
    {
      var current := index[i];
      assert index[..i + 1][..i] == index[..i];
      if Identical(current, anchor) || current.begin <= anchor.begin {
        i := i + 1;
        continue;
      }
      if maxReturn > 0 && numAdded == maxReturn {
        break;
      }
      annotations := annotations + [current];
      numAdded := numAdded + 1;
      i := i + 1;
    }
    assert index == index[..i] + index[i..];
    FilterAppend(index[..i], index[i..], c => FollowsAnchor(c, anchor));
    NextProperties(index, anchor, maxReturn);
  }

  // ---------------------------------------------------------------------
  // Closest annotations, with ties
  // ---------------------------------------------------------------------

  /** Which neighbours a closest query looks for. */
  datatype Direction = Following | Preceding

  /** The initial closest distance; a distance above it never wins. */
  const MaxSpan := 10000

  /**
   * The signed distance from the anchor: from its end to the candidate's
   * begin when looking forward, from the candidate's end to its begin when
   * looking back. Negative when the candidate overlaps or lies on the
   * other side.
   */
  function Gap(dir: Direction, anchor: Span, c: Span): int {
    match dir
    case Following => c.begin - anchor.end
    case Preceding => anchor.begin - c.end
  }

  /** The distance the closest queries compare: a negative gap becomes `MaxSpan + 1`. */
  function Diff(dir: Direction, anchor: Span, c: Span): (d: int)
    ensures d >= 0
    ensures d <= MaxSpan <==> 0 <= Gap(dir, anchor, c) <= MaxSpan
    ensures d <= MaxSpan ==> d == Gap(dir, anchor, c)
  {
    var g := Gap(dir, anchor, c);
    if g < 0 then MaxSpan + 1 else g
  }

  /** A candidate neighbour: neither the anchor itself nor an annotation with the anchor's range. */
  predicate Eligible(c: Span, anchor: Span) {
    !Identical(c, anchor) && !CoversSameSpan(c, anchor)
  }

  /**
   * The closest distance after scanning `candidates`: the least distance of
   * an eligible candidate, or `MaxSpan` when none is smaller.
   */
  function ClosestDiff(dir: Direction, anchor: Span, candidates: seq<Span>): (m: int)
    ensures 0 <= m <= MaxSpan
    ensures forall k :: 0 <= k < |candidates| && Eligible(candidates[k], anchor) ==> m <= Diff(dir, anchor, candidates[k])
    ensures m < MaxSpan ==> exists k :: 0 <= k < |candidates| && Eligible(candidates[k], anchor) && Diff(dir, anchor, candidates[k]) == m
  {
    if candidates == [] then MaxSpan
    else
      var n := |candidates| - 1;
      var m := ClosestDiff(dir, anchor, candidates[..n]);
      var c := candidates[n];
      if Eligible(c, anchor) && Diff(dir, anchor, c) < m then Diff(dir, anchor, c) else m
  }

  /** The eligible candidates at distance `m`, in input order. */
  function AtDistance(dir: Direction, anchor: Span, candidates: seq<Span>, m: int): seq<Span> {
    Filter(candidates, c => Eligible(c, anchor) && Diff(dir, anchor, c) == m)
  }

  /** The closest-annotations result: every eligible candidate at the closest distance. */
  function Closest(dir: Direction, anchor: Span, candidates: seq<Span>): seq<Span> {
    AtDistance(dir, anchor, candidates, ClosestDiff(dir, anchor, candidates))
  }

  /**
   * The plateau: the winners are eligible, all lie at one gap between 0 and
   * `MaxSpan`, every other eligible candidate overlaps (negative gap) or
   * lies strictly farther, the result is empty exactly when no eligible
   * candidate lies within `MaxSpan`, and winners keep their input order.
   */
  lemma ClosestPlateau(dir: Direction, anchor: Span, candidates: seq<Span>)
    ensures forall c :: c in Closest(dir, anchor, candidates) ==>
              !Identical(c, anchor) && !CoversSameSpan(c, anchor)
    ensures forall c :: c in Closest(dir, anchor, candidates) ==> 0 <= Gap(dir, anchor, c) <= MaxSpan
    ensures forall c, w :: c in Closest(dir, anchor, candidates) && w in Closest(dir, anchor, candidates) ==>
              Gap(dir, anchor, c) == Gap(dir, anchor, w)
    ensures forall c, w ::
              (c in candidates && Eligible(c, anchor) && c !in Closest(dir, anchor, candidates) &&
               w in Closest(dir, anchor, candidates)) ==>
              Gap(dir, anchor, c) < 0 || Gap(dir, anchor, c) > Gap(dir, anchor, w)
    ensures Closest(dir, anchor, candidates) == [] <==>
              forall c :: c in candidates && Eligible(c, anchor) ==> !(0 <= Gap(dir, anchor, c) <= MaxSpan)
    ensures IsSubsequence(Closest(dir, anchor, candidates), candidates)
  {
    ClosestWinners(dir, anchor, candidates);
    ClosestBeatsOthers(dir, anchor, candidates);
    ClosestEmptyIff(dir, anchor, candidates);
  }

  /** The winners are eligible, lie at the closest distance, and keep input order. */
  lemma ClosestWinners(dir: Direction, anchor: Span, candidates: seq<Span>)
    ensures forall c :: c in Closest(dir, anchor, candidates) ==>
              c in candidates && Eligible(c, anchor) && Gap(dir, anchor, c) == ClosestDiff(dir, anchor, candidates)
    ensures IsSubsequence(Closest(dir, anchor, candidates), candidates)
  {
    var m := ClosestDiff(dir, anchor, candidates);
    FilterMembers(candidates, c => Eligible(c, anchor) && Diff(dir, anchor, c) == m);
    FilterIsSubsequence(candidates, c => Eligible(c, anchor) && Diff(dir, anchor, c) == m);
  }

  /** An eligible candidate left out overlaps or lies strictly farther than every winner. */
  lemma ClosestBeatsOthers(dir: Direction, anchor: Span, candidates: seq<Span>)
    ensures forall c, w ::
              (c in candidates && Eligible(c, anchor) && c !in Closest(dir, anchor, candidates) &&
               w in Closest(dir, anchor, candidates)) ==>
              Gap(dir, anchor, c) < 0 || Gap(dir, anchor, c) > Gap(dir, anchor, w)
  {
    var m := ClosestDiff(dir, anchor, candidates);
    ClosestWinners(dir, anchor, candidates);
    FilterMembers(candidates, c => Eligible(c, anchor) && Diff(dir, anchor, c) == m);
    forall c, w | c in candidates && Eligible(c, anchor) && c !in Closest(dir, anchor, candidates) &&
                  w in Closest(dir, anchor, candidates)
      ensures Gap(dir, anchor, c) < 0 || Gap(dir, anchor, c) > Gap(dir, anchor, w)
    {
      var k :| 0 <= k < |candidates| && candidates[k] == c;
      assert m <= Diff(dir, anchor, c) != m;
    }
  }

  /** The result is empty exactly when no eligible candidate lies within `MaxSpan`. */
  lemma ClosestEmptyIff(dir: Direction, anchor: Span, candidates: seq<Span>)
    ensures Closest(dir, anchor, candidates) == [] <==>
              forall c :: c in candidates && Eligible(c, anchor) ==> !(0 <= Gap(dir, anchor, c) <= MaxSpan)
  {
    var m := ClosestDiff(dir, anchor, candidates);
    var r := Closest(dir, anchor, candidates);
    ClosestWinners(dir, anchor, candidates);
    if exists c :: c in candidates && Eligible(c, anchor) && 0 <= Gap(dir, anchor, c) <= MaxSpan {
      var c :| c in candidates && Eligible(c, anchor) && 0 <= Gap(dir, anchor, c) <= MaxSpan;
      FilterMembers(candidates, c => Eligible(c, anchor) && Diff(dir, anchor, c) == m);
      if m < MaxSpan {
        var k :| 0 <= k < |candidates| && Eligible(candidates[k], anchor) && Diff(dir, anchor, candidates[k]) == m;
        assert candidates[k] in r;
      } else {
        var k :| 0 <= k < |candidates| && candidates[k] == c;
        assert c in r;
      }
    } else if r != [] {
      assert r[0] in r;
    }
  }

  /** Keeps the eligible annotations whose begin is nearest after the anchor's end. */
  method GetNextClosestAnnotations(anchor: Span, annotations: seq<Span>) returns (nextAnnotations: seq<Span>)
    ensures nextAnnotations == Closest(Following, anchor, annotations)
  {
    nextAnnotations := [];
    var closestSpan, diff := MaxSpan, 0;
    var i := 0;
    while i < |annotations|
      invariant 0 <= i <= |annotations|
      invariant closestSpan == ClosestDiff(Following, anchor, annotations[..i])
      invariant nextAnnotations == AtDistance(Following, anchor, annotations[..i], closestSpan)
    {
      var nextAnnotation := annotations[i];
      assert annotations[..i + 1][..i] == annotations[..i];
      ClosestStep(Following, anchor, annotations[..i], nextAnnotation);
      assert annotations[..i + 1] == annotations[..i] + [nextAnnotation];
      if Identical(nextAnnotation, anchor) ||
         (nextAnnotation.begin == anchor.begin && nextAnnotation.end == anchor.end) {
        i := i + 1;
        continue;
      }
      diff := nextAnnotation.begin - anchor.end;
      if diff < 0 {
        diff := MaxSpan + 1;
      }
      assert Eligible(nextAnnotation, anchor) && diff == Diff(Following, anchor, nextAnnotation);
      if diff < closestSpan {
        nextAnnotations := [nextAnnotation];
        closestSpan := diff;
      } else if diff == closestSpan {
        nextAnnotations := nextAnnotations + [nextAnnotation];
      }
      i := i + 1;
    }
    assert annotations[..i] == annotations;
  }

  /** Keeps the eligible annotations whose end is nearest before the anchor's begin. */
  method GetPreviousClosestAnnotations(anchor: Span, annotations: seq<Span>) returns (prevAnnotations: seq<Span>)
    ensures prevAnnotations == Closest(Preceding, anchor, annotations)
  {
    prevAnnotations := [];
    var closestSpan, diff := 10000, 0;
    var i := 0;
    while i < |annotations|
      invariant 0 <= i <= |annotations|
      invariant closestSpan == ClosestDiff(Preceding, anchor, annotations[..i])
      invariant prevAnnotations == AtDistance(Preceding, anchor, annotations[..i], closestSpan)
    {
      var prevAnnotation := annotations[i];
      assert annotations[..i + 1][..i] == annotations[..i];
      ClosestStep(Preceding, anchor, annotations[..i], prevAnnotation);
      assert annotations[..i + 1] == annotations[..i] + [prevAnnotation];
      if Identical(prevAnnotation, anchor) || CoversSameSpan(prevAnnotation, anchor) {
        i := i + 1;
        continue;
      }
      diff := anchor.begin - prevAnnotation.end;
      if diff < 0 {
        diff := 10001;
      }
      assert Eligible(prevAnnotation, anchor) && diff == Diff(Preceding, anchor, prevAnnotation);
      if diff < closestSpan {
        prevAnnotations := [prevAnnotation];
        closestSpan := diff;
      } else if diff == closestSpan {
        prevAnnotations := prevAnnotations + [prevAnnotation];
      }
      i := i + 1;
    }
    assert annotations[..i] == annotations;
  }

  /**
   * One step of a closest scan: a strictly closer candidate starts a new
   * plateau, an equally close one joins it, and anything else leaves it.
   */
  lemma ClosestStep(dir: Direction, anchor: Span, seen: seq<Span>, c: Span)
    ensures var m, m' := ClosestDiff(dir, anchor, seen), ClosestDiff(dir, anchor, seen + [c]);
      && (!Eligible(c, anchor) || Diff(dir, anchor, c) > m ==>
            m' == m && AtDistance(dir, anchor, seen + [c], m') == AtDistance(dir, anchor, seen, m))
      && (Eligible(c, anchor) && Diff(dir, anchor, c) == m ==>
            m' == m && AtDistance(dir, anchor, seen + [c], m') == AtDistance(dir, anchor, seen, m) + [c])
      && (Eligible(c, anchor) && Diff(dir, anchor, c) < m ==>
            m' == Diff(dir, anchor, c) && AtDistance(dir, anchor, seen + [c], m') == [c])
  {
    var m := ClosestDiff(dir, anchor, seen);
    assert (seen + [c])[..|seen|] == seen;
    var d := Diff(dir, anchor, c);
    FilterSnoc(seen, c, x => Eligible(x, anchor) && Diff(dir, anchor, x) == m);
    FilterSnoc(seen, c, x => Eligible(x, anchor) && Diff(dir, anchor, x) == d);
    if Eligible(c, anchor) && d < m {
      forall x | x in seen ensures !(Eligible(x, anchor) && Diff(dir, anchor, x) == d) {
        var k :| 0 <= k < |seen| && seen[k] == x;
      }
      FilterNone(seen, x => Eligible(x, anchor) && Diff(dir, anchor, x) == d);
    }
  }

  // ---------------------------------------------------------------------
  // All previous annotations
  // ---------------------------------------------------------------------

  /** An eligible candidate that ends at or before the anchor begins. */
  predicate EndsBeforeAnchor(c: Span, anchor: Span) {
    Eligible(c, anchor) && anchor.begin - c.end >= 0
  }

  /** Every eligible candidate that ends at or before the anchor begins, in input order. */
  function AllPrevious(anchor: Span, annotations: seq<Span>): seq<Span> {
    Filter(annotations, c => EndsBeforeAnchor(c, anchor))
  }

  /** Keeps every eligible annotation that ends at or before the anchor's begin. */
  method GetAllPreviousAnnotations(anchor: Span, annotations: seq<Span>) returns (prevAnnotations: seq<Span>)
    ensures prevAnnotations == AllPrevious(anchor, annotations)
    ensures forall x :: x in prevAnnotations <==>
              x in annotations && !Identical(x, anchor) && !CoversSameSpan(x, anchor) && x.end <= anchor.begin
    ensures IsSubsequence(prevAnnotations, annotations)
  {
    prevAnnotations := [];
    var i := 0;
    while i < |annotations|
      invariant 0 <= i <= |annotations|
      invariant prevAnnotations == Filter(annotations[..i], c => EndsBeforeAnchor(c, anchor))
    {
      var prevAnnotation := annotations[i];
      assert annotations[..i + 1][..i] == annotations[..i];
      if Identical(prevAnnotation, anchor) || CoversSameSpan(prevAnnotation, anchor) {
        i := i + 1;
        continue;
      }
      if anchor.begin - prevAnnotation.end >= 0 {
        prevAnnotations := prevAnnotations + [prevAnnotation];
      }
      i := i + 1;
    }
    assert annotations[..i] == annotations;
    FilterMembers(annotations, c => EndsBeforeAnchor(c, anchor));
    FilterIsSubsequence(annotations, c => EndsBeforeAnchor(c, anchor));
  }

  /** The closest preceding annotations are among all the previous ones, in the same order. */
  lemma PreviousClosestAmongAllPrevious(anchor: Span, annotations: seq<Span>)
    ensures IsSubsequence(Closest(Preceding, anchor, annotations), AllPrevious(anchor, annotations))
  {
    var m := ClosestDiff(Preceding, anchor, annotations);
    FilterRefines(annotations, c => Eligible(c, anchor) && Diff(Preceding, anchor, c) == m,
                               c => EndsBeforeAnchor(c, anchor));
  }

  // ---------------------------------------------------------------------
  // Worked examples
  // ---------------------------------------------------------------------

  /** Annotations beginning at 1, 3, 5, 7 and 9: the two before an anchor at 10 come nearest first. */
  lemma PreviousExample()
    ensures Previous([Span(1, 1, 2), Span(3, 3, 4), Span(5, 5, 6), Span(7, 7, 8), Span(9, 9, 10)], Span(10, 10, 11), 2)
         == [Span(9, 9, 10), Span(7, 7, 8)]
  {
    var index := [Span(1, 1, 2), Span(3, 3, 4), Span(5, 5, 6), Span(7, 7, 8), Span(9, 9, 10)];
    var anchor := Span(10, 10, 11);
    assert ScanLength(index[4..], anchor) == 1;
    assert ScanLength(index[3..], anchor) == 2;
    assert ScanLength(index[2..], anchor) == 3;
    assert ScanLength(index[1..], anchor) == 4;
    assert ScanLength(index, anchor) == 5;
    assert index[..5] == index;
    var kept := KeepLast(index, 2);
    assert kept == [Span(7, 7, 8), Span(9, 9, 10)];
    assert kept[..1] == [Span(7, 7, 8)] && [Span(7, 7, 8)][..0] == [];
    assert SortDescending([Span(7, 7, 8)]) == [Span(7, 7, 8)];
  }

  /** The same annotations: the three after an anchor at 0 come in index order. */
  lemma NextExample()
    ensures Next([Span(1, 1, 2), Span(3, 3, 4), Span(5, 5, 6), Span(7, 7, 8), Span(9, 9, 10)], Span(0, 0, 1), 3)
         == [Span(1, 1, 2), Span(3, 3, 4), Span(5, 5, 6)]
  {
    var index := [Span(1, 1, 2), Span(3, 3, 4), Span(5, 5, 6), Span(7, 7, 8), Span(9, 9, 10)];
    FilterKeepsAll(index, c => FollowsAnchor(c, Span(0, 0, 1)));
  }

  /** Two annotations beginning at 12 tie as the closest after an anchor ending at 10; one at 20 loses. */
  lemma ClosestExample()
    ensures Closest(Following, Span(0, 5, 10), [Span(1, 12, 15), Span(2, 12, 30), Span(3, 20, 25)])
         == [Span(1, 12, 15), Span(2, 12, 30)]
  {
    var anchor := Span(0, 5, 10);
    var c1, c2, c3 := Span(1, 12, 15), Span(2, 12, 30), Span(3, 20, 25);
    assert AtDistance(Following, anchor, [], ClosestDiff(Following, anchor, [])) == [];
    ClosestStep(Following, anchor, [], c1);
    assert [] + [c1] == [c1];
    ClosestStep(Following, anchor, [c1], c2);
    assert [c1] + [c2] == [c1, c2];
    ClosestStep(Following, anchor, [c1, c2], c3);
    assert [c1, c2] + [c3] == [c1, c2, c3];
  }
}
