# Span queries of the UIMA helper functions

A Dafny model of the span-query helpers of `UimaFunctions`, a utility class for
UIMA annotation engines. An annotation is an object with a `begin` and an `end`
offset into the document text. Given an anchor annotation, the helpers answer
positional questions over a collection of annotations:

- whether one annotation completely spans another, or occupies the same range;
- the document text strictly between two annotations;
- which annotations of an index contain the anchor, or are covered by it;
- the nearest `maxReturn` annotations before the anchor (nearest first) or
  after it (in index order);
- the closest annotations after or before the anchor, all of them when several
  tie at the same distance (the "plateau");
- every annotation that ends at or before the anchor begins.

An annotation is the datatype `Span(id, begin, end)`. The `id` stands for object
identity, so the model can tell Java's reference comparison
`current == annotation` (`Identical`) apart from range equality
(`CoversSameSpan`). An annotation index becomes a `seq<Span>` in its iteration
order. A Java `ArrayList` that a loop fills becomes a `seq<Span>` that the loop
reassigns. Clearing the list and adding one element becomes assigning `[c]`.
The sort of the previous-annotations result runs in place on an `array<Span>`.

Files:

- `spans.dfy` (module `Spans`): the annotation, the two range relations and the
  text between two annotations.
- `sequences.dfy` (module `SpanSequences`): `Filter`, sub-sequences, and the
  prefix and suffix caps `Take` and `KeepLast`.
- `ordering.dfy` (module `BeginOrder`): ordering by begin, and the stable sort,
  in descending order, used by the previous-annotations query.
- `queries.dfy` (module `UimaFunctions`): the queries. Each is a method with the
  source's loop. The method is proved equal to a specification function, and
  lemmas state what that function promises.

Behaviour worth knowing, as the code has it:

- The previous scan stops at the first annotation that is the anchor or that
  does not begin before it. It relies on the index being sorted by begin.
  `CollectedOnSortedIndex` shows that on a sorted index the scan collects
  exactly the annotations that begin before the anchor. It also requires
  `IdentityKeepsBegin`: every index entry that is the anchor (same `id`) has
  the anchor's begin. That holds for every real input, since one object has
  one begin; it is only needed because identity is modelled by an `id`.
- The next query keeps annotations with `begin > anchor.begin`. The doc
  comments at `UimaFunctions.java:318-320` and `:339-341` say "less than the
  begin index"; the code is modelled.
- The closest queries start from a closest distance of 10000. A negative gap
  becomes 10001. So a real gap above 10000 never wins, and a gap of exactly
  10000 wins by tying the initial value (`Diff`, `ClosestPlateau`).
- `getNextClosestAnnotations` spells out the same-range test inline, while
  `getPreviousClosestAnnotations` calls `coversSameSpan`. The two tests mean
  the same thing and are modelled as written.
- The containing and covered queries return the anchor itself when the index
  holds it, because coverage is reflexive (`ContainingAndCovered`).

## Model

| member | source | states |
|---|---|---|
| `Spans.CoversSameSpan` | UimaFunctions.java:460-465 | two annotations occupy the same range exactly when each completely covers the other |
| `Spans.CompletelyCovers` | UimaFunctions.java:125-130 | true exactly when `first.begin <= second.begin` and `first.end >= second.end` |
| `Spans.CompletelyCoversReflexive` | UimaFunctions.java:125-130 | every annotation completely covers itself |
| `Spans.CompletelyCoversTransitive` | UimaFunctions.java:125-130 | complete coverage is transitive |
| `Spans.TextInbetween` | UimaFunctions.java:105-120 | the result is non-empty exactly when both annotations are present, the first ends before the second begins, and they begin apart; then it has length `second.begin - first.end` and holds the document characters from `first.end` on |
| `Spans.TextInbetweenFillsGap` | UimaFunctions.java:105-120 | for well-formed annotations, first's text, the gap and second's text concatenate to the text from first's begin to second's end |
| `Spans.TextInbetweenOneWay` | UimaFunctions.java:111-113 | when the text between two well-formed annotations is non-empty, the text between them in the other order is empty |
| `Spans.EqualBeginGuardRedundant` | UimaFunctions.java:115-117 | for a well-formed first annotation, the equal-begin guard never decides once the order guard has passed |
| `Spans.TextInbetweenExample` | UimaFunctions.java:105-120 | between [0,5) and [8,12) of "0123456789ABC" lies "567"; overlapping [0,10) and [5,15) give "" |
| `BeginOrder.SortDescending` | UimaFunctions.java:302-307 | the outcome of the library sort with the descending-by-begin comparator, as a stable insertion sort; it keeps the length, and the lemmas below prove it sorted, a permutation and stable |
| `BeginOrder.SortDescendingSorted` | UimaFunctions.java:302-307 | the sorted result is non-increasing by begin |
| `BeginOrder.SortDescendingPermutes` | UimaFunctions.java:302-307 | the sorted result is a permutation of its input |
| `BeginOrder.SortDescendingStable` | UimaFunctions.java:302-307 | the sort is stable: for each begin offset, the annotations with that begin keep their input order |
| `BeginOrder.SortDescendingIdentity` | UimaFunctions.java:302-307 | a list already in descending order of begin is left unchanged |
| `BeginOrder.SortDescendingByBegin` | UimaFunctions.java:302-307 | sorting the array in place leaves exactly the stable descending sort of its old contents |
| `UimaFunctions.GetAllContainingAnnotations` | UimaFunctions.java:170-182 | the result is the index filtered to the annotations that completely cover the anchor: an annotation occurs in it exactly when it is in the index and covers the anchor, in index order |
| `UimaFunctions.GetAllCoveredAnnotations` | UimaFunctions.java:223-235 | the result is the index filtered to the annotations the anchor completely covers: membership exactly by that test, in index order |
| `UimaFunctions.ContainingAndCovered` | UimaFunctions.java:136-149 | an annotation is both containing and covered exactly when it is in the index with the anchor's range; the anchor, when in the index, is returned by both |
| `UimaFunctions.CoverageMonotone` | UimaFunctions.java:188-201 | if `outer` covers `inner`, everything covered by `inner` is covered by `outer`, and everything containing `outer` contains `inner`, as sub-sequences |
| `UimaFunctions.ScanLength` | UimaFunctions.java:286-292 | the previous scan collects the longest prefix of the index with no annotation that is the anchor or begins at or after it |
| `UimaFunctions.CollectedBeforeAnchor` | UimaFunctions.java:286-292 | every collected annotation begins before the anchor and is not it |
| `UimaFunctions.PreviousProperties` | UimaFunctions.java:280-309 | every previous annotation begins before the anchor and is not it; the list is non-increasing by begin; it is a permutation of the last `maxReturn` collected annotations; its size is at most `maxReturn` when that is at least 1, and it is the whole collected prefix otherwise |
| `UimaFunctions.CollectedOnSortedIndex` | UimaFunctions.java:286-292 | on an index sorted by begin, in which every entry identical to the anchor has the anchor's begin (`IdentityKeepsBegin`), the scan collects exactly the annotations beginning before the anchor |
| `UimaFunctions.PreviousAreClosest` | UimaFunctions.java:294-300 | on an index sorted by begin, a collected annotation that the cap leaves out begins no later than any returned one |
| `UimaFunctions.GetPreviousAnnotations` | UimaFunctions.java:280-309 | the result is the stable descending sort of the last `maxReturn` collected annotations, with the properties above |
| `UimaFunctions.NextProperties` | UimaFunctions.java:362-372 | every next annotation begins after the anchor and is not it; the result is a sub-sequence of the index; at most `maxReturn` when that is at least 1, otherwise every accepted annotation |
| `UimaFunctions.NextOnSortedIndex` | UimaFunctions.java:354-373 | on an index sorted by begin, the result is ascending and every accepted annotation left out by the cap begins no earlier than any returned one |
| `UimaFunctions.GetNextAnnotations` | UimaFunctions.java:354-373 | the result is the first `maxReturn` annotations (all of them when `maxReturn < 1`) of the index filtered to those that are not the anchor and begin after it |
| `UimaFunctions.Diff` | UimaFunctions.java:391-393 | the compared distance is at most 10000 exactly when the real gap is in [0, 10000], and then it equals the gap |
| `UimaFunctions.ClosestDiff` | UimaFunctions.java:385-405 | the final closest distance is in [0, 10000], no eligible candidate's distance is below it, and when it is below 10000 some eligible candidate attains it |
| `UimaFunctions.ClosestStep` | UimaFunctions.java:395-404 | a strictly closer candidate replaces the winners by itself, an equally close one is appended, and any other candidate leaves the winners unchanged |
| `UimaFunctions.ClosestPlateau` | UimaFunctions.java:379-407 | winners are neither the anchor nor of its range; all share one gap in [0, 10000]; every other eligible candidate has a negative or strictly larger gap; the result is empty exactly when no eligible candidate has a gap in [0, 10000]; winners keep input order |
| `UimaFunctions.GetNextClosestAnnotations` | UimaFunctions.java:379-407 | the result is the plateau of eligible candidates at the closest forward distance, measured from the anchor's end to the candidate's begin |
| `UimaFunctions.GetPreviousClosestAnnotations` | UimaFunctions.java:433-458 | the result is the plateau of eligible candidates at the closest backward distance, measured from the candidate's end to the anchor's begin |
| `UimaFunctions.GetAllPreviousAnnotations` | UimaFunctions.java:412-427 | an annotation is returned exactly when it is a candidate, is not the anchor, does not have the anchor's range, and ends at or before the anchor begins; input order is kept |
| `UimaFunctions.PreviousClosestAmongAllPrevious` | UimaFunctions.java:433-458 | the closest preceding annotations are a sub-sequence of all previous annotations |
| `UimaFunctions.PreviousExample` | UimaFunctions.java:280-309 | with annotations beginning at 1, 3, 5, 7, 9 and an anchor at 10, the two previous ones are those at 9 and 7, in that order |
| `UimaFunctions.NextExample` | UimaFunctions.java:354-373 | with the same annotations and an anchor at 0, the three next ones are those at 1, 3 and 5 |
| `UimaFunctions.ClosestExample` | UimaFunctions.java:379-407 | with an anchor ending at 10 and candidates beginning at 12, 12 and 20, the two at 12 tie as the closest next annotations |

## Left out

- `getDocumentPath` and `getFileName` (UimaFunctions.java:29-67): they parse a URL, read `fname.txt` from disk and print exceptions. This is I/O around the document source.
- `copyFSIteratorToCollection` and `getAllAnnotataionsOfType` (UimaFunctions.java:74-100): adapters over the UIMA index and iterator. Every query instead takes the index as a `seq<Span>` in its iteration order.
- The overloads taking a UIMA `Type` or an `int` type code (UimaFunctions.java:155-168, 207-221, 253-278, 327-352): they only choose which index to fetch and then call the base method. They are modelled once, by the base method. `getAllContainingAnnotations` (136-149) and `getAllCoveredAnnotations` (188-201) run the same loops as their base methods over the index of all annotations, so the same methods model them with that index as argument.
- UIMA's index order (ascending by begin, with ties resolved inside UIMA): not modelled. It appears only as the precondition `AscendingByBegin` of the lemmas that need it.
- `Collections.sort` (UimaFunctions.java:302-307): the library's merge sort is replaced by a stable insertion sort. Any stable sort gives the same result, so the outcome is modelled exactly.
- Java's 32-bit `int`: offsets are naturals and `maxReturn` is an unbounded integer. No difference of two non-negative 32-bit offsets can overflow, and the counter `numAdded` always equals the size of the result list (it can pass `maxReturn` when `maxReturn < 1`, since the cap is then never applied), so it cannot wrap either.
- `getTextInbetween`, modelled by `Spans.TextInbetween`: indexes the document text by character, while Java's `substring` (UimaFunctions.java:119) and UIMA's offsets count UTF-16 code units. The two agree on text without characters above U+FFFF; on text with such a character before or inside the gap the model returns different text.
- `getTextInbetween`: an end offset beyond the document text, which makes Java's `substring` throw, is excluded by the precondition `GapInDocument`. A null document text is not modelled.
- Category (type) filtering: the caller passes an index that is already restricted to one type.
- The invariant `begin <= end` is not enforced on `Span`. It is assumed (`WellFormed`) only by the lemmas that need it.
- Null anchors and null index elements: `Span` has no null value, so they are excluded by the type. The source throws a `NullPointerException` when it dereferences one (UimaFunctions.java:127, 289, 388, 418, and 462 through the `coversSameSpan` call at 439). A null element next to a null anchor is not thrown on: the reference comparison `== annotation` that comes first is then true, so the previous scan stops at it (289) and the closest and all-previous scans skip it (388, 418, 439). Only the null checks of `getTextInbetween` are modelled, with `Option`.
- Concurrency and the mutation of an index during a scan: not modelled. Every query reads a value snapshot.
