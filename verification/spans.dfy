/**
 * Annotations over a document and the relations between their ranges.
 *
 * An annotation is an object with a begin and an end offset into the
 * document text. Two annotations may occupy the same range without being
 * the same object, so a span carries an `id` that stands for its object
 * identity: Java's reference comparison `current == annotation` becomes
 * `Identical(current, annotation)`.
 */
module Spans {

  /** An annotation: `id` is its object identity, `[begin, end)` its range. */
  datatype Span = Span(id: nat, begin: nat, end: nat)

  /** A Java reference that may be null. */
  datatype Option<T> = None | Some(value: T)

  /** The usual shape of an annotation: it does not end before it begins. */
  predicate WellFormed(s: Span) {
    s.begin <= s.end
  }

  /** Reference equality: the very same annotation object. */
  predicate Identical(a: Span, b: Span) {
    a.id == b.id
  }

  /** `first` completely spans `second`: its range includes `second`'s range. */
  predicate CompletelyCovers(first: Span, second: Span) {
    first.begin <= second.begin && first.end >= second.end
  }

  /** Both annotations occupy exactly the same range. */
  predicate CoversSameSpan(a: Span, b: Span): (r: bool)
    ensures r <==> CompletelyCovers(a, b) && CompletelyCovers(b, a)
  {
    a.begin == b.begin && a.end == b.end
  }

  lemma CompletelyCoversReflexive(s: Span)
    ensures CompletelyCovers(s, s)
  {
  }

  lemma CompletelyCoversTransitive(a: Span, b: Span, c: Span)
    requires CompletelyCovers(a, b) && CompletelyCovers(b, c)
    ensures CompletelyCovers(a, c)
  {
  }

  /**
   * The guards of the text-between query all pass: both annotations are
   * present, `first` ends before `second` begins, and they do not begin at
   * the same offset.
   */
  predicate HasGap(first: Option<Span>, second: Option<Span>) {
    && first.Some? && second.Some?
    && first.value.end < second.value.begin
    && first.value.begin != second.value.begin
  }

  /** Taking the substring of the gap would not raise an index exception. */
  predicate GapInDocument(text: string, first: Option<Span>, second: Option<Span>) {
    HasGap(first, second) ==> second.value.begin <= |text|
  }

  /**
   * The document text strictly between `first` and `second`, or the empty
   * string when either is absent, they overlap or are out of order, or they
   * begin at the same offset.
   */
  function TextInbetween(text: string, first: Option<Span>, second: Option<Span>): (r: string)
    requires GapInDocument(text, first, second)
    ensures |r| > 0 <==> HasGap(first, second)
    ensures HasGap(first, second) ==> |r| == second.value.begin - first.value.end
    ensures forall k :: 0 <= k < |r| ==> r[k] == text[first.value.end + k]
  {
    if first.None? || second.None? then ""
    else if first.value.end >= second.value.begin then ""
    else if first.value.begin == second.value.begin then ""
    else text[first.value.end..second.value.begin]
  }

  /**
   * For well-formed annotations with a gap between them, the text of
   * `first`, the gap and the text of `second` together are exactly the
   * text from the start of `first` to the end of `second`.
   */
  lemma TextInbetweenFillsGap(text: string, first: Span, second: Span)
    requires WellFormed(first) && WellFormed(second)
    requires second.end <= |text|
    requires HasGap(Some(first), Some(second))
    ensures text[first.begin..first.end] + TextInbetween(text, Some(first), Some(second))
            + text[second.begin..second.end]
            == text[first.begin..second.end]
  {
    // the gap is the slice between the two annotations, so the three slices join
    assert TextInbetween(text, Some(first), Some(second)) == text[first.end..second.begin];
  }

  /** With a gap one way there is none the other way round. */
  lemma TextInbetweenOneWay(text: string, first: Span, second: Span)
    requires WellFormed(first) && WellFormed(second)
    requires GapInDocument(text, Some(first), Some(second))
    requires GapInDocument(text, Some(second), Some(first))
    requires TextInbetween(text, Some(first), Some(second)) != ""
    ensures TextInbetween(text, Some(second), Some(first)) == ""
  {
  }

  /**
   * For a well-formed `first`, the guard on equal begins never decides:
   * whenever `first` ends before `second` begins they begin apart.
   */
  lemma EqualBeginGuardRedundant(first: Span, second: Span)
    requires WellFormed(first)
    requires first.end < second.begin
    ensures HasGap(Some(first), Some(second))
  {
  }

  /** The text between [0,5) and [8,12) of "0123456789ABC" is "567". */
  lemma TextInbetweenExample()
    ensures TextInbetween("0123456789ABC", Some(Span(1, 0, 5)), Some(Span(2, 8, 12))) == "567"
    ensures TextInbetween("0123456789ABC", Some(Span(1, 0, 10)), Some(Span(2, 5, 15))) == ""
  {
    assert "0123456789ABC"[5..8] == "567";
  }
}
