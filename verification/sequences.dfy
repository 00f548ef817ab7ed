/**
 * Sequences of annotations: the result lists the queries build, how they
 * relate to their input (filtering, sub-sequences) and the caps that
 * keep a prefix or a suffix of them.
 */
module SpanSequences {
  import opened Spans

  /**
   * The elements of `s` that satisfy `p`, in the order of `s`: the list a
   * scan builds when it appends every element that passes a test.
   */
  function Filter(s: seq<Span>, p: Span -> bool): (r: seq<Span>)
    ensures |r| <= |s|
  {
    if s == [] then []
    else Filter(s[..|s| - 1], p) + (if p(s[|s| - 1]) then [s[|s| - 1]] else [])
  }

  /** An element is kept exactly when it occurs in the input and passes the test. */
  lemma {:induction false} FilterMembers(s: seq<Span>, p: Span -> bool)
    ensures forall x :: x in Filter(s, p) <==> x in s && p(x)
  {
    if s != [] {
      FilterMembers(s[..|s| - 1], p);
      assert s == s[..|s| - 1] + [s[|s| - 1]];
    }
  }

  /** Filtering a concatenation filters each part. */
  lemma {:induction false} FilterAppend(a: seq<Span>, b: seq<Span>, p: Span -> bool)
    ensures Filter(a + b, p) == Filter(a, p) + Filter(b, p)
  {
    if b == [] {
      assert a + b == a;
    } else {
      var n := |b| - 1;
      assert (a + b)[..|a + b| - 1] == a + b[..n];
      FilterAppend(a, b[..n], p);
    }
  }

  /** One more element at the end of a scan. */
  lemma FilterSnoc(s: seq<Span>, x: Span, p: Span -> bool)
    ensures Filter(s + [x], p) == Filter(s, p) + (if p(x) then [x] else [])
  {
    assert (s + [x])[..|s|] == s;
  }

  /** Nothing passes the test: the filtered list is empty. */
  lemma FilterNone(s: seq<Span>, p: Span -> bool)
    requires forall x :: x in s ==> !p(x)
    ensures Filter(s, p) == []
  {
    FilterMembers(s, p);
    if Filter(s, p) != [] {
      assert Filter(s, p)[0] in Filter(s, p);
    }
  }

  /**
   * `r` occurs in `s` in order, possibly with elements of `s` left out
   * (matched from the back).
   */
  predicate IsSubsequence(r: seq<Span>, s: seq<Span>)
    decreases |s|
  {
    if r == [] then true
    else if s == [] then false
    else if r[|r| - 1] == s[|s| - 1] then IsSubsequence(r[..|r| - 1], s[..|s| - 1])
    else IsSubsequence(r, s[..|s| - 1])
  }

  /** Dropping the last element of a sub-sequence leaves a sub-sequence. */
  lemma {:induction false} SubsequenceDropLast(r: seq<Span>, s: seq<Span>)
    requires r != [] && IsSubsequence(r, s)
    ensures IsSubsequence(r[..|r| - 1], s)
    decreases |s|, 0
  {
    var r' := r[..|r| - 1];
    var s' := s[..|s| - 1];
    if r' == [] {
    } else if r[|r| - 1] == s[|s| - 1] {
      SubsequenceDropLast(r', s');
      assert IsSubsequence(r', s');
      SubsequenceExtend(r', s', s[|s| - 1]);
      assert s'+ [s[|s| - 1]] == s;
    } else {
      SubsequenceDropLast(r, s');
      SubsequenceExtend(r', s', s[|s| - 1]);
      assert s'+ [s[|s| - 1]] == s;
    }
  }

  /** A sub-sequence stays one when the host grows at the end. */
  lemma {:induction false} SubsequenceExtend(r: seq<Span>, s: seq<Span>, x: Span)
    requires IsSubsequence(r, s)
    ensures IsSubsequence(r, s + [x])
    decreases |s|, 1
  {
    var t := s + [x];
    assert t[..|t| - 1] == s;
    if r != [] && r[|r| - 1] == x {
      SubsequenceDropLast(r, s);
    }
  }

  /**
   * Filtering by a stronger test keeps a sub-sequence of what a weaker
   * test keeps.
   */
  lemma {:induction false} FilterRefines(s: seq<Span>, p: Span -> bool, q: Span -> bool)
    requires forall x :: p(x) ==> q(x)
    ensures IsSubsequence(Filter(s, p), Filter(s, q))
  {
    if s != [] {
      var s', x := s[..|s| - 1], s[|s| - 1];
      var fp, fq := Filter(s', p), Filter(s', q);
      FilterRefines(s', p, q);
      if p(x) {
        assert Filter(s, p) == fp + [x] && Filter(s, q) == fq + [x];
        assert (fp + [x])[..|fp|] == fp && (fq + [x])[..|fq|] == fq;
      } else if q(x) {
        assert Filter(s, p) == fp && Filter(s, q) == fq + [x];
        SubsequenceExtend(fp, fq, x);
      } else {
        assert Filter(s, p) == fp && Filter(s, q) == fq;
      }
    }
  }

  /** The elements before `n` pass the test and none after does: the filtered list is the prefix. */
  lemma {:induction false} FilterPrefix(s: seq<Span>, n: nat, p: Span -> bool)
    requires n <= |s|
    requires forall k :: 0 <= k < n ==> p(s[k])
    requires forall k :: n <= k < |s| ==> !p(s[k])
    ensures Filter(s, p) == s[..n]
  {
    if s != [] {
      var m := |s| - 1;
      if n <= m {
        assert !p(s[m]);
        FilterPrefix(s[..m], n, p);
        assert s[..m][..n] == s[..n];
      } else {
        assert p(s[m]);
        FilterPrefix(s[..m], m, p);
        assert s[..n] == s[..m] + [s[m]];
      }
    }
  }

  /** Everything passes the test: the filtered list is the input. */
  lemma FilterKeepsAll(s: seq<Span>, p: Span -> bool)
    requires forall x :: x in s ==> p(x)
    ensures Filter(s, p) == s
  {
    FilterPrefix(s, |s|, p);
    assert s[..|s|] == s;
  }

  /** A filtered list is a sub-sequence of its input: input order is kept. */
  lemma FilterIsSubsequence(s: seq<Span>, p: Span -> bool)
    ensures IsSubsequence(Filter(s, p), s)
  {
    FilterRefines(s, p, x => true);
    FilterKeepsAll(s, x => true);
  }

  /** The first `maxReturn` elements, or all of them when `maxReturn < 1`. */
  function Take(s: seq<Span>, maxReturn: int): (r: seq<Span>)
    ensures |r| == if maxReturn < 1 || |s| <= maxReturn then |s| else maxReturn
    ensures r == s[..|r|]
  {
    if maxReturn < 1 || |s| <= maxReturn then s else s[..maxReturn]
  }

  /** The last `maxReturn` elements, or all of them when `maxReturn < 1`. */
  function KeepLast(s: seq<Span>, maxReturn: int): (r: seq<Span>)
    ensures |r| == if maxReturn < 1 || |s| <= maxReturn then |s| else maxReturn
    ensures r == s[|s| - |r|..]
  {
    if maxReturn < 1 then s
    else
      var first := if |s| - maxReturn > 0 then |s| - maxReturn else 0;
      s[first..]
  }
}
