/** Coverage of an index space by partition ranges: what is stored, how far the
    unbroken run from zero reaches, and which intervals are missing. */
module Coverage {
  import opened Base36

  predicate Within(r: Range, x: int) {
    r.start <= x < r.end
  }

  ghost predicate Covered(ranges: seq<Range>, x: int) {
    exists i :: 0 <= i < |ranges| && Within(ranges[i], x)
  }

  /** The ranges a partition directory yields: non-empty and non-negative. */
  predicate Proper(ranges: seq<Range>) {
    forall i :: 0 <= i < |ranges| ==> 0 <= ranges[i].start < ranges[i].end
  }

  /** In order and with at least one missing index between neighbours. */
  predicate Separated(ranges: seq<Range>) {
    forall i, j :: 0 <= i < j < |ranges| ==> ranges[i].end < ranges[j].start
  }

  /** All indices below `hi` that some range covers. */
  ghost function Indices(ranges: seq<Range>, hi: int): (s: set<int>) {
    set x | 0 <= x < hi && Covered(ranges, x)
  }

  // ---- sorting ------------------------------------------------------------------

  predicate Before(a: Range, b: Range) {
    a.start < b.start || (a.start == b.start && a.end <= b.end)
  }

  predicate Sorted(ranges: seq<Range>) {
    forall i, j :: 0 <= i < j < |ranges| ==> Before(ranges[i], ranges[j])
  }

  function Insert(r: Range, ranges: seq<Range>): (out: seq<Range>)
    ensures multiset(out) == multiset(ranges) + multiset{r}
  {
    if ranges == [] || Before(r, ranges[0]) then [r] + ranges
    else
      assert ranges == [ranges[0]] + ranges[1..];
      [ranges[0]] + Insert(r, ranges[1..])
  }

  function Sort(ranges: seq<Range>): (out: seq<Range>)
    ensures multiset(out) == multiset(ranges)
  {
    if ranges == [] then []
    else
      assert ranges == [ranges[0]] + ranges[1..];
      Insert(ranges[0], Sort(ranges[1..]))
  }

  lemma {:induction false} InsertKeepsSorted(r: Range, ranges: seq<Range>)
    requires Sorted(ranges)
    ensures Sorted(Insert(r, ranges))
  {
    if ranges != [] && !Before(r, ranges[0]) {
      var rest := Insert(r, ranges[1..]);
      InsertKeepsSorted(r, ranges[1..]);
      forall j | 0 <= j < |rest| ensures Before(ranges[0], rest[j]) {
        assert rest[j] in multiset(rest);
        assert rest[j] in multiset(ranges[1..]) || rest[j] == r;
        if rest[j] != r {
          assert rest[j] in ranges[1..];
        }
      }
    }
  }

  lemma {:induction false} SortSorts(ranges: seq<Range>)
    ensures Sorted(Sort(ranges))
  {
    if ranges != [] {
      SortSorts(ranges[1..]);
      InsertKeepsSorted(ranges[0], Sort(ranges[1..]));
    }
  }

  lemma SameRangesSameCover(a: seq<Range>, b: seq<Range>)
    requires multiset(a) == multiset(b)
    ensures Proper(a) ==> Proper(b)
    ensures forall x :: Covered(a, x) <==> Covered(b, x)
  {
    SubsetCovers(a, b);
    SubsetCovers(b, a);
    if Proper(a) {
      forall i | 0 <= i < |b| ensures 0 <= b[i].start < b[i].end {
        assert b[i] in multiset(b);
        assert b[i] in a;
      }
    }
  }

  lemma SubsetCovers(a: seq<Range>, b: seq<Range>)
    requires multiset(a) == multiset(b)
    ensures forall x :: Covered(a, x) ==> Covered(b, x)
  {
    forall x | Covered(a, x) ensures Covered(b, x) {
      var i :| 0 <= i < |a| && Within(a[i], x);
      assert a[i] in multiset(a);
      assert a[i] in b;
      var j :| 0 <= j < |b| && b[j] == a[i];
    }
  }

  // ---- merging --------------------------------------------------------------------

  /** Folds sorted ranges into separated ones: the last is extended in place while the next touches it. */
  method MergeSorted(sorted: seq<Range>) returns (merged: seq<Range>)
    requires Sorted(sorted) && Proper(sorted) && sorted != []
    ensures Proper(merged) && Separated(merged) && merged != []
    ensures forall x :: Covered(merged, x) <==> Covered(sorted, x)
  {
    merged := [sorted[0]];
    assert sorted[..1] == [sorted[0]];
    for k := 1 to |sorted|
      invariant merged != [] && Proper(merged) && Separated(merged)
      invariant merged[|merged| - 1].start <= sorted[k - 1].start
      invariant forall x :: Covered(merged, x) <==> Covered(sorted[..k], x)
    {
      var r := sorted[k];
      var n := |merged| - 1;
      var last := merged[n];
      assert Before(sorted[k - 1], r);
      assert sorted[..k + 1] == sorted[..k] + [r];
      CoveredSnoc(sorted[..k], r);
      if r.start <= last.end {
        if r.end > last.end {
          ghost var before := merged;
          assert before == before[..n] + [last];
          CoveredSnoc(before[..n], last);
          merged := merged[n := Range(last.start, r.end)];
          assert merged == before[..n] + [Range(last.start, r.end)];
          CoveredSnoc(before[..n], Range(last.start, r.end));
        } else {
          assert forall x :: Within(r, x) ==> Within(merged[n], x);
        }
      } else {
        CoveredSnoc(merged, r);
        merged := merged + [r];
      }
    }
    assert sorted[..|sorted|] == sorted;
  }

  lemma CoveredSnoc(ranges: seq<Range>, r: Range)
    ensures forall x :: Covered(ranges + [r], x) <==> Covered(ranges, x) || Within(r, x)
  {
    forall x ensures Covered(ranges + [r], x) <==> Covered(ranges, x) || Within(r, x) {
      if Covered(ranges, x) {
        var i :| 0 <= i < |ranges| && Within(ranges[i], x);
        assert Within((ranges + [r])[i], x);
      }
      if Within(r, x) {
        assert Within((ranges + [r])[|ranges|], x);
      }
    }
  }

  // ---- counting -------------------------------------------------------------------

  function Total(ranges: seq<Range>): (n: int) {
    if ranges == [] then 0
    else Total(ranges[..|ranges| - 1]) + (ranges[|ranges| - 1].end - ranges[|ranges| - 1].start)
  }

  ghost function Span(lo: int, hi: int): (s: set<int>) {
    set x | lo <= x < hi && Within(Range(lo, hi), x)
  }

  lemma {:induction false} SpanSize(lo: int, hi: int)
    requires lo <= hi
    ensures |Span(lo, hi)| == hi - lo
    decreases hi - lo
  {
    if lo < hi {
      SpanSize(lo, hi - 1);
      assert Span(lo, hi) == Span(lo, hi - 1) + {hi - 1};
    } else {
      assert Span(lo, hi) == {};
    }
  }

  /** The sum of separated lengths counts every covered index once. */
  lemma {:induction false} TotalIsSize(ranges: seq<Range>, hi: int)
    requires Proper(ranges) && Separated(ranges)
    requires forall i :: 0 <= i < |ranges| ==> ranges[i].end <= hi
    ensures Total(ranges) == |Indices(ranges, hi)|
  {
    if ranges == [] {
      assert Indices(ranges, hi) == {};
    } else {
      var front, last := ranges[..|ranges| - 1], ranges[|ranges| - 1];
      assert ranges == front + [last];
      TotalIsSize(front, hi);
      IndicesSnoc(front, last, hi);
    }
  }

  lemma IndicesSnoc(front: seq<Range>, last: Range, hi: int)
    requires 0 <= last.start <= last.end <= hi && forall i :: 0 <= i < |front| ==> front[i].end < last.start
    ensures |Indices(front + [last], hi)| == |Indices(front, hi)| + (last.end - last.start)
  {
    CoveredSnoc(front, last);
    var mine := Span(last.start, last.end);
    SpanSize(last.start, last.end);
    assert Indices(front + [last], hi) == Indices(front, hi) + mine;
    assert Indices(front, hi) !! mine;
  }

  // ---- the summary ------------------------------------------------------------------

  function Bound(frontier: int, treeSize: int): (b: int) {
    if treeSize > 0 then treeSize else frontier
  }

  /** `gaps` is the complement of `before` inside [0, cursor) and below the bound. */
  ghost predicate GapsUpTo(gaps: seq<Range>, before: seq<Range>, cursor: int, bound: int) {
    && Proper(gaps) && Separated(gaps)
    && (forall i :: 0 <= i < |gaps| ==> gaps[i].end < cursor)
    && (forall x :: Covered(gaps, x) <==> 0 <= x < cursor && x < bound && !Covered(before, x))
    && (forall x :: Covered(before, x) ==> x < cursor)
  }

  lemma GapStep(gaps: seq<Range>, before: seq<Range>, cursor: int, bound: int, r: Range, gaps': seq<Range>)
    requires GapsUpTo(gaps, before, cursor, bound) && 0 <= cursor <= r.start < r.end
    requires
      var stop := if r.start < bound then r.start else bound;
      gaps' == if cursor < stop then gaps + [Range(cursor, stop)] else gaps
    ensures GapsUpTo(gaps', before + [r], r.end, bound)
  {
    CoveredSnoc(before, r);
    CoveredSnoc(gaps, Range(cursor, if r.start < bound then r.start else bound));
  }

  /** The gaps between separated ranges, clipped to the bound. */
  method FindGaps(merged: seq<Range>, bound: int) returns (gaps: seq<Range>)
    requires Proper(merged) && Separated(merged)
    ensures Proper(gaps) && Separated(gaps)
    ensures forall x :: Covered(gaps, x) <==> 0 <= x < bound && !Covered(merged, x)
  {
    gaps := [];
    var cursor := 0;
    for k := 0 to |merged|
      invariant cursor == if k == 0 then 0 else merged[k - 1].end
      invariant GapsUpTo(gaps, merged[..k], cursor, bound)
    {
      var r := merged[k];
      ghost var gaps0 := gaps;
      if r.start > cursor && cursor < bound {
        gaps := gaps + [Range(cursor, if r.start < bound then r.start else bound)];
      }
      GapStep(gaps0, merged[..k], cursor, bound, r, gaps);
      assert merged[..k + 1] == merged[..k] + [r];
      if r.end > cursor {
        cursor := r.end;
      }
    }
    assert merged[..|merged|] == merged;
    if cursor < bound {
      CoveredSnoc(gaps, Range(cursor, bound));
      gaps := gaps + [Range(cursor, bound)];
    }
  }

  /** Coverage statistics of any list of ranges, overlapping or not and in any order. */
  method SummarizeRanges(ranges: seq<Range>, treeSize: int)
    returns (stored: int, frontier: int, contiguous: int, gaps: seq<Range>)
    requires Proper(ranges)
    ensures 0 <= frontier && forall x :: Covered(ranges, x) ==> 0 <= x < frontier
    ensures frontier > 0 ==> Covered(ranges, frontier - 1)
    ensures stored == |Indices(ranges, frontier)|
    ensures 0 <= contiguous && !Covered(ranges, contiguous)
    ensures forall x :: 0 <= x < contiguous ==> Covered(ranges, x)
    ensures Proper(gaps) && Separated(gaps)
    ensures forall x :: Covered(gaps, x) <==>
                          0 <= x < (if treeSize > 0 then treeSize else frontier) && !Covered(ranges, x)
  {
    stored, frontier, contiguous := 0, 0, 0;
    if ranges == [] {
      gaps := if Bound(0, treeSize) > 0 then [Range(0, Bound(0, treeSize))] else [];
      CoveredSnoc([], Range(0, Bound(0, treeSize)));
      assert Indices(ranges, 0) == {};
      return;
    }
    SortSorts(ranges);
    SameRangesSameCover(ranges, Sort(ranges));
    assert |multiset(Sort(ranges))| == |ranges|;
    var merged := MergeSorted(Sort(ranges));
    for k := 0 to |merged|
      invariant stored == Total(merged[..k])
      invariant frontier == if k == 0 then 0 else merged[k - 1].end
    {
      assert merged[..k + 1][..k] == merged[..k];
      stored := stored + (merged[k].end - merged[k].start);
      frontier := if merged[k].end > frontier then merged[k].end else frontier;
    }
    assert merged[..|merged|] == merged;
    assert forall i :: 0 <= i < |merged| ==> merged[i].end <= frontier;
    TotalIsSize(merged, frontier);
    assert Indices(merged, frontier) == Indices(ranges, frontier);
    assert Within(merged[|merged| - 1], frontier - 1);
    contiguous := ContiguousRun(merged);
    gaps := FindGaps(merged, Bound(frontier, treeSize));
  }

  /** The end of the unbroken run from index zero. */
  method ContiguousRun(merged: seq<Range>) returns (contiguous: int)
    requires Proper(merged) && Separated(merged)
    ensures 0 <= contiguous && !Covered(merged, contiguous)
    ensures forall x :: 0 <= x < contiguous ==> Covered(merged, x)
  {
    contiguous := 0;
    for k := 0 to |merged|
      invariant 0 <= contiguous
      invariant forall x :: 0 <= x < contiguous ==> Covered(merged, x)
      invariant forall i :: 0 <= i < k ==> merged[i].end <= contiguous
      invariant contiguous == if k == 0 then 0 else merged[k - 1].end
    {
      assert k > 0 ==> merged[k - 1].end < merged[k].start;
      if merged[k].start <= contiguous {
        if merged[k].end > contiguous {
          assert forall x :: merged[k].start <= x < merged[k].end ==> Within(merged[k], x);
          contiguous := merged[k].end;
        }
      } else {
        return;
      }
    }
  }

  /** The separated form of a set of indices is unique, so the reported gaps are the only possible answer. */
  lemma GapsAreUnique(a: seq<Range>, b: seq<Range>)
    requires Proper(a) && Separated(a) && Proper(b) && Separated(b)
    requires forall x :: Covered(a, x) <==> Covered(b, x)
    ensures a == b
    decreases |a|
  {
    if a == [] {
      if b != [] {
        assert Within(b[0], b[0].start);
        assert Covered(b, b[0].start);
      }
    } else {
      FirstRange(a);
      assert Covered(b, a[0].start);
      FirstRange(b);
      assert Covered(a, b[0].start);
      assert a[0].start == b[0].start;
      assert !Covered(b, a[0].end) && !Within(b[0], a[0].end);
      assert !Covered(a, b[0].end) && !Within(a[0], b[0].end);
      CoveredTail(a);
      CoveredTail(b);
      GapsAreUnique(a[1..], b[1..]);
    }
  }

  lemma FirstRange(a: seq<Range>)
    requires Proper(a) && Separated(a) && a != []
    ensures Covered(a, a[0].start) && !Covered(a, a[0].end)
    ensures forall x :: Covered(a, x) ==> a[0].start <= x
  {
    assert Within(a[0], a[0].start);
  }

  lemma CoveredTail(a: seq<Range>)
    requires Proper(a) && Separated(a) && a != []
    ensures forall x :: Covered(a[1..], x) <==> Covered(a, x) && !Within(a[0], x)
  {
    forall x ensures Covered(a[1..], x) <==> Covered(a, x) && !Within(a[0], x) {
      if Covered(a[1..], x) {
        var i :| 0 <= i < |a[1..]| && Within(a[1..][i], x);
        assert Within(a[i + 1], x);
      }
      if Covered(a, x) && !Within(a[0], x) {
        var i :| 0 <= i < |a| && Within(a[i], x);
        assert Within(a[1..][i - 1], x);
      }
    }
  }
}
