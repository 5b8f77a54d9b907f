/**
 Concrete runs of the interval coalescing, one per branch of its scan.
 */
module SegmentExamples {
  import opened Paths
  import opened Sorting
  import opened Segments

  lemma AdjacentIntervalsJoin()
    ensures MergeAdjacentSegments([Segment(5, 9), Segment(1, 4)]) == Ok([Segment(1, 9)])
  {
    var s := [Segment(5, 9), Segment(1, 4)];
    assert Sort(s[1..], StartKey) == [Segment(1, 4)];
    assert Sort(s, StartKey) == [Segment(1, 4), Segment(5, 9)];
    var t := [Segment(1, 4), Segment(5, 9)];
    assert t[1..] == [Segment(5, 9)];
    assert [t[0]][..0] + [Segment(1, 9)] == [Segment(1, 9)];
    assert t[1..][1..] == [];
    assert Coalesce([t[0]], t[1..]) == Ok([Segment(1, 9)]);
  }

  lemma ContainedIntervalDropped()
    ensures MergeAdjacentSegments([Segment(1, 4), Segment(2, 4)]) == Ok([Segment(1, 4)])
  {
  }

  lemma DisjointIntervalsKept()
    ensures MergeAdjacentSegments([Segment(7, 9), Segment(1, 4)]) == Ok([Segment(1, 4), Segment(7, 9)])
  {
    var s := [Segment(7, 9), Segment(1, 4)];
    assert Sort(s[1..], StartKey) == [Segment(1, 4)];
    assert Sort(s, StartKey) == [Segment(1, 4), Segment(7, 9)];
    var t := [Segment(1, 4), Segment(7, 9)];
    assert t[1..] == [Segment(7, 9)];
    assert Coalesce([t[0]], t[1..]) == Ok([Segment(1, 4), Segment(7, 9)]);
  }

  /** Overlap that is neither adjacency nor a shared end is an error. */
  lemma OverlapRejected()
    ensures MergeAdjacentSegments([Segment(1, 4), Segment(3, 6)]) == Failure(UnmergeableSegments)
  {
  }

  /** An adjacent interval that ends no further right trips the assertion
      of `merge_adjacent_segments`; only a reversed interval can do that. */
  lemma ReversedAdjacentRejected()
    ensures MergeAdjacentSegments([Segment(1, 4), Segment(5, 3)]) == Failure(SegmentNotExtending)
  {
  }

  /** Out of start order, fusing onto a reversed interval covers less than
      its parts: `[7, 4]` followed by `[5, 9]` becomes `[7, 9]`, losing 5
      and 6. Sorting by start rules this order out, which is why the scan's
      coverage lemma for unsorted input asks for well-formed intervals. */
  lemma UnsortedReversedFuseLoses()
    ensures Coalesce([Segment(7, 4)], [Segment(5, 9)]) == Ok([Segment(7, 9)])
    ensures Covered([Segment(5, 9)], 5) && !Covered([Segment(7, 9)], 5)
  {
    assert [Segment(7, 4)][..0] + [Segment(7, 9)] == [Segment(7, 9)];
    assert [Segment(5, 9)][1..] == [];
    CoveredSingle(Segment(5, 9), 5);
    CoveredSingle(Segment(7, 9), 5);
  }
}
