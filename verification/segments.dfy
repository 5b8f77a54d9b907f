/**
 Coalescing of integer intervals (`merge_adjacent_segments`). The intervals
 are sorted by start and scanned against the last interval kept: an exactly
 adjacent one extends it, one with the same end that starts inside it is
 dropped, a disjoint one is kept, and anything else is an error.
 */
module Segments {
  import opened Paths
  import opened Sorting

  /** A `[start, end]` interval, both ends inclusive. */
  datatype Segment = Segment(start: int, end: int)

  function StartKey(s: Segment): Key {
    (s.start, 0)
  }

  predicate WellFormed(segs: seq<Segment>) {
    forall i :: 0 <= i < |segs| ==> segs[i].start <= segs[i].end
  }

  /** Consecutive intervals leave at least one integer uncovered between
      them: they neither overlap nor touch. */
  predicate Gapped(segs: seq<Segment>) {
    forall i :: 0 <= i < |segs| - 1 ==> segs[i + 1].start >= segs[i].end + 2
  }

  /** The integer x lies in one of the intervals. */
  predicate Covered(segs: seq<Segment>, x: int) {
    exists i :: 0 <= i < |segs| && segs[i].start <= x <= segs[i].end
  }

  /** The scan of `merge_adjacent_segments`: `acc` holds the intervals kept so far, its last
      element being the one the next interval is compared with. */
  function Coalesce(acc: seq<Segment>, rest: seq<Segment>): (r: Result<seq<Segment>>)
    requires |acc| > 0
    decreases |rest|
    ensures r.Ok? ==> 0 < |r.value| <= |acc| + |rest|
    ensures r.Ok? ==> r.value[0].start == acc[0].start
    ensures r.Ok? && Gapped(acc) ==> Gapped(r.value)
    ensures r.Ok? && WellFormed(acc) && WellFormed(rest) ==> WellFormed(r.value)
    ensures WellFormed(acc) && WellFormed(rest) ==> r != Failure(SegmentNotExtending)
    ensures r.Failure? ==> r.error == UnmergeableSegments || r.error == SegmentNotExtending
    ensures |rest| > 0 && rest[0].start <= Last(acc).end
            && !(rest[0].end == Last(acc).end && Last(acc).start <= rest[0].start)
            ==> r == Failure(UnmergeableSegments)
  {
    if |rest| == 0 then Ok(acc)
    else
      var prev, next := Last(acc), rest[0];
      if next.start == prev.end + 1 then
        if next.end > prev.end then
          var acc' := acc[..|acc| - 1] + [Segment(prev.start, next.end)];
          assert acc'[0].start == acc[0].start;
          assert forall i :: 0 <= i < |acc| - 1 ==> acc'[i] == acc[i];
          Coalesce(acc', rest[1..])
        else
          Failure(SegmentNotExtending)
      else if prev.end == next.end && prev.start <= next.start then
        Coalesce(acc, rest[1..])
      else if next.start > prev.end then
        var acc' := acc + [next];
        assert forall i :: 0 <= i < |acc| ==> acc'[i] == acc[i];
        Coalesce(acc', rest[1..])
      else
        Failure(UnmergeableSegments)
  }

  lemma CoveredConcat(a: seq<Segment>, b: seq<Segment>, x: int)
    ensures Covered(a + b, x) <==> Covered(a, x) || Covered(b, x)
  {
    if Covered(a + b, x) {
      var i :| 0 <= i < |a + b| && (a + b)[i].start <= x <= (a + b)[i].end;
      if i >= |a| {
        assert b[i - |a|] == (a + b)[i];
      }
    }
    if Covered(a, x) {
      var i :| 0 <= i < |a| && a[i].start <= x <= a[i].end;
      assert (a + b)[i] == a[i];
    }
    if Covered(b, x) {
      var i :| 0 <= i < |b| && b[i].start <= x <= b[i].end;
      assert (a + b)[|a| + i] == b[i];
    }
  }

  lemma CoveredSingle(s: Segment, x: int)
    ensures Covered([s], x) <==> s.start <= x <= s.end
  {
    if s.start <= x <= s.end {
      assert [s][0] == s;
    }
  }

  lemma CoveredPermutation(s: seq<Segment>, t: seq<Segment>, x: int)
    requires multiset(s) == multiset(t)
    ensures Covered(s, x) ==> Covered(t, x)
  {
    if Covered(s, x) {
      var i :| 0 <= i < |s| && s[i].start <= x <= s[i].end;
      assert s[i] in multiset(t);
      var j :| 0 <= j < |t| && t[j] == s[i];
    }
  }

  /** On well-formed intervals the scan covers exactly the integers its two
      inputs cover. (A fused interval whose left part is empty would cover
      less than its parts, hence the well-formedness.) */
  lemma {:induction false} CoalesceCovers(acc: seq<Segment>, rest: seq<Segment>, x: int)
    requires |acc| > 0 && WellFormed(acc) && WellFormed(rest)
    requires Coalesce(acc, rest).Ok?
    ensures Covered(Coalesce(acc, rest).value, x) <==> Covered(acc, x) || Covered(rest, x)
    decreases |rest|
  {
    if |rest| > 0 {
      var prev, next := Last(acc), rest[0];
      assert rest == [next] + rest[1..];
      CoveredConcat([next], rest[1..], x);
      assert acc == acc[..|acc| - 1] + [prev];
      CoveredConcat(acc[..|acc| - 1], [prev], x);
      if next.start == prev.end + 1 {
        var acc' := acc[..|acc| - 1] + [Segment(prev.start, next.end)];
        assert next.end > prev.end;
        assert Coalesce(acc, rest) == Coalesce(acc', rest[1..]);
        CoalesceCovers(acc', rest[1..], x);
        CoveredConcat(acc[..|acc| - 1], [Segment(prev.start, next.end)], x);
        CoveredSingle(Segment(prev.start, next.end), x);
        CoveredSingle(prev, x);
        CoveredSingle(next, x);
      } else if prev.end == next.end && prev.start <= next.start {
        CoalesceCovers(acc, rest[1..], x);
      } else {
        CoalesceCovers(acc + [next], rest[1..], x);
        CoveredConcat(acc, [next], x);
      }
    }
  }

  /** When every interval still to come starts no earlier than the last one
      kept, as after sorting by start, the scan covers exactly the integers
      its two inputs cover, reversed intervals included: an interval fused
      onto `prev` starts at `prev.end + 1`, so `prev.start <= prev.end + 1`
      and the fused interval is exactly the union of the two. */
  lemma {:induction false} CoalesceCoversSorted(acc: seq<Segment>, rest: seq<Segment>, x: int)
    requires |acc| > 0 && SortedBy(rest, StartKey)
    requires forall j :: 0 <= j < |rest| ==> Last(acc).start <= rest[j].start
    requires Coalesce(acc, rest).Ok?
    ensures Covered(Coalesce(acc, rest).value, x) <==> Covered(acc, x) || Covered(rest, x)
    decreases |rest|
  {
    if |rest| > 0 {
      var prev, next := Last(acc), rest[0];
      assert rest == [next] + rest[1..];
      CoveredConcat([next], rest[1..], x);
      assert acc == acc[..|acc| - 1] + [prev];
      CoveredConcat(acc[..|acc| - 1], [prev], x);
      assert SortedBy(rest[1..], StartKey) by {
        forall i, j | 0 <= i < j < |rest[1..]|
          ensures KeyLe(StartKey(rest[1..][i]), StartKey(rest[1..][j]))
        {
          assert rest[1..][i] == rest[i + 1] && rest[1..][j] == rest[j + 1];
        }
      }
      assert forall j :: 0 <= j < |rest[1..]| ==> next.start <= rest[1..][j].start by {
        forall j | 0 <= j < |rest[1..]|
          ensures next.start <= rest[1..][j].start
        {
          assert rest[1..][j] == rest[j + 1];
          assert KeyLe(StartKey(rest[0]), StartKey(rest[j + 1]));
        }
      }
      if next.start == prev.end + 1 {
        var fused := Segment(prev.start, next.end);
        var acc' := acc[..|acc| - 1] + [fused];
        assert next.end > prev.end;
        assert Coalesce(acc, rest) == Coalesce(acc', rest[1..]);
        assert Last(acc') == fused;
        assert forall j :: 0 <= j < |rest[1..]| ==> prev.start <= rest[1..][j].start;
        CoalesceCoversSorted(acc', rest[1..], x);
        CoveredConcat(acc[..|acc| - 1], [fused], x);
        CoveredSingle(fused, x);
        CoveredSingle(prev, x);
        CoveredSingle(next, x);
      } else if prev.end == next.end && prev.start <= next.start {
        assert forall j :: 0 <= j < |rest[1..]| ==> prev.start <= rest[1..][j].start;
        CoalesceCoversSorted(acc, rest[1..], x);
        CoveredSingle(prev, x);
        CoveredSingle(next, x);
      } else {
        assert Last(acc + [next]) == next;
        CoalesceCoversSorted(acc + [next], rest[1..], x);
        CoveredConcat(acc, [next], x);
      }
    }
  }

  /** An already gapped, well-formed sequence passes the scan unchanged. */
  lemma {:induction false} CoalesceGappedIdentity(s: seq<Segment>, i: nat)
    requires 0 < i <= |s|
    requires Gapped(s) && WellFormed(s)
    ensures Coalesce(s[..i], s[i..]) == Ok(s)
    decreases |s| - i
  {
    if i < |s| {
      assert Last(s[..i]) == s[i - 1];
      assert s[..i] + [s[i]] == s[..i + 1];
      assert s[i..][1..] == s[i + 1..];
      CoalesceGappedIdentity(s, i + 1);
    } else {
      assert s[..i] == s;
    }
  }

  /** In a gapped, well-formed sequence every interval ends before any later
      one starts. */
  lemma {:induction false} GappedOrdered(s: seq<Segment>, i: nat, j: nat)
    requires Gapped(s) && WellFormed(s)
    requires i < j < |s|
    ensures s[i].end < s[j].start
    decreases j - i
  {
    if i + 1 < j {
      GappedOrdered(s, i + 1, j);
    }
  }

  lemma PermutationWellFormed(s: seq<Segment>, t: seq<Segment>)
    requires multiset(s) == multiset(t)
    requires WellFormed(s)
    ensures WellFormed(t)
  {
    forall i | 0 <= i < |t|
      ensures t[i].start <= t[i].end
    {
      assert t[i] in multiset(s);
    }
  }

  /** After sorting by start the first interval has the smallest start,
      and well-formed intervals stay well-formed. */
  lemma SortedByStart(segs: seq<Segment>)
    requires |segs| > 0
    ensures var sorted := Sort(segs, StartKey);
            && |sorted| == |segs|
            && (forall i :: 0 <= i < |segs| ==> sorted[0].start <= segs[i].start)
            && (WellFormed(segs) ==> WellFormed(sorted))
  {
    var sorted := Sort(segs, StartKey);
    SortPermutes(segs, StartKey);
    SortSorted(segs, StartKey);
    forall i | 0 <= i < |segs|
      ensures sorted[0].start <= segs[i].start
    {
      assert segs[i] in multiset(sorted);
      var j :| 0 <= j < |sorted| && sorted[j] == segs[i];
      if j > 0 {
        assert KeyLe(StartKey(sorted[0]), StartKey(sorted[j]));
      }
    }
    if WellFormed(segs) {
      PermutationWellFormed(segs, sorted);
    }
  }

  /** `merge_adjacent_segments`: sort by start, then scan. It pops the
      first interval unconditionally, so the input must be non-empty. */
  function MergeAdjacentSegments(segs: seq<Segment>): (r: Result<seq<Segment>>)
    requires |segs| > 0
    ensures r.Ok? ==> 0 < |r.value| <= |segs| && Gapped(r.value)
    ensures r.Ok? ==> forall i :: 0 <= i < |segs| ==> r.value[0].start <= segs[i].start
    ensures r.Ok? && WellFormed(segs) ==> WellFormed(r.value)
    ensures WellFormed(segs) ==> r != Failure(SegmentNotExtending)
  {
    var sorted := Sort(segs, StartKey);
    SortedByStart(segs);
    assert sorted == [sorted[0]] + sorted[1..];
    Coalesce([sorted[0]], sorted[1..])
  }

  /** The result covers exactly the integers the input covers. */
  lemma MergeAdjacentSegmentsCovers(segs: seq<Segment>, x: int)
    requires |segs| > 0 && MergeAdjacentSegments(segs).Ok?
    ensures Covered(MergeAdjacentSegments(segs).value, x) <==> Covered(segs, x)
  {
    var sorted := Sort(segs, StartKey);
    assert MergeAdjacentSegments(segs) == Coalesce([sorted[0]], sorted[1..]);
    SortPermutes(segs, StartKey);
    SortSorted(segs, StartKey);
    assert SortedBy(sorted[1..], StartKey) by {
      forall i, j | 0 <= i < j < |sorted[1..]|
        ensures KeyLe(StartKey(sorted[1..][i]), StartKey(sorted[1..][j]))
      {
        assert sorted[1..][i] == sorted[i + 1] && sorted[1..][j] == sorted[j + 1];
      }
    }
    assert forall j :: 0 <= j < |sorted[1..]| ==> Last([sorted[0]]).start <= sorted[1..][j].start by {
      forall j | 0 <= j < |sorted[1..]|
        ensures Last([sorted[0]]).start <= sorted[1..][j].start
      {
        assert sorted[1..][j] == sorted[j + 1];
        assert KeyLe(StartKey(sorted[0]), StartKey(sorted[j + 1]));
      }
    }
    CoalesceCoversSorted([sorted[0]], sorted[1..], x);
    assert sorted == [sorted[0]] + sorted[1..];
    CoveredConcat([sorted[0]], sorted[1..], x);
    CoveredPermutation(segs, sorted, x);
    CoveredPermutation(sorted, segs, x);
  }

  /** On well-formed input the result is ordered: each interval ends before
      the next starts, so starts strictly increase. */
  lemma MergeAdjacentSegmentsOrdered(segs: seq<Segment>)
    requires |segs| > 0 && WellFormed(segs) && MergeAdjacentSegments(segs).Ok?
    ensures var r := MergeAdjacentSegments(segs).value;
            forall i, j :: 0 <= i < j < |r| ==> r[i].end < r[j].start
  {
    var r := MergeAdjacentSegments(segs).value;
    forall i, j | 0 <= i < j < |r|
      ensures r[i].end < r[j].start
    {
      GappedOrdered(r, i, j);
    }
  }

  /** Coalescing is idempotent: a coalesced list coalesces to itself. */
  lemma MergeAdjacentSegmentsIdempotent(segs: seq<Segment>)
    requires |segs| > 0 && WellFormed(segs) && MergeAdjacentSegments(segs).Ok?
    ensures MergeAdjacentSegments(MergeAdjacentSegments(segs).value) == MergeAdjacentSegments(segs)
  {
    var r := MergeAdjacentSegments(segs).value;
    MergeAdjacentSegmentsOrdered(segs);
    assert SortedBy(r, StartKey) by {
      forall i, j | 0 <= i < j < |r|
        ensures KeyLe(StartKey(r[i]), StartKey(r[j]))
      {
        assert r[i].start <= r[i].end < r[j].start;
      }
    }
    SortSortedIdentity(r, StartKey);
    CoalesceGappedIdentity(r, 1);
    assert r[..1] == [r[0]];
  }
}
