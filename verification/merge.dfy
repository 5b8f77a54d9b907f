/**
 Merging two overlap-compatible simple paths (`merge_simple_paths`). The
 anchor of the overlap check decides which path leads: the one whose anchor
 position is past its start, with the other path's overhang appended; when
 both anchors sit at position 0 the longer path is the result, A on a tie.
 `merge_simple_paths` extends and returns its own argument lists; here every
 result is a fresh value.
 */
module Merge {
  import opened Paths
  import opened Overlap
  import opened Containment

  function Max(x: int, y: int): int {
    if x >= y then x else y
  }

  /** `merge_simple_paths`. Incompatible paths are refused; its two
      internal-consistency failures are unreachable. */
  function MergeSimplePaths(A: Path, B: Path): (r: Result<Path>)
    ensures r.Failure? <==> !AreOverlappingCompatible(A, B)
    ensures r.Failure? ==> r.error == IncompatiblePaths
  {
    if !AreOverlappingCompatible(A, B) then Failure(IncompatiblePaths)
    else match FindAnchor(A, B)
      case None => Failure(MergeLogicError)
      case Some(an) =>
        if an.a == 0 then
          if an.b > 0 then
            // B leads; A's entries beyond the end of B follow
            var ext := |B| - an.b;
            Ok(if ext < |A| then B + A[ext..] else B)
          else if |A| >= |B| then Ok(A)
          else Ok(B)
        else if an.b != 0 then Failure(MergeLogicError)
        else
          // A leads; B's entries beyond the end of A follow
          var ext := |A| - an.a;
          Ok(if ext < |B| then A + B[ext..] else A)
  }

  /** Laying `follower` at offset `off` of `leader`, where the two agree on
      their overlap, and appending the part of `follower` past the end of
      `leader`. */
  lemma PlaceAfter(leader: Path, follower: Path, off: nat, r: Path)
    requires off < |leader|
    requires var n := Min(|follower|, |leader| - off);
             follower[0..n] == leader[off..off + n]
    requires r == (if |leader| - off < |follower| then leader + follower[|leader| - off..] else leader)
    ensures OccursAt(r, leader, 0) && OccursAt(r, follower, off)
    ensures |r| == Max(|leader|, off + |follower|)
  {
    var ext := |leader| - off;
    assert r[..|leader|] == leader;
    if ext < |follower| {
      assert r[off..off + |follower|] == leader[off..] + follower[ext..];
      assert follower == follower[..ext] + follower[ext..];
    } else {
      assert follower == follower[0..|follower|];
    }
  }

  /** Scenario with B leading: B at offset 0, A at B's anchor position. */
  lemma MergeLayoutBLeads(A: Path, B: Path, r: Path)
    requires AreOverlappingCompatible(A, B)
    requires FindAnchor(A, B).value.a == 0 && FindAnchor(A, B).value.b > 0
    requires MergeSimplePaths(A, B) == Ok(r)
    ensures var b := FindAnchor(A, B).value.b;
            OccursAt(r, B, 0) && OccursAt(r, A, b) && |r| == Max(|B|, b + |A|)
  {
    var b := FindAnchor(A, B).value.b;
    var ext := |B| - b;
    assert r == (if ext < |A| then B + A[ext..] else B);
    OverlapRegionsAgree(A, B);
    var n := Min(|A|, |B| - b);
    assert A[0..n] == B[b..b + n];
    PlaceAfter(B, A, b, r);
  }

  /** Scenario with A leading: A at offset 0, B at A's anchor position. */
  lemma MergeLayoutALeads(A: Path, B: Path, r: Path)
    requires AreOverlappingCompatible(A, B)
    requires FindAnchor(A, B).value.a > 0
    requires MergeSimplePaths(A, B) == Ok(r)
    ensures var a := FindAnchor(A, B).value.a;
            FindAnchor(A, B).value.b == 0 && OccursAt(r, A, 0) && OccursAt(r, B, a) && |r| == Max(|A|, a + |B|)
  {
    var a := FindAnchor(A, B).value.a;
    var ext := |A| - a;
    assert r == (if ext < |B| then A + B[ext..] else A);
    OverlapRegionsAgree(A, B);
    var n := Min(|A| - a, |B|);
    assert A[a..a + n] == B[0..n];
    PlaceAfter(A, B, a, r);
  }

  /** Scenario with both anchors at the start: the shorter path is a prefix
      of the longer, and the longer is the result, A on a tie. */
  lemma MergeLayoutBothAtStart(A: Path, B: Path, r: Path)
    requires AreOverlappingCompatible(A, B)
    requires FindAnchor(A, B).value == Anchor(0, 0)
    requires MergeSimplePaths(A, B) == Ok(r)
    ensures OccursAt(r, A, 0) && OccursAt(r, B, 0)
    ensures r == (if |A| >= |B| then A else B)
  {
    OverlapRegionsAgree(A, B);
    var n := Min(|A|, |B|);
    assert A[0..n] == B[0..n];
    if |A| >= |B| {
      assert B == B[0..n];
    } else {
      assert A == A[0..n];
    }
  }

  /** The first occurrence of A[an.a] in A is the anchor position itself:
      an earlier equal entry would have been a shared node, hence the anchor. */
  lemma AnchorIsFirstOccurrence(A: Path, B: Path)
    requires FindAnchor(A, B).Some?
    ensures var a := FindAnchor(A, B).value.a;
            A[a] in A && FirstIndex(A, A[a]) == a
  {
    var a := FindAnchor(A, B).value.a;
    forall j | 0 <= j < a
      ensures A[j] != A[a]
    {
      assert !SharedNode(A, B, j);
    }
    FirstIndexUnique(A, A[a], a);
  }

  /** A successful merge contains both inputs in the sense of the
      containment check: each is the run starting at the first occurrence
      of its head entry. */
  lemma MergeContainsBoth(A: Path, B: Path)
    requires MergeSimplePaths(A, B).Ok?
    ensures |A| > 0 && |B| > 0
    ensures Contains(MergeSimplePaths(A, B).value, A)
    ensures Contains(MergeSimplePaths(A, B).value, B)
  {
    var an := FindAnchor(A, B).value;
    var r := MergeSimplePaths(A, B).value;
    if an.a == 0 && an.b > 0 {
      MergeLayoutBLeads(A, B, r);
      assert r == B + r[|B|..];
      FirstIndexUnique(r, B[0], 0);
      assert A[0] == B[an.b];
      FirstIndexPrefix(B, r[|B|..], A[0]);
    } else if an.a > 0 {
      MergeLayoutALeads(A, B, r);
      assert r == A + r[|A|..];
      FirstIndexUnique(r, A[0], 0);
      AnchorIsFirstOccurrence(A, B);
      assert B[0] == A[an.a];
      FirstIndexPrefix(A, r[|A|..], B[0]);
    } else {
      MergeLayoutBothAtStart(A, B, r);
      assert A[0] == r[0] && B[0] == r[0];
      FirstIndexUnique(r, r[0], 0);
    }
  }

  /** Merging a spacer-free path with itself gives it back. */
  lemma MergeSelf(A: Path)
    requires |A| > 0
    requires forall i :: 0 <= i < |A| ==> A[i] != Spacer
    ensures MergeSimplePaths(A, A) == Ok(A)
  {
    SelfCompatible(A);
  }

  /** The tie-break with both anchors at the start is unobservable: two
      compatible paths of equal length anchored at both starts are equal, so
      returning A or B gives the same path. */
  lemma MergeTieIsEqual(A: Path, B: Path)
    requires AreOverlappingCompatible(A, B)
    requires FindAnchor(A, B).value == Anchor(0, 0)
    requires |A| == |B|
    ensures A == B
    ensures MergeSimplePaths(A, B) == Ok(A) == Ok(B)
  {
    OverlapRegionsAgree(A, B);
    assert A[0..|A|] == A && B[0..|B|] == B;
  }
}
