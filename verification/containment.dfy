/**
 Containment of one simple path in another (`path_A_contains_path_B`).
 `path_A_contains_path_B` aligns B only at the FIRST occurrence of B[0] in
 A and then compares the two paths position by position.
 */
module Containment {
  import opened Paths

  /** B occurs in A as a contiguous run starting at offset `off`. */
  predicate OccursAt(A: Path, B: Path, off: nat) {
    off + |B| <= |A| && A[off..off + |B|] == B
  }

  /** What `path_A_contains_path_B` decides: B is the run of A that starts
      at the first occurrence of B[0]. */
  predicate Contains(A: Path, B: Path)
    requires |B| > 0
  {
    B[0] in A && OccursAt(A, B, FirstIndex(A, B[0]))
  }

  /** The lock-step walk of `path_A_contains_path_B`. It indexes B[0]
      unconditionally, so an empty B is outside what it accepts. */
  method PathAContainsPathB(A: Path, B: Path) returns (r: bool)
    requires |B| > 0
    ensures |B| > |A| ==> !r
    ensures r <==> Contains(A, B)
  {
    if |B| > |A| {
      return false;
    }
    if B[0] !in A {
      return false;
    }
    var start := FirstIndex(A, B[0]);
    var idxA := start;
    if idxA + |B| > |A| {
      return false;
    }
    var idxB := 0;
    while idxB < |B|
      invariant 0 <= idxB <= |B|
      invariant idxA == start + idxB
      invariant forall k :: 0 <= k < |B| && k <= idxB ==> A[start + k] == B[k]
    {
      idxB := idxB + 1;
      idxA := idxA + 1;
      if idxB < |B| && idxA < |A| && A[idxA] != B[idxB] {
        return false;
      }
    }
    assert A[start..start + |B|] == B;
    return true;
  }

  /** A positive answer always means B is a contiguous run of A. */
  lemma ContainsIsContiguousRun(A: Path, B: Path)
    requires |B| > 0 && Contains(A, B)
    ensures exists off :: OccursAt(A, B, off)
  {
    assert OccursAt(A, B, FirstIndex(A, B[0]));
  }

  /** When no entry of A repeats, every contiguous run of A is found. */
  lemma ContainsCompleteWhenDistinct(A: Path, B: Path, off: nat)
    requires |B| > 0
    requires forall i, j :: 0 <= i < j < |A| ==> A[i] != A[j]
    requires OccursAt(A, B, off)
    ensures Contains(A, B)
  {
    assert A[off] == B[0];
    FirstIndexUnique(A, B[0], off);
  }

  /** Only the first occurrence of B[0] is tried: [x, y, x, z] holds the run
      [x, z], yet the check answers false. */
  lemma FirstAnchorOnly()
    ensures var A := [Node("x"), Node("y"), Node("x"), Node("z")];
            var B := [Node("x"), Node("z")];
            OccursAt(A, B, 2) && !Contains(A, B)
  {
    var A := [Node("x"), Node("y"), Node("x"), Node("z")];
    var B := [Node("x"), Node("z")];
    FirstIndexUnique(A, B[0], 0);
    assert A[2..4] == B;
    assert A[0..2] != B by { assert A[1] != B[1]; }
  }
}
