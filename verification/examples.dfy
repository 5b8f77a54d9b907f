/**
 The expected values of `test_are_overlapping_and_compatible_NO_gaps_in_overlap`,
 `test_merge_simple_paths` and `test_path_A_contains_path_B`, stated as lemmas
 about the model, and small inputs showing behaviours worth knowing.
 */
module Examples {
  import opened Paths
  import opened Containment
  import opened Overlap
  import opened Merge

  lemma ContainmentExamples()
    ensures Contains([Node("n1"), Node("n2"), Node("n3")], [Node("n2")])
    ensures Contains([Node("n1"), Node("n2"), Node("n3")], [Node("n1"), Node("n2"), Node("n3")])
    ensures !Contains([Node("n1"), Node("n2"), Node("n3")], [Node("n1"), Node("n2"), Node("n3"), Node("n4")])
    ensures !Contains([Node("n1"), Node("n2"), Node("n3")], [Node("n0"), Node("n1"), Node("n2"), Node("n3"), Node("n4")])
    ensures !Contains([Node("n1"), Node("n2"), Node("n3")], [Node("n3"), Node("n4")])
  {
    var A := [Node("n1"), Node("n2"), Node("n3")];
    assert A[0] != Node("n2") && A[1] != Node("n3") && A[0] != Node("n3");
    FirstIndexUnique(A, Node("n1"), 0);
    FirstIndexUnique(A, Node("n2"), 1);
    FirstIndexUnique(A, Node("n3"), 2);
    assert A[0..3] == A;
    assert Node("n0") !in A;
  }

  /** The seven-node path of the unit tests, and the paths it is compared
      with. */
  const N0to6: Path := [Node("n0"), Node("n1"), Node("n2"), Node("n3"), Node("n4"), Node("n5"), Node("n6")]
  const N2to8: Path := [Node("n2"), Node("n3"), Node("n4"), Node("n5"), Node("n6"), Node("n7"), Node("n8")]
  const N2to5: Path := [Node("n2"), Node("n3"), Node("n4"), Node("n5")]

  /** B continues past the end of A. The anchor is `n2`, at 2 in A and 0
      in B. The paths are parameters, so that the verifier does not unfold
      the literals. */
  lemma BTailAnchored(A: Path, B: Path)
    requires A == N0to6 && B == N2to8
    ensures AreOverlappingCompatible(A, B)
  {
    assert !SharedNode(A, B, 0) && !SharedNode(A, B, 1) && B[0] == A[2];
    assert Min(|A| - 3, |B| - 1) == 4;
    assert A[3..7] == B[1..5];
    assert Spacer !in A[3..7];
    CompatibleAt(A, B, 2, 0);
  }

  /** B lies inside A. The anchor is `n2`, at 2 in A and 0 in B. */
  lemma BInsideAnchored(A: Path, B: Path)
    requires A == N0to6 && B == N2to5
    ensures AreOverlappingCompatible(A, B)
  {
    assert !SharedNode(A, B, 0) && !SharedNode(A, B, 1) && B[0] == A[2];
    assert Min(|A| - 3, |B| - 1) == 3;
    assert A[3..6] == B[1..4];
    assert Spacer !in A[3..6];
    CompatibleAt(A, B, 2, 0);
  }

  /** A lies inside B. The anchor is `n2`, at 0 in A and 2 in B. */
  lemma AInsideAnchored(A: Path, B: Path)
    requires A == N2to5 && B == N0to6
    ensures AreOverlappingCompatible(A, B)
  {
    assert B[0] != A[0] && B[1] != A[0] && B[2] == A[0];
    assert Min(|A| - 1, |B| - 3) == 3;
    assert A[1..4] == B[3..6];
    assert Spacer !in A[1..4];
    CompatibleAt(A, B, 0, 2);
  }

  /** A continues past the end of B. The anchor is `n2`, at 0 in A and 2
      in B. */
  lemma ATailAnchored(A: Path, B: Path)
    requires A == N2to8 && B == N0to6
    ensures AreOverlappingCompatible(A, B)
  {
    assert B[0] != A[0] && B[1] != A[0] && B[2] == A[0];
    assert Min(|A| - 1, |B| - 3) == 4;
    assert A[1..5] == B[3..7];
    assert Spacer !in A[1..5];
    CompatibleAt(A, B, 0, 2);
  }

  lemma OverlapExampleBTail()
    ensures AreOverlappingCompatible(N0to6, N2to8)
  {
    BTailAnchored(N0to6, N2to8);
  }

  lemma OverlapExampleBInside()
    ensures AreOverlappingCompatible(N0to6, N2to5)
  {
    BInsideAnchored(N0to6, N2to5);
  }

  lemma OverlapExampleAInside()
    ensures AreOverlappingCompatible(N2to5, N0to6)
  {
    AInsideAnchored(N2to5, N0to6);
  }

  lemma OverlapExampleATail()
    ensures AreOverlappingCompatible(N2to8, N0to6)
  {
    ATailAnchored(N2to8, N0to6);
  }

  /** The first rejected pair of the unit tests: the entry after the anchor
      differs. */
  lemma OverlapCounterExample()
    ensures !AreOverlappingCompatible([Node("n2"), Node("n10"), Node("n4"), Node("n5"), Node("n6"), Node("n7"), Node("n8")],
                                      [Node("n0"), Node("n1"), Node("n2"), Node("n3"), Node("n4"), Node("n5"), Node("n6")])
  {
    var P := [Node("n0"), Node("n1"), Node("n2"), Node("n3"), Node("n4"), Node("n5"), Node("n6")];
    var A := [Node("n2"), Node("n10"), Node("n4"), Node("n5"), Node("n6"), Node("n7"), Node("n8")];
    assert P[0] != A[0] && P[1] != A[0] && P[2] == A[0] && A[0] in P;
    assert A[1] != P[3];
    MismatchAfterAnchor(A, P, 0, 2);
  }

  /** The second rejected pair: the same with a differently spelled entry. */
  lemma OverlapCounterExampleOtherName()
    ensures !AreOverlappingCompatible([Node("n2"), Node("X10"), Node("n4"), Node("n5"), Node("n6"), Node("n7"), Node("n8")],
                                      [Node("n0"), Node("n1"), Node("n2"), Node("n3"), Node("n4"), Node("n5"), Node("n6")])
  {
    var P := [Node("n0"), Node("n1"), Node("n2"), Node("n3"), Node("n4"), Node("n5"), Node("n6")];
    var A := [Node("n2"), Node("X10"), Node("n4"), Node("n5"), Node("n6"), Node("n7"), Node("n8")];
    assert P[0] != A[0] && P[1] != A[0] && P[2] == A[0] && A[0] in P;
    assert A[1] != P[3];
    MismatchAfterAnchor(A, P, 0, 2);
  }

  /** The third rejected pair: no shared node at all. */
  lemma OverlapNoSharedNode()
    ensures !AreOverlappingCompatible([Node("n2"), Node("n10")], [Node("n3"), Node("n4"), Node("n5"), Node("n6")])
  {
    var A3 := [Node("n2"), Node("n10")];
    var B3 := [Node("n3"), Node("n4"), Node("n5"), Node("n6")];
    assert !SharedNode(A3, B3, 0) && !SharedNode(A3, B3, 1);
  }

  /** `n1 n2 n3` merged with `n2 n3 n4 n5`: the anchor is `n2`, at 1 in A
      and 0 in B, so A leads and B's `n4 n5` follow. */
  lemma MergeExtendsA(A: Path, B: Path)
    requires A == [Node("n1"), Node("n2"), Node("n3")]
    requires B == [Node("n2"), Node("n3"), Node("n4"), Node("n5")]
    ensures MergeSimplePaths(A, B) == Ok([Node("n1"), Node("n2"), Node("n3"), Node("n4"), Node("n5")])
  {
    assert !SharedNode(A, B, 0) && B[0] == A[1];
    FindAnchorIs(A, B, 1, 0);
    assert A[2..3] == B[1..2];
    assert A + B[2..] == [Node("n1"), Node("n2"), Node("n3"), Node("n4"), Node("n5")];
  }

  /** `n1 n2 n3` merged with `n2 n3`: B lies inside A, which is returned. */
  lemma MergeKeepsA(A: Path, B: Path)
    requires A == [Node("n1"), Node("n2"), Node("n3")]
    requires B == [Node("n2"), Node("n3")]
    ensures MergeSimplePaths(A, B) == Ok(A)
  {
    assert !SharedNode(A, B, 0) && B[0] == A[1];
    FindAnchorIs(A, B, 1, 0);
    assert A[2..3] == B[1..2];
  }

  /** `n3 n4 n5` merged with `n1 n2 n3`: the anchor is `n3`, at 0 in A and 2
      in B, so B leads and A's `n4 n5` follow. */
  lemma MergeExtendsB(A: Path, B: Path)
    requires A == [Node("n3"), Node("n4"), Node("n5")]
    requires B == [Node("n1"), Node("n2"), Node("n3")]
    ensures MergeSimplePaths(A, B) == Ok([Node("n1"), Node("n2"), Node("n3"), Node("n4"), Node("n5")])
  {
    assert B[0] != A[0] && B[1] != A[0];
    FindAnchorIs(A, B, 0, 2);
    assert B + A[1..] == [Node("n1"), Node("n2"), Node("n3"), Node("n4"), Node("n5")];
  }

  /** The three merges of `test_merge_simple_paths`. */
  lemma MergeExamples()
    ensures MergeSimplePaths([Node("n1"), Node("n2"), Node("n3")], [Node("n2"), Node("n3"), Node("n4"), Node("n5")])
         == Ok([Node("n1"), Node("n2"), Node("n3"), Node("n4"), Node("n5")])
    ensures MergeSimplePaths([Node("n1"), Node("n2"), Node("n3")], [Node("n2"), Node("n3")])
         == Ok([Node("n1"), Node("n2"), Node("n3")])
    ensures MergeSimplePaths([Node("n3"), Node("n4"), Node("n5")], [Node("n1"), Node("n2"), Node("n3")])
         == Ok([Node("n1"), Node("n2"), Node("n3"), Node("n4"), Node("n5")])
  {
    MergeExtendsA([Node("n1"), Node("n2"), Node("n3")], [Node("n2"), Node("n3"), Node("n4"), Node("n5")]);
    MergeKeepsA([Node("n1"), Node("n2"), Node("n3")], [Node("n2"), Node("n3")]);
    MergeExtendsB([Node("n3"), Node("n4"), Node("n5")], [Node("n1"), Node("n2"), Node("n3")]);
  }
}
