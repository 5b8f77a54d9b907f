/**
 Overlap compatibility of two simple paths
 (`are_overlapping_and_compatible_NO_gaps_in_overlap`). The anchor is the
 first non-spacer entry of A that also occurs in B, matched with its first
 occurrence in B; one of the two anchor positions must be the start of its
 path, and from there on both paths must agree, spacer-free, until the
 shorter one runs out.
 */
module Overlap {
  import opened Paths

  /** Positions of the anchor in A and in B. */
  datatype Anchor = Anchor(a: nat, b: nat)

  /** A[i] may serve as anchor: it is a real node that B also visits. */
  predicate SharedNode(A: Path, B: Path, i: nat)
    requires i < |A|
  {
    A[i] != Spacer && A[i] in B
  }

  /** The anchor scan of `are_overlapping_and_compatible_NO_gaps_in_overlap`,
      started at position i of A. */
  function FindAnchorFrom(A: Path, B: Path, i: nat): (r: Option<Anchor>)
    requires i <= |A|
    decreases |A| - i
    ensures r.None? <==> forall j :: i <= j < |A| ==> !SharedNode(A, B, j)
    ensures r.Some? ==>
      && i <= r.value.a < |A|
      && SharedNode(A, B, r.value.a)
      && r.value.b == FirstIndex(B, A[r.value.a])
      && forall j :: i <= j < r.value.a ==> !SharedNode(A, B, j)
  {
    if i == |A| then None
    else if A[i] != Spacer && A[i] in B then
      assert SharedNode(A, B, i);
      Some(Anchor(i, FirstIndex(B, A[i])))
    else FindAnchorFrom(A, B, i + 1)
  }

  function FindAnchor(A: Path, B: Path): Option<Anchor> {
    FindAnchorFrom(A, B, 0)
  }

  function Min(x: int, y: int): int {
    if x <= y then x else y
  }

  /** From positions i of A and j of B to the end of the shorter path, the
      two agree entry by entry and A has no spacer. */
  predicate AgreeGapFree(A: Path, B: Path, i: nat, j: nat)
    requires i <= |A| && j <= |B|
  {
    var n := Min(|A| - i, |B| - j);
    A[i..i + n] == B[j..j + n] && Spacer !in A[i..i + n]
  }

  /** Gap-free agreement from (i, j) is agreement of the first pair plus
      gap-free agreement from the next pair. */
  lemma AgreeGapFreeStep(A: Path, B: Path, i: nat, j: nat)
    requires i < |A| && j < |B|
    ensures AgreeGapFree(A, B, i, j)
            <==> A[i] != Spacer && A[i] == B[j] && AgreeGapFree(A, B, i + 1, j + 1)
  {
    var n := Min(|A| - i, |B| - j);
    var m := Min(|A| - (i + 1), |B| - (j + 1));
    assert n == m + 1;
    var sa, sb := A[i + 1..i + 1 + m], B[j + 1..j + 1 + m];
    assert A[i..i + n] == [A[i]] + sa;
    assert B[j..j + n] == [B[j]] + sb;
    SeqConsEq(A[i], sa, B[j], sb);
  }

  lemma SeqConsEq(x: Entry, s: seq<Entry>, y: Entry, t: seq<Entry>)
    ensures [x] + s == [y] + t <==> x == y && s == t
    ensures Spacer in [x] + s <==> x == Spacer || Spacer in s
  {
    if [x] + s == [y] + t {
      assert ([x] + s)[0] == x && ([y] + t)[0] == y;
      assert ([x] + s)[1..] == s && ([y] + t)[1..] == t;
    }
  }

  /** The lock-step walk after the anchor. */
  function WalkTails(A: Path, B: Path, i: nat, j: nat): (r: bool)
    requires i <= |A| && j <= |B|
    decreases |A| - i
    ensures r <==> AgreeGapFree(A, B, i, j)
  {
    if i == |A| || j == |B| then true
    else
      AgreeGapFreeStep(A, B, i, j);
      if A[i] == Spacer || A[i] != B[j] then false
      else WalkTails(A, B, i + 1, j + 1)
  }

  /** The overlap condition the merge relies on, for a given anchor. */
  predicate AnchoredOverlap(A: Path, B: Path, an: Anchor)
    requires an.a < |A| && an.b < |B|
  {
    (an.a == 0 || an.b == 0) && AgreeGapFree(A, B, an.a + 1, an.b + 1)
  }

  /** `are_overlapping_and_compatible_NO_gaps_in_overlap`. */
  function AreOverlappingCompatible(A: Path, B: Path): (r: bool)
    ensures (forall i :: 0 <= i < |A| ==> !SharedNode(A, B, i)) ==> !r
    ensures r <==> FindAnchor(A, B).Some? && AnchoredOverlap(A, B, FindAnchor(A, B).value)
  {
    match FindAnchor(A, B)
    case None => false
    case Some(an) =>
      if an.b != 0 && an.a != 0 then false
      else WalkTails(A, B, an.a + 1, an.b + 1)
  }

  /** Both anchor positions past the start: never compatible. */
  lemma BothAnchorsInsideIncompatible(A: Path, B: Path)
    requires FindAnchor(A, B).Some?
    requires FindAnchor(A, B).value.a > 0 && FindAnchor(A, B).value.b > 0
    ensures !AreOverlappingCompatible(A, B)
  {
  }

  /** The anchor is pinned down by its defining facts: the first shared
      node of A, matched with its first occurrence in B. */
  lemma FindAnchorIs(A: Path, B: Path, a: nat, b: nat)
    requires a < |A| && SharedNode(A, B, a)
    requires forall j :: 0 <= j < a ==> !SharedNode(A, B, j)
    requires b < |B| && B[b] == A[a]
    requires forall j :: 0 <= j < b ==> B[j] != A[a]
    ensures FindAnchor(A, B) == Some(Anchor(a, b))
  {
    FirstIndexUnique(B, A[a], b);
  }

  /** Compatibility from the anchor's defining facts, one of its indices
      being zero, and the tails agreeing gap-free after it: the converse of
      `OverlapRegionsAgree`. */
  lemma CompatibleAt(A: Path, B: Path, a: nat, b: nat)
    requires a < |A| && b < |B| && (a == 0 || b == 0)
    requires SharedNode(A, B, a) && forall j :: 0 <= j < a ==> !SharedNode(A, B, j)
    requires B[b] == A[a] && forall j :: 0 <= j < b ==> B[j] != A[a]
    requires AgreeGapFree(A, B, a + 1, b + 1)
    ensures AreOverlappingCompatible(A, B)
  {
    FindAnchorIs(A, B, a, b);
  }

  /** Incompatibility from the anchor's defining facts and one mismatch
      right after it. */
  lemma MismatchAfterAnchor(A: Path, B: Path, a: nat, b: nat)
    requires a + 1 < |A| && b + 1 < |B|
    requires SharedNode(A, B, a) && forall j :: 0 <= j < a ==> !SharedNode(A, B, j)
    requires B[b] == A[a] && forall j :: 0 <= j < b ==> B[j] != A[a]
    requires A[a + 1] != B[b + 1]
    ensures !AreOverlappingCompatible(A, B)
  {
    FindAnchorIs(A, B, a, b);
    var n := Min(|A| - (a + 1), |B| - (b + 1));
    assert A[a + 1..a + 1 + n][0] != B[b + 1..b + 1 + n][0];
  }

  /** On compatible paths the anchored regions coincide: from the anchor to
      the end of the shorter remainder A and B are equal and A has no
      spacer. */
  lemma OverlapRegionsAgree(A: Path, B: Path)
    requires AreOverlappingCompatible(A, B)
    ensures FindAnchor(A, B).Some?
    ensures AgreeGapFree(A, B, FindAnchor(A, B).value.a, FindAnchor(A, B).value.b)
  {
    var an := FindAnchor(A, B).value;
    AgreeGapFreeStep(A, B, an.a, an.b);
  }

  /** A spacer-free, non-empty path is compatible with itself, anchored at
      the start of both copies. */
  lemma SelfCompatible(A: Path)
    requires |A| > 0
    requires forall i :: 0 <= i < |A| ==> A[i] != Spacer
    ensures FindAnchor(A, A) == Some(Anchor(0, 0))
    ensures AreOverlappingCompatible(A, A)
  {
    FirstIndexUnique(A, A[0], 0);
  }
}
