# Simple-path utilities of PASA-SALRAA, in Dafny

This project models `pylib/Simple_path_utils.py`: the routines that compare and
merge *simple paths*, which are ordered sequences of splice-graph node
identifiers. A path may also contain the `SPACER` marker, which stands for an
unannotated stretch between two nodes. The model covers:

- **Containment** (`path_A_contains_path_B`): B is aligned at the first
  occurrence of `B[0]` in A and the two are compared in lock-step.
- **Overlap compatibility**
  (`are_overlapping_and_compatible_NO_gaps_in_overlap`):
  - The *anchor* is the first non-spacer entry of A that occurs in B. It is
    paired with its first position in B.
  - One of the two anchor positions must be 0.
  - The tails after the anchor must agree, without spacers, until the
    shorter path ends.
- **Plain merge** (`merge_simple_paths`): the anchor decides which path leads.
  The other path's overhang is appended to it. When both anchors are at
  position 0, the longer path is the result.
- **Interval coalescing** (`merge_adjacent_segments`): `[start, end]`
  intervals are sorted by start and scanned. Adjacent intervals fuse, a
  contained interval with the same end is dropped, and a disjoint interval is
  kept. Anything else is an error.
- **Spacer-aware merge**, in three steps:
  - `_convert_path_to_nodes_with_coords_list` attaches coordinates to the
    entries. A spacer between two nodes fills the gap between them.
  - `_split_spacers_with_coords` turns each spacer into two zero-width
    points.
  - `merge_simple_paths_containing_spacers` concatenates both lists,
    stable-sorts them by `(left, right)`, and coalesces consecutive entries
    that have the same entry.

Modules follow the structure of the source file:

- `Paths` defines the shared vocabulary:
  - entries: `Node(id)` or `Spacer`;
  - the error kinds;
  - a `Result` type;
  - `FirstIndex`, which is Python's `list.index`.
- `Containment`, `Overlap` and `Merge` model the three path routines.
- `Sorting` is a stable insertion sort on lexicographic integer-pair keys. It
  stands for Python's `sorted`.
- `Segments` models interval coalescing.
- `Annotate` covers coordinate attachment and spacer splitting.
- `SpacerMerge` models the spacer-aware merge.
- `Examples`, `SegmentExamples` and `SpacerExample` state the expected values
  of the source's unit tests as lemmas, plus one concrete input for each
  branch of the interval scan.

The node registry (`Splice_graph` and its `get_node_obj_via_id(...).get_coords()`)
is not part of this model. It becomes a parameter: a map from identifier to
`(left, right)`. An identifier missing from the map is the error
`UnknownIdentifier`.

Where the source raises (`RuntimeException`, `RuntimeError`, or a bare
`assert`), the model returns a `Failure` that names the condition:

- `IncompatiblePaths` and `MergeLogicError` for the plain merge;
- `UnmergeableSegments` and `SegmentNotExtending` for interval coalescing;
- `InconsistentCoordinates` for the spacer-aware merge.

Two behaviours are modelled as the code has them:

- **The equal-length tie.** With both anchors at 0 and paths of equal length,
  the code returns A (`>=` at line 128). `MergeTieIsEqual` proves that such a
  tie can only happen when A and B are the same path, so the choice cannot be
  observed.
- **Spacer coalescing ignores the left bound.** Any two consecutive spacer
  entries coalesce, whatever their left bounds (lines 249-252). This is what
  joins the two boundary points of one split spacer back into a single spacer,
  as in the unit test's `(S,201,201),(S,299,299)` becoming `(S,201,299)`.
- **Adjacent spacers read half-updated neighbours.** The spacer pass rewrites
  the list in place from left to right (lines 197-200). A spacer therefore
  reads the entry on its left as already rewritten, and the entry on its
  right as not yet rewritten. For two adjacent spacers between `(a,1,10)` and
  `(b,20,30)` the first becomes `(11,-2)` and the second `(-1,19)`
  (`SpacerExample.ConvertAdjacentSpacers`).

## Model

| member | source | states |
|---|---|---|
| Paths.FirstIndex | pylib/Simple_path_utils.py:52 | `list.index`: the returned position holds the element and no earlier position does |
| Containment.PathAContainsPathB | pylib/Simple_path_utils.py:44-68 | false whenever B is longer than A; otherwise true exactly when B equals the slice of A that starts at the first index of `B[0]` |
| Containment.ContainsIsContiguousRun | pylib/Simple_path_utils.py:56-68 | a positive containment answer means B occurs in A as a contiguous run |
| Containment.ContainsCompleteWhenDistinct | pylib/Simple_path_utils.py:49-68 | when no entry of A repeats, every contiguous occurrence of B in A is detected |
| Containment.FirstAnchorOnly | pylib/Simple_path_utils.py:52 | only the first occurrence of `B[0]` is tried: `[x,z]` occurs in `[x,y,x,z]` at offset 2, yet containment is false |
| Overlap.FindAnchorFrom | pylib/Simple_path_utils.py:74-79 | the scan finds no anchor exactly when no non-spacer entry of A occurs in B; otherwise it returns the first such position of A, paired with the first index of that entry in B |
| Overlap.AgreeGapFreeStep | pylib/Simple_path_utils.py:88-92 | gap-free agreement from a pair of positions is a matching non-spacer pair followed by gap-free agreement from the next pair |
| Overlap.WalkTails | pylib/Simple_path_utils.py:86-95 | the lock-step walk succeeds exactly when the two tails agree, entry by entry and without spacers in A, up to the end of the shorter one |
| Overlap.AreOverlappingCompatible | pylib/Simple_path_utils.py:71-97 | false when A shares no non-spacer node with B; otherwise true exactly when one anchor position is 0 and the tails after the anchor agree gap-free |
| Overlap.BothAnchorsInsideIncompatible | pylib/Simple_path_utils.py:82-83 | with both anchor positions non-zero the paths are incompatible |
| Overlap.FindAnchorIs | pylib/Simple_path_utils.py:74-79 | the anchor is determined by its two defining facts: it is the first shared node of A, and it is matched with its first occurrence in B |
| Overlap.OverlapRegionsAgree | pylib/Simple_path_utils.py:85-95 | on compatible paths, `A[a+k] == B[b+k]` holds from the anchor `(a, b)` to the end of the shorter remainder, and none of these entries is a spacer |
| Overlap.SelfCompatible | pylib/Simple_path_utils.py:74-95 | a non-empty spacer-free path is compatible with itself, anchored at 0 in both copies |
| Merge.MergeSimplePaths | pylib/Simple_path_utils.py:101-147 | the merge fails exactly when the paths are not overlap-compatible, and the failure is `IncompatiblePaths`; the internal-bug failures of the source are unreachable |
| Merge.MergeLayoutBLeads | pylib/Simple_path_utils.py:116-126 | when A's anchor is at 0 and B's is past 0: B starts the result, A occurs at B's anchor position, and the length is `max(\|B\|, b+\|A\|)` |
| Merge.MergeLayoutALeads | pylib/Simple_path_utils.py:133-145 | when A's anchor is past 0: B's anchor is 0, A starts the result, B occurs at A's anchor position, and the length is `max(\|A\|, a+\|B\|)` |
| Merge.MergeLayoutBothAtStart | pylib/Simple_path_utils.py:127-131 | with both anchors at 0, the result is the longer path (A on a tie), and both inputs are prefixes of it |
| Merge.MergeContainsBoth | pylib/Simple_path_utils.py:116-145 | a successful merge contains each input in the sense of `path_A_contains_path_B` |
| Merge.MergeSelf | pylib/Simple_path_utils.py:127-129 | merging a non-empty spacer-free path with itself returns the path |
| Merge.MergeTieIsEqual | pylib/Simple_path_utils.py:128-131 | compatible paths of equal length anchored at both starts are equal, so returning A or B on a tie is the same |
| Sorting.Insert | pylib/Simple_path_utils.py:153 | one insertion step of the sort adds exactly one element |
| Sorting.InsertPermutes | pylib/Simple_path_utils.py:153 | insertion adds `x` and keeps every other element, as a multiset |
| Sorting.InsertSorted | pylib/Simple_path_utils.py:153 | insertion into a key-sorted sequence keeps it sorted |
| Sorting.InsertAt | pylib/Simple_path_utils.py:238 | insertion lands after every element of smaller key and before the first element whose key is not smaller |
| Sorting.Sort | pylib/Simple_path_utils.py:153 | the sort keeps the length of its input |
| Sorting.SortPermutes | pylib/Simple_path_utils.py:153 | the sort's output is a permutation of its input |
| Sorting.SortSorted | pylib/Simple_path_utils.py:153 | the sort's output is ordered by key, lexicographically as Python compares tuples |
| Sorting.SortStable | pylib/Simple_path_utils.py:238 | stability: for every key, the elements carrying that key keep their input order |
| Sorting.SortSortedIdentity | pylib/Simple_path_utils.py:153 | sorting an already sorted sequence changes nothing |
| Segments.Coalesce | pylib/Simple_path_utils.py:158-172 | the scan keeps the first start, never grows the input, preserves gappedness and well-formedness, cannot hit the adjacency assertion on well-formed input, and fails with `UnmergeableSegments` on any overlap that is neither adjacency nor same-end containment |
| Segments.CoalesceCovers | pylib/Simple_path_utils.py:160-170 | on well-formed intervals, the scan covers exactly the integers its inputs cover |
| Segments.CoalesceGappedIdentity | pylib/Simple_path_utils.py:158-172 | a gapped, well-formed sequence passes the scan unchanged |
| Segments.MergeAdjacentSegments | pylib/Simple_path_utils.py:151-175 | on success the result is non-empty, no longer than the input, and gapped (`next.start >= prev.end+2`); it starts at the smallest input start; well-formedness is kept and the adjacency assertion cannot fire on well-formed input |
| Segments.CoalesceCoversSorted | pylib/Simple_path_utils.py:158-170 | when every interval still to come starts no earlier than the last one kept, the scan covers exactly the integers its inputs cover, reversed intervals included |
| Segments.MergeAdjacentSegmentsCovers | pylib/Simple_path_utils.py:151-175 | the result covers exactly the integers the input covers |
| Segments.MergeAdjacentSegmentsOrdered | pylib/Simple_path_utils.py:151-175 | on well-formed input the result is sorted by start: each interval ends before any later one starts |
| Segments.MergeAdjacentSegmentsIdempotent | pylib/Simple_path_utils.py:151-175 | coalescing a coalesced list gives it back unchanged |
| SegmentExamples.AdjacentIntervalsJoin | pylib/Simple_path_utils.py:162-165 | `[5,9],[1,4]` gives `[1,9]` |
| SegmentExamples.ContainedIntervalDropped | pylib/Simple_path_utils.py:166-168 | `[1,4],[2,4]` gives `[1,4]` |
| SegmentExamples.DisjointIntervalsKept | pylib/Simple_path_utils.py:169-170 | `[7,9],[1,4]` gives `[1,4],[7,9]` |
| SegmentExamples.OverlapRejected | pylib/Simple_path_utils.py:171-172 | `[1,4],[3,6]` is refused with `UnmergeableSegments` |
| SegmentExamples.ReversedAdjacentRejected | pylib/Simple_path_utils.py:164 | an adjacent interval that does not reach further right trips the assertion |
| SegmentExamples.UnsortedReversedFuseLoses | pylib/Simple_path_utils.py:162-165 | out of start order, `[7,4]` then `[5,9]` fuses to `[7,9]`, which no longer covers 5 |
| Annotate.LookUpNodes | pylib/Simple_path_utils.py:184-192 | every node gets its registered span and every spacer gets `(-1,-1)`, with entries and length unchanged; the pass fails exactly when some identifier of the path is missing from the registry |
| Annotate.FillSpacers | pylib/Simple_path_utils.py:195-200 | the in-place left-to-right pass: each spacer starts one past the right end of the entry before it as already rewritten, and ends one short of the left end of the entry after it as not yet rewritten; other entries are unchanged |
| Annotate.ConvertPathToCoords | pylib/Simple_path_utils.py:180-202 | succeeds exactly when every node is registered; the length and entry order are preserved; nodes carry their registered span; each spacer starts just after its left neighbour; it ends just before a following node, or at -2 when another spacer follows |
| Annotate.SplitSpacers | pylib/Simple_path_utils.py:206-218 | the output length is the input length plus the number of spacers; the node entries are unchanged and in order; every spacer point has zero width |
| Annotate.SplitSpacersRoundTrip | pylib/Simple_path_utils.py:206-218 | splitting loses nothing: rejoining each pair of spacer points restores the input |
| SpacerMerge.CoalesceEntries | pylib/Simple_path_utils.py:243-258 | the scan succeeds exactly when every pair of consecutive entries for the same node carries identical coordinates, and fails otherwise with `InconsistentCoordinates`; it keeps the first left bound and never grows the input |
| SpacerMerge.CoalesceEntriesNoRepeats | pylib/Simple_path_utils.py:243-258 | no two consecutive output entries share an entry |
| SpacerMerge.CoalesceEntriesLeftsOrdered | pylib/Simple_path_utils.py:243-258 | fed entries in left order, the output's left bounds never decrease |
| SpacerMerge.CoalesceEntriesNodes | pylib/Simple_path_utils.py:243-258 | the scan neither loses nor invents a node entry |
| SpacerMerge.RegistryConsistent | pylib/Simple_path_utils.py:254 | entries drawn from one registry always satisfy the same-node consistency check |
| SpacerMerge.SortedPoints | pylib/Simple_path_utils.py:230-238 | the annotated, split and sorted list exists exactly when both paths are fully registered; it is at least as long as the two paths together, sorted by `(left, right)`, and every node in it carries its registered span |
| SpacerMerge.CoalesceSortedPoints | pylib/Simple_path_utils.py:238-258 | the scan over the sorted list always succeeds and yields a non-empty list without adjacent repeats, in left order |
| SpacerMerge.SortedPointsNodes | pylib/Simple_path_utils.py:230-238 | a node with a given span is in the sorted list exactly when one of the paths visits it and the registry gives it that span |
| SpacerMerge.MergeSimplePathsContainingSpacers | pylib/Simple_path_utils.py:223-260 | succeeds exactly when every node of both paths is registered, and otherwise fails with an unknown identifier; on success the result is non-empty, has no two consecutive equal entries, and its left bounds never decrease |
| SpacerMerge.MergeSpacersNodes | pylib/Simple_path_utils.py:223-260 | the merged node entries are exactly the nodes of the two paths, each with its registered span |
| Examples.ContainmentExamples | pylib/Simple_path_utils.py:354-389 | the five containment unit tests: two true, three false |
| Examples.OverlapExampleBTail | pylib/Simple_path_utils.py:271-277 | B continues past the end of A: compatible |
| Examples.OverlapExampleBInside | pylib/Simple_path_utils.py:280-284 | B lies inside A: compatible |
| Examples.OverlapExampleAInside | pylib/Simple_path_utils.py:287-291 | A lies inside B: compatible |
| Examples.OverlapExampleATail | pylib/Simple_path_utils.py:294-298 | A continues past the end of B: compatible |
| Overlap.CompatibleAt | pylib/Simple_path_utils.py:74-95 | compatibility follows from the anchor's defining facts, one anchor position being 0, and gap-free agreement of the tails |
| Overlap.MismatchAfterAnchor | pylib/Simple_path_utils.py:88-90 | a mismatch right after the anchor makes the paths incompatible |
| Examples.OverlapCounterExample | pylib/Simple_path_utils.py:305-309 | the entry after the anchor differs (`n10` against `n3`): incompatible |
| Examples.OverlapCounterExampleOtherName | pylib/Simple_path_utils.py:312-316 | the same mismatch with `X10`: incompatible |
| Examples.OverlapNoSharedNode | pylib/Simple_path_utils.py:319-323 | no entry of A occurs in B: incompatible |
| Examples.MergeExtendsA | pylib/Simple_path_utils.py:332-336 | `n1 n2 n3` merged with `n2 n3 n4 n5` gives `n1 n2 n3 n4 n5` |
| Examples.MergeKeepsA | pylib/Simple_path_utils.py:340-344 | `n1 n2 n3` merged with `n2 n3` gives `n1 n2 n3` |
| Examples.MergeExtendsB | pylib/Simple_path_utils.py:347-351 | `n3 n4 n5` merged with `n1 n2 n3` gives `n1 n2 n3 n4 n5` |
| Examples.MergeExamples | pylib/Simple_path_utils.py:327-351 | the three plain-merge unit tests give their expected paths |
| SpacerExample.ConvertA | pylib/Simple_path_utils.py:417-420 | annotating `[E1,E2,S,E3]` gives the spacer span 401-499 |
| SpacerExample.ConvertAdjacentSpacers | pylib/Simple_path_utils.py:195-200 | with two adjacent spacers between `(a,1,10)` and `(b,20,30)` the first spacer becomes `(11,-2)` and the second `(-1,19)` |
| SpacerExample.ConvertB | pylib/Simple_path_utils.py:418-421 | annotating `[E1,S,E2,S,E3,S,E5]` gives the spacer spans 201-299, 401-499 and 601-899 |
| SpacerExample.SortIsSortedAB | pylib/Simple_path_utils.py:237-238 | the stable sort of the unit test's two split lists |
| SpacerExample.CoalesceSortedAB | pylib/Simple_path_utils.py:240-258 | the scan of the unit test's sorted list gives the expected merged path |
| SpacerExample.SpacerMergeTest | pylib/Simple_path_utils.py:393-430 | the spacer-aware merge unit test yields exactly `[(E1,100,200),(S,201,299),(E2,300,400),(S,401,499),(E3,500,600),(S,601,899),(E5,900,1000)]` |

## Left out

- Python aliasing and in-place mutation. `merge_simple_paths` extends and
  returns its own argument lists (lines 119, 125, 138, 144). The coalescing
  loops also update list objects in place. The model has value semantics, so
  every result is a fresh sequence and the caller's inputs are never changed.
- Python's exception mechanics. `RuntimeException` (lines 104, 147) is an
  undefined name, so raising it would itself fail. The model replaces every
  raise and every bare `assert` with a `Failure` value, without modelling
  Python's exception types.
- `Containment.PathAContainsPathB`: an empty B is excluded by a precondition.
  The source indexes `B[0]` without a check and would raise `IndexError`.
- `Segments.MergeAdjacentSegments` and
  `SpacerMerge.MergeSimplePathsContainingSpacers`: empty input is excluded by
  a precondition. The source's `pop(0)` at lines 156 and 241 would raise on
  an empty list.
- `Annotate.ConvertPathToCoords`: a spacer may not be the first or the last
  entry. This is a precondition (`WellPlacedSpacers`). The code would raise
  `IndexError` for a trailing spacer at line 200. For a leading spacer it
  would use Python's negative-index wrap-around at line 199 and read the last
  entry. Adjacent spacers are accepted and modelled.
- `Splice_graph`, `Exon` and `get_node_obj_via_id(...).get_coords()` are not
  part of this model. The registry is a map parameter, and a missing
  identifier is the error `UnknownIdentifier`.
- `SpacerMerge.MergeSimplePathsContainingSpacers`: the consistency assertion
  at line 254 cannot fail here. Both paths are annotated from the same
  registry (`RegistryConsistent`). `CoalesceEntries` still models the
  failure, for any input list.
- `Segments.CoalesceCovers`, `Segments.MergeAdjacentSegmentsOrdered` and
  `Segments.MergeAdjacentSegmentsIdempotent` are stated only for well-formed
  intervals (`start <= end`). Fusing never covers an integer that neither
  part covers. Out of start order, though, fusing onto a reversed interval
  covers fewer: `[7,4]` then `[5,9]` becomes `[7,9]`, which loses 5 and 6
  (`SegmentExamples.UnsortedReversedFuseLoses`). For the sorted scan itself,
  coverage is proved without this condition
  (`Segments.CoalesceCoversSorted`, `Segments.MergeAdjacentSegmentsCovers`).
  The ordering and idempotence proofs use `start <= end`.
- The `print` calls of the unit-test harness (lines 264-430). Only the
  expected values of the tests are kept, as lemmas.
