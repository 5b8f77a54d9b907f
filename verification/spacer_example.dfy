/**
 The expected value of `test_merge_simple_paths_containing_spacers`: five exons at
 100-200, 300-400, 500-600, 700-800 and 900-1000, and the two paths
 [E1, E2, S, E3] and [E1, S, E2, S, E3, S, E5].
 */
module SpacerExample {
  import opened Paths
  import opened Sorting
  import opened Annotate
  import opened SpacerMerge

  const E1 := Node("E:1")
  const E2 := Node("E:2")
  const E3 := Node("E:3")
  const E5 := Node("E:5")

  const Reg: Registry := map["E:1" := (100, 200), "E:2" := (300, 400), "E:3" := (500, 600),
                             "E:4" := (700, 800), "E:5" := (900, 1000)]

  const PathA: Path := [E1, E2, Spacer, E3]
  const PathB: Path := [E1, Spacer, E2, Spacer, E3, Spacer, E5]

  lemma ConvertA()
    ensures WellPlacedSpacers(PathA)
    ensures ConvertPathToCoords(Reg, PathA)
         == Ok([Annotated(E1, 100, 200), Annotated(E2, 300, 400), Annotated(Spacer, 401, 499),
                Annotated(E3, 500, 600)])
  {
    assert AllKnown(Reg, PathA);
    var l := ConvertPathToCoords(Reg, PathA).value;
    assert l[0] == Annotated(E1, 100, 200) && l[1] == Annotated(E2, 300, 400);
    assert l[3] == Annotated(E3, 500, 600);
    assert l[2] == Annotated(Spacer, 401, 499);
    assert l == [Annotated(E1, 100, 200), Annotated(E2, 300, 400), Annotated(Spacer, 401, 499),
                 Annotated(E3, 500, 600)];
  }

  lemma ConvertB()
    ensures WellPlacedSpacers(PathB)
    ensures ConvertPathToCoords(Reg, PathB)
         == Ok([Annotated(E1, 100, 200), Annotated(Spacer, 201, 299), Annotated(E2, 300, 400),
                Annotated(Spacer, 401, 499), Annotated(E3, 500, 600), Annotated(Spacer, 601, 899),
                Annotated(E5, 900, 1000)])
  {
    assert AllKnown(Reg, PathB);
    var l := ConvertPathToCoords(Reg, PathB).value;
    assert l[0] == Annotated(E1, 100, 200) && l[2] == Annotated(E2, 300, 400);
    assert l[4] == Annotated(E3, 500, 600) && l[6] == Annotated(E5, 900, 1000);
    assert l[1] == Annotated(Spacer, 201, 299) && l[3] == Annotated(Spacer, 401, 499);
    assert l[5] == Annotated(Spacer, 601, 899);
    assert l == [Annotated(E1, 100, 200), Annotated(Spacer, 201, 299), Annotated(E2, 300, 400),
                 Annotated(Spacer, 401, 499), Annotated(E3, 500, 600), Annotated(Spacer, 601, 899),
                 Annotated(E5, 900, 1000)];
  }

  /** Two adjacent spacers: the second one starts after the first as just
      rewritten, and the first one ends before the placeholder -1 the second
      one still holds at that point. */
  lemma ConvertAdjacentSpacers()
    ensures ConvertPathToCoords(map["a" := (1, 10), "b" := (20, 30)],
                                [Node("a"), Spacer, Spacer, Node("b")])
         == Ok([Annotated(Node("a"), 1, 10), Annotated(Spacer, 11, -2), Annotated(Spacer, -1, 19),
                Annotated(Node("b"), 20, 30)])
  {
    var reg: Registry := map["a" := (1, 10), "b" := (20, 30)];
    var p: Path := [Node("a"), Spacer, Spacer, Node("b")];
    assert WellPlacedSpacers(p);
    assert AllKnown(reg, p);
    var l := ConvertPathToCoords(reg, p).value;
    assert l[0] == Annotated(Node("a"), 1, 10) && l[3] == Annotated(Node("b"), 20, 30);
    assert l[1] == Annotated(Spacer, 11, -2);
    assert l[2] == Annotated(Spacer, -1, 19);
    assert l == [Annotated(Node("a"), 1, 10), Annotated(Spacer, 11, -2), Annotated(Spacer, -1, 19),
                 Annotated(Node("b"), 20, 30)];
  }

  const SplitA: seq<Annotated> :=
    [Annotated(E1, 100, 200), Annotated(E2, 300, 400), Annotated(Spacer, 401, 401),
     Annotated(Spacer, 499, 499), Annotated(E3, 500, 600)]

  const SplitB: seq<Annotated> :=
    [Annotated(E1, 100, 200), Annotated(Spacer, 201, 201), Annotated(Spacer, 299, 299),
     Annotated(E2, 300, 400), Annotated(Spacer, 401, 401), Annotated(Spacer, 499, 499),
     Annotated(E3, 500, 600), Annotated(Spacer, 601, 601), Annotated(Spacer, 899, 899),
     Annotated(E5, 900, 1000)]

  /** Splitting a list of one or two entries, entry by entry. */
  lemma SplitShort(l: seq<Annotated>)
    requires 0 < |l| <= 2
    ensures SplitSpacers(l) == SplitOne(l[0]) + (if |l| == 2 then SplitOne(l[1]) else [])
  {
    if |l| == 2 {
      assert l[1..][1..] == [];
    }
  }

  lemma SplitAIs(l: seq<Annotated>)
    requires l == [Annotated(E1, 100, 200), Annotated(E2, 300, 400), Annotated(Spacer, 401, 499),
                   Annotated(E3, 500, 600)]
    ensures SplitSpacers(l) == SplitA
  {
    assert l == l[..2] + l[2..];
    SplitSpacersConcat(l[..2], l[2..]);
    SplitShort(l[..2]);
    SplitShort(l[2..]);
  }

  lemma SplitBHead(l: seq<Annotated>)
    requires l == [Annotated(E1, 100, 200), Annotated(Spacer, 201, 299), Annotated(E2, 300, 400),
                   Annotated(Spacer, 401, 499)]
    ensures SplitSpacers(l)
         == [Annotated(E1, 100, 200), Annotated(Spacer, 201, 201), Annotated(Spacer, 299, 299),
             Annotated(E2, 300, 400), Annotated(Spacer, 401, 401), Annotated(Spacer, 499, 499)]
  {
    assert l == l[..2] + l[2..];
    SplitSpacersConcat(l[..2], l[2..]);
    SplitShort(l[..2]);
    SplitShort(l[2..]);
  }

  lemma SplitBTail(l: seq<Annotated>)
    requires l == [Annotated(E3, 500, 600), Annotated(Spacer, 601, 899), Annotated(E5, 900, 1000)]
    ensures SplitSpacers(l)
         == [Annotated(E3, 500, 600), Annotated(Spacer, 601, 601), Annotated(Spacer, 899, 899),
             Annotated(E5, 900, 1000)]
  {
    assert l == l[..2] + l[2..];
    SplitSpacersConcat(l[..2], l[2..]);
    SplitShort(l[..2]);
    SplitShort(l[2..]);
  }

  lemma SplitBIs(l: seq<Annotated>)
    requires l == [Annotated(E1, 100, 200), Annotated(Spacer, 201, 299), Annotated(E2, 300, 400),
                   Annotated(Spacer, 401, 499), Annotated(E3, 500, 600), Annotated(Spacer, 601, 899),
                   Annotated(E5, 900, 1000)]
    ensures SplitSpacers(l) == SplitB
  {
    assert l == l[..4] + l[4..];
    SplitSpacersConcat(l[..4], l[4..]);
    SplitBHead(l[..4]);
    SplitBTail(l[4..]);
  }

  const SortedAB: seq<Annotated> :=
    [Annotated(E1, 100, 200), Annotated(E1, 100, 200), Annotated(Spacer, 201, 201),
     Annotated(Spacer, 299, 299), Annotated(E2, 300, 400), Annotated(E2, 300, 400),
     Annotated(Spacer, 401, 401), Annotated(Spacer, 401, 401), Annotated(Spacer, 499, 499),
     Annotated(Spacer, 499, 499), Annotated(E3, 500, 600), Annotated(E3, 500, 600),
     Annotated(Spacer, 601, 601), Annotated(Spacer, 899, 899), Annotated(E5, 900, 1000)]

  lemma SplitBSorted()
    ensures SortedBy(SplitB, SpanKey)
  {
    NeighboursSorted(SplitB, SpanKey);
  }

  const T4: seq<Annotated> :=
    [Annotated(E1, 100, 200), Annotated(Spacer, 201, 201), Annotated(Spacer, 299, 299),
     Annotated(E2, 300, 400), Annotated(Spacer, 401, 401), Annotated(Spacer, 499, 499),
     Annotated(E3, 500, 600), Annotated(E3, 500, 600), Annotated(Spacer, 601, 601),
     Annotated(Spacer, 899, 899), Annotated(E5, 900, 1000)]
  const T3: seq<Annotated> :=
    [Annotated(E1, 100, 200), Annotated(Spacer, 201, 201), Annotated(Spacer, 299, 299),
     Annotated(E2, 300, 400), Annotated(Spacer, 401, 401), Annotated(Spacer, 499, 499),
     Annotated(Spacer, 499, 499), Annotated(E3, 500, 600), Annotated(E3, 500, 600),
     Annotated(Spacer, 601, 601), Annotated(Spacer, 899, 899), Annotated(E5, 900, 1000)]
  const T2: seq<Annotated> :=
    [Annotated(E1, 100, 200), Annotated(Spacer, 201, 201), Annotated(Spacer, 299, 299),
     Annotated(E2, 300, 400), Annotated(Spacer, 401, 401), Annotated(Spacer, 401, 401),
     Annotated(Spacer, 499, 499), Annotated(Spacer, 499, 499), Annotated(E3, 500, 600),
     Annotated(E3, 500, 600), Annotated(Spacer, 601, 601), Annotated(Spacer, 899, 899),
     Annotated(E5, 900, 1000)]
  const T1: seq<Annotated> :=
    [Annotated(E1, 100, 200), Annotated(Spacer, 201, 201), Annotated(Spacer, 299, 299),
     Annotated(E2, 300, 400), Annotated(E2, 300, 400), Annotated(Spacer, 401, 401),
     Annotated(Spacer, 401, 401), Annotated(Spacer, 499, 499), Annotated(Spacer, 499, 499),
     Annotated(E3, 500, 600), Annotated(E3, 500, 600), Annotated(Spacer, 601, 601),
     Annotated(Spacer, 899, 899), Annotated(E5, 900, 1000)]

  /** One insertion-sort step, with the sorted tail and the result given. */
  lemma SortStep(x: Annotated, rest: seq<Annotated>, sorted: seq<Annotated>, t: seq<Annotated>)
    requires Sort(rest, SpanKey) == sorted
    requires Insert(x, sorted, SpanKey) == t
    ensures Sort([x] + rest, SpanKey) == t
  {
    SortCons(x, rest, SpanKey);
  }

  /** `InsertAt` for the annotated entries, with the expected list given. */
  lemma InsertLands(x: Annotated, s: seq<Annotated>, k: nat, t: seq<Annotated>)
    requires SortedBy(s, SpanKey) && k <= |s|
    requires forall i :: 0 <= i < k ==> !KeyLe(SpanKey(x), SpanKey(s[i]))
    requires k < |s| ==> KeyLe(SpanKey(x), SpanKey(s[k]))
    requires t == s[..k] + [x] + s[k..]
    ensures Insert(x, s, SpanKey) == t
  {
    InsertAt(x, s, SpanKey, k);
  }

  /** One insertion-sort step on a suffix of the first list. */
  lemma SortSuffixStep(a: seq<Annotated>, b: seq<Annotated>, k: nat, t: seq<Annotated>, t': seq<Annotated>)
    requires k < |a|
    requires Sort(a[k + 1..] + b, SpanKey) == t
    requires Insert(a[k], t, SpanKey) == t'
    ensures Sort(a[k..] + b, SpanKey) == t'
  {
    SuffixCons(a, b, k);
    SortStep(a[k], a[k + 1..] + b, t, t');
  }

  lemma EmptySuffixSorted(a: seq<Annotated>, b: seq<Annotated>)
    requires SortedBy(b, SpanKey)
    ensures Sort(a[|a|..] + b, SpanKey) == b
  {
    assert a[|a|..] + b == b;
    SortSortedIdentity(b, SpanKey);
  }

  lemma SuffixCons(a: seq<Annotated>, b: seq<Annotated>, k: nat)
    requires k < |a|
    ensures a[k..] + b == [a[k]] + (a[k + 1..] + b)
  {
    assert a[k..] == [a[k]] + a[k + 1..];
  }

  lemma InsertFifth()
    ensures SortedBy(SplitB, SpanKey) && Insert(SplitA[4], SplitB, SpanKey) == T4
  {
    SplitBSorted();
    InsertLands(SplitA[4], SplitB, 6, T4);
  }

  lemma InsertFourth()
    ensures SortedBy(T4, SpanKey) && Insert(SplitA[3], T4, SpanKey) == T3
  {
    InsertFifth();
    InsertSorted(SplitA[4], SplitB, SpanKey);
    InsertLands(SplitA[3], T4, 5, T3);
  }

  lemma InsertThird()
    ensures SortedBy(T3, SpanKey) && Insert(SplitA[2], T3, SpanKey) == T2
  {
    InsertFourth();
    InsertSorted(SplitA[3], T4, SpanKey);
    InsertLands(SplitA[2], T3, 4, T2);
  }

  lemma InsertSecond()
    ensures SortedBy(T2, SpanKey) && Insert(SplitA[1], T2, SpanKey) == T1
  {
    InsertThird();
    InsertSorted(SplitA[2], T3, SpanKey);
    InsertLands(SplitA[1], T2, 3, T1);
  }

  lemma InsertFirst()
    ensures SortedBy(T1, SpanKey) && Insert(SplitA[0], T1, SpanKey) == SortedAB
  {
    InsertSecond();
    InsertSorted(SplitA[1], T2, SpanKey);
    InsertLands(SplitA[0], T1, 0, SortedAB);
  }

  lemma SortFifth()
    ensures Sort(SplitA[4..] + SplitB, SpanKey) == T4
  {
    InsertFifth();
    EmptySuffixSorted(SplitA, SplitB);
    assert |SplitA| == 5;
    SortSuffixStep(SplitA, SplitB, 4, SplitB, T4);
  }

  lemma SortFourth()
    ensures Sort(SplitA[3..] + SplitB, SpanKey) == T3
  {
    SortFifth();
    InsertFourth();
    SortSuffixStep(SplitA, SplitB, 3, T4, T3);
  }

  lemma SortThird()
    ensures Sort(SplitA[2..] + SplitB, SpanKey) == T2
  {
    SortFourth();
    InsertThird();
    SortSuffixStep(SplitA, SplitB, 2, T3, T2);
  }

  lemma SortSecond()
    ensures Sort(SplitA[1..] + SplitB, SpanKey) == T1
  {
    SortThird();
    InsertSecond();
    SortSuffixStep(SplitA, SplitB, 1, T2, T1);
  }

  /** Each path's split list is already sorted, so the sort inserts the five
      entries of the first path, back to front, into the second. */
  lemma SortIsSortedAB()
    ensures Sort(SplitA + SplitB, SpanKey) == SortedAB
  {
    SortSecond();
    InsertFirst();
    SortSuffixStep(SplitA, SplitB, 0, T1, SortedAB);
    assert SplitA[0..] + SplitB == SplitA + SplitB;
  }

  /** The merged path `test_merge_simple_paths_containing_spacers` expects. */
  const Merged: seq<Annotated> :=
    [Annotated(E1, 100, 200), Annotated(Spacer, 201, 299), Annotated(E2, 300, 400),
     Annotated(Spacer, 401, 499), Annotated(E3, 500, 600), Annotated(Spacer, 601, 899),
     Annotated(E5, 900, 1000)]

  /** The three moves of the scan at position `k` of `s`. */
  lemma ScanNew(acc: seq<Annotated>, s: seq<Annotated>, k: nat)
    requires |acc| > 0 && k < |s| && Last(acc).entry != s[k].entry
    ensures CoalesceEntries(acc, s[k..]) == CoalesceEntries(acc + [s[k]], s[k + 1..])
  {
    assert s[k..][1..] == s[k + 1..];
  }

  lemma ScanRepeat(acc: seq<Annotated>, s: seq<Annotated>, k: nat)
    requires |acc| > 0 && k < |s| && Last(acc) == s[k] && s[k].entry.Node?
    ensures CoalesceEntries(acc, s[k..]) == CoalesceEntries(acc, s[k + 1..])
  {
    assert s[k..][1..] == s[k + 1..];
  }

  lemma ScanSpacers(acc: seq<Annotated>, s: seq<Annotated>, k: nat, acc': seq<Annotated>)
    requires |acc| > 0 && k < |s| && Last(acc).entry == Spacer && s[k].entry == Spacer
    requires acc' == acc[..|acc| - 1]
                     + [Annotated(Spacer, Last(acc).left,
                           if s[k].right > Last(acc).right then s[k].right else Last(acc).right)]
    ensures CoalesceEntries(acc, s[k..]) == CoalesceEntries(acc', s[k + 1..])
  {
    assert s[k..][1..] == s[k + 1..];
  }

  lemma ScanEnd(acc: seq<Annotated>, s: seq<Annotated>)
    requires |acc| > 0
    ensures CoalesceEntries(acc, s[|s|..]) == Ok(acc)
  {
    assert s[|s|..] == [];
  }

  /** The scan over the sorted entries, from the back: each lemma states
      what the scan yields from position `k` on, given what it has kept. */
  const Kept3: seq<Annotated> := [Annotated(E1, 100, 200), Annotated(Spacer, 201, 299),
                                  Annotated(E2, 300, 400)]
  const Kept5: seq<Annotated> := Kept3 + [Annotated(Spacer, 401, 499), Annotated(E3, 500, 600)]

  lemma ScanFrom12()
    ensures CoalesceEntries(Kept5, SortedAB[12..]) == Ok(Merged)
  {
    var a := Kept5 + [Annotated(Spacer, 601, 601)];
    var b := Kept5 + [Annotated(Spacer, 601, 899)];
    ScanNew(Kept5, SortedAB, 12);
    assert Kept5 + [SortedAB[12]] == a;
    ScanSpacers(a, SortedAB, 13, b);
    ScanNew(b, SortedAB, 14);
    assert b + [SortedAB[14]] == Merged;
    ScanEnd(Merged, SortedAB);
  }

  lemma ScanFrom8()
    ensures CoalesceEntries(Kept3 + [Annotated(Spacer, 401, 401)], SortedAB[8..]) == Ok(Merged)
  {
    var a := Kept3 + [Annotated(Spacer, 401, 401)];
    var b := Kept3 + [Annotated(Spacer, 401, 499)];
    ScanSpacers(a, SortedAB, 8, b);
    ScanSpacers(b, SortedAB, 9, b);
    ScanNew(b, SortedAB, 10);
    assert b + [SortedAB[10]] == Kept5;
    ScanRepeat(Kept5, SortedAB, 11);
    ScanFrom12();
  }

  lemma ScanFrom4()
    ensures CoalesceEntries([Annotated(E1, 100, 200),
                             Annotated(Spacer, 201, 299)], SortedAB[4..]) == Ok(Merged)
  {
    var a := Kept3 + [Annotated(Spacer, 401, 401)];
    ScanNew([Annotated(E1, 100, 200), Annotated(Spacer, 201, 299)], SortedAB, 4);
    assert [Annotated(E1, 100, 200), Annotated(Spacer, 201, 299)] + [SortedAB[4]] == Kept3;
    ScanRepeat(Kept3, SortedAB, 5);
    ScanNew(Kept3, SortedAB, 6);
    assert Kept3 + [SortedAB[6]] == a;
    ScanSpacers(a, SortedAB, 7, a);
    ScanFrom8();
  }

  lemma ScanFrom2()
    ensures CoalesceEntries([Annotated(E1, 100, 200)], SortedAB[2..]) == Ok(Merged)
  {
    var a1 := [Annotated(E1, 100, 200)];
    ScanNew(a1, SortedAB, 2);
    assert a1 + [SortedAB[2]] == [Annotated(E1, 100, 200), Annotated(Spacer, 201, 201)];
    ScanSpacers([Annotated(E1, 100, 200),
                 Annotated(Spacer, 201, 201)], SortedAB, 3, [Annotated(E1, 100, 200),
                 Annotated(Spacer, 201, 299)]);
    ScanFrom4();
  }

  /** The scan over the sorted entries yields the merged path. */
  lemma CoalesceSortedAB()
    ensures CoalesceEntries([SortedAB[0]], SortedAB[1..]) == Ok(Merged)
  {
    var a1 := [Annotated(E1, 100, 200)];
    assert [SortedAB[0]] == a1;
    ScanRepeat(a1, SortedAB, 1);
    ScanFrom2();
  }

  /** The merge is its three stages run in turn. */
  lemma MergeInStages(reg: Registry, A: Path, B: Path, la: seq<Annotated>, lb: seq<Annotated>,
                      sorted: seq<Annotated>, r: seq<Annotated>)
    requires WellPlacedSpacers(A) && WellPlacedSpacers(B) && |A| + |B| > 0
    requires ConvertPathToCoords(reg, A) == Ok(la) && ConvertPathToCoords(reg, B) == Ok(lb)
    requires Sort(SplitSpacers(la) + SplitSpacers(lb), SpanKey) == sorted
    requires |sorted| > 0 && CoalesceEntries([sorted[0]], sorted[1..]) == Ok(r)
    ensures MergeSimplePathsContainingSpacers(reg, A, B) == Ok(r)
  {
  }

  /** `test_merge_simple_paths_containing_spacers`: merging [E1, E2, S, E3] with
      [E1, S, E2, S, E3, S, E5] gives [E1, S, E2, S, E3, S, E5] with the
      spacers spanning the gaps between the exons. */
  lemma SpacerMergeTest()
    ensures WellPlacedSpacers(PathA) && WellPlacedSpacers(PathB)
    ensures MergeSimplePathsContainingSpacers(Reg, PathA, PathB) == Ok(Merged)
  {
    ConvertA();
    ConvertB();
    var la := [Annotated(E1, 100, 200), Annotated(E2, 300, 400), Annotated(Spacer, 401, 499),
               Annotated(E3, 500, 600)];
    var lb := [Annotated(E1, 100, 200), Annotated(Spacer, 201, 299), Annotated(E2, 300, 400),
               Annotated(Spacer, 401, 499), Annotated(E3, 500, 600), Annotated(Spacer, 601, 899),
               Annotated(E5, 900, 1000)];
    SplitAIs(la);
    SplitBIs(lb);
    SortIsSortedAB();
    CoalesceSortedAB();
    MergeInStages(Reg, PathA, PathB, la, lb, SortedAB, Merged);
  }
}
