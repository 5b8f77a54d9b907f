/**
 Merging two simple paths that may contain spacers
 (`merge_simple_paths_containing_spacers`). Both paths are annotated with
 coordinates, their spacers split into boundary points, the two lists
 concatenated and stably sorted by `(left, right)`, and consecutive entries
 with the same entry coalesced: two spacers become one spacer reaching the
 larger right bound, and a repeated node must repeat its span exactly.
 */
module SpacerMerge {
  import opened Paths
  import opened Sorting
  import opened Annotate

  function SpanKey(x: Annotated): Key {
    (x.left, x.right)
  }

  /** Two consecutive annotated entries for the same node carry the same span. */
  predicate PairConsistent(x: Annotated, y: Annotated) {
    x.entry == y.entry && x.entry.Node? ==> x.left == y.left && x.right == y.right
  }

  predicate Consistent(s: seq<Annotated>) {
    forall i :: 0 <= i < |s| - 1 ==> PairConsistent(s[i], s[i + 1])
  }

  predicate NoAdjacentRepeats(s: seq<Annotated>) {
    forall i :: 0 <= i < |s| - 1 ==> s[i].entry != s[i + 1].entry
  }

  predicate LeftsOrdered(s: seq<Annotated>) {
    forall i, j :: 0 <= i < j < |s| ==> s[i].left <= s[j].left
  }

  lemma ConsistentCons(x: Annotated, s: seq<Annotated>)
    ensures Consistent([x] + s) <==> (|s| == 0 || PairConsistent(x, s[0])) && Consistent(s)
  {
    var t := [x] + s;
    if |s| > 0 && PairConsistent(x, s[0]) && Consistent(s) {
      forall i | 0 <= i < |t| - 1
        ensures PairConsistent(t[i], t[i + 1])
      {
        if i > 0 {
          assert t[i] == s[i - 1] && t[i + 1] == s[i];
        }
      }
    }
    if Consistent(t) {
      forall i | 0 <= i < |s| - 1
        ensures PairConsistent(s[i], s[i + 1])
      {
        assert t[i + 1] == s[i] && t[i + 2] == s[i + 1];
      }
      if |s| > 0 {
        assert t[0] == x && t[1] == s[0];
        assert PairConsistent(t[0], t[1]);
      }
    }
  }

  /** The coalescing scan: `acc` holds the entries kept so far, its last one
      being compared with the next sorted entry. Any two consecutive
      spacers coalesce, whatever their left bounds. */
  function CoalesceEntries(acc: seq<Annotated>, rest: seq<Annotated>): (r: Result<seq<Annotated>>)
    requires |acc| > 0
    decreases |rest|
    ensures r.Ok? ==> 0 < |r.value| <= |acc| + |rest|
    ensures r.Ok? ==> r.value[0].left == acc[0].left
    ensures r.Failure? ==> r.error == InconsistentCoordinates
    ensures r.Ok? <==> Consistent([Last(acc)] + rest)
  {
    if |rest| == 0 then
      ConsistentCons(Last(acc), rest);
      Ok(acc)
    else
      var prev, cur := Last(acc), rest[0];
      assert rest == [cur] + rest[1..];
      ConsistentCons(prev, rest);
      ConsistentCons(cur, rest[1..]);
      if prev.entry == cur.entry then
        if cur.entry == Spacer then
          var widened := if cur.right > prev.right then Annotated(Spacer, prev.left, cur.right) else prev;
          var acc' := acc[..|acc| - 1] + [widened];
          ConsistentCons(widened, rest[1..]);
          assert acc'[0].left == acc[0].left;
          CoalesceEntries(acc', rest[1..])
        else if prev.left == cur.left && prev.right == cur.right then
          assert prev == cur;
          CoalesceEntries(acc, rest[1..])
        else
          Failure(InconsistentCoordinates)
      else
        var acc' := acc + [cur];
        assert acc'[0] == acc[0];
        CoalesceEntries(acc', rest[1..])
  }

  /** The scan never leaves two consecutive entries with the same entry. */
  lemma {:induction false} CoalesceEntriesNoRepeats(acc: seq<Annotated>, rest: seq<Annotated>)
    requires |acc| > 0 && NoAdjacentRepeats(acc)
    requires CoalesceEntries(acc, rest).Ok?
    ensures NoAdjacentRepeats(CoalesceEntries(acc, rest).value)
    decreases |rest|
  {
    if |rest| > 0 {
      var prev, cur := Last(acc), rest[0];
      if prev.entry == cur.entry {
        if cur.entry == Spacer {
          var widened := if cur.right > prev.right then Annotated(Spacer, prev.left, cur.right) else prev;
          var acc' := acc[..|acc| - 1] + [widened];
          assert NoAdjacentRepeats(acc') by {
            forall i | 0 <= i < |acc'| - 1
              ensures acc'[i].entry != acc'[i + 1].entry
            {
              assert acc'[i] == acc[i];
              if i + 1 < |acc| - 1 {
                assert acc'[i + 1] == acc[i + 1];
              }
            }
          }
          CoalesceEntriesNoRepeats(acc', rest[1..]);
        } else {
          CoalesceEntriesNoRepeats(acc, rest[1..]);
        }
      } else {
        var acc' := acc + [cur];
        assert NoAdjacentRepeats(acc') by {
          forall i | 0 <= i < |acc'| - 1
            ensures acc'[i].entry != acc'[i + 1].entry
          {
            assert acc'[i] == acc[i];
            if i + 1 < |acc| {
              assert acc'[i + 1] == acc[i + 1];
            }
          }
        }
        CoalesceEntriesNoRepeats(acc', rest[1..]);
      }
    }
  }

  /** Fed entries in order of left bound, the scan keeps them in that order:
      coalescing only ever widens a spacer to the right. */
  lemma {:induction false} CoalesceEntriesLeftsOrdered(acc: seq<Annotated>, rest: seq<Annotated>)
    requires |acc| > 0 && LeftsOrdered(acc) && LeftsOrdered(rest)
    requires |rest| > 0 ==> Last(acc).left <= rest[0].left
    requires CoalesceEntries(acc, rest).Ok?
    ensures LeftsOrdered(CoalesceEntries(acc, rest).value)
    decreases |rest|
  {
    if |rest| > 0 {
      var prev, cur := Last(acc), rest[0];
      assert LeftsOrdered(rest[1..]);
      if prev.entry == cur.entry {
        if cur.entry == Spacer {
          var widened := if cur.right > prev.right then Annotated(Spacer, prev.left, cur.right) else prev;
          var acc' := acc[..|acc| - 1] + [widened];
          assert LeftsOrdered(acc') by {
            forall i, j | 0 <= i < j < |acc'|
              ensures acc'[i].left <= acc'[j].left
            {
              assert acc'[i].left == acc[i].left && acc'[j].left == acc[j].left;
            }
          }
          if |rest| > 1 {
            assert rest[0].left <= rest[1].left;
          }
          CoalesceEntriesLeftsOrdered(acc', rest[1..]);
        } else {
          if |rest| > 1 {
            assert rest[0].left <= rest[1].left;
          }
          CoalesceEntriesLeftsOrdered(acc, rest[1..]);
        }
      } else {
        var acc' := acc + [cur];
        assert LeftsOrdered(acc') by {
          forall i, j | 0 <= i < j < |acc'|
            ensures acc'[i].left <= acc'[j].left
          {
            if j == |acc| {
              assert acc[i].left <= prev.left;
            } else {
              assert acc'[i] == acc[i] && acc'[j] == acc[j];
            }
          }
        }
        if |rest| > 1 {
          assert rest[0].left <= rest[1].left;
        }
        CoalesceEntriesLeftsOrdered(acc', rest[1..]);
      }
    }
  }

  /** The scan neither loses nor invents a node entry. */
  lemma {:induction false} CoalesceEntriesNodes(acc: seq<Annotated>, rest: seq<Annotated>, a: Annotated)
    requires |acc| > 0 && a.entry.Node?
    requires CoalesceEntries(acc, rest).Ok?
    ensures a in CoalesceEntries(acc, rest).value <==> a in acc || a in rest
    decreases |rest|
  {
    if |rest| > 0 {
      var prev, cur := Last(acc), rest[0];
      assert rest == [cur] + rest[1..];
      assert acc == acc[..|acc| - 1] + [prev];
      if prev.entry == cur.entry {
        if cur.entry == Spacer {
          var widened := if cur.right > prev.right then Annotated(Spacer, prev.left, cur.right) else prev;
          var acc' := acc[..|acc| - 1] + [widened];
          CoalesceEntriesNodes(acc', rest[1..], a);
        } else {
          assert prev == cur;
          CoalesceEntriesNodes(acc, rest[1..], a);
        }
      } else {
        CoalesceEntriesNodes(acc + [cur], rest[1..], a);
      }
    }
  }

  /** Every node entry of `s` carries the span the registry gives it. */
  predicate FromRegistry(reg: Registry, s: seq<Annotated>) {
    forall x :: x in s && x.entry.Node? ==>
      x.entry.id in reg && (x.left, x.right) == reg[x.entry.id]
  }

  lemma RegistryConsistent(reg: Registry, s: seq<Annotated>)
    requires FromRegistry(reg, s)
    ensures Consistent(s)
  {
    forall i | 0 <= i < |s| - 1
      ensures PairConsistent(s[i], s[i + 1])
    {
      assert s[i] in s && s[i + 1] in s;
    }
  }

  lemma ConvertFromRegistry(reg: Registry, p: Path)
    requires WellPlacedSpacers(p) && ConvertPathToCoords(reg, p).Ok?
    ensures FromRegistry(reg, ConvertPathToCoords(reg, p).value)
  {
    var l := ConvertPathToCoords(reg, p).value;
    forall x | x in l && x.entry.Node?
      ensures x.entry.id in reg && (x.left, x.right) == reg[x.entry.id]
    {
      var i :| 0 <= i < |l| && l[i] == x;
      assert p[i] == x.entry;
    }
  }

  lemma SplitFromRegistry(reg: Registry, l: seq<Annotated>)
    requires FromRegistry(reg, l)
    ensures FromRegistry(reg, SplitSpacers(l))
  {
    forall x | x in SplitSpacers(l) && x.entry.Node?
      ensures x.entry.id in reg && (x.left, x.right) == reg[x.entry.id]
    {
      NodesOfMembership(SplitSpacers(l), x);
      NodesOfMembership(l, x);
    }
  }

  /** Annotation and spacer splitting of both paths, concatenated and
      sorted: the list the coalescing scan runs over. */
  function SortedPoints(reg: Registry, A: Path, B: Path): (r: Result<seq<Annotated>>)
    requires WellPlacedSpacers(A) && WellPlacedSpacers(B)
    ensures r.Ok? <==> AllKnown(reg, A) && AllKnown(reg, B)
    ensures r.Failure? ==> r.error.UnknownIdentifier? && r.error.id !in reg
    ensures r.Ok? ==> |r.value| >= |A| + |B| && SortedBy(r.value, SpanKey) && FromRegistry(reg, r.value)
  {
    var la :- ConvertPathToCoords(reg, A);
    var lb :- ConvertPathToCoords(reg, B);
    var merged := SplitSpacers(la) + SplitSpacers(lb);
    var sorted := Sort(merged, SpanKey);
    SortPermutes(merged, SpanKey);
    SortSorted(merged, SpanKey);
    ConvertFromRegistry(reg, A);
    ConvertFromRegistry(reg, B);
    SplitFromRegistry(reg, la);
    SplitFromRegistry(reg, lb);
    assert FromRegistry(reg, sorted) by {
      forall x | x in sorted && x.entry.Node?
        ensures x.entry.id in reg && (x.left, x.right) == reg[x.entry.id]
      {
        assert x in multiset(merged);
      }
    }
    Ok(sorted)
  }

  /** The scan over a sorted, registry-consistent list succeeds and keeps
      the order of left bounds. */
  lemma CoalesceSortedPoints(reg: Registry, sorted: seq<Annotated>)
    requires |sorted| > 0 && SortedBy(sorted, SpanKey) && FromRegistry(reg, sorted)
    ensures var r := CoalesceEntries([sorted[0]], sorted[1..]);
            r.Ok? && |r.value| > 0 && NoAdjacentRepeats(r.value) && LeftsOrdered(r.value)
  {
    RegistryConsistent(reg, sorted);
    assert sorted == [sorted[0]] + sorted[1..];
    var rest := sorted[1..];
    assert LeftsOrdered(rest) by {
      forall i, j | 0 <= i < j < |rest|
        ensures rest[i].left <= rest[j].left
      {
        assert KeyLe(SpanKey(sorted[i + 1]), SpanKey(sorted[j + 1]));
      }
    }
    if |rest| > 0 {
      assert KeyLe(SpanKey(sorted[0]), SpanKey(sorted[1]));
    }
    CoalesceEntriesNoRepeats([sorted[0]], rest);
    CoalesceEntriesLeftsOrdered([sorted[0]], rest);
  }

  /** `merge_simple_paths_containing_spacers`. It pops the first
      sorted entry unconditionally, so the two paths may not both be empty.
      The result is never empty, its left bounds never decrease, and no two
      consecutive entries share an entry. With one registry for both paths
      a node always carries one span, so its consistency check never
      fails: the only failure is an unknown identifier. */
  function MergeSimplePathsContainingSpacers(reg: Registry, A: Path, B: Path): (r: Result<seq<Annotated>>)
    requires WellPlacedSpacers(A) && WellPlacedSpacers(B)
    requires |A| + |B| > 0
    ensures r.Ok? <==> AllKnown(reg, A) && AllKnown(reg, B)
    ensures r.Failure? ==> r.error.UnknownIdentifier? && r.error.id !in reg
    ensures r.Ok? ==> |r.value| > 0 && NoAdjacentRepeats(r.value) && LeftsOrdered(r.value)
  {
    var sorted :- SortedPoints(reg, A, B);
    CoalesceSortedPoints(reg, sorted);
    CoalesceEntries([sorted[0]], sorted[1..])
  }

  /** A node with its registered span is among the annotated entries of a
      path exactly when the path visits the node. */
  lemma ConvertNodes(reg: Registry, p: Path, a: Annotated)
    requires WellPlacedSpacers(p) && ConvertPathToCoords(reg, p).Ok?
    requires a.entry.Node?
    ensures a in ConvertPathToCoords(reg, p).value
            <==> a.entry in p && (a.left, a.right) == reg[a.entry.id]
  {
    var l := ConvertPathToCoords(reg, p).value;
    assert |l| == |p|;
    if a.entry in p && (a.left, a.right) == reg[a.entry.id] {
      var i :| 0 <= i < |p| && p[i] == a.entry;
      assert l[i].entry == a.entry && (l[i].left, l[i].right) == reg[p[i].id];
      assert l[i] == a;
    }
    if a in l {
      var i :| 0 <= i < |l| && l[i] == a;
      assert l[i].entry == p[i];
    }
  }

  lemma SplitNodes(l: seq<Annotated>, a: Annotated)
    requires a.entry.Node?
    ensures a in SplitSpacers(l) <==> a in l
  {
    NodesOfMembership(SplitSpacers(l), a);
    NodesOfMembership(l, a);
  }

  /** The node entries of the sorted point list are exactly the nodes of
      the two paths, each with its registered span. */
  lemma SortedPointsNodes(reg: Registry, A: Path, B: Path, a: Annotated)
    requires WellPlacedSpacers(A) && WellPlacedSpacers(B)
    requires AllKnown(reg, A) && AllKnown(reg, B)
    requires a.entry.Node?
    ensures SortedPoints(reg, A, B).Ok?
    ensures a in SortedPoints(reg, A, B).value
            <==> (a.entry in A || a.entry in B) && a.entry.id in reg
                 && (a.left, a.right) == reg[a.entry.id]
  {
    var la := ConvertPathToCoords(reg, A).value;
    var lb := ConvertPathToCoords(reg, B).value;
    var merged := SplitSpacers(la) + SplitSpacers(lb);
    var sorted := SortedPoints(reg, A, B).value;
    assert sorted == Sort(merged, SpanKey);
    SortPermutes(merged, SpanKey);
    assert a in sorted <==> a in merged by {
      assert a in sorted <==> a in multiset(sorted);
      assert a in merged <==> a in multiset(merged);
    }
    assert a in merged <==> a in SplitSpacers(la) || a in SplitSpacers(lb);
    SplitNodes(la, a);
    SplitNodes(lb, a);
    ConvertNodes(reg, A, a);
    ConvertNodes(reg, B, a);
    if a.entry in A {
      var i :| 0 <= i < |A| && A[i] == a.entry;
    }
    if a.entry in B {
      var i :| 0 <= i < |B| && B[i] == a.entry;
    }
  }

  /** The merge neither loses nor invents nodes: its node entries are
      exactly the nodes of the two paths, each with its registered span. */
  lemma MergeSpacersNodes(reg: Registry, A: Path, B: Path, a: Annotated)
    requires WellPlacedSpacers(A) && WellPlacedSpacers(B) && |A| + |B| > 0
    requires MergeSimplePathsContainingSpacers(reg, A, B).Ok?
    requires a.entry.Node?
    ensures a in MergeSimplePathsContainingSpacers(reg, A, B).value
            <==> (a.entry in A || a.entry in B) && a.entry.id in reg
                 && (a.left, a.right) == reg[a.entry.id]
  {
    var sorted := SortedPoints(reg, A, B).value;
    assert MergeSimplePathsContainingSpacers(reg, A, B) == CoalesceEntries([sorted[0]], sorted[1..]);
    CoalesceEntriesNodes([sorted[0]], sorted[1..], a);
    assert sorted == [sorted[0]] + sorted[1..];
    SortedPointsNodes(reg, A, B, a);
  }
}
