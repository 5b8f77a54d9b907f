/**
 Attaching coordinates to the entries of a simple path
 (`_convert_path_to_nodes_with_coords_list`) and splitting each spacer into
 its two boundary points (`_split_spacers_with_coords`). Node coordinates
 come from a registry, modelled as a map from identifier to span.
 */
module Annotate {
  import opened Paths

  /** An entry with its span on the reference axis. */
  datatype Annotated = Annotated(entry: Entry, left: int, right: int)

  /** The node registry: identifier to `(left, right)`. */
  type Registry = map<NodeId, (int, int)>

  /** No spacer is the first or the last entry, so each has an entry on
      either side to take its bounds from. */
  predicate WellPlacedSpacers(p: Path) {
    forall i :: 0 <= i < |p| && p[i] == Spacer ==> 0 < i < |p| - 1
  }

  /** `WellPlacedSpacers` for an annotated list. */
  predicate WellPlacedAnnotated(l: seq<Annotated>) {
    forall i :: 0 <= i < |l| && l[i].entry == Spacer ==> 0 < i < |l| - 1
  }

  predicate AllKnown(reg: Registry, p: Path) {
    forall i :: 0 <= i < |p| && p[i].Node? ==> p[i].id in reg
  }

  /** First pass: look every node up; spacers get the placeholder span
      (-1, -1). The first unknown identifier fails the pass. */
  function LookUpNodes(reg: Registry, p: Path): (r: Result<seq<Annotated>>)
    ensures r.Ok? <==> AllKnown(reg, p)
    ensures r.Failure? ==> r.error.UnknownIdentifier? && r.error.id !in reg
                           && Node(r.error.id) in p
    ensures r.Ok? ==> |r.value| == |p|
    ensures r.Ok? ==> forall i :: 0 <= i < |p| ==>
      && r.value[i].entry == p[i]
      && (p[i].Node? ==> (r.value[i].left, r.value[i].right) == reg[p[i].id])
      && (p[i] == Spacer ==> r.value[i].left == -1 && r.value[i].right == -1)
  {
    if |p| == 0 then Ok([])
    else
      assert p == [p[0]] + p[1..];
      var head :=
        match p[0]
        case Spacer => Ok(Annotated(Spacer, -1, -1))
        case Node(id) =>
          if id in reg then Ok(Annotated(p[0], reg[id].0, reg[id].1))
          else Failure(UnknownIdentifier(id));
      if head.Failure? then
        assert !AllKnown(reg, p) by { assert p[0].Node? && p[0].id !in reg; }
        Failure(head.error)
      else
        var tail := LookUpNodes(reg, p[1..]);
        if tail.Failure? then
          assert !AllKnown(reg, p) by {
            var i :| 0 <= i < |p[1..]| && p[1..][i].Node? && p[1..][i].id !in reg;
            assert p[i + 1] == p[1..][i];
          }
          tail
        else
          assert AllKnown(reg, p[1..]);
          Ok([head.value] + tail.value)
  }

  /** The bounds a spacer at position `i` of `l` receives when the entries
      before it are already `done`: one past the right end of the entry on
      its left as rewritten so far, one short of the left end of the entry on
      its right as it still stands. */
  function FilledSpacer(l: seq<Annotated>, done: seq<Annotated>, i: nat): Annotated
    requires 0 < i < |l| - 1 && i <= |done|
  {
    Annotated(Spacer, done[i - 1].right + 1, l[i + 1].left - 1)
  }

  /** `done` is what the in-place loop has made of the first `|done|`
      entries of `l`. */
  predicate FilledUpTo(l: seq<Annotated>, done: seq<Annotated>)
    requires |done| <= |l|
    requires WellPlacedAnnotated(l)
  {
    forall i :: 0 <= i < |done| ==>
      done[i] == if l[i].entry == Spacer then FilledSpacer(l, done, i) else l[i]
  }

  /** The in-place loop from position `|done|` on. */
  function FillFrom(l: seq<Annotated>, done: seq<Annotated>): (r: seq<Annotated>)
    requires |done| <= |l|
    requires WellPlacedAnnotated(l)
    requires FilledUpTo(l, done)
    ensures |r| == |l| && r[..|done|] == done
    ensures FilledUpTo(l, r)
    decreases |l| - |done|
  {
    if |done| == |l| then
      assert done[..|done|] == done;
      done
    else
      var i := |done|;
      var x := if l[i].entry == Spacer then FilledSpacer(l, done, i) else l[i];
      var done' := done + [x];
      assert FilledUpTo(l, done') by {
        forall j | 0 <= j < |done'|
          ensures done'[j] == if l[j].entry == Spacer then FilledSpacer(l, done', j) else l[j]
        {
          if j < i {
            assert done'[j] == done[j];
            if l[j].entry == Spacer {
              assert done'[j - 1] == done[j - 1];
            }
          } else if l[j].entry == Spacer {
            assert done'[j - 1] == done[j - 1];
          }
        }
      }
      var r := FillFrom(l, done');
      assert r[..i] == r[..i + 1][..i];
      r
  }

  /** Second pass, rewriting the list in place from left to right: each
      spacer spans from one past the right end of the entry before it, as
      already rewritten, to one short of the left end of the entry after
      it, not yet rewritten. Between two nodes that is exactly the gap
      between them. */
  function FillSpacers(l: seq<Annotated>): (r: seq<Annotated>)
    requires WellPlacedAnnotated(l)
    ensures |r| == |l|
    ensures forall i :: 0 <= i < |l| && l[i].entry != Spacer ==> r[i] == l[i]
    ensures forall i :: 0 <= i < |l| && l[i].entry == Spacer ==>
      r[i] == Annotated(Spacer, r[i - 1].right + 1, l[i + 1].left - 1)
    ensures forall i :: 0 <= i < |l| ==> r[i].entry == l[i].entry
    ensures forall i :: 0 <= i < |l| && l[i].entry == Spacer && l[i + 1].entry != Spacer ==>
      r[i].right + 1 == r[i + 1].left
  {
    var r := FillFrom(l, []);
    assert forall i :: 0 <= i < |l| && l[i].entry == Spacer ==> r[i] == FilledSpacer(l, r, i);
    r
  }

  /** `_convert_path_to_nodes_with_coords_list`. The result has one entry per
      path entry and nodes carry their registered span. A spacer starts just
      after the entry before it. When a node follows, the spacer ends just
      before it, so a spacer between two nodes exactly fills the gap. When
      another spacer follows, that one still holds the placeholder -1, so
      the spacer ends at -2. */
  function ConvertPathToCoords(reg: Registry, p: Path): (r: Result<seq<Annotated>>)
    requires WellPlacedSpacers(p)
    ensures r.Ok? <==> AllKnown(reg, p)
    ensures r.Failure? ==> r.error.UnknownIdentifier? && r.error.id !in reg
    ensures r.Ok? ==> |r.value| == |p|
    ensures r.Ok? ==> forall i :: 0 <= i < |p| ==> r.value[i].entry == p[i]
    ensures r.Ok? ==> forall i :: 0 <= i < |p| && p[i].Node? ==>
      (r.value[i].left, r.value[i].right) == reg[p[i].id]
    ensures r.Ok? ==> forall i :: 0 <= i < |p| && p[i] == Spacer ==>
      && 0 < i < |p| - 1
      && r.value[i].left == r.value[i - 1].right + 1
      && (p[i + 1].Node? ==> r.value[i].right + 1 == r.value[i + 1].left)
      && (p[i + 1] == Spacer ==> r.value[i].right == -2)
  {
    var l :- LookUpNodes(reg, p);
    Ok(FillSpacers(l))
  }

  function SpacerCount(l: seq<Annotated>): nat {
    if |l| == 0 then 0
    else (if l[0].entry == Spacer then 1 else 0) + SpacerCount(l[1..])
  }

  /** The node entries of `l`, in order. */
  function NodesOf(l: seq<Annotated>): seq<Annotated> {
    if |l| == 0 then []
    else (if l[0].entry == Spacer then [] else [l[0]]) + NodesOf(l[1..])
  }

  lemma {:induction false} NodesOfConcat(a: seq<Annotated>, b: seq<Annotated>)
    ensures NodesOf(a + b) == NodesOf(a) + NodesOf(b)
  {
    if |a| == 0 {
      assert a + b == b;
    } else {
      var head := if a[0].entry == Spacer then [] else [a[0]];
      assert (a + b)[0] == a[0];
      assert (a + b)[1..] == a[1..] + b;
      assert NodesOf(a + b) == head + NodesOf(a[1..] + b);
      NodesOfConcat(a[1..], b);
      assert NodesOf(a) == head + NodesOf(a[1..]);
    }
  }

  lemma {:induction false} NodesOfMembership(l: seq<Annotated>, a: Annotated)
    ensures a in NodesOf(l) <==> a in l && a.entry != Spacer
  {
    if |l| > 0 {
      NodesOfMembership(l[1..], a);
      assert l == [l[0]] + l[1..];
    }
  }

  /** The entries replacing one annotated entry when spacers are split. */
  function SplitOne(x: Annotated): seq<Annotated> {
    if x.entry == Spacer then [Annotated(Spacer, x.left, x.left), Annotated(Spacer, x.right, x.right)]
    else [x]
  }

  /** `_split_spacers_with_coords`: every spacer becomes two zero-width
      points at its two bounds; nodes pass through unchanged and in order. */
  function SplitSpacers(l: seq<Annotated>): (r: seq<Annotated>)
    ensures |r| == |l| + SpacerCount(l)
    ensures NodesOf(r) == NodesOf(l)
    ensures forall i :: 0 <= i < |r| && r[i].entry == Spacer ==> r[i].left == r[i].right
  {
    if |l| == 0 then []
    else
      var tail := SplitSpacers(l[1..]);
      NodesOfConcat(SplitOne(l[0]), tail);
      assert NodesOf(SplitOne(l[0])) == NodesOf([l[0]]);
      SplitOne(l[0]) + tail
  }

  /** Splitting works entry by entry, so it distributes over concatenation. */
  lemma {:induction false} SplitSpacersConcat(a: seq<Annotated>, b: seq<Annotated>)
    ensures SplitSpacers(a + b) == SplitSpacers(a) + SplitSpacers(b)
  {
    if |a| == 0 {
      assert a + b == b;
    } else {
      assert (a + b)[0] == a[0];
      assert (a + b)[1..] == a[1..] + b;
      SplitSpacersConcat(a[1..], b);
    }
  }

  /** Rejoins each pair of spacer points into one spacer: the inverse of
      splitting. */
  function JoinSpacers(r: seq<Annotated>): seq<Annotated>
    decreases |r|
  {
    if |r| == 0 then []
    else if r[0].entry == Spacer && |r| >= 2 then
      [Annotated(Spacer, r[0].left, r[1].left)] + JoinSpacers(r[2..])
    else [r[0]] + JoinSpacers(r[1..])
  }

  /** Splitting loses nothing: joining the point pairs gives the input back. */
  lemma {:induction false} SplitSpacersRoundTrip(l: seq<Annotated>)
    ensures JoinSpacers(SplitSpacers(l)) == l
  {
    if |l| > 0 {
      var tail := SplitSpacers(l[1..]);
      SplitSpacersRoundTrip(l[1..]);
      var r := SplitOne(l[0]) + tail;
      if l[0].entry == Spacer {
        assert r[2..] == tail;
      } else {
        assert r[1..] == tail;
      }
      assert l == [l[0]] + l[1..];
    }
  }
}
