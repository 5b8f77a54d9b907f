/**
 Shared vocabulary of the simple-path utilities: path entries (a node
 identifier or the spacer gap marker), the error kinds the operations can
 fail with, a result type carrying them, and Python's `list.index`.
 */
module Paths {

  type NodeId = string

  /** One position of a simple path: a graph node, or a spacer standing for
      an unannotated stretch between two nodes. */
  datatype Entry = Node(id: NodeId) | Spacer

  type Path = seq<Entry>

  /** The failures of the path utilities, one per raise or assertion of the
      Python functions. */
  datatype Error =
    | IncompatiblePaths           // merge of paths that fail the overlap check
    | MergeLogicError             // no anchor after the overlap check passed
    | UnmergeableSegments         // interval configuration none of the cases covers
    | SegmentNotExtending         // adjacent interval that does not reach further right
    | UnknownIdentifier(id: NodeId)
    | InconsistentCoordinates     // one node carrying two different spans

  datatype Option<+T> = None | Some(value: T)

  /** Success or one of the errors above; usable with `:-`. */
  datatype Result<+T> = Ok(value: T) | Failure(error: Error) {
    predicate IsFailure() {
      Failure?
    }

    function PropagateFailure<U>(): Result<U>
      requires Failure?
    {
      Failure(error)
    }

    function Extract(): T
      requires Ok?
    {
      value
    }
  }

  /** The last element, the one a left-to-right scan compares with next. */
  function Last<T>(s: seq<T>): T
    requires |s| > 0
  {
    s[|s| - 1]
  }

  /** Index of the first occurrence of `e` in `s`, as Python's `list.index`. */
  function FirstIndex<T(==)>(s: seq<T>, e: T): (i: nat)
    requires e in s
    ensures i < |s| && s[i] == e
    ensures forall j :: 0 <= j < i ==> s[j] != e
  {
    if s[0] == e then 0 else 1 + FirstIndex(s[1..], e)
  }

  /** The first occurrence of an element in a prefix is its first occurrence
      in the whole sequence. */
  lemma FirstIndexPrefix<T>(s: seq<T>, t: seq<T>, e: T)
    requires e in s
    ensures e in s + t && FirstIndex(s + t, e) == FirstIndex(s, e)
  {
    var i := FirstIndex(s, e);
    assert (s + t)[i] == e;
    FirstIndexUnique(s + t, e, i);
  }

  /** Characterises the first index by its two defining facts. */
  lemma FirstIndexUnique<T>(s: seq<T>, e: T, i: nat)
    requires i < |s| && s[i] == e
    requires forall j :: 0 <= j < i ==> s[j] != e
    ensures e in s && FirstIndex(s, e) == i
  {
  }
}
