/**
 A stable insertion sort by a pair-of-integers key, ordered
 lexicographically. It stands for Python's `sorted` (a stable sort) as used
 with the keys `x[0]` for intervals and `(x[1], x[2])` for annotated
 entries.
 */
module Sorting {

  type Key = (int, int)

  /** Lexicographic order on keys, as Python compares tuples. */
  predicate KeyLe(x: Key, y: Key) {
    x.0 < y.0 || (x.0 == y.0 && x.1 <= y.1)
  }

  predicate SortedBy<T>(s: seq<T>, key: T -> Key) {
    forall i, j :: 0 <= i < j < |s| ==> KeyLe(key(s[i]), key(s[j]))
  }

  /** Sortedness follows from sortedness of each neighbouring pair. */
  lemma {:induction false} NeighboursSorted<T>(s: seq<T>, key: T -> Key)
    requires forall i :: 0 <= i < |s| - 1 ==> KeyLe(key(s[i]), key(s[i + 1]))
    ensures SortedBy(s, key)
  {
    if |s| > 1 {
      NeighboursSorted(s[1..], key);
      forall j | 1 <= j < |s|
        ensures KeyLe(key(s[0]), key(s[j]))
      {
        assert s[j] == s[1..][j - 1];
        if j > 1 {
          assert KeyLe(key(s[1..][0]), key(s[1..][j - 1]));
        }
      }
      forall i, j | 0 <= i < j < |s|
        ensures KeyLe(key(s[i]), key(s[j]))
      {
        if i > 0 {
          assert s[i] == s[1..][i - 1] && s[j] == s[1..][j - 1];
        }
      }
    }
  }

  /** The elements of `s` whose key is `k`, in their order in `s`. */
  function WithKey<T>(s: seq<T>, key: T -> Key, k: Key): seq<T> {
    if |s| == 0 then []
    else (if key(s[0]) == k then [s[0]] else []) + WithKey(s[1..], key, k)
  }

  lemma SortedCons<T>(h: T, t: seq<T>, key: T -> Key)
    requires SortedBy(t, key)
    requires forall j :: 0 <= j < |t| ==> KeyLe(key(h), key(t[j]))
    ensures SortedBy([h] + t, key)
  {
    var s := [h] + t;
    forall i, j | 0 <= i < j < |s|
      ensures KeyLe(key(s[i]), key(s[j]))
    {
      if i > 0 {
        assert s[i] == t[i - 1] && s[j] == t[j - 1];
      } else {
        assert s[j] == t[j - 1];
      }
    }
  }

  /** Places `x` in front of the first element whose key is not smaller,
      so that `x` precedes every element with an equal key. */
  function Insert<T>(x: T, s: seq<T>, key: T -> Key): (r: seq<T>)
    ensures |r| == |s| + 1
  {
    if |s| == 0 then [x]
    else if KeyLe(key(x), key(s[0])) then [x] + s
    else [s[0]] + Insert(x, s[1..], key)
  }

  /** Insertion adds `x` and keeps every other element. */
  lemma {:induction false} InsertPermutes<T>(x: T, s: seq<T>, key: T -> Key)
    ensures multiset(Insert(x, s, key)) == multiset(s) + multiset{x}
  {
    if |s| > 0 && !KeyLe(key(x), key(s[0])) {
      InsertPermutes(x, s[1..], key);
      assert s == [s[0]] + s[1..];
    }
  }

  /** Insertion into a sorted sequence keeps it sorted. */
  lemma {:induction false} InsertSorted<T>(x: T, s: seq<T>, key: T -> Key)
    requires SortedBy(s, key)
    ensures SortedBy(Insert(x, s, key), key)
  {
    if |s| > 0 && KeyLe(key(x), key(s[0])) {
      forall j | 0 <= j < |s|
        ensures KeyLe(key(x), key(s[j]))
      {
        if j > 0 {
          assert KeyLe(key(s[0]), key(s[j]));
        }
      }
      SortedCons(x, s, key);
    } else if |s| > 0 {
      var tail := Insert(x, s[1..], key);
      assert SortedBy(s[1..], key);
      InsertSorted(x, s[1..], key);
      InsertPermutes(x, s[1..], key);
      assert s == [s[0]] + s[1..];
      forall j | 0 <= j < |tail|
        ensures KeyLe(key(s[0]), key(tail[j]))
      {
        assert tail[j] in multiset(tail);
        if tail[j] != x {
          assert tail[j] in multiset(s[1..]);
          var i :| 0 <= i < |s[1..]| && s[1..][i] == tail[j];
          assert s[i + 1] == tail[j];
        }
      }
      SortedCons(s[0], tail, key);
    }
  }

  /** Where the insertion lands: after every element of smaller key, in
      front of the first one whose key is not smaller. */
  lemma {:induction false} InsertAt<T>(x: T, s: seq<T>, key: T -> Key, k: nat)
    requires SortedBy(s, key) && k <= |s|
    requires forall i :: 0 <= i < k ==> !KeyLe(key(x), key(s[i]))
    requires k < |s| ==> KeyLe(key(x), key(s[k]))
    ensures Insert(x, s, key) == s[..k] + [x] + s[k..]
  {
    if k > 0 {
      assert SortedBy(s[1..], key);
      InsertAt(x, s[1..], key, k - 1);
      assert s[1..][..k - 1] == s[1..k];
      assert s[1..][k - 1..] == s[k..];
      assert s[..k] == [s[0]] + s[1..k];
    }
  }

  /** Insertion sort, inserting the head into the sorted tail; equal keys
      keep their input order. */
  function Sort<T>(s: seq<T>, key: T -> Key): (r: seq<T>)
    ensures |r| == |s|
  {
    if |s| == 0 then [] else Insert(s[0], Sort(s[1..], key), key)
  }

  /** The sort rearranges its input: same elements, same multiplicities. */
  lemma {:induction false} SortPermutes<T>(s: seq<T>, key: T -> Key)
    ensures multiset(Sort(s, key)) == multiset(s)
  {
    if |s| > 0 {
      SortPermutes(s[1..], key);
      InsertPermutes(s[0], Sort(s[1..], key), key);
      assert s == [s[0]] + s[1..];
    }
  }

  /** The sort's result is in key order. */
  lemma {:induction false} SortSorted<T>(s: seq<T>, key: T -> Key)
    ensures SortedBy(Sort(s, key), key)
  {
    if |s| > 0 {
      SortSorted(s[1..], key);
      InsertSorted(s[0], Sort(s[1..], key), key);
    }
  }

  lemma SortCons<T>(x: T, s: seq<T>, key: T -> Key)
    ensures Sort([x] + s, key) == Insert(x, Sort(s, key), key)
  {
    assert ([x] + s)[1..] == s;
  }

  lemma {:induction false} WithKeyInsert<T>(x: T, s: seq<T>, key: T -> Key, k: Key)
    ensures WithKey(Insert(x, s, key), key, k)
         == (if key(x) == k then [x] else []) + WithKey(s, key, k)
  {
    if |s| == 0 {
    } else if KeyLe(key(x), key(s[0])) {
      assert ([x] + s)[1..] == s;
    } else {
      var tail := Insert(x, s[1..], key);
      WithKeyInsert(x, s[1..], key, k);
      assert ([s[0]] + tail)[1..] == tail;
      assert key(s[0]) != key(x);
    }
  }

  /** Stability: for every key, the elements carrying it come out in the
      order they went in. */
  lemma {:induction false} SortStable<T>(s: seq<T>, key: T -> Key, k: Key)
    ensures WithKey(Sort(s, key), key, k) == WithKey(s, key, k)
  {
    if |s| > 0 {
      SortStable(s[1..], key, k);
      WithKeyInsert(s[0], Sort(s[1..], key), key, k);
    }
  }

  /** Sorting an already sorted sequence changes nothing. */
  lemma {:induction false} SortSortedIdentity<T>(s: seq<T>, key: T -> Key)
    requires SortedBy(s, key)
    ensures Sort(s, key) == s
  {
    if |s| > 0 {
      assert SortedBy(s[1..], key);
      SortSortedIdentity(s[1..], key);
      if |s| > 1 {
        assert KeyLe(key(s[0]), key(s[1]));
      }
      assert s == [s[0]] + s[1..];
    }
  }
}
