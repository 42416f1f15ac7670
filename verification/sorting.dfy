/**
  Sorting under an abstract comparator. `Array.prototype.sort` with a
  comparator is modelled as insertion sort under a total preorder `le`
  (`le(a, b)` meaning the comparator puts `a` no later than `b`).
 */
module Sorting {

  /** `le` is total (hence reflexive) and transitive. */
  ghost predicate TotalPreorder<T(!new)>(le: (T, T) -> bool) {
    && (forall a, b :: le(a, b) || le(b, a))
    && (forall a, b, c :: le(a, b) && le(b, c) ==> le(a, c))
  }

  /** Every element is `le` every later element. */
  ghost predicate SortedBy<T>(le: (T, T) -> bool, s: seq<T>) {
    forall i, j :: 0 <= i < j < |s| ==> le(s[i], s[j])
  }

  /** Puts `x` before the first element it is `le`, keeping a sorted sequence sorted. */
  function Insert<T(!new)>(le: (T, T) -> bool, x: T, s: seq<T>): (r: seq<T>)
    requires TotalPreorder(le)
    requires SortedBy(le, s)
    ensures SortedBy(le, r)
    ensures multiset(r) == multiset(s) + multiset{x}
    ensures |r| == |s| + 1
  {
    if |s| == 0 then [x]
    else if le(x, s[0]) then [x] + s
    else
      var tail := Insert(le, x, s[1..]);
      assert s == [s[0]] + s[1..];
      InsertTailBound(le, x, s, tail);
      [s[0]] + tail
  }

  /** What is inserted after the head of a sorted sequence stays `le`-above that head. */
  lemma InsertTailBound<T(!new)>(le: (T, T) -> bool, x: T, s: seq<T>, tail: seq<T>)
    requires TotalPreorder(le)
    requires SortedBy(le, s) && |s| > 0 && !le(x, s[0])
    requires multiset(tail) == multiset(s[1..]) + multiset{x}
    ensures forall k :: 0 <= k < |tail| ==> le(s[0], tail[k])
  {
    forall k | 0 <= k < |tail|
      ensures le(s[0], tail[k])
    {
      assert tail[k] in multiset(tail);
      if tail[k] != x {
        assert tail[k] in multiset(s[1..]);
        var j :| 0 <= j < |s[1..]| && s[1..][j] == tail[k];
        assert s[j + 1] == tail[k];
      }
    }
  }

  /** Insertion sort: a sorted permutation of its input. */
  function SortBy<T(!new)>(le: (T, T) -> bool, s: seq<T>): (r: seq<T>)
    requires TotalPreorder(le)
    ensures SortedBy(le, r)
    ensures multiset(r) == multiset(s)
    ensures |r| == |s|
  {
    if |s| == 0 then []
    else
      assert s == [s[0]] + s[1..];
      Insert(le, s[0], SortBy(le, s[1..]))
  }
}
