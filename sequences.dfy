/** Sequence facts shared by the model: duplicate-freedom, the set of elements
    of a sequence, and the first-seen order of distinct values, which is the
    order in which a JavaScript `Set` or a dictionary filled by a scan keeps its
    entries. */
module Sequences {

  predicate NoDuplicates<T(==)>(s: seq<T>) {
    forall i, j :: 0 <= i < j < |s| ==> s[i] != s[j]
  }

  function Elements<T>(s: seq<T>): set<T> {
    set x | x in s
  }

  /** The integers 0 .. n-1 in order (ramda's `range(0, n)`). */
  function Range(n: nat): (r: seq<int>)
    ensures |r| == n && forall i :: 0 <= i < n ==> r[i] == i
  {
    seq(n, i => i)
  }

  /** The distinct values of `s`, each at the position of its first occurrence
      relative to the others: what a scan that appends a value when it is seen
      for the first time builds. */
  function FirstSeen<T(==,!new)>(s: seq<T>): (r: seq<T>)
    ensures NoDuplicates(r)
    ensures forall x :: x in r <==> x in s
    decreases |s|
  {
    if s == [] then []
    else
      var p := FirstSeen(s[..|s| - 1]);
      if s[|s| - 1] in p then p else p + [s[|s| - 1]]
  }

  /** Position of a value in a duplicate-free sequence. */
  function IndexOf<T(==)>(s: seq<T>, x: T): (i: nat)
    requires x in s
    ensures i < |s| && s[i] == x
    ensures NoDuplicates(s) ==> forall j :: 0 <= j < |s| && s[j] == x ==> j == i
  {
    if s[0] == x then 0 else 1 + IndexOf(s[1..], x)
  }

  /** A duplicate-free sequence is its own first-seen order. */
  lemma {:induction false} FirstSeenOfDistinct<T(!new)>(s: seq<T>)
    requires NoDuplicates(s)
    ensures FirstSeen(s) == s
  {
    if s != [] {
      var t := s[..|s| - 1];
      assert s == t + [s[|s| - 1]];
      FirstSeenOfDistinct(t);
      FirstSeenSnoc(t, s[|s| - 1]);
    }
  }

  /** One step of the scan: appending a value extends the first-seen order by
      that value exactly when it has not been seen before. */
  lemma FirstSeenSnoc<T(!new)>(s: seq<T>, x: T)
    ensures FirstSeen(s + [x]) == if x in s then FirstSeen(s) else FirstSeen(s) + [x]
  {
    assert (s + [x])[..|s + [x]| - 1] == s;
  }

  /** A duplicate-free sequence has as many elements as its set. */
  lemma {:induction false} DistinctCardinality<T>(s: seq<T>)
    requires NoDuplicates(s)
    ensures |Elements(s)| == |s|
  {
    if s != [] {
      var t := s[..|s| - 1];
      var x := s[|s| - 1];
      assert s == t + [x];
      assert NoDuplicates(t);
      DistinctCardinality(t);
      assert x !in t;
      assert Elements(s) == Elements(t) + {x};
    }
  }

  /** The number of distinct values in first-seen order is the number of
      distinct values. */
  lemma FirstSeenCardinality<T(!new)>(s: seq<T>)
    ensures |FirstSeen(s)| == |Elements(s)|
  {
    DistinctCardinality(FirstSeen(s));
    assert Elements(FirstSeen(s)) == Elements(s);
  }

  /** First-seen order really is the order of first occurrences: if `a` comes
      before `b` in `FirstSeen(s)`, some occurrence of `a` precedes every
      occurrence of `b`. */
  lemma {:induction false} FirstSeenOrder<T(!new)>(s: seq<T>, i: nat, j: nat, q: nat)
    requires i < j < |FirstSeen(s)|
    requires q < |s| && s[q] == FirstSeen(s)[j]
    ensures exists p :: 0 <= p < q && s[p] == FirstSeen(s)[i]
    decreases |s|
  {
    var t := s[..|s| - 1];
    var x := s[|s| - 1];
    assert s == t + [x];
    FirstSeenSnoc(t, x);
    if q == |s| - 1 {
      if x in t {
        var q' :| 0 <= q' < |t| && t[q'] == x;
        FirstSeenOrder(t, i, j, q');
      } else {
        // b = x is new, so a was already seen in t
        assert FirstSeen(s)[i] == FirstSeen(t)[i];
        assert FirstSeen(s)[i] in t;
        var p :| 0 <= p < |t| && t[p] == FirstSeen(s)[i];
        assert s[p] == FirstSeen(s)[i];
      }
    } else {
      assert s[q] == t[q];
      assert s[q] in FirstSeen(t);
      var jt := IndexOf(FirstSeen(t), s[q]);
      assert j < |FirstSeen(t)|;
      assert FirstSeen(t)[j] == FirstSeen(s)[j];
      FirstSeenOrder(t, i, j, q);
      var p :| 0 <= p < q && t[p] == FirstSeen(t)[i];
      assert s[p] == FirstSeen(s)[i];
    }
  }

  predicate StrictlyIncreasing(s: seq<int>) {
    forall i, j :: 0 <= i < j < |s| ==> s[i] < s[j]
  }

  function InsertSorted(x: int, s: seq<int>): (r: seq<int>)
    requires StrictlyIncreasing(s) && x !in s
    ensures StrictlyIncreasing(r)
    ensures forall y :: y in r <==> y == x || y in s
    ensures |r| == |s| + 1
  {
    if s == [] || x < s[0] then [x] + s
    else
      var tail := InsertSorted(x, s[1..]);
      assert forall k :: 0 <= k < |tail| ==> s[0] < tail[k] by {
        forall k | 0 <= k < |tail| ensures s[0] < tail[k] {
          assert tail[k] in tail;
        }
      }
      [s[0]] + tail
  }

  /** The values of a duplicate-free sequence in ascending order. */
  function SortDistinct(s: seq<int>): (r: seq<int>)
    requires NoDuplicates(s)
    ensures StrictlyIncreasing(r)
    ensures forall y :: y in r <==> y in s
    ensures |r| == |s|
  {
    if s == [] then []
    else
      assert NoDuplicates(s[1..]);
      InsertSorted(s[0], SortDistinct(s[1..]))
  }

  /** The elements of `s` that satisfy `keep`, in order. */
  function Filter(s: seq<int>, keep: int -> bool): (r: seq<int>)
    ensures forall y :: y in r <==> y in s && keep(y)
    ensures NoDuplicates(s) ==> NoDuplicates(r)
  {
    if s == [] then []
    else if keep(s[0]) then [s[0]] + Filter(s[1..], keep)
    else Filter(s[1..], keep)
  }
}
