/** Optional values, and the value-or-error results that stand for the source's exceptions. */
module Outcomes {

  datatype Option<+T> = None | Some(value: T) {

    function GetOr(default: T): T {
      match this
      case Some(v) => v
      case None => default
    }
  }

  datatype Result<+T, +E> = Ok(value: T) | Err(error: E) {

    predicate IsFailure() {
      Err?
    }

    function PropagateFailure<U>(): Result<U, E>
      requires Err?
    {
      Err(error)
    }

    function Extract(): T
      requires Ok?
    {
      value
    }
  }

  /** The elements of a sequence that satisfy a predicate, in their order. */
  function Filter<T(!new)>(s: seq<T>, keep: T -> bool): (r: seq<T>)
    ensures |r| <= |s|
    ensures forall x :: x in r <==> x in s && keep(x)
  {
    if s == [] then []
    else Filter(s[..|s| - 1], keep) + if keep(s[|s| - 1]) then [s[|s| - 1]] else []
  }

  lemma FilterPrefix<T(!new)>(s: seq<T>, n: nat, keep: T -> bool)
    requires n <= |s|
    ensures |Filter(s[..n], keep)| <= |Filter(s, keep)|
  {
    if n < |s| {
      assert s[..|s| - 1][..n] == s[..n];
      FilterPrefix(s[..|s| - 1], n, keep);
    } else {
      assert s[..n] == s;
    }
  }

  /** A sequence without repetitions has as many elements as its set. */
  lemma {:induction false} DistinctCount<T(!new)>(r: seq<T>, s: set<T>)
    requires forall a, b :: 0 <= a < b < |r| ==> r[a] != r[b]
    requires forall x :: x in r <==> x in s
    ensures |r| == |s|
  {
    if r == [] {
      assert s == {};
    } else {
      var init, last := r[..|r| - 1], r[|r| - 1];
      assert forall x :: x in init ==> x in r;
      forall x ensures x in init <==> x in s - {last} {
        if x in s - {last} { assert x in r; }
        if x in init { var k :| 0 <= k < |init| && init[k] == x; }
      }
      DistinctCount(init, s - {last});
    }
  }
}
