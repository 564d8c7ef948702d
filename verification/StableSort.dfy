/** Array.prototype.sort with a comparator: a stable sort, here by insertion. */
module StableSort {

  ghost predicate StrictWeak<T(!new)>(less: (T, T) -> bool) {
    && (forall a, b :: less(a, b) ==> !less(b, a))
    && (forall a, b, c :: !less(b, a) && !less(c, b) ==> !less(c, a))
  }

  ghost predicate Sorted<T>(s: seq<T>, less: (T, T) -> bool) {
    forall i, j :: 0 <= i < j < |s| ==> !less(s[j], s[i])
  }

  function Insert<T>(s: seq<T>, x: T, less: (T, T) -> bool): (r: seq<T>)
    ensures |r| == |s| + 1 && multiset(r) == multiset(s) + multiset{x}
  {
    if s == [] then [x]
    else
      var last := s[|s| - 1];
      assert s == s[..|s| - 1] + [last];
      if less(x, last) then Insert(s[..|s| - 1], x, less) + [last] else s + [x]
  }

  function Sort<T>(s: seq<T>, less: (T, T) -> bool): (r: seq<T>)
    ensures |r| == |s| && multiset(r) == multiset(s)
  {
    if s == [] then []
    else
      assert s == s[..|s| - 1] + [s[|s| - 1]];
      Insert(Sort(s[..|s| - 1], less), s[|s| - 1], less)
  }

  lemma {:induction false} InsertSorted<T(!new)>(s: seq<T>, x: T, less: (T, T) -> bool)
    requires StrictWeak(less) && Sorted(s, less)
    ensures Sorted(Insert(s, x, less), less)
  {
    if s != [] && less(x, s[|s| - 1]) {
      var init, last := s[..|s| - 1], s[|s| - 1];
      InsertSorted(init, x, less);
      var r := Insert(init, x, less);
      forall i | 0 <= i < |r| ensures !less(last, r[i]) {
        assert r[i] in multiset(r);
        assert r[i] == x || r[i] in init;
      }
    }
  }

  lemma {:induction false} SortSorted<T(!new)>(s: seq<T>, less: (T, T) -> bool)
    requires StrictWeak(less)
    ensures Sorted(Sort(s, less), less)
  {
    if s != [] {
      SortSorted(s[..|s| - 1], less);
      InsertSorted(Sort(s[..|s| - 1], less), s[|s| - 1], less);
    }
  }

  lemma SortMembers<T>(s: seq<T>, less: (T, T) -> bool)
    ensures forall x :: x in Sort(s, less) <==> x in s
  {
    forall x ensures x in Sort(s, less) <==> x in s {
      assert x in multiset(Sort(s, less)) <==> x in multiset(s);
    }
  }

  // ---------- Stability

  predicate Equivalent<T>(a: T, b: T, less: (T, T) -> bool) {
    !less(a, b) && !less(b, a)
  }

  /** The elements that compare equal to x, in their order. */
  function Equals<T>(s: seq<T>, x: T, less: (T, T) -> bool): seq<T> {
    if s == [] then []
    else Equals(s[..|s| - 1], x, less) + if Equivalent(s[|s| - 1], x, less) then [s[|s| - 1]] else []
  }

  lemma {:induction false} InsertKeepsOrder<T(!new)>(s: seq<T>, x: T, y: T, less: (T, T) -> bool)
    requires StrictWeak(less)
    ensures Equals(Insert(s, x, less), y, less) == Equals(s, y, less) + if Equivalent(x, y, less) then [x] else []
  {
    hide Equals, Insert;
    InsertStep(s, x, less);
    if s != [] && less(x, s[|s| - 1]) {
      var init, last := s[..|s| - 1], s[|s| - 1];
      InsertKeepsOrder(init, x, y, less);
      assert s == init + [last];
      EqualsAppend(init, last, y, less);
      EqualsAppend(Insert(init, x, less), last, y, less);
      assert Equivalent(x, y, less) ==> !Equivalent(last, y, less);
    } else {
      EqualsAppend(s, x, y, less);
    }
  }

  lemma InsertStep<T>(s: seq<T>, x: T, less: (T, T) -> bool)
    ensures Insert(s, x, less) ==
      if s != [] && less(x, s[|s| - 1]) then Insert(s[..|s| - 1], x, less) + [s[|s| - 1]] else s + [x]
  {
  }

  lemma EqualsAppend<T>(s: seq<T>, z: T, y: T, less: (T, T) -> bool)
    ensures Equals(s + [z], y, less) == Equals(s, y, less) + if Equivalent(z, y, less) then [z] else []
  {
    assert (s + [z])[..|s|] == s;
  }

  /** Elements that compare equal keep their order. */
  lemma {:induction false} SortIsStable<T(!new)>(s: seq<T>, x: T, less: (T, T) -> bool)
    requires StrictWeak(less)
    ensures Equals(Sort(s, less), x, less) == Equals(s, x, less)
  {
    if s != [] {
      SortIsStable(s[..|s| - 1], x, less);
      InsertKeepsOrder(Sort(s[..|s| - 1], less), s[|s| - 1], x, less);
    }
  }
}
