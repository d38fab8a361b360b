/** Stable sorting by a total preorder, as the library's `sort_by` promises it. */
module Sorting {
  ghost predicate TotalPreorder<T(!new)>(leq: (T, T) -> bool) {
    && (forall x, y :: leq(x, y) || leq(y, x))
    && (forall x, y, z :: leq(x, y) && leq(y, z) ==> leq(x, z))
  }

  ghost predicate Sorted<T>(s: seq<T>, leq: (T, T) -> bool) {
    forall i, j :: 0 <= i < j < |s| ==> leq(s[i], s[j])
  }

  /** Inserts in front of the first element that is not smaller. */
  function Insert<T>(x: T, s: seq<T>, leq: (T, T) -> bool): seq<T> {
    if s == [] then [x]
    else if leq(x, s[0]) then [x] + s
    else [s[0]] + Insert(x, s[1..], leq)
  }

  /** Insertion from the right, so that equal elements keep their order. */
  function Sort<T>(s: seq<T>, leq: (T, T) -> bool): seq<T> {
    if s == [] then [] else Insert(s[0], Sort(s[1..], leq), leq)
  }

  // ----- A sorted permutation -----

  lemma {:induction false} InsertElements<T>(x: T, s: seq<T>, leq: (T, T) -> bool)
    ensures multiset(Insert(x, s, leq)) == multiset(s) + multiset{x}
    ensures |Insert(x, s, leq)| == |s| + 1
  {
    if s != [] {
      assert s == [s[0]] + s[1..];
      InsertElements(x, s[1..], leq);
    }
  }

  lemma {:induction false} SortElements<T>(s: seq<T>, leq: (T, T) -> bool)
    ensures multiset(Sort(s, leq)) == multiset(s)
    ensures |Sort(s, leq)| == |s|
  {
    if s != [] {
      assert s == [s[0]] + s[1..];
      SortElements(s[1..], leq);
      InsertElements(s[0], Sort(s[1..], leq), leq);
    }
  }

  lemma MembersByMultiset<T>(a: seq<T>, b: seq<T>, x: T)
    requires multiset(a) == multiset(b)
    ensures x in a <==> x in b
  {
    assert x in a <==> x in multiset(a);
    assert x in b <==> x in multiset(b);
  }

  lemma SortMembers<T>(s: seq<T>, leq: (T, T) -> bool, x: T)
    ensures x in Sort(s, leq) <==> x in s
  {
    SortElements(s, leq);
    MembersByMultiset(Sort(s, leq), s, x);
  }

  lemma InsertMembers<T>(x: T, s: seq<T>, leq: (T, T) -> bool, y: T)
    ensures y in Insert(x, s, leq) <==> y == x || y in s
  {
    InsertElements(x, s, leq);
    MembersByMultiset(Insert(x, s, leq), s + [x], y);
  }

  lemma SortedCons<T>(x: T, s: seq<T>, leq: (T, T) -> bool)
    requires Sorted(s, leq) && forall y :: y in s ==> leq(x, y)
    ensures Sorted([x] + s, leq)
  {
    var t := [x] + s;
    forall i, j | 0 <= i < j < |t|
      ensures leq(t[i], t[j])
    {
      assert t[j] == s[j - 1];
      if i > 0 {
        assert t[i] == s[i - 1];
      }
    }
  }

  lemma SortedTail<T>(s: seq<T>, leq: (T, T) -> bool)
    requires Sorted(s, leq) && s != []
    ensures Sorted(s[1..], leq)
    ensures forall y :: y in s[1..] ==> leq(s[0], y)
  {
  }

  lemma {:induction false} InsertSorted<T(!new)>(x: T, s: seq<T>, leq: (T, T) -> bool)
    requires TotalPreorder(leq) && Sorted(s, leq)
    ensures Sorted(Insert(x, s, leq), leq)
  {
    hide Sorted;
    if s == [] {
      SingleSorted(x, leq);
    } else {
      SortedTail(s, leq);
      if leq(x, s[0]) {
        forall y | y in s
          ensures leq(x, y)
        {
          if y != s[0] {
            assert s == [s[0]] + s[1..];
          }
        }
        SortedCons(x, s, leq);
      } else {
        InsertSorted(x, s[1..], leq);
        forall y | y in Insert(x, s[1..], leq)
          ensures leq(s[0], y)
        {
          InsertMembers(x, s[1..], leq, y);
        }
        SortedCons(s[0], Insert(x, s[1..], leq), leq);
      }
    }
  }

  lemma SingleSorted<T>(x: T, leq: (T, T) -> bool)
    ensures Sorted([x], leq) && Sorted([], leq)
  {
  }

  lemma {:induction false} SortSorted<T(!new)>(s: seq<T>, leq: (T, T) -> bool)
    requires TotalPreorder(leq)
    ensures Sorted(Sort(s, leq), leq)
  {
    if s != [] {
      SortSorted(s[1..], leq);
      InsertSorted(s[0], Sort(s[1..], leq), leq);
    }
  }

  // ----- Stability -----

  ghost predicate Equivalent<T>(leq: (T, T) -> bool, x: T, y: T) {
    leq(x, y) && leq(y, x)
  }

  /** The elements of `s` that the order does not tell apart from `x`, in their order. */
  ghost function ClassOf<T>(s: seq<T>, leq: (T, T) -> bool, x: T): seq<T> {
    if s == [] then []
    else (if Equivalent(leq, s[0], x) then [s[0]] else []) + ClassOf(s[1..], leq, x)
  }

  lemma {:induction false} InsertKeepsClasses<T(!new)>(y: T, s: seq<T>, leq: (T, T) -> bool, x: T)
    requires TotalPreorder(leq)
    ensures ClassOf(Insert(y, s, leq), leq, x) == ClassOf([y] + s, leq, x)
  {
    assert ([y] + s)[1..] == s;
    if s != [] && !leq(y, s[0]) {
      InsertKeepsClasses(y, s[1..], leq, x);
      var t := [s[0]] + Insert(y, s[1..], leq);
      assert t[1..] == Insert(y, s[1..], leq);
      assert ([y] + s[1..])[1..] == s[1..];
      assert !(Equivalent(leq, y, x) && Equivalent(leq, s[0], x));
    }
  }

  /** Elements that compare equal keep the order they had. */
  lemma {:induction false} SortIsStable<T(!new)>(s: seq<T>, leq: (T, T) -> bool, x: T)
    requires TotalPreorder(leq)
    ensures ClassOf(Sort(s, leq), leq, x) == ClassOf(s, leq, x)
  {
    if s != [] {
      SortIsStable(s[1..], leq, x);
      InsertKeepsClasses(s[0], Sort(s[1..], leq), leq, x);
      assert ([s[0]] + Sort(s[1..], leq))[1..] == Sort(s[1..], leq);
    }
  }

  // ----- Uniqueness -----

  /** Elements that compare equal are equal. */
  ghost predicate Antisymmetric<T>(s: seq<T>, leq: (T, T) -> bool) {
    forall i, j :: 0 <= i < |s| && 0 <= j < |s| && Equivalent(leq, s[i], s[j]) ==> s[i] == s[j]
  }

  lemma HeadsEqual<T(!new)>(a: seq<T>, b: seq<T>, leq: (T, T) -> bool)
    requires TotalPreorder(leq) && Sorted(a, leq) && Sorted(b, leq)
    requires multiset(a) == multiset(b) && Antisymmetric(a, leq) && a != [] && b != []
    ensures a[0] == b[0]
  {
    MembersByMultiset(a, b, a[0]);
    MembersByMultiset(a, b, b[0]);
    var j :| 0 <= j < |a| && a[j] == b[0];
    var i :| 0 <= i < |b| && b[i] == a[0];
    assert leq(a[0], a[0]) && leq(b[0], b[0]);
    assert leq(a[0], a[j]) && leq(b[0], b[i]);
    assert Equivalent(leq, a[0], a[j]);
  }

  lemma TailsMatch<T>(a: seq<T>, b: seq<T>)
    requires multiset(a) == multiset(b) && a != [] && b != [] && a[0] == b[0]
    ensures multiset(a[1..]) == multiset(b[1..])
  {
    assert a == [a[0]] + a[1..] && b == [b[0]] + b[1..];
    assert multiset(a[1..]) == multiset(a) - multiset{a[0]};
    assert multiset(b[1..]) == multiset(b) - multiset{b[0]};
  }

  /** There is only one sorted arrangement of elements that the order separates. */
  lemma {:induction false} SortedUnique<T(!new)>(a: seq<T>, b: seq<T>, leq: (T, T) -> bool)
    requires TotalPreorder(leq) && Sorted(a, leq) && Sorted(b, leq)
    requires multiset(a) == multiset(b) && Antisymmetric(a, leq)
    ensures a == b
  {
    SameLength(a, b);
    if a != [] {
      HeadsEqual(a, b, leq);
      TailsMatch(a, b);
      SortedTail(a, leq);
      SortedTail(b, leq);
      AntisymmetricTail(a, leq);
      hide Sorted, Antisymmetric;
      SortedUnique(a[1..], b[1..], leq);
      assert a == [a[0]] + a[1..] && b == [b[0]] + b[1..];
    }
  }

  lemma AntisymmetricTail<T>(a: seq<T>, leq: (T, T) -> bool)
    requires Antisymmetric(a, leq) && a != []
    ensures Antisymmetric(a[1..], leq)
  {
    var t := a[1..];
    forall i, j | 0 <= i < |t| && 0 <= j < |t| && Equivalent(leq, t[i], t[j])
      ensures t[i] == t[j]
    {
      assert t[i] == a[i + 1] && t[j] == a[j + 1];
    }
  }

  lemma SameLength<T>(a: seq<T>, b: seq<T>)
    requires multiset(a) == multiset(b)
    ensures |a| == |b|
  {
    assert |multiset(a)| == |a| && |multiset(b)| == |b|;
  }

  /** When the order separates the elements, sorting gives the same result for every arrangement. */
  lemma SortCanonical<T(!new)>(a: seq<T>, b: seq<T>, leq: (T, T) -> bool)
    requires TotalPreorder(leq) && multiset(a) == multiset(b) && Antisymmetric(a, leq)
    ensures Sort(a, leq) == Sort(b, leq)
  {
    SortElements(a, leq);
    SortElements(b, leq);
    SortSorted(a, leq);
    SortSorted(b, leq);
    var sorted := Sort(a, leq);
    forall i, j | 0 <= i < |sorted| && 0 <= j < |sorted| && Equivalent(leq, sorted[i], sorted[j])
      ensures sorted[i] == sorted[j]
    {
      SortMembers(a, leq, sorted[i]);
      SortMembers(a, leq, sorted[j]);
      var k :| 0 <= k < |a| && a[k] == sorted[i];
      var l :| 0 <= l < |a| && a[l] == sorted[j];
    }
    SortedUnique(sorted, Sort(b, leq), leq);
  }
}
