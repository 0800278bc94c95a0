/** Sorting the distinct values of a set, as the code does with the values of a map: the
    result does not depend on the order they come in. */
module Sorting {
  /** A strict total order on these items. */
  ghost predicate Orders<T(!new)>(less: (T, T) -> bool, items: set<T>) {
    && (forall x :: x in items ==> !less(x, x))
    && (forall x, y, z :: x in items && y in items && z in items && less(x, y) && less(y, z) ==> less(x, z))
    && (forall x, y :: x in items && y in items && x != y ==> less(x, y) || less(y, x))
  }

  predicate Ascending<T>(list: seq<T>, less: (T, T) -> bool) {
    forall i, j :: 0 <= i < j < |list| ==> less(list[i], list[j])
  }

  predicate IsLeast<T(==)>(least: T, items: set<T>, less: (T, T) -> bool) {
    least in items && forall other :: other in items && other != least ==> less(least, other)
  }

  lemma {:induction false} LeastExists<T(!new)>(items: set<T>, less: (T, T) -> bool) returns (least: T)
    requires Orders(less, items) && items != {}
    ensures IsLeast(least, items, less)
    decreases items
  {
    var any :| any in items;
    least := any;
    if items - {any} != {} {
      var rest := LeastExists(items - {any}, less);
      least := if less(rest, any) then rest else any;
    }
    forall other | other in items && other != least
      ensures less(least, other)
    {
      assert other == any || other in items - {any};
    }
  }

  /** The list so far, with the items still to come. */
  ghost predicate SortedSoFar<T(!new)>(list: seq<T>, items: set<T>, left: set<T>, less: (T, T) -> bool) {
    && left <= items && Ascending(list, less)
    && (forall x :: x in list <==> x in items && x !in left)
    && (forall x, y :: x in list && y in left ==> less(x, y))
  }

  lemma SortStep<T(!new)>(list: seq<T>, items: set<T>, left: set<T>, less: (T, T) -> bool, least: T)
    requires SortedSoFar(list, items, left, less) && IsLeast(least, left, less)
    ensures SortedSoFar(list + [least], items, left - {least}, less)
  {
    var more := list + [least];
    forall x
      ensures x in more <==> x in items && x !in left - {least}
    {
      assert x in more <==> x in list || x == least;
    }
    forall x, y | x in more && y in left - {least}
      ensures less(x, y)
    {
      assert x in list || x == least;
    }
    forall i, j | 0 <= i < j < |more|
      ensures less(more[i], more[j])
    {
      assert i < |list| ==> list[i] in list;
    }
  }

  method Sort<T(!new, ==)>(items: set<T>, less: (T, T) -> bool) returns (list: seq<T>)
    requires Orders(less, items)
    ensures Ascending(list, less) && forall x :: x in list <==> x in items
  {
    list := [];
    var left := items;
    while left != {}
      invariant SortedSoFar(list, items, left, less)
      decreases left
    {
      ghost var smallest := LeastExists(left, less);
      var least :| IsLeast(least, left, less);
      SortStep(list, items, left, less, least);
      list := list + [least];
      left := left - {least};
    }
  }

  lemma LastIsGreatest<T(!new)>(list: seq<T>, front: seq<T>, last: T, items: set<T>, less: (T, T) -> bool)
    requires Orders(less, items) && (forall x :: x in list ==> x in items)
    requires Ascending(list, less) && list == front + [last]
    ensures Ascending(front, less) && last in list
    ensures forall x :: x in front <==> x in list && x != last
    ensures forall x :: x in front ==> less(x, last)
  {
    forall i, j | 0 <= i < j < |front|
      ensures less(front[i], front[j])
    {
      assert list[i] == front[i] && list[j] == front[j];
    }
    assert list[|front|] == last;
    forall x | x in front
      ensures x in list && less(x, last)
    {
      var i :| 0 <= i < |front| && front[i] == x;
      assert list[i] == x;
    }
  }

  lemma SameSize<T>(a: seq<T>, b: seq<T>)
    requires forall x :: x in a ==> x in b
    ensures |a| > 0 ==> |b| > 0
  {
    if |a| > 0 {
      var x := a[0];
      assert x in a;
    }
  }

  /** Two ascending lists of the same items are the same list. */
  lemma {:induction false} SameAscending<T(!new)>(a: seq<T>, b: seq<T>, items: set<T>, less: (T, T) -> bool)
    requires Orders(less, items) && (forall x :: x in a ==> x in items)
    requires Ascending(a, less) && Ascending(b, less) && forall x :: x in a <==> x in b
    ensures a == b
    decreases |a|
  {
    SameSize(a, b);
    SameSize(b, a);
    if |a| > 0 && |b| > 0 {
      var x, y := a[|a| - 1], b[|b| - 1];
      var frontA, frontB := a[..|a| - 1], b[..|b| - 1];
      assert a == frontA + [x] && b == frontB + [y];
      LastIsGreatest(a, frontA, x, items, less);
      LastIsGreatest(b, frontB, y, items, less);
      assert x in b && y in a;
      assert x != y ==> x in frontB && y in frontA;
      assert x == y;
      SameAscending(frontA, frontB, items, less);
    }
  }
}
