/** Folds over sequences, from the front to the back, the way loops build them up. */
module Seqs {
  lemma SplitLast<T>(a: seq<T>, b: seq<T>)
    requires |b| > 0
    ensures b == b[..|b| - 1] + [b[|b| - 1]]
    ensures a + b == a + b[..|b| - 1] + [b[|b| - 1]]
    ensures (a + b)[..|a + b| - 1] == a + b[..|b| - 1]
  {}

  lemma NextPrefix<T>(items: seq<T>, k: nat)
    requires k < |items|
    ensures items[..k + 1][..k] == items[..k] && items[..k + 1][k] == items[k]
    ensures items[..k + 1] == items[..k] + [items[k]]
  {}

  lemma InsertBetween<T>(a: seq<T>, x: T, b: seq<T>)
    ensures a + ([x] + b) == a + [x] + b
  {}

  predicate Distinct<T(==)>(items: seq<T>) {
    forall i, j :: 0 <= i < j < |items| ==> items[i] != items[j]
  }

  predicate Any<T>(items: seq<T>, p: T -> bool) {
    |items| > 0 && (Any(items[..|items| - 1], p) || p(items[|items| - 1]))
  }

  lemma {:induction false} AnyIff<T>(items: seq<T>, p: T -> bool)
    ensures Any(items, p) <==> exists item :: item in items && p(item)
  {
    if |items| > 0 {
      var front, last := items[..|items| - 1], items[|items| - 1];
      AnyIff(front, p);
      assert items == front + [last];
      if Any(items, p) && !p(last) {
        var item :| item in front && p(item);
        assert item in items;
      }
    }
  }

  lemma {:induction false} AnyConcat<T>(a: seq<T>, b: seq<T>, p: T -> bool)
    ensures Any(a + b, p) <==> Any(a, p) || Any(b, p)
  {
    if |b| == 0 {
      assert a + b == a;
    } else {
      SplitLast(a, b);
      AnyConcat(a, b[..|b| - 1], p);
    }
  }

  function Flat<T, U>(items: seq<T>, f: T -> seq<U>): seq<U> {
    if |items| == 0 then [] else Flat(items[..|items| - 1], f) + f(items[|items| - 1])
  }

  lemma {:induction false} FlatConcat<T, U>(a: seq<T>, b: seq<T>, f: T -> seq<U>)
    ensures Flat(a + b, f) == Flat(a, f) + Flat(b, f)
  {
    if |b| == 0 {
      assert a + b == a;
    } else {
      SplitLast(a, b);
      FlatConcat(a, b[..|b| - 1], f);
    }
  }

  function Sum<T>(items: seq<T>, weight: T -> nat): nat {
    if |items| == 0 then 0 else Sum(items[..|items| - 1], weight) + weight(items[|items| - 1])
  }

  lemma {:induction false} SumUpdate<T>(items: seq<T>, i: nat, item: T, weight: T -> nat)
    requires i < |items|
    ensures Sum(items[i := item], weight) + weight(items[i]) == Sum(items, weight) + weight(item)
  {
    var front := items[..|items| - 1];
    if i < |front| {
      SumUpdate(front, i, item, weight);
      assert items[i := item][..|items| - 1] == front[i := item];
    } else {
      assert items[i := item][..|items| - 1] == front;
    }
  }

  lemma {:induction false} SumOf<T>(items: seq<T>, item: T, weight: T -> nat)
    requires forall i :: 0 <= i < |items| ==> items[i] == item
    ensures Sum(items, weight) == |items| * weight(item)
  {
    if |items| > 0 {
      SumOf(items[..|items| - 1], item, weight);
    }
  }
}
