/** Sorting of row positions by a strict total order, as `sort_by_key` and `sort_unstable`
    do it, and what a sorted row list is determined by. */
module Sorting {

  type Order = (nat, nat) -> bool

  ghost predicate StrictTotal(less: Order) {
    && (forall a: nat, b: nat :: less(a, b) ==> !less(b, a))
    && (forall a: nat, b: nat :: a == b || less(a, b) || less(b, a))
    && (forall a: nat, b: nat, c: nat :: less(a, b) && less(b, c) ==> less(a, c))
  }

  function Ascending(): Order {
    (a: nat, b: nat) => a < b
  }

  ghost predicate SortedBy(less: Order, xs: seq<nat>) {
    forall i, j :: 0 <= i < j < |xs| ==> xs[i] == xs[j] || less(xs[i], xs[j])
  }

  function Insert(less: Order, x: nat, xs: seq<nat>): seq<nat> {
    if xs == [] then [x]
    else if less(xs[0], x) then [xs[0]] + Insert(less, x, xs[1..])
    else [x] + xs
  }

  function Sort(less: Order, xs: seq<nat>): seq<nat> {
    if xs == [] then [] else Insert(less, xs[0], Sort(less, xs[1..]))
  }

  lemma {:induction false} InsertContents(less: Order, x: nat, xs: seq<nat>)
    ensures multiset(Insert(less, x, xs)) == multiset{x} + multiset(xs)
  {
    if xs != [] {
      assert xs == [xs[0]] + xs[1..];
      InsertContents(less, x, xs[1..]);
    }
  }

  lemma {:induction false} SortContents(less: Order, xs: seq<nat>)
    ensures multiset(Sort(less, xs)) == multiset(xs)
    ensures |Sort(less, xs)| == |xs|
  {
    if xs != [] {
      assert xs == [xs[0]] + xs[1..];
      SortContents(less, xs[1..]);
      InsertContents(less, xs[0], Sort(less, xs[1..]));
    }
    assert |multiset(Sort(less, xs))| == |Sort(less, xs)|;
    assert |multiset(xs)| == |xs|;
  }

  lemma SameMembers(xs: seq<nat>, ys: seq<nat>)
    requires multiset(xs) == multiset(ys)
    ensures forall x :: x in xs <==> x in ys
  {
    assert forall x :: x in xs <==> x in multiset(xs);
    assert forall x :: x in ys <==> x in multiset(ys);
  }

  lemma {:induction false} InsertSorts(less: Order, x: nat, xs: seq<nat>)
    requires StrictTotal(less) && SortedBy(less, xs)
    ensures SortedBy(less, Insert(less, x, xs))
  {
    if xs != [] && less(xs[0], x) {
      InsertSorts(less, x, xs[1..]);
      var rest := Insert(less, x, xs[1..]);
      InsertContents(less, x, xs[1..]);
      forall j | 0 <= j < |rest|
        ensures rest[j] == xs[0] || less(xs[0], rest[j])
      {
        assert rest[j] in multiset(rest);
        assert rest[j] == x || rest[j] in xs[1..];
      }
    }
  }

  lemma {:induction false} SortSorts(less: Order, xs: seq<nat>)
    requires StrictTotal(less)
    ensures SortedBy(less, Sort(less, xs))
  {
    if xs != [] {
      SortSorts(less, xs[1..]);
      InsertSorts(less, xs[0], Sort(less, xs[1..]));
    }
  }

  lemma AscendingIsStrictTotal()
    ensures StrictTotal(Ascending())
  {
  }

  ghost predicate Distinct(xs: seq<nat>) {
    forall i, j :: 0 <= i < j < |xs| ==> xs[i] != xs[j]
  }

  lemma {:induction false} DistinctMeansOnce(xs: seq<nat>)
    ensures Distinct(xs) <==> forall x :: multiset(xs)[x] <= 1
  {
    if xs != [] {
      var rest := xs[..|xs| - 1];
      var last := xs[|xs| - 1];
      assert xs == rest + [last];
      DistinctMeansOnce(rest);
      assert multiset(xs) == multiset(rest) + multiset{last};
      assert last in rest <==> multiset(rest)[last] > 0;
      assert Distinct(xs) <==> Distinct(rest) && last !in rest;
      if forall x :: multiset(xs)[x] <= 1 {
        assert forall x :: multiset(rest)[x] <= multiset(xs)[x];
      }
    }
  }

  lemma SortKeepsDistinct(less: Order, xs: seq<nat>)
    requires Distinct(xs)
    ensures Distinct(Sort(less, xs))
  {
    SortContents(less, xs);
    DistinctMeansOnce(xs);
    DistinctMeansOnce(Sort(less, xs));
  }
}
