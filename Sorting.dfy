/**
 * `Array.prototype.sort` with a comparator. The page sorts each listing with
 * `fileComparable`, whose definition is not part of this model, so the
 * comparator is a parameter: negative or zero means "may stay before".
 * Insertion sort stands in for the engine's algorithm; what is proved holds
 * for any comparator (a permutation) or for any total one (ordered).
 */
module Sorting {

  /** Inserts `x` before the first element it compares at most equal to. */
  function Insert<T>(x: T, ys: seq<T>, cmp: (T, T) -> int): (r: seq<T>)
    ensures multiset(r) == multiset(ys) + multiset{x}
    ensures r[0] == x || (|ys| > 0 && r[0] == ys[0])
  {
    if ys == [] then [x]
    else if cmp(x, ys[0]) <= 0 then [x] + ys
    else
      assert ys == [ys[0]] + ys[1..];
      [ys[0]] + Insert(x, ys[1..], cmp)
  }

  /** The listing sorted by `cmp`: always a permutation of its input. */
  function SortBy<T>(xs: seq<T>, cmp: (T, T) -> int): (r: seq<T>)
    ensures multiset(r) == multiset(xs)
    ensures |r| == |xs|
  {
    if xs == [] then []
    else
      assert xs == [xs[0]] + xs[1..];
      Insert(xs[0], SortBy(xs[1..], cmp), cmp)
  }

  /** A comparator that orders every pair one way or the other. */
  ghost predicate Total<T(!new)>(cmp: (T, T) -> int) {
    forall a, b :: cmp(a, b) <= 0 || cmp(b, a) <= 0
  }

  /** Each element compares at most equal to the next. */
  predicate Ordered<T>(s: seq<T>, cmp: (T, T) -> int) {
    forall i :: 0 <= i < |s| - 1 ==> cmp(s[i], s[i + 1]) <= 0
  }

  lemma {:induction false} InsertOrdered<T(!new)>(x: T, ys: seq<T>, cmp: (T, T) -> int)
    requires Total(cmp) && Ordered(ys, cmp)
    ensures Ordered(Insert(x, ys, cmp), cmp)
  {
    if ys != [] && cmp(x, ys[0]) > 0 {
      var tail := ys[1..];
      assert Ordered(tail, cmp) by {
        forall i | 0 <= i < |tail| - 1 ensures cmp(tail[i], tail[i + 1]) <= 0 {
          assert tail[i] == ys[i + 1] && tail[i + 1] == ys[i + 2];
        }
      }
      InsertOrdered(x, tail, cmp);
      var r := Insert(x, ys, cmp);
      var rest := Insert(x, tail, cmp);
      assert r == [ys[0]] + rest;
      assert cmp(ys[0], rest[0]) <= 0 by {
        if rest[0] == x {
          assert cmp(ys[0], x) <= 0;
        } else {
          assert rest[0] == ys[1];
        }
      }
      forall i | 0 <= i < |r| - 1 ensures cmp(r[i], r[i + 1]) <= 0 {
        if i > 0 {
          assert r[i] == rest[i - 1] && r[i + 1] == rest[i];
        }
      }
    }
  }

  /** With a total comparator the sorted listing is in comparator order. */
  lemma {:induction false} SortByOrdered<T(!new)>(xs: seq<T>, cmp: (T, T) -> int)
    requires Total(cmp)
    ensures Ordered(SortBy(xs, cmp), cmp)
  {
    if xs != [] {
      SortByOrdered(xs[1..], cmp);
      InsertOrdered(xs[0], SortBy(xs[1..], cmp), cmp);
    }
  }
}
