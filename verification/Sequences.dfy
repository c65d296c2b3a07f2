/** What several parts of the model need of sequences. */
module Sequences {

  ghost predicate Distinct<T>(xs: seq<T>) {
    forall i, j :: 0 <= i < j < |xs| ==> xs[i] != xs[j]
  }

  /** All but the elements equal to x. */
  function Without<T(==, !new)>(xs: seq<T>, x: T): (rest: seq<T>)
    ensures forall y :: y in rest <==> y in xs && y != x
    ensures |rest| <= |xs|
    ensures x in xs ==> |rest| < |xs|
  {
    if xs == [] then []
    else if xs[0] == x then Without(xs[1..], x)
    else [xs[0]] + Without(xs[1..], x)
  }

  lemma {:induction false} WithoutDistinct<T(!new)>(xs: seq<T>, x: T)
    requires Distinct(xs)
    ensures Distinct(Without(xs, x))
  {
    if xs != [] {
      WithoutDistinct(xs[1..], x);
      forall y | y in xs[1..] ensures y != xs[0] {
        var i :| 0 <= i < |xs[1..]| && xs[1..][i] == y;
        assert xs[i + 1] == y;
      }
      var rest := Without(xs[1..], x);
      forall j | 0 <= j < |rest| ensures rest[j] != xs[0] {
        assert rest[j] in rest;
      }
    }
  }

  lemma Associates<T>(a: seq<T>, b: seq<T>, c: seq<T>)
    ensures a + (b + c) == a + b + c
  {
  }

  lemma Cancel<T>(a: multiset<T>, b: multiset<T>, m: multiset<T>)
    requires a + m == b + m
    ensures a == b
  {
    forall v ensures a[v] == b[v] {
      assert (a + m)[v] == (b + m)[v];
    }
  }

  lemma MultisetAround<T>(before: seq<T>, x: T, after: seq<T>)
    ensures multiset(before + [x] + after) == multiset(before + after) + multiset{x}
  {
  }

  /** Taking the first element out of one order and the same element out of another leaves two orders of the rest. */
  lemma RestPermutes<T>(xs: seq<T>, before: seq<T>, after: seq<T>)
    requires xs != [] && multiset(xs) == multiset(before + [xs[0]] + after)
    ensures multiset(xs[1..]) == multiset(before + after)
  {
    MultisetAround([], xs[0], xs[1..]);
    MultisetAround(before, xs[0], after);
    assert [] + [xs[0]] + xs[1..] == xs && [] + xs[1..] == xs[1..];
    Cancel(multiset(xs[1..]), multiset(before + after), multiset{xs[0]});
  }

  lemma SplitAt<T>(ys: seq<T>, x: T) returns (before: seq<T>, after: seq<T>)
    requires x in ys
    ensures ys == before + [x] + after
  {
    var i :| 0 <= i < |ys| && ys[i] == x;
    before, after := ys[..i], ys[i + 1..];
  }

  /** Where the first element of one order stands in another. */
  lemma PlaceOfFirst<T>(xs: seq<T>, ys: seq<T>) returns (before: seq<T>, after: seq<T>)
    requires xs != [] && multiset(xs) == multiset(ys)
    ensures ys == before + [xs[0]] + after && multiset(xs[1..]) == multiset(before + after)
  {
    assert xs[0] in multiset(ys);
    before, after := SplitAt(ys, xs[0]);
    RestPermutes(xs, before, after);
  }

  lemma SameElements<T>(xs: seq<T>, ys: seq<T>)
    requires multiset(xs) == multiset(ys)
    ensures |xs| == |ys| && forall x :: x in xs <==> x in ys
  {
    assert |xs| == |multiset(xs)| && |ys| == |multiset(ys)|;
    assert forall x :: x in xs <==> x in multiset(xs);
    assert forall x :: x in ys <==> x in multiset(ys);
  }
}
