/** Sorting by a total preorder, and strings in the order Go compares them. */
module Sorting {

  ghost predicate TotalPreorder<T(!new)>(leq: (T, T) -> bool) {
    && (forall x, y :: leq(x, y) || leq(y, x))
    && (forall x, y, z :: leq(x, y) && leq(y, z) ==> leq(x, z))
  }

  ghost predicate SortedBy<T>(leq: (T, T) -> bool, xs: seq<T>) {
    forall i, j :: 0 <= i < j < |xs| ==> leq(xs[i], xs[j])
  }

  function Insert<T>(leq: (T, T) -> bool, x: T, xs: seq<T>): (ys: seq<T>)
    ensures multiset(ys) == multiset(xs) + multiset{x}
  {
    if xs == [] || leq(x, xs[0]) then [x] + xs
    else
      assert xs == [xs[0]] + xs[1..];
      [xs[0]] + Insert(leq, x, xs[1..])
  }

  lemma {:induction false} InsertKeepsOrder<T(!new)>(leq: (T, T) -> bool, x: T, xs: seq<T>)
    requires TotalPreorder(leq) && SortedBy(leq, xs)
    ensures SortedBy(leq, Insert(leq, x, xs))
  {
    if xs != [] && !leq(x, xs[0]) {
      var rest := Insert(leq, x, xs[1..]);
      InsertKeepsOrder(leq, x, xs[1..]);
      forall j | 0 <= j < |rest|
        ensures leq(xs[0], rest[j])
      {
        assert rest[j] in multiset(rest);
        assert rest[j] == x || rest[j] in xs[1..];
      }
    }
  }

  /** Some sorted arrangement of `xs`; ties keep no particular order. */
  function Sort<T(!new)>(leq: (T, T) -> bool, xs: seq<T>): (ys: seq<T>)
    requires TotalPreorder(leq)
    ensures SortedBy(leq, ys) && multiset(ys) == multiset(xs)
  {
    if xs == [] then []
    else
      assert xs == [xs[0]] + xs[1..];
      var rest := Sort(leq, xs[1..]);
      InsertKeepsOrder(leq, xs[0], rest);
      Insert(leq, xs[0], rest)
  }

  predicate StringLeq(a: string, b: string) {
    a == [] || (b != [] && (a[0] < b[0] || (a[0] == b[0] && StringLeq(a[1..], b[1..]))))
  }

  /** A prefix comes first; otherwise the first position where the two differ decides. */
  ghost predicate Before(a: string, b: string) {
    a <= b || exists i: nat :: SmallerAt(a, b, i)
  }

  /** The two agree up to position `i`, where `a` is smaller. */
  ghost predicate SmallerAt(a: string, b: string, i: nat) {
    i < |a| && i < |b| && a[..i] == b[..i] && a[i] < b[i]
  }

  lemma SmallerAtNext(a: string, b: string, i: nat)
    requires a != [] && b != [] && a[0] == b[0]
    ensures SmallerAt(a, b, i + 1) <==> SmallerAt(a[1..], b[1..], i)
    ensures !SmallerAt(a, b, 0)
  {
    if i < |a[1..]| && i < |b[1..]| {
      assert a[..i + 1] == [a[0]] + a[1..][..i] && b[..i + 1] == [b[0]] + b[1..][..i];
      assert a[..i + 1][1..] == a[1..][..i] && b[..i + 1][1..] == b[1..][..i];
    }
  }

  lemma BeforeNext(a: string, b: string)
    requires a != [] && b != [] && a[0] == b[0]
    ensures Before(a, b) <==> Before(a[1..], b[1..])
  {
    assert a == [a[0]] + a[1..] && b == [b[0]] + b[1..];
    assert a <= b <==> a[1..] <= b[1..];
    hide SmallerAt;
    if i: nat :| SmallerAt(a[1..], b[1..], i) {
      SmallerAtNext(a, b, i);
      assert SmallerAt(a, b, i + 1);
    }
    if i: nat :| SmallerAt(a, b, i) {
      SmallerAtNext(a, b, 0);
      if i > 0 {
        SmallerAtNext(a, b, i - 1);
        assert SmallerAt(a[1..], b[1..], i - 1);
      }
    }
  }

  lemma GreaterFirst(a: string, b: string, i: nat)
    requires a != [] && b != [] && a[0] > b[0]
    ensures !SmallerAt(a, b, i)
  {
    if 0 < i <= |a| && i <= |b| {
      assert a[..i][0] == a[0] && b[..i][0] == b[0];
    }
  }

  lemma {:induction false} StringLeqMeans(a: string, b: string)
    ensures StringLeq(a, b) <==> Before(a, b)
  {
    if a != [] && b != [] {
      if a[0] == b[0] {
        StringLeqMeans(a[1..], b[1..]);
        BeforeNext(a, b);
        hide Before;
      } else if a[0] < b[0] {
        assert SmallerAt(a, b, 0);
      } else {
        forall i: nat
          ensures !SmallerAt(a, b, i)
        {
          GreaterFirst(a, b, i);
        }
      }
    }
  }

  lemma {:induction false} StringLeqTotal(a: string, b: string)
    ensures StringLeq(a, b) || StringLeq(b, a)
    ensures StringLeq(a, b) && StringLeq(b, a) ==> a == b
  {
    if a != [] && b != [] && a[0] == b[0] {
      StringLeqTotal(a[1..], b[1..]);
      assert a == [a[0]] + a[1..] && b == [b[0]] + b[1..];
    }
  }

  lemma {:induction false} StringLeqTransitive(a: string, b: string, c: string)
    requires StringLeq(a, b) && StringLeq(b, c)
    ensures StringLeq(a, c)
  {
    if a != [] && b != [] && c != [] && a[0] == b[0] == c[0] {
      StringLeqTransitive(a[1..], b[1..], c[1..]);
    }
  }

  lemma StringsAreOrdered()
    ensures TotalPreorder(StringLeq)
  {
    forall a, b ensures StringLeq(a, b) || StringLeq(b, a) {
      StringLeqTotal(a, b);
    }
    forall a, b, c | StringLeq(a, b) && StringLeq(b, c) ensures StringLeq(a, c) {
      StringLeqTransitive(a, b, c);
    }
  }
}
