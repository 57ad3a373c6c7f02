/** Facts about sequences that several modules share. */
module Sequences {

  function Sum(ns: seq<int>): int {
    if ns == [] then 0 else ns[0] + Sum(ns[1..])
  }

  lemma Associate<T>(a: seq<T>, b: seq<T>, c: seq<T>)
    ensures a + (b + c) == a + b + c
  {
  }

  /** A sum lies between the count times the least and the count times the greatest. */
  lemma {:induction false} SumIsBounded(ns: seq<int>, lo: int, hi: int)
    requires forall i :: 0 <= i < |ns| ==> lo <= ns[i] <= hi
    ensures lo * |ns| <= Sum(ns) <= hi * |ns|
  {
    if ns != [] {
      SumIsBounded(ns[1..], lo, hi);
      var k := |ns[1..]|;
      assert |ns| == k + 1;
      assert lo * (k + 1) == lo * k + lo && hi * (k + 1) == hi * k + hi;
    }
  }

  lemma MultisetOfConcat<T>(a: seq<T>, b: seq<T>)
    ensures multiset(a + b) == multiset(a) + multiset(b)
  {
  }

  lemma MultisetOfCons<T>(a: seq<T>)
    requires a != []
    ensures multiset(a) == multiset{a[0]} + multiset(a[1..])
  {
    assert a == [a[0]] + a[1..];
  }

  lemma SplitAt<T>(b: seq<T>, i: nat)
    requires i < |b|
    ensures b == b[..i] + [b[i]] + b[i + 1..]
    ensures multiset(b) == multiset{b[i]} + multiset(b[..i] + b[i + 1..])
  {
    var front, back := b[..i], b[i + 1..];
    assert b == front + [b[i]] + back;
    MultisetOfConcat(front + [b[i]], back);
    MultisetOfConcat(front, [b[i]]);
    MultisetOfConcat(front, back);
  }

  lemma CancelElement<T>(x: T, m: multiset<T>, n: multiset<T>)
    requires multiset{x} + m == multiset{x} + n
    ensures m == n
  {
    assert m == (multiset{x} + m) - multiset{x};
    assert n == (multiset{x} + n) - multiset{x};
  }

  /** Two sequences with the same elements: the first element of one, removed from the other. */
  lemma TakeOut<T>(a: seq<T>, b: seq<T>) returns (i: nat)
    requires a != [] && multiset(a) == multiset(b)
    ensures i < |b| && b[i] == a[0]
    ensures b == b[..i] + [b[i]] + b[i + 1..]
    ensures multiset(a[1..]) == multiset(b[..i] + b[i + 1..])
  {
    SameMembers(a, b);
    assert a[0] in a;
    i :| 0 <= i < |b| && b[i] == a[0];
    MultisetOfCons(a);
    SplitAt(b, i);
    CancelElement(a[0], multiset(a[1..]), multiset(b[..i] + b[i + 1..]));
  }

  /** Two sequences with the same elements have the same length and the same members. */
  lemma SameMembers<T>(a: seq<T>, b: seq<T>)
    requires multiset(a) == multiset(b)
    ensures |a| == |b|
    ensures forall x :: x in a <==> x in b
  {
    assert |multiset(a)| == |a| && |multiset(b)| == |b|;
    forall x ensures x in a <==> x in b {
      assert x in a <==> x in multiset(a);
      assert x in b <==> x in multiset(b);
    }
  }

  lemma EmptyOrInhabited<T>(s: seq<T>)
    ensures s == [] || exists x :: x in s
  {
    if s != [] {
      assert s[0] in s;
    }
  }
}
