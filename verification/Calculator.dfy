/**
  * The structural overhead exported by tools/build-calculator-data.py: the mean of the measured
  * remainders, rounded half to even, with their minimum and maximum. The mean is an exact fraction
  * here, as it is in Python's statistics module before the final conversion.
  */
module Calculator {
  import opened Wrappers
  import opened Sequences

  /** Floor division by a positive number, as in Python. */
  function FloorDiv(a: int, b: int): int
    requires b > 0
  {
    a / b
  }

  /** round(a / b): to the nearest integer, a tie going to the even one. */
  function RoundHalfEven(a: int, b: int): int
    requires b > 0
  {
    var q := FloorDiv(a, b);
    var r := a - q * b;
    if 2 * r < b || (2 * r == b && q % 2 == 0) then q else q + 1
  }

  /** n is a / b rounded to the nearest integer, a tie going to the even one. */
  predicate IsRounded(n: int, a: int, b: int) {
    && -b <= 2 * (n * b - a) <= b
    && (2 * (n * b - a) == b || 2 * (n * b - a) == -b ==> n % 2 == 0)
  }

  /** The rounded value is nearest: at most half away, and even when exactly half away. */
  lemma RoundedIsNearest(a: int, b: int)
    requires b > 0
    ensures IsRounded(RoundHalfEven(a, b), a, b)
  {
    var q, n := FloorDiv(a, b), RoundHalfEven(a, b);
    var floor := q * b;
    assert 0 <= a - floor < b;
    assert n * b == (if n == q then floor else floor + b) by { NextMultiple(q, b); }
  }

  lemma NextMultiple(q: int, b: int)
    ensures (q + 1) * b == q * b + b
  {
  }

  /** Rounding never leaves an interval with integer ends that contains the fraction. */
  lemma RoundingStaysBetween(a: int, b: int, lo: int, hi: int)
    requires b > 0 && lo * b <= a <= hi * b
    ensures lo <= RoundHalfEven(a, b) <= hi
  {
    hide RoundHalfEven;
    var n := RoundHalfEven(a, b);
    RoundedIsNearest(a, b);
    Scale(n, lo - 1, b);
    Scale(hi + 1, n, b);
    assert (lo - 1) * b == lo * b - b && (hi + 1) * b == hi * b + b;
  }

  lemma Scale(x: int, y: int, b: int)
    requires b > 0
    ensures x <= y ==> x * b <= y * b
  {
  }

  /** One measured certificate of a chain, by total, SPKI and signature sizes. */
  datatype Size = Size(total: int, spki: int, signature: int)

  function Remainder(s: Size): int {
    s.total - s.spki - s.signature
  }

  function RemainderOf(o: Option<Size>): seq<int> {
    match o
    case Some(s) => [Remainder(s)]
    case None => []
  }

  /** The remainders of the chains that have such a certificate, in corpus order. */
  function Remainders(corpus: seq<Option<Size>>): seq<int> {
    if corpus == [] then [] else RemainderOf(corpus[0]) + Remainders(corpus[1..])
  }

  /** The certificates that are there, in corpus order. */
  function Present(corpus: seq<Option<Size>>): seq<Size> {
    if corpus == [] then []
    else (if corpus[0].Some? then [corpus[0].value] else []) + Present(corpus[1..])
  }

  /** One remainder for every certificate that is there: the total without key and signature. */
  lemma {:induction false} RemaindersOfPresent(corpus: seq<Option<Size>>)
    ensures var sizes, vals := Present(corpus), Remainders(corpus);
            && |vals| == |sizes|
            && forall i :: 0 <= i < |vals| ==> vals[i] + sizes[i].spki + sizes[i].signature == sizes[i].total
  {
    if corpus != [] {
      RemaindersOfPresent(corpus[1..]);
    }
  }

  /** The sum of the totals, and of the keys and signatures. */
  function Totals(sizes: seq<Size>): int {
    if sizes == [] then 0 else sizes[0].total + Totals(sizes[1..])
  }

  function KeysAndSignatures(sizes: seq<Size>): int {
    if sizes == [] then 0 else sizes[0].spki + sizes[0].signature + KeysAndSignatures(sizes[1..])
  }

  lemma {:induction false} RemaindersAddUp(corpus: seq<Option<Size>>)
    ensures Sum(Remainders(corpus)) + KeysAndSignatures(Present(corpus)) == Totals(Present(corpus))
  {
    if corpus != [] {
      RemaindersAddUp(corpus[1..]);
      if corpus[0].Some? {
        var size := corpus[0].value;
        assert Present(corpus)[1..] == Present(corpus[1..]);
        assert Remainders(corpus)[1..] == Remainders(corpus[1..]);
      } else {
        assert Present(corpus) == Present(corpus[1..]) && Remainders(corpus) == Remainders(corpus[1..]);
      }
    }
  }

  /** The least and the greatest total without key and signature among the certificates. */
  ghost predicate AreExtremes(sizes: seq<Size>, lo: int, hi: int) {
    && (forall i :: 0 <= i < |sizes| ==>
          lo + sizes[i].spki + sizes[i].signature <= sizes[i].total
          <= hi + sizes[i].spki + sizes[i].signature)
    && (exists i :: 0 <= i < |sizes| && sizes[i].total == lo + sizes[i].spki + sizes[i].signature)
    && (exists i :: 0 <= i < |sizes| && sizes[i].total == hi + sizes[i].spki + sizes[i].signature)
  }

  datatype Structural = Structural(mean: int, lo: int, hi: int)

  /**
    * structural: the loop over the corpus chains; None is the StatisticsError on no values. The
    * exported mean lies between the exported extremes, which are attained.
    */
  method MeasureStructural(corpus: seq<Option<Size>>) returns (r: Option<Structural>)
    ensures r.None? <==> Remainders(corpus) == []
    ensures r.Some? ==>
              var vals, s := Remainders(corpus), r.value;
              && s.mean == RoundHalfEven(Sum(vals), |vals|)
              && s.lo in vals && s.hi in vals
              && (forall i :: 0 <= i < |vals| ==> s.lo <= vals[i] <= s.hi)
              && s.lo <= s.mean <= s.hi
    ensures r.None? <==> forall i :: 0 <= i < |corpus| ==> corpus[i].None?
    ensures r.Some? ==>
              var s, sizes := r.value, Present(corpus);
              && IsRounded(s.mean, Totals(sizes) - KeysAndSignatures(sizes), |sizes|)
              && AreExtremes(sizes, s.lo, s.hi)
  {
    hide RoundHalfEven, Sum, AreExtremes, IsRounded, Present;
    PresentOrNot(corpus);
    RemaindersOfPresent(corpus);
    var vals: seq<int> := [];
    for n := 0 to |corpus|
      invariant vals == Remainders(corpus[..n])
    {
      hide Remainders;
      OneMoreRemainder(corpus[..n], corpus[n]);
      assert corpus[..n + 1] == corpus[..n] + [corpus[n]];
      match corpus[n] {
        case None =>
        case Some(size) => vals := vals + [size.total - size.spki - size.signature];
      }
    }
    assert corpus[..|corpus|] == corpus;
    if vals == [] {
      return None;
    }
    var lo, hi := Extremes(vals);
    SumIsBounded(vals, lo, hi);
    RoundingStaysBetween(Sum(vals), |vals|, lo, hi);
    RoundedIsNearest(Sum(vals), |vals|);
    RemaindersAddUp(corpus);
    ExtremesOfPresent(corpus, lo, hi);
    r := Some(Structural(RoundHalfEven(Sum(vals), |vals|), lo, hi));
  }

  lemma ExtremesOfPresent(corpus: seq<Option<Size>>, lo: int, hi: int)
    requires lo in Remainders(corpus) && hi in Remainders(corpus)
    requires forall i :: 0 <= i < |Remainders(corpus)| ==> lo <= Remainders(corpus)[i] <= hi
    ensures AreExtremes(Present(corpus), lo, hi)
  {
    RemaindersOfPresent(corpus);
    var sizes, vals := Present(corpus), Remainders(corpus);
    var i :| 0 <= i < |vals| && vals[i] == lo;
    var j :| 0 <= j < |vals| && vals[j] == hi;
    assert sizes[i].total == lo + sizes[i].spki + sizes[i].signature;
    assert sizes[j].total == hi + sizes[j].spki + sizes[j].signature;
  }

  lemma {:induction false} PresentOrNot(corpus: seq<Option<Size>>)
    ensures Present(corpus) == [] <==> forall i :: 0 <= i < |corpus| ==> corpus[i].None?
  {
    if corpus != [] {
      PresentOrNot(corpus[1..]);
      assert corpus == [corpus[0]] + corpus[1..];
      assert forall i :: 0 < i < |corpus| ==> corpus[i] == corpus[1..][i - 1];
      assert forall i :: 0 <= i < |corpus| - 1 ==> corpus[1..][i] == corpus[i + 1];
    }
  }

  lemma {:induction false} OneMoreRemainder(corpus: seq<Option<Size>>, next: Option<Size>)
    ensures Remainders(corpus + [next]) == Remainders(corpus) + RemainderOf(next)
  {
    hide RemainderOf;
    if corpus == [] {
      assert corpus + [next] == [next] && [next][1..] == [];
      assert RemainderOf(next) + [] == RemainderOf(next);
    } else {
      assert (corpus + [next])[1..] == corpus[1..] + [next];
      OneMoreRemainder(corpus[1..], next);
    }
  }

  /** The least and the greatest of the values. */
  method Extremes(vals: seq<int>) returns (lo: int, hi: int)
    requires vals != []
    ensures lo in vals && hi in vals
    ensures forall i :: 0 <= i < |vals| ==> lo <= vals[i] <= hi
  {
    lo, hi := vals[0], vals[0];
    for i := 1 to |vals|
      invariant lo in vals && hi in vals
      invariant forall j :: 0 <= j < i ==> lo <= vals[j] <= hi
    {
      if vals[i] < lo { lo := vals[i]; }
      if vals[i] > hi { hi := vals[i]; }
    }
  }
}
