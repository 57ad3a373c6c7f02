/**
  * The transport report of phase3/report.py: which captures are listed, in which order, how many
  * segments their first flight needs, and which one is the heaviest that fits the initial window.
  */
module Report {
  import opened Wrappers
  import opened Sequences

  const INITIAL_WINDOW: nat := 10
  const ETHERNET: nat := 1460
  const TUNNELLED: nat := 1360

  /** A capture of transport.json; an entry with an error has no measurements. */
  datatype Capture =
    | Failed(chain: string, mode: string)
    | Measured(chain: string, mode: string, flight: nat, largestRecord: nat)

  predicate IsListed(c: Capture) {
    c.mode == "no-compression" && c.Measured?
  }

  function Listed(cs: seq<Capture>): (rows: seq<Capture>)
    ensures forall i :: 0 <= i < |rows| ==> IsListed(rows[i])
  {
    if cs == [] then [] else (if IsListed(cs[0]) then [cs[0]] else []) + Listed(cs[1..])
  }

  /** Position k of the captures is one of a measurement without compression. */
  ghost predicate IsMeasuredAt(cs: seq<Capture>, k: int) {
    0 <= k < |cs| && cs[k].Measured? && cs[k].mode == "no-compression"
  }

  /** The listed captures stand at these positions, which are all those of such measurements, in order. */
  ghost predicate AreListedAt(cs: seq<Capture>, rows: seq<Capture>, at: seq<int>) {
    && |at| == |rows|
    && (forall i :: 0 <= i < |at| ==> IsMeasuredAt(cs, at[i]) && rows[i] == cs[at[i]])
    && (forall i, j :: 0 <= i < j < |at| ==> at[i] < at[j])
    && (forall k :: IsMeasuredAt(cs, k) ==> k in at)
  }

  /** The same for the captures behind the first one. */
  ghost predicate AreListedBehind(cs: seq<Capture>, rows: seq<Capture>, at: seq<int>) {
    && |at| == |rows|
    && (forall i :: 0 <= i < |at| ==> at[i] > 0 && IsMeasuredAt(cs, at[i]) && rows[i] == cs[at[i]])
    && (forall i, j :: 0 <= i < j < |at| ==> at[i] < at[j])
    && (forall k :: k > 0 && IsMeasuredAt(cs, k) ==> k in at)
  }

  lemma OnePlace(cs: seq<Capture>, rows: seq<Capture>, more: seq<int>) returns (at: seq<int>)
    requires cs != [] && AreListedAt(cs[1..], rows, more)
    ensures AreListedBehind(cs, rows, at)
  {
    hide IsMeasuredAt;
    MeasuredIsNatural(cs[1..]);
    at := seq(|more|, i requires 0 <= i < |more| => more[i] + 1);
    forall i | 0 <= i < |at| ensures at[i] > 0 && IsMeasuredAt(cs, at[i]) && rows[i] == cs[at[i]] {
      MeasuredBehindFirst(cs, more[i]);
    }
    forall k | k > 0 && IsMeasuredAt(cs, k) ensures k in at {
      MeasuredBehindFirst(cs, k - 1);
      var i :| 0 <= i < |more| && more[i] == k - 1;
      assert at[i] == k;
    }
  }

  lemma MeasuredBehindFirst(cs: seq<Capture>, k: int)
    requires cs != [] && k >= 0
    ensures IsMeasuredAt(cs[1..], k) <==> IsMeasuredAt(cs, k + 1)
    ensures IsMeasuredAt(cs, k + 1) ==> k + 1 < |cs| && cs[1..][k] == cs[k + 1]
  {
  }

  lemma FirstPlace(cs: seq<Capture>, rows: seq<Capture>, more: seq<int>)
    requires IsMeasuredAt(cs, 0) && AreListedBehind(cs, rows, more)
    ensures AreListedAt(cs, [cs[0]] + rows, [0] + more)
  {
    hide IsMeasuredAt;
    MeasuredIsNatural(cs);
    var at, all := [0] + more, [cs[0]] + rows;
    assert |at| == |all|;
    forall i | 0 <= i < |at| ensures IsMeasuredAt(cs, at[i]) && all[i] == cs[at[i]] {
      if i > 0 { assert at[i] == more[i - 1] && all[i] == rows[i - 1]; }
    }
    forall i, j | 0 <= i < j < |at| ensures at[i] < at[j] {
      assert at[j] == more[j - 1];
      if i > 0 { assert at[i] == more[i - 1]; }
    }
    forall k | IsMeasuredAt(cs, k) ensures k in at {
      assert k == 0 || k in more;
    }
  }

  lemma MeasuredIsNatural(cs: seq<Capture>)
    ensures forall k :: IsMeasuredAt(cs, k) ==> 0 <= k < |cs|
  {
  }

  lemma NoFirstPlace(cs: seq<Capture>, rows: seq<Capture>, more: seq<int>)
    requires !IsMeasuredAt(cs, 0) && AreListedBehind(cs, rows, more)
    ensures AreListedAt(cs, rows, more)
  {
  }

  /** Exactly the uncompressed measurements are listed, in the order of the file. */
  lemma {:induction false} ListedAre(cs: seq<Capture>) returns (at: seq<int>)
    ensures AreListedAt(cs, Listed(cs), at)
  {
    hide AreListedBehind, Listed;
    if cs == [] {
      at := [];
      NothingListed();
    } else {
      hide AreListedAt;
      var more := ListedAre(cs[1..]);
      at := OnePlace(cs, Listed(cs[1..]), more);
      ListedFromFirst(cs);
      if IsListed(cs[0]) {
        FirstPlace(cs, Listed(cs[1..]), at);
        at := [0] + at;
      } else {
        NoFirstPlace(cs, Listed(cs[1..]), at);
      }
    }
  }

  lemma NothingListed()
    ensures Listed([]) == []
  {
  }

  lemma ListedFromFirst(cs: seq<Capture>)
    requires cs != []
    ensures Listed(cs) == if IsListed(cs[0]) then [cs[0]] + Listed(cs[1..]) else Listed(cs[1..])
  {
  }

  ghost predicate AllListed(rows: seq<Capture>) {
    forall i :: 0 <= i < |rows| ==> IsListed(rows[i])
  }

  ghost predicate Sorted(rows: seq<Capture>)
    requires AllListed(rows)
  {
    forall i, j :: 0 <= i < j < |rows| ==> rows[i].flight <= rows[j].flight
  }

  /** The captures of one flight size, in order. */
  function WithFlight(rows: seq<Capture>, flight: nat): seq<Capture> {
    if rows == [] then []
    else (if rows[0].Measured? && rows[0].flight == flight then [rows[0]] else []) + WithFlight(rows[1..], flight)
  }

  /** A stable rearrangement: captures of one flight size keep their order. */
  ghost predicate IsStable(rows: seq<Capture>, sorted: seq<Capture>) {
    forall flight: nat :: WithFlight(sorted, flight) == WithFlight(rows, flight)
  }

  lemma {:induction false} WithFlightAppend(a: seq<Capture>, b: seq<Capture>, flight: nat)
    ensures WithFlight(a + b, flight) == WithFlight(a, flight) + WithFlight(b, flight)
  {
    if a == [] {
      assert a + b == b;
    } else {
      assert (a + b)[1..] == a[1..] + b;
      WithFlightAppend(a[1..], b, flight);
    }
  }

  /** A permutation that is stable. */
  ghost predicate Rearranges(rows: seq<Capture>, sorted: seq<Capture>) {
    multiset(sorted) == multiset(rows) && IsStable(rows, sorted)
  }

  /** The first n + 1 captures are sorted, leaving out the one at k, which may be smaller than those before it. */
  ghost predicate SortedButFor(rows: seq<Capture>, n: nat, k: nat)
    requires AllListed(rows) && n < |rows|
  {
    forall i, j :: 0 <= i < j <= n && j != k ==> rows[i].flight <= rows[j].flight
  }

  /**
    * The sort by flight, as an insertion sort on the list itself: sorted, a permutation, and stable.
    */
  method SortByFlight(a: array<Capture>)
    requires AllListed(a[..])
    modifies a
    ensures AllListed(a[..]) && Sorted(a[..])
    ensures multiset(a[..]) == multiset(old(a[..]))
    ensures IsStable(old(a[..]), a[..])
  {
    hide Rearranges, IsStable;
    RearrangesItself(a[..]);
    for n := 0 to a.Length
      invariant AllListed(a[..]) && Sorted(a[..n])
      invariant Rearranges(old(a[..]), a[..])
    {
      var k := n;
      while k > 0 && a[k - 1].flight > a[k].flight
        invariant 0 <= k <= n
        invariant AllListed(a[..]) && SortedButFor(a[..], n, k)
        invariant Rearranges(old(a[..]), a[..])
      {
        ghost var before := a[..];
        a[k - 1], a[k] := a[k], a[k - 1];
        SwapRearranges(old(a[..]), before, k - 1);
        SwapSortsOneMore(before, n, k);
        assert a[..] == Swapped(before, k - 1);
        k := k - 1;
      }
      InsertedInPlace(a[..], n, k);
      assert a[..n + 1] == a[..][..n + 1];
    }
    assert a[..a.Length] == a[..];
    RearrangedIs(old(a[..]), a[..]);
  }

  lemma RearrangesItself(rows: seq<Capture>)
    ensures Rearranges(rows, rows)
  {
  }

  lemma RearrangedIs(rows: seq<Capture>, sorted: seq<Capture>)
    requires Rearranges(rows, sorted)
    ensures multiset(sorted) == multiset(rows) && IsStable(rows, sorted)
  {
  }

  lemma SwapRearranges(rows: seq<Capture>, now: seq<Capture>, k: nat)
    requires AllListed(now) && k + 1 < |now| && now[k].flight != now[k + 1].flight
    requires Rearranges(rows, now)
    ensures Rearranges(rows, Swapped(now, k)) && AllListed(Swapped(now, k))
  {
    hide WithFlight;
    SwapIsStable(now, k);
  }

  lemma SwapSortsOneMore(rows: seq<Capture>, n: nat, k: nat)
    requires AllListed(rows) && 0 < k <= n < |rows| && SortedButFor(rows, n, k)
    requires rows[k - 1].flight > rows[k].flight
    ensures AllListed(Swapped(rows, k - 1)) && SortedButFor(Swapped(rows, k - 1), n, k - 1)
  {
  }

  lemma InsertedInPlace(rows: seq<Capture>, n: nat, k: nat)
    requires AllListed(rows) && k <= n < |rows| && SortedButFor(rows, n, k)
    requires k > 0 ==> rows[k - 1].flight <= rows[k].flight
    ensures AllListed(rows[..n + 1]) && Sorted(rows[..n + 1])
  {
  }

  /** The sequence with elements k and k + 1 exchanged. */
  function Swapped(rows: seq<Capture>, k: nat): (s: seq<Capture>)
    requires k + 1 < |rows|
    ensures |s| == |rows|
  {
    rows[k := rows[k + 1]][k + 1 := rows[k]]
  }

  lemma SwapIsStable(rows: seq<Capture>, k: nat)
    requires AllListed(rows) && k + 1 < |rows| && rows[k].flight != rows[k + 1].flight
    ensures IsStable(rows, Swapped(rows, k))
    ensures multiset(Swapped(rows, k)) == multiset(rows)
    ensures AllListed(Swapped(rows, k))
  {
    var x, y := rows[k], rows[k + 1];
    var front, back := rows[..k], rows[k + 2..];
    var s := Swapped(rows, k);
    assert rows == front + [x, y] + back;
    assert s == front + [y, x] + back;
    assert multiset([x, y]) == multiset([y, x]);
    forall flight: nat ensures WithFlight(s, flight) == WithFlight(rows, flight) {
      hide WithFlight;
      WithFlightAppend(front + [x, y], back, flight);
      WithFlightAppend(front, [x, y], flight);
      WithFlightAppend(front + [y, x], back, flight);
      WithFlightAppend(front, [y, x], flight);
      PairWithFlight(x, y, flight);
      PairWithFlight(y, x, flight);
    }
  }

  lemma PairWithFlight(x: Capture, y: Capture, flight: nat)
    ensures WithFlight([x, y], flight)
         == (if x.Measured? && x.flight == flight then [x] else [])
          + (if y.Measured? && y.flight == flight then [y] else [])
  {
    assert [x, y][1..] == [y] && [y][1..] == [];
    assert WithFlight([], flight) == [];
    assert WithFlight([x, y], flight)
        == (if x.Measured? && x.flight == flight then [x] else []) + WithFlight([y], flight);
    var last := if y.Measured? && y.flight == flight then [y] else [];
    assert WithFlight([y], flight) == last + [];
  }

  // ----- Segments -----

  /** The segments that f octets fill, the last one perhaps in part. */
  function Segments(flight: nat, mss: nat): nat
    requires mss > 0
  {
    (flight + mss - 1) / mss
  }

  datatype Verdict = Yes | No | Borderline

  function Fits(flight: nat): Verdict {
    var e, t := Segments(flight, ETHERNET), Segments(flight, TUNNELLED);
    if e <= INITIAL_WINDOW && t <= INITIAL_WINDOW then Yes
    else if e > INITIAL_WINDOW && t > INITIAL_WINDOW then No
    else Borderline
  }

  /** A segment count is within the window exactly up to the window's octets. */
  lemma SegmentsWithin(flight: nat, mss: nat, window: nat)
    requires mss > 0
    ensures Segments(flight, mss) <= window <==> flight <= window * mss
  {
    var s := Segments(flight, mss);
    assert s * mss <= flight + mss - 1 < s * mss + mss;
    if s <= window {
      assert s * mss <= window * mss;
    } else {
      assert (window + 1) * mss <= s * mss;
      assert (window + 1) * mss == window * mss + mss;
    }
  }

  /** The verdict by octets: yes up to 13600, no above 14600, borderline in between. */
  lemma VerdictByOctets(flight: nat)
    ensures Fits(flight) == Yes <==> flight <= 13600
    ensures Fits(flight) == No <==> flight > 14600
    ensures Fits(flight) == Borderline <==> 13600 < flight <= 14600
  {
    SegmentsWithin(flight, ETHERNET, INITIAL_WINDOW);
    SegmentsWithin(flight, TUNNELLED, INITIAL_WINDOW);
  }

  // ----- The report -----

  datatype ReportError = NoRows | NothingFits

  datatype Summary = Summary(rows: seq<Capture>, verdicts: seq<Verdict>, biggest: Capture, fitting: nat)

  /** How many rows have a flight inside the window at the Ethernet segment size. */
  ghost predicate IsFittingPrefix(rows: seq<Capture>, n: nat)
    requires AllListed(rows)
  {
    && n <= |rows|
    && (forall i :: 0 <= i < n ==> rows[i].flight <= INITIAL_WINDOW * ETHERNET)
    && (forall i :: n <= i < |rows| ==> rows[i].flight > INITIAL_WINDOW * ETHERNET)
  }

  /**
    * The report's data: rows filtered and sorted, one verdict each, the first row with the largest
    * record, and how many rows fit the window. max() raises on no rows, fitting[-1] when none fits.
    * The fitting rows are a prefix, so the last of them is the heaviest that fits.
    */
  method Summarize(captures: seq<Capture>) returns (r: Result<Summary, ReportError>)
    ensures r == Err(NoRows) <==> Listed(captures) == []
    ensures r == Err(NothingFits)
       <==> Listed(captures) != [] && forall c :: c in Listed(captures) ==> c.flight > 14600
    ensures r.Ok? ==>
              var s := r.value;
              && AllListed(s.rows) && Sorted(s.rows)
              && multiset(s.rows) == multiset(Listed(captures))
              && IsStable(Listed(captures), s.rows)
              && |s.verdicts| == |s.rows|
              && (forall i :: 0 <= i < |s.rows| ==>
                    && (s.verdicts[i] == Yes <==> s.rows[i].flight <= 13600)
                    && (s.verdicts[i] == No <==> s.rows[i].flight > 14600))
              && IsFirstLargest(s.rows, s.biggest)
              && s.fitting > 0 && IsFittingPrefix(s.rows, s.fitting)
    ensures r.Ok? ==> forall i :: 0 <= i < |r.value.rows| ==>
              (i < r.value.fitting <==> r.value.rows[i].flight <= 14600)
    ensures exists at :: AreListedAt(captures, Listed(captures), at)
  {
    hide Fits, Segments, IsStable, WithFlight, Listed;
    var listed := Listed(captures);
    ghost var at := ListedAre(captures);
    var a := new Capture[|listed|](i requires 0 <= i < |listed| => listed[i]);
    assert a[..] == listed;
    SortByFlight(a);
    var rows := a[..];
    SameMembers(listed, rows);
    if |rows| == 0 {
      return Err(NoRows);
    }
    var biggest := LargestRecord(rows);
    var verdicts: seq<Verdict> := [];
    for i := 0 to |rows|
      invariant |verdicts| == i
      invariant forall j :: 0 <= j < i ==>
                  && (verdicts[j] == Yes <==> rows[j].flight <= 13600)
                  && (verdicts[j] == No <==> rows[j].flight > 14600)
    {
      VerdictByOctets(rows[i].flight);
      verdicts := verdicts + [Fits(rows[i].flight)];
    }
    var fitting := CountFitting(rows);
    if fitting == 0 {
      return Err(NothingFits);
    }
    assert rows[0] in listed && rows[0].flight <= 14600;
    r := Ok(Summary(rows, verdicts, biggest, fitting));
  }

  ghost predicate IsFirstLargest(rows: seq<Capture>, c: Capture)
    requires AllListed(rows)
  {
    exists k :: && 0 <= k < |rows| && c == rows[k]
                && (forall i :: 0 <= i < |rows| ==> rows[i].largestRecord <= rows[k].largestRecord)
                && (forall i :: 0 <= i < k ==> rows[i].largestRecord < rows[k].largestRecord)
  }

  /** The capture with the largest record; the first one on a tie. */
  method LargestRecord(rows: seq<Capture>) returns (c: Capture)
    requires AllListed(rows) && rows != []
    ensures IsFirstLargest(rows, c)
  {
    var k := 0;
    for i := 1 to |rows|
      invariant 0 <= k < i
      invariant forall j :: 0 <= j < i ==> rows[j].largestRecord <= rows[k].largestRecord
      invariant forall j :: 0 <= j < k ==> rows[j].largestRecord < rows[k].largestRecord
    {
      if rows[i].largestRecord > rows[k].largestRecord {
        k := i;
      }
    }
    c := rows[k];
  }

  /** The comprehension over all rows; on sorted rows what it keeps is a prefix. */
  method CountFitting(rows: seq<Capture>) returns (n: nat)
    requires AllListed(rows) && Sorted(rows)
    ensures IsFittingPrefix(rows, n)
  {
    n := 0;
    for i := 0 to |rows|
      invariant n <= i
      invariant n < i ==> rows[n].flight > INITIAL_WINDOW * ETHERNET
      invariant forall j :: 0 <= j < n ==> rows[j].flight <= INITIAL_WINDOW * ETHERNET
    {
      SegmentsWithin(rows[i].flight, ETHERNET, INITIAL_WINDOW);
      if Segments(rows[i].flight, ETHERNET) <= INITIAL_WINDOW {
        n := n + 1;
      }
    }
  }

  /** The last of the fitting rows is the heaviest chain that fits, and every later row does not. */
  lemma HeaviestFitting(rows: seq<Capture>, n: nat)
    requires AllListed(rows) && Sorted(rows) && IsFittingPrefix(rows, n) && n > 0
    ensures forall c :: c in rows && c.flight <= 14600 ==> c.flight <= rows[n - 1].flight
    ensures forall i :: 0 <= i < |rows| ==> (Fits(rows[i].flight) != No <==> i < n)
  {
    forall c | c in rows && c.flight <= 14600 ensures c.flight <= rows[n - 1].flight {
      var i :| 0 <= i < |rows| && rows[i] == c;
      assert i < n;
    }
    forall i | 0 <= i < |rows| ensures Fits(rows[i].flight) != No <==> i < n {
      VerdictByOctets(rows[i].flight);
    }
  }
}
