/**
  * What the attribution of phase3/transport.py conserves: every byte is filed once, under the name
  * of its type, and neither the order of the rows nor the way messages are spread over rows matters.
  */
module Conservation {
  import opened Wrappers
  import opened Sequences
  import opened PythonText
  import opened TsharkRows
  import opened Attribution

  // ----- Concatenated captures -----

  lemma {:induction false} AllMessagesAppend(a: seq<Row>, b: seq<Row>)
    ensures AllMessages(a + b).Ok? <==> AllMessages(a).Ok? && AllMessages(b).Ok?
    ensures AllMessages(a + b).Ok? ==>
              AllMessages(a + b).value == AllMessages(a).value + AllMessages(b).value
  {
    hide RowMessages;
    if a == [] {
      assert a + b == b;
      if AllMessages(b).Ok? { assert [] + AllMessages(b).value == AllMessages(b).value; }
    } else {
      assert (a + b)[0] == a[0] && (a + b)[1..] == a[1..] + b;
      AllMessagesAppend(a[1..], b);
      if AllMessages(a + b).Ok? {
        var x := RowMessages(a[0]).value;
        var y, z := AllMessages(a[1..]).value, AllMessages(b).value;
        assert x + (y + z) == x + y + z;
      }
    }
  }

  lemma OneRow(row: Row)
    ensures AllMessages([row]).Ok? <==> RowMessages(row).Ok?
    ensures RowMessages(row).Ok? ==> AllMessages([row]).value == RowMessages(row).value
  {
    hide RowMessages;
    assert [row][1..] == [];
    if RowMessages(row).Ok? { assert RowMessages(row).value + [] == RowMessages(row).value; }
  }

  // ----- Order -----

  lemma {:induction false} PermutedRowsPermuteMessages(a: seq<Row>, b: seq<Row>)
    requires multiset(a) == multiset(b) && AllMessages(a).Ok?
    ensures AllMessages(b).Ok? && multiset(AllMessages(a).value) == multiset(AllMessages(b).value)
    decreases |a|
  {
    if a == [] {
      assert |multiset(b)| == |b|;
      assert b == [];
    } else {
      var i := TakeOut(a, b);
      var front, back := b[..i], b[i + 1..];
      assert a == [a[0]] + a[1..];
      AllMessagesAppend([a[0]], a[1..]);
      PermutedRowsPermuteMessages(a[1..], front + back);
      AllMessagesAppend(front, back);
      AllMessagesAppend(front + [b[i]], back);
      AllMessagesAppend(front, [b[i]]);
    }
  }

  lemma {:induction false} PermutedMessagesHaveSameTotals(a: seq<Event>, b: seq<Event>, who: Side, name: string)
    requires multiset(a) == multiset(b)
    ensures NameTotal(a, who, name) == NameTotal(b, who, name)
    ensures Sends(a, who, name) <==> Sends(b, who, name)
    decreases |a|
  {
    if a == [] {
      assert |multiset(b)| == |b|;
      assert b == [];
    } else {
      var i := TakeOut(a, b);
      var front, back := b[..i], b[i + 1..];
      assert a == [a[0]] + a[1..];
      TotalsAppend([a[0]], a[1..], who, name);
      PermutedMessagesHaveSameTotals(a[1..], front + back, who, name);
      TotalsAppend(front, back, who, name);
      TotalsAppend(front + [b[i]], back, who, name);
      TotalsAppend(front, [b[i]], who, name);
      SendsIsMembership(a, who, name);
      SendsIsMembership(b, who, name);
    }
  }

  lemma SendsIsMembership(es: seq<Event>, who: Side, name: string)
    ensures Sends(es, who, name) <==> exists e :: e in multiset(es) && e.who == who && e.name == name
  {
    if Sends(es, who, name) {
      var i :| 0 <= i < |es| && es[i].who == who && es[i].name == name;
      assert es[i] in multiset(es);
    }
    if exists e :: e in multiset(es) && e.who == who && e.name == name {
      var e :| e in multiset(es) && e.who == who && e.name == name;
      assert e in es;
    }
  }

  /** Reordering the rows of a capture leaves both dictionaries as they were. */
  lemma RowOrderDoesNotMatter(a: seq<Row>, b: seq<Row>, m: map<string, int>, m': map<string, int>, who: Side)
    requires multiset(a) == multiset(b) && AllMessages(a).Ok?
    requires IsTally(m, AllMessages(a).value, who)
    requires AllMessages(b).Ok? ==> IsTally(m', AllMessages(b).value, who)
    ensures AllMessages(b).Ok? && m == m'
  {
    PermutedRowsPermuteMessages(a, b);
    var es, es' := AllMessages(a).value, AllMessages(b).value;
    forall name
      ensures NameTotal(es, who, name) == NameTotal(es', who, name)
      ensures Sends(es, who, name) <==> Sends(es', who, name)
    {
      PermutedMessagesHaveSameTotals(es, es', who, name);
    }
    TallyIsUnique(m, m', es, who);
  }

  lemma {:induction false} AllSegmentsAppend(a: seq<Row>, b: seq<Row>)
    ensures AllSegments(a + b).Ok? <==> AllSegments(a).Ok? && AllSegments(b).Ok?
    ensures AllSegments(a + b).Ok? ==>
              AllSegments(a + b).value == AllSegments(a).value + AllSegments(b).value
  {
    hide RowSegment;
    if a == [] {
      assert a + b == b;
      if AllSegments(b).Ok? { assert [] + AllSegments(b).value == AllSegments(b).value; }
    } else {
      assert (a + b)[0] == a[0] && (a + b)[1..] == a[1..] + b;
      AllSegmentsAppend(a[1..], b);
      if AllSegments(a + b).Ok? {
        Associate([RowSegment(a[0]).value], AllSegments(a[1..]).value, AllSegments(b).value);
      }
    }
  }

  lemma {:induction false} PermutedRowsPermuteSegments(a: seq<Row>, b: seq<Row>)
    requires multiset(a) == multiset(b) && AllSegments(a).Ok?
    ensures AllSegments(b).Ok? && multiset(AllSegments(a).value) == multiset(AllSegments(b).value)
    decreases |a|
  {
    hide AllSegments;
    if a == [] {
      SameMembers(a, b);
      assert b == [];
    } else {
      var i := TakeOut(a, b);
      var front, back := b[..i], b[i + 1..];
      assert a == [a[0]] + a[1..];
      AllSegmentsAppend([a[0]], a[1..]);
      PermutedRowsPermuteSegments(a[1..], front + back);
      AllSegmentsAppend(front, back);
      AllSegmentsAppend(front + [b[i]], back);
      AllSegmentsAppend(front, [b[i]]);
    }
  }

  lemma {:induction false} PermutedSegmentsHaveSameTotals(a: seq<Segment>, b: seq<Segment>, who: Side)
    requires multiset(a) == multiset(b)
    ensures TcpTotal(a, who) == TcpTotal(b, who)
    ensures multiset(RecordList(a, who)) == multiset(RecordList(b, who))
    decreases |a|
  {
    hide TcpTotal, RecordList;
    if a == [] {
      SameMembers(a, b);
      assert b == [];
    } else {
      var i := TakeOut(a, b);
      var front, back := b[..i], b[i + 1..];
      assert a == [a[0]] + a[1..];
      SegmentsAppend([a[0]], a[1..], who);
      PermutedSegmentsHaveSameTotals(a[1..], front + back, who);
      SegmentsAppend(front, back, who);
      SegmentsAppend(front + [b[i]], back, who);
      SegmentsAppend(front, [b[i]], who);
    }
  }

  /**
    * Reordering the rows of both passes leaves the whole analysis as it was, down to the payload
    * counters and the largest record; only the record lists follow the order of the rows.
    */
  lemma AnalysisIgnoresRowOrder(a: seq<Row>, b: seq<Row>, data: seq<Row>, data': seq<Row>, x: Analysis, y: Analysis)
    requires multiset(a) == multiset(b) && multiset(data) == multiset(data')
    requires AllMessages(a).Ok? && AllSegments(data).Ok?
    requires IsAnalysis(x, AllMessages(a).value, AllSegments(data).value)
    requires AllMessages(b).Ok? && AllSegments(data').Ok? ==>
               IsAnalysis(y, AllMessages(b).value, AllSegments(data').value)
    ensures AllMessages(b).Ok? && AllSegments(data').Ok?
    ensures y == x.(serverRecords := y.serverRecords, clientRecords := y.clientRecords)
    ensures multiset(y.serverRecords) == multiset(x.serverRecords)
    ensures multiset(y.clientRecords) == multiset(x.clientRecords)
  {
    hide IsTally, AllMessages, AllSegments;
    PermutedRowsPermuteMessages(a, b);
    PermutedRowsPermuteSegments(data, data');
    var es, es' := AllMessages(a).value, AllMessages(b).value;
    RowOrderDoesNotMatter(a, b, x.serverMessages, y.serverMessages, Server);
    RowOrderDoesNotMatter(a, b, x.clientMessages, y.clientMessages, Client);
    PermutedMessagesHaveSameTotals(es, es', Server, TICKET);
    PermutedMessagesHaveSameTotals(es, es', Server, "CompressedCertificate");
    TallyConservesBytes(x.serverMessages, es, Server);
    TallyConservesBytes(y.serverMessages, es', Server);
    PermutedSegmentsHaveSameTotals(AllSegments(data).value, AllSegments(data').value, Server);
    PermutedSegmentsHaveSameTotals(AllSegments(data).value, AllSegments(data').value, Client);
    SameMembers(x.serverRecords, y.serverRecords);
    assert x.serverRecords == [] <==> y.serverRecords == [];
  }

  // ----- Splitting rows -----

  lemma {:induction false} MessagesSplit(who: Side, types: Field, lengths: Field, types': Field, lengths': Field)
    requires |types| == |lengths|
    ensures var both := Messages(who, types + types', lengths + lengths');
            && (both.Some? <==> Messages(who, types, lengths).Some? && Messages(who, types', lengths').Some?)
            && (both.Some? ==>
                  both.value == Messages(who, types, lengths).value + Messages(who, types', lengths').value)
  {
    hide MessageOf;
    var both := Messages(who, types + types', lengths + lengths');
    if types == [] {
      assert types + types' == types' && lengths + lengths' == lengths';
      if both.Some? { assert [] + both.value == both.value; }
    } else {
      assert (types + types')[1..] == types[1..] + types';
      assert (lengths + lengths')[1..] == lengths[1..] + lengths';
      MessagesSplit(who, types[1..], lengths[1..], types', lengths');
    }
  }

  /** A row that carries several messages files them as two rows with the same port would. */
  lemma RowSplittingDoesNotMatter(front: seq<Row>, port: Field, types: Field, lengths: Field,
                                  types': Field, lengths': Field, back: seq<Row>)
    requires |types| == |lengths|
    ensures var whole := AllMessages(front + [[port, types + types', lengths + lengths']] + back);
            var split := AllMessages(front + [[port, types, lengths], [port, types', lengths']] + back);
            && (whole.Ok? <==> split.Ok?)
            && (whole.Ok? ==> whole == split)
  {
    hide Messages, Sender;
    var row := [port, types + types', lengths + lengths'];
    var row1, row2 := [port, types, lengths], [port, types', lengths'];
    MessagesSplit(Sender(port), types, lengths, types', lengths');
    OneRow(row);
    OneRow(row1);
    OneRow(row2);
    assert [row1, row2] == [row1] + [row2];
    AllMessagesAppend([row1], [row2]);
    AllMessagesAppend(front, [row]);
    AllMessagesAppend(front + [row], back);
    AllMessagesAppend(front, [row1, row2]);
    AllMessagesAppend(front + [row1, row2], back);
  }

  // ----- Every byte is filed once -----

  function LengthTotal(es: seq<Event>): int {
    if es == [] then 0 else es[0].length + LengthTotal(es[1..])
  }

  lemma {:induction false} LengthTotalAppend(a: seq<Event>, b: seq<Event>)
    ensures LengthTotal(a + b) == LengthTotal(a) + LengthTotal(b)
  {
    if a == [] {
      assert a + b == b;
    } else {
      assert (a + b)[1..] == a[1..] + b;
      LengthTotalAppend(a[1..], b);
    }
  }

  lemma {:induction false} TwoSides(es: seq<Event>)
    ensures SideTotal(es, Server) + SideTotal(es, Client) == LengthTotal(es)
  {
    if es != [] {
      TwoSides(es[1..]);
    }
  }

  /** All the length values of the rows, added up; None when one of them is no number. */
  function PrintedLengths(rows: seq<Row>): Option<int>
    requires forall r :: 0 <= r < |rows| ==> |rows[r]| >= 3
  {
    if rows == [] then Some(0)
    else
      match (Ints(rows[0][2]), PrintedLengths(rows[1..]))
      case (Some(ns), Some(n)) => Some(Sum(ns) + n)
      case _ => None
  }

  lemma {:induction false} RowConserves(who: Side, types: Field, lengths: Field)
    requires |types| >= |lengths| && Messages(who, types, lengths).Some?
    ensures Ints(lengths).Some? && LengthTotal(Messages(who, types, lengths).value) == Sum(Ints(lengths).value)
  {
    hide ParseInt, FiledName;
    if lengths != [] {
      RowConserves(who, types[1..], lengths[1..]);
    }
  }

  lemma {:induction false} RowsConserve(rows: seq<Row>)
    requires AllMessages(rows).Ok?
    requires forall r :: 0 <= r < |rows| ==> |rows[r]| >= 3 && |rows[r][1]| >= |rows[r][2]|
    ensures PrintedLengths(rows) == Some(LengthTotal(AllMessages(rows).value))
  {
    hide Messages, Ints;
    if rows != [] {
      RowConserves(Sender(rows[0][0]), rows[0][1], rows[0][2]);
      RowsConserve(rows[1..]);
      LengthTotalAppend(RowMessages(rows[0]).value, AllMessages(rows[1..]).value);
    }
  }

  /**
    * When no row has more lengths than types, the entries of the two dictionaries together add up to
    * all the lengths in the capture.
    */
  lemma DictionariesHoldEveryByte(rows: seq<Row>, server: map<string, int>, client: map<string, int>)
    requires AllMessages(rows).Ok?
    requires forall r :: 0 <= r < |rows| ==> |rows[r]| >= 3 && |rows[r][1]| >= |rows[r][2]|
    requires IsTally(server, AllMessages(rows).value, Server) && IsTally(client, AllMessages(rows).value, Client)
    ensures PrintedLengths(rows) == Some(SumValues(server) + SumValues(client))
  {
    hide IsTally, AllMessages;
    var es := AllMessages(rows).value;
    RowsConserve(rows);
    TwoSides(es);
    TallyConservesBytes(server, es, Server);
    TallyConservesBytes(client, es, Client);
  }

  // ----- One entry per handshake type -----

  /** Every type was printed in canonical decimal. */
  ghost predicate CanonicalTypes(es: seq<Event>) {
    forall i :: 0 <= i < |es| ==> es[i].kind >= 0 && es[i].name == FiledName(es[i].kind, Decimal(es[i].kind))
  }

  lemma {:induction false} NameTotalIsKindTotal(es: seq<Event>, who: Side, kind: nat)
    requires CanonicalTypes(es)
    ensures NameTotal(es, who, FiledName(kind, Decimal(kind))) == KindTotal(es, who, kind)
  {
    hide FiledName;
    if es != [] {
      assert forall i :: 0 <= i < |es[1..]| ==> es[1..][i] == es[i + 1];
      NameTotalIsKindTotal(es[1..], who, kind);
      if es[0].kind != kind {
        CanonicalNamesAreDistinct(es[0].kind, kind);
      }
    }
  }

  /** The entry of a handshake type is the sum of the lengths of exactly the messages of that type. */
  lemma EntryIsTypeTotal(m: map<string, int>, es: seq<Event>, who: Side, kind: nat)
    requires IsTally(m, es, who) && CanonicalTypes(es)
    ensures var name := FiledName(kind, Decimal(kind));
            (if name in m then m[name] else 0) == KindTotal(es, who, kind)
  {
    hide FiledName;
    var name := FiledName(kind, Decimal(kind));
    NameTotalIsKindTotal(es, who, kind);
    if name !in m {
      NothingSentIsZero(es, who, name);
    }
  }
}
