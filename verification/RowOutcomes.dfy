/**
  * What one row of tshark output means to `analyze` in phase3/transport.py, value by value: which
  * messages and which segment it stands for, and which exception it raises.
  */
module RowOutcomes {
  import opened Wrappers
  import opened Bytes
  import opened PythonText
  import opened TsharkRows
  import opened Attribution

  /** Both values of the j-th pair are numbers. */
  ghost predicate AreNumbers(types: Field, lengths: Field, j: nat)
    requires j < |types| && j < |lengths|
  {
    ParseInt(types[j]).Some? && ParseInt(lengths[j]).Some?
  }

  /** The pairs are cut to the shorter list, each one message; one value that is no number fails the row. */
  lemma {:induction false} MessagesOfRow(who: Side, types: Field, lengths: Field)
    ensures Messages(who, types, lengths).Some?
       <==> forall j: nat :: j < |types| && j < |lengths| ==> AreNumbers(types, lengths, j)
    ensures Messages(who, types, lengths).Some? ==>
              var es := Messages(who, types, lengths).value;
              && |es| == Min(|types|, |lengths|)
              && forall j: nat :: j < |es| ==>
                   && es[j].who == who
                   && Some(es[j].kind) == ParseInt(types[j])
                   && Some(es[j].length) == ParseInt(lengths[j])
  {
    hide ParseInt, FiledName;
    if types != [] && lengths != [] {
      var types', lengths' := types[1..], lengths[1..];
      MessagesOfRow(who, types', lengths');
      assert forall j: nat :: j < |types'| && j < |lengths'| ==>
          (AreNumbers(types', lengths', j) <==> AreNumbers(types, lengths, j + 1));
      if forall j: nat :: j < |types| && j < |lengths| ==> AreNumbers(types, lengths, j) {
        assert AreNumbers(types, lengths, 0);
        forall j: nat | j < |types'| && j < |lengths'| ensures AreNumbers(types', lengths', j) {
          assert AreNumbers(types, lengths, j + 1);
        }
      } else {
        var j: nat :| j < |types| && j < |lengths| && !AreNumbers(types, lengths, j);
        if j > 0 { assert !AreNumbers(types', lengths', j - 1); }
      }
    }
  }

  /** The server is the side with port 14435; a row without a port counts for the client. */
  lemma SenderOfField(port: Field)
    ensures Sender(port) == Server <==> port != [] && port[0] == "14435"
  {
  }

  /** A row with fewer than three fields is an IndexError, another failure a ValueError. */
  lemma RowExceptions(row: Row)
    ensures RowMessages(row) == Err(IndexError) <==> |row| < 3
    ensures RowMessages(row) == Err(ValueError)
       <==> |row| >= 3 && exists j: nat :: j < |row[1]| && j < |row[2]| && !AreNumbers(row[1], row[2], j)
    ensures RowSegment(row) == Err(IndexError) <==> |row| < 3
    ensures RowSegment(row) == Err(ValueError)
       <==> |row| >= 3 && ((row[1] != [] && ParseInt(row[1][0]).None?)
                           || exists j: nat :: j < |row[2]| && ParseInt(row[2][j]).None?)
  {
    hide ParseInt, Messages, AreNumbers;
    if |row| >= 3 {
      MessagesOfRow(Sender(row[0]), row[1], row[2]);
      IntsOfField(row[2]);
    }
  }

  lemma {:induction false} IntsOfField(f: Field)
    ensures Ints(f).Some? <==> forall j: nat :: j < |f| ==> ParseInt(f[j]).Some?
    ensures Ints(f).Some? ==>
              |Ints(f).value| == |f| && forall j: nat :: j < |f| ==> Some(Ints(f).value[j]) == ParseInt(f[j])
  {
    hide ParseInt;
    if f != [] {
      IntsOfField(f[1..]);
      assert f == [f[0]] + f[1..];
      assert forall j: nat :: 0 < j < |f| ==> f[j] == f[1..][j - 1];
      assert forall j: nat :: j < |f| - 1 ==> f[1..][j] == f[j + 1];
    }
  }

  /** A segment: the first payload length, or zero without one, and all record lengths in order. */
  lemma SegmentOfRow(row: Row)
    requires RowSegment(row).Ok?
    ensures var s := RowSegment(row).value;
            && s.who == Sender(row[0])
            && Some(s.tcp) == (if row[1] == [] then Some(0) else ParseInt(row[1][0]))
            && |s.records| == |row[2]|
            && forall j: nat :: j < |row[2]| ==> Some(s.records[j]) == ParseInt(row[2][j])
  {
    hide ParseInt;
    IntsOfField(row[2]);
  }

  /** The exception of a capture is the one of its first failing row. */
  lemma {:induction false} FirstFailingRow(rows: seq<Row>, e: AnalyzeError)
    ensures AllMessages(rows) == Err(e)
       <==> exists n: nat :: n < |rows| && RowMessages(rows[n]) == Err(e) && AllRead(rows[..n])
  {
    hide RowMessages;
    if rows != [] {
      var more := rows[1..];
      FirstFailingRow(more, e);
      FrontsOfRest(rows);
      if exists n: nat :: n < |more| && RowMessages(more[n]) == Err(e) && AllRead(more[..n]) {
        var n: nat :| n < |more| && RowMessages(more[n]) == Err(e) && AllRead(more[..n]);
        if RowMessages(rows[0]).Ok? { assert AllRead(rows[..n + 1]); }
      }
      ReadTails(rows);
    }
  }

  /** The same for the second pass. */
  lemma {:induction false} FirstFailingSegment(rows: seq<Row>, e: AnalyzeError)
    ensures AllSegments(rows) == Err(e)
       <==> exists n: nat :: n < |rows| && RowSegment(rows[n]) == Err(e) && AllCollected(rows[..n])
  {
    hide RowSegment;
    if rows != [] {
      var more := rows[1..];
      FirstFailingSegment(more, e);
      FrontsOfRest(rows);
      if exists n: nat :: n < |more| && RowSegment(more[n]) == Err(e) && AllCollected(more[..n]) {
        var n: nat :| n < |more| && RowSegment(more[n]) == Err(e) && AllCollected(more[..n]);
        if RowSegment(rows[0]).Ok? { assert AllCollected(rows[..n + 1]); }
      }
      ReadTails(rows);
    }
  }

  lemma FrontsOfRest(rows: seq<Row>)
    requires rows != []
    ensures rows[..0] == []
    ensures forall n: nat :: n < |rows| - 1 ==>
              rows[..n + 1] == [rows[0]] + rows[1..][..n] && rows[1..][n] == rows[n + 1]
  {
  }

  ghost predicate AllRead(rows: seq<Row>) {
    forall i :: 0 <= i < |rows| ==> RowMessages(rows[i]).Ok?
  }

  ghost predicate AllCollected(rows: seq<Row>) {
    forall i :: 0 <= i < |rows| ==> RowSegment(rows[i]).Ok?
  }

  lemma ReadTails(rows: seq<Row>)
    requires rows != []
    ensures forall n: nat :: 0 < n < |rows| && AllRead(rows[..n]) ==>
              RowMessages(rows[0]).Ok? && AllRead(rows[1..][..n - 1]) && rows[1..][n - 1] == rows[n]
    ensures forall n: nat :: 0 < n < |rows| && AllCollected(rows[..n]) ==>
              RowSegment(rows[0]).Ok? && AllCollected(rows[1..][..n - 1]) && rows[1..][n - 1] == rows[n]
  {
    hide RowMessages, RowSegment;
    forall n: nat | 0 < n < |rows| ensures rows[..n] == [rows[0]] + rows[1..][..n - 1] {
    }
    forall n: nat | 0 < n < |rows| && AllRead(rows[..n])
      ensures RowMessages(rows[0]).Ok? && AllRead(rows[1..][..n - 1])
    {
      var front, back := rows[..n], rows[1..][..n - 1];
      assert front[0] == rows[0];
      assert forall i :: 0 <= i < n - 1 ==> back[i] == front[i + 1];
    }
    forall n: nat | 0 < n < |rows| && AllCollected(rows[..n])
      ensures RowSegment(rows[0]).Ok? && AllCollected(rows[1..][..n - 1])
    {
      var front, back := rows[..n], rows[1..][..n - 1];
      assert front[0] == rows[0];
      assert forall i :: 0 <= i < n - 1 ==> back[i] == front[i + 1];
    }
  }
}
