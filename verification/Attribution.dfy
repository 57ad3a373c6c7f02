/**
  * Byte attribution in phase3/transport.py: handshake messages and TLS records of a decrypted
  * capture, added up per direction.
  */
module Attribution {
  import opened Wrappers
  import opened PythonText
  import opened TsharkRows

  const SERVER_PORT: string := "14435"
  const TICKET: string := "NewSessionTicket"

  datatype AnalyzeError = IndexError | ValueError

  datatype Side = Server | Client

  /** One handshake message: who sent it, its type number, the name it is filed under, its length. */
  datatype Event = Event(who: Side, kind: int, name: string, length: int)

  // ----- Names -----

  function KnownName(kind: int): Option<string> {
    match kind
    case 1 => Some("ClientHello")
    case 2 => Some("ServerHello")
    case 4 => Some(TICKET)
    case 8 => Some("EncryptedExtensions")
    case 11 => Some("Certificate")
    case 13 => Some("CertificateRequest")
    case 15 => Some("CertificateVerify")
    case 20 => Some("Finished")
    case 25 => Some("CompressedCertificate")
    case _ => None
  }

  /** The name for a type printed as `text`, whose number is `kind`. */
  function FiledName(kind: int, text: string): string {
    match KnownName(kind)
    case Some(name) => name
    case None => "type" + text
  }

  /** A fallback name is no known name. */
  lemma FallbackIsUnknown(kind: int, text: string)
    ensures KnownName(kind) != Some("type" + text)
  {
    var fallback := "type" + text;
    assert fallback[0] == 't' && fallback[1] == 'y';
    match KnownName(kind)
    case None =>
    case Some(name) => assert name[0] != 't';
  }

  /** Types printed in canonical decimal are filed under one name each. */
  lemma CanonicalNamesAreDistinct(a: nat, b: nat)
    requires a != b
    ensures FiledName(a, Decimal(a)) != FiledName(b, Decimal(b))
  {
    IntOfDecimal(a);
    IntOfDecimal(b);
    FallbackIsUnknown(a, Decimal(b));
    FallbackIsUnknown(b, Decimal(a));
    if KnownName(a).None? && KnownName(b).None? {
      assert ("type" + Decimal(a))[4..] == Decimal(a);
      assert ("type" + Decimal(b))[4..] == Decimal(b);
    } else if KnownName(a).Some? && KnownName(b).Some? {
      KnownNamesAreDistinct(a, b);
    }
  }

  lemma KnownNamesAreDistinct(a: int, b: int)
    requires a != b && KnownName(a).Some? && KnownName(b).Some?
    ensures KnownName(a) != KnownName(b)
  {
    var lengths := map[1 := 11, 2 := 11, 4 := 16, 8 := 19, 11 := 11, 13 := 18, 15 := 17, 20 := 8, 25 := 21];
    assert |KnownName(a).value| == lengths[a] && |KnownName(b).value| == lengths[b];
    assert KnownName(1).value[0] == 'C' && KnownName(2).value[0] == 'S' && KnownName(11).value[0] == 'C';
    assert KnownName(1).value[1] == 'l' && KnownName(11).value[1] == 'e';
  }

  // ----- Rows to messages -----

  function Sender(port: Field): Side {
    if port != [] && port[0] == SERVER_PORT then Server else Client
  }

  /** One turn of the inner loop: int() of the type, then of the length. */
  function MessageOf(who: Side, t: string, ln: string): Option<Event> {
    match (ParseInt(t), ParseInt(ln))
    case (Some(kind), Some(length)) => Some(Event(who, kind, FiledName(kind, t), length))
    case _ => None
  }

  /** zip(types, lengths): the longer list is cut. */
  function Messages(who: Side, types: Field, lengths: Field): Option<seq<Event>> {
    if types == [] || lengths == [] then Some([])
    else
      match (MessageOf(who, types[0], lengths[0]), Messages(who, types[1..], lengths[1..]))
      case (Some(e), Some(es)) => Some([e] + es)
      case _ => None
  }

  function RowMessages(row: Row): Result<seq<Event>, AnalyzeError> {
    if |row| < 3 then Err(IndexError)
    else
      match Messages(Sender(row[0]), row[1], row[2])
      case None => Err(ValueError)
      case Some(es) => Ok(es)
  }

  function AllMessages(rows: seq<Row>): Result<seq<Event>, AnalyzeError> {
    if rows == [] then Ok([])
    else
      match RowMessages(rows[0])
      case Err(e) => Err(e)
      case Ok(es) =>
        match AllMessages(rows[1..])
        case Err(e) => Err(e)
        case Ok(more) => Ok(es + more)
  }

  // ----- Totals -----

  /** Sum of the lengths filed under a name in one direction. */
  function NameTotal(es: seq<Event>, who: Side, name: string): int {
    if es == [] then 0
    else (if es[0].who == who && es[0].name == name then es[0].length else 0) + NameTotal(es[1..], who, name)
  }

  /** Sum of the lengths of one handshake type in one direction. */
  function KindTotal(es: seq<Event>, who: Side, kind: int): int {
    if es == [] then 0
    else (if es[0].who == who && es[0].kind == kind then es[0].length else 0) + KindTotal(es[1..], who, kind)
  }

  function SideTotal(es: seq<Event>, who: Side): int {
    if es == [] then 0
    else (if es[0].who == who then es[0].length else 0) + SideTotal(es[1..], who)
  }

  ghost predicate Sends(es: seq<Event>, who: Side, name: string) {
    exists i :: 0 <= i < |es| && es[i].who == who && es[i].name == name
  }

  /** The dictionary holds, for exactly the names sent, the sum of their lengths. */
  ghost predicate IsTally(m: map<string, int>, es: seq<Event>, who: Side) {
    && (forall name :: name in m <==> Sends(es, who, name))
    && (forall name :: name in m ==> m[name] == NameTotal(es, who, name))
  }

  lemma TallyIsUnique(m: map<string, int>, m': map<string, int>, es: seq<Event>, who: Side)
    requires IsTally(m, es, who) && IsTally(m', es, who)
    ensures m == m'
  {
  }

  lemma {:induction false} TotalsAppend(es: seq<Event>, more: seq<Event>, who: Side, name: string)
    ensures NameTotal(es + more, who, name) == NameTotal(es, who, name) + NameTotal(more, who, name)
    ensures SideTotal(es + more, who) == SideTotal(es, who) + SideTotal(more, who)
  {
    if es == [] {
      assert es + more == more;
    } else {
      assert (es + more)[1..] == es[1..] + more;
      TotalsAppend(es[1..], more, who, name);
    }
  }

  function Filed(m: map<string, int>, name: string, length: int): map<string, int> {
    m[name := (if name in m then m[name] else 0) + length]
  }

  lemma {:induction false} NothingSentIsZero(es: seq<Event>, who: Side, name: string)
    requires !Sends(es, who, name)
    ensures NameTotal(es, who, name) == 0
  {
    if es != [] {
      forall i | 0 <= i < |es[1..]| ensures !(es[1..][i].who == who && es[1..][i].name == name) {
        assert es[1..][i] == es[i + 1];
      }
      NothingSentIsZero(es[1..], who, name);
    }
  }

  /** Filing one more message of a direction keeps its dictionary a tally, and leaves the other one alone. */
  lemma FilingKeepsTally(m: map<string, int>, es: seq<Event>, e: Event)
    requires IsTally(m, es, e.who)
    ensures IsTally(Filed(m, e.name, e.length), es + [e], e.who)
  {
    var m', es' := Filed(m, e.name, e.length), es + [e];
    forall name ensures name in m' <==> Sends(es', e.who, name) {
      SendsAppend(es, e, e.who, name);
    }
    forall name | name in m' ensures m'[name] == NameTotal(es', e.who, name) {
      TotalsAppend(es, [e], e.who, name);
      assert NameTotal([e], e.who, name) == if e.name == name then e.length else 0 by {
        assert [e][1..] == [];
      }
      if name !in m {
        NothingSentIsZero(es, e.who, name);
      }
    }
  }

  lemma SendsAppend(es: seq<Event>, e: Event, who: Side, name: string)
    ensures Sends(es + [e], who, name) <==> Sends(es, who, name) || (e.who == who && e.name == name)
  {
    var es' := es + [e];
    if e.who == who && e.name == name {
      assert es'[|es|] == e;
    }
    if Sends(es, who, name) {
      var i :| 0 <= i < |es| && es[i].who == who && es[i].name == name;
      assert es'[i] == es[i];
    }
  }

  lemma OtherSideUntouched(m: map<string, int>, es: seq<Event>, e: Event, who: Side)
    requires IsTally(m, es, who) && e.who != who
    ensures IsTally(m, es + [e], who)
  {
    forall name ensures Sends(es + [e], who, name) <==> Sends(es, who, name) {
      SendsAppend(es, e, who, name);
    }
    forall name ensures NameTotal(es + [e], who, name) == NameTotal(es, who, name) {
      TotalsAppend(es, [e], who, name);
      assert [e][1..] == [];
    }
  }

  // ----- The first loop -----

  /**
    * The nested loops that file handshake messages. On success both dictionaries are tallies of
    * the messages of the rows; otherwise the first failing row decides the exception.
    */
  method FileMessages(rows: seq<Row>)
    returns (err: Option<AnalyzeError>, server: map<string, int>, client: map<string, int>)
    ensures AllMessages(rows).Err? ==> err == Some(AllMessages(rows).error)
    ensures AllMessages(rows).Ok? ==>
              && err == None
              && IsTally(server, AllMessages(rows).value, Server)
              && IsTally(client, AllMessages(rows).value, Client)
  {
    hide ParseInt, FiledName, IsTally;
    server, client := map[], map[];
    ghost var done: seq<Event> := [];
    EmptyTally(Server);
    EmptyTally(Client);
    assert rows[0..] == rows;
    PrependNothing(AllMessages(rows));
    for n := 0 to |rows|
      invariant IsTally(server, done, Server) && IsTally(client, done, Client)
      invariant AllMessages(rows) == Prepend(done, AllMessages(rows[n..]))
    {
      var row := rows[n];
      assert rows[n..][0] == row && rows[n..][1..] == rows[n + 1..];
      if |row| < 3 {
        return Some(IndexError), server, client;
      }
      var types, lengths := row[1], row[2];
      var who := Sender(row[0]);
      ghost var before := done;
      ghost var left := Messages(who, types, lengths);
      var k := 0;
      assert types[0..] == types && lengths[0..] == lengths;
      while k < |types| && k < |lengths|
        invariant 0 <= k <= |types| && k <= |lengths|
        invariant left == Messages(who, types[k..], lengths[k..])
        invariant IsTally(server, done, Server) && IsTally(client, done, Client)
        invariant Messages(who, types, lengths).None? <==> left.None?
        invariant left.Some? ==> before + Messages(who, types, lengths).value == done + left.value
      {
        assert types[k..][1..] == types[k + 1..] && lengths[k..][1..] == lengths[k + 1..];
        var kind, length := ParseInt(types[k]), ParseInt(lengths[k]);
        if kind.None? || length.None? {
          return Some(ValueError), server, client;
        }
        var name := FiledName(kind.value, types[k]);
        ghost var e := Event(who, kind.value, name, length.value);
        if who == Server {
          FilingKeepsTally(server, done, e);
          OtherSideUntouched(client, done, e, Client);
          server := Filed(server, name, length.value);
        } else {
          FilingKeepsTally(client, done, e);
          OtherSideUntouched(server, done, e, Server);
          client := Filed(client, name, length.value);
        }
        ghost var next := Messages(who, types[k + 1..], lengths[k + 1..]);
        if next.Some? {
          assert done + ([e] + next.value) == done + [e] + next.value;
        }
        done := done + [e];
        left := next;
        k := k + 1;
      }
      assert left == Some([]) && done + [] == done;
      PrependRow(before, row, AllMessages(rows[n + 1..]));
    }
    assert rows[|rows|..] == [];
    assert done + [] == done;
    err := None;
  }

  ghost function Prepend(done: seq<Event>, rest: Result<seq<Event>, AnalyzeError>): Result<seq<Event>, AnalyzeError> {
    match rest
    case Err(e) => Err(e)
    case Ok(es) => Ok(done + es)
  }

  lemma PrependNothing(rest: Result<seq<Event>, AnalyzeError>)
    ensures Prepend([], rest) == rest
  {
    if rest.Ok? { assert [] + rest.value == rest.value; }
  }

  lemma PrependRow(done: seq<Event>, row: Row, rest: Result<seq<Event>, AnalyzeError>)
    requires RowMessages(row).Ok?
    ensures rest.Ok? ==> done + (RowMessages(row).value + rest.value) == done + RowMessages(row).value + rest.value
  {
  }

  lemma EmptyTally(who: Side)
    ensures IsTally(map[], [], who)
  {
  }

  // ----- Sums over a dictionary -----

  ghost function SumValues(m: map<string, int>): int
    decreases |m|
  {
    if m == map[] then 0
    else
      var name :| name in m;
      assert |m - {name}| < |m| by { assert (m - {name}).Keys == m.Keys - {name}; }
      m[name] + SumValues(m - {name})
  }

  /** The sum does not depend on the order in which entries are taken. */
  lemma {:induction false} SumValuesWithout(m: map<string, int>, name: string)
    requires name in m
    ensures SumValues(m) == m[name] + SumValues(m - {name})
    decreases |m|
  {
    assert m != map[];
    var first :| first in m && SumValues(m) == m[first] + SumValues(m - {first});
    if first != name {
      assert (m - {first}).Keys == m.Keys - {first};
      assert |m - {first}| < |m| by { assert |m.Keys - {first}| < |m.Keys|; }
      assert (m - {name}).Keys == m.Keys - {name};
      assert |m - {name}| < |m| by { assert |m.Keys - {name}| < |m.Keys|; }
      SumValuesWithout(m - {first}, name);
      SumValuesWithout(m - {name}, first);
      assert m - {first} - {name} == m - {name} - {first};
    }
  }

  lemma SumOfFiled(m: map<string, int>, name: string, length: int)
    ensures SumValues(Filed(m, name, length)) == SumValues(m) + length
  {
    var m' := Filed(m, name, length);
    SumValuesWithout(m', name);
    if name in m {
      SumValuesWithout(m, name);
      assert m' - {name} == m - {name};
    } else {
      assert m' - {name} == m;
    }
  }

  /** The entries of a tally add up to all the lengths of its direction. */
  lemma {:induction false} TallyConservesBytes(m: map<string, int>, es: seq<Event>, who: Side)
    requires IsTally(m, es, who)
    ensures SumValues(m) == SideTotal(es, who)
  {
    hide IsTally;
    var m' := BuildTally(es, who);
    TallyIsUnique(m, m', es, who);
  }

  lemma {:induction false} BuildTally(es: seq<Event>, who: Side) returns (m: map<string, int>)
    ensures IsTally(m, es, who)
    ensures SumValues(m) == SideTotal(es, who)
  {
    hide IsTally;
    if es == [] {
      m := map[];
      EmptyTally(who);
    } else {
      var front, e := es[..|es| - 1], es[|es| - 1];
      m := BuildTally(front, who);
      assert es == front + [e];
      TotalsAppend(front, [e], who, e.name);
      assert SideTotal([e], who) == if e.who == who then e.length else 0 by { assert [e][1..] == []; }
      if e.who == who {
        FilingKeepsTally(m, front, e);
        SumOfFiled(m, e.name, e.length);
        m := Filed(m, e.name, e.length);
      } else {
        OtherSideUntouched(m, front, e, who);
      }
    }
  }

  /** The server's entries added up in dictionary order, tickets left out. */
  method FlightTotal(srv: map<string, int>) returns (flight: int)
    ensures flight == SumValues(srv - {TICKET})
  {
    flight := 0;
    var left := srv;
    while left != map[]
      invariant forall k :: k in left ==> k in srv && left[k] == srv[k]
      invariant flight + SumValues(left - {TICKET}) == SumValues(srv - {TICKET})
      decreases |left|
    {
      hide SumValues;
      var k :| k in left;
      TakeEntry(left, k);
      if k != TICKET {
        flight := flight + left[k];
      }
      left := left - {k};
    }
    assert left - {TICKET} == map[];
  }

  lemma TakeEntry(m: map<string, int>, k: string)
    requires k in m
    ensures |m - {k}| < |m|
    ensures SumValues(m - {TICKET}) == (if k != TICKET then m[k] else 0) + SumValues(m - {k} - {TICKET})
  {
    assert (m - {k}).Keys == m.Keys - {k};
    if k != TICKET {
      SumValuesWithout(m - {TICKET}, k);
      assert m - {TICKET} - {k} == m - {k} - {TICKET};
    } else {
      assert m - {TICKET} == m - {k} - {TICKET};
    }
  }

  /** The name-based flight total counts every server byte that is not filed as a ticket. */
  lemma FlightLeavesOutTickets(m: map<string, int>, es: seq<Event>)
    requires IsTally(m, es, Server)
    ensures SumValues(m - {TICKET}) == SideTotal(es, Server) - NameTotal(es, Server, TICKET)
  {
    TallyConservesBytes(m, es, Server);
    if TICKET in m {
      SumValuesWithout(m, TICKET);
    } else {
      NothingSentIsZero(es, Server, TICKET);
      assert m - {TICKET} == m;
    }
  }

  // ----- Records and TCP payload -----

  /** One row of the second capture pass: TCP payload length and the TLS record lengths in it. */
  datatype Segment = Segment(who: Side, tcp: int, records: seq<int>)

  function Ints(f: Field): Option<seq<int>> {
    if f == [] then Some([])
    else
      match (ParseInt(f[0]), Ints(f[1..]))
      case (Some(n), Some(ns)) => Some([n] + ns)
      case _ => None
  }

  function RowSegment(row: Row): Result<Segment, AnalyzeError> {
    if |row| < 3 then Err(IndexError)
    else
      var tcp := if row[1] == [] then Some(0) else ParseInt(row[1][0]);
      match (tcp, Ints(row[2]))
      case (Some(n), Some(ns)) => Ok(Segment(Sender(row[0]), n, ns))
      case _ => Err(ValueError)
  }

  function AllSegments(rows: seq<Row>): Result<seq<Segment>, AnalyzeError> {
    if rows == [] then Ok([])
    else
      match RowSegment(rows[0])
      case Err(e) => Err(e)
      case Ok(s) =>
        match AllSegments(rows[1..])
        case Err(e) => Err(e)
        case Ok(more) => Ok([s] + more)
  }

  function TcpTotal(ss: seq<Segment>, who: Side): int {
    if ss == [] then 0 else (if ss[0].who == who then ss[0].tcp else 0) + TcpTotal(ss[1..], who)
  }

  /** The record lengths of one direction, in capture order. */
  function RecordList(ss: seq<Segment>, who: Side): seq<int> {
    if ss == [] then [] else (if ss[0].who == who then ss[0].records else []) + RecordList(ss[1..], who)
  }

  /** The second loop: record lists grow in place, payload counters add up. */
  method CollectRecords(rows: seq<Row>)
    returns (err: Option<AnalyzeError>, serverRecords: seq<int>, clientRecords: seq<int>,
             serverTcp: int, clientTcp: int)
    ensures AllSegments(rows).Err? ==> err == Some(AllSegments(rows).error)
    ensures AllSegments(rows).Ok? ==>
              var ss := AllSegments(rows).value;
              && err == None
              && serverRecords == RecordList(ss, Server) && clientRecords == RecordList(ss, Client)
              && serverTcp == TcpTotal(ss, Server) && clientTcp == TcpTotal(ss, Client)
  {
    hide ParseInt, Ints, RecordList, TcpTotal, AllSegments, Sender;
    serverRecords, clientRecords, serverTcp, clientTcp := [], [], 0, 0;
    ghost var done: seq<Segment> := [];
    NoSegments(rows);
    for n := 0 to |rows|
      invariant AllSegments(rows) == PrependSegments(done, AllSegments(rows[n..]))
      invariant serverRecords == RecordList(done, Server) && clientRecords == RecordList(done, Client)
      invariant serverTcp == TcpTotal(done, Server) && clientTcp == TcpTotal(done, Client)
    {
      var row := rows[n];
      FirstSegment(done, rows, n);
      if |row| < 3 {
        return Some(IndexError), serverRecords, clientRecords, serverTcp, clientTcp;
      }
      var tcp := if row[1] == [] then Some(0) else ParseInt(row[1][0]);
      if tcp.None? {
        return Some(ValueError), serverRecords, clientRecords, serverTcp, clientTcp;
      }
      var lengths := Ints(row[2]);
      if lengths.None? {
        return Some(ValueError), serverRecords, clientRecords, serverTcp, clientTcp;
      }
      ghost var s := Segment(Sender(row[0]), tcp.value, lengths.value);
      SegmentTotalsAppend(done, s, Server);
      SegmentTotalsAppend(done, s, Client);
      if Sender(row[0]) == Server {
        serverTcp := serverTcp + tcp.value;
        serverRecords := serverRecords + lengths.value;
      } else {
        clientTcp := clientTcp + tcp.value;
        clientRecords := clientRecords + lengths.value;
      }
      done := done + [s];
    }
    AllSegmentsRead(done, rows);
    err := None;
  }

  ghost function PrependSegments(done: seq<Segment>, rest: Result<seq<Segment>, AnalyzeError>)
    : Result<seq<Segment>, AnalyzeError>
  {
    match rest
    case Err(e) => Err(e)
    case Ok(ss) => Ok(done + ss)
  }

  lemma NoSegments(rows: seq<Row>)
    ensures AllSegments(rows) == PrependSegments([], AllSegments(rows[0..]))
    ensures forall who :: RecordList([], who) == [] && TcpTotal([], who) == 0
  {
    assert rows[0..] == rows;
    if AllSegments(rows).Ok? { assert [] + AllSegments(rows).value == AllSegments(rows).value; }
  }

  lemma AllSegmentsRead(done: seq<Segment>, rows: seq<Row>)
    ensures PrependSegments(done, AllSegments(rows[|rows|..])) == Ok(done)
  {
    assert rows[|rows|..] == [];
    assert done + [] == done;
  }

  lemma FirstSegment(done: seq<Segment>, rows: seq<Row>, n: nat)
    requires n < |rows|
    ensures PrependSegments(done, AllSegments(rows[n..]))
         == match RowSegment(rows[n])
            case Err(e) => Err(e)
            case Ok(s) => PrependSegments(done + [s], AllSegments(rows[n + 1..]))
  {
    hide RowSegment;
    assert rows[n..][0] == rows[n] && rows[n..][1..] == rows[n + 1..];
    if RowSegment(rows[n]).Ok? && AllSegments(rows[n + 1..]).Ok? {
      var s, more := RowSegment(rows[n]).value, AllSegments(rows[n + 1..]).value;
      assert done + ([s] + more) == done + [s] + more;
    }
  }

  lemma {:induction false} SegmentsAppend(a: seq<Segment>, b: seq<Segment>, who: Side)
    ensures TcpTotal(a + b, who) == TcpTotal(a, who) + TcpTotal(b, who)
    ensures RecordList(a + b, who) == RecordList(a, who) + RecordList(b, who)
  {
    if a == [] {
      assert a + b == b;
    } else {
      assert (a + b)[1..] == a[1..] + b;
      SegmentsAppend(a[1..], b, who);
    }
  }

  lemma SegmentTotalsAppend(ss: seq<Segment>, s: Segment, who: Side)
    ensures RecordList(ss + [s], who) == RecordList(ss, who) + (if s.who == who then s.records else [])
    ensures TcpTotal(ss + [s], who) == TcpTotal(ss, who) + (if s.who == who then s.tcp else 0)
  {
    SegmentsAppend(ss, [s], who);
    assert [s][1..] == [];
  }

  /** The largest record length; zero when no record was seen. */
  method Largest(records: seq<int>) returns (m: int)
    ensures records == [] ==> m == 0
    ensures records != [] ==> m in records && forall i :: 0 <= i < |records| ==> records[i] <= m
  {
    if records == [] {
      return 0;
    }
    m := records[0];
    for i := 1 to |records|
      invariant m in records && forall j :: 0 <= j < i ==> records[j] <= m
    {
      if m < records[i] {
        m := records[i];
      }
    }
  }

  // ----- analyze -----

  datatype Analysis = Analysis(
    serverMessages: map<string, int>,
    clientMessages: map<string, int>,
    flight: int,
    serverRecords: seq<int>,
    clientRecords: seq<int>,
    largestServerRecord: int,
    serverTcp: int,
    clientTcp: int,
    compressed: bool)

  ghost predicate IsAnalysis(a: Analysis, es: seq<Event>, ss: seq<Segment>) {
    && IsTally(a.serverMessages, es, Server)
    && IsTally(a.clientMessages, es, Client)
    && a.flight == SideTotal(es, Server) - NameTotal(es, Server, TICKET)
    && a.serverRecords == RecordList(ss, Server)
    && a.clientRecords == RecordList(ss, Client)
    && (a.serverRecords == [] ==> a.largestServerRecord == 0)
    && (a.serverRecords != [] ==> a.largestServerRecord in a.serverRecords)
    && (forall i :: 0 <= i < |a.serverRecords| ==> a.serverRecords[i] <= a.largestServerRecord)
    && a.serverTcp == TcpTotal(ss, Server)
    && a.clientTcp == TcpTotal(ss, Client)
    && (a.compressed <==> Sends(es, Server, "CompressedCertificate"))
  }

  /** analyze, on the output of the two tshark passes. */
  method Analyze(handshakeOutput: string, dataOutput: string) returns (r: Result<Analysis, AnalyzeError>)
    ensures var messages := AllMessages(ParseRows(handshakeOutput));
            var segments := AllSegments(ParseRows(dataOutput));
            && (messages.Err? ==> r == Err(messages.error))
            && (messages.Ok? && segments.Err? ==> r == Err(segments.error))
            && (messages.Ok? && segments.Ok? ==>
                  r.Ok? && IsAnalysis(r.value, messages.value, segments.value))
  {
    hide IsTally, ParseRows, AllMessages, AllSegments;
    var handshakeRows := TsharkFields(handshakeOutput);
    var err, server, client := FileMessages(handshakeRows);
    if err.Some? {
      return Err(err.value);
    }
    var dataRows := TsharkFields(dataOutput);
    var serverRecords, clientRecords, serverTcp, clientTcp;
    err, serverRecords, clientRecords, serverTcp, clientTcp := CollectRecords(dataRows);
    if err.Some? {
      return Err(err.value);
    }
    var flight := FlightTotal(server);
    var largest := Largest(serverRecords);
    ghost var es := AllMessages(handshakeRows).value;
    FlightLeavesOutTickets(server, es);
    var compressed := "CompressedCertificate" in server;
    TallyKeys(server, es, Server, "CompressedCertificate");
    r := Ok(Analysis(server, client, flight, serverRecords, clientRecords, largest, serverTcp, clientTcp, compressed));
  }

  lemma TallyKeys(m: map<string, int>, es: seq<Event>, who: Side, name: string)
    requires IsTally(m, es, who)
    ensures name in m <==> Sends(es, who, name)
  {
  }
}
