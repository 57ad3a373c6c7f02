/**
  * From packets to dictionaries: what phase3/transport.py reads out of the text tshark prints for a
  * capture is the capture.
  */
module CaptureText {
  import opened Wrappers
  import opened PythonText
  import opened TsharkRows
  import opened Attribution
  import opened Conservation
  import opened FirstFlight

  /** A packet with handshake messages: its source port, and type and length of each message. */
  datatype Packet = Packet(port: nat, kinds: seq<nat>, lengths: seq<nat>)

  predicate IsPacket(p: Packet) {
    |p.kinds| == |p.lengths|
  }

  /** A packet with TCP payload: its source port, the payload length and the record lengths in it. */
  datatype DataPacket = DataPacket(port: nat, tcp: nat, records: seq<nat>)

  function Decimals(ns: seq<nat>): (f: Field)
    ensures |f| == |ns|
    ensures forall i :: 0 <= i < |ns| ==> f[i] == Decimal(ns[i])
  {
    seq(|ns|, i requires 0 <= i < |ns| => Decimal(ns[i]))
  }

  function PacketRow(p: Packet): Row {
    [[Decimal(p.port)], Decimals(p.kinds), Decimals(p.lengths)]
  }

  function DataRow(p: DataPacket): Row {
    [[Decimal(p.port)], [Decimal(p.tcp)], Decimals(p.records)]
  }

  function PacketRows(ps: seq<Packet>): (rows: seq<Row>)
    ensures |rows| == |ps| && forall i :: 0 <= i < |ps| ==> rows[i] == PacketRow(ps[i])
  {
    seq(|ps|, i requires 0 <= i < |ps| => PacketRow(ps[i]))
  }

  function DataRows(ps: seq<DataPacket>): (rows: seq<Row>)
    ensures |rows| == |ps| && forall i :: 0 <= i < |ps| ==> rows[i] == DataRow(ps[i])
  {
    seq(|ps|, i requires 0 <= i < |ps| => DataRow(ps[i]))
  }

  /** The server is the side whose port is 14435. */
  function SideOf(port: nat): Side {
    if port == 14435 then Server else Client
  }

  function PacketEvents(p: Packet): seq<Event>
    requires IsPacket(p)
  {
    seq(|p.kinds|, i requires 0 <= i < |p.kinds| =>
      Event(SideOf(p.port), p.kinds[i], FiledName(p.kinds[i], Decimal(p.kinds[i])), p.lengths[i]))
  }

  function CaptureEvents(ps: seq<Packet>): seq<Event>
    requires forall i :: 0 <= i < |ps| ==> IsPacket(ps[i])
  {
    if ps == [] then [] else PacketEvents(ps[0]) + CaptureEvents(ps[1..])
  }

  function CaptureSegments(ps: seq<DataPacket>): seq<Segment> {
    seq(|ps|, i requires 0 <= i < |ps| => Segment(SideOf(ps[i].port), ps[i].tcp, ps[i].records))
  }

  // ----- Ports -----

  lemma ServerPortDigits()
    ensures Decimal(14435) == SERVER_PORT
  {
    assert Decimal(1) == "1";
    assert Decimal(14) == "14";
    assert Decimal(144) == "144";
    assert Decimal(1443) == "1443";
  }

  /** Comparing the port as text is comparing it as a number. */
  lemma SenderIsByPort(port: nat)
    ensures Sender([Decimal(port)]) == SideOf(port)
  {
    ServerPortDigits();
    IntOfDecimal(port);
    IntOfDecimal(14435);
  }

  /** The text of one packet with two messages: fields between tabs, values between commas. */
  lemma TextOfPacket(port: nat, kind: nat, kind': nat, length: nat, length': nat)
    ensures PrintRows(PacketRows([Packet(port, [kind, kind'], [length, length'])]))
         == Decimal(port) + "\t" + (Decimal(kind) + "," + Decimal(kind')) + "\t"
          + (Decimal(length) + "," + Decimal(length')) + "\n"
  {
    hide Decimal, Join, Decimals, PrintRow, PrintRows, PacketRow, PacketRows;
    var p := Packet(port, [kind, kind'], [length, length']);
    TwoDecimals(kind, kind');
    TwoDecimals(length, length');
    TextOfRow(Decimal(port), Decimals(p.kinds), Decimals(p.lengths));
    TextOfOneRow(PacketRow(p));
    OnePacketRow(p);
  }

  lemma TwoDecimals(m: nat, n: nat)
    ensures Join(Decimals([m, n]), ',') == Decimal(m) + "," + Decimal(n)
  {
    hide Decimal, Join;
    assert Decimals([m, n]) == [Decimal(m), Decimal(n)];
    JoinTwo(Decimal(m), Decimal(n), ',');
  }

  lemma OnePacketRow(p: Packet)
    ensures PacketRows([p]) == [PacketRow(p)]
    ensures PacketRow(p) == [[Decimal(p.port)], Decimals(p.kinds), Decimals(p.lengths)]
  {
    hide Decimal, Decimals;
    assert |PacketRows([p])| == 1;
  }

  lemma TextOfRow(a: string, b: Field, c: Field)
    ensures PrintRow([[a], b, c]) == a + "\t" + Join(b, ',') + "\t" + Join(c, ',')
  {
    hide Join;
    JoinOne(a, ',');
    var cells := PrintCells([[a], b, c]);
    FieldsAreJoined([[a], b, c]);
    assert cells == [a, Join(b, ','), Join(c, ',')];
    JoinThree(a, Join(b, ','), Join(c, ','), '\t');
  }

  lemma TextOfOneRow(row: Row)
    ensures PrintRows([row]) == PrintRow(row) + "\n"
  {
    hide PrintRow, PrintLines;
    assert RowLines([row]) == [PrintRow(row)];
    PrintOneLine(PrintRow(row));
  }

  lemma FieldsAreJoined(row: Row)
    ensures |PrintCells(row)| == |row|
    ensures forall i :: 0 <= i < |row| ==> PrintCells(row)[i] == Join(row[i], ',')
  {
    hide Join;
  }

  lemma PrintOneLine(line: string)
    ensures PrintLines([line]) == line + "\n"
  {
    assert PrintLines([line][1..]) == "";
    assert line + "\n" + "" == line + "\n";
  }

  lemma JoinThree(a: string, b: string, c: string, sep: char)
    ensures Join([a, b, c], sep) == a + [sep] + b + [sep] + c
  {
    hide Join;
    JoinTwo(b, c, sep);
    JoinMore(a, [b, c], sep);
    assert [a] + [b, c] == [a, b, c];
  }

  lemma JoinMore(a: string, more: seq<string>, sep: char)
    requires more != []
    ensures Join([a] + more, sep) == a + [sep] + Join(more, sep)
  {
    assert ([a] + more)[1..] == more;
  }

  lemma JoinOne(a: string, sep: char)
    ensures Join([a], sep) == a
  {
  }

  lemma JoinTwo(a: string, b: string, sep: char)
    ensures Join([a, b], sep) == a + [sep] + b
  {
    assert [a, b][1..] == [b];
  }

  // ----- Rows -----

  lemma {:induction false} MessagesOfDecimals(who: Side, kinds: seq<nat>, lengths: seq<nat>)
    requires |kinds| == |lengths|
    ensures Messages(who, Decimals(kinds), Decimals(lengths)).Some?
    ensures var es := Messages(who, Decimals(kinds), Decimals(lengths)).value;
            && |es| == |kinds|
            && forall i :: 0 <= i < |kinds| ==>
                 es[i] == Event(who, kinds[i], FiledName(kinds[i], Decimal(kinds[i])), lengths[i])
  {
    hide ParseInt, FiledName;
    if kinds != [] {
      MessagesOfDecimals(who, kinds[1..], lengths[1..]);
      assert Decimals(kinds)[1..] == Decimals(kinds[1..]);
      assert Decimals(lengths)[1..] == Decimals(lengths[1..]);
      IntOfDecimal(kinds[0]);
      IntOfDecimal(lengths[0]);
    }
  }

  lemma PacketRowMessages(p: Packet)
    requires IsPacket(p)
    ensures RowMessages(PacketRow(p)) == Ok(PacketEvents(p))
  {
    hide Messages, FiledName, Sender;
    SenderIsByPort(p.port);
    MessagesOfDecimals(SideOf(p.port), p.kinds, p.lengths);
    assert Messages(SideOf(p.port), Decimals(p.kinds), Decimals(p.lengths)).value == PacketEvents(p);
  }

  lemma {:induction false} CaptureMessages(ps: seq<Packet>)
    requires forall i :: 0 <= i < |ps| ==> IsPacket(ps[i])
    ensures AllMessages(PacketRows(ps)) == Ok(CaptureEvents(ps))
  {
    hide RowMessages, PacketRow;
    if ps != [] {
      PacketRowMessages(ps[0]);
      CaptureMessages(ps[1..]);
      assert PacketRows(ps)[1..] == PacketRows(ps[1..]);
    }
  }

  lemma {:induction false} IntsOfDecimals(ns: seq<nat>)
    ensures Ints(Decimals(ns)) == Some(ns)
  {
    hide ParseInt;
    if ns != [] {
      IntsOfDecimals(ns[1..]);
      assert Decimals(ns)[1..] == Decimals(ns[1..]);
      IntOfDecimal(ns[0]);
      assert ns == [ns[0]] + ns[1..];
    }
  }

  lemma {:induction false} CaptureSegmentsRead(ps: seq<DataPacket>)
    ensures AllSegments(DataRows(ps)) == Ok(CaptureSegments(ps))
  {
    hide ParseInt, Ints, Sender;
    if ps != [] {
      SenderIsByPort(ps[0].port);
      IntOfDecimal(ps[0].tcp);
      IntsOfDecimals(ps[0].records);
      CaptureSegmentsRead(ps[1..]);
      assert DataRows(ps)[1..] == DataRows(ps[1..]);
      assert CaptureSegments(ps) == [CaptureSegments(ps)[0]] + CaptureSegments(ps[1..]);
    } else {
      assert CaptureSegments(ps) == [];
    }
  }

  lemma PacketRowIsToken(p: Packet)
    ensures IsTokenRow(PacketRow(p)) && HasData(PacketRow(p))
  {
    hide IsToken, Decimal;
    forall n: nat ensures IsToken(Decimal(n)) { DecimalIsToken(n); }
    assert PacketRow(p)[0] != [];
  }

  lemma DataRowIsToken(p: DataPacket)
    ensures IsTokenRow(DataRow(p)) && HasData(DataRow(p))
  {
    hide IsToken, Decimal;
    forall n: nat ensures IsToken(Decimal(n)) { DecimalIsToken(n); }
    assert DataRow(p)[0] != [];
  }

  /**
    * The two tshark passes over any capture, printed as text, are read back as the packets' messages
    * and segments: each message under its own side, type and length, in order.
    */
  lemma CaptureRoundTrip(ps: seq<Packet>, ds: seq<DataPacket>)
    requires forall i :: 0 <= i < |ps| ==> IsPacket(ps[i])
    ensures AllMessages(ParseRows(PrintRows(PacketRows(ps)))) == Ok(CaptureEvents(ps))
    ensures AllSegments(ParseRows(PrintRows(DataRows(ds)))) == Ok(CaptureSegments(ds))
  {
    hide PacketRow, DataRow, HasData, IsTokenRow, ParseRows, PrintRows, AllMessages, AllSegments;
    forall i | 0 <= i < |ps| ensures IsTokenRow(PacketRows(ps)[i]) && HasData(PacketRows(ps)[i]) {
      PacketRowIsToken(ps[i]);
    }
    forall i | 0 <= i < |ds| ensures IsTokenRow(DataRows(ds)[i]) && HasData(DataRows(ds)[i]) {
      DataRowIsToken(ds[i]);
    }
    RowsComeBackExactlyWithData(PacketRows(ps));
    RowsComeBackExactlyWithData(DataRows(ds));
    CaptureMessages(ps);
    CaptureSegmentsRead(ds);
  }

  /** Every capture is attributed under canonical type names. */
  lemma {:induction false} CaptureIsCanonical(ps: seq<Packet>)
    requires forall i :: 0 <= i < |ps| ==> IsPacket(ps[i])
    ensures CanonicalTypes(CaptureEvents(ps))
  {
    hide FiledName, Decimal;
    if ps != [] {
      CaptureIsCanonical(ps[1..]);
    }
  }

  // ----- Totals of the packets themselves -----

  /** A packet of the server comes from port 14435. */
  predicate IsFrom(port: nat, server: bool) {
    (port == 14435) == server
  }

  /** Octets of one type in a packet; of all types for None. */
  function PacketBytes(kinds: seq<nat>, lengths: seq<nat>, kind: Option<nat>): nat
    requires |kinds| == |lengths|
  {
    if kinds == [] then 0
    else
      var first := if kind == None || kind == Some(kinds[0]) then lengths[0] else 0;
      first + PacketBytes(kinds[1..], lengths[1..], kind)
  }

  /** Octets of one type, or of all, that one side sends. */
  function TypeBytes(ps: seq<Packet>, server: bool, kind: Option<nat>): nat
    requires forall i :: 0 <= i < |ps| ==> IsPacket(ps[i])
  {
    if ps == [] then 0
    else
      assert IsPacket(ps[0]);
      var first := if IsFrom(ps[0].port, server) then PacketBytes(ps[0].kinds, ps[0].lengths, kind) else 0;
      first + TypeBytes(ps[1..], server, kind)
  }

  /** One side sends a message of this type. */
  ghost predicate SendsType(ps: seq<Packet>, server: bool, kind: nat) {
    exists i :: 0 <= i < |ps| && IsFrom(ps[i].port, server) && kind in ps[i].kinds
  }

  function PayloadBytes(ds: seq<DataPacket>, server: bool): nat {
    if ds == [] then 0 else (if IsFrom(ds[0].port, server) then ds[0].tcp else 0) + PayloadBytes(ds[1..], server)
  }

  function Records(ds: seq<DataPacket>, server: bool): seq<int> {
    if ds == [] then [] else (if IsFrom(ds[0].port, server) then ds[0].records else []) + Records(ds[1..], server)
  }

  function SideNamed(server: bool): Side {
    if server then Server else Client
  }

  lemma {:induction false} KindTotalAppend(a: seq<Event>, b: seq<Event>, who: Side, kind: int)
    ensures KindTotal(a + b, who, kind) == KindTotal(a, who, kind) + KindTotal(b, who, kind)
  {
    if a == [] {
      assert a + b == b;
    } else {
      assert (a + b)[1..] == a[1..] + b;
      KindTotalAppend(a[1..], b, who, kind);
    }
  }

  lemma {:induction false} PacketTotals(port: nat, kinds: seq<nat>, lengths: seq<nat>, server: bool, kind: nat)
    requires |kinds| == |lengths|
    ensures var es := PacketEvents(Packet(port, kinds, lengths));
            && KindTotal(es, SideNamed(server), kind)
               == (if IsFrom(port, server) then PacketBytes(kinds, lengths, Some(kind)) else 0)
            && SideTotal(es, SideNamed(server))
               == (if IsFrom(port, server) then PacketBytes(kinds, lengths, None) else 0)
  {
    hide FiledName, Decimal;
    if kinds != [] {
      PacketTotals(port, kinds[1..], lengths[1..], server, kind);
      assert PacketEvents(Packet(port, kinds, lengths))[1..] == PacketEvents(Packet(port, kinds[1..], lengths[1..]));
    }
  }

  lemma {:induction false} CaptureTotals(ps: seq<Packet>, server: bool, kind: nat)
    requires forall i :: 0 <= i < |ps| ==> IsPacket(ps[i])
    ensures KindTotal(CaptureEvents(ps), SideNamed(server), kind) == TypeBytes(ps, server, Some(kind))
    ensures SideTotal(CaptureEvents(ps), SideNamed(server)) == TypeBytes(ps, server, None)
  {
    hide PacketEvents, PacketBytes;
    if ps != [] {
      CaptureTotals(ps[1..], server, kind);
      PacketTotals(ps[0].port, ps[0].kinds, ps[0].lengths, server, kind);
      KindTotalAppend(PacketEvents(ps[0]), CaptureEvents(ps[1..]), SideNamed(server), kind);
      TotalsAppend(PacketEvents(ps[0]), CaptureEvents(ps[1..]), SideNamed(server), TICKET);
    }
  }

  ghost predicate SendsKind(es: seq<Event>, who: Side, kind: int) {
    exists i :: 0 <= i < |es| && es[i].who == who && es[i].kind == kind
  }

  lemma SendsKindAppend(a: seq<Event>, b: seq<Event>, who: Side, kind: int)
    ensures SendsKind(a + b, who, kind) <==> SendsKind(a, who, kind) || SendsKind(b, who, kind)
  {
    var c := a + b;
    if SendsKind(a, who, kind) {
      var i :| 0 <= i < |a| && a[i].who == who && a[i].kind == kind;
      assert c[i] == a[i];
    }
    if SendsKind(b, who, kind) {
      var i :| 0 <= i < |b| && b[i].who == who && b[i].kind == kind;
      assert c[|a| + i] == b[i];
    }
  }

  lemma PacketSends(p: Packet, server: bool, kind: nat)
    requires IsPacket(p)
    ensures SendsKind(PacketEvents(p), SideNamed(server), kind) <==> IsFrom(p.port, server) && kind in p.kinds
  {
    hide FiledName, Decimal;
    var es := PacketEvents(p);
    assert forall i :: 0 <= i < |es| ==> es[i].kind == p.kinds[i] && es[i].who == SideOf(p.port);
    if kind in p.kinds {
      var i :| 0 <= i < |p.kinds| && p.kinds[i] == kind;
      assert es[i].kind == kind;
    }
  }

  lemma {:induction false} CaptureSends(ps: seq<Packet>, server: bool, kind: nat)
    requires forall i :: 0 <= i < |ps| ==> IsPacket(ps[i])
    ensures SendsKind(CaptureEvents(ps), SideNamed(server), kind) <==> SendsType(ps, server, kind)
  {
    hide PacketEvents, SendsKind;
    if ps == [] {
      NothingIsSent(SideNamed(server), kind);
    } else {
      CaptureSends(ps[1..], server, kind);
      PacketSends(ps[0], server, kind);
      SendsKindAppend(PacketEvents(ps[0]), CaptureEvents(ps[1..]), SideNamed(server), kind);
      if SendsType(ps[1..], server, kind) {
        var i :| 0 <= i < |ps[1..]| && IsFrom(ps[1..][i].port, server) && kind in ps[1..][i].kinds;
        assert ps[i + 1] == ps[1..][i];
      }
      if SendsType(ps, server, kind) {
        var i :| 0 <= i < |ps| && IsFrom(ps[i].port, server) && kind in ps[i].kinds;
        if i > 0 { assert ps[1..][i - 1] == ps[i]; }
      }
    }
  }

  lemma NothingIsSent(who: Side, kind: int)
    ensures !SendsKind([], who, kind)
  {
  }

  lemma {:induction false} SegmentTotals(ds: seq<DataPacket>, server: bool)
    ensures TcpTotal(CaptureSegments(ds), SideNamed(server)) == PayloadBytes(ds, server)
    ensures RecordList(CaptureSegments(ds), SideNamed(server)) == Records(ds, server)
  {
    if ds != [] {
      SegmentTotals(ds[1..], server);
      assert CaptureSegments(ds)[1..] == CaptureSegments(ds[1..]);
    }
  }

  // ----- The entries by their names -----

  /** The entry of one type: present exactly when the side sends it, and then all its octets. */
  ghost predicate IsEntry(m: map<string, int>, name: string, ps: seq<Packet>, server: bool, kind: nat)
    requires forall i :: 0 <= i < |ps| ==> IsPacket(ps[i])
  {
    && (name in m <==> SendsType(ps, server, kind))
    && (name in m ==> m[name] == TypeBytes(ps, server, Some(kind)))
  }

  const HandshakeNames: set<string> :=
    {"ClientHello", "ServerHello", "NewSessionTicket", "EncryptedExtensions", "Certificate",
     "CertificateRequest", "CertificateVerify", "Finished", "CompressedCertificate"}

  predicate IsNamedType(kind: nat) {
    kind in {1, 2, 4, 8, 11, 13, 15, 20, 25}
  }

  /** The dictionary of one side: the handshake types of RFC 8446 and RFC 8879 under their names. */
  ghost predicate HoldsTypes(m: map<string, int>, ps: seq<Packet>, server: bool)
    requires forall i :: 0 <= i < |ps| ==> IsPacket(ps[i])
  {
    && IsEntry(m, "ClientHello", ps, server, 1)
    && IsEntry(m, "ServerHello", ps, server, 2)
    && IsEntry(m, "NewSessionTicket", ps, server, 4)
    && IsEntry(m, "EncryptedExtensions", ps, server, 8)
    && IsEntry(m, "Certificate", ps, server, 11)
    && IsEntry(m, "CertificateRequest", ps, server, 13)
    && IsEntry(m, "CertificateVerify", ps, server, 15)
    && IsEntry(m, "Finished", ps, server, 20)
    && IsEntry(m, "CompressedCertificate", ps, server, 25)
    && (forall kind: nat :: !IsNamedType(kind) ==> IsEntry(m, "type" + Decimal(kind), ps, server, kind))
    && forall name :: name in m ==> name in HandshakeNames || exists kind: nat :: name == "type" + Decimal(kind)
  }

  lemma KeyIsName(m: map<string, int>, ps: seq<Packet>, server: bool, name: string)
    requires forall i :: 0 <= i < |ps| ==> IsPacket(ps[i])
    requires IsTally(m, CaptureEvents(ps), SideNamed(server)) && name in m
    ensures name in HandshakeNames || exists kind: nat :: name == "type" + Decimal(kind)
  {
    hide FiledName, Decimal, CaptureEvents, IsTally;
    CaptureIsCanonical(ps);
    KeysAreNames(m, CaptureEvents(ps), SideNamed(server), name);
    NamesOfTypes();
  }

  lemma KeysAreNames(m: map<string, int>, es: seq<Event>, who: Side, name: string)
    requires IsTally(m, es, who) && CanonicalTypes(es) && name in m
    ensures exists kind: nat :: name == FiledName(kind, Decimal(kind))
  {
    hide FiledName, Decimal;
    var i :| 0 <= i < |es| && es[i].who == who && es[i].name == name;
    var kind: nat := es[i].kind;
    assert name == FiledName(kind, Decimal(kind));
  }

  lemma SendsNameIsKind(es: seq<Event>, who: Side, kind: nat)
    requires CanonicalTypes(es)
    ensures Sends(es, who, FiledName(kind, Decimal(kind))) <==> SendsKind(es, who, kind)
  {
    hide FiledName, Decimal;
    forall i | 0 <= i < |es|
      ensures es[i].name == FiledName(kind, Decimal(kind)) <==> es[i].kind == kind
    {
      if es[i].kind != kind { CanonicalNamesAreDistinct(es[i].kind, kind); }
    }
  }

  lemma EntryOfType(m: map<string, int>, ps: seq<Packet>, server: bool, kind: nat)
    requires forall i :: 0 <= i < |ps| ==> IsPacket(ps[i])
    requires IsTally(m, CaptureEvents(ps), SideNamed(server))
    ensures IsEntry(m, FiledName(kind, Decimal(kind)), ps, server, kind)
  {
    hide FiledName, Decimal, CaptureEvents, SendsKind, SendsType, TypeBytes, CanonicalTypes;
    var es := CaptureEvents(ps);
    CaptureIsCanonical(ps);
    SendsNameIsKind(es, SideNamed(server), kind);
    CaptureSends(ps, server, kind);
    CaptureTotals(ps, server, kind);
    EntryIsTypeTotal(m, es, SideNamed(server), kind);
  }

  lemma NamesOfTypes()
    ensures FiledName(1, Decimal(1)) == "ClientHello" && FiledName(2, Decimal(2)) == "ServerHello"
    ensures FiledName(4, Decimal(4)) == "NewSessionTicket" && FiledName(8, Decimal(8)) == "EncryptedExtensions"
    ensures FiledName(11, Decimal(11)) == "Certificate" && FiledName(13, Decimal(13)) == "CertificateRequest"
    ensures FiledName(15, Decimal(15)) == "CertificateVerify" && FiledName(20, Decimal(20)) == "Finished"
    ensures FiledName(25, Decimal(25)) == "CompressedCertificate"
    ensures forall kind: nat :: !IsNamedType(kind) ==> FiledName(kind, Decimal(kind)) == "type" + Decimal(kind)
  {
    hide Decimal;
  }

  lemma TallyHoldsTypes(m: map<string, int>, ps: seq<Packet>, server: bool)
    requires forall i :: 0 <= i < |ps| ==> IsPacket(ps[i])
    requires IsTally(m, CaptureEvents(ps), SideNamed(server))
    ensures HoldsTypes(m, ps, server)
  {
    hide FiledName, Decimal, IsEntry, CaptureEvents, IsTally, HandshakeNames;
    NamesOfTypes();
    forall kind: nat ensures IsEntry(m, FiledName(kind, Decimal(kind)), ps, server, kind) {
      EntryOfType(m, ps, server, kind);
    }
    forall name | name in m
      ensures name in HandshakeNames || exists kind: nat :: name == "type" + Decimal(kind)
    {
      KeyIsName(m, ps, server, name);
    }
  }

  /**
    * analyze of any capture: no exception, and the totals of exactly its messages and segments. The
    * reported flight is what the server sent before the client's Finished on every handshake whose
    * server sends no ticket before that Finished and only tickets after it; and, with only tickets
    * after it, on no other. The dictionaries are those of the packets, type by type, under the names of
    * the types; payload and records are those of each side; and compression is a server's type 25.
    */
  method AnalyzeCapture(ps: seq<Packet>, ds: seq<DataPacket>) returns (a: Analysis)
    requires forall i :: 0 <= i < |ps| ==> IsPacket(ps[i])
    ensures IsAnalysis(a, CaptureEvents(ps), CaptureSegments(ds))
    ensures (exists phases :: IsPatientRun(CaptureEvents(ps), phases)) ==>
              a.flight == FlightByPosition(CaptureEvents(ps))
    ensures forall phases ::
              && IsRun(CaptureEvents(ps), phases)
              && PositiveServerLengths(CaptureEvents(ps))
              && !SendsOthersLate(CaptureEvents(ps), phases)
              ==> (a.flight == FlightByPosition(CaptureEvents(ps))
                   <==> !SendsEarlyTicket(CaptureEvents(ps), phases))
    ensures HoldsTypes(a.serverMessages, ps, true) && HoldsTypes(a.clientMessages, ps, false)
    ensures a.flight == TypeBytes(ps, true, None) - TypeBytes(ps, true, Some(4))
    ensures a.compressed <==> SendsType(ps, true, 25)
    ensures a.serverTcp == PayloadBytes(ds, true) && a.clientTcp == PayloadBytes(ds, false)
    ensures a.serverRecords == Records(ds, true) && a.clientRecords == Records(ds, false)
  {
    hide ParseRows, PrintRows, AllMessages, AllSegments, FlightByPosition, IsPatientRun, CaptureEvents,
         HoldsTypes, TypeBytes, SendsType, SendsKind, PayloadBytes, Records, IsTally, FiledName, Decimal,
         SendsOthersLate, SendsEarlyTicket, PositiveServerLengths;
    CaptureRoundTrip(ps, ds);
    var r := Analyze(PrintRows(PacketRows(ps)), PrintRows(DataRows(ds)));
    a := r.value;
    ghost var es := CaptureEvents(ps);
    CaptureIsCanonical(ps);
    TallyHoldsTypes(a.serverMessages, ps, true);
    TallyHoldsTypes(a.clientMessages, ps, false);
    NamesOfTypes();
    CaptureTotals(ps, true, 4);
    NameTotalIsKindTotal(es, Server, 4);
    CaptureSends(ps, true, 25);
    SendsNameIsKind(es, Server, 25);
    SegmentTotals(ds, true);
    SegmentTotals(ds, false);
    if exists phases :: IsPatientRun(es, phases) {
      ghost var phases :| IsPatientRun(es, phases);
      PatientFlight(es, phases);
    }
    forall phases | IsRun(es, phases) && PositiveServerLengths(es) && !SendsOthersLate(es, phases)
      ensures a.flight == FlightByPosition(es) <==> !SendsEarlyTicket(es, phases)
    {
      TotalsAgreeExactly(es, phases);
    }
  }
}
