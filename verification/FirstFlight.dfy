/**
  * The server's first flight in phase3/transport.py: everything the server sends before the
  * client's Finished. The script computes it by name, leaving out NewSessionTicket; here the two
  * are compared on captures and on runs of the TLS 1.3 handshake (RFC 8446, section 2 and appendix
  * A; certificate compression is RFC 8879).
  */
module FirstFlight {
  import opened PythonText
  import opened Attribution
  import opened Conservation

  // ----- Two definitions of the flight -----

  predicate IsClientFinished(e: Event) {
    e.who == Client && e.name == "Finished"
  }

  /** Number of messages before the client's first Finished; all of them when there is none. */
  function FlightEnd(es: seq<Event>): (n: nat)
    ensures n <= |es|
    ensures forall i :: 0 <= i < n ==> !IsClientFinished(es[i])
    ensures n < |es| ==> IsClientFinished(es[n])
  {
    if es == [] || IsClientFinished(es[0]) then 0 else 1 + FlightEnd(es[1..])
  }

  /** By position: the server's lengths before the client's Finished. */
  function FlightByPosition(es: seq<Event>): int {
    SideTotal(es[..FlightEnd(es)], Server)
  }

  /** By name: the server's lengths outside NewSessionTicket, which is what `analyze` reports. */
  function FlightByName(es: seq<Event>): int {
    SideTotal(es, Server) - NameTotal(es, Server, TICKET)
  }

  function EarlyTickets(es: seq<Event>): int {
    NameTotal(es[..FlightEnd(es)], Server, TICKET)
  }

  function LateOthers(es: seq<Event>): int {
    var late := es[FlightEnd(es)..];
    SideTotal(late, Server) - NameTotal(late, Server, TICKET)
  }

  /** On every capture the two definitions differ by exactly the late others and the early tickets. */
  lemma FlightsDiffer(es: seq<Event>)
    ensures FlightByName(es) - FlightByPosition(es) == LateOthers(es) - EarlyTickets(es)
    ensures FlightByName(es) == FlightByPosition(es) <==> LateOthers(es) == EarlyTickets(es)
  {
    var n := FlightEnd(es);
    assert es == es[..n] + es[n..];
    TotalsAppend(es[..n], es[n..], Server, TICKET);
  }

  // ----- The handshake as a state machine -----

  datatype Phase =
    | Start
    | Hello | Retry | SecondHello
    | Negotiated | Encrypted | Requested | Certified | Verified
    | ServerFinished | ClientCertified | ClientVerified
    | Connected

  predicate IsCertificate(kind: int) {
    kind == 11 || kind == 25
  }

  predicate AwaitsClient(p: Phase) {
    p == ServerFinished || p == ClientCertified || p == ClientVerified
  }

  /**
    * One handshake message on the wire. A HelloRetryRequest is sent as a ServerHello; a server may send
    * KeyUpdate as soon as its own Finished is out (section 4.6.3 of RFC 8446). Every legal order is
    * admitted, and some more: tickets also to a client that was asked to authenticate, for instance.
    */
  predicate Step(p: Phase, e: Event, q: Phase) {
    match e.who
    case Client =>
      || (p == Start && e.kind == 1 && q == Hello)
      || (p == Retry && e.kind == 1 && q == SecondHello)
      || (p == ServerFinished && e.kind == 5 && q == ServerFinished)
      || (p == ServerFinished && IsCertificate(e.kind) && q == ClientCertified)
      || (p == ClientCertified && e.kind == 15 && q == ClientVerified)
      || (AwaitsClient(p) && e.kind == 20 && q == Connected)
      || (p == Connected && e.kind in {11, 15, 20, 24, 25} && q == Connected)
    case Server =>
      || (p == Hello && e.kind == 2 && (q == Negotiated || q == Retry))
      || (p == SecondHello && e.kind == 2 && q == Negotiated)
      || (p == Negotiated && e.kind == 8 && q == Encrypted)
      || (p == Encrypted && e.kind == 13 && q == Requested)
      || (p == Encrypted && e.kind == 20 && q == ServerFinished)
      || ((p == Encrypted || p == Requested) && IsCertificate(e.kind) && q == Certified)
      || (p == Certified && e.kind == 15 && q == Verified)
      || (p == Verified && e.kind == 20 && q == ServerFinished)
      || (AwaitsClient(p) && e.kind in {4, 24} && q == p)
      || (p == Connected && e.kind in {4, 13, 24} && q == Connected)
  }

  /** ps are the phases around the messages of a handshake, complete or not. */
  ghost predicate IsRun(es: seq<Event>, ps: seq<Phase>) {
    && |ps| == |es| + 1
    && ps[0] == Start
    && forall i :: 0 <= i < |es| ==> Step(ps[i], es[i], ps[i + 1])
  }

  /** A server that sends no ticket before the client's Finished, and tickets only after it. */
  ghost predicate IsPatientRun(es: seq<Event>, ps: seq<Phase>) {
    && IsRun(es, ps)
    && forall i :: 0 <= i < |es| && es[i].who == Server ==>
         && !(AwaitsClient(ps[i]) && es[i].kind == 4)
         && (ps[i] == Connected ==> es[i].kind == 4)
  }

  /** A canonical type number decides the ticket and Finished names. */
  lemma NamesOfKinds(e: Event)
    requires CanonicalTypes([e])
    ensures e.name == TICKET <==> e.kind == 4
    ensures e.name == "Finished" <==> e.kind == 20
  {
    hide FiledName, Decimal;
    assert [e][0] == e;
    if e.kind != 4 { CanonicalNamesAreDistinct(e.kind, 4); }
    if e.kind != 20 { CanonicalNamesAreDistinct(e.kind, 20); }
    assert FiledName(4, Decimal(4)) == TICKET && FiledName(20, Decimal(20)) == "Finished" by { KnownNames(); }
  }

  lemma KnownNames()
    ensures FiledName(4, Decimal(4)) == TICKET
    ensures FiledName(20, Decimal(20)) == "Finished"
  {
  }

  /** Only the client's Finished connects. */
  lemma StepConnects(p: Phase, e: Event, q: Phase)
    requires Step(p, e, q) && CanonicalTypes([e])
    ensures q == Connected <==> p == Connected || IsClientFinished(e)
  {
    hide CanonicalTypes;
    NamesOfKinds(e);
  }

  /** The handshake is connected exactly after the client's first Finished. */
  lemma {:induction false} ConnectedAfterFinished(es: seq<Event>, ps: seq<Phase>, i: nat)
    requires IsRun(es, ps) && CanonicalTypes(es)
    requires i <= |es|
    ensures ps[i] == Connected <==> i > FlightEnd(es)
  {
    hide Step, FiledName, Decimal;
    if i > 0 {
      ConnectedAfterFinished(es, ps, i - 1);
      assert Step(ps[i - 1], es[i - 1], ps[i - 1 + 1]);
      assert CanonicalTypes([es[i - 1]]);
      StepConnects(ps[i - 1], es[i - 1], ps[i]);
    }
  }

  /** Before the connected phase the server sends tickets only while the client's Finished is due. */
  lemma StepSendsTicket(p: Phase, e: Event, q: Phase)
    requires Step(p, e, q) && CanonicalTypes([e])
    requires e.who == Server && p != Connected
    ensures AwaitsClient(p) && e.kind == 4 <==> e.name == TICKET
  {
    hide CanonicalTypes;
    NamesOfKinds(e);
  }

  /** On a run, the tickets in front of the client's Finished are those sent while it is due. */
  lemma EarlyTicket(es: seq<Event>, ps: seq<Phase>, i: nat)
    requires IsRun(es, ps) && CanonicalTypes(es)
    requires i < |es| && es[i].who == Server
    ensures AwaitsClient(ps[i]) && es[i].kind == 4 <==> i < FlightEnd(es) && es[i].name == TICKET
  {
    hide Step, FiledName, Decimal;
    ConnectedAfterFinished(es, ps, i);
    assert i != FlightEnd(es);
    if ps[i] != Connected {
      assert Step(ps[i], es[i], ps[i + 1]);
      assert CanonicalTypes([es[i]]);
      StepSendsTicket(ps[i], es[i], ps[i + 1]);
    }
  }

  lemma {:induction false} NoTicketsNoBytes(es: seq<Event>)
    requires forall i :: 0 <= i < |es| ==> !(es[i].who == Server && es[i].name == TICKET)
    ensures NameTotal(es, Server, TICKET) == 0
  {
    if es != [] {
      NoTicketsNoBytes(es[1..]);
    }
  }

  lemma {:induction false} OnlyTicketsBytes(es: seq<Event>)
    requires forall i :: 0 <= i < |es| && es[i].who == Server ==> es[i].name == TICKET
    ensures NameTotal(es, Server, TICKET) == SideTotal(es, Server)
  {
    if es != [] {
      OnlyTicketsBytes(es[1..]);
    }
  }

  /** After the client's Finished, a server message of type 4 is filed as a ticket. */
  lemma LateTicket(es: seq<Event>, ps: seq<Phase>, i: nat)
    requires IsRun(es, ps) && CanonicalTypes(es)
    requires FlightEnd(es) <= i < |es| && es[i].who == Server
    ensures i > FlightEnd(es) && ps[i] == Connected
    ensures es[i].kind == 4 <==> es[i].name == TICKET
  {
    hide Step, FiledName, Decimal;
    assert IsClientFinished(es[FlightEnd(es)]);
    ConnectedAfterFinished(es, ps, i);
    assert CanonicalTypes([es[i]]);
    NamesOfKinds(es[i]);
  }

  /** On every run with a patient server the name-based flight is the positional one. */
  lemma PatientFlight(es: seq<Event>, ps: seq<Phase>)
    requires IsPatientRun(es, ps) && CanonicalTypes(es)
    ensures EarlyTickets(es) == 0 && LateOthers(es) == 0
    ensures FlightByName(es) == FlightByPosition(es)
  {
    hide Step, CanonicalTypes, SideTotal, NameTotal, FlightEnd;
    var n := FlightEnd(es);
    var early, late := es[..n], es[n..];
    forall i | 0 <= i < |early| ensures !(early[i].who == Server && early[i].name == TICKET) {
      if es[i].who == Server {
        EarlyTicket(es, ps, i);
      }
    }
    forall i | 0 <= i < |late| && late[i].who == Server ensures late[i].name == TICKET {
      LateTicket(es, ps, n + i);
    }
    NoTicketsNoBytes(early);
    OnlyTicketsBytes(late);
    FlightsDiffer(es);
  }

  /**
    * Section 4.6.1 of RFC 8446 lets a server that does not ask for client authentication send tickets
    * right after its own Finished. On such runs the name-based total is too small: it misses those
    * tickets, which do come before the client's Finished, and nothing else when the server sends only
    * tickets afterwards.
    */
  lemma EarlyTicketsAreMissed(es: seq<Event>, ps: seq<Phase>)
    requires IsRun(es, ps) && CanonicalTypes(es)
    requires forall i :: 0 <= i < |es| && es[i].who == Server && ps[i] == Connected ==> es[i].kind == 4
    ensures FlightByPosition(es) == FlightByName(es) + EarlyTickets(es)
  {
    hide Step, CanonicalTypes, SideTotal, NameTotal, FlightEnd;
    var n := FlightEnd(es);
    var late := es[n..];
    forall i | 0 <= i < |late| && late[i].who == Server ensures late[i].name == TICKET {
      LateTicket(es, ps, n + i);
    }
    OnlyTicketsBytes(late);
    FlightsDiffer(es);
  }

  // ----- Exactly when the two definitions agree -----

  /** A server that sends a ticket while the client's Finished is due. */
  ghost predicate SendsEarlyTicket(es: seq<Event>, ps: seq<Phase>)
    requires |ps| == |es| + 1
  {
    exists i :: 0 <= i < |es| && es[i].who == Server && AwaitsClient(ps[i]) && es[i].kind == 4
  }

  /** A server that sends something else than tickets once connected. */
  ghost predicate SendsOthersLate(es: seq<Event>, ps: seq<Phase>)
    requires |ps| == |es| + 1
  {
    exists i :: 0 <= i < |es| && es[i].who == Server && ps[i] == Connected && es[i].kind != 4
  }

  /** EndOfEarlyData, which only a client sends, is an empty message; the server's are not. */
  ghost predicate PositiveServerLengths(es: seq<Event>) {
    forall i :: 0 <= i < |es| && es[i].who == Server ==> es[i].length > 0
  }

  lemma {:induction false} PositiveTotals(es: seq<Event>)
    requires PositiveServerLengths(es)
    ensures NameTotal(es, Server, TICKET) >= 0 && SideTotal(es, Server) >= NameTotal(es, Server, TICKET)
    ensures NameTotal(es, Server, TICKET) > 0
       <==> exists i :: 0 <= i < |es| && es[i].who == Server && es[i].name == TICKET
    ensures SideTotal(es, Server) > NameTotal(es, Server, TICKET)
       <==> exists i :: 0 <= i < |es| && es[i].who == Server && es[i].name != TICKET
  {
    if es != [] {
      PositiveTotals(es[1..]);
      assert es == [es[0]] + es[1..];
      assert forall i :: 0 < i < |es| ==> es[i] == es[1..][i - 1];
      assert forall i :: 0 <= i < |es| - 1 ==> es[1..][i] == es[i + 1];
    }
  }

  lemma EarlyAndLateTotals(es: seq<Event>, ps: seq<Phase>)
    requires IsRun(es, ps) && CanonicalTypes(es) && PositiveServerLengths(es)
    ensures EarlyTickets(es) >= 0 && (EarlyTickets(es) > 0 <==> SendsEarlyTicket(es, ps))
    ensures LateOthers(es) >= 0 && (LateOthers(es) > 0 <==> SendsOthersLate(es, ps))
  {
    hide Step, CanonicalTypes, SideTotal, NameTotal, FlightEnd;
    var n := FlightEnd(es);
    var early, late := es[..n], es[n..];
    forall i | 0 <= i < |es| && es[i].who == Server
      ensures AwaitsClient(ps[i]) && es[i].kind == 4 <==> i < n && es[i].name == TICKET
    {
      EarlyTicket(es, ps, i);
    }
    forall i | n <= i < |es| && es[i].who == Server
      ensures ps[i] == Connected && (es[i].kind == 4 <==> es[i].name == TICKET)
    {
      LateTicket(es, ps, i);
    }
    forall i | 0 <= i < |es| && ps[i] == Connected ensures i >= n {
      ConnectedAfterFinished(es, ps, i);
    }
    PositiveTotals(early);
    PositiveTotals(late);
    assert forall i :: 0 <= i < |late| ==> late[i] == es[n + i];
    assert forall i :: n <= i < |es| ==> es[i] == late[i - n];
    assert forall i :: 0 <= i < n ==> es[i] == early[i];
  }

  /**
    * On a run the two totals agree exactly when the server sends no ticket while the client's Finished
    * is due, provided it sends only tickets once connected; and exactly when it sends only tickets
    * once connected, provided it sent none while the Finished was due.
    */
  lemma TotalsAgreeExactly(es: seq<Event>, ps: seq<Phase>)
    requires IsRun(es, ps) && CanonicalTypes(es) && PositiveServerLengths(es)
    ensures !SendsOthersLate(es, ps) ==> (FlightByName(es) == FlightByPosition(es) <==> !SendsEarlyTicket(es, ps))
    ensures !SendsEarlyTicket(es, ps) ==> (FlightByName(es) == FlightByPosition(es) <==> !SendsOthersLate(es, ps))
  {
    hide IsRun, CanonicalTypes, FlightByName, FlightByPosition, SendsEarlyTicket, SendsOthersLate;
    FlightsDiffer(es);
    EarlyAndLateTotals(es, ps);
  }

  function Message(who: Side, kind: nat, length: int): Event {
    Event(who, kind, FiledName(kind, Decimal(kind)), length)
  }

  /**
    * The longest way through: a HelloRetryRequest, a server certificate, a client certificate, both
    * compressed, and then tickets, a KeyUpdate and authentication after the handshake.
    */
  function LongHandshake(): seq<Event> {
    [Message(Client, 1, 300), Message(Server, 2, 88), Message(Client, 1, 400), Message(Server, 2, 100),
     Message(Server, 8, 10), Message(Server, 13, 20), Message(Server, 25, 900), Message(Server, 15, 80),
     Message(Server, 20, 32), Message(Client, 25, 700), Message(Client, 15, 80), Message(Client, 20, 32),
     Message(Server, 4, 200), Message(Server, 24, 1), Message(Server, 13, 20), Message(Client, 11, 700),
     Message(Client, 15, 80), Message(Client, 20, 32)]
  }

  function LongPhases(): seq<Phase> {
    [Start, Hello, Retry, SecondHello, Negotiated, Encrypted, Requested, Certified, Verified, ServerFinished,
     ClientCertified, ClientVerified, Connected, Connected, Connected, Connected, Connected, Connected, Connected]
  }

  lemma LongRun()
    ensures IsRun(LongHandshake(), LongPhases())
  {
    hide FiledName, Decimal;
  }

  /** A resumed handshake whose server sends a KeyUpdate, but no ticket, before the client's Finished. */
  function EarlyKeyUpdateMessages(): seq<Event> {
    [Message(Client, 1, 300), Message(Server, 2, 100), Message(Server, 8, 10),
     Message(Server, 20, 32), Message(Server, 24, 1), Message(Client, 20, 32)]
  }

  /** On that run both totals count the KeyUpdate. */
  lemma EarlyKeyUpdateExample()
    ensures IsRun(EarlyKeyUpdateMessages(), ImpatientPhases())
    ensures !SendsEarlyTicket(EarlyKeyUpdateMessages(), ImpatientPhases())
    ensures FlightByName(EarlyKeyUpdateMessages()) == FlightByPosition(EarlyKeyUpdateMessages())
  {
    hide Decimal, FiledName, FlightByName, FlightByPosition;
    assert CanonicalTypes(EarlyKeyUpdateMessages());
    assert IsPatientRun(EarlyKeyUpdateMessages(), ImpatientPhases());
    PatientFlight(EarlyKeyUpdateMessages(), ImpatientPhases());
  }

  /** A resumed handshake whose server sends a ticket before the client's Finished. */
  function ImpatientMessages(): seq<Event> {
    [Message(Client, 1, 300), Message(Server, 2, 100), Message(Server, 8, 10),
     Message(Server, 20, 32), Message(Server, 4, 200), Message(Client, 20, 32)]
  }

  function ImpatientPhases(): seq<Phase> {
    [Start, Hello, Negotiated, Encrypted, ServerFinished, ServerFinished, Connected]
  }

  lemma ImpatientRun()
    ensures IsRun(ImpatientMessages(), ImpatientPhases())
    ensures CanonicalTypes(ImpatientMessages())
  {
    hide FiledName, Decimal;
  }

  lemma ImpatientNames(i: nat)
    requires i < 6
    ensures ImpatientMessages()[i].name == TICKET <==> i == 4
    ensures IsClientFinished(ImpatientMessages()[i]) <==> i == 5
  {
    hide FiledName, Decimal;
    NamesOfKinds(ImpatientMessages()[i]);
  }

  /** A legal run with one early ticket, on which the name-based total falls short by its length. */
  lemma EarlyTicketExample()
    ensures IsRun(ImpatientMessages(), ImpatientPhases())
    ensures FlightByPosition(ImpatientMessages()) == FlightByName(ImpatientMessages()) + 200
  {
    hide Decimal, FiledName, FlightByName, FlightByPosition, IsRun;
    var es := ImpatientMessages();
    ImpatientRun();
    forall i | 0 <= i < 6 ensures (es[i].name == TICKET <==> i == 4) && (IsClientFinished(es[i]) <==> i == 5) {
      ImpatientNames(i);
    }
    FlightEndsAt(es, 5);
    assert es[..5] == es[..4] + [es[4]];
    TotalsAppend(es[..4], [es[4]], Server, TICKET);
    NoTicketsNoBytes(es[..4]);
    assert NameTotal([es[4]], Server, TICKET) == 200 by { assert [es[4]][1..] == []; }
    EarlyTicketsAreMissed(es, ImpatientPhases());
  }

  lemma {:induction false} FlightEndsAt(es: seq<Event>, n: nat)
    requires n < |es| && IsClientFinished(es[n])
    requires forall i :: 0 <= i < n ==> !IsClientFinished(es[i])
    ensures FlightEnd(es) == n
  {
    if n > 0 {
      FlightEndsAt(es[1..], n - 1);
    }
  }
}
