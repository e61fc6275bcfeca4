/**
 Servers described by the bytes they send for the bytes they are sent: what a server can
 say, how it is delivered, and what the probe then takes it to have said (handshake in
 pkg/tls/probe/probe.go).
 */
module Speeches {
  import opened Bytes
  import opened Readers
  import opened Framing
  import opened ServerHellos
  import opened KeyExchanges
  import opened Flights
  import opened Answers
  import opened ClientHellos
  import opened Suites
  import opened Probing

  // A refusal; a flight below TLS 1.3; or a hello that ends a flight by itself, which is a
  // retry request or a TLS 1.3 hello. The last two come with the records that carry them.
  datatype Speech =
    | Refusing(recordVersion: Word, description: Byte)
    | Speaking(flight: ServerFlight, done: Message, records: seq<seq<Byte>>)
    | Greeting(hello: Fields, records: seq<seq<Byte>>)
  {
    // What is sent is well-formed, and no alert in it is a refusal but a refusal's own.
    ghost predicate Valid(finiteField: FiniteFieldResolver) {
      match this
      case Refusing(_, _) => true
      case Speaking(flight, done, records) =>
        && Packed(flight, done, records, finiteField)
        && Prompt(records)
        && NotFatal(records)
      case Greeting(hello, records) =>
        && WellFormed(hello)
        && Carries(records, [], Message(SERVER_HELLO, Put(hello)))
        && Prompt(records)
        && NotFatal(records)
    }
  }

  ghost predicate NotFatal(records: seq<seq<Byte>>)
    requires AllFrames(RecordLayer, records)
  {
    FirstAlert(records).Some? ==> !FirstAlert(records).value.Fatal()
  }

  function RefusalRecord(speech: Speech): seq<Byte>
    requires speech.Refusing?
  {
    Record(ALERT, speech.recordVersion, [2, speech.description])
  }

  // The reads bring what is said, in any division.
  ghost predicate Delivers(arrivals: seq<Read>, speech: Speech, finiteField: FiniteFieldResolver)
    requires speech.Valid(finiteField)
  {
    if speech.Refusing? then
      Arrived(arrivals) == RefusalRecord(speech) && Uninterrupted(arrivals, |RefusalRecord(speech)|)
    else
      Answers.Brings(arrivals, speech.records)
  }

  // The read that stops the loop brings the last byte of the hello.
  ghost predicate HelloInTime(arrivals: seq<Read>, speech: Speech, finiteField: FiniteFieldResolver)
    requires speech.Valid(finiteField)
  {
    match speech
    case Refusing(_, _) => true
    case Speaking(flight, _, records) => HelloCollected(flight, records, arrivals)
    case Greeting(_, records) => Collected(records, arrivals) >= End(records)
  }

  // And the last byte of everything.
  ghost predicate AllInTime(arrivals: seq<Read>, speech: Speech, finiteField: FiniteFieldResolver)
    requires speech.Valid(finiteField)
  {
    speech.Refusing? || Collected(speech.records, arrivals) >= End(speech.records)
  }

  lemma RefusalComplete(recordVersion: Word, description: Byte)
    ensures var record := Record(ALERT, recordVersion, [2, description]);
      && Reassembly(record) == Reassembled([], Some(Alert(2, description)), false, [])
      && (forall k :: 0 <= k < |record| ==> !Complete(record[..k]))
  {
    var record := Record(ALERT, recordVersion, [2, description]);
    FrameFirst(RecordLayer, record, []);
    assert record + [] == record;
    assert Frames(RecordLayer, record) == [record];
    var rest: seq<seq<Byte>> := [record][1..];
    assert rest == [];
    forall k | 0 <= k < |record| ensures !Complete(record[..k]) {
      CutInFrame(RecordLayer, record, [], k);
    }
  }

  lemma RefusalHeard(speech: Speech, arrivals: seq<Read>, more: seq<Read>, finiteField: FiniteFieldResolver)
    requires speech.Refusing? && Delivers(arrivals, speech, finiteField)
    ensures Answer(arrivals + more, finiteField) == Ok(Blank().(alert := Some(Alert(2, speech.description))))
  {
    var record := RefusalRecord(speech);
    RefusalComplete(speech.recordVersion, speech.description);
    assert [] + Arrived(arrivals) == record;
    assert record[..|record|] == record;
    assert CompleteFrom(record, |record|);
    StopsAtCompletion([], arrivals, more, |record|);
    var m := Reaching(arrivals, |record|);
    ReachingReaches(arrivals, |record|);
    ArrivedPrefix(arrivals, m);
    assert Arrived(arrivals[..m]) == record;
    assert (arrivals + more)[..m] == arrivals[..m];
  }

  // What a speech tells when all of it is heard.
  function Told(speech: Speech, finiteField: FiniteFieldResolver, alert: Option<Alert>, encrypted: bool): Flight
    requires speech.Speaking? ==> PlainFlight(speech.flight, finiteField)
  {
    match speech
    case Refusing(_, description) => Blank().(alert := Some(Alert(2, description)))
    case Speaking(f, _, _) =>
      Flight(Some(Meaning(f.hello)), ReadExchange(f, finiteField), f.certificate, f.status, true, alert, false)
    case Greeting(hello, _) => Blank().(serverHello := Some(Meaning(hello)), alert := alert, encrypted := encrypted)
  }

  // The alert a speech leaves behind in what is read.
  function AlertOf(speech: Speech, finiteField: FiniteFieldResolver): Option<Alert>
    requires !speech.Refusing? ==> AllFrames(RecordLayer, speech.records)
  {
    if speech.Refusing? then Some(Alert(2, speech.description)) else FirstAlert(speech.records)
  }

  // An answer is the whole of a speech. Encrypted records may have come along with it.
  ghost predicate IsTold(speech: Speech, finiteField: FiniteFieldResolver, answer: Result<Flight, NoFlight>)
    requires speech.Valid(finiteField)
  {
    exists encrypted :: answer == Ok(Told(speech, finiteField, AlertOf(speech, finiteField), encrypted))
  }

  // A speech is heard whole if and only if all of it is in time.
  lemma HeardExactly(speech: Speech, arrivals: seq<Read>, more: seq<Read>, finiteField: FiniteFieldResolver)
    requires speech.Valid(finiteField) && Delivers(arrivals, speech, finiteField)
    ensures AllInTime(arrivals, speech, finiteField) <==>
      IsTold(speech, finiteField, Answer(arrivals + more, finiteField))
  {
    var answer, alert := Answer(arrivals + more, finiteField), AlertOf(speech, finiteField);
    match speech
    case Refusing(_, _) =>
      RefusalHeard(speech, arrivals, more, finiteField);
      assert answer == Ok(Told(speech, finiteField, alert, false));
    case Speaking(_, _, _) =>
      SpeakingWhole(speech, arrivals, more, finiteField);
      assert answer == Ok(Told(speech, finiteField, alert, false)) <==> AllInTime(arrivals, speech, finiteField);
    case Greeting(hello, records) =>
      GreetingHeard(speech, arrivals, more, finiteField);
  }

  lemma SpeakingWhole(speech: Speech, arrivals: seq<Read>, more: seq<Read>, finiteField: FiniteFieldResolver)
    requires speech.Speaking? && speech.Valid(finiteField) && Delivers(arrivals, speech, finiteField)
    ensures AllInTime(arrivals, speech, finiteField) <==>
      Answer(arrivals + more, finiteField)
        == Ok(Told(speech, finiteField, AlertOf(speech, finiteField), false))
  {
    var f, done, records := speech.flight, speech.done, speech.records;
    ServerFlightRoundTrip(f, done, records, arrivals, more, finiteField);
    LoopStops(records, Front(f), done, arrivals, more);
    AlertByStop(records, Collected(records, arrivals));
  }

  function HelloOf(speech: Speech): Message
    requires speech.Greeting? && WellFormed(speech.hello)
  {
    Message(SERVER_HELLO, Put(speech.hello))
  }

  lemma GreetingHeard(speech: Speech, arrivals: seq<Read>, more: seq<Read>, finiteField: FiniteFieldResolver)
    requires speech.Greeting? && speech.Valid(finiteField) && Delivers(arrivals, speech, finiteField)
    ensures AllInTime(arrivals, speech, finiteField) ==>
      IsTold(speech, finiteField, Answer(arrivals + more, finiteField))
    ensures !AllInTime(arrivals, speech, finiteField) ==>
      Answer(arrivals + more, finiteField) == Ok(Blank().(alert := FirstAlert(speech.records)))
  {
    var n := Collected(speech.records, arrivals);
    LoopStops(speech.records, [], HelloOf(speech), arrivals, more);
    if n >= End(speech.records) {
      GreetingTold(speech, finiteField);
      AnswerExactly(speech.records, [], HelloOf(speech), arrivals, more, finiteField);
      AlertByStop(speech.records, n);
      var encrypted := Around(Blank(), speech.records, Whole(speech.records, n)).encrypted;
      assert Answer(arrivals + more, finiteField)
          == Ok(Told(speech, finiteField, AlertOf(speech, finiteField), encrypted));
    } else {
      AnswerIsCut(speech.records, [], HelloOf(speech), arrivals, more, finiteField);
      GreetingCut(speech, n, finiteField);
    }
  }

  lemma GreetingTold(speech: Speech, finiteField: FiniteFieldResolver)
    requires speech.Greeting? && speech.Valid(finiteField)
    ensures NoteAll(Blank(), [] + [HelloOf(speech)], finiteField)
      == Some(Blank().(serverHello := Some(Meaning(speech.hello))))
  {
    HelloReadBack(speech.hello);
    assert [] + [HelloOf(speech)] == [HelloOf(speech)];
    NoteLast(Blank(), HelloOf(speech), finiteField);
  }

  lemma GreetingCut(speech: Speech, n: nat, finiteField: FiniteFieldResolver)
    requires speech.Greeting? && speech.Valid(finiteField)
    requires Stop(speech.records) <= n < End(speech.records) && n <= |Concat(speech.records)|
    ensures ReadFlight(Concat(speech.records)[..n], finiteField)
      == Some(Blank().(alert := FirstAlert(speech.records)))
  {
    var records := speech.records;
    AlertByStop(records, n);
    AlertBeforeEnd(records, n);
    CutFlight(records, n, finiteField);
    FramesNotEmpty(records);
    WholeReaches(records, n, Handshakes(records));
    GreetingUnread(speech, Whole(records, n), finiteField);
  }

  lemma GreetingUnread(speech: Speech, c: nat, finiteField: FiniteFieldResolver)
    requires speech.Greeting? && speech.Valid(finiteField) && c < Handshakes(speech.records)
    ensures c <= |speech.records| && MessagesIn(speech.records, c) == []
    ensures !Around(Blank(), speech.records, c).encrypted
  {
    MessagesArrived(speech.records, [], HelloOf(speech), c);
    NoneOfKindBefore(APPLICATION_DATA, speech.records, c, Handshakes(speech.records));
  }

  // Below TLS 1.3: the hello and the alert of what is heard.
  lemma SpeakingHeard(speech: Speech, arrivals: seq<Read>, more: seq<Read>, finiteField: FiniteFieldResolver)
    requires speech.Speaking? && speech.Valid(finiteField) && Delivers(arrivals, speech, finiteField)
    ensures var answer := Answer(arrivals + more, finiteField);
      && answer.Ok?
      && !answer.value.Refused()
      && (HelloInTime(arrivals, speech, finiteField) ==>
        answer.value.serverHello == Some(Meaning(speech.flight.hello)))
      && (!HelloInTime(arrivals, speech, finiteField) ==>
        answer.value == Blank().(alert := FirstAlert(speech.records)))
  {
    ServerFlightRoundTrip(speech.flight, speech.done, speech.records, arrivals, more, finiteField);
    if !HelloInTime(arrivals, speech, finiteField) {
      HushedFlight(speech.flight, speech.done, speech.records, arrivals, more, finiteField);
    }
  }

  // A speech that is all in time has its hello in time.
  lemma HelloIsInTime(arrivals: seq<Read>, speech: Speech, finiteField: FiniteFieldResolver)
    requires speech.Valid(finiteField) && AllInTime(arrivals, speech, finiteField)
    ensures HelloInTime(arrivals, speech, finiteField)
  {
    if speech.Speaking? {
      HelloByEnd(speech.flight, speech.done, speech.records, finiteField);
    }
  }

  // Whatever is to be said can be sent in a single read, and is then all in time.
  function Spoken(speech: Speech): seq<Byte> {
    if speech.Refusing? then RefusalRecord(speech) else Concat(speech.records)
  }

  lemma SpokenAtOnce(speech: Speech, finiteField: FiniteFieldResolver)
    requires speech.Valid(finiteField)
    ensures var arrivals := [Read(Spoken(speech), false)];
      && arrivals[..1] == arrivals
      && Delivers(arrivals, speech, finiteField)
      && AllInTime(arrivals, speech, finiteField)
  {
    var arrivals := [Read(Spoken(speech), false)];
    OneRead(Spoken(speech));
    match speech
    case Refusing(_, _) =>
    case Speaking(flight, done, records) => StopsInside(records, Front(flight), done);
    case Greeting(_, records) => StopsInside(records, [], HelloOf(speech));
  }

  // --- On a connection --------------------------------------------------------------------------

  // The first k reads of a connection deliver a speech.
  ghost predicate Carrying(connection: Connection, k: nat, speech: Speech, finiteField: FiniteFieldResolver) {
    && connection.Opened? && k <= |connection.arrivals|
    && speech.Valid(finiteField)
    && Delivers(connection.arrivals[..k], speech, finiteField)
  }

  lemma ReplyIs(wire: Wire, settings: Settings, registry: Registry, n: nat, hello: ClientHello)
    requires Marshalled(hello, wire.entropy(n)).Ok?
    requires wire.server(n, Marshalled(hello, wire.entropy(n)).value).Opened?
    requires Answer(wire.server(n, Marshalled(hello, wire.entropy(n)).value).arrivals, Resolver(registry)).Ok?
    ensures Over(wire, settings, registry).reply(n, hello)
      == Heard(Answer(wire.server(n, Marshalled(hello, wire.entropy(n)).value).arrivals, Resolver(registry)).value)
  {
    assert Over(wire, settings, registry).reply(n, hello) == ReplyOver(wire, registry, n, hello);
  }

  // The connection that answers the n-th hello.
  function ConnectionOf(wire: Wire, n: nat, hello: ClientHello): Connection
    requires Marshalled(hello, wire.entropy(n)).Ok?
  {
    wire.server(n, Marshalled(hello, wire.entropy(n)).value)
  }

  // A speech that is all in time is what the probe takes from the connection.
  lemma WholeReply(
    wire: Wire, settings: Settings, registry: Registry, n: nat, hello: ClientHello, speech: Speech, k: nat)
    returns (encrypted: bool)
    requires Marshalled(hello, wire.entropy(n)).Ok?
    requires Carrying(ConnectionOf(wire, n, hello), k, speech, Resolver(registry))
    requires AllInTime(ConnectionOf(wire, n, hello).arrivals[..k], speech, Resolver(registry))
    ensures Over(wire, settings, registry).reply(n, hello)
      == Heard(Told(speech, Resolver(registry), AlertOf(speech, Resolver(registry)), encrypted))
  {
    var finiteField, arrivals := Resolver(registry), ConnectionOf(wire, n, hello).arrivals;
    SplitAt(arrivals, k);
    HeardExactly(speech, arrivals[..k], arrivals[k..], finiteField);
    encrypted :| Answer(arrivals, finiteField)
      == Ok(Told(speech, finiteField, AlertOf(speech, finiteField), encrypted));
    ReplyIs(wire, settings, registry, n, hello);
  }

  // On a connection the server says this, and all of it is in time.
  ghost predicate SaysWhole(connection: Connection, speech: Speech, finiteField: FiniteFieldResolver) {
    exists k: nat ::
      && Carrying(connection, k, speech, finiteField)
      && AllInTime(connection.arrivals[..k], speech, finiteField)
  }

  lemma SaidAtOnce(speech: Speech, finiteField: FiniteFieldResolver)
    requires speech.Valid(finiteField)
    ensures SaysWhole(Opened([Read(Spoken(speech), false)]), speech, finiteField)
  {
    SpokenAtOnce(speech, finiteField);
    assert Carrying(Opened([Read(Spoken(speech), false)]), 1, speech, finiteField);
  }

  // On a connection the server says this, but a warning in it stops the reading before the
  // hello is in.
  ghost predicate Stifles(connection: Connection, speech: Speech, finiteField: FiniteFieldResolver) {
    exists k: nat ::
      && Carrying(connection, k, speech, finiteField)
      && !HelloInTime(connection.arrivals[..k], speech, finiteField)
  }

  // Of what is stifled the alert is heard and nothing else, and that is no refusal.
  lemma StifledHeard(connection: Connection, speech: Speech, finiteField: FiniteFieldResolver)
    requires Stifles(connection, speech, finiteField)
    ensures !speech.Refusing? && speech.Valid(finiteField)
    ensures Answer(connection.arrivals, finiteField) == Ok(Blank().(alert := FirstAlert(speech.records)))
    ensures NotFatal(speech.records)
  {
    var k: nat :|
      && Carrying(connection, k, speech, finiteField)
      && !HelloInTime(connection.arrivals[..k], speech, finiteField);
    SplitAt(connection.arrivals, k);
    if speech.Speaking? {
      SpeakingHeard(speech, connection.arrivals[..k], connection.arrivals[k..], finiteField);
    } else {
      GreetingHeard(speech, connection.arrivals[..k], connection.arrivals[k..], finiteField);
    }
  }
}
