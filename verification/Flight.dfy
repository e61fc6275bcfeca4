/**
 A server's answer to one hello: when it has said everything a probe can read, how the
 answer is collected off the connection, and what is read out of it
 (FlightIsComplete and ParseFlight in pkg/tls/wire/server_response.go, and the read
 loop of handshake in pkg/tls/probe/probe.go).
 */
module Flights {
  import opened Bytes
  import opened Readers
  import opened Framing
  import opened ServerHellos
  import opened KeyExchanges

  const SERVER_HELLO: Byte := 2
  const CERTIFICATE: Byte := 11
  const SERVER_KEY_EXCHANGE: Byte := 12
  const SERVER_HELLO_DONE: Byte := 14
  const CERTIFICATE_STATUS: Byte := 22

  // --- When a flight is over --------------------------------------------------------

  // A message after which nothing more can be read: the end of a flight below TLS 1.3,
  // a retry request, or a hello after which everything is encrypted. A hello that
  // cannot be read ends nothing.
  predicate Ends(m: Message) {
    || m.kind == SERVER_HELLO_DONE
    || (m.kind == SERVER_HELLO
        && var hello := Parse(m.body);
           hello.Some? && (hello.value.isHelloRetryRequest || hello.value.version >= VERSION_TLS13))
  }

  predicate Complete(stream: seq<Byte>) {
    var r := Reassembly(stream);
    r.alert.Some? || r.encrypted != [] || exists m :: m in Messages(r.handshake) && Ends(m)
  }

  method FlightIsComplete(stream: seq<Byte>) returns (complete: bool)
    ensures complete <==> Complete(stream)
  {
    var records := Reassemble(stream);
    if records.alert.Some? || |records.encrypted| != 0 {
      return true;
    }
    var messages := SplitHandshake(records.handshake);
    for i := 0 to |messages|
      invariant forall j :: 0 <= j < i ==> !Ends(messages[j])
    {
      if messages[i].kind == SERVER_HELLO_DONE {
        assert messages[i] in messages && Ends(messages[i]);
        return true;
      } else if messages[i].kind == SERVER_HELLO {
        var hello := ParseServerHello(messages[i].body);
        if hello.None? {
          continue;
        }
        if hello.value.isHelloRetryRequest || hello.value.version >= VERSION_TLS13 {
          assert messages[i] in messages && Ends(messages[i]);
          return true;
        }
      }
    }
    assert messages == Messages(Reassembly(stream).handshake);
    complete := false;
  }

  // A flight that is over stays over: more bytes never take it back.
  lemma CompleteMonotone(stream: seq<Byte>, more: seq<Byte>)
    requires Complete(stream)
    ensures Complete(stream + more)
  {
    ReassemblyGrows(stream, more);
    var before, after := Reassembly(stream), Reassembly(stream + more);
    if before.alert.None? && before.encrypted == [] {
      var m :| m in Messages(before.handshake) && Ends(m);
      var added := after.handshake[|before.handshake|..];
      assert after.handshake == before.handshake + added;
      MessagesPrefixStable(before.handshake, added);
      assert m in Messages(after.handshake);
    }
  }

  // --- What is read out of a flight ---------------------------------------------------

  // Says whether a negotiated suite exchanges keys over a finite field.
  type FiniteFieldResolver = Word -> bool

  // What is known of a server's answer once its records have been read.
  datatype Flight = Flight(
    serverHello: Option<ServerHello>,
    serverKeyExchange: Option<ServerKeyExchange>,
    certificateBytes: Option<seq<Byte>>,
    certificateStatus: Option<seq<Byte>>,
    hasServerHelloDone: bool,
    alert: Option<Alert>,
    encrypted: bool)
  {
    predicate Refused() {
      alert.Some? && alert.value.Fatal()
    }
  }

  // One message read into the flight, or nothing when it cannot be parsed. A key
  // exchange before any hello is passed over: nothing says how to read it.
  function Note(flight: Flight, m: Message, finiteField: FiniteFieldResolver): Option<Flight> {
    if m.kind == SERVER_HELLO then
      var hello := Parse(m.body);
      if hello.None? then None else Some(flight.(serverHello := hello))
    else if m.kind == CERTIFICATE then
      Some(flight.(certificateBytes := Some(m.body)))
    else if m.kind == CERTIFICATE_STATUS then
      Some(flight.(certificateStatus := Some(m.body)))
    else if m.kind == SERVER_KEY_EXCHANGE then
      if flight.serverHello.None? then Some(flight) else
      var hello := flight.serverHello.value;
      var exchange := ParseKeyExchange(m.body, hello.version, finiteField(hello.cipherSuite));
      if exchange.None? then None else Some(flight.(serverKeyExchange := exchange))
    else if m.kind == SERVER_HELLO_DONE then
      Some(flight.(hasServerHelloDone := true))
    else
      Some(flight)
  }

  function NoteAll(flight: Flight, messages: seq<Message>, finiteField: FiniteFieldResolver): Option<Flight>
    decreases |messages|
  {
    if messages == [] then Some(flight) else
    var noted := Note(flight, messages[0], finiteField);
    if noted.None? then None else NoteAll(noted.value, messages[1..], finiteField)
  }

  function Blank(): Flight {
    Flight(None, None, None, None, false, None, false)
  }

  function Opening(r: Reassembled): Flight {
    Flight(None, None, None, None, false, r.alert, r.encrypted != [])
  }

  function ReadFlight(stream: seq<Byte>, finiteField: FiniteFieldResolver): Option<Flight> {
    var r := Reassembly(stream);
    var messages := Messages(r.handshake);
    if messages == [] then
      if r.alert.Some? then Some(Opening(r)) else None
    else
      NoteAll(Opening(r), messages, finiteField)
  }

  lemma {:induction false} NoteAllAppend(
    flight: Flight, a: seq<Message>, b: seq<Message>, finiteField: FiniteFieldResolver)
    ensures NoteAll(flight, a + b, finiteField) ==
      var first := NoteAll(flight, a, finiteField);
      if first.None? then None else NoteAll(first.value, b, finiteField)
    decreases |a|
  {
    if a == [] {
      assert a + b == b;
    } else {
      assert (a + b)[0] == a[0] && (a + b)[1..] == a[1..] + b;
      var noted := Note(flight, a[0], finiteField);
      if noted.Some? {
        NoteAllAppend(noted.value, a[1..], b, finiteField);
      }
    }
  }

  // Reading messages only adds to a flight.
  lemma {:induction false} NoteAllKeeps(flight: Flight, messages: seq<Message>, finiteField: FiniteFieldResolver)
    requires NoteAll(flight, messages, finiteField).Some?
    ensures var after := NoteAll(flight, messages, finiteField).value;
      && after.alert == flight.alert
      && after.encrypted == flight.encrypted
      && (flight.hasServerHelloDone ==> after.hasServerHelloDone)
      && (flight.serverHello.Some? ==> after.serverHello.Some?)
    decreases |messages|
  {
    if messages != [] {
      NoteAllKeeps(Note(flight, messages[0], finiteField).value, messages[1..], finiteField);
    }
  }

  // Which alert and encrypted records the flight opened with makes no difference to
  // what the messages say.
  lemma {:induction false} NoteAllFrame(
    a: Flight, b: Flight, messages: seq<Message>, finiteField: FiniteFieldResolver)
    requires a == b.(alert := a.alert, encrypted := a.encrypted)
    ensures var na, nb := NoteAll(a, messages, finiteField), NoteAll(b, messages, finiteField);
      && (na.Some? <==> nb.Some?)
      && (na.Some? ==> na.value == nb.value.(alert := a.alert, encrypted := a.encrypted))
    decreases |messages|
  {
    if messages != [] {
      var na, nb := Note(a, messages[0], finiteField), Note(b, messages[0], finiteField);
      if na.Some? {
        NoteAllFrame(na.value, nb.value, messages[1..], finiteField);
      }
    }
  }

  // What one successful reading found, every longer one that succeeds finds too.
  lemma FlightFactsPersist(stream: seq<Byte>, more: seq<Byte>, finiteField: FiniteFieldResolver)
    requires ReadFlight(stream, finiteField).Some? && ReadFlight(stream + more, finiteField).Some?
    ensures var before, after := ReadFlight(stream, finiteField).value, ReadFlight(stream + more, finiteField).value;
      && (before.alert.Some? ==> after.alert == before.alert)
      && (before.encrypted ==> after.encrypted)
      && (before.hasServerHelloDone ==> after.hasServerHelloDone)
      && (before.serverHello.Some? ==> after.serverHello.Some?)
  {
    ReassemblyGrows(stream, more);
    var r1, r2 := Reassembly(stream), Reassembly(stream + more);
    var added := r2.handshake[|r1.handshake|..];
    assert r2.handshake == r1.handshake + added;
    MessagesPrefixStable(r1.handshake, added);
    var m1, m2 := Messages(r1.handshake), Messages(r2.handshake);
    var later := m2[|m1|..];
    assert m2 == m1 + later;
    NoteAllKeeps(Opening(r1), m1, finiteField);
    NoteAllKeeps(Opening(r2), m2, finiteField);
    if m1 != [] {
      NoteAllAppend(Opening(r2), m1, later, finiteField);
      NoteAllFrame(Opening(r1), Opening(r2), m1, finiteField);
      NoteAllKeeps(NoteAll(Opening(r2), m1, finiteField).value, later, finiteField);
    }
  }

  method ParseFlight(stream: seq<Byte>, finiteField: FiniteFieldResolver) returns (flight: Option<Flight>)
    ensures flight == ReadFlight(stream, finiteField)
  {
    var records := Reassemble(stream);
    var read := Flight(None, None, None, None, false, records.alert, |records.encrypted| != 0);
    var messages := SplitHandshake(records.handshake);
    if |messages| == 0 {
      if records.alert.Some? {
        return Some(read);
      }
      return None;
    }
    for i := 0 to |messages|
      invariant NoteAll(Opening(records), messages, finiteField) == NoteAll(read, messages[i..], finiteField)
    {
      var m := messages[i];
      assert messages[i..][0] == m && messages[i..][1..] == messages[i + 1..];
      match m.kind {
        case 2 =>
          var hello := ParseServerHello(m.body);
          if hello.None? {
            return None;
          }
          read := read.(serverHello := hello);
        case 11 => read := read.(certificateBytes := Some(m.body));
        case 22 => read := read.(certificateStatus := Some(m.body));
        case 12 =>
          if read.serverHello.None? {
            continue;
          }
          var hello := read.serverHello.value;
          var exchange := ParseServerKeyExchange(m.body, hello.version, finiteField(hello.cipherSuite));
          if exchange.None? {
            return None;
          }
          read := read.(serverKeyExchange := exchange);
        case 14 => read := read.(hasServerHelloDone := true);
        case _ =>
      }
    }
    flight := Some(read);
  }

  // --- The read loop ------------------------------------------------------------------

  // One read off the connection: what arrived, and whether the connection then failed
  // or was closed.
  datatype Read = Read(bytes: seq<Byte>, failed: bool)

  // How many reads the loop makes, and what it has collected by then. A connection that
  // has no more reads to give is over.
  function ReadsMade(stream: seq<Byte>, arrivals: seq<Read>): (made: nat)
    ensures made <= |arrivals|
    decreases |arrivals|
  {
    if arrivals == [] then 0 else
    var collected := stream + arrivals[0].bytes;
    if arrivals[0].failed || Complete(collected) then 1 else 1 + ReadsMade(collected, arrivals[1..])
  }

  function Arrived(arrivals: seq<Read>): seq<Byte> {
    if arrivals == [] then [] else arrivals[0].bytes + Arrived(arrivals[1..])
  }

  lemma {:induction false} ArrivedSnoc(arrivals: seq<Read>, last: Read)
    ensures Arrived(arrivals + [last]) == Arrived(arrivals) + last.bytes
  {
    if arrivals == [] {
      assert arrivals + [last] == [last];
      assert Arrived([last]) == last.bytes + Arrived([]);
    } else {
      ArrivedSnoc(arrivals[1..], last);
      assert (arrivals + [last])[1..] == arrivals[1..] + [last];
      Associate(arrivals[0].bytes, Arrived(arrivals[1..]), last.bytes);
    }
  }

  method Collect(arrivals: seq<Read>) returns (stream: seq<Byte>, made: nat)
    ensures made == ReadsMade([], arrivals)
    ensures stream == Arrived(arrivals[..made])
  {
    stream, made := [], 0;
    while made < |arrivals|
      invariant made <= |arrivals|
      invariant stream == Arrived(arrivals[..made])
      invariant ReadsMade([], arrivals) == made + ReadsMade(stream, arrivals[made..])
    {
      var next := arrivals[made];
      assert arrivals[..made + 1] == arrivals[..made] + [next];
      ArrivedSnoc(arrivals[..made], next);
      assert arrivals[made..][0] == next && arrivals[made..][1..] == arrivals[made + 1..];
      stream := stream + next.bytes;
      made := made + 1;
      if next.failed {
        return;
      }
      var complete := FlightIsComplete(stream);
      if complete {
        return;
      }
    }
  }

  datatype NoFlight = NoAnswer | Unreadable

  function Answer(arrivals: seq<Read>, finiteField: FiniteFieldResolver): Result<Flight, NoFlight> {
    var stream := Arrived(arrivals[..ReadsMade([], arrivals)]);
    if stream == [] then Err(NoAnswer) else
    var flight := ReadFlight(stream, finiteField);
    if flight.None? then Err(Unreadable) else Ok(flight.value)
  }

  // The part of handshake after the hello has been written.
  method Receive(arrivals: seq<Read>, finiteField: FiniteFieldResolver) returns (r: Result<Flight, NoFlight>)
    ensures r == Answer(arrivals, finiteField)
  {
    var stream, made := Collect(arrivals);
    if |stream| == 0 {
      return Err(NoAnswer);
    }
    var flight := ParseFlight(stream, finiteField);
    if flight.None? {
      return Err(Unreadable);
    }
    r := Ok(flight.value);
  }

  // --- Flights that cannot be read, and reads that fail -------------------------------------------

  // A hello that cannot be read makes the whole flight unreadable, wherever it stands.
  lemma {:induction false} BadHelloUnreadable(
    flight: Flight, messages: seq<Message>, m: Message, finiteField: FiniteFieldResolver)
    requires m in messages && m.kind == 2 && Parse(m.body).None?
    ensures NoteAll(flight, messages, finiteField).None?
    decreases |messages|
  {
    if messages[0] != m {
      assert messages == [messages[0]] + messages[1..];
      if Note(flight, messages[0], finiteField).Some? {
        BadHelloUnreadable(Note(flight, messages[0], finiteField).value, messages[1..], m, finiteField);
      }
    }
  }

  // A key exchange is read by the hello before it: one that cannot be makes the flight
  // unreadable, and one with no hello before it is passed over.
  lemma ExchangeNeedsHello(flight: Flight, body: seq<Byte>, rest: seq<Message>, finiteField: FiniteFieldResolver)
    ensures var messages := [Message(12, body)] + rest;
      && (flight.serverHello.None? ==>
        NoteAll(flight, messages, finiteField) == NoteAll(flight, rest, finiteField))
      && (flight.serverHello.Some? ==>
        var hello := flight.serverHello.value;
        ParseKeyExchange(body, hello.version, finiteField(hello.cipherSuite)).None? ==>
          NoteAll(flight, messages, finiteField).None?)
  {
    assert ([Message(12, body)] + rest)[1..] == rest;
  }

  // An alert alone is a flight; nothing at all is not.
  lemma AlertAlone(stream: seq<Byte>, finiteField: FiniteFieldResolver)
    requires Messages(Reassembly(stream).handshake) == []
    ensures ReadFlight(stream, finiteField).Some? <==> Reassembly(stream).alert.Some?
    ensures ReadFlight(stream, finiteField).Some? ==>
      && ReadFlight(stream, finiteField).value.alert == Reassembly(stream).alert
      && ReadFlight(stream, finiteField).value.serverHello.None?
      && (ReadFlight(stream, finiteField).value.encrypted <==> Reassembly(stream).encrypted != [])
  {
  }

  // A read that fails is the last one made, and what it brought counts.
  lemma {:induction false} FailedReadEnds(stream: seq<Byte>, before: seq<Read>, bytes: seq<Byte>, later: seq<Read>)
    requires forall i :: 0 <= i < |before| ==> !before[i].failed
    requires forall i :: 0 < i <= |before| ==> !Complete(stream + Arrived(before[..i]))
    ensures var arrivals := before + ([Read(bytes, true)] + later);
      && ReadsMade(stream, arrivals) == |before| + 1
      && Arrived(arrivals[..|before| + 1]) == Arrived(before) + bytes
    decreases |before|
  {
    var arrivals := before + ([Read(bytes, true)] + later);
    assert arrivals[..|before| + 1] == before + [Read(bytes, true)];
    ArrivedSnoc(before, Read(bytes, true));
    if before != [] {
      var next := stream + before[0].bytes;
      assert before[..1] == [before[0]];
      assert Arrived(before[..1]) == before[0].bytes + Arrived(before[..1][1..]) == before[0].bytes;
      ConsAppend(before, [Read(bytes, true)] + later);
      forall i | 0 < i <= |before[1..]| ensures !Complete(next + Arrived(before[1..][..i])) {
        assert before[..i + 1][0] == before[0] && before[..i + 1][1..] == before[1..][..i];
        Associate(stream, before[0].bytes, Arrived(before[1..][..i]));
        assert !Complete(stream + Arrived(before[..i + 1]));
      }
      FailedReadEnds(next, before[1..], bytes, later);
    }
  }
}
